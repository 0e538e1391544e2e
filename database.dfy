/** The store as the session engine sees it: a credential lookup over the
    `projects` table and an append-only log of saved emails. */
module Store {
  import opened Wrappers
  import opened Models

  /** The schema declares `smtp_user` UNIQUE. */
  predicate UniqueUsers(projects: seq<Project>)
  {
    forall i, j :: 0 <= i < j < |projects| ==> projects[i].smtpUser != projects[j].smtpUser
  }

  /** `SELECT ... FROM projects WHERE smtp_user = ? AND smtp_pass = ?`, read
      with QueryRow: the first matching row, or no row. */
  function FindProject(projects: seq<Project>, user: string, pass: string): (r: Option<Project>)
    ensures r.Some? ==> r.value in projects && r.value.smtpUser == user && r.value.smtpPass == pass
    ensures r.None? ==> forall i :: 0 <= i < |projects| ==> !(projects[i].smtpUser == user && projects[i].smtpPass == pass)
    decreases |projects|
  {
    if projects == [] then None
    else if projects[0].smtpUser == user && projects[0].smtpPass == pass then Some(projects[0])
    else FindProject(projects[1..], user, pass)
  }

  /** With unique user names, the lookup finds a stored project exactly from
      its own user name and password. */
  lemma {:induction false} FindProjectStored(projects: seq<Project>, i: nat)
    requires UniqueUsers(projects) && i < |projects|
    ensures FindProject(projects, projects[i].smtpUser, projects[i].smtpPass) == Some(projects[i])
    decreases |projects|
  {
    if i > 0 {
      assert projects[0].smtpUser != projects[i].smtpUser;
      assert UniqueUsers(projects[1..]) by {
        forall a, b | 0 <= a < b < |projects| - 1
          ensures projects[1..][a].smtpUser != projects[1..][b].smtpUser
        {
          assert projects[1..][a] == projects[a + 1] && projects[1..][b] == projects[b + 1];
        }
      }
      FindProjectStored(projects[1..], i - 1);
      assert projects[1..][i - 1] == projects[i];
    }
  }

  class Database {
    const projects: seq<Project>
    var emails: seq<Email>

    constructor (projects: seq<Project>)
      ensures this.projects == projects && emails == []
    {
      this.projects := projects;
      emails := [];
    }

    /** GetProjectBySmtpCredentials; `None` stands for its "no row" error. A
        failing query is not modelled: the lookup always returns the matching
        row when there is one. */
    method GetProjectBySmtpCredentials(user: string, pass: string) returns (p: Option<Project>)
      ensures p.Some? ==> p.value in projects && p.value.smtpUser == user && p.value.smtpPass == pass
      ensures p.None? ==> forall i :: 0 <= i < |projects| ==> !(projects[i].smtpUser == user && projects[i].smtpPass == pass)
      ensures p == FindProject(projects, user, pass)
    {
      p := FindProject(projects, user, pass);
    }

    /** SaveEmail: appends one row to the emails table. */
    method SaveEmail(e: Email)
      modifies this
      ensures emails == old(emails) + [e]
    {
      emails := emails + [e];
    }
  }
}
