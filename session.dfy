/** `handleConnection` as the imperative loop it is: one object holds the
    connection's locals, each command is a method that updates them, writes
    its replies and reads what it needs from the socket. Every method is
    proved to do exactly what the corresponding function of `Protocol` says. */
module Server {
  import opened Wrappers
  import opened Strings
  import opened Models
  import opened Store
  import opened Auth
  import Wire
  import opened DataPhase
  import opened Protocol

  /** The client's socket: the bytes the client has yet to send, and the
      writes made to it so far. */
  class Connection {
    var input: string
    var output: seq<string>

    constructor (input: string)
      ensures this.input == input && output == []
    {
      this.input := input;
      output := [];
    }

    /** bufio.Reader.ReadString('\n'); `ok` is false at the end of the
        stream or on a read error. */
    method ReadString() returns (line: string, ok: bool)
      modifies this
      ensures Wire.ReadString(old(input)) == Wire.Read(line, ok, input)
      ensures output == old(output)
    {
      var r := Wire.ReadString(input);
      line, ok, input := r.text, r.ok, r.rest;
    }

    /** conn.Write */
    method Write(s: string)
      modifies this
      ensures output == old(output) + [s] && input == old(input)
    {
      output := output + [s];
    }
  }

  /** Writing two runs of replies one after the other writes their
      concatenation. */
  lemma WrittenAfter(out: seq<string>, first: seq<Reply>, second: seq<Reply>)
    ensures out + Written(first) + Written(second) == out + Written(first + second)
  {
    WrittenAppend(first, second);
  }

  /** The two reads of AUTH LOGIN give its credentials. */
  lemma LoginRead(input: string, usernameEnc: string, passwordEnc: string, rest: string)
    requires var u := Wire.ReadString(input);
             usernameEnc == u.text && Wire.ReadString(u.rest).text == passwordEnc && Wire.ReadString(u.rest).rest == rest
    ensures LoginCredentials(input) == (TrimSpace(DecodeBase64(usernameEnc)), TrimSpace(DecodeBase64(passwordEnc)), rest)
  {
  }

  /** The two AUTH LOGIN challenges, then the outcome of the lookup. */
  lemma Prompted(out: seq<string>, st: State, user: string, pass: string, rest: string, projects: seq<Project>)
    requires Inv(st, projects)
    ensures var o := AuthStep(st, [], user, pass, rest, projects);
            out + Written([UsernameChallenge]) + Written([PasswordChallenge]) + Written(o.replies) ==
            out + Written(AuthStep(st, [UsernameChallenge, PasswordChallenge], user, pass, rest, projects).replies)
  {
    var challenges := [UsernameChallenge, PasswordChallenge];
    var rs := AuthStep(st, [], user, pass, rest, projects).replies;
    AuthStepChallenges(st, challenges, user, pass, rest, projects);
    Pair(UsernameChallenge, PasswordChallenge);
    WrittenAfter(out, [UsernameChallenge], [PasswordChallenge]);
    WrittenAfter(out, challenges, rs);
  }

  /** The engine of one connection: the locals of handleConnection. */
  class Engine {
    const conn: Connection
    const db: Database
    var currentProject: Option<Project>
    var from: string
    var to: seq<string>
    var data: string
    var rawData: string
    var subject: string
    var authenticated: bool

    /** The locals as a value of the protocol model. */
    function Locals(): State
      reads this
    {
      State(currentProject, from, to, data, rawData, subject, authenticated)
    }

    predicate Valid()
      reads this
    {
      Inv(Locals(), db.projects)
    }

    constructor (conn: Connection, db: Database)
      ensures this.conn == conn && this.db == db
      ensures Locals() == Initial && Valid()
    {
      this.conn := conn;
      this.db := db;
      currentProject, from, to, data, rawData, subject, authenticated := None, [], [], [], [], [], false;
    }

    method Send(r: Reply)
      modifies conn
      ensures conn.output == old(conn.output) + Written([r]) && conn.input == old(conn.input)
    {
      conn.Write(Text(r) + "\n");
    }

    /** The lookup and its two outcomes, shared by both AUTH mechanisms. */
    method Authenticate(user: string, pass: string)
      requires Valid()
      modifies this, conn
      ensures Valid()
      ensures var o := AuthStep(old(Locals()), [], user, pass, conn.input, db.projects);
              Locals() == o.st && conn.output == old(conn.output) + Written(o.replies) &&
              conn.input == old(conn.input)
    {
      var project := db.GetProjectBySmtpCredentials(user, pass);
      if project.Some? {
        authenticated := true;
        currentProject := project;
        Send(AuthSucceeded);
      } else {
        Send(AuthFailed);
      }
    }
  
    /** AUTH PLAIN: the payload of a three-field line, or else the `334`
        challenge and one more read, whose error is ignored. */
    method AuthPlain(inline: Option<string>)
      requires Valid()
      modifies this, conn
      ensures Valid()
      ensures var c := PlainCredentials(inline, old(conn.input));
              var o := AuthStep(old(Locals()), if inline.Some? then [] else [PlainChallenge], c.0, c.1, c.2, db.projects);
              Locals() == o.st && conn.output == old(conn.output) + Written(o.replies) && conn.input == o.rest
    {
      ghost var st, input, output := Locals(), conn.input, conn.output;
      var username, password;
      if inline.Some? {
        var credentials := HandleAuthPlain(inline.value);
        username, password := credentials.0, credentials.1;
      } else {
        Send(PlainChallenge);
        var authData, _ := conn.ReadString();
        var credentials := HandleAuthPlain(authData);
        username, password := credentials.0, credentials.1;
      }
      ghost var prompted := conn.output;
      Authenticate(username, password);
      var challenges := if inline.Some? then [] else [PlainChallenge];
      ghost var rs := AuthStep(st, [], username, password, conn.input, db.projects).replies;
      AuthStepChallenges(st, challenges, username, password, conn.input, db.projects);
      assert prompted == output + Written(challenges);
      WrittenAfter(output, challenges, rs);
      assert PlainCredentials(inline, input) == (username, password, conn.input);
    }

    /** AUTH LOGIN: two challenges, each followed by a read whose error is
        ignored and whose text is decoded and then trimmed. */
    method AuthLogin()
      requires Valid()
      modifies this, conn
      ensures Valid()
      ensures var c := LoginCredentials(old(conn.input));
              var o := AuthStep(old(Locals()), [UsernameChallenge, PasswordChallenge], c.0, c.1, c.2, db.projects);
              Locals() == o.st && conn.output == old(conn.output) + Written(o.replies) && conn.input == o.rest
    {
      ghost var st, input, output := Locals(), conn.input, conn.output;
      var usernameEnc := Challenge(UsernameChallenge);
      var username := TrimSpace(DecodeBase64(usernameEnc));
      var passwordEnc := Challenge(PasswordChallenge);
      var password := TrimSpace(DecodeBase64(passwordEnc));
      LoginRead(input, usernameEnc, passwordEnc, conn.input);
      Authenticate(username, password);
      Prompted(output, st, username, password, conn.input, db.projects);
      AuthStepChallenges(st, [UsernameChallenge, PasswordChallenge], username, password, conn.input, db.projects);
    }

    /** One AUTH LOGIN challenge and the read that answers it, whose error is
        ignored. */
    method Challenge(r: Reply) returns (encoded: string)
      modifies conn
      ensures conn.output == old(conn.output) + Written([r])
      ensures var read := Wire.ReadString(old(conn.input));
              encoded == read.text && conn.input == read.rest
    {
      Send(r);
      var line, _ := conn.ReadString();
      encoded := line;
    }

    /** One turn of the read loop: a read, and unless it fails, the command
        it returns. `done` is true when the connection ends, after a failed
        read or QUIT; otherwise the input has shrunk and the invariant of the
        loop still holds. */
    method Next(ghost goal: Run, ghost output: seq<string>, ghost emails: seq<Email>) returns (done: bool)
      requires Valid()
      requires Served(goal, output, emails, conn.output, db.emails, Locals(), conn.input, db.projects)
      modifies this, conn, db
      ensures Valid()
      ensures done ==> conn.output == output + Written(goal.replies) && db.emails == emails + goal.saved
      ensures !done ==> Served(goal, output, emails, conn.output, db.emails, Locals(), conn.input, db.projects) &&
                        |conn.input| < old(|conn.input|)
    {
      ghost var st, input, output1, emails1 := Locals(), conn.input, conn.output, db.emails;
      var line, ok := conn.ReadString();
      if !ok {
        ServedEnd(goal, output, emails, output1, emails1, st, input, db.projects);
        return true;
      }
      ghost var o := Step(st, Classify(TrimSpace(line)), conn.input, db.projects);
      ServeRead(st, input, line, conn.input, db.projects);
      ghost var n := Serve(o.st, o.rest, db.projects);
      done := Handle(Classify(TrimSpace(line)));
      ServedNext(goal, output, emails, output1, emails1, Serve(st, input, db.projects), o, n, conn.output, db.emails);
    }

    /** The read loop itself, from the state after the greeting. */
    method Loop(ghost goal: Run, ghost output: seq<string>, ghost emails: seq<Email>)
      requires Valid()
      requires Served(goal, output, emails, conn.output, db.emails, Locals(), conn.input, db.projects)
      modifies this, conn, db
      ensures conn.output == output + Written(goal.replies) && db.emails == emails + goal.saved
    {
      while true
        invariant Valid()
        invariant Served(goal, output, emails, conn.output, db.emails, Locals(), conn.input, db.projects)
        decreases |conn.input|
      {
        var done := Next(goal, output, emails);
        if done {
          break;
        }
      }
    }

    /** The body of one case of the command switch; `Classify` is the
        chain of case tests that picks it. `quit` is true after QUIT. */
    method Handle(cmd: Command) returns (quit: bool)
      requires Valid()
      modifies this, conn, db
      ensures Valid()
      ensures var o := Step(old(Locals()), cmd, old(conn.input), db.projects);
              Locals() == o.st && conn.output == old(conn.output) + Written(o.replies) &&
              conn.input == o.rest && db.emails == old(db.emails) + o.saved && quit == o.quit
    {
      ghost var st, input := Locals(), conn.input;
      quit := false;
      match cmd
      case Hello =>
        StepHello(st, cmd, input, db.projects);
        Hello();
      case AuthPlain(inline) =>
        StepPlain(st, cmd, input, db.projects);
        AuthPlain(inline);
      case AuthLogin =>
        StepLogin(st, cmd, input, db.projects);
        AuthLogin();
      case MailFrom(sender) =>
        if authenticated {
          StepMailFrom(st, cmd, input, db.projects);
        } else {
          StepRefused(st, cmd, input, db.projects);
        }
        MailFrom(sender);
      case RcptTo(recipient) =>
        if authenticated {
          StepRcptTo(st, cmd, input, db.projects);
        } else {
          StepRefused(st, cmd, input, db.projects);
        }
        RcptTo(recipient);
      case Data =>
        if authenticated {
          StepAccepted(st, cmd, input, db.projects);
        } else {
          StepRefused(st, cmd, input, db.projects);
        }
        Data();
      case Quit =>
        StepQuit(st, cmd, input, db.projects);
        Quit();
        quit := true;
      case Unknown =>
        StepRefused(st, cmd, input, db.projects);
        Unknown();
    }

    /** HELO and EHLO: the three lines of the greeting reply. */
    method Hello()
      modifies conn
      ensures conn.output == old(conn.output) + Written([HelloDomain, HelloAuth, HelloOk]) &&
              conn.input == old(conn.input)
    {
      ghost var output := conn.output;
      Send(HelloDomain);
      Send(HelloAuth);
      Send(HelloOk);
      Greeted(output);
    }

    /** MAIL FROM: refused with `530` before authentication; otherwise the
        sender is overwritten. */
    method MailFrom(sender: string)
      requires Valid()
      modifies this, conn
      ensures Valid() && conn.input == old(conn.input)
      ensures old(authenticated) ==>
                Locals() == old(Locals()).(from := sender) && conn.output == old(conn.output) + Written([SenderOk])
      ensures !old(authenticated) ==>
                Locals() == old(Locals()) && conn.output == old(conn.output) + Written([AuthRequired])
    {
      if !authenticated {
        Send(AuthRequired);
        return;
      }
      from := sender;
      Send(SenderOk);
    }

    /** RCPT TO: refused with `530` before authentication; otherwise the
        recipient is appended. */
    method RcptTo(recipient: string)
      requires Valid()
      modifies this, conn
      ensures Valid() && conn.input == old(conn.input)
      ensures old(authenticated) ==>
                Locals() == old(Locals()).(to := old(to) + [recipient]) &&
                conn.output == old(conn.output) + Written([RecipientOk])
      ensures !old(authenticated) ==>
                Locals() == old(Locals()) && conn.output == old(conn.output) + Written([AuthRequired])
    {
      if !authenticated {
        Send(AuthRequired);
        return;
      }
      to := to + [recipient];
      Send(RecipientOk);
    }

    /** DATA: refused with `530` before authentication, and otherwise the
        whole DATA phase. */
    method Data()
      requires Valid()
      modifies this, conn, db
      ensures Valid()
      ensures var o := if old(authenticated) then DataStep(old(Locals()), old(conn.input), db.projects)
                       else Outcome(old(Locals()), [AuthRequired], old(conn.input), [], false);
              Locals() == o.st && conn.output == old(conn.output) + Written(o.replies) &&
              conn.input == o.rest && db.emails == old(db.emails) + o.saved
    {
      if !authenticated {
        Send(AuthRequired);
      } else {
        Receive();
      }
    }

    /** QUIT: `221`; the caller then ends the connection. */
    method Quit()
      modifies conn
      ensures conn.output == old(conn.output) + Written([Bye]) && conn.input == old(conn.input)
    {
      Send(Bye);
    }

    /** Any other line: `500`. */
    method Unknown()
      modifies conn
      ensures conn.output == old(conn.output) + Written([UnknownCommand]) && conn.input == old(conn.input)
    {
      Send(UnknownCommand);
    }

    /** DATA, once authenticated: `354`, the sub-loop into the two buffers
        just reset, `250` whatever was read, and the email saved when the
        envelope has a sender and a recipient. */
    method Receive()
      requires Valid() && authenticated
      modifies this, conn, db
      ensures Valid()
      ensures var o := DataStep(old(Locals()), old(conn.input), db.projects);
              Locals() == o.st && conn.output == old(conn.output) + Written(o.replies) &&
              conn.input == o.rest && db.emails == old(db.emails) + o.saved
    {
      ghost var st, input, output, emails := Locals(), conn.input, conn.output, db.emails;
      Send(StartData);
      data, rawData := [], [];
      var body, raw, subject' := ReadData(subject);
      data, rawData, subject := data + body, rawData + raw, subject';
      Send(Queued);
      Save();
      DataDone(st, input, db.projects, output, body, raw, subject', conn.input);
    }

    /** Stores the message gathered by DATA when there is a sender and at
        least one recipient. */
    method Save()
      requires Valid() && authenticated
      modifies db
      ensures db.emails == old(db.emails) +
                if from != [] && |to| > 0
                then [Email(currentProject.value.id, from, to, subject, data, rawData)]
                else []
    {
      if authenticated && from != [] && |to| > 0 {
        db.SaveEmail(Email(currentProject.value.id, from, to, subject, data, rawData));
      }
    }

    /** The DATA sub-loop, on the two buffers just reset: every line read
        goes into `raw`; the loop stops at a failed read or after the
        terminator; every other line goes into `body`, and the first
        `Subject:` header fills an empty subject. */
    method ReadData(subject0: string) returns (body: string, raw: string, subject: string)
      modifies conn
      ensures var a := Accumulate(old(conn.input), subject0);
              body == a.body && raw == a.raw && subject == a.subject && conn.input == a.rest
      ensures conn.output == old(conn.output)
    {
      body, raw, subject := [], [], subject0;
      ghost var goal := Accumulate(conn.input, subject0);
      PendingStart(conn.input, subject0);
      while true
        invariant conn.output == old(conn.output)
        invariant Pending(goal, body, raw, conn.input, subject)
        decreases |conn.input|
      {
        ghost var input, raw0 := conn.input, raw;
        var dataLine, ok := conn.ReadString();
        if !ok {
          PendingEnd(goal, body, raw, input, subject, dataLine, conn.input);
          break;
        }
        raw := raw + dataLine;
        if TrimSpace(dataLine) == "." {
          PendingTerminated(goal, body, raw0, input, subject, dataLine, conn.input);
          break;
        }
        PendingLine(goal, body, raw0, input, subject, dataLine, conn.input);
        if IsSubjectLine(dataLine) && subject == [] {
          subject := SubjectOf(dataLine);
        }
        body := body + dataLine;
      }
    }
  }

  /** handleConnection: the greeting, then one command per line read until
      a read fails or QUIT; everything written and saved is what `Session`
      says for the bytes the client sends. */
  method HandleConnection(conn: Connection, db: Database)
    modifies conn, db
    ensures var r := Protocol.Session(old(conn.input), db.projects);
            conn.output == old(conn.output) + Written(r.replies) && db.emails == old(db.emails) + r.saved
  {
    ghost var goal := Protocol.Session(conn.input, db.projects);
    ghost var output, emails := conn.output, db.emails;
    var engine := new Engine(conn, db);
    engine.Send(Greeting);
    ServedStart(conn.input, db.projects, output, emails);
    engine.Loop(goal, output, emails);
  }

  /** The loop invariant of the read loop: what has been written and saved,
      followed by what the rest of the connection produces, is the whole
      connection. */
  predicate Served(goal: Run, output: seq<string>, emails: seq<Email>, out: seq<string>, saved: seq<Email>,
                   st: State, input: string, projects: seq<Project>)
  {
    Inv(st, projects) && Remains(goal, output, emails, out, saved, Serve(st, input, projects))
  }

  /** What has been written and saved, followed by `r`, is the whole
      connection. */
  predicate Remains(goal: Run, output: seq<string>, emails: seq<Email>, out: seq<string>, saved: seq<Email>, r: Run)
  {
    out + Written(r.replies) == output + Written(goal.replies) && saved + r.saved == emails + goal.saved
  }

  lemma ServedStart(input: string, projects: seq<Project>, output: seq<string>, emails: seq<Email>)
    ensures Served(Protocol.Session(input, projects), output, emails, output + Written([Greeting]), emails,
                   Initial, input, projects)
  {
    var n := Serve(Initial, input, projects);
    WrittenAfter(output, [Greeting], n.replies);
  }

  lemma ServedEnd(goal: Run, output: seq<string>, emails: seq<Email>, out: seq<string>, saved: seq<Email>,
                  st: State, input: string, projects: seq<Project>)
    requires Served(goal, output, emails, out, saved, st, input, projects)
    requires !Wire.ReadString(input).ok
    ensures out == output + Written(goal.replies) && saved == emails + goal.saved
  {
    assert Serve(st, input, projects) == Run([], [], st);
    assert out + [] == out && saved + [] == saved;
  }

  /** What the connection produces after one step whose outcome is `o`. */
  function Continue(o: Outcome, projects: seq<Project>): Run
    requires Inv(o.st, projects)
  {
    if o.quit then Run(o.replies, o.saved, o.st)
    else var n := Serve(o.st, o.rest, projects); Run(o.replies + n.replies, o.saved + n.saved, n.final)
  }

  /** The read loop on a line that was read. */
  lemma ServeRead(st: State, input: string, line: string, rest: string, projects: seq<Project>)
    requires Inv(st, projects) && Wire.ReadString(input) == Wire.Read(line, true, rest)
    ensures var o := Step(st, Classify(TrimSpace(line)), rest, projects);
            |o.rest| < |input| && Serve(st, input, projects) == Continue(o, projects)
  {
  }

  /** One step of the read loop, after which either the connection ends or
      `n` remains. */
  lemma ServedNext(goal: Run, output: seq<string>, emails: seq<Email>, out: seq<string>, saved: seq<Email>,
                   r: Run, o: Outcome, n: Run, out': seq<string>, saved': seq<Email>)
    requires Remains(goal, output, emails, out, saved, r)
    requires r == if o.quit then Run(o.replies, o.saved, o.st)
                  else Run(o.replies + n.replies, o.saved + n.saved, n.final)
    requires out' == out + Written(o.replies) && saved' == saved + o.saved
    ensures o.quit ==> out' == output + Written(goal.replies) && saved' == emails + goal.saved
    ensures !o.quit ==> Remains(goal, output, emails, out', saved', n)
  {
    if o.quit {
      assert out' + [] == out' && saved' + [] == saved';
    } else {
      WrittenAfter(out, o.replies, n.replies);
      WrittenAppend(o.replies, n.replies);
      assert saved + (o.saved + n.saved) == saved + o.saved + n.saved;
    }
  }

  /** The three lines of the reply to HELO and EHLO. */
  lemma Greeted(out: seq<string>)
    ensures out + Written([HelloDomain]) + Written([HelloAuth]) + Written([HelloOk]) ==
            out + Written([HelloDomain, HelloAuth, HelloOk])
  {
    Pair(HelloDomain, HelloAuth);
    Triple(HelloDomain, HelloAuth, HelloOk);
    WrittenAfter(out, [HelloDomain], [HelloAuth]);
    assert [HelloDomain, HelloAuth] + [HelloOk] == [HelloDomain, HelloAuth, HelloOk];
    WrittenAfter(out, [HelloDomain, HelloAuth], [HelloOk]);
  }

  /** What DATA writes and leaves, from the result of its sub-loop. */
  lemma DataDone(st: State, input: string, projects: seq<Project>, output: seq<string>,
                 body: string, raw: string, subject: string, rest: string)
    requires Inv(st, projects) && st.authenticated
    requires var a := Accumulate(input, st.subject);
             body == a.body && raw == a.raw && subject == a.subject && rest == a.rest
    ensures var o := DataStep(st, input, projects);
            o.st == st.(body := [] + body, raw := [] + raw, subject := subject) &&
            output + Written([StartData]) + Written([Queued]) == output + Written(o.replies) &&
            o.rest == rest &&
            o.saved == if st.from != [] && |st.to| > 0
                       then [Email(st.project.value.id, st.from, st.to, subject, [] + body, [] + raw)]
                       else []
  {
    assert [] + body == body && [] + raw == raw;
    Pair(StartData, Queued);
    WrittenAfter(output, [StartData], [Queued]);
  }

  /** The loop invariant of the DATA sub-loop: the phase run from the start
      equals the buffers so far followed by the phase run from here. */
  predicate Pending(goal: Accumulated, body: string, raw: string, input: string, subject: string)
  {
    var a := Accumulate(input, subject);
    goal.body == body + a.body && goal.raw == raw + a.raw && goal.subject == a.subject && goal.rest == a.rest
  }

  lemma PendingStart(input: string, subject: string)
    ensures Pending(Accumulate(input, subject), [], [], input, subject)
  {
    var a := Accumulate(input, subject);
    assert [] + a.body == a.body && [] + a.raw == a.raw;
  }

  lemma PendingEnd(goal: Accumulated, body: string, raw: string, input: string, subject: string, line: string, rest: string)
    requires Pending(goal, body, raw, input, subject)
    requires Wire.ReadString(input) == Wire.Read(line, false, rest)
    ensures goal == Accumulated(body, raw, subject, rest, goal.terminated)
  {
    PhaseStep(input, subject, line, false, rest);
    assert body + [] == body && raw + [] == raw;
  }

  lemma PendingTerminated(goal: Accumulated, body: string, raw: string, input: string, subject: string, line: string, rest: string)
    requires Pending(goal, body, raw, input, subject)
    requires Wire.ReadString(input) == Wire.Read(line, true, rest) && IsTerminator(line)
    ensures goal == Accumulated(body, raw + line, subject, rest, goal.terminated)
  {
    PhaseStep(input, subject, line, true, rest);
    assert body + [] == body;
  }

  lemma PendingLine(goal: Accumulated, body: string, raw: string, input: string, subject: string, line: string, rest: string)
    requires Pending(goal, body, raw, input, subject)
    requires Wire.ReadString(input) == Wire.Read(line, true, rest) && !IsTerminator(line)
    ensures Pending(goal, body + line, raw + line, rest,
                    if IsSubjectLine(line) && subject == [] then SubjectOf(line) else subject)
  {
    PhaseStep(input, subject, line, true, rest);
    var b := Accumulate(rest, if IsSubjectLine(line) && subject == [] then SubjectOf(line) else subject);
    AppendAssoc(raw, line, b.raw);
    AppendAssoc(body, line, b.body);
  }

  /** One read of the DATA phase: the end of the stream, the terminator, or
      a line after which the phase goes on. */
  lemma PhaseStep(input: string, subject: string, line: string, ok: bool, rest: string)
    requires Wire.ReadString(input) == Wire.Read(line, ok, rest)
    ensures var a := Accumulate(input, subject);
            !ok ==> a == Accumulated([], [], subject, rest, false)
    ensures var a := Accumulate(input, subject);
            ok && IsTerminator(line) ==> a == Accumulated([], line, subject, rest, true)
    ensures var a := Accumulate(input, subject);
            var b := Accumulate(rest, if IsSubjectLine(line) && subject == [] then SubjectOf(line) else subject);
            ok && !IsTerminator(line) ==> a == b.(body := line + b.body, raw := line + b.raw)
  {
  }
}
