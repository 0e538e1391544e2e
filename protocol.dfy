/** The session engine of `handleConnection` as a function of the bytes the
    client sends and of the projects table: the replies written, the emails
    handed to the store, and the final session state. The imperative engine
    in module `Server` is proved to compute exactly this. */
module Protocol {
  import opened Wrappers
  import opened Strings
  import opened Models
  import opened Store
  import opened Auth
  import opened Wire
  import opened DataPhase

  /** The replies the engine writes. */
  datatype Reply =
    | Greeting
    | HelloDomain | HelloAuth | HelloOk
    | PlainChallenge | UsernameChallenge | PasswordChallenge
    | AuthSucceeded | AuthFailed
    | SenderOk | RecipientOk
    | AuthRequired
    | StartData | Queued
    | Bye
    | UnknownCommand

  /** The text of each reply; the engine writes it followed by a line feed. */
  function Text(r: Reply): string
  {
    match r
    case Greeting => "220 smtp.localhost SMTP Service Ready"
    case HelloDomain => "250-smtp.localhost"
    case HelloAuth => "250-AUTH LOGIN PLAIN"
    case HelloOk => "250 OK"
    case PlainChallenge => "334 "
    case UsernameChallenge => "334 VXNlcm5hbWU6"
    case PasswordChallenge => "334 UGFzc3dvcmQ6"
    case AuthSucceeded => "235 2.7.0 Authentication successful"
    case AuthFailed => "535 5.7.8 Authentication failed"
    case SenderOk => "250 2.1.0 Ok"
    case RecipientOk => "250 2.1.5 Ok"
    case AuthRequired => "530 5.7.0 Authentication required"
    case StartData => "354 End data with <CR><LF>.<CR><LF>"
    case Queued => "250 2.0.0 Ok: queued"
    case Bye => "221 2.0.0 Bye"
    case UnknownCommand => "500 5.5.1 Unknown command"
  }

  /** The writes made for a sequence of replies, one write per reply. */
  function Written(rs: seq<Reply>): (w: seq<string>)
    ensures |w| == |rs|
    decreases |rs|
  {
    if rs == [] then [] else [Text(rs[0]) + "\n"] + Written(rs[1..])
  }

  /** Each write is the text of its reply and a line feed. */
  lemma {:induction false} WrittenLines(rs: seq<Reply>)
    ensures forall i :: 0 <= i < |rs| ==> Written(rs)[i] == Text(rs[i]) + "\n"
    decreases |rs|
  {
    if rs != [] {
      WrittenLines(rs[1..]);
      forall i | 0 < i < |rs|
        ensures Written(rs)[i] == Text(rs[i]) + "\n"
      {
        assert Written(rs)[i] == Written(rs[1..])[i - 1];
        assert rs[1..][i - 1] == rs[i];
      }
    }
  }

  /** Writing two runs of replies writes the run of their concatenation. */
  lemma {:induction false} WrittenAppend(a: seq<Reply>, b: seq<Reply>)
    ensures Written(a + b) == Written(a) + Written(b)
    decreases |a|
  {
    if a == [] {
      assert a + b == b;
    } else {
      assert (a + b)[0] == a[0] && (a + b)[1..] == a[1..] + b;
      WrittenAppend(a[1..], b);
    }
  }

  /** The locals of one connection; `body` and `raw` are the two buffers of
      the DATA phase. */
  datatype State = State(
    project: Option<Project>,
    from: string,
    to: seq<string>,
    body: string,
    raw: string,
    subject: string,
    authenticated: bool)

  const Initial := State(None, [], [], [], [], [], false)

  /** The engine keeps a project exactly when it is authenticated, and that
      project came from the table. */
  predicate Inv(st: State, projects: seq<Project>)
  {
    st.authenticated == st.project.Some? &&
    (st.project.Some? ==> st.project.value in projects)
  }

  /** A command line as the dispatch sees it. `AuthPlain` carries the inline
      payload when the line has exactly three fields; the two address
      commands carry their argument with `<` and `>` trimmed off its ends. */
  datatype Command =
    | Hello
    | AuthPlain(inline: Option<string>)
    | AuthLogin
    | MailFrom(sender: string)
    | RcptTo(recipient: string)
    | Data
    | Quit
    | Unknown

  /** The dispatch of a trimmed line: case-sensitive prefix tests in a fixed
      order, then two exact matches. */
  function Classify(line: string): (c: Command)
    ensures c == Hello <==> "HELO" <= line || "EHLO" <= line
    ensures c.AuthPlain? <==> !("HELO" <= line || "EHLO" <= line) && "AUTH PLAIN" <= line
    ensures c.AuthPlain? ==> (c.inline.Some? <==> |Fields(line)| == 3)
    ensures c.AuthPlain? && c.inline.Some? ==> |Fields(line)| == 3 && c.inline.value == Fields(line)[2]
    ensures c == AuthLogin <==>
              !("HELO" <= line || "EHLO" <= line || "AUTH PLAIN" <= line) && "AUTH LOGIN" <= line
    ensures c.MailFrom? <==>
              !("HELO" <= line || "EHLO" <= line || "AUTH PLAIN" <= line || "AUTH LOGIN" <= line) &&
              "MAIL FROM:" <= line
    ensures c.RcptTo? <==>
              !("HELO" <= line || "EHLO" <= line || "AUTH PLAIN" <= line || "AUTH LOGIN" <= line ||
                "MAIL FROM:" <= line) && "RCPT TO:" <= line
    ensures c.MailFrom? ==> c.sender == Trim(line[10..], Brackets)
    ensures c.RcptTo? ==> c.recipient == Trim(line[8..], Brackets)
    ensures c == Data <==> line == "DATA"
    ensures c == Quit <==> line == "QUIT"
    ensures c.Unknown? <==>
              !("HELO" <= line || "EHLO" <= line || "AUTH PLAIN" <= line || "AUTH LOGIN" <= line ||
                "MAIL FROM:" <= line || "RCPT TO:" <= line || line == "DATA" || line == "QUIT")
  {
    assert line == "QUIT" || line == "DATA" ==> line[0] in {'Q', 'D'};
    if "HELO" <= line || "EHLO" <= line then Hello
    else if "AUTH PLAIN" <= line then
      var parts := Fields(line);
      AuthPlain(if |parts| == 3 then Some(parts[2]) else None)
    else if "AUTH LOGIN" <= line then AuthLogin
    else if "MAIL FROM:" <= line then MailFrom(Trim(TrimPrefix(line, "MAIL FROM:"), Brackets))
    else if "RCPT TO:" <= line then RcptTo(Trim(TrimPrefix(line, "RCPT TO:"), Brackets))
    else if line == "DATA" then Data
    else if line == "QUIT" then Quit
    else Unknown
  }

  /** What one command does: the new state, the replies, the bytes still
      unread, the emails saved, and whether the connection ends. */
  datatype Outcome = Outcome(st: State, replies: seq<Reply>, rest: string, saved: seq<Email>, quit: bool)

  /** The end of both AUTH mechanisms, after their challenges: a project
      found for the credentials authenticates the session, replacing any
      earlier one; otherwise the reply is `535` and the session, including an
      earlier authentication, is left exactly as it was. */
  function AuthStep(st: State, challenges: seq<Reply>, user: string, pass: string, rest: string, projects: seq<Project>): (o: Outcome)
    requires Inv(st, projects)
    ensures Inv(o.st, projects) && o.rest == rest && o.saved == [] && !o.quit
    ensures var found := FindProject(projects, user, pass);
            (found.Some? && o.replies == challenges + [AuthSucceeded] &&
             o.st == st.(project := found, authenticated := true)) ||
            (found.None? && o.replies == challenges + [AuthFailed] && o.st == st)
  {
    var found := FindProject(projects, user, pass);
    if found.Some? then Outcome(st.(project := found, authenticated := true), challenges + [AuthSucceeded], rest, [], false)
    else Outcome(st, challenges + [AuthFailed], rest, [], false)
  }

  /** The challenges come first and change nothing else. */
  lemma AuthStepChallenges(st: State, challenges: seq<Reply>, user: string, pass: string, rest: string, projects: seq<Project>)
    requires Inv(st, projects)
    ensures var o := AuthStep(st, [], user, pass, rest, projects);
            AuthStep(st, challenges, user, pass, rest, projects) == o.(replies := challenges + o.replies)
  {
  }

  /** The credentials of AUTH PLAIN: from the inline payload, or else from one
      more read whose error is ignored. */
  function PlainCredentials(inline: Option<string>, input: string): (r: (string, string, string))
    ensures |r.2| <= |input|
    ensures inline.Some? ==> r.2 == input && PlainSplit(DecodeBase64(inline.value), (r.0, r.1))
    ensures inline.None? ==>
              var line := ReadString(input);
              line.text + r.2 == input && PlainSplit(DecodeBase64(line.text), (r.0, r.1))
  {
    if inline.Some? then
      var (user, pass) := HandleAuthPlain(inline.value);
      (user, pass, input)
    else
      var line := ReadString(input);
      var (user, pass) := HandleAuthPlain(line.text);
      (user, pass, line.rest)
  }

  /** The credentials of AUTH LOGIN: two reads whose errors are ignored, each
      decoded and then trimmed. */
  function LoginCredentials(input: string): (r: (string, string, string))
    ensures |r.2| <= |input|
    ensures var u := ReadString(input);
            u.text + ReadString(u.rest).text + r.2 == input
    ensures Bare(r.0, Spaces) && Bare(r.1, Spaces)
  {
    var u := ReadString(input);
    var p := ReadString(u.rest);
    (TrimSpace(DecodeBase64(u.text)), TrimSpace(DecodeBase64(p.text)), p.rest)
  }

  /** An accepted DATA: the phase refills both buffers, and the email is saved
      when the envelope has a sender and at least one recipient. */
  function DataStep(st: State, input: string, projects: seq<Project>): (o: Outcome)
    requires Inv(st, projects) && st.authenticated
    ensures Inv(o.st, projects) && |o.rest| <= |input| && !o.quit
    ensures o.replies == [StartData, Queued]
    ensures o.st == st.(body := o.st.body, raw := o.st.raw, subject := o.st.subject)
    ensures o.st.subject == if st.subject != [] then st.subject else FirstSubject(Lines(o.st.body))
    ensures o.saved == if st.from != [] && |st.to| > 0
                       then [Email(st.project.value.id, st.from, st.to, o.st.subject, o.st.body, o.st.raw)]
                       else []
  {
    AccumulateSubject(input, st.subject);
    var a := Accumulate(input, st.subject);
    var st' := st.(body := a.body, raw := a.raw, subject := a.subject);
    var saved :=
      if st.authenticated && st.from != [] && |st.to| > 0
      then [Email(st.project.value.id, st.from, st.to, a.subject, a.body, a.raw)]
      else [];
    Outcome(st', [StartData, Queued], a.rest, saved, false)
  }

  /** What every step promises. Besides keeping `Inv`, a step never reads
      back and ends the connection exactly on QUIT. Authentication is
      monotone, and the project and flag change only through an AUTH whose
      last reply is `235`; once authenticated, nothing is refused with `530`.
      Only an accepted MAIL FROM changes the sender, overwriting it, and only
      an accepted RCPT TO changes the recipients, appending one. A subject,
      once set, stays, and only DATA fills an empty one. Only an accepted DATA
      saves, and then only the one email made of the session's fields and the
      new buffers. */
  predicate Keeps(st: State, cmd: Command, input: string, o: Outcome, projects: seq<Project>)
    requires Inv(st, projects)
  {
    Inv(o.st, projects) &&
    |o.rest| <= |input| &&
    (o.quit <==> cmd == Quit) &&
    o.replies != [] &&
    (st.authenticated ==> o.st.authenticated && AuthRequired !in o.replies) &&
    (o.st.project != st.project || o.st.authenticated != st.authenticated ==>
       (cmd.AuthPlain? || cmd.AuthLogin?) && o.replies[|o.replies| - 1] == AuthSucceeded) &&
    (o.st.from == st.from || (cmd.MailFrom? && st.authenticated && o.st.from == cmd.sender)) &&
    (o.st.to == st.to || (cmd.RcptTo? && st.authenticated && o.st.to == st.to + [cmd.recipient])) &&
    (st.subject != [] ==> o.st.subject == st.subject) &&
    (o.st.subject != st.subject ==> cmd == Data && o.st.subject == FirstSubject(Lines(o.st.body))) &&
    (o.saved != [] ==>
       cmd == Data && st.authenticated && st.from != [] && |st.to| > 0 &&
       o.saved == [Email(st.project.value.id, st.from, st.to, o.st.subject, o.st.body, o.st.raw)])
  }

  /** One command line; `StepKeeps` states what every step promises. */
  function Step(st: State, cmd: Command, input: string, projects: seq<Project>): (o: Outcome)
    requires Inv(st, projects)
    ensures Inv(o.st, projects) && |o.rest| <= |input|
  {
    match cmd
    case Hello => Outcome(st, [HelloDomain, HelloAuth, HelloOk], input, [], false)
    case AuthPlain(inline) =>
      var c := PlainCredentials(inline, input);
      AuthStep(st, if inline.Some? then [] else [PlainChallenge], c.0, c.1, c.2, projects)
    case AuthLogin =>
      var c := LoginCredentials(input);
      AuthStep(st, [UsernameChallenge, PasswordChallenge], c.0, c.1, c.2, projects)
    case MailFrom(sender) =>
      if !st.authenticated then Outcome(st, [AuthRequired], input, [], false)
      else Outcome(st.(from := sender), [SenderOk], input, [], false)
    case RcptTo(recipient) =>
      if !st.authenticated then Outcome(st, [AuthRequired], input, [], false)
      else Outcome(st.(to := st.to + [recipient]), [RecipientOk], input, [], false)
    case Data =>
      if !st.authenticated then Outcome(st, [AuthRequired], input, [], false)
      else DataStep(st, input, projects)
    case Quit => Outcome(st, [Bye], input, [], true)
    case Unknown => Outcome(st, [UnknownCommand], input, [], false)
  }

  /** What the rest of a connection produces. */
  datatype Run = Run(replies: seq<Reply>, saved: seq<Email>, final: State)

  /** The read loop: a failed read (end of stream or error) ends the
      connection; otherwise the trimmed line is dispatched. */
  function Serve(st: State, input: string, projects: seq<Project>): (r: Run)
    requires Inv(st, projects)
    ensures Inv(r.final, projects)
    decreases |input|
  {
    var line := ReadString(input);
    if !line.ok then Run([], [], st)
    else
      var o := Step(st, Classify(TrimSpace(line.text)), line.rest, projects);
      if o.quit then Run(o.replies, o.saved, o.st)
      else
        var n := Serve(o.st, o.rest, projects);
        Run(o.replies + n.replies, o.saved + n.saved, n.final)
  }

  /** A whole connection: the greeting, written before anything is read,
      then the read loop from the initial state. */
  function Session(input: string, projects: seq<Project>): (r: Run)
    ensures r.replies != [] && r.replies[0] == Greeting
  {
    var n := Serve(Initial, input, projects);
    Run([Greeting] + n.replies, n.saved, n.final)
  }

  // ---- One command ----

  /** Before authentication the three gated commands are refused and change
      nothing; a line matching no command changes nothing either. */
  lemma StepRefused(st: State, cmd: Command, input: string, projects: seq<Project>)
    requires Inv(st, projects)
    requires (!st.authenticated && (cmd.MailFrom? || cmd.RcptTo? || cmd == Data)) || cmd == Unknown
    ensures var o := Step(st, cmd, input, projects);
            o.st == st && o.rest == input && o.saved == [] && !o.quit &&
            o.replies == if cmd == Unknown then [UnknownCommand] else [AuthRequired]
  {
  }

  /** An AUTH either succeeds, replying `235` and taking the project from the
      table that matches the credentials, or fails, replying `535` and leaving
      the whole state as it was; a failure never resets an earlier success. */
  predicate AuthOutcome(st: State, challenges: seq<Reply>, o: Outcome, projects: seq<Project>)
  {
    (o.replies == challenges + [AuthSucceeded] && o.st.project.Some? && o.st.project.value in projects &&
     o.st == st.(project := o.st.project, authenticated := true)) ||
    (o.replies == challenges + [AuthFailed] && o.st == st)
  }

  lemma PlainOutcome(st: State, cmd: Command, input: string, projects: seq<Project>)
    requires Inv(st, projects) && cmd.AuthPlain?
    ensures AuthOutcome(st, if cmd.inline.Some? then [] else [PlainChallenge], Step(st, cmd, input, projects), projects)
  {
    var c := PlainCredentials(cmd.inline, input);
    StepPlain(st, cmd, input, projects);
    AuthStepOutcome(st, if cmd.inline.Some? then [] else [PlainChallenge], c.0, c.1, c.2, projects);
  }

  lemma LoginOutcome(st: State, cmd: Command, input: string, projects: seq<Project>)
    requires Inv(st, projects) && cmd == AuthLogin
    ensures AuthOutcome(st, [UsernameChallenge, PasswordChallenge], Step(st, cmd, input, projects), projects)
  {
    var c := LoginCredentials(input);
    StepLogin(st, cmd, input, projects);
    AuthStepOutcome(st, [UsernameChallenge, PasswordChallenge], c.0, c.1, c.2, projects);
  }

  lemma AuthStepOutcome(st: State, challenges: seq<Reply>, user: string, pass: string, rest: string, projects: seq<Project>)
    requires Inv(st, projects)
    ensures AuthOutcome(st, challenges, AuthStep(st, challenges, user, pass, rest, projects), projects)
  {
  }

  /** HELO and EHLO reply with the three greeting lines and change nothing. */
  lemma StepHello(st: State, cmd: Command, input: string, projects: seq<Project>)
    requires Inv(st, projects) && cmd == Hello
    ensures Step(st, cmd, input, projects) == Outcome(st, [HelloDomain, HelloAuth, HelloOk], input, [], false)
  {
  }

  lemma StepPlain(st: State, cmd: Command, input: string, projects: seq<Project>)
    requires Inv(st, projects) && cmd.AuthPlain?
    ensures var c := PlainCredentials(cmd.inline, input);
            Step(st, cmd, input, projects) ==
            AuthStep(st, if cmd.inline.Some? then [] else [PlainChallenge], c.0, c.1, c.2, projects)
  {
  }

  lemma StepLogin(st: State, cmd: Command, input: string, projects: seq<Project>)
    requires Inv(st, projects) && cmd == AuthLogin
    ensures var c := LoginCredentials(input);
            Step(st, cmd, input, projects) == AuthStep(st, [UsernameChallenge, PasswordChallenge], c.0, c.1, c.2, projects)
  {
  }

  /** An accepted MAIL FROM overwrites the sender and replies `250`. */
  lemma StepMailFrom(st: State, cmd: Command, input: string, projects: seq<Project>)
    requires Inv(st, projects) && st.authenticated && cmd.MailFrom?
    ensures Step(st, cmd, input, projects) == Outcome(st.(from := cmd.sender), [SenderOk], input, [], false)
  {
  }

  /** An accepted RCPT TO appends the recipient and replies `250`. */
  lemma StepRcptTo(st: State, cmd: Command, input: string, projects: seq<Project>)
    requires Inv(st, projects) && st.authenticated && cmd.RcptTo?
    ensures Step(st, cmd, input, projects) == Outcome(st.(to := st.to + [cmd.recipient]), [RecipientOk], input, [], false)
  {
  }

  /** An accepted DATA is the DATA phase. */
  lemma StepAccepted(st: State, cmd: Command, input: string, projects: seq<Project>)
    requires Inv(st, projects) && st.authenticated && cmd == Data
    ensures Step(st, cmd, input, projects) == DataStep(st, input, projects)
  {
  }

  /** QUIT replies `221`, changes nothing and ends the connection. */
  lemma StepQuit(st: State, cmd: Command, input: string, projects: seq<Project>)
    requires Inv(st, projects) && cmd == Quit
    ensures Step(st, cmd, input, projects) == Outcome(st, [Bye], input, [], true)
  {
  }

  /** An accepted DATA replies `354` then `250`, keeps the envelope and the
      project, and saves exactly one email, made of the session's fields and
      the new buffers, exactly when there is a sender and a recipient. */
  lemma StepData(st: State, cmd: Command, input: string, projects: seq<Project>)
    requires Inv(st, projects) && st.authenticated && cmd == Data
    ensures var o := Step(st, cmd, input, projects);
            o.replies == [StartData, Queued] && !o.quit &&
            o.st == st.(body := o.st.body, raw := o.st.raw, subject := o.st.subject) &&
            (|o.saved| == 1 <==> st.from != [] && |st.to| > 0) &&
            (o.saved == [] || o.saved == [Email(st.project.value.id, st.from, st.to, o.st.subject, o.st.body, o.st.raw)])
  {
    StepAccepted(st, cmd, input, projects);
  }

  /** What DATA reads when the terminator arrives: `body` is the lines before
      it, `raw` those lines and the terminator, and nothing after it is read. */
  lemma DataTerminated(st: State, lines: seq<string>, term: string, rest: string, projects: seq<Project>)
    requires Inv(st, projects) && st.authenticated
    requires forall i :: 0 <= i < |lines| ==> IsLine(lines[i]) && !IsTerminator(lines[i])
    requires IsLine(term) && IsTerminator(term)
    ensures var o := DataStep(st, Concat(lines) + term + rest, projects);
            o.st.body == Concat(lines) && o.st.raw == Concat(lines) + term && o.rest == rest &&
            o.st.subject == (if st.subject != [] then st.subject else FirstSubject(lines))
  {
    AccumulateTerminated(lines, term, rest, st.subject);
    DataStepBuffers(st, Concat(lines) + term + rest, projects);
  }

  /** What DATA reads when the stream ends first: the partial last line is
      dropped, `raw` and `body` are the whole lines, and the reply is still
      `250` (see `StepData`). */
  lemma DataUnterminated(st: State, lines: seq<string>, partial: string, projects: seq<Project>)
    requires Inv(st, projects) && st.authenticated
    requires forall i :: 0 <= i < |lines| ==> IsLine(lines[i]) && !IsTerminator(lines[i])
    requires '\n' !in partial
    ensures var o := DataStep(st, Concat(lines) + partial, projects);
            o.st.body == Concat(lines) && o.st.raw == Concat(lines) && o.rest == []
  {
    AccumulateUnterminated(lines, partial, st.subject);
    DataStepBuffers(st, Concat(lines) + partial, projects);
  }

  /** Every step keeps `Keeps`. */
  lemma StepKeeps(st: State, cmd: Command, input: string, projects: seq<Project>)
    requires Inv(st, projects)
    ensures Keeps(st, cmd, input, Step(st, cmd, input, projects), projects)
  {
    match cmd
    case AuthPlain(_) => PlainKeeps(st, cmd, input, projects);
    case AuthLogin => LoginKeeps(st, cmd, input, projects);
    case Data =>
      if st.authenticated {
        StepAccepted(st, cmd, input, projects);
      }
    case _ =>
  }

  lemma PlainKeeps(st: State, cmd: Command, input: string, projects: seq<Project>)
    requires Inv(st, projects) && cmd.AuthPlain?
    ensures Keeps(st, cmd, input, Step(st, cmd, input, projects), projects)
  {
    var c := PlainCredentials(cmd.inline, input);
    StepPlain(st, cmd, input, projects);
    AuthKeeps(st, cmd, if cmd.inline.Some? then [] else [PlainChallenge], c.0, c.1, c.2, input, projects);
  }

  lemma LoginKeeps(st: State, cmd: Command, input: string, projects: seq<Project>)
    requires Inv(st, projects) && cmd == AuthLogin
    ensures Keeps(st, cmd, input, Step(st, cmd, input, projects), projects)
  {
    var c := LoginCredentials(input);
    StepLogin(st, cmd, input, projects);
    AuthKeeps(st, cmd, [UsernameChallenge, PasswordChallenge], c.0, c.1, c.2, input, projects);
  }

  /** An AUTH command, whatever the credentials, keeps `Keeps`. */
  lemma AuthKeeps(st: State, cmd: Command, challenges: seq<Reply>, user: string, pass: string, rest: string,
                  input: string, projects: seq<Project>)
    requires Inv(st, projects) && (cmd.AuthPlain? || cmd.AuthLogin?) && |rest| <= |input|
    requires challenges == [] || challenges == [PlainChallenge] || challenges == [UsernameChallenge, PasswordChallenge]
    ensures Keeps(st, cmd, input, AuthStep(st, challenges, user, pass, rest, projects), projects)
  {
  }

  /** The buffers an accepted DATA leaves are those of the phase. */
  lemma DataStepBuffers(st: State, input: string, projects: seq<Project>)
    requires Inv(st, projects) && st.authenticated
    ensures var a := Accumulate(input, st.subject);
            var o := DataStep(st, input, projects);
            o.st.body == a.body && o.st.raw == a.raw && o.st.subject == a.subject && o.rest == a.rest
  {
  }

  // ---- Whole connections ----

  /** The read loop on a complete line. */
  lemma ServeLine(st: State, line: string, rest: string, projects: seq<Project>)
    requires Inv(st, projects) && IsLine(line)
    ensures var o := Step(st, Classify(TrimSpace(line)), rest, projects);
            Serve(st, line + rest, projects) ==
            if o.quit then Run(o.replies, o.saved, o.st)
            else var n := Serve(o.st, o.rest, projects); Run(o.replies + n.replies, o.saved + n.saved, n.final)
  {
    ReadStringLine(line, rest);
  }

  /** A QUIT line, in any state, replies `221` and ends the connection: nothing
      after it is read, answered or saved. */
  lemma ServeQuit(st: State, line: string, rest: string, projects: seq<Project>)
    requires Inv(st, projects) && IsLine(line) && TrimSpace(line) == "QUIT"
    ensures Serve(st, line + rest, projects) == Run([Bye], [], st)
  {
    ServeLine(st, line, rest, projects);
  }

  /** Once authenticated, a connection stays authenticated to its end and is
      never again refused with `530`. */
  lemma {:induction false} ServeAuthenticated(st: State, input: string, projects: seq<Project>)
    requires Inv(st, projects) && st.authenticated
    ensures var r := Serve(st, input, projects);
            r.final.authenticated && AuthRequired !in r.replies
    decreases |input|
  {
    var line := ReadString(input);
    if line.ok {
      var cmd := Classify(TrimSpace(line.text));
      var o := Step(st, cmd, line.rest, projects);
      StepKeeps(st, cmd, line.rest, projects);
      if !o.quit {
        ServeAuthenticated(o.st, o.rest, projects);
      }
    }
  }

  /** An email the engine may save: it has a sender, at least one
      recipient, and belongs to a project of the table. */
  predicate Eligible(e: Email, projects: seq<Project>)
  {
    e.from != [] && e.to != [] && exists p :: p in projects && p.id == e.projectId
  }

  predicate AllEligible(saved: seq<Email>, projects: seq<Project>)
  {
    forall i :: 0 <= i < |saved| ==> Eligible(saved[i], projects)
  }

  /** Every email one step saves is eligible. */
  lemma StepEligible(st: State, cmd: Command, input: string, projects: seq<Project>)
    requires Inv(st, projects)
    ensures AllEligible(Step(st, cmd, input, projects).saved, projects)
  {
    var o := Step(st, cmd, input, projects);
    StepKeeps(st, cmd, input, projects);
    if o.saved != [] {
      assert st.project.value in projects;
      assert Eligible(o.saved[0], projects);
    }
  }

  /** Every email a connection saves is eligible. */
  lemma {:induction false} ServeSaved(st: State, input: string, projects: seq<Project>)
    requires Inv(st, projects)
    ensures AllEligible(Serve(st, input, projects).saved, projects)
    decreases |input|
  {
    var line := ReadString(input);
    if line.ok {
      var cmd := Classify(TrimSpace(line.text));
      var o := Step(st, cmd, line.rest, projects);
      StepEligible(st, cmd, line.rest, projects);
      if !o.quit {
        ServeSaved(o.st, o.rest, projects);
        var n := Serve(o.st, o.rest, projects);
        assert Serve(st, input, projects).saved == o.saved + n.saved;
        assert AllEligible(o.saved + n.saved, projects);
      }
    }
  }

  /** With no project in the table no one can authenticate, so a connection
      saves nothing. */
  lemma SessionWithoutProjects(input: string)
    ensures Session(input, []).saved == []
  {
    ServeWithoutProjects(Initial, input);
  }

  lemma {:induction false} ServeWithoutProjects(st: State, input: string)
    requires Inv(st, [])
    ensures Serve(st, input, []).saved == []
    decreases |input|
  {
    var line := ReadString(input);
    if line.ok {
      var cmd := Classify(TrimSpace(line.text));
      var o := Step(st, cmd, line.rest, []);
      StepKeeps(st, cmd, line.rest, []);
      if !o.quit {
        ServeWithoutProjects(o.st, o.rest);
        var n := Serve(o.st, o.rest, []);
        assert Serve(st, input, []).saved == o.saved + n.saved;
      }
    }
  }

  /** The recipients only grow: those of the state a run starts from are a
      prefix of those it ends with. */
  lemma {:induction false} ServeRecipients(st: State, input: string, projects: seq<Project>)
    requires Inv(st, projects)
    ensures st.to <= Serve(st, input, projects).final.to
    decreases |input|
  {
    var line := ReadString(input);
    if line.ok {
      var cmd := Classify(TrimSpace(line.text));
      var o := Step(st, cmd, line.rest, projects);
      StepRecipients(st, cmd, line.rest, projects);
      if !o.quit {
        ServeRecipients(o.st, o.rest, projects);
        assert Serve(st, input, projects).final == Serve(o.st, o.rest, projects).final;
      }
    }
  }

  lemma StepRecipients(st: State, cmd: Command, input: string, projects: seq<Project>)
    requires Inv(st, projects)
    ensures st.to <= Step(st, cmd, input, projects).st.to
  {
    StepKeeps(st, cmd, input, projects);
  }

  /** A subject, once captured, is kept to the end of the connection and is
      the subject of every email saved after it. */
  lemma {:induction false} ServeSubject(st: State, input: string, projects: seq<Project>)
    requires Inv(st, projects) && st.subject != []
    ensures var r := Serve(st, input, projects);
            r.final.subject == st.subject &&
            forall i :: 0 <= i < |r.saved| ==> r.saved[i].subject == st.subject
    decreases |input|
  {
    var line := ReadString(input);
    if line.ok {
      var cmd := Classify(TrimSpace(line.text));
      var o := Step(st, cmd, line.rest, projects);
      StepSubject(st, cmd, line.rest, projects);
      if !o.quit {
        ServeSubject(o.st, o.rest, projects);
        var n := Serve(o.st, o.rest, projects);
        assert Serve(st, input, projects) == Run(o.replies + n.replies, o.saved + n.saved, n.final);
      }
    }
  }

  lemma StepSubject(st: State, cmd: Command, input: string, projects: seq<Project>)
    requires Inv(st, projects) && st.subject != []
    ensures var o := Step(st, cmd, input, projects);
            o.st.subject == st.subject && forall i :: 0 <= i < |o.saved| ==> o.saved[i].subject == st.subject
  {
    StepKeeps(st, cmd, input, projects);
  }
}
