/** Whole exchanges of the two SASL mechanisms, from the bytes a client
    sends to the outcome of the command. */
module Scenarios {
  import opened Wrappers
  import opened Strings
  import Base64
  import opened Auth
  import opened Wire
  import opened Models
  import opened Protocol

  /** The PLAIN message `authzid NUL user NUL pass`. */
  function PlainMessage(authzid: string, user: string, pass: string): string
  {
    authzid + [NUL] + user + [NUL] + pass
  }

  /** What a client that encodes the message sends, well formed. */
  predicate PlainParts(authzid: string, user: string, pass: string)
  {
    Base64.IsBytes(PlainMessage(authzid, user, pass)) && NUL !in authzid && NUL !in user && NUL !in pass
  }

  /** A base64 text has no white space in it. */
  lemma EncodedNoSpaces(b: string)
    requires Base64.IsBytes(b)
    ensures forall k :: 0 <= k < |Base64.Encode(b)| ==> Base64.Encode(b)[k] !in Spaces
  {
  }

  /** A line ending in CR LF is dispatched on what comes before them, so
      `AUTH PLAIN\r\n` is dispatched as `AUTH PLAIN`. */
  lemma TrimLine(s: string)
    requires s != [] && s[0] !in Spaces && s[|s| - 1] !in Spaces
    ensures TrimSpace(s + "\r\n") == s
  {
    TrimPadding([], s, "\r\n", Spaces);
    assert [] + s + "\r\n" == s + "\r\n";
    TrimNoop(s, Spaces);
  }

  /** `AUTH PLAIN <payload>`, three fields, carries its payload inline. */
  lemma ClassifyPlainInline(e: string)
    requires IsWord(e)
    ensures Classify("AUTH PLAIN " + e) == AuthPlain(Some(e))
  {
    PlainInlineFields(e);
    var line := "AUTH PLAIN " + e;
    assert "AUTH PLAIN" <= line && line[0] == 'A';
  }

  lemma PlainInlineFields(e: string)
    requires IsWord(e)
    ensures Fields("AUTH PLAIN " + e) == ["AUTH", "PLAIN", e]
  {
    Keywords();
    assert "AUTH PLAIN " + e == "AUTH" + " " + "PLAIN" + " " + e;
    FieldsThree("AUTH", "PLAIN", e);
  }

  /** `AUTH PLAIN` alone, two fields, asks for the payload. */
  lemma ClassifyPlainAlone()
    ensures Classify("AUTH PLAIN") == AuthPlain(None)
  {
    PlainAloneFields();
  }

  lemma PlainAloneFields()
    ensures Fields("AUTH PLAIN") == ["AUTH", "PLAIN"]
  {
    Keywords();
    assert "AUTH PLAIN" == "AUTH" + " " + "PLAIN";
    FieldsTwo("AUTH", "PLAIN");
  }

  lemma Keywords()
    ensures IsWord("AUTH") && IsWord("PLAIN")
  {
  }

  /** A one-line AUTH PLAIN with a well-formed message authenticates exactly
      when the table holds a project with those credentials, with no
      challenge and without reading further. */
  lemma PlainInline(st: State, authzid: string, user: string, pass: string, rest: string, projects: seq<Project>)
    requires Inv(st, projects) && PlainParts(authzid, user, pass)
    ensures var e := Base64.Encode(PlainMessage(authzid, user, pass));
            var o := Step(st, Classify(TrimSpace("AUTH PLAIN " + e + "\r\n")), rest, projects);
            o == AuthStep(st, [], user, pass, rest, projects)
  {
    var m := PlainMessage(authzid, user, pass);
    var e := Base64.Encode(m);
    EncodedNoSpaces(m);
    var line := "AUTH PLAIN " + e;
    assert line[0] == 'A' && line[|line| - 1] == e[|e| - 1];
    TrimLine(line);
    ClassifyPlainInline(e);
    StepPlain(st, Classify(TrimSpace(line + "\r\n")), rest, projects);
    AuthPlainRoundTrip(authzid, user, pass);
  }

  /** A payload line ending in CR LF reads as the payload. */
  lemma EncodedLine(b: string, rest: string)
    requires Base64.IsBytes(b)
    ensures var e := Base64.Encode(b);
            ReadString(e + "\r\n" + rest) == Read(e + "\r\n", true, rest) &&
            DecodeBase64(e + "\r\n") == b
  {
    var e := Base64.Encode(b);
    EncodedNoSpaces(b);
    CrLfLine(e);
    ReadStringLine(e + "\r\n", rest);
    CrLfPadding(e);
    DecodeBase64Encode(b);
  }

  lemma CrLfLine(e: string)
    requires '\n' !in e
    ensures IsLine(e + "\r\n")
  {
    var l := e + "\r\n";
    assert l[..|l| - 1] == e + "\r";
  }

  lemma CrLfPadding(e: string)
    ensures DecodeBase64(e + "\r\n") == DecodeBase64(e)
  {
    DecodeBase64Padding([], e, "\r\n");
    assert [] + e + "\r\n" == e + "\r\n";
  }

  /** AUTH PLAIN in two steps: the `334` challenge, then the message on a line
      of its own, after which the outcome is that of the credentials. */
  lemma PlainChallenged(st: State, cmd: Command, authzid: string, user: string, pass: string, rest: string,
                        projects: seq<Project>)
    requires Inv(st, projects) && PlainParts(authzid, user, pass) && cmd == AuthPlain(None)
    ensures Classify("AUTH PLAIN") == cmd
    ensures var e := Base64.Encode(PlainMessage(authzid, user, pass));
            Step(st, cmd, e + "\r\n" + rest, projects) ==
            AuthStep(st, [PlainChallenge], user, pass, rest, projects)
  {
    ClassifyPlainAlone();
    var m := PlainMessage(authzid, user, pass);
    var e := Base64.Encode(m);
    EncodedLine(m, rest);
    PlainLinePayload(authzid, user, pass);
    StepPlain(st, cmd, e + "\r\n" + rest, projects);
  }

  /** The message on its own line yields the credentials. */
  lemma PlainLinePayload(authzid: string, user: string, pass: string)
    requires PlainParts(authzid, user, pass)
    ensures HandleAuthPlain(Base64.Encode(PlainMessage(authzid, user, pass)) + "\r\n") == (user, pass)
  {
    var m := PlainMessage(authzid, user, pass);
    EncodedLine(m, []);
    ParsePlainJoin(authzid, user, pass);
  }

  /** AUTH LOGIN: the two challenges, then the user name and the password on
      a line each; names that are already trimmed come through unchanged. */
  lemma LoginExchange(st: State, cmd: Command, user: string, pass: string, rest: string, projects: seq<Project>)
    requires Inv(st, projects) && cmd == AuthLogin
    requires Base64.IsBytes(user) && Base64.IsBytes(pass) && TrimSpace(user) == user && TrimSpace(pass) == pass
    ensures Classify("AUTH LOGIN") == cmd
    ensures var u := Base64.Encode(user);
            var p := Base64.Encode(pass);
            Step(st, cmd, u + "\r\n" + (p + "\r\n" + rest), projects) ==
            AuthStep(st, [UsernameChallenge, PasswordChallenge], user, pass, rest, projects)
  {
    ClassifyLogin();
    var u := Base64.Encode(user);
    var p := Base64.Encode(pass);
    EncodedLine(user, p + "\r\n" + rest);
    EncodedLine(pass, rest);
    StepLogin(st, cmd, u + "\r\n" + (p + "\r\n" + rest), projects);
  }

  lemma ClassifyLogin()
    ensures Classify("AUTH LOGIN") == AuthLogin
  {
    var l := "AUTH LOGIN";
    assert l[0] == 'A' && l[5] == 'L' && "AUTH PLAIN"[5] == 'P';
    assert !("AUTH PLAIN" <= l);
  }
}
