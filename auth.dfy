/** The SASL payload decoders of the session engine: `decodeBase64` and the
    PLAIN mechanism's message parser (section 2 of RFC 4616:
    `authzid NUL authcid NUL passwd`). */
module Auth {
  import opened Wrappers
  import opened Strings
  import Base64

  /** decodeBase64: the base64 decoding of the trimmed payload, or "" when it
      does not decode; it never fails. */
  function DecodeBase64(encoded: string): (r: string)
    ensures Base64.IsBytes(r)
    ensures Base64.Decode(TrimSpace(encoded)).None? ==> r == []
  {
    match Base64.Decode(TrimSpace(encoded))
    case None => []
    case Some(decoded) => decoded
  }

  /** handleAuthPlain: the authentication identity and the password of a PLAIN
      message, or ("", "") unless the decoded message holds exactly two NUL
      bytes. */
  function HandleAuthPlain(authData: string): (r: (string, string))
    ensures PlainSplit(DecodeBase64(authData), r)
  {
    ParsePlain(DecodeBase64(authData))
  }

  /** `r` is what the PLAIN split gives for the message `data`: ("", "") unless
      `data` holds exactly two NUL bytes; otherwise two NUL-free strings that
      end `data` as NUL user NUL password. */
  predicate PlainSplit(data: string, r: (string, string))
  {
    (multiset(data)[NUL] != 2 ==> r == ([], [])) &&
    (multiset(data)[NUL] == 2 ==>
       NUL !in r.0 && NUL !in r.1 && |r.0| + |r.1| + 2 <= |data| &&
       data[|data| - |r.1| - |r.0| - 2..] == [NUL] + r.0 + [NUL] + r.1)
  }

  /** The field split of handleAuthPlain, on the decoded message. */
  function ParsePlain(data: string): (r: (string, string))
    ensures PlainSplit(data, r)
  {
    var parts := Split(data, NUL);
    if |parts| == 3 then
      ThreeFields(data, parts);
      (parts[1], parts[2])
    else ([], [])
  }

  lemma ThreeFields(d: string, parts: seq<string>)
    requires |parts| == 3 && Join(parts, NUL) == d
    ensures |parts[1]| + |parts[2]| + 2 <= |d|
    ensures d[|d| - |parts[2]| - |parts[1]| - 2..] == [NUL] + parts[1] + [NUL] + parts[2]
  {
    JoinThree(parts, NUL);
    var tail := [NUL] + parts[1] + [NUL] + parts[2];
    assert d == parts[0] + tail;
    assert d[|parts[0]|..] == tail;
  }

  lemma JoinThree(parts: seq<string>, sep: char)
    requires |parts| == 3
    ensures Join(parts, sep) == parts[0] + [sep] + parts[1] + [sep] + parts[2]
  {
    var rest := parts[1..];
    assert rest[0] == parts[1] && rest[1..] == [parts[2]];
    assert Join(rest[1..], sep) == parts[2];
    assert Join(rest, sep) == parts[1] + [sep] + parts[2];
  }

  /** Surrounding white space does not change what a payload decodes to. */
  lemma DecodeBase64Padding(w1: string, s: string, w2: string)
    requires forall k :: 0 <= k < |w1| ==> w1[k] in Spaces
    requires forall k :: 0 <= k < |w2| ==> w2[k] in Spaces
    ensures DecodeBase64(w1 + s + w2) == DecodeBase64(s)
  {
    TrimPadding(w1, s, w2, Spaces);
  }

  /** Round trip: the decoder recovers every byte string from its encoding. */
  lemma DecodeBase64Encode(b: string)
    requires Base64.IsBytes(b)
    ensures DecodeBase64(Base64.Encode(b)) == b
  {
    var e := Base64.Encode(b);
    TrimNoop(e, Spaces);
    Base64.DecodeEncode(b);
  }

  /** A payload holding, after trimming, a character that is neither a base64
      letter, nor `=`, nor a line break decodes to "". */
  lemma DecodeBase64Rejects(s: string, i: nat)
    requires i < |s| && s[i] !in Spaces && !Base64.IsAlphabet(s[i]) && s[i] != '='
    ensures DecodeBase64(s) == []
  {
    var t := TrimSpace(s);
    var i0 := |s| - |TrimLeft(s, Spaces)|;
    TrimFacts(s, Spaces);
    assert i0 <= i < i0 + |t|;
    assert t[i - i0] == s[i];
    Base64.DecodeRejects(t, i - i0);
  }

  /** Round trip for PLAIN: a client that encodes `authzid NUL user NUL pass`
      gets back exactly `(user, pass)`, whatever the authorization identity. */
  lemma AuthPlainRoundTrip(authzid: string, user: string, pass: string)
    requires Base64.IsBytes(authzid + [NUL] + user + [NUL] + pass)
    requires NUL !in authzid && NUL !in user && NUL !in pass
    ensures HandleAuthPlain(Base64.Encode(authzid + [NUL] + user + [NUL] + pass)) == (user, pass)
  {
    DecodeBase64Encode(authzid + [NUL] + user + [NUL] + pass);
    ParsePlainJoin(authzid, user, pass);
  }

  /** The parser inverts the message layout. */
  lemma ParsePlainJoin(authzid: string, user: string, pass: string)
    requires NUL !in authzid && NUL !in user && NUL !in pass
    ensures ParsePlain(authzid + [NUL] + user + [NUL] + pass) == (user, pass)
  {
    var parts := [authzid, user, pass];
    JoinThree(parts, NUL);
    SplitJoin(parts, NUL);
  }

  /** A message with some other number of NUL bytes is refused, even one with
      more fields than three. */
  lemma AuthPlainFourFields(a: string, b: string, c: string, d: string)
    requires Base64.IsBytes(a + [NUL] + b + [NUL] + c + [NUL] + d)
    ensures HandleAuthPlain(Base64.Encode(a + [NUL] + b + [NUL] + c + [NUL] + d)) == ([], [])
  {
    var m := a + [NUL] + b + [NUL] + c + [NUL] + d;
    DecodeBase64Encode(m);
    assert multiset(m)[NUL] == multiset(a)[NUL] + multiset(b)[NUL] + multiset(c)[NUL] + multiset(d)[NUL] + 3;
  }
}
