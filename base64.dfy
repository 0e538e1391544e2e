/** Standard base64 (section 4 of RFC 4648) as Go's `base64.StdEncoding`
    reads it: the 64-letter alphabet `A-Z a-z 0-9 + /`, mandatory `=` padding,
    carriage returns and line feeds skipped wherever they occur, and the unused
    low bits of a padded final quantum ignored (the encoding is not "strict").
    The encoder is not used by the session engine; it is the reference the
    decoder is proved against. */
module Base64 {
  import opened Wrappers
  import opened Strings

  predicate IsBytes(s: string)
  {
    forall i :: 0 <= i < |s| ==> s[i] as int < 256
  }

  predicate IsAlphabet(c: char)
  {
    'A' <= c <= 'Z' || 'a' <= c <= 'z' || '0' <= c <= '9' || c == '+' || c == '/'
  }

  /** The 6-bit value a letter of the alphabet stands for. */
  function ValueOf(c: char): (v: nat)
    requires IsAlphabet(c)
    ensures v < 64
  {
    if 'A' <= c <= 'Z' then c as int - 'A' as int
    else if 'a' <= c <= 'z' then c as int - 'a' as int + 26
    else if '0' <= c <= '9' then c as int - '0' as int + 52
    else if c == '+' then 62
    else 63
  }

  /** The letter of the alphabet for a 6-bit value. */
  function LetterOf(v: nat): char
    requires v < 64
  {
    if v < 26 then ('A' as int + v) as char
    else if v < 52 then ('a' as int + v - 26) as char
    else if v < 62 then ('0' as int + v - 52) as char
    else if v == 62 then '+'
    else '/'
  }

  /** `LetterOf` and `ValueOf` are inverse bijections between the 6-bit
      values and the alphabet. */
  lemma ValueOfLetterOf(v: nat)
    requires v < 64
    ensures IsAlphabet(LetterOf(v)) && ValueOf(LetterOf(v)) == v
  {
  }

  lemma LetterOfValueOf(c: char)
    requires IsAlphabet(c)
    ensures LetterOf(ValueOf(c)) == c
  {
  }

  function Byte(n: nat): (c: char)
    requires n < 256
    ensures c as int == n
  {
    n as char
  }

  /** The three bytes spelled by a full quantum of four letters. */
  function Quantum(a: nat, b: nat, c: nat, d: nat): string
    requires a < 64 && b < 64 && c < 64 && d < 64
  {
    [Byte(a * 4 + b / 16), Byte(b % 16 * 16 + c / 4), Byte(c % 4 * 64 + d)]
  }

  /** The last quantum of a text: four letters, three letters and `=`, or
      two letters and `==`. */
  function LastQuantum(q: string): (r: Option<string>)
    requires |q| == 4
  {
    if IsAlphabet(q[0]) && IsAlphabet(q[1]) && IsAlphabet(q[2]) && IsAlphabet(q[3]) then
      Some(Quantum(ValueOf(q[0]), ValueOf(q[1]), ValueOf(q[2]), ValueOf(q[3])))
    else if IsAlphabet(q[0]) && IsAlphabet(q[1]) && IsAlphabet(q[2]) && q[3] == '=' then
      Some(Quantum(ValueOf(q[0]), ValueOf(q[1]), ValueOf(q[2]), 0)[..2])
    else if IsAlphabet(q[0]) && IsAlphabet(q[1]) && q[2] == '=' && q[3] == '=' then
      Some(Quantum(ValueOf(q[0]), ValueOf(q[1]), 0, 0)[..1])
    else None
  }

  /** Decodes a text without line breaks, one quantum at a time. Padding may
      only close the last quantum; a text whose length is not a multiple of
      four is refused. */
  function DecodeQuanta(t: string): (r: Option<string>)
    ensures r.Some? ==> IsBytes(r.value)
    decreases |t|
  {
    if |t| == 0 then Some([])
    else if |t| < 4 then None
    else if |t| == 4 then LastQuantum(t)
    else if IsAlphabet(t[0]) && IsAlphabet(t[1]) && IsAlphabet(t[2]) && IsAlphabet(t[3]) then
      match DecodeQuanta(t[4..])
      case None => None
      case Some(rest) => Some(Quantum(ValueOf(t[0]), ValueOf(t[1]), ValueOf(t[2]), ValueOf(t[3])) + rest)
    else None
  }

  /** base64.StdEncoding.DecodeString: `None` stands for the error result. */
  function Decode(s: string): (r: Option<string>)
    ensures r.Some? ==> IsBytes(r.value)
  {
    DecodeQuanta(Remove(s, {'\r', '\n'}))
  }

  /** The four letters for three bytes. */
  function EncodeQuantum(x: nat, y: nat, z: nat): (r: string)
    requires x < 256 && y < 256 && z < 256
    ensures |r| == 4 && forall k :: 0 <= k < 4 ==> IsAlphabet(r[k])
  {
    ValueOfLetterOf(x / 4);
    ValueOfLetterOf(x % 4 * 16 + y / 16);
    ValueOfLetterOf(y % 16 * 4 + z / 64);
    ValueOfLetterOf(z % 64);
    [LetterOf(x / 4), LetterOf(x % 4 * 16 + y / 16), LetterOf(y % 16 * 4 + z / 64), LetterOf(z % 64)]
  }

  /** base64.StdEncoding.EncodeToString. */
  function Encode(b: string): (r: string)
    requires IsBytes(b)
    ensures |r| == (|b| + 2) / 3 * 4
    ensures forall k :: 0 <= k < |r| ==> IsAlphabet(r[k]) || r[k] == '='
    decreases |b|
  {
    if |b| == 0 then []
    else if |b| == 1 then EncodeQuantum(b[0] as int, 0, 0)[..2] + "=="
    else if |b| == 2 then EncodeQuantum(b[0] as int, b[1] as int, 0)[..3] + "="
    else EncodeQuantum(b[0] as int, b[1] as int, b[2] as int) + Encode(b[3..])
  }

  lemma QuantumOfEncoding(x: nat, y: nat, z: nat)
    requires x < 256 && y < 256 && z < 256
    ensures var e := EncodeQuantum(x, y, z);
            Quantum(ValueOf(e[0]), ValueOf(e[1]), ValueOf(e[2]), ValueOf(e[3])) == [Byte(x), Byte(y), Byte(z)]
  {
    var a, b, c, d := x / 4, x % 4 * 16 + y / 16, y % 16 * 4 + z / 64, z % 64;
    ValueOfLetterOf(a);
    ValueOfLetterOf(b);
    ValueOfLetterOf(c);
    ValueOfLetterOf(d);
    Regroup(x, y, z);
  }

  /** Three bytes cut into four 6-bit groups and glued back. */
  lemma Regroup(x: nat, y: nat, z: nat)
    requires x < 256 && y < 256 && z < 256
    ensures var a, b, c, d := x / 4, x % 4 * 16 + y / 16, y % 16 * 4 + z / 64, z % 64;
            a * 4 + b / 16 == x && b % 16 * 16 + c / 4 == y && c % 4 * 64 + d == z
  {
    var a, b, c, d := x / 4, x % 4 * 16 + y / 16, y % 16 * 4 + z / 64, z % 64;
    assert b / 16 == x % 4 && b % 16 == y / 16;
    assert c / 4 == y % 16 && c % 4 == z / 64;
  }

  lemma LastQuantumOne(x: nat)
    requires x < 256
    ensures LastQuantum(EncodeQuantum(x, 0, 0)[..2] + "==") == Some([Byte(x)])
  {
    var e := EncodeQuantum(x, 0, 0);
    var t := e[..2] + "==";
    QuantumOfEncoding(x, 0, 0);
    assert t[0] == e[0] && t[1] == e[1] && t[2] == '=' && t[3] == '=';
    assert ValueOf(e[2]) == 0 && ValueOf(e[3]) == 0;
    assert !IsAlphabet('=');
    assert LastQuantum(t) == Some(Quantum(ValueOf(e[0]), ValueOf(e[1]), 0, 0)[..1]);
    var q := Quantum(ValueOf(e[0]), ValueOf(e[1]), 0, 0);
    assert q == [Byte(x), Byte(0), Byte(0)];
    assert q[..1] == [Byte(x)];
  }

  lemma LastQuantumTwo(x: nat, y: nat)
    requires x < 256 && y < 256
    ensures LastQuantum(EncodeQuantum(x, y, 0)[..3] + "=") == Some([Byte(x), Byte(y)])
  {
    var e := EncodeQuantum(x, y, 0);
    var t := e[..3] + "=";
    QuantumOfEncoding(x, y, 0);
    assert t[0] == e[0] && t[1] == e[1] && t[2] == e[2] && t[3] == '=';
    assert ValueOf(e[3]) == 0;
    assert !IsAlphabet('=');
    assert LastQuantum(t) == Some(Quantum(ValueOf(e[0]), ValueOf(e[1]), ValueOf(e[2]), 0)[..2]);
    var q := Quantum(ValueOf(e[0]), ValueOf(e[1]), ValueOf(e[2]), 0);
    assert q == [Byte(x), Byte(y), Byte(0)];
    assert q[..2] == [Byte(x), Byte(y)];
  }

  lemma LastQuantumThree(x: nat, y: nat, z: nat)
    requires x < 256 && y < 256 && z < 256
    ensures LastQuantum(EncodeQuantum(x, y, z)) == Some([Byte(x), Byte(y), Byte(z)])
  {
    QuantumOfEncoding(x, y, z);
  }

  /** Decoding undoes encoding, quantum by quantum. */
  lemma {:induction false} DecodeQuantaEncode(b: string)
    requires IsBytes(b)
    ensures DecodeQuanta(Encode(b)) == Some(b)
    decreases |b|
  {
    if |b| == 1 {
      LastQuantumOne(b[0] as int);
      assert [Byte(b[0] as int)] == b;
    } else if |b| == 2 {
      LastQuantumTwo(b[0] as int, b[1] as int);
      assert [Byte(b[0] as int), Byte(b[1] as int)] == b;
    } else if |b| == 3 {
      EncodeStep(b);
      LastQuantumThree(b[0] as int, b[1] as int, b[2] as int);
      BytesOfThree(b);
    } else if |b| > 3 {
      EncodeStep(b);
      DecodeQuantaEncode(b[3..]);
      DecodeQuantaStep(b, Encode(b[3..]));
    }
  }

  lemma BytesOfOne(b: string)
    requires IsBytes(b) && |b| == 1
    ensures [Byte(b[0] as int)] == b
  {
  }

  lemma BytesOfTwo(b: string)
    requires IsBytes(b) && |b| == 2
    ensures [Byte(b[0] as int), Byte(b[1] as int)] == b
  {
  }

  lemma BytesOfThree(b: string)
    requires IsBytes(b) && |b| == 3
    ensures [Byte(b[0] as int), Byte(b[1] as int), Byte(b[2] as int)] == b
  {
  }

  /** Three or more bytes encode as one full quantum followed by the encoding
      of the rest; exactly three encode as that quantum alone. */
  lemma EncodeStep(b: string)
    requires IsBytes(b) && |b| >= 3
    ensures Encode(b) == EncodeQuantum(b[0] as int, b[1] as int, b[2] as int) + Encode(b[3..])
    ensures |b| == 3 ==> Encode(b) == EncodeQuantum(b[0] as int, b[1] as int, b[2] as int)
  {
    if |b| == 3 {
      assert Encode(b[3..]) == [];
    }
  }

  lemma DecodeQuantaStep(b: string, rest: string)
    requires IsBytes(b) && |b| > 3
    requires rest != [] && DecodeQuanta(rest) == Some(b[3..])
    ensures DecodeQuanta(EncodeQuantum(b[0] as int, b[1] as int, b[2] as int) + rest) == Some(b)
  {
    var x, y, z := b[0] as int, b[1] as int, b[2] as int;
    var e := EncodeQuantum(x, y, z);
    QuantumOfEncoding(x, y, z);
    var q := Quantum(ValueOf(e[0]), ValueOf(e[1]), ValueOf(e[2]), ValueOf(e[3]));
    assert q + b[3..] == b;
    DecodeQuantaCons(e, rest, b[3..]);
  }

  lemma DecodeQuantaCons(e: string, rest: string, r: string)
    requires |e| == 4 && IsAlphabet(e[0]) && IsAlphabet(e[1]) && IsAlphabet(e[2]) && IsAlphabet(e[3])
    requires rest != [] && DecodeQuanta(rest) == Some(r)
    ensures DecodeQuanta(e + rest) == Some(Quantum(ValueOf(e[0]), ValueOf(e[1]), ValueOf(e[2]), ValueOf(e[3])) + r)
  {
    var t := e + rest;
    assert t[4..] == rest;
    assert t[0] == e[0] && t[1] == e[1] && t[2] == e[2] && t[3] == e[3];
  }

  /** Round trip: `Decode` recovers every byte string from its encoding. */
  lemma DecodeEncode(b: string)
    requires IsBytes(b)
    ensures Decode(Encode(b)) == Some(b)
  {
    var e := Encode(b);
    RemoveNoneCut(e, {'\r', '\n'});
    DecodeQuantaEncode(b);
  }

  /** The divisor that drops the bits of letter `k` of an encoding that the
      decoder ignores: the low four bits of the second letter of a quantum
      closed by `==`, the low two bits of the third letter of one closed by
      `=`; 1 for every other letter. */
  function Unused(e: string, k: nat): nat
    requires k < |e|
  {
    if k + 3 == |e| && e[k + 1] == '=' then 16
    else if k + 2 == |e| && e[k] != '=' && e[k + 1] == '=' then 4
    else 1
  }

  /** `t` spells the same text as the encoding `e`: the padding stands at the
      same places, and every letter has the value of `e`'s letter, up to the
      bits the decoder ignores. */
  predicate SameUpToUnusedBits(t: string, e: string)
  {
    |t| == |e| &&
    forall k :: 0 <= k < |e| ==>
      (t[k] == '=' <==> e[k] == '=') &&
      (e[k] != '=' ==> IsAlphabet(t[k]) && IsAlphabet(e[k]) &&
                       ValueOf(t[k]) / Unused(e, k) == ValueOf(e[k]) / Unused(e, k))
  }

  /** The converse of `DecodeEncode`: a text decodes only when, without its
      line breaks, it is the encoding of what it decodes to, up to the
      ignored bits. In particular `=` may stand only where the encoder puts
      it. */
  lemma DecodeOnlyEncodings(s: string)
    requires Decode(s).Some?
    ensures SameUpToUnusedBits(Remove(s, {'\r', '\n'}), Encode(Decode(s).value))
  {
    DecodeQuantaOnlyEncodings(Remove(s, {'\r', '\n'}));
  }

  /** The other direction, which makes the decoder not strict: every text
      that is, without its line breaks, an encoding of `b` up to the ignored
      bits decodes to `b` (`AB==` decodes as `AA==` does). */
  lemma DecodeNonStrict(s: string, b: string)
    requires IsBytes(b) && SameUpToUnusedBits(Remove(s, {'\r', '\n'}), Encode(b))
    ensures Decode(s) == Some(b)
  {
    DecodeQuantaNonStrict(Remove(s, {'\r', '\n'}), b);
  }

  /** Both directions: `s` decodes to `b` exactly when, without its line
      breaks, it is the encoding of `b` up to the ignored bits. */
  lemma DecodeExactly(s: string, b: string)
    requires IsBytes(b)
    ensures Decode(s) == Some(b) <==> SameUpToUnusedBits(Remove(s, {'\r', '\n'}), Encode(b))
  {
    if Decode(s) == Some(b) {
      DecodeOnlyEncodings(s);
    }
    if SameUpToUnusedBits(Remove(s, {'\r', '\n'}), Encode(b)) {
      DecodeNonStrict(s, b);
    }
  }

  lemma {:induction false} DecodeQuantaNonStrict(t: string, b: string)
    requires IsBytes(b) && SameUpToUnusedBits(t, Encode(b))
    ensures DecodeQuanta(t) == Some(b)
    decreases |b|
  {
    if |b| == 1 {
      NonStrictOne(t, b);
    } else if |b| == 2 {
      NonStrictTwo(t, b);
    } else if |b| == 3 {
      NonStrictFull(t, b);
      DecodeQuantaEncode(b);
    } else if |b| > 3 {
      NonStrictFull(t, b);
      DecodeQuantaNonStrict(t[4..], b[3..]);
      DecodeQuantaStep(b, t[4..]);
    }
  }

  /** A text the same as the encoding of three or more bytes up to the ignored
      bits starts with their first quantum, exactly. */
  lemma NonStrictFull(t: string, b: string)
    requires IsBytes(b) && |b| >= 3 && SameUpToUnusedBits(t, Encode(b))
    ensures var q := EncodeQuantum(b[0] as int, b[1] as int, b[2] as int);
            |t| >= 4 && t == q + t[4..] && SameUpToUnusedBits(t[4..], Encode(b[3..])) &&
            (|b| == 3 ==> t == Encode(b)) && (|b| > 3 ==> t[4..] != [])
  {
    var q, r := EncodeQuantum(b[0] as int, b[1] as int, b[2] as int), Encode(b[3..]);
    EncodeStep(b);
    EncodedLength(b[3..]);
    SameFront(q, r, t, Encode(b));
  }

  /** The length of an encoding is 0 for no bytes and at least 4 otherwise. */
  lemma EncodedLength(c: string)
    requires IsBytes(c)
    ensures (c == [] <==> Encode(c) == []) && (c != [] ==> |Encode(c)| >= 4)
  {
  }

  lemma SameFront(q: string, r: string, t: string, e: string)
    requires |q| == 4 && forall k :: 0 <= k < 4 ==> IsAlphabet(q[k])
    requires r == [] || |r| >= 4
    requires e == q + r && SameUpToUnusedBits(t, e)
    ensures |t| >= 4 && t == q + t[4..] && SameUpToUnusedBits(t[4..], r)
    ensures r == [] ==> t == e
    ensures r != [] ==> t[4..] != []
  {
    SameUncons(q, t, r);
    assert t == t[..4] + t[4..];
  }

  lemma NonStrictOne(t: string, b: string)
    requires IsBytes(b) && |b| == 1 && SameUpToUnusedBits(t, Encode(b))
    ensures DecodeQuanta(t) == Some(b)
  {
    var x := b[0] as int;
    EncodeOne(b);
    LettersOf(x, 0, 0, x / 4, x % 4 * 16, 0, 0);
    PadTwo(LetterOf(x / 4), LetterOf(x % 4 * 16), LetterOf(0), LetterOf(0));
    LastOneNonStrict(t, x);
    BytesOfOne(b);
  }

  lemma NonStrictTwo(t: string, b: string)
    requires IsBytes(b) && |b| == 2 && SameUpToUnusedBits(t, Encode(b))
    ensures DecodeQuanta(t) == Some(b)
  {
    var x, y := b[0] as int, b[1] as int;
    EncodeTwo(b);
    LettersOf(x, y, 0, x / 4, x % 4 * 16 + y / 16, y % 16 * 4, 0);
    PadOne(LetterOf(x / 4), LetterOf(x % 4 * 16 + y / 16), LetterOf(y % 16 * 4), LetterOf(0));
    LastTwoNonStrict(t, x, y);
    BytesOfTwo(b);
  }

  /** A full quantum in front of an encoding: a text the same as both up to
      the ignored bits starts with that very quantum. */
  lemma SameUncons(q: string, t: string, r: string)
    requires |q| == 4 && forall k :: 0 <= k < 4 ==> IsAlphabet(q[k])
    requires r == [] || |r| >= 4
    requires SameUpToUnusedBits(t, q + r)
    ensures |t| >= 4 && t[..4] == q && SameUpToUnusedBits(t[4..], r)
  {
    var e := q + r;
    forall k | 0 <= k < 4
      ensures t[k] == q[k]
    {
      assert e[k] == q[k] && Unused(e, k) == 1;
      LetterOfValueOf(t[k]);
      LetterOfValueOf(q[k]);
    }
    var t' := t[4..];
    forall k | 0 <= k < |r|
      ensures (t'[k] == '=' <==> r[k] == '=') &&
              (r[k] != '=' ==> IsAlphabet(t'[k]) && IsAlphabet(r[k]) &&
                               ValueOf(t'[k]) / Unused(r, k) == ValueOf(r[k]) / Unused(r, k))
    {
      assert t'[k] == t[k + 4] && e[k + 4] == r[k];
      assert Unused(e, k + 4) == Unused(r, k);
    }
  }

  /** A last quantum closed by `==` that matches the encoding of `x` up to
      the ignored bits decodes to `x`. */
  lemma LastOneNonStrict(t: string, x: nat)
    requires x < 256 && SameUpToUnusedBits(t, [LetterOf(x / 4), LetterOf(x % 4 * 16), '=', '='])
    ensures DecodeQuanta(t) == Some([Byte(x)])
  {
    LastOneValues(t, x);
    var v0, v1 := ValueOf(t[0]), ValueOf(t[1]);
    OneByteGroups(x, v0, v1);
    LastOneDecodes(t, x);
  }

  lemma LastOneValues(t: string, x: nat)
    requires x < 256 && SameUpToUnusedBits(t, [LetterOf(x / 4), LetterOf(x % 4 * 16), '=', '='])
    ensures |t| == 4 && IsAlphabet(t[0]) && IsAlphabet(t[1]) && t[2] == '=' && t[3] == '='
    ensures ValueOf(t[0]) == x / 4 && ValueOf(t[1]) / 16 == x % 4 * 16 / 16
  {
    var e := [LetterOf(x / 4), LetterOf(x % 4 * 16), '=', '='];
    ValueOfLetterOf(x / 4);
    ValueOfLetterOf(x % 4 * 16);
    assert !IsAlphabet('=');
    assert Unused(e, 0) == 1 && Unused(e, 1) == 16;
    assert IsAlphabet(t[0]) && ValueOf(t[0]) / 1 == ValueOf(e[0]) / 1;
    assert IsAlphabet(t[1]) && ValueOf(t[1]) / 16 == ValueOf(e[1]) / 16;
    assert t[2] == '=' && t[3] == '=';
  }

  lemma LastOneDecodes(t: string, x: nat)
    requires x < 256 && |t| == 4 && IsAlphabet(t[0]) && IsAlphabet(t[1]) && t[2] == '=' && t[3] == '='
    requires ValueOf(t[0]) * 4 + ValueOf(t[1]) / 16 == x
    ensures DecodeQuanta(t) == Some([Byte(x)])
  {
    var v0, v1 := ValueOf(t[0]), ValueOf(t[1]);
    assert !IsAlphabet('=');
    assert LastQuantum(t) == Some(Quantum(v0, v1, 0, 0)[..1]);
    assert Quantum(v0, v1, 0, 0)[..1] == [Byte(x)];
  }

  /** A last quantum closed by `=` that matches the encoding of `x, y` up to
      the ignored bits decodes to `x, y`. */
  lemma LastTwoNonStrict(t: string, x: nat, y: nat)
    requires x < 256 && y < 256
    requires SameUpToUnusedBits(t, [LetterOf(x / 4), LetterOf(x % 4 * 16 + y / 16), LetterOf(y % 16 * 4), '='])
    ensures DecodeQuanta(t) == Some([Byte(x), Byte(y)])
  {
    LastTwoValues(t, x, y);
    var v0, v1, v2 := ValueOf(t[0]), ValueOf(t[1]), ValueOf(t[2]);
    TwoByteGroups(x, y, v0, v1, v2);
    LastTwoDecodes(t, x, y);
  }

  lemma LastTwoValues(t: string, x: nat, y: nat)
    requires x < 256 && y < 256
    requires SameUpToUnusedBits(t, [LetterOf(x / 4), LetterOf(x % 4 * 16 + y / 16), LetterOf(y % 16 * 4), '='])
    ensures |t| == 4 && IsAlphabet(t[0]) && IsAlphabet(t[1]) && IsAlphabet(t[2]) && t[3] == '='
    ensures ValueOf(t[0]) == x / 4 && ValueOf(t[1]) == x % 4 * 16 + y / 16 &&
            ValueOf(t[2]) / 4 == y % 16 * 4 / 4
  {
    var e := [LetterOf(x / 4), LetterOf(x % 4 * 16 + y / 16), LetterOf(y % 16 * 4), '='];
    ValueOfLetterOf(x / 4);
    ValueOfLetterOf(x % 4 * 16 + y / 16);
    ValueOfLetterOf(y % 16 * 4);
    assert !IsAlphabet('=');
    assert Unused(e, 0) == 1 && Unused(e, 1) == 1 && Unused(e, 2) == 4;
    assert IsAlphabet(t[0]) && ValueOf(t[0]) / 1 == ValueOf(e[0]) / 1;
    assert IsAlphabet(t[1]) && ValueOf(t[1]) / 1 == ValueOf(e[1]) / 1;
    assert IsAlphabet(t[2]) && ValueOf(t[2]) / 4 == ValueOf(e[2]) / 4;
    assert t[3] == '=';
  }

  lemma LastTwoDecodes(t: string, x: nat, y: nat)
    requires x < 256 && y < 256
    requires |t| == 4 && IsAlphabet(t[0]) && IsAlphabet(t[1]) && IsAlphabet(t[2]) && t[3] == '='
    requires ValueOf(t[0]) * 4 + ValueOf(t[1]) / 16 == x && ValueOf(t[1]) % 16 * 16 + ValueOf(t[2]) / 4 == y
    ensures DecodeQuanta(t) == Some([Byte(x), Byte(y)])
  {
    var v0, v1, v2 := ValueOf(t[0]), ValueOf(t[1]), ValueOf(t[2]);
    assert !IsAlphabet('=');
    assert LastQuantum(t) == Some(Quantum(v0, v1, v2, 0)[..2]);
    assert Quantum(v0, v1, v2, 0)[..2] == [Byte(x), Byte(y)];
  }

  lemma OneByteGroups(x: nat, v0: nat, v1: nat)
    requires x < 256 && v0 == x / 4 && v1 / 16 == x % 4 * 16 / 16
    ensures v0 * 4 + v1 / 16 == x
  {
  }

  lemma TwoByteGroups(x: nat, y: nat, v0: nat, v1: nat, v2: nat)
    requires x < 256 && y < 256
    requires v0 == x / 4 && v1 == x % 4 * 16 + y / 16 && v2 / 4 == y % 16 * 4 / 4
    ensures v0 * 4 + v1 / 16 == x && v1 % 16 * 16 + v2 / 4 == y
  {
    assert v1 / 16 == x % 4 && v1 % 16 == y / 16;
  }

  /** So a text with `=` anywhere but in its last two places, once line
      breaks are removed, does not decode (`AA==AAAA`, say). */
  lemma DecodePaddingAtEnd(s: string)
    requires Decode(s).Some?
    ensures var t := Remove(s, {'\r', '\n'});
            forall k :: 0 <= k < |t| - 2 ==> t[k] != '='
  {
    var t, e := Remove(s, {'\r', '\n'}), Encode(Decode(s).value);
    DecodeOnlyEncodings(s);
    EncodePaddingAtEnd(Decode(s).value);
    PaddingOfSame(t, e);
  }

  lemma PaddingOfSame(t: string, e: string)
    requires SameUpToUnusedBits(t, e)
    requires forall k :: 0 <= k < |e| - 2 ==> IsAlphabet(e[k])
    ensures forall k :: 0 <= k < |t| - 2 ==> t[k] != '='
  {
  }

  /** The encoder writes `=` only in the last two places. */
  lemma {:induction false} EncodePaddingAtEnd(b: string)
    requires IsBytes(b)
    ensures forall k :: 0 <= k < |Encode(b)| - 2 ==> IsAlphabet(Encode(b)[k])
    decreases |b|
  {
    if |b| == 1 {
      EncodeOne(b);
    } else if |b| == 2 {
      EncodeTwo(b);
    } else if |b| >= 3 {
      EncodePaddingAtEnd(b[3..]);
      EncodeStep(b);
      var q, r := EncodeQuantum(b[0] as int, b[1] as int, b[2] as int), Encode(b[3..]);
      var e := Encode(b);
      forall k | 0 <= k < |e| - 2
        ensures IsAlphabet(e[k])
      {
        if k < 4 {
          assert e[k] == q[k];
        } else {
          assert e[k] == r[k - 4];
        }
      }
    }
  }

  lemma {:induction false} DecodeQuantaOnlyEncodings(t: string)
    requires DecodeQuanta(t).Some?
    ensures SameUpToUnusedBits(t, Encode(DecodeQuanta(t).value))
    decreases |t|
  {
    if |t| == 4 {
      if IsAlphabet(t[0]) && IsAlphabet(t[1]) && IsAlphabet(t[2]) && IsAlphabet(t[3]) {
        LastFullEncodes(t);
      } else if IsAlphabet(t[0]) && IsAlphabet(t[1]) && IsAlphabet(t[2]) && t[3] == '=' {
        LastTwoEncodes(t);
      } else {
        LastOneEncodes(t);
      }
    } else if |t| > 4 {
      var r := DecodeQuanta(t[4..]).value;
      DecodeQuantaOnlyEncodings(t[4..]);
      QuantumEncodes(t, r);
      SameCons(t[..4], t[4..], Encode(r));
      assert t[..4] + t[4..] == t;
    }
  }

  /** Three bytes cut into four 6-bit groups, the other way round: the groups
      of the bytes spelled by four groups are those groups. */
  lemma Ungroup(a: nat, b: nat, c: nat, d: nat)
    requires a < 64 && b < 64 && c < 64 && d < 64
    ensures var x, y, z := a * 4 + b / 16, b % 16 * 16 + c / 4, c % 4 * 64 + d;
            x < 256 && y < 256 && z < 256 &&
            x / 4 == a && x % 4 == b / 16 && x % 4 * 16 + y / 16 == b &&
            y % 16 == c / 4 && y % 16 * 4 + z / 64 == c && z % 64 == d
  {
    var x, y, z := a * 4 + b / 16, b % 16 * 16 + c / 4, c % 4 * 64 + d;
    assert x / 4 == a && x % 4 == b / 16;
    assert y / 16 == b % 16 && y % 16 == c / 4;
    assert z / 64 == c % 4 && z % 64 == d;
  }

  /** The encoding of a decoded full quantum is that quantum. */
  lemma EncodingOfQuantum(q: string)
    requires |q| == 4 && IsAlphabet(q[0]) && IsAlphabet(q[1]) && IsAlphabet(q[2]) && IsAlphabet(q[3])
    ensures var d := Quantum(ValueOf(q[0]), ValueOf(q[1]), ValueOf(q[2]), ValueOf(q[3]));
            IsBytes(d) && EncodeQuantum(d[0] as int, d[1] as int, d[2] as int) == q
  {
    EncodingOfGroups(ValueOf(q[0]), ValueOf(q[1]), ValueOf(q[2]), ValueOf(q[3]));
    LetterOfValueOf(q[0]);
    LetterOfValueOf(q[1]);
    LetterOfValueOf(q[2]);
    LetterOfValueOf(q[3]);
    Spelled(q);
  }

  lemma EncodingOfGroups(a: nat, b: nat, c: nat, d: nat)
    requires a < 64 && b < 64 && c < 64 && d < 64
    ensures var q := Quantum(a, b, c, d);
            IsBytes(q) && EncodeQuantum(q[0] as int, q[1] as int, q[2] as int) ==
                          [LetterOf(a), LetterOf(b), LetterOf(c), LetterOf(d)]
  {
    Ungroup(a, b, c, d);
    var x, y, z := a * 4 + b / 16, b % 16 * 16 + c / 4, c % 4 * 64 + d;
    var q := Quantum(a, b, c, d);
    assert q[0] as int == x && q[1] as int == y && q[2] as int == z;
    LettersOf(x, y, z, a, b, c, d);
  }

  lemma Spelled(q: string)
    requires |q| == 4
    ensures q == [q[0], q[1], q[2], q[3]]
  {
  }

  lemma LastFullEncodes(t: string)
    requires |t| == 4 && IsAlphabet(t[0]) && IsAlphabet(t[1]) && IsAlphabet(t[2]) && IsAlphabet(t[3])
    ensures DecodeQuanta(t).Some? && SameUpToUnusedBits(t, Encode(DecodeQuanta(t).value))
  {
    var d := Quantum(ValueOf(t[0]), ValueOf(t[1]), ValueOf(t[2]), ValueOf(t[3]));
    EncodingOfQuantum(t);
    EncodeStep(d);
    assert DecodeQuanta(t) == Some(d);
  }

  lemma LastTwoEncodes(t: string)
    requires |t| == 4 && IsAlphabet(t[0]) && IsAlphabet(t[1]) && IsAlphabet(t[2]) && t[3] == '='
    ensures DecodeQuanta(t).Some? && SameUpToUnusedBits(t, Encode(DecodeQuanta(t).value))
  {
    var a, b, c := ValueOf(t[0]), ValueOf(t[1]), ValueOf(t[2]);
    assert DecodeQuanta(t) == Some(Quantum(a, b, c, 0)[..2]);
    EncodingOfTwo(a, b, c);
    SameLastTwo(t, a, b, c);
  }

  lemma EncodingOfTwo(a: nat, b: nat, c: nat)
    requires a < 64 && b < 64 && c < 64
    ensures var d := Quantum(a, b, c, 0)[..2];
            IsBytes(d) && Encode(d) == [LetterOf(a), LetterOf(b), LetterOf(c / 4 * 4), '=']
  {
    GroupsOfTwo(a, b, c);
    var x, y := a * 4 + b / 16, b % 16 * 16 + c / 4;
    var d := Quantum(a, b, c, 0)[..2];
    assert d[0] as int == x && d[1] as int == y;
    EncodeTwo(d);
    LettersOf(x, y, 0, a, b, c / 4 * 4, 0);
    PadOne(LetterOf(a), LetterOf(b), LetterOf(c / 4 * 4), LetterOf(0));
  }

  lemma LastOneEncodes(t: string)
    requires |t| == 4 && !(IsAlphabet(t[0]) && IsAlphabet(t[1]) && IsAlphabet(t[2]) && IsAlphabet(t[3]))
    requires !(IsAlphabet(t[0]) && IsAlphabet(t[1]) && IsAlphabet(t[2]) && t[3] == '=')
    requires DecodeQuanta(t).Some?
    ensures SameUpToUnusedBits(t, Encode(DecodeQuanta(t).value))
  {
    assert IsAlphabet(t[0]) && IsAlphabet(t[1]) && t[2] == '=' && t[3] == '=';
    var a, b := ValueOf(t[0]), ValueOf(t[1]);
    assert DecodeQuanta(t) == Some(Quantum(a, b, 0, 0)[..1]);
    EncodingOfOne(a, b);
    SameLastOne(t, a, b);
  }

  lemma EncodingOfOne(a: nat, b: nat)
    requires a < 64 && b < 64
    ensures var d := Quantum(a, b, 0, 0)[..1];
            IsBytes(d) && Encode(d) == [LetterOf(a), LetterOf(b / 16 * 16), '=', '=']
  {
    GroupsOfOne(a, b);
    var x := a * 4 + b / 16;
    var d := Quantum(a, b, 0, 0)[..1];
    assert d[0] as int == x;
    EncodeOne(d);
    LettersOf(x, 0, 0, a, b / 16 * 16, 0, 0);
    PadTwo(LetterOf(a), LetterOf(b / 16 * 16), LetterOf(0), LetterOf(0));
  }

  /** The groups of the two bytes a quantum closed by `=` decodes to. */
  lemma GroupsOfTwo(a: nat, b: nat, c: nat)
    requires a < 64 && b < 64 && c < 64
    ensures var x, y := a * 4 + b / 16, b % 16 * 16 + c / 4;
            x < 256 && y < 256 && c / 4 * 4 < 64 &&
            x / 4 == a && x % 4 * 16 + y / 16 == b && y % 16 * 4 + 0 / 64 == c / 4 * 4 && 0 % 64 == 0
  {
    Ungroup(a, b, c, 0);
  }

  /** The groups of the byte a quantum closed by `==` decodes to. */
  lemma GroupsOfOne(a: nat, b: nat)
    requires a < 64 && b < 64
    ensures var x := a * 4 + b / 16;
            x < 256 && b / 16 * 16 < 64 &&
            x / 4 == a && x % 4 * 16 + 0 / 16 == b / 16 * 16 && 0 % 16 * 4 + 0 / 64 == 0 && 0 % 64 == 0
  {
    Ungroup(a, b, 0, 0);
  }

  lemma EncodeOne(d: string)
    requires IsBytes(d) && |d| == 1
    ensures Encode(d) == EncodeQuantum(d[0] as int, 0, 0)[..2] + "=="
  {
  }

  lemma EncodeTwo(d: string)
    requires IsBytes(d) && |d| == 2
    ensures Encode(d) == EncodeQuantum(d[0] as int, d[1] as int, 0)[..3] + "="
  {
  }

  /** The letters of a quantum, given its four 6-bit groups. */
  lemma LettersOf(x: nat, y: nat, z: nat, a: nat, b: nat, c: nat, d: nat)
    requires x < 256 && y < 256 && z < 256 && a < 64 && b < 64 && c < 64 && d < 64
    requires x / 4 == a && x % 4 * 16 + y / 16 == b && y % 16 * 4 + z / 64 == c && z % 64 == d
    ensures EncodeQuantum(x, y, z) == [LetterOf(a), LetterOf(b), LetterOf(c), LetterOf(d)]
  {
  }

  lemma PadOne(p: char, q: char, r: char, s: char)
    ensures [p, q, r, s][..3] + "=" == [p, q, r, '=']
  {
  }

  lemma PadTwo(p: char, q: char, r: char, s: char)
    ensures [p, q, r, s][..2] + "==" == [p, q, '=', '=']
  {
  }

  /** A last quantum closed by `=` against its canonical encoding. */
  lemma SameLastTwo(t: string, a: nat, b: nat, c: nat)
    requires |t| == 4 && IsAlphabet(t[0]) && IsAlphabet(t[1]) && IsAlphabet(t[2]) && t[3] == '='
    requires ValueOf(t[0]) == a && ValueOf(t[1]) == b && ValueOf(t[2]) == c
    ensures SameUpToUnusedBits(t, [LetterOf(a), LetterOf(b), LetterOf(c / 4 * 4), '='])
  {
    var e := [LetterOf(a), LetterOf(b), LetterOf(c / 4 * 4), '='];
    ValueOfLetterOf(a);
    ValueOfLetterOf(b);
    ValueOfLetterOf(c / 4 * 4);
    assert Unused(e, 0) == 1 && Unused(e, 1) == 1 && Unused(e, 2) == 4;
    assert (c / 4 * 4) / 4 == c / 4;
  }

  /** A last quantum closed by `==` against its canonical encoding. */
  lemma SameLastOne(t: string, a: nat, b: nat)
    requires |t| == 4 && IsAlphabet(t[0]) && IsAlphabet(t[1]) && t[2] == '=' && t[3] == '='
    requires ValueOf(t[0]) == a && ValueOf(t[1]) == b
    ensures SameUpToUnusedBits(t, [LetterOf(a), LetterOf(b / 16 * 16), '=', '='])
  {
    var e := [LetterOf(a), LetterOf(b / 16 * 16), '=', '='];
    ValueOfLetterOf(a);
    ValueOfLetterOf(b / 16 * 16);
    assert Unused(e, 0) == 1 && Unused(e, 1) == 16;
    assert (b / 16 * 16) / 16 == b / 16;
  }

  /** One full quantum in front of a decoded text encodes as itself, and the
      rest as the encoding of the rest. */
  lemma QuantumEncodes(t: string, r: string)
    requires |t| > 4 && IsAlphabet(t[0]) && IsAlphabet(t[1]) && IsAlphabet(t[2]) && IsAlphabet(t[3])
    requires DecodeQuanta(t[4..]) == Some(r)
    ensures DecodeQuanta(t).Some? && Encode(DecodeQuanta(t).value) == t[..4] + Encode(r)
    ensures |Encode(r)| >= 4
  {
    var q := Quantum(ValueOf(t[0]), ValueOf(t[1]), ValueOf(t[2]), ValueOf(t[3]));
    assert DecodeQuanta(t) == Some(q + r);
    var d := q + r;
    EncodingOfQuantum(t[..4]);
    assert t[..4][0] == t[0] && t[..4][1] == t[1] && t[..4][2] == t[2] && t[..4][3] == t[3];
    assert d[0] == q[0] && d[1] == q[1] && d[2] == q[2] && d[3..] == r;
    EncodeStep(d);
    DecodeQuantaNonEmpty(t[4..]);
  }

  /** A non-empty text that decodes gives at least one byte. */
  lemma DecodeQuantaNonEmpty(t: string)
    requires t != [] && DecodeQuanta(t).Some?
    ensures DecodeQuanta(t).value != []
  {
  }

  /** A full quantum of letters in front of both texts keeps them the same. */
  lemma SameCons(q: string, t: string, e: string)
    requires |q| == 4 && IsAlphabet(q[0]) && IsAlphabet(q[1]) && IsAlphabet(q[2]) && IsAlphabet(q[3])
    requires SameUpToUnusedBits(t, e) && |e| >= 4
    ensures SameUpToUnusedBits(q + t, q + e)
  {
    var t', e' := q + t, q + e;
    forall k | 0 <= k < |e'|
      ensures (t'[k] == '=' <==> e'[k] == '=') &&
              (e'[k] != '=' ==> IsAlphabet(t'[k]) && IsAlphabet(e'[k]) &&
                                ValueOf(t'[k]) / Unused(e', k) == ValueOf(e'[k]) / Unused(e', k))
    {
      if k < 4 {
        assert Unused(e', k) == 1;
      } else {
        assert t'[k] == t[k - 4] && e'[k] == e[k - 4];
        assert Unused(e', k) == Unused(e, k - 4);
      }
    }
  }

  /** Line breaks inside an encoded text are skipped. */
  lemma DecodeSkipsLineBreaks(a: string, b: string)
    ensures Decode(a + "\r\n" + b) == Decode(a + b)
  {
    var cut := {'\r', '\n'};
    RemoveAllCut("\r\n", cut);
    RemoveAppend(a + "\r\n", b, cut);
    RemoveAppend(a, "\r\n", cut);
    RemoveAppend(a, b, cut);
    assert Remove(a + "\r\n" + b, cut) == Remove(a + b, cut);
  }

  /** A character outside the alphabet, other than `=` and a line break,
      makes decoding fail wherever it stands. */
  lemma {:induction false} DecodeQuantaRejects(t: string, i: nat)
    requires i < |t| && !IsAlphabet(t[i]) && t[i] != '='
    ensures DecodeQuanta(t) == None
    decreases |t|
  {
    if |t| > 4 && i >= 4 && IsAlphabet(t[0]) && IsAlphabet(t[1]) && IsAlphabet(t[2]) && IsAlphabet(t[3]) {
      DecodeQuantaRejects(t[4..], i - 4);
    }
  }

  lemma RemoveKeeps(s: string, cut: set<char>, i: nat)
    requires i < |s| && s[i] !in cut
    ensures exists j :: 0 <= j < |Remove(s, cut)| && Remove(s, cut)[j] == s[i]
  {
    assert s == s[..i] + [s[i]] + s[i + 1..];
    RemoveAppend(s[..i] + [s[i]], s[i + 1..], cut);
    RemoveAppend(s[..i], [s[i]], cut);
    assert Remove([s[i]], cut) == [s[i]];
    var j := |Remove(s[..i], cut)|;
    assert Remove(s, cut)[j] == s[i];
  }

  lemma DecodeRejects(s: string, i: nat)
    requires i < |s| && !IsAlphabet(s[i]) && s[i] !in {'=', '\r', '\n'}
    ensures Decode(s) == None
  {
    RemoveKeeps(s, {'\r', '\n'}, i);
    var t := Remove(s, {'\r', '\n'});
    var j :| 0 <= j < |t| && t[j] == s[i];
    DecodeQuantaRejects(t, j);
  }

  /** Without line breaks, a text whose length is not a multiple of four fails. */
  lemma {:induction false} DecodeQuantaLength(t: string)
    requires |t| % 4 != 0
    ensures DecodeQuanta(t) == None
    decreases |t|
  {
    if |t| > 4 {
      assert |t[4..]| % 4 == |t| % 4;
      DecodeQuantaLength(t[4..]);
    }
  }

  /** The fixed prompts of AUTH LOGIN are the encodings of `Username:` and `Password:`. */
  lemma UsernamePrompt()
    ensures Encode("Username:") == "VXNlcm5hbWU6"
  {
    UsernameSplit();
    QuantumLetters('U', 's', 'e', "VXNl");
    UsernameTail();
    PromptsStep("Use", "rname:", "VXNl", "cm5hbWU6");
  }

  lemma PasswordPrompt()
    ensures Encode("Password:") == "UGFzc3dvcmQ6"
  {
    PasswordSplit();
    QuantumLetters('P', 'a', 's', "UGFz");
    PasswordTail();
    PromptsStep("Pas", "sword:", "UGFz", "c3dvcmQ6");
  }

  lemma UsernameSplit()
    ensures "Use" + "rname:" == "Username:" && "VXNl" + "cm5hbWU6" == "VXNlcm5hbWU6"
  {
  }

  lemma PasswordSplit()
    ensures "Pas" + "sword:" == "Password:" && "UGFz" + "c3dvcmQ6" == "UGFzc3dvcmQ6"
  {
  }

  lemma UsernameTail()
    ensures Encode("rname:") == "cm5hbWU6"
  {
    QuantumLetters('r', 'n', 'a', "cm5h");
    QuantumLetters('m', 'e', ':', "bWU6");
    PromptsStep("me:", "", "bWU6", "");
    PromptsStep("rna", "me:", "cm5h", "bWU6");
  }

  lemma PasswordTail()
    ensures Encode("sword:") == "c3dvcmQ6"
  {
    QuantumLetters('s', 'w', 'o', "c3dv");
    QuantumLetters('r', 'd', ':', "cmQ6");
    PromptsStep("rd:", "", "cmQ6", "");
    PromptsStep("swo", "rd:", "c3dv", "cmQ6");
  }

  lemma QuantumLetters(x: char, y: char, z: char, e: string)
    requires x as int < 256 && y as int < 256 && z as int < 256 && |e| == 4
    requires e[0] == LetterOf(x as int / 4) && e[1] == LetterOf(x as int % 4 * 16 + y as int / 16)
    requires e[2] == LetterOf(y as int % 16 * 4 + z as int / 64) && e[3] == LetterOf(z as int % 64)
    ensures EncodeQuantum(x as int, y as int, z as int) == e
  {
  }

  lemma PromptsStep(q: string, rest: string, e: string, erest: string)
    requires |q| == 3 && IsBytes(q) && IsBytes(rest)
    requires EncodeQuantum(q[0] as int, q[1] as int, q[2] as int) == e
    requires Encode(rest) == erest
    ensures Encode(q + rest) == e + erest
  {
    var b := q + rest;
    assert b[0] == q[0] && b[1] == q[1] && b[2] == q[2] && b[3..] == rest;
  }
}
