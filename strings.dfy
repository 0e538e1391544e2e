/** The parts of Go's `strings` and `bytes` packages that the session engine
    relies on. A `string` here is a byte string: every `char` stands for one
    byte of the wire. */
module Strings {

  /** The ASCII white space that `strings.TrimSpace` and `strings.Fields` skip:
      tab, line feed, vertical tab, form feed, carriage return and space. */
  const Spaces: set<char> := {'\t', '\n', 11 as char, 12 as char, '\r', ' '}

  /** The cutset `"<>"` that the MAIL FROM and RCPT TO handlers trim with. */
  const Brackets: set<char> := {'<', '>'}

  const NUL: char := 0 as char

  /** strings.TrimLeft: drops the longest prefix made only of characters of `cut`. */
  function TrimLeft(s: string, cut: set<char>): (r: string)
    ensures |r| <= |s|
    ensures r == [] || r[0] !in cut
    decreases |s|
  {
    if s != [] && s[0] in cut then TrimLeft(s[1..], cut) else s
  }

  /** What `TrimLeft` keeps is a suffix of `s`, and all it drops is in `cut`. */
  lemma {:induction false} TrimLeftFacts(s: string, cut: set<char>)
    ensures var r := TrimLeft(s, cut);
            r == s[|s| - |r|..] && forall k :: 0 <= k < |s| - |r| ==> s[k] in cut
    decreases |s|
  {
    if s != [] && s[0] in cut {
      TrimLeftFacts(s[1..], cut);
    }
  }

  /** strings.TrimRight: drops the longest suffix made only of characters of `cut`. */
  function TrimRight(s: string, cut: set<char>): (r: string)
    ensures |r| <= |s|
    ensures r == [] || r[|r| - 1] !in cut
    decreases |s|
  {
    if s != [] && s[|s| - 1] in cut then TrimRight(s[..|s| - 1], cut) else s
  }

  /** What `TrimRight` keeps is a prefix of `s`, and all it drops is in `cut`. */
  lemma {:induction false} TrimRightFacts(s: string, cut: set<char>)
    ensures var r := TrimRight(s, cut);
            r == s[..|r|] && forall k :: |r| <= k < |s| ==> s[k] in cut
    decreases |s|
  {
    if s != [] && s[|s| - 1] in cut {
      TrimRightFacts(s[..|s| - 1], cut);
    }
  }

  /** strings.Trim: the middle part of `s` left once every leading and every
      trailing character of `cut` is gone. It is a cutset trim, not the removal
      of one wrapper: "<<a>>" becomes "a" and " <a>" becomes " <a". */
  function Trim(s: string, cut: set<char>): (r: string)
    ensures |r| <= |s|
    ensures Bare(r, cut)
  {
    var l := TrimLeft(s, cut);
    TrimRightFacts(l, cut);
    TrimRight(l, cut)
  }

  /** What `Trim` leaves: the middle slice of `s`, starting where `TrimLeft`
      stops. */
  lemma TrimFacts(s: string, cut: set<char>)
    ensures Trimmed(s, |s| - |TrimLeft(s, cut)|, Trim(s, cut), cut)
  {
    var l := TrimLeft(s, cut);
    TrimLeftFacts(s, cut);
    TrimRightFacts(l, cut);
    TrimSlices(s, l, TrimRight(l, cut), cut);
  }

  /** Neither end of `r` is in `cut`: what trimming with `cut` leaves. */
  predicate Bare(r: string, cut: set<char>)
  {
    r == [] || (r[0] !in cut && r[|r| - 1] !in cut)
  }

  /** `r` is the slice of `s` from `i` whose two ends are outside `cut`, and
      everything of `s` around it is in `cut`. */
  predicate Trimmed(s: string, i: int, r: string, cut: set<char>)
  {
    0 <= i && i + |r| <= |s| && r == s[i..i + |r|] &&
    Bare(r, cut) &&
    (forall k :: 0 <= k < i ==> s[k] in cut) &&
    (forall k :: i + |r| <= k < |s| ==> s[k] in cut)
  }

  /** Trim's facts from those of its two halves. */
  lemma TrimSlices(s: string, l: string, r: string, cut: set<char>)
    requires |l| <= |s| && l == s[|s| - |l|..] && (l == [] || l[0] !in cut)
    requires forall k :: 0 <= k < |s| - |l| ==> s[k] in cut
    requires |r| <= |l| && r == l[..|r|] && (r == [] || r[|r| - 1] !in cut)
    requires forall k :: |r| <= k < |l| ==> l[k] in cut
    ensures Trimmed(s, |s| - |l|, r, cut)
  {
    var i := |s| - |l|;
    SliceOfSuffix(s, i, |r|);
    forall k | i + |r| <= k < |s|
      ensures s[k] in cut
    {
      assert s[k] == l[k - i];
    }
  }

  /** A prefix of a suffix is a slice. */
  lemma SliceOfSuffix<T>(s: seq<T>, i: nat, n: nat)
    requires i + n <= |s|
    ensures s[i..][..n] == s[i..i + n]
  {
  }

  /** strings.TrimSpace: `Trim` with the ASCII white space as the cutset. */
  function TrimSpace(s: string): (r: string)
    ensures |r| <= |s|
    ensures Bare(r, Spaces)
  {
    Trim(s, Spaces)
  }

  /** Trimming leaves a string alone whose two ends are outside the cutset. */
  lemma TrimNoop(s: string, cut: set<char>)
    requires Bare(s, cut)
    ensures Trim(s, cut) == s
  {
  }

  lemma {:induction false} TrimLeftPrefix(w: string, s: string, cut: set<char>)
    requires forall k :: 0 <= k < |w| ==> w[k] in cut
    ensures TrimLeft(w + s, cut) == TrimLeft(s, cut)
    decreases |w|
  {
    if w != [] {
      assert (w + s)[1..] == w[1..] + s;
      TrimLeftPrefix(w[1..], s, cut);
    } else {
      assert w + s == s;
    }
  }

  lemma {:induction false} TrimRightSuffix(s: string, w: string, cut: set<char>)
    requires forall k :: 0 <= k < |w| ==> w[k] in cut
    ensures TrimRight(s + w, cut) == TrimRight(s, cut)
    decreases |w|
  {
    if w != [] {
      var n := |w| - 1;
      assert (s + w)[..|s + w| - 1] == s + w[..n];
      TrimRightSuffix(s, w[..n], cut);
    } else {
      assert s + w == s;
    }
  }

  lemma {:induction false} TrimLeftAppend(s: string, t: string, cut: set<char>)
    requires TrimLeft(s, cut) != []
    ensures TrimLeft(s + t, cut) == TrimLeft(s, cut) + t
    decreases |s|
  {
    assert s != [] && (s + t)[0] == s[0];
    if s[0] in cut {
      assert (s + t)[1..] == s[1..] + t;
      TrimLeftAppend(s[1..], t, cut);
    } else {
      assert TrimLeft(s, cut) == s;
    }
  }

  /** Characters of the cutset around a string do not change its trimmed form. */
  lemma TrimPadding(w1: string, s: string, w2: string, cut: set<char>)
    requires forall k :: 0 <= k < |w1| ==> w1[k] in cut
    requires forall k :: 0 <= k < |w2| ==> w2[k] in cut
    ensures Trim(w1 + s + w2, cut) == Trim(s, cut)
  {
    assert w1 + s + w2 == w1 + (s + w2);
    TrimLeftPrefix(w1, s + w2, cut);
    if TrimLeft(s, cut) != [] {
      TrimLeftAppend(s, w2, cut);
      TrimRightSuffix(TrimLeft(s, cut), w2, cut);
    } else {
      TrimLeftFacts(s, cut);
      TrimLeftFacts(s + w2, cut);
      assert forall k :: 0 <= k < |s + w2| ==> (s + w2)[k] in cut;
      assert TrimLeft(s + w2, cut) == [];
    }
  }

  lemma ConcatSlices(x: string, y: string, k: nat)
    requires k <= |y|
    ensures (x + y)[..|x| + k] == x + y[..k]
    ensures (x + y)[|x| + k..] == y[k..]
  {
  }

  /** strings.TrimPrefix */
  function TrimPrefix(s: string, prefix: string): (r: string)
    ensures prefix <= s ==> prefix + r == s
    ensures !(prefix <= s) ==> r == s
  {
    if prefix <= s then s[|prefix|..] else s
  }

  /** strings.ToLower, on the ASCII letters. */
  function ToLower(s: string): (r: string)
    ensures |r| == |s|
  {
    seq(|s|, i requires 0 <= i < |s| => if 'A' <= s[i] <= 'Z' then (s[i] as int + 32) as char else s[i])
  }

  /** The characters of `s` that are not in `cut`, in order. */
  function Remove(s: string, cut: set<char>): (r: string)
    ensures forall k :: 0 <= k < |r| ==> r[k] !in cut
    decreases |s|
  {
    if s == [] then [] else (if s[0] in cut then [] else [s[0]]) + Remove(s[1..], cut)
  }

  lemma {:induction false} RemoveAppend(a: string, b: string, cut: set<char>)
    ensures Remove(a + b, cut) == Remove(a, cut) + Remove(b, cut)
    decreases |a|
  {
    if a != [] {
      assert (a + b)[1..] == a[1..] + b;
      RemoveAppend(a[1..], b, cut);
    } else {
      assert a + b == b;
    }
  }

  lemma {:induction false} RemoveAllCut(s: string, cut: set<char>)
    requires forall k :: 0 <= k < |s| ==> s[k] in cut
    ensures Remove(s, cut) == []
    decreases |s|
  {
    if s != [] {
      RemoveAllCut(s[1..], cut);
    }
  }

  lemma {:induction false} RemoveNoneCut(s: string, cut: set<char>)
    requires forall k :: 0 <= k < |s| ==> s[k] !in cut
    ensures Remove(s, cut) == s
    decreases |s|
  {
    if s != [] {
      RemoveNoneCut(s[1..], cut);
      assert s == [s[0]] + s[1..];
    }
  }

  /** The longest prefix of `s` with no character of `cut`. */
  function Word(s: string, cut: set<char>): (r: string)
    ensures r <= s
    ensures forall k :: 0 <= k < |r| ==> r[k] !in cut
    ensures |r| < |s| ==> s[|r|] in cut
    decreases |s|
  {
    if s == [] || s[0] in cut then [] else [s[0]] + Word(s[1..], cut)
  }

  function Concat(parts: seq<string>): string
    decreases |parts|
  {
    if parts == [] then [] else parts[0] + Concat(parts[1..])
  }

  /** strings.Fields: the maximal runs of non-space characters. */
  function Fields(s: string): (r: seq<string>)
    ensures forall i :: 0 <= i < |r| ==> r[i] != []
    ensures forall i, k :: 0 <= i < |r| && 0 <= k < |r[i]| ==> r[i][k] !in Spaces
    ensures Concat(r) == Remove(s, Spaces)
    decreases |s|
  {
    TrimLeftFacts(s, Spaces);
    var t := TrimLeft(s, Spaces);
    if t == [] then
      RemoveAllCut(s, Spaces);
      []
    else
      var w := Word(t, Spaces);
      var rest := Fields(t[|w|..]);
      FieldsStep(s, t, w, rest);
      FieldsCons(w, rest);
      [w] + rest
  }

  lemma FieldsCons(w: string, rest: seq<string>)
    requires w != [] && forall k :: 0 <= k < |w| ==> w[k] !in Spaces
    requires forall i :: 0 <= i < |rest| ==> rest[i] != []
    requires forall i, k :: 0 <= i < |rest| && 0 <= k < |rest[i]| ==> rest[i][k] !in Spaces
    ensures forall i :: 0 <= i < |[w] + rest| ==> ([w] + rest)[i] != []
    ensures forall i, k :: 0 <= i < |[w] + rest| && 0 <= k < |([w] + rest)[i]| ==> ([w] + rest)[i][k] !in Spaces
  {
    var r := [w] + rest;
    forall i | 0 <= i < |r| ensures r[i] != [] && forall k :: 0 <= k < |r[i]| ==> r[i][k] !in Spaces {
      if i > 0 {
        assert r[i] == rest[i - 1];
      }
    }
  }

  lemma FieldsStep(s: string, t: string, w: string, rest: seq<string>)
    requires |t| <= |s| && t == s[|s| - |t|..] && forall k :: 0 <= k < |s| - |t| ==> s[k] in Spaces
    requires w <= t && w != [] && forall k :: 0 <= k < |w| ==> w[k] !in Spaces
    requires Concat(rest) == Remove(t[|w|..], Spaces)
    ensures Concat([w] + rest) == Remove(s, Spaces)
  {
    var n := |s| - |t|;
    assert s == s[..n] + t;
    RemoveAppend(s[..n], t, Spaces);
    RemoveAllCut(s[..n], Spaces);
    assert t == w + t[|w|..];
    RemoveAppend(w, t[|w|..], Spaces);
    RemoveNoneCut(w, Spaces);
    assert ([w] + rest)[1..] == rest;
  }

  /** A word ends at the first character of the cutset. */
  lemma {:induction false} WordUntil(w: string, x: string, cut: set<char>)
    requires forall k :: 0 <= k < |w| ==> w[k] !in cut
    requires x == [] || x[0] in cut
    ensures Word(w + x, cut) == w
    decreases |w|
  {
    if w == [] {
      assert w + x == x;
    } else {
      assert (w + x)[0] == w[0] && (w + x)[1..] == w[1..] + x;
      WordUntil(w[1..], x, cut);
      assert [w[0]] + w[1..] == w;
    }
  }

  /** A leading word is the first field. */
  lemma FieldsWord(w: string, x: string)
    requires w != [] && forall k :: 0 <= k < |w| ==> w[k] !in Spaces
    requires x == [] || x[0] in Spaces
    ensures Fields(w + x) == [w] + Fields(x)
  {
    var s := w + x;
    assert s[0] == w[0];
    assert TrimLeft(s, Spaces) == s;
    WordUntil(w, x, Spaces);
    assert s[|w|..] == x;
  }

  /** Leading white space is not a field. */
  lemma FieldsSpace(c: char, x: string)
    requires c in Spaces
    ensures Fields([c] + x) == Fields(x)
  {
    TrimLeftPrefix([c], x, Spaces);
  }

  /** A run of characters none of which is white space. */
  predicate IsWord(w: string)
  {
    w != [] && forall k :: 0 <= k < |w| ==> w[k] !in Spaces
  }

  lemma FieldsOne(w: string)
    requires IsWord(w)
    ensures Fields(w) == [w]
  {
    FieldsWord(w, []);
    assert w + [] == w;
  }

  /** A word and one space lead the fields. */
  lemma FieldsSpaced(w: string, x: string)
    requires IsWord(w)
    ensures Fields(w + " " + x) == [w] + Fields(x)
  {
    var y := [' '] + x;
    assert w + " " + x == w + y;
    FieldsWord(w, y);
    FieldsSpace(' ', x);
  }

  /** Words separated by single spaces are the fields. */
  lemma FieldsTwo(w1: string, w2: string)
    requires IsWord(w1) && IsWord(w2)
    ensures Fields(w1 + " " + w2) == [w1, w2]
  {
    FieldsSpaced(w1, w2);
    FieldsOne(w2);
    Pair(w1, w2);
  }

  lemma FieldsThree(w1: string, w2: string, w3: string)
    requires IsWord(w1) && IsWord(w2) && IsWord(w3)
    ensures Fields(w1 + " " + w2 + " " + w3) == [w1, w2, w3]
  {
    var y := w2 + " " + w3;
    assert w1 + " " + w2 + " " + w3 == w1 + " " + y;
    FieldsSpaced(w1, y);
    FieldsTwo(w2, w3);
    Triple(w1, w2, w3);
  }

  /** Sequence displays, apart from any context. */
  lemma Pair<T>(a: T, b: T)
    ensures [a] + [b] == [a, b]
  {
  }

  lemma Triple<T>(a: T, b: T, c: T)
    ensures [a] + [b, c] == [a, b, c]
  {
  }

  /** Index of the first occurrence of `c` in `s`. */
  function IndexOf(s: string, c: char): (i: nat)
    requires c in s
    ensures i < |s| && s[i] == c && c !in s[..i]
    decreases |s|
  {
    if s[0] == c then 0 else 1 + IndexOf(s[1..], c)
  }

  /** The inverse of Split: the parts glued back with `sep` between them. */
  function Join(parts: seq<string>, sep: char): string
    decreases |parts|
  {
    if parts == [] then []
    else if |parts| == 1 then parts[0]
    else parts[0] + [sep] + Join(parts[1..], sep)
  }

  /** bytes.Split with a one-byte separator: the pieces of `s` between the
      occurrences of `sep`. There is one more piece than there are separators;
      the pieces hold no separator and glue back into `s`. */
  function Split(s: string, sep: char): (r: seq<string>)
    ensures |r| == multiset(s)[sep] + 1
    ensures forall i :: 0 <= i < |r| ==> sep !in r[i]
    ensures Join(r, sep) == s
    decreases |s|
  {
    if sep !in s then [s]
    else
      var i := IndexOf(s, sep);
      var rest := Split(s[i + 1..], sep);
      assert s == s[..i] + [sep] + s[i + 1..];
      assert ([s[..i]] + rest)[1..] == rest;
      [s[..i]] + rest
  }

  /** Splitting a join of separator-free pieces gives the pieces back. */
  lemma {:induction false} SplitJoin(parts: seq<string>, sep: char)
    requires |parts| >= 1
    requires forall i :: 0 <= i < |parts| ==> sep !in parts[i]
    ensures Split(Join(parts, sep), sep) == parts
    decreases |parts|
  {
    if |parts| > 1 {
      var p := parts[0];
      var s := Join(parts, sep);
      assert s == p + [sep] + Join(parts[1..], sep);
      assert s[|p|] == sep && sep !in s[..|p|];
      assert sep in s;
      IndexOfFirst(s, sep, |p|);
      assert s[..|p|] == p;
      assert s[|p| + 1..] == Join(parts[1..], sep);
      SplitJoin(parts[1..], sep);
      assert parts == [p] + parts[1..];
    }
  }

  lemma IndexOfFirst(s: string, c: char, i: nat)
    requires i < |s| && s[i] == c && c !in s[..i]
    ensures IndexOf(s, c) == i
  {
  }
}
