/** The DATA sub-protocol: lines are read until one whose trimmed form is a
    single `.` (the end-of-data indicator of section 4.1.1.4 of RFC 5321; the
    dot-unstuffing of section 4.5.2 is not done). Every line read goes into the
    raw text; every line but the terminator goes into the body; the first
    `Subject:` header with a non-empty value fills the subject, unless the
    session already has one. */
module DataPhase {
  import opened Strings
  import opened Wire

  /** What the sub-loop leaves behind: the two buffers, the subject, the bytes
      not yet read and whether the terminator was reached (otherwise the stream
      ended first). */
  datatype Accumulated = Accumulated(body: string, raw: string, subject: string, rest: string, terminated: bool)

  predicate IsTerminator(line: string)
  {
    TrimSpace(line) == "."
  }

  /** The header test lowercases the line. */
  predicate IsSubjectLine(line: string)
  {
    "subject:" <= ToLower(line)
  }

  /** The value a header line yields: the prefix `Subject:` is removed only
      when spelled in exactly that case, then the rest is trimmed. */
  function SubjectOf(line: string): string
  {
    TrimSpace(TrimPrefix(line, "Subject:"))
  }

  /** The sub-loop, started with the session's current subject. A read that
      fails drops its partial text and ends the loop. */
  function Accumulate(input: string, subject: string): (a: Accumulated)
    ensures |a.rest| <= |input|
    ensures subject != [] ==> a.subject == subject
    decreases |input|
  {
    var r := ReadString(input);
    if !r.ok then Accumulated([], [], subject, r.rest, false)
    else if IsTerminator(r.text) then Accumulated([], r.text, subject, r.rest, true)
    else
      var subject' := if IsSubjectLine(r.text) && subject == [] then SubjectOf(r.text) else subject;
      var a := Accumulate(r.rest, subject');
      a.(body := r.text + a.body, raw := r.text + a.raw)
  }

  /** Reference definition of the captured subject: the value of the first
      header line whose value is not empty. */
  function FirstSubject(lines: seq<string>): string
    decreases |lines|
  {
    if lines == [] then []
    else if IsSubjectLine(lines[0]) && SubjectOf(lines[0]) != [] then SubjectOf(lines[0])
    else FirstSubject(lines[1..])
  }

  /** The raw text is exactly the bytes consumed: with a terminator, the input
      is the raw text followed by what is left; without one, the stream ended
      inside a last partial line, which is dropped, and the raw text equals
      the body. */
  lemma {:induction false} AccumulateConsumes(input: string, subject: string)
    ensures var a := Accumulate(input, subject);
            Consumed(input, a.raw, a.body, a.rest, a.terminated)
    decreases |input|
  {
    var r := ReadString(input);
    if r.ok && !IsTerminator(r.text) {
      var subject' := if IsSubjectLine(r.text) && subject == [] then SubjectOf(r.text) else subject;
      AccumulateConsumes(r.rest, subject');
      var b := Accumulate(r.rest, subject');
      ConsumedStep(r.text, r.rest, b.raw, b.body, b.rest, b.terminated);
    }
  }

  /** How the bytes of the input split between the raw text and the rest. */
  predicate Consumed(input: string, raw: string, body: string, rest: string, terminated: bool)
  {
    |raw| <= |input| && input[..|raw|] == raw &&
    (terminated ==> input == raw + rest) &&
    (!terminated ==> rest == [] && raw == body && '\n' !in input[|raw|..])
  }

  lemma ConsumedStep(text: string, input: string, raw: string, body: string, rest: string, terminated: bool)
    requires Consumed(input, raw, body, rest, terminated)
    ensures Consumed(text + input, text + raw, text + body, rest, terminated)
  {
    ConcatSlices(text, input, |raw|);
    if terminated {
      assert text + input == (text + raw) + rest;
    }
  }

  /** Line structure of the buffers: see `Framed`. */
  lemma {:induction false} AccumulateLines(input: string, subject: string)
    ensures var a := Accumulate(input, subject);
            Framed(input, a.raw, a.body, a.rest, a.terminated)
    decreases |input|
  {
    var r := ReadString(input);
    if r.ok && IsTerminator(r.text) {
      FramedEnd(r.text, r.rest);
    } else if r.ok {
      var subject' := if IsSubjectLine(r.text) && subject == [] then SubjectOf(r.text) else subject;
      AccumulateLines(r.rest, subject');
      var b := Accumulate(r.rest, subject');
      FramedStep(r.text, r.rest, b.raw, b.body, b.rest, b.terminated);
    }
  }

  /** The body is whole lines, none of them a terminator. With a terminator,
      the raw text is the body followed by that one line, and the lines of the
      input begin with the lines of the raw text: the terminator is the first
      line of the input whose trimmed form is `.`. */
  predicate Framed(input: string, raw: string, body: string, rest: string, terminated: bool)
  {
    (forall i :: 0 <= i < |Lines(body)| ==> IsLine(Lines(body)[i]) && !IsTerminator(Lines(body)[i])) &&
    (terminated ==>
      |body| < |raw| && raw[..|body|] == body &&
      IsLine(raw[|body|..]) && IsTerminator(raw[|body|..]) &&
      Lines(raw) == Lines(body) + [raw[|body|..]] &&
      Lines(input) == Lines(raw) + Lines(rest))
  }

  lemma FramedEnd(line: string, rest: string)
    requires IsLine(line) && IsTerminator(line)
    ensures Framed(line + rest, line, [], rest, true)
  {
    LinesLine(line, rest);
    LinesLine(line, []);
    assert line + [] == line;
    assert line[0..] == line;
  }

  lemma FramedStep(line: string, input: string, raw: string, body: string, rest: string, terminated: bool)
    requires IsLine(line) && !IsTerminator(line)
    requires Framed(input, raw, body, rest, terminated)
    ensures Framed(line + input, line + raw, line + body, rest, terminated)
  {
    BodyLinesStep(line, body);
    if terminated {
      var t := raw[|body|..];
      assert IsLine(t) && IsTerminator(t);
      FramedTail(line, input, raw, body, rest, t);
    }
  }

  lemma FramedTail(line: string, input: string, raw: string, body: string, rest: string, t: string)
    requires IsLine(line)
    requires |body| < |raw| && raw[..|body|] == body && t == raw[|body|..]
    requires Lines(raw) == Lines(body) + [t] && Lines(input) == Lines(raw) + Lines(rest)
    ensures |line + body| < |line + raw| && (line + raw)[..|line + body|] == line + body
    ensures (line + raw)[|line + body|..] == t
    ensures Lines(line + raw) == Lines(line + body) + [t]
    ensures Lines(line + input) == Lines(line + raw) + Lines(rest)
  {
    FramedTailSlices(line, raw, body, t);
    FramedTailLines(line, input, raw, body, rest, t);
  }

  lemma FramedTailSlices(line: string, raw: string, body: string, t: string)
    requires |body| < |raw| && raw[..|body|] == body && t == raw[|body|..]
    ensures |line + body| < |line + raw| && (line + raw)[..|line + body|] == line + body
    ensures (line + raw)[|line + body|..] == t
  {
    ConcatSlices(line, raw, |body|);
  }

  lemma FramedTailLines(line: string, input: string, raw: string, body: string, rest: string, t: string)
    requires IsLine(line)
    requires Lines(raw) == Lines(body) + [t] && Lines(input) == Lines(raw) + Lines(rest)
    ensures Lines(line + raw) == Lines(line + body) + [t]
    ensures Lines(line + input) == Lines(line + raw) + Lines(rest)
  {
    LinesLine(line, raw);
    LinesLine(line, body);
    LinesLine(line, input);
    LinesPrepend(line, Lines(raw), Lines(body), [t]);
    LinesPrepend(line, Lines(input), Lines(raw), Lines(rest));
  }

  /** If `x == y + z` then `[line] + x == ([line] + y) + z`. */
  lemma LinesPrepend(line: string, x: seq<string>, y: seq<string>, z: seq<string>)
    requires x == y + z
    ensures [line] + x == ([line] + y) + z
  {
  }

  lemma BodyLinesStep(line: string, body: string)
    requires IsLine(line) && !IsTerminator(line)
    requires forall i :: 0 <= i < |Lines(body)| ==> IsLine(Lines(body)[i]) && !IsTerminator(Lines(body)[i])
    ensures Lines(line + body) == [line] + Lines(body)
    ensures forall i :: 0 <= i < |Lines(line + body)| ==> IsLine(Lines(line + body)[i]) && !IsTerminator(Lines(line + body)[i])
  {
    LinesLine(line, body);
    var ls := Lines(line + body);
    forall i | 0 <= i < |ls|
      ensures IsLine(ls[i]) && !IsTerminator(ls[i])
    {
      if i > 0 {
        assert ls[i] == Lines(body)[i - 1];
      }
    }
  }

  /** A subject already set is kept; otherwise the phase captures the value
      of the first body line that is a header with a non-empty value. */
  lemma {:induction false} AccumulateSubject(input: string, subject: string)
    ensures var a := Accumulate(input, subject);
            a.subject == if subject != [] then subject else FirstSubject(Lines(a.body))
    decreases |input|
  {
    var r := ReadString(input);
    if r.ok && !IsTerminator(r.text) {
      var subject' := if IsSubjectLine(r.text) && subject == [] then SubjectOf(r.text) else subject;
      AccumulateSubject(r.rest, subject');
      var b := Accumulate(r.rest, subject');
      LinesLine(r.text, b.body);
      var ls := [r.text] + Lines(b.body);
      assert ls[1..] == Lines(b.body);
    }
  }

  /** One body line read by the phase. */
  lemma AccumulateCons(l: string, more: string, subject: string)
    requires IsLine(l) && !IsTerminator(l)
    ensures var subject' := if IsSubjectLine(l) && subject == [] then SubjectOf(l) else subject;
            var b := Accumulate(more, subject');
            Accumulate(l + more, subject) == b.(body := l + b.body, raw := l + b.raw)
  {
    ReadStringLine(l, more);
  }

  /** The subject rule, one line at a time. */
  lemma FirstSubjectCons(lines: seq<string>, subject: string)
    requires lines != []
    ensures var l := lines[0];
            var subject' := if IsSubjectLine(l) && subject == [] then SubjectOf(l) else subject;
            (if subject' != [] then subject' else FirstSubject(lines[1..])) ==
            (if subject != [] then subject else FirstSubject(lines))
  {
  }

  /** Forward direction: on lines none of which is a terminator, followed by a
      terminator, the phase reads exactly those lines and that terminator,
      leaves the rest unread, and captures the first header subject. */
  lemma AccumulateTerminated(lines: seq<string>, term: string, rest: string, subject: string)
    requires forall i :: 0 <= i < |lines| ==> IsLine(lines[i]) && !IsTerminator(lines[i])
    requires IsLine(term) && IsTerminator(term)
    ensures var a := Accumulate(Concat(lines) + term + rest, subject);
            a == Accumulated(Concat(lines), Concat(lines) + term,
                             if subject != [] then subject else FirstSubject(lines), rest, true)
  {
    assert Concat(lines) + term + rest == Concat(lines) + (term + rest);
    AccumulateBefore(lines, term, rest, subject);
  }

  lemma {:induction false} AccumulateBefore(lines: seq<string>, term: string, rest: string, subject: string)
    requires forall i :: 0 <= i < |lines| ==> IsLine(lines[i]) && !IsTerminator(lines[i])
    requires IsLine(term) && IsTerminator(term)
    ensures var a := Accumulate(Concat(lines) + (term + rest), subject);
            a == Accumulated(Concat(lines), Concat(lines) + term,
                             if subject != [] then subject else FirstSubject(lines), rest, true)
    decreases |lines|
  {
    ConcatThen(lines, term + rest);
    if lines == [] {
      AccumulateEnd(term, rest, subject);
    } else {
      var l := lines[0];
      var tail := lines[1..];
      assert forall i :: 0 <= i < |tail| ==> tail[i] == lines[i + 1];
      var subject' := if IsSubjectLine(l) && subject == [] then SubjectOf(l) else subject;
      AccumulateBefore(tail, term, rest, subject');
      AccumulateCons(l, Concat(tail) + (term + rest), subject);
      FirstSubjectCons(lines, subject);
      AppendAssoc(l, Concat(tail), term);
    }
  }

  /** Forward direction when the stream ends first: whole lines with no
      terminator, then a partial line, which is dropped; nothing is left. */
  lemma {:induction false} AccumulateUnterminated(lines: seq<string>, partial: string, subject: string)
    requires forall i :: 0 <= i < |lines| ==> IsLine(lines[i]) && !IsTerminator(lines[i])
    requires '\n' !in partial
    ensures var a := Accumulate(Concat(lines) + partial, subject);
            a == Accumulated(Concat(lines), Concat(lines),
                             if subject != [] then subject else FirstSubject(lines), [], false)
    decreases |lines|
  {
    ConcatThen(lines, partial);
    if lines != [] {
      var l := lines[0];
      var tail := lines[1..];
      assert forall i :: 0 <= i < |tail| ==> tail[i] == lines[i + 1];
      var subject' := if IsSubjectLine(l) && subject == [] then SubjectOf(l) else subject;
      AccumulateUnterminated(tail, partial, subject');
      ConcatThen(tail, partial);
      AccumulateCons(l, Concat(tail) + partial, subject);
      FirstSubjectCons(lines, subject);
    }
  }

  lemma AppendAssoc(a: string, b: string, c: string)
    ensures a + (b + c) == (a + b) + c
  {
  }

  /** A terminator read first ends the phase at once. */
  lemma AccumulateEnd(term: string, rest: string, subject: string)
    requires IsLine(term) && IsTerminator(term)
    ensures Accumulate(term + rest, subject) == Accumulated([], term, subject, rest, true)
  {
    ReadStringLine(term, rest);
  }

  /** The text of some lines followed by more text, first line first. */
  lemma ConcatThen(lines: seq<string>, more: string)
    ensures lines == [] ==> Concat(lines) + more == more
    ensures lines != [] ==> Concat(lines) + more == lines[0] + (Concat(lines[1..]) + more)
    ensures lines != [] ==> Concat(lines) == lines[0] + Concat(lines[1..])
  {
  }
}
