/** The connection as the session engine reads it: `bufio.Reader.ReadString('\n')`
    over the bytes the client sends. The stream ends either at end of file or
    at a read error; the engine reacts to both in the same way (only its log
    lines differ), so the model has one kind of end. */
module Wire {
  import opened Strings

  /** One read: the text returned, whether a full line was found, and the
      bytes left unread. */
  datatype Read = Read(text: string, ok: bool, rest: string)

  /** A complete line: it ends with its only line feed. */
  predicate IsLine(line: string)
  {
    line != [] && line[|line| - 1] == '\n' && '\n' !in line[..|line| - 1]
  }

  /** ReadString('\n'): everything up to and including the next line feed; at
      the end of the stream, the partial text that is left, with an error. */
  function ReadString(input: string): (r: Read)
    ensures r.text + r.rest == input
    ensures r.ok <==> '\n' in input
    ensures r.ok ==> IsLine(r.text)
    ensures !r.ok ==> r.rest == []
    ensures input != [] ==> r.text != []
    decreases |input|
  {
    if input == [] then Read([], false, [])
    else if input[0] == '\n' then Read(['\n'], true, input[1..])
    else
      var r := ReadString(input[1..]);
      ReadStringCons(input, r.text, r.ok, r.rest);
      Read([input[0]] + r.text, r.ok, r.rest)
  }

  lemma ReadStringCons(input: string, text: string, ok: bool, rest: string)
    requires input != [] && input[0] != '\n'
    requires text + rest == input[1..]
    requires ok <==> '\n' in input[1..]
    requires ok ==> IsLine(text)
    ensures [input[0]] + text + rest == input
    ensures ok <==> '\n' in input
    ensures ok ==> IsLine([input[0]] + text)
  {
    assert input == [input[0]] + input[1..];
    if ok {
      var l := [input[0]] + text;
      assert l[..|l| - 1] == [input[0]] + text[..|text| - 1];
    }
  }

  /** Reading a complete line returns exactly that line. */
  lemma ReadStringLine(line: string, rest: string)
    requires IsLine(line)
    ensures ReadString(line + rest) == Read(line, true, rest)
  {
    var r := ReadString(line + rest);
    var n := |line| - 1;
    assert (line + rest)[n] == '\n';
    assert '\n' in line + rest;
    assert r.text == (line + rest)[..|r.text|];
    assert r.text == line;
    assert r.rest == rest;
  }

  /** The stream cut into the pieces successive reads return. */
  function Lines(s: string): (ls: seq<string>)
    ensures Concat(ls) == s
    decreases |s|
  {
    if s == [] then [] else var r := ReadString(s); [r.text] + Lines(r.rest)
  }

  lemma LinesLine(line: string, rest: string)
    requires IsLine(line)
    ensures Lines(line + rest) == [line] + Lines(rest)
  {
    ReadStringLine(line, rest);
  }
}
