// The debug log as text: the writer terminates every line with CR LF, the
// replaying side splits the text back into lines the way
// java.io.BufferedReader.readLine does (a line ends at "\n", "\r" or "\r\n";
// a last line without a terminator still counts).

module TextLines {

  predicate IsBreak(c: char)
  {
    c == '\r' || c == '\n'
  }

  /** A line that can be written without changing how the text splits. */
  predicate NoBreaks(s: string)
  {
    forall i :: 0 <= i < |s| ==> !IsBreak(s[i])
  }

  /**
   * Each line followed by CR LF, as the writer emits them: a text with any
   * line in it ends with a line terminator.
   */
  function Join(lines: seq<string>): (text: string)
    ensures |text| >= 2 * |lines|
    ensures lines != [] ==> text[|text| - 2..] == "\r\n"
  {
    if lines == [] then []
    else
      var rest := Join(lines[1..]);
      var text := lines[0] + "\r\n" + rest;
      assert rest != [] ==> text[|text| - 2..] == rest[|rest| - 2..];
      text
  }

  /** The index of the first line break of `s`, or |s| when there is none. */
  function LineEnd(s: string): (k: nat)
    ensures k <= |s|
    ensures NoBreaks(s[..k])
    ensures k < |s| ==> IsBreak(s[k])
  {
    if s == [] then 0
    else if IsBreak(s[0]) then 0
    else 1 + LineEnd(s[1..])
  }

  /**
   * The lines that successive readLine calls return, in order, until null:
   * none for an empty text, and no returned line holds a break.
   */
  function SplitLines(text: string): (lines: seq<string>)
    ensures lines == [] <==> text == []
    ensures forall i :: 0 <= i < |lines| ==> NoBreaks(lines[i])
    decreases |text|
  {
    if text == [] then []
    else
      var k := LineEnd(text);
      if k == |text| then [text]
      else if text[k] == '\r' && k + 1 < |text| && text[k + 1] == '\n' then
        [text[..k]] + SplitLines(text[k + 2..])
      else
        [text[..k]] + SplitLines(text[k + 1..])
  }

  lemma {:induction false} LineEndOfTerminated(line: string, tail: string)
    requires NoBreaks(line)
    ensures LineEnd(line + "\r\n" + tail) == |line|
    decreases |line|
  {
    if line == [] {
      assert (line + "\r\n" + tail)[0] == '\r';
    } else {
      assert (line + "\r\n" + tail)[1..] == line[1..] + "\r\n" + tail;
      LineEndOfTerminated(line[1..], tail);
    }
  }

  /** A line without breaks, then CR LF: readLine returns that line and goes on after the terminator. */
  lemma SplitOne(line: string, tail: string)
    requires NoBreaks(line)
    ensures SplitLines(line + "\r\n" + tail) == [line] + SplitLines(tail)
  {
    var text := line + "\r\n" + tail;
    LineEndOfTerminated(line, tail);
    assert text[|line|] == '\r' && text[|line| + 1] == '\n';
    assert text[..|line|] == line;
    assert text[|line| + 2..] == tail;
  }

  /** Splitting what Join wrote gives back the same lines, when no line holds a break. */
  lemma {:induction false} SplitJoin(lines: seq<string>)
    requires forall i :: 0 <= i < |lines| ==> NoBreaks(lines[i])
    ensures SplitLines(Join(lines)) == lines
  {
    if lines != [] {
      SplitOne(lines[0], Join(lines[1..]));
      SplitJoin(lines[1..]);
    }
  }

  lemma {:induction false} JoinAppend(a: seq<string>, b: seq<string>)
    ensures Join(a + b) == Join(a) + Join(b)
  {
    if a == [] {
      assert a + b == b;
    } else {
      assert (a + b)[1..] == a[1..] + b;
      JoinAppend(a[1..], b);
    }
  }

  /** Logging one more line appends that line and its terminator to the text. */
  lemma JoinSnoc(lines: seq<string>, line: string)
    ensures Join(lines + [line]) == Join(lines) + line + "\r\n"
  {
    JoinAppend(lines, [line]);
    assert Join([line]) == line + "\r\n" + Join([]);
  }
}
