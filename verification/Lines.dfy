/** Lines of a text, and the white space they start with. */
module Lines {

  predicate OneLine(s: string) { forall c :: c in s ==> c != '\n' }

  /** The pieces of a text between newlines; empty pieces are kept. */
  function SplitLines(text: string): seq<string> {
    if text == "" then [""]
    else
      var rest := SplitLines(text[1..]);
      if text[0] == '\n' then [""] + rest else [[text[0]] + rest[0]] + rest[1..]
  }

  function JoinLines(lines: seq<string>): string {
    if lines == [] then "" else lines[0] + "\n" + JoinLines(lines[1..])
  }

  lemma {:induction false} SplitFirst(line: string, rest: string)
    requires OneLine(line)
    ensures SplitLines(line + "\n" + rest) == [line] + SplitLines(rest)
  {
    var text := line + "\n" + rest;
    if line == "" {
      assert text == "\n" + rest && text[1..] == rest;
    } else {
      assert line[0] in line;
      assert text[1..] == line[1..] + "\n" + rest;
      assert forall c :: c in line[1..] ==> c in line;
      SplitFirst(line[1..], rest);
      assert line == [line[0]] + line[1..];
    }
  }

  lemma {:induction false} SplitJoined(lines: seq<string>)
    requires forall l :: l in lines ==> OneLine(l)
    ensures SplitLines(JoinLines(lines)) == lines + [""]
  {
    if lines != [] {
      SplitJoined(lines[1..]);
      SplitFirst(lines[0], JoinLines(lines[1..]));
      assert lines == [lines[0]] + lines[1..];
    }
  }

  lemma {:induction false} JoinConcat(a: seq<string>, b: seq<string>)
    ensures JoinLines(a + b) == JoinLines(a) + JoinLines(b)
  {
    if a == [] {
      assert a + b == b;
    } else {
      assert (a + b)[1..] == a[1..] + b;
      JoinConcat(a[1..], b);
    }
  }

  // ----- Indentation -----

  predicate IsWhitespaceExceptNL(c: char) {
    c == ' ' || c == '\t' || c == '\U{0C}' || c == '\U{0B}' || c == '\r'
  }

  /** Where the line that p is in starts. */
  function LineStart(text: string, p: nat): (start: nat)
    requires p <= |text|
    ensures start <= p && (start == 0 || text[start - 1] == '\n')
    ensures forall k :: start <= k < p ==> text[k] != '\n'
  {
    if p == 0 || text[p - 1] == '\n' then p else LineStart(text, p - 1)
  }

  /** The end of the white space from p on. */
  function SpaceEnd(text: string, p: nat): (end: nat)
    requires p <= |text|
    ensures p <= end <= |text| && (end < |text| ==> !IsWhitespaceExceptNL(text[end]))
    ensures forall k :: p <= k < end ==> IsWhitespaceExceptNL(text[k])
    decreases |text| - p
  {
    if p < |text| && IsWhitespaceExceptNL(text[p]) then SpaceEnd(text, p + 1) else p
  }

  /** The white space in front of the line that p is in. */
  function Indentation(text: string, p: nat): string
    requires p <= |text|
  {
    text[LineStart(text, p)..SpaceEnd(text, LineStart(text, p))]
  }

  /** That is all white space up to the first other character of the line. */
  lemma IndentationIsMaximal(text: string, p: nat)
    requires p <= |text|
    ensures var line, space := text[LineStart(text, p)..], Indentation(text, p);
            && space <= line && (forall c :: c in space ==> IsWhitespaceExceptNL(c))
            && (|space| < |line| ==> !IsWhitespaceExceptNL(line[|space|]))
  {
    var start, end := LineStart(text, p), SpaceEnd(text, LineStart(text, p));
    assert forall k :: 0 <= k < end - start ==> text[start..end][k] == text[start + k];
  }

  /** With white space behind every line break. */
  function Indented(text: string, space: string): string {
    if text == "" then ""
    else if text[0] == '\n' then "\n" + space + Indented(text[1..], space)
    else [text[0]] + Indented(text[1..], space)
  }

  function Rejoin(lines: seq<string>, separator: string): string
    requires lines != []
  {
    if |lines| == 1 then lines[0] else lines[0] + separator + Rejoin(lines[1..], separator)
  }

  /** Indenting is splitting at line breaks and joining again. */
  lemma {:induction false} RejoinIndents(text: string, space: string)
    ensures Rejoin(SplitLines(text), "\n" + space) == Indented(text, space)
  {
    if text != "" {
      var rest, separator := SplitLines(text[1..]), "\n" + space;
      RejoinIndents(text[1..], space);
      if text[0] == '\n' {
        assert ([""] + rest)[1..] == rest;
        assert "" + separator + Rejoin(rest, separator) == separator + Rejoin(rest, separator);
      } else {
        var lines := [[text[0]] + rest[0]] + rest[1..];
        assert lines[1..] == rest[1..];
        if |rest| > 1 {
          assert [text[0]] + rest[0] + separator + Rejoin(rest[1..], separator) ==
                 [text[0]] + (rest[0] + separator + Rejoin(rest[1..], separator));
        }
      }
    }
  }

  method IndentNewLines(text: string, space: string) returns (indented: string)
    ensures indented == Indented(text, space)
  {
    var lines := SplitLines(text);
    ghost var separator := "\n" + space;
    indented := "";
    for i := 0 to |lines|
      invariant i < |lines| ==> indented + Rejoin(lines[i..], separator) == Rejoin(lines, separator)
      invariant i == |lines| ==> indented == Rejoin(lines, separator)
    {
      RejoinNext(lines[i..], separator);
      assert lines[i..][1..] == lines[i + 1..];
      indented := indented + lines[i];
      if i < |lines| - 1 {
        indented := indented + "\n" + space;
      }
    }
    RejoinIndents(text, space);
  }

  lemma RejoinNext(lines: seq<string>, separator: string)
    requires lines != []
    ensures Rejoin(lines, separator) == lines[0] + if |lines| == 1 then "" else separator + Rejoin(lines[1..], separator)
  {
  }

  lemma BreakSomewhere(text: string)
    requires text != ""
    ensures '\n' in text <==> text[0] == '\n' || '\n' in text[1..]
  {
    if '\n' in text {
      var i :| 0 <= i < |text| && text[i] == '\n';
      assert i > 0 ==> text[1..][i - 1] == '\n';
    }
  }

  lemma {:induction false} IndentedLength(text: string, space: string)
    ensures |Indented(text, space)| >= |text|
    ensures |Indented(text, space)| == |text| <==> space == "" || '\n' !in text
  {
    if text != "" {
      IndentedLength(text[1..], space);
      BreakSomewhere(text);
    }
  }

  lemma {:induction false} IndentedSame(text: string, space: string)
    requires space == "" || '\n' !in text
    ensures Indented(text, space) == text
  {
    if text != "" {
      BreakSomewhere(text);
      IndentedSame(text[1..], space);
      assert text == [text[0]] + text[1..];
    }
  }

  /** Indenting adds something exactly when there is a line break and something
      to add. */
  lemma IndentingAdds(text: string, space: string)
    ensures |Indented(text, space)| >= |text|
    ensures |Indented(text, space)| == |text| <==> space == "" || '\n' !in text
    ensures space == "" || '\n' !in text ==> Indented(text, space) == text
  {
    IndentedLength(text, space);
    if space == "" || '\n' !in text { IndentedSame(text, space); }
  }

  // ----- Blank lines -----

  /** The length of the line that p is in, with its line break, if it is blank;
      0 otherwise. */
  function BlankLine(text: string, p: nat): (n: nat)
    requires p <= |text|
    ensures n > 0 ==> p < LineStart(text, p) + n <= |text|
  {
    var end := SpaceEnd(text, LineStart(text, p));
    if end < |text| && text[end] == '\n' then
      end + 1 - LineStart(text, p)
    else 0
  }

  /** A line of nothing but white space before its line break is blank. */
  lemma BlankLineIsFound(text: string, p: nat, end: nat)
    requires p <= |text| && LineStart(text, p) <= end < |text| && text[end] == '\n'
    requires forall k :: LineStart(text, p) <= k < end ==> IsWhitespaceExceptNL(text[k])
    ensures LineStart(text, p) + BlankLine(text, p) == end + 1
  {
    assert SpaceEnd(text, LineStart(text, p)) == end;
  }

  /** What goes with a blank line: a whole line of nothing but white space. */
  lemma BlankLineIsWhole(text: string, p: nat)
    requires p <= |text| && BlankLine(text, p) > 0
    ensures var start, n := LineStart(text, p), BlankLine(text, p);
            && (start == 0 || text[start - 1] == '\n') && text[start + n - 1] == '\n'
            && start <= p < start + n
            && forall k :: start <= k < start + n - 1 ==> IsWhitespaceExceptNL(text[k])
  {
  }
}
