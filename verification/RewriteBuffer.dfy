/** The buffer that a rewriter edits: the text as it is now, and deltas to find
    offsets of the original file in it (RewriteBuffer.h, Rewriter.cpp). */
module RewriteBuffer {
  import opened Lines
  import opened Removals
  import opened Wrappers

  // ----- Values -----

  /** A change of the length by `change`. Its place is twice an offset for an
      insertion, and one more for a removal. */
  datatype Delta = Delta(place: nat, change: int)

  /** All changes in front of a place. */
  function DeltaAt(deltas: seq<Delta>, place: nat): int {
    if deltas == [] then 0
    else DeltaAt(deltas[..|deltas| - 1], place) +
         (if deltas[|deltas| - 1].place < place then deltas[|deltas| - 1].change else 0)
  }

  lemma DeltaAppended(deltas: seq<Delta>, d: Delta, place: nat)
    ensures DeltaAt(deltas + [d], place) == DeltaAt(deltas, place) + if d.place < place then d.change else 0
  {
    assert (deltas + [d])[..|deltas|] == deltas;
  }

  datatype Buf = Buf(text: string, deltas: seq<Delta>) {
    /** Where an offset of the original file is now, in front of the texts
        inserted there or behind them. */
    function Mapped(orig: nat, afterInserts: bool): int {
      DeltaAt(deltas, 2 * orig + if afterInserts then 1 else 0) + orig
    }

    /** The size of a range without the texts inserted at its two ends. */
    function RangeSize(r: CharRange): int {
      Mapped(r.end, false) - Mapped(r.begin, true)
    }

    /** None is a call that is not valid: the text would go outside the buffer. */
    function WithText(at: nat, text: string, after: bool): Option<Buf> {
      var o := Mapped(at, after);
      if text == "" then Some(this)
      else if !(0 <= o <= |this.text|) then None
      else Some(Buf(this.text[..o] + text + this.text[o..], deltas + [Delta(2 * at, |text|)]))
    }

    /** None is a call that is not valid: a negative size, which the original
        turns into a huge one, or a range that is not all in the buffer. */
    function WithoutText(at: nat, size: int, removeLineIfEmpty: bool): Option<Buf> {
      var o := Mapped(at, true);
      if size == 0 then Some(this)
      else if !(0 <= o && 0 < size && o + size <= |text|) then None
      else
        var cut := WithoutChars(at, o, size);
        Some(if removeLineIfEmpty then cut.WithoutLine(o) else cut)
    }

    function WithoutChars(at: nat, o: nat, size: nat): (cut: Buf)
      requires o + size <= |text|
      ensures |cut.text| == |text| - size
    {
      Buf(text[..o] + text[o + size..], deltas + [Delta(2 * at + 1, -(size as int))])
    }

    /** The delta of a removed line is entered at its place in the edited text, as
        if that were an offset of the original file. */
    function WithoutLine(p: nat): Buf
      requires p <= |text|
    {
      var start, n: int := LineStart(text, p), BlankLine(text, p);
      if n == 0 then this else Buf(text[..start] + text[start + n..], deltas + [Delta(2 * start + 1, -n)])
    }
  }

  // ----- Calls on the buffer -----

  datatype Call = Put(at: nat, text: string, after: bool) | Cut(range: CharRange)

  function After(b: Buf, c: Call): Option<Buf> {
    match c
    case Put(at, text, after) => b.WithText(at, text, after)
    case Cut(range) => b.WithoutText(range.begin, b.RangeSize(range), true)
  }

  function AfterAll(b: Buf, calls: seq<Call>): Option<Buf>
    decreases calls
  {
    if calls == [] then Some(b)
    else
      var next := After(b, calls[0]);
      if next.None? then None else AfterAll(next.value, calls[1..])
  }

  lemma {:induction false} AfterAllSplits(b: Buf, x: seq<Call>, y: seq<Call>)
    ensures AfterAll(b, x + y) == var mid := AfterAll(b, x); if mid.None? then None else AfterAll(mid.value, y)
    decreases x
  {
    if x == [] {
      assert x + y == y;
    } else {
      assert (x + y)[1..] == x[1..] + y;
      var next := After(b, x[0]);
      if next.Some? { AfterAllSplits(next.value, x[1..], y); }
    }
  }

  class RewriteBuffer {
    var Buffer: string
    var Deltas: seq<Delta>

    constructor (input: string)
      ensures Value() == Buf(input, [])
    {
      Buffer, Deltas := input, [];
    }

    function Value(): Buf
      reads this
    {
      Buf(Buffer, Deltas)
    }

    method InsertText(origOffset: nat, str: string, insertAfter: bool)
      requires Value().WithText(origOffset, str, insertAfter).Some?
      modifies this
      ensures Some(Value()) == old(Value()).WithText(origOffset, str, insertAfter)
    {
      if str == "" {
        return;
      }
      var realOffset := Value().Mapped(origOffset, insertAfter);
      Buffer := Buffer[..realOffset] + str + Buffer[realOffset..];
      Deltas := Deltas + [Delta(2 * origOffset, |str|)];
    }

    method RemoveText(origOffset: nat, size: int, removeLineIfEmpty: bool)
      requires Value().WithoutText(origOffset, size, removeLineIfEmpty).Some?
      modifies this
      ensures Some(Value()) == old(Value()).WithoutText(origOffset, size, removeLineIfEmpty)
    {
      if size == 0 {
        return;
      }
      var realOffset := Value().Mapped(origOffset, true);
      Buffer := Buffer[..realOffset] + Buffer[realOffset + size..];
      Deltas := Deltas + [Delta(2 * origOffset + 1, -size)];
      if removeLineIfEmpty {
        RemoveEmptyLine(realOffset);
      }
    }

    /** Finds the line that the removal was in, and removes it if it is completely
        empty. */
    method RemoveEmptyLine(realOffset: nat)
      requires realOffset <= |Buffer|
      modifies this
      ensures Value() == old(Value()).WithoutLine(realOffset)
    {
      var curLineStartOffs, lineSize := FindLine(realOffset);
      if curLineStartOffs + lineSize < |Buffer| && Buffer[curLineStartOffs + lineSize] == '\n' {
        Buffer := Buffer[..curLineStartOffs] + Buffer[curLineStartOffs + (lineSize + 1)..];
        Deltas := Deltas + [Delta(2 * curLineStartOffs + 1, -(lineSize + 1))];
      }
    }

    /** The two loops that look for an empty line: where the line of an offset
        starts, and how much white space is there. */
    method FindLine(realOffset: nat) returns (curLineStartOffs: nat, lineSize: nat)
      requires realOffset <= |Buffer|
      ensures curLineStartOffs == LineStart(Buffer, realOffset)
      ensures curLineStartOffs + lineSize == SpaceEnd(Buffer, curLineStartOffs)
    {
      curLineStartOffs := 0;
      for i := 0 to realOffset
        invariant curLineStartOffs == LineStart(Buffer, i)
      {
        if Buffer[i] == '\n' {
          curLineStartOffs := i + 1;
        }
      }
      var posI := curLineStartOffs;
      lineSize := 0;
      while posI < |Buffer| && IsWhitespaceExceptNL(Buffer[posI])
        invariant posI == curLineStartOffs + lineSize <= |Buffer|
        invariant SpaceEnd(Buffer, posI) == SpaceEnd(Buffer, curLineStartOffs)
      {
        posI := posI + 1;
        lineSize := lineSize + 1;
      }
    }
  }

  lemma CutFrom(b: Buf, r: CharRange, start: nat, size: nat)
    requires b.Mapped(r.begin, true) == start && b.RangeSize(r) == size && size > 0 && start + size <= |b.text|
    ensures After(b, Cut(r)) == Some(b.WithoutChars(r.begin, start, size).WithoutLine(start))
  {
  }

  // ----- What lines that go can do -----

  /** A removal takes along the line that it leaves blank. */
  lemma BlankLineGoes()
    ensures var end := After(Buf("a\nb", []), Cut(CharRange(0, 1)));
            end.Some? && end.value.text == "b"
  {
    var b := Buf("a\nb", []);
    CutFrom(b, CharRange(0, 1), 0, 1);
    var erased := b.WithoutChars(0, 0, 1);
    assert erased.text == "\nb";
    assert LineStart(erased.text, 0) == 0 && SpaceEnd(erased.text, 0) == 0;
    assert erased.text[..0] + erased.text[1..] == "b";
  }

  /** Behind an insertion that is long enough, the delta of a line that went comes
      too late for the next removal: it is told to take `b`, and takes `c`. */
  lemma WrongCharacterGoes()
    ensures var end := AfterAll(Buf("a\nbc", []), [Put(0, "//\n", true), Cut(CharRange(0, 1)), Cut(CharRange(2, 3))]);
            end.Some? && end.value.text == "//\nb"
  {
    var put, cut0, cut2 := Put(0, "//\n", true), Cut(CharRange(0, 1)), Cut(CharRange(2, 3));
    var d0, d1, d7 := Delta(0, 3), Delta(1, -1), Delta(7, -1);
    AfterPut(Buf("a\nbc", []), d0);
    AfterFirstCut(Buf("//\na\nbc", [d0]), d0, d1, d7);
    AfterSecondCut(Buf("//\nbc", [d0, d1, d7]), d0, d1, d7);
    assert [put, cut0, cut2][1..] == [cut0, cut2] && [cut0, cut2][1..] == [cut2] && [cut2][1..] == [];
  }

  lemma AfterPut(b: Buf, d0: Delta)
    requires b == Buf("a\nbc", []) && d0 == Delta(0, 3)
    ensures After(b, Put(0, "//\n", true)) == Some(Buf("//\na\nbc", [d0]))
  {
    assert b.Mapped(0, true) == 0;
    assert b.text[..0] + "//\n" + b.text[0..] == "//\na\nbc";
    assert [] + [d0] == [d0];
  }

  lemma ThreeDeltas(d0: Delta, d1: Delta, d7: Delta, place: nat)
    requires d0 == Delta(0, 3) && d1 == Delta(1, -1) && d7 == Delta(7, -1) && 0 < place < 7
    ensures DeltaAt([d0], place) == 3 && DeltaAt([d0, d1, d7], place) == if place == 1 then 3 else 2
  {
    DeltaAppended([], d0, place);
    DeltaAppended([d0], d1, place);
    DeltaAppended([d0, d1], d7, place);
    assert [] + [d0] == [d0] && [d0] + [d1] == [d0, d1] && [d0, d1] + [d7] == [d0, d1, d7];
  }

  lemma AfterFirstCut(b: Buf, d0: Delta, d1: Delta, d7: Delta)
    requires d0 == Delta(0, 3) && d1 == Delta(1, -1) && d7 == Delta(7, -1) && b == Buf("//\na\nbc", [d0])
    ensures After(b, Cut(CharRange(0, 1))) == Some(Buf("//\nbc", [d0, d1, d7]))
  {
    ThreeDeltas(d0, d1, d7, 1);
    ThreeDeltas(d0, d1, d7, 2);
    CutFrom(b, CharRange(0, 1), 3, 1);
    var erased := b.WithoutChars(0, 3, 1);
    assert erased.text == "//\n\nbc" && erased.deltas == [d0, d1];
    FirstLineGoes(erased, d0, d1, d7);
  }

  lemma FirstLineGoes(b: Buf, d0: Delta, d1: Delta, d7: Delta)
    requires d7 == Delta(7, -1) && b == Buf("//\n\nbc", [d0, d1])
    ensures b.WithoutLine(3) == Buf("//\nbc", [d0, d1, d7])
  {
    assert LineStart(b.text, 3) == 3 && SpaceEnd(b.text, 3) == 3;
    assert b.text[..3] + b.text[4..] == "//\nbc";
    assert b.deltas + [d7] == [d0, d1, d7];
  }

  lemma AfterSecondCut(b: Buf, d0: Delta, d1: Delta, d7: Delta)
    requires d0 == Delta(0, 3) && d1 == Delta(1, -1) && d7 == Delta(7, -1) && b == Buf("//\nbc", [d0, d1, d7])
    ensures After(b, Cut(CharRange(2, 3))).Some? && After(b, Cut(CharRange(2, 3))).value.text == "//\nb"
  {
    ThreeDeltas(d0, d1, d7, 5);
    ThreeDeltas(d0, d1, d7, 6);
    CutFrom(b, CharRange(2, 3), 4, 1);
    var erased := b.WithoutChars(2, 4, 1);
    assert erased.text == "//\nb";
    assert LineStart(erased.text, 4) == 3 && SpaceEnd(erased.text, 3) == 3;
  }
}
