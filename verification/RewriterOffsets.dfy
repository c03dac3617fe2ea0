/** When a rewriter finds the offsets it looks for, and what it makes of a file
    then. */
module RewriterOffsets {
  import opened Lines
  import opened Removals
  import opened RewriteBuffer
  import opened RewriteCells
  import opened Wrappers

  // ----- Finding borders -----

  /** The deltas give the offset of the border in front of cell h. */
  ghost predicate Finds(cells: Cells, deltas: seq<Delta>, h: nat)
    requires h <= |cells|
  {
    |Text(cells, 0, h)| == h / 2 + DeltaAt(deltas, h)
  }

  ghost predicate FindsFrom(cells: Cells, deltas: seq<Delta>, from: nat) {
    forall h: nat :: from <= h <= |cells| ==> Finds(cells, deltas, h)
  }

  lemma Halves(p: nat)
    ensures 2 * p / 2 == p && (2 * p + 1) / 2 == p
  {
  }

  /** What a rewriter works out for the two ends of a range is where they are. */
  ghost predicate Located(b: Buf, cells: Cells, r: CharRange)
    requires r.begin < r.end && 2 * r.end <= |cells|
  {
    b.Mapped(r.begin, true) == |Text(cells, 0, 2 * r.begin + 1)| && b.Mapped(r.end, false) == |Text(cells, 0, 2 * r.end)|
  }

  lemma LocatedIsFound(b: Buf, cells: Cells, r: CharRange)
    requires r.begin < r.end && 2 * r.end <= |cells|
    ensures Located(b, cells, r) <==> Finds(cells, b.deltas, 2 * r.begin + 1) && Finds(cells, b.deltas, 2 * r.end)
  {
    Halves(r.begin);
    Halves(r.end);
  }

  // ----- Insertions -----

  lemma PutStep(b: Buf, cells: Cells, at: nat, t: string, after: bool)
    requires b.text == Whole(cells) && FindsFrom(cells, b.deltas, 0) && 2 * at < |cells|
    ensures var next, now := b.WithText(at, t, after), PutAt(cells, 2 * at, t, after);
            next.Some? && next.value.text == Whole(now) && FindsFrom(now, next.value.deltas, 0)
  {
    if t == "" {
      assert cells[2 * at] + "" == cells[2 * at] && "" + cells[2 * at] == cells[2 * at];
      assert PutAt(cells, 2 * at, t, after) == cells;
    } else {
      var o := |Text(cells, 0, if after then 2 * at + 1 else 2 * at)|;
      PutIsFound(b, cells, at, after);
      PutInText(cells, 2 * at, t, after);
      PutKeepsFinding(cells, b.deltas, 2 * at, t, after);
      assert b.WithText(at, t, after) == Some(Buf(b.text[..o] + t + b.text[o..], b.deltas + [Delta(2 * at, |t|)]));
    }
  }

  lemma PutIsFound(b: Buf, cells: Cells, at: nat, after: bool)
    requires FindsFrom(cells, b.deltas, 0) && 2 * at < |cells|
    ensures b.Mapped(at, after) == |Text(cells, 0, if after then 2 * at + 1 else 2 * at)|
  {
    Halves(at);
    assert Finds(cells, b.deltas, if after then 2 * at + 1 else 2 * at);
  }

  lemma PutInText(cells: Cells, place: nat, t: string, after: bool)
    requires place < |cells|
    ensures var o := |Text(cells, 0, if after then place + 1 else place)|;
            o <= |Whole(cells)| && Whole(PutAt(cells, place, t, after)) == Whole(cells)[..o] + t + Whole(cells)[o..]
  {
    var cut := if after then place + 1 else place;
    TextInThree(cells, cut, cut);
    PutText(cells, place, t, after, |cells|);
  }

  lemma PutKeepsFinding(cells: Cells, deltas: seq<Delta>, place: nat, t: string, after: bool)
    requires FindsFrom(cells, deltas, 0) && place < |cells|
    ensures FindsFrom(PutAt(cells, place, t, after), deltas + [Delta(place, |t|)], 0)
  {
    var now, cut := PutAt(cells, place, t, after), if after then place + 1 else place;
    forall h: nat | h <= |cells| ensures Finds(now, deltas + [Delta(place, |t|)], h) {
      assert Finds(cells, deltas, h);
      DeltaAppended(deltas, Delta(place, |t|), h);
      PutText(cells, place, t, after, h);
      if h > place { TextSplits(cells, 0, cut, h); }
    }
  }

  // ----- The characters of a removal -----

  /** The text between the texts at the two ends of a range. */
  ghost function Inner(cells: Cells, r: CharRange): string
    requires r.begin < r.end && 2 * r.end <= |cells|
  {
    Text(cells, 2 * r.begin + 1, 2 * r.end)
  }

  lemma EmptiedWhole(cells: Cells, r: CharRange)
    requires r.begin < r.end && 2 * r.end <= |cells|
    ensures Whole(Emptied(cells, r)) == Text(cells, 0, 2 * r.begin + 1) + Text(cells, 2 * r.end, |cells|)
  {
    EmptiedText(cells, r, |cells|);
  }

  lemma EmptiedCutPoint(cells: Cells, r: CharRange)
    requires r.begin < r.end && 2 * r.end <= |cells|
    ensures CutPoint(Emptied(cells, r), r) == |Text(cells, 0, 2 * r.begin + 1)|
  {
    EmptiedText(cells, r, 2 * r.begin + 1);
  }

  lemma MiddleCutOut(a: string, m: string, c: string)
    ensures var whole := a + m + c; whole[..|a|] + whole[|a| + |m|..] == a + c
  {
    var whole := a + m + c;
    assert whole[..|a|] == a && whole[|a| + |m|..] == c;
  }

  lemma InnerIsCutOut(cells: Cells, r: CharRange)
    requires r.begin < r.end && 2 * r.end <= |cells|
    ensures var start, size := |Text(cells, 0, 2 * r.begin + 1)|, |Inner(cells, r)|;
            && |Text(cells, 0, 2 * r.end)| == start + size <= |Whole(cells)|
            && Whole(cells)[..start] + Whole(cells)[start + size..] == Whole(Emptied(cells, r))
  {
    var b, e := 2 * r.begin + 1, 2 * r.end;
    TextThirds(cells, b, e, |cells|);
    TextSplits(cells, 0, b, e);
    MiddleCutOut(Text(cells, 0, b), Inner(cells, r), Text(cells, e, |cells|));
    EmptiedWhole(cells, r);
  }

  /** The buffer without that text. */
  ghost function Erased(b: Buf, cells: Cells, r: CharRange): Buf
    requires r.begin < r.end && 2 * r.end <= |cells|
  {
    Buf(Whole(Emptied(cells, r)), b.deltas + [Delta(2 * r.begin + 1, -|Inner(cells, r)|)])
  }

  lemma EraseStep(b: Buf, cells: Cells, r: CharRange)
    requires r.begin < r.end && 2 * r.end <= |cells| && FindsFrom(cells, b.deltas, 2 * r.begin + 1)
    ensures Located(b, cells, r) && FindsFrom(Emptied(cells, r), Erased(b, cells, r).deltas, 2 * r.end)
  {
    LocatedIsFound(b, cells, r);
    EraseKeepsFinding(cells, b.deltas, r);
  }

  lemma {:induction false} EraseKeepsFinding(cells: Cells, deltas: seq<Delta>, r: CharRange)
    requires r.begin < r.end && 2 * r.end <= |cells| && FindsFrom(cells, deltas, 2 * r.begin + 1)
    ensures FindsFrom(Emptied(cells, r), deltas + [Delta(2 * r.begin + 1, -|Inner(cells, r)|)], 2 * r.end)
  {
    var d := Delta(2 * r.begin + 1, -|Inner(cells, r)|);
    forall h: nat | 2 * r.end <= h <= |cells| ensures Finds(Emptied(cells, r), deltas + [d], h) {
      assert Finds(cells, deltas, h);
      EraseKeepsOne(cells, deltas, r, h);
    }
  }

  lemma {:induction false} EraseKeepsOne(cells: Cells, deltas: seq<Delta>, r: CharRange, h: nat)
    requires r.begin < r.end && 2 * r.end <= h <= |cells| && Finds(cells, deltas, h)
    ensures Finds(Emptied(cells, r), deltas + [Delta(2 * r.begin + 1, -|Inner(cells, r)|)], h)
  {
    EmptiedText(cells, r, h);
    FindsShorter(cells, Emptied(cells, r), deltas, Delta(2 * r.begin + 1, -|Inner(cells, r)|), h);
  }

  /** A delta for what is missing makes up for it. */
  lemma {:induction false} FindsShorter(a: Cells, b: Cells, deltas: seq<Delta>, d: Delta, h: nat)
    requires h <= |a| && h <= |b| && Finds(a, deltas, h) && d.place < h && |Text(b, 0, h)| == |Text(a, 0, h)| + d.change
    ensures Finds(b, deltas + [d], h)
  {
    DeltaAppended(deltas, d, h);
  }

  // ----- The line of a removal -----

  /** If the line at p goes, it ends in front of border h, and its delta is entered
      in front of h as well. The delta is entered at the offset that the line had
      in the edited text. */
  ghost predicate LinePast(cells: Cells, p: nat, h: nat)
    requires p <= |Whole(cells)| && h <= |cells|
  {
    var start, n := LineStart(Whole(cells), p), BlankLine(Whole(cells), p);
    n == 0 || (2 * start + 1 < h && start + n <= |Text(cells, 0, h)|)
  }

  lemma {:induction false} LineText(b: Buf, cells: Cells, p: nat)
    requires b.text == Whole(cells) && p <= |Whole(cells)|
    ensures b.WithoutLine(p).text == Whole(WithoutBlank(cells, p))
  {
    if BlankLine(b.text, p) > 0 { LinedWhole(cells, LineStart(b.text, p), BlankLine(b.text, p)); }
  }

  lemma {:induction false} LinedWhole(cells: Cells, from: nat, n: nat)
    requires from + n <= |Whole(cells)|
    ensures Whole(Lined(cells, from, n)) == Whole(cells)[..from] + Whole(cells)[from + n..]
  {
    LinedText(cells, from, n, |cells|);
    OutsideCut(Whole(cells), from, n);
  }

  lemma OutsideCut(t: string, from: nat, n: nat)
    requires from + n <= |t|
    ensures Outside(t, 0, from, n) == t[..from] + t[from + n..]
  {
  }

  lemma OutsideLength(t: string, from: nat, n: nat)
    requires from <= |t|
    ensures |Outside(t, 0, from, n)| == if from + n <= |t| then |t| - n else from
  {
  }

  /** Behind a line that went, a border is found exactly if the line was past. */
  lemma {:induction false} LineStep(b: Buf, cells: Cells, p: nat, h: nat)
    requires b.text == Whole(cells) && p <= |Whole(cells)| && h <= |cells|
    requires Finds(cells, b.deltas, h) && p < |Text(cells, 0, h)|
    ensures Finds(WithoutBlank(cells, p), b.WithoutLine(p).deltas, h) <==> LinePast(cells, p, h)
  {
    var start, n: int := LineStart(b.text, p), BlankLine(b.text, p);
    if n > 0 {
      LinedText(cells, start, n, h);
      OutsideLength(Text(cells, 0, h), start, n);
      DeltaAppended(b.deltas, Delta(2 * start + 1, -n), h);
    }
  }

  /** By how much a border is missed behind a line that ended before it. */
  lemma {:induction false} MissedByTheLine(b: Buf, cells: Cells, p: nat, h: nat)
    requires b.text == Whole(cells) && p <= |Whole(cells)| && h <= |cells| && Finds(cells, b.deltas, h)
    requires BlankLine(b.text, p) > 0 && LineStart(b.text, p) + BlankLine(b.text, p) <= |Text(cells, 0, h)|
    requires h <= 2 * LineStart(b.text, p) + 1
    ensures h / 2 + DeltaAt(b.WithoutLine(p).deltas, h) ==
            |Text(WithoutBlank(cells, p), 0, h)| + BlankLine(b.text, p)
  {
    var start, n: int := LineStart(b.text, p), BlankLine(b.text, p);
    LinedText(cells, start, n, h);
    DeltaAppended(b.deltas, Delta(2 * start + 1, -n), h);
  }

  // ----- One removal -----

  /** From a border on, all borders are found and all characters are there. */
  ghost predicate Ready(cells: Cells, deltas: seq<Delta>, from: nat) {
    FindsFrom(cells, deltas, from) && CharsFrom(cells, from)
  }

  ghost predicate CharsFrom(cells: Cells, from: nat) {
    forall k :: from <= k < |cells| && k % 2 == 1 ==> cells[k] != ""
  }

  /** What a removal leaves in front of the next one, at border h. */
  ghost predicate PastCut(cells: Cells, r: CharRange, h: nat)
    requires 2 * r.begin + 1 <= |cells| && h <= |cells|
  {
    CutPointInside(Emptied(cells, r), r);
    LinePast(Emptied(cells, r), CutPoint(Emptied(cells, r), r), h)
  }

  lemma ErasedAt(b: Buf, cells: Cells, r: CharRange)
    requires b.text == Whole(cells) && r.begin < r.end && 2 * r.end <= |cells|
    ensures var start, size := |Text(cells, 0, 2 * r.begin + 1)|, |Inner(cells, r)|;
            start + size <= |b.text| && Erased(b, cells, r) == b.WithoutChars(r.begin, start, size)
  {
    InnerIsCutOut(cells, r);
  }

  lemma CutIsErase(b: Buf, cells: Cells, r: CharRange)
    requires b.text == Whole(cells) && r.begin < r.end && 2 * r.end <= |cells|
    requires Located(b, cells, r) && cells[2 * r.begin + 1] != ""
    ensures CutPoint(Emptied(cells, r), r) <= |Erased(b, cells, r).text|
    ensures After(b, Cut(r)) == Some(Erased(b, cells, r).WithoutLine(CutPoint(Emptied(cells, r), r)))
  {
    assert b.RangeSize(r) == |Inner(cells, r)| by { TextSplits(cells, 0, 2 * r.begin + 1, 2 * r.end); }
    ErasedAt(b, cells, r);
    InnerIsNotEmpty(cells, r);
    CutFrom(b, r, |Text(cells, 0, 2 * r.begin + 1)|, |Inner(cells, r)|);
    EmptiedCutPoint(cells, r);
  }

  lemma InnerIsNotEmpty(cells: Cells, r: CharRange)
    requires r.begin < r.end && 2 * r.end <= |cells| && cells[2 * r.begin + 1] != ""
    ensures |Inner(cells, r)| > 0
  {
    TextFirst(cells, 2 * r.begin + 1, 2 * r.end);
  }

  /** A removal whose range is found. */
  ghost function AfterCut(b: Buf, cells: Cells, r: CharRange): Buf
    requires r.begin < r.end && 2 * r.end <= |cells|
  {
    CutPointInside(Emptied(cells, r), r);
    Erased(b, cells, r).WithoutLine(CutPoint(Emptied(cells, r), r))
  }

  lemma CutStep(b: Buf, cells: Cells, r: CharRange)
    requires b.text == Whole(cells) && r.begin < r.end && 2 * r.end < |cells|
    requires Ready(cells, b.deltas, 2 * r.begin + 1)
    ensures Located(b, cells, r) && After(b, Cut(r)) == Some(AfterCut(b, cells, r))
    ensures AfterCut(b, cells, r).text == Whole(Removed(cells, r))
  {
    EraseStep(b, cells, r);
    CutIsErase(b, cells, r);
    LineText(Erased(b, cells, r), Emptied(cells, r), CutPoint(Emptied(cells, r), r));
  }

  /** Behind the character that follows a removed range, a border is found
      exactly if the line of the removal is past. */
  lemma CutThenFinds(b: Buf, cells: Cells, r: CharRange, h: nat)
    requires r.begin < r.end && 2 * r.end + 2 <= h <= |cells| && Ready(cells, b.deltas, 2 * r.begin + 1)
    ensures Finds(Removed(cells, r), AfterCut(b, cells, r).deltas, h) <==> PastCut(cells, r, h)
  {
    var x := Emptied(cells, r);
    EraseStep(b, cells, r);
    CutPointInside(x, r);
    CutPointBefore(cells, r, h);
    assert Finds(x, Erased(b, cells, r).deltas, h);
    LineStep(Erased(b, cells, r), x, CutPoint(x, r), h);
  }

  lemma CutPointBefore(cells: Cells, r: CharRange, h: nat)
    requires r.begin < r.end && 2 * r.end + 2 <= h <= |cells| && CharsFrom(cells, 2 * r.begin + 1)
    ensures CutPoint(Emptied(cells, r), r) < |Text(Emptied(cells, r), 0, h)|
  {
    var k := 2 * r.end + 1;
    assert cells[k] != "";
    TextPasses(Emptied(cells, r), 2 * r.begin + 1, k, h);
  }

  /** A border behind a line that is past has such lines behind it only. */
  lemma PastStaysPast(cells: Cells, r: CharRange, h: nat, h': nat)
    requires 2 * r.begin + 1 <= |cells| && h <= h' <= |cells| && PastCut(cells, r, h)
    ensures PastCut(cells, r, h')
  {
    TextGrows(Emptied(cells, r), h, h');
  }

  lemma CharsStay(cells: Cells, r: CharRange, h: nat)
    requires r.begin < r.end && 2 * r.end + 2 <= h <= |cells| && CharsFrom(cells, 2 * r.begin + 1) && PastCut(cells, r, h)
    ensures CharsFrom(Removed(cells, r), h)
  {
    var x := Emptied(cells, r);
    CutPointInside(x, r);
    forall k | h <= k < |cells| && k % 2 == 1 ensures Removed(cells, r)[k] != "" {
      assert x[k] == cells[k] != "";
      CellStays(x, CutPoint(x, r), h, k);
    }
  }

  /** A line that is past leaves what comes later as it is. */
  lemma CellStays(cells: Cells, p: nat, h: nat, k: nat)
    requires p <= |Whole(cells)| && h <= k < |cells| && LinePast(cells, p, h)
    ensures WithoutBlank(cells, p)[k] == cells[k]
  {
    TextGrows(cells, h, k);
    var start, n := LineStart(Whole(cells), p), BlankLine(Whole(cells), p);
    if n != 0 { OutsideBehind(cells[k], |Text(cells, 0, k)|, start, n); }
  }

  lemma CutThenReady(b: Buf, cells: Cells, r: CharRange, h: nat)
    requires r.begin < r.end && 2 * r.end + 2 <= h <= |cells|
    requires Ready(cells, b.deltas, 2 * r.begin + 1) && PastCut(cells, r, h)
    ensures Ready(Removed(cells, r), AfterCut(b, cells, r).deltas, h)
  {
    CharsStay(cells, r, h);
    forall h': nat | h <= h' <= |cells| ensures Finds(Removed(cells, r), AfterCut(b, cells, r).deltas, h') {
      PastStaysPast(cells, r, h, h');
      CutThenFinds(b, cells, r, h');
    }
  }

  // ----- All removals -----

  ghost predicate InCells(cells: Cells, ranges: seq<CharRange>) {
    GapSorted(ranges) && forall i :: 0 <= i < |ranges| ==> 2 * ranges[i].end < |cells|
  }

  ghost function RemovedAll(cells: Cells, ranges: seq<CharRange>): (now: Cells)
    requires forall i :: 0 <= i < |ranges| ==> 2 * ranges[i].begin + 1 <= |cells|
    ensures |now| == |cells|
    decreases ranges
  {
    if ranges == [] then cells else RemovedAll(Removed(cells, ranges[0]), ranges[1..])
  }

  function CutsOf(ranges: seq<CharRange>): seq<Call> {
    seq(|ranges|, i requires 0 <= i < |ranges| => Cut(ranges[i]))
  }

  /** Every removal finds the line of the one before it past, if that went. */
  ghost predicate LinesPast(cells: Cells, ranges: seq<CharRange>)
    requires InCells(cells, ranges)
    decreases ranges
  {
    if |ranges| <= 1 then true
    else
      RestInCells(cells, ranges[0], ranges);
      PastCut(cells, ranges[0], 2 * ranges[1].begin + 1) && LinesPast(Removed(cells, ranges[0]), ranges[1..])
  }

  /** Every removal looks up its range where it is. */
  ghost predicate AllLocated(b: Buf, cells: Cells, ranges: seq<CharRange>)
    requires InCells(cells, ranges)
    decreases ranges
  {
    if ranges == [] then true
    else
      RestInCells(cells, ranges[0], ranges);
      var next := After(b, Cut(ranges[0]));
      Located(b, cells, ranges[0]) && next.Some? && AllLocated(next.value, Removed(cells, ranges[0]), ranges[1..])
  }

  lemma {:induction false} NextLocated(b: Buf, cells: Cells, r: CharRange, next: CharRange)
    requires r.begin < r.end < next.begin < next.end && 2 * next.end < |cells| && Ready(cells, b.deltas, 2 * r.begin + 1)
    ensures PastCut(cells, r, 2 * next.begin + 1) ==>
              Ready(Removed(cells, r), AfterCut(b, cells, r).deltas, 2 * next.begin + 1)
    ensures !PastCut(cells, r, 2 * next.begin + 1) ==> !Located(AfterCut(b, cells, r), Removed(cells, r), next)
  {
    var h := 2 * next.begin + 1;
    CutThenFinds(b, cells, r, h);
    if PastCut(cells, r, h) {
      CutThenReady(b, cells, r, h);
    } else {
      LocatedIsFound(AfterCut(b, cells, r), Removed(cells, r), next);
    }
  }

  lemma {:induction false} RestInCells(cells: Cells, r: CharRange, ranges: seq<CharRange>)
    requires InCells(cells, ranges) && ranges != []
    requires 2 * r.begin + 1 <= |cells|
    ensures InCells(Removed(cells, r), ranges[1..])
  {
    RestSorted(ranges, |cells|);
  }

  lemma {:induction false} RestSorted(ranges: seq<CharRange>, size: nat)
    requires GapSorted(ranges) && ranges != [] && forall i :: 0 <= i < |ranges| ==> 2 * ranges[i].end < size
    ensures GapSorted(ranges[1..]) && forall i :: 0 <= i < |ranges[1..]| ==> 2 * ranges[1..][i].end < size
  {
  }

  lemma CutsNext(b: Buf, ranges: seq<CharRange>, next: Buf)
    requires ranges != [] && After(b, Cut(ranges[0])) == Some(next)
    ensures AfterAll(b, CutsOf(ranges)) == AfterAll(next, CutsOf(ranges[1..]))
  {
    assert CutsOf(ranges)[0] == Cut(ranges[0]) && CutsOf(ranges)[1..] == CutsOf(ranges[1..]);
  }

  lemma {:induction false} FirstPast(b: Buf, cells: Cells, ranges: seq<CharRange>)
    requires InCells(cells, ranges) && |ranges| > 1 && Ready(cells, b.deltas, 2 * ranges[0].begin + 1)
    requires PastCut(cells, ranges[0], 2 * ranges[1].begin + 1)
    ensures Ready(Removed(cells, ranges[0]), AfterCut(b, cells, ranges[0]).deltas, 2 * ranges[1].begin + 1)
  {
    FirstTwo(cells, ranges);
    NextLocated(b, cells, ranges[0], ranges[1]);
  }

  lemma {:induction false} FirstTwo(cells: Cells, ranges: seq<CharRange>)
    requires InCells(cells, ranges) && |ranges| > 1
    ensures ranges[0].begin < ranges[0].end < ranges[1].begin < ranges[1].end && 2 * ranges[1].end < |cells|
  {
  }

  lemma {:induction false} FirstNotPast(b: Buf, cells: Cells, ranges: seq<CharRange>)
    requires InCells(cells, ranges) && |ranges| > 1 && Ready(cells, b.deltas, 2 * ranges[0].begin + 1)
    requires !PastCut(cells, ranges[0], 2 * ranges[1].begin + 1)
    ensures InCells(Removed(cells, ranges[0]), ranges[1..])
    ensures !AllLocated(AfterCut(b, cells, ranges[0]), Removed(cells, ranges[0]), ranges[1..])
  {
    FirstTwo(cells, ranges);
    RestInCells(cells, ranges[0], ranges);
    NextLocated(b, cells, ranges[0], ranges[1]);
    FirstLocated(AfterCut(b, cells, ranges[0]), Removed(cells, ranges[0]), ranges[1], ranges[1..]);
  }

  lemma {:induction false} FirstLocated(b: Buf, cells: Cells, r: CharRange, ranges: seq<CharRange>)
    requires InCells(cells, ranges) && ranges != [] && ranges[0] == r
    ensures AllLocated(b, cells, ranges) ==> Located(b, cells, r)
  {
  }

  lemma {:induction false} LinesPastNext(cells: Cells, ranges: seq<CharRange>)
    requires InCells(cells, ranges) && |ranges| > 1
    ensures InCells(Removed(cells, ranges[0]), ranges[1..])
    ensures LinesPast(cells, ranges) <==>
            PastCut(cells, ranges[0], 2 * ranges[1].begin + 1) && LinesPast(Removed(cells, ranges[0]), ranges[1..])
  {
    RestInCells(cells, ranges[0], ranges);
  }

  /** The first removal, and what is left to say of the others. */
  lemma FirstRemoval(b: Buf, cells: Cells, ranges: seq<CharRange>) returns (next: Buf, now: Cells)
    requires b.text == Whole(cells) && InCells(cells, ranges) && ranges != []
    requires Ready(cells, b.deltas, 2 * ranges[0].begin + 1)
    ensures next == AfterCut(b, cells, ranges[0]) && now == Removed(cells, ranges[0])
    ensures |now| == |cells| && InCells(now, ranges[1..]) && next.text == Whole(now)
    ensures AllLocated(b, cells, ranges) <==> AllLocated(next, now, ranges[1..])
    ensures RemovedAll(cells, ranges) == RemovedAll(now, ranges[1..])
    ensures AfterAll(b, CutsOf(ranges)) == AfterAll(next, CutsOf(ranges[1..]))
  {
    next, now := AfterCut(b, cells, ranges[0]), Removed(cells, ranges[0]);
    CutStep(b, cells, ranges[0]);
    RestInCells(cells, ranges[0], ranges);
    CutsNext(b, ranges, next);
  }

  /** All ranges are looked up where they are exactly if every line that went was
      past in time; and the text is then what it should be. */
  lemma {:induction false} RemovalsRun(b: Buf, cells: Cells, ranges: seq<CharRange>)
    requires b.text == Whole(cells) && InCells(cells, ranges)
    requires ranges != [] ==> Ready(cells, b.deltas, 2 * ranges[0].begin + 1)
    ensures AllLocated(b, cells, ranges) <==> LinesPast(cells, ranges)
    ensures LinesPast(cells, ranges) ==>
              var end := AfterAll(b, CutsOf(ranges)); end.Some? && end.value.text == Whole(RemovedAll(cells, ranges))
    decreases ranges
  {
    if ranges != [] {
      var next, now := FirstRemoval(b, cells, ranges);
      if |ranges| == 1 {
        RemovalsRun(next, now, ranges[1..]);
      } else if PastCut(cells, ranges[0], 2 * ranges[1].begin + 1) {
        LinesPastNext(cells, ranges);
        FirstPast(b, cells, ranges);
        RemovalsRun(next, now, ranges[1..]);
      } else {
        LinesPastNext(cells, ranges);
        FirstNotPast(b, cells, ranges);
      }
    }
  }
}
