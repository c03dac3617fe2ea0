/** What lines that go with a removal take along. */
module RemovedLines {
  import opened Lines
  import opened Removals
  import opened RewriteCells
  import opened RewriterOffsets

  ghost predicate BeginInside(cells: Cells, ranges: seq<CharRange>) {
    forall i :: 0 <= i < |ranges| ==> 2 * ranges[i].begin + 1 <= |cells|
  }

  ghost predicate CutByOne(ranges: seq<CharRange>, k: nat) {
    exists i :: 0 <= i < |ranges| && Cuts(ranges[i], k)
  }

  /** The cells with the ranges emptied and no line removed. */
  ghost function EmptiedAll(cells: Cells, ranges: seq<CharRange>): (now: Cells)
    ensures |now| == |cells|
    decreases ranges
  {
    if ranges == [] then cells else EmptiedAll(Emptied(cells, ranges[0]), ranges[1..])
  }

  lemma CutByFirst(ranges: seq<CharRange>, k: nat)
    requires ranges != []
    ensures CutByOne(ranges, k) <==> Cuts(ranges[0], k) || CutByOne(ranges[1..], k)
  {
    if i :| 0 <= i < |ranges| && Cuts(ranges[i], k) {
      assert i > 0 ==> ranges[1..][i - 1] == ranges[i];
    }
    if i :| 0 <= i < |ranges[1..]| && Cuts(ranges[1..][i], k) {
      assert ranges[i + 1] == ranges[1..][i];
    }
  }

  lemma {:induction false} EmptiedAllAt(cells: Cells, ranges: seq<CharRange>, k: nat)
    requires k < |cells|
    ensures EmptiedAll(cells, ranges)[k] == if CutByOne(ranges, k) then "" else cells[k]
    decreases ranges
  {
    if ranges != [] {
      EmptiedAllAt(Emptied(cells, ranges[0]), ranges[1..], k);
      CutByFirst(ranges, k);
    }
  }

  /** No removal leaves its line blank. */
  ghost predicate NoneBlank(cells: Cells, ranges: seq<CharRange>)
    requires BeginInside(cells, ranges)
    decreases ranges
  {
    if ranges == [] then true
    else
      var now := Emptied(cells, ranges[0]);
      CutPointInside(now, ranges[0]);
      BlankLine(Whole(now), CutPoint(now, ranges[0])) == 0 && NoneBlank(now, ranges[1..])
  }

  /** When no line is left blank no line goes, and no removal can miss. */
  lemma {:induction false} NoneBlankNoneGoes(cells: Cells, ranges: seq<CharRange>)
    requires InCells(cells, ranges) && NoneBlank(cells, ranges)
    ensures RemovedAll(cells, ranges) == EmptiedAll(cells, ranges) && LinesPast(cells, ranges)
    decreases ranges
  {
    if ranges != [] {
      CutPointInside(Emptied(cells, ranges[0]), ranges[0]);
      RestInCells(cells, ranges[0], ranges);
      NoneBlankNoneGoes(Emptied(cells, ranges[0]), ranges[1..]);
    }
  }

  lemma RemovedNoLonger(a: Cells, b: Cells, r: CharRange)
    requires NoLonger(a, b) && 2 * r.begin + 1 <= |a|
    ensures NoLonger(Removed(a, r), Emptied(b, r))
  {
    RemovedIsLess(a, r);
    EmptiedNoLonger(a, b, r);
    var x, y, z := Removed(a, r), Emptied(a, r), Emptied(b, r);
    forall k | 0 <= k < |x| ensures |x[k]| <= |z[k]| {
      assert |x[k]| <= |y[k]| <= |z[k]|;
    }
  }

  lemma {:induction false} AllNoLonger(a: Cells, b: Cells, ranges: seq<CharRange>)
    requires NoLonger(a, b) && BeginInside(a, ranges)
    ensures NoLonger(RemovedAll(a, ranges), EmptiedAll(b, ranges))
    decreases ranges
  {
    if ranges != [] {
      RemovedNoLonger(a, b, ranges[0]);
      AllNoLonger(Removed(a, ranges[0]), Emptied(b, ranges[0]), ranges[1..]);
    }
  }

  /** The first cell behind a removed range that holds something starts where the
      range was. */
  lemma CellBehind(cells: Cells, r: CharRange) returns (k: nat)
    requires r.begin < r.end && 2 * r.end < |cells| && CharsFrom(cells, 2 * r.begin + 1)
    requires CutPoint(Emptied(cells, r), r) < |Whole(Emptied(cells, r))|
    ensures 2 * r.end <= k <= 2 * r.end + 1 && k < |cells|
    ensures Emptied(cells, r)[k] != "" && |Text(Emptied(cells, r), 0, k)| == CutPoint(Emptied(cells, r), r)
  {
    var x, e := Emptied(cells, r), 2 * r.end;
    assert e + 1 < |cells| ==> x[e + 1] == cells[e + 1] != "";
    k := FirstHeld(x, 2 * r.begin + 1, e);
  }

  lemma {:induction false} FirstHeld(x: Cells, b: nat, e: nat) returns (k: nat)
    requires b <= e < |x| && (forall j :: b <= j < e ==> x[j] == "") && (e + 1 < |x| ==> x[e + 1] != "")
    requires |Text(x, 0, b)| < |Whole(x)|
    ensures e <= k <= e + 1 && k < |x| && x[k] != "" && |Text(x, 0, k)| == |Text(x, 0, b)|
  {
    EmptyBetween(x, b, e);
    LengthNext(x, e);
    k := if x[e] != "" then e else e + 1;
  }

  lemma EmptyBetween(cells: Cells, b: nat, e: nat)
    requires b <= e <= |cells| && forall k :: b <= k < e ==> cells[k] == ""
    ensures |Text(cells, 0, e)| == |Text(cells, 0, b)|
  {
    TextSplits(cells, 0, b, e);
    TextEmpty(cells, b, e);
  }

  /** A line that goes takes something along that no removal takes. */
  lemma LineTakesCell(cells: Cells, r: CharRange) returns (k: nat)
    requires r.begin < r.end && 2 * r.end < |cells| && CharsFrom(cells, 2 * r.begin + 1)
    requires CutPoint(Emptied(cells, r), r) <= |Whole(Emptied(cells, r))|
    requires BlankLine(Whole(Emptied(cells, r)), CutPoint(Emptied(cells, r), r)) > 0
    ensures 2 * r.end <= k <= 2 * r.end + 1 && k < |cells|
    ensures |Removed(cells, r)[k]| < |Emptied(cells, r)[k]|
  {
    var x, at := Emptied(cells, r), CutPoint(Emptied(cells, r), r);
    k := CellBehind(cells, r);
    TakenFrom(x[k], at, LineStart(Whole(x), at), BlankLine(Whole(x), at));
  }

  lemma TakenFrom(t: string, offset: nat, from: nat, n: nat)
    requires t != "" && from <= offset < from + n
    ensures |Outside(t, offset, from, n)| < |t|
  {
  }

  lemma LineShortens(cells: Cells, ranges: seq<CharRange>)
    requires InCells(cells, ranges) && ranges != [] && CharsFrom(cells, 2 * ranges[0].begin + 1)
    requires CutPoint(Emptied(cells, ranges[0]), ranges[0]) <= |Whole(Emptied(cells, ranges[0]))|
    requires BlankLine(Whole(Emptied(cells, ranges[0])), CutPoint(Emptied(cells, ranges[0]), ranges[0])) > 0
    ensures |Whole(RemovedAll(cells, ranges))| < |Whole(EmptiedAll(cells, ranges))|
  {
    var k := LineTakesCell(cells, ranges[0]);
    RestInCells(cells, ranges[0], ranges);
    NotCutLater(ranges, k);
    RemovedIsLess(cells, ranges[0]);
    ShorterAfter(Emptied(cells, ranges[0]), Removed(cells, ranges[0]), ranges[1..], k);
  }

  lemma ShorterAfter(x: Cells, y: Cells, ranges: seq<CharRange>, k: nat)
    requires NoLonger(y, x) && BeginInside(y, ranges) && k < |x| && |y[k]| < |x[k]| && !CutByOne(ranges, k)
    ensures |Whole(RemovedAll(y, ranges))| < |Whole(EmptiedAll(x, ranges))|
  {
    var a, b := RemovedAll(y, ranges), EmptiedAll(x, ranges);
    AllNoLonger(y, x, ranges);
    AllNoLonger(y, y, ranges);
    EmptiedAllAt(x, ranges, k);
    EmptiedAllAt(y, ranges, k);
    assert |a[k]| <= |EmptiedAll(y, ranges)[k]| < |b[k]|;
    LongerText(a, b, |x|);
  }

  lemma {:induction false} BlankLinesShorten(cells: Cells, ranges: seq<CharRange>)
    requires InCells(cells, ranges) && !NoneBlank(cells, ranges)
    requires CharsFrom(cells, 2 * ranges[0].begin + 1)
    ensures |Whole(RemovedAll(cells, ranges))| < |Whole(EmptiedAll(cells, ranges))|
    decreases ranges
  {
    var r, rest, x := ranges[0], ranges[1..], Emptied(cells, ranges[0]);
    CutPointInside(x, r);
    if BlankLine(Whole(x), CutPoint(x, r)) > 0 {
      LineShortens(cells, ranges);
    } else {
      assert Removed(cells, r) == x;
      RestInCells(cells, r, ranges);
      assert !NoneBlank(x, rest);
      CharsFromRest(cells, ranges);
      BlankLinesShorten(x, rest);
    }
  }

  lemma CharsFromRest(cells: Cells, ranges: seq<CharRange>)
    requires InCells(cells, ranges) && |ranges| > 1 && CharsFrom(cells, 2 * ranges[0].begin + 1)
    ensures CharsFrom(Emptied(cells, ranges[0]), 2 * ranges[1].begin + 1)
  {
    var x := Emptied(cells, ranges[0]);
    forall k | 2 * ranges[1].begin + 1 <= k < |x| && k % 2 == 1 ensures x[k] != "" {
      assert x[k] == cells[k];
    }
  }

  lemma NotCutLater(ranges: seq<CharRange>, k: nat)
    requires GapSorted(ranges) && ranges != [] && 2 * ranges[0].end <= k <= 2 * ranges[0].end + 1
    ensures !CutByOne(ranges[1..], k)
  {
    forall i | 0 <= i < |ranges[1..]| ensures !Cuts(ranges[1..][i], k) {
      assert ranges[1..][i] == ranges[i + 1];
    }
  }
}
