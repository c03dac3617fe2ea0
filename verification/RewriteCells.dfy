/** A file cut into cells: what every call on a rewriter means, without offsets
    into the edited text. */
module RewriteCells {
  import opened Lines
  import opened Removals
  import opened Sequences

  // Every offset p of the original file has two cells: 2 * p holds the texts
  // inserted at p, 2 * p + 1 the character at p.

  type Cells = seq<string>

  /** The text of the cells from i up to j. */
  ghost function Text(cells: Cells, i: nat, j: nat): string
    requires i <= j <= |cells|
    decreases j
  {
    if i == j then "" else Text(cells, i, j - 1) + cells[j - 1]
  }

  ghost function Whole(cells: Cells): string { Text(cells, 0, |cells|) }

  lemma {:induction false} TextSplits(cells: Cells, i: nat, m: nat, j: nat)
    requires i <= m <= j <= |cells|
    ensures Text(cells, i, j) == Text(cells, i, m) + Text(cells, m, j)
    decreases j
  {
    if m < j { TextSplits(cells, i, m, j - 1); }
  }

  lemma {:induction false} TextSame(a: Cells, b: Cells, i: nat, j: nat)
    requires i <= j <= |a| && j <= |b| && forall k :: i <= k < j ==> a[k] == b[k]
    ensures Text(a, i, j) == Text(b, i, j)
    decreases j
  {
    if i < j { TextSame(a, b, i, j - 1); }
  }

  lemma {:induction false} TextEmpty(cells: Cells, i: nat, j: nat)
    requires i <= j <= |cells| && forall k :: i <= k < j ==> cells[k] == ""
    ensures Text(cells, i, j) == ""
    decreases j
  {
    if i < j { TextEmpty(cells, i, j - 1); }
  }

  lemma TextFirst(cells: Cells, i: nat, j: nat)
    requires i < j <= |cells|
    ensures Text(cells, i, j) == cells[i] + Text(cells, i + 1, j)
  {
    assert Text(cells, i, i + 1) == "" + cells[i];
    TextSplits(cells, i, i + 1, j);
  }

  lemma LengthNext(cells: Cells, h: nat)
    requires h < |cells|
    ensures |Text(cells, 0, h + 1)| == |Text(cells, 0, h)| + |cells[h]|
  {
  }

  /** The text before a border is no longer than the text before a later one. */
  lemma TextGrows(cells: Cells, i: nat, j: nat)
    requires i <= j <= |cells|
    ensures |Text(cells, 0, i)| <= |Text(cells, 0, j)|
  {
    TextSplits(cells, 0, i, j);
  }

  /** It is shorter if there is some text between the two. */
  lemma TextPasses(cells: Cells, i: nat, k: nat, j: nat)
    requires i <= k < j <= |cells| && cells[k] != ""
    ensures |Text(cells, 0, i)| < |Text(cells, 0, j)|
  {
    TextGrows(cells, i, k);
    LengthNext(cells, k);
    TextGrows(cells, k + 1, j);
  }

  lemma SplitAt(whole: string, a: string, b: string)
    requires whole == a + b
    ensures whole[..|a|] == a && whole[|a|..] == b
  {
  }

  /** A text is cut at two borders. */
  lemma TextInThree(cells: Cells, b: nat, e: nat)
    requires b <= e <= |cells|
    ensures var whole, start, size := Whole(cells), |Text(cells, 0, b)|, |Text(cells, b, e)|;
            && |Text(cells, 0, e)| == start + size <= |whole|
            && whole[..start] == Text(cells, 0, b) && whole[start + size..] == Text(cells, e, |cells|)
  {
    var whole := Whole(cells);
    TextSplits(cells, 0, b, e);
    TextSplits(cells, 0, e, |cells|);
    SplitAt(whole, Text(cells, 0, e), Text(cells, e, |cells|));
    SplitAt(Text(cells, 0, e), Text(cells, 0, b), Text(cells, b, e));
  }

  // ----- Insertions -----

  /** Text goes behind what is in the cell, or in front of it. */
  function PutAt(cells: Cells, place: nat, t: string, after: bool): Cells
    requires place < |cells|
  {
    cells[place := if after then cells[place] + t else t + cells[place]]
  }

  lemma PutText(cells: Cells, place: nat, t: string, after: bool, h: nat)
    requires place < |cells| && h <= |cells|
    ensures var cut := if after then place + 1 else place;
            Text(PutAt(cells, place, t, after), 0, h) ==
            if h <= place then Text(cells, 0, h) else Text(cells, 0, cut) + t + Text(cells, cut, h)
  {
    var now := PutAt(cells, place, t, after);
    if h <= place {
      TextSame(cells, now, 0, h);
    } else {
      TextSame(cells, now, 0, place);
      TextSame(cells, now, place + 1, h);
      TextSplits(now, 0, place + 1, h);
      if after {
        Regroup(Text(cells, 0, place), cells[place], t);
      } else {
        TextFirst(cells, place, h);
        Regroup(Text(cells, 0, place), t, cells[place]);
        Regroup(Text(cells, 0, place) + t, cells[place], Text(cells, place + 1, h));
      }
    }
  }

  // ----- Removals -----

  predicate Cuts(r: CharRange, k: nat) { 2 * r.begin + 1 <= k < 2 * r.end }

  function Emptied(cells: Cells, r: CharRange): (now: Cells)
    ensures |now| == |cells| && forall k :: 0 <= k < |cells| ==> now[k] == if Cuts(r, k) then "" else cells[k]
  {
    seq(|cells|, k requires 0 <= k < |cells| => if Cuts(r, k) then "" else cells[k])
  }

  /** Emptying the cells from b up to e takes exactly their text out. */
  lemma EmptiedText(cells: Cells, r: CharRange, h: nat)
    requires r.begin < r.end && 2 * r.end <= |cells| && h <= |cells| && (h <= 2 * r.begin + 1 || 2 * r.end <= h)
    ensures var b, e := 2 * r.begin + 1, 2 * r.end;
            && Text(Emptied(cells, r), 0, h) == (if h <= b then Text(cells, 0, h) else Text(cells, 0, b) + Text(cells, e, h))
            && |Text(Emptied(cells, r), 0, h)| == |Text(cells, 0, h)| - if h <= b then 0 else |Text(cells, b, e)|
  {
    var now, b, e := Emptied(cells, r), 2 * r.begin + 1, 2 * r.end;
    if h <= b {
      TextSame(cells, now, 0, h);
    } else {
      TextSame(cells, now, 0, b);
      TextEmpty(now, b, e);
      TextSame(cells, now, e, h);
      TextThirds(now, b, e, h);
      assert Text(cells, 0, b) + "" == Text(cells, 0, b);
      TextThirds(cells, b, e, h);
    }
  }

  lemma TextThirds(cells: Cells, b: nat, e: nat, h: nat)
    requires b <= e <= h <= |cells|
    ensures Text(cells, 0, h) == Text(cells, 0, b) + Text(cells, b, e) + Text(cells, e, h)
  {
    TextSplits(cells, 0, b, e);
    TextSplits(cells, 0, e, h);
  }

  // ----- Lines that go -----

  function Clamp(x: int, size: nat): (n: nat)
    ensures n <= size
  {
    if x < 0 then 0 else if x > size then size else x
  }

  /** What is left of a text at an offset when the n characters from `from` on
      are taken out. */
  function Outside(t: string, offset: nat, from: nat, n: nat): string {
    t[..Clamp(from - offset, |t|)] + t[Clamp(from + n - offset, |t|)..]
  }

  lemma OutsideBehind(t: string, offset: nat, from: nat, n: nat)
    requires from + n <= offset
    ensures Outside(t, offset, from, n) == t
  {
  }

  lemma OutsideConcat(a: string, b: string, from: nat, n: nat)
    ensures Outside(a + b, 0, from, n) == Outside(a, 0, from, n) + Outside(b, |a|, from, n)
  {
  }

  ghost function Lined(cells: Cells, from: nat, n: nat): (now: Cells)
    ensures |now| == |cells|
    ensures forall k :: 0 <= k < |cells| ==> now[k] == Outside(cells[k], |Text(cells, 0, k)|, from, n)
  {
    seq(|cells|, k requires 0 <= k < |cells| => Outside(cells[k], |Text(cells, 0, k)|, from, n))
  }

  lemma {:induction false} LinedText(cells: Cells, from: nat, n: nat, h: nat)
    requires h <= |cells|
    ensures Text(Lined(cells, from, n), 0, h) == Outside(Text(cells, 0, h), 0, from, n)
  {
    if h > 0 {
      LinedText(cells, from, n, h - 1);
      OutsideConcat(Text(cells, 0, h - 1), cells[h - 1], from, n);
    }
  }

  /** The line at an offset of the text goes if it is blank. */
  ghost function WithoutBlank(cells: Cells, p: nat): (now: Cells)
    requires p <= |Whole(cells)|
    ensures |now| == |cells|
  {
    var n := BlankLine(Whole(cells), p);
    if n == 0 then cells else Lined(cells, LineStart(Whole(cells), p), n)
  }

  /** Where the text in front of a removed range ends. */
  ghost function CutPoint(cells: Cells, r: CharRange): nat
    requires 2 * r.begin + 1 <= |cells|
  {
    |Text(cells, 0, 2 * r.begin + 1)|
  }

  lemma CutPointInside(cells: Cells, r: CharRange)
    requires 2 * r.begin + 1 <= |cells|
    ensures CutPoint(cells, r) <= |Whole(cells)|
  {
    TextGrows(cells, 0, 2 * r.begin + 1);
    TextGrows(cells, 2 * r.begin + 1, |cells|);
  }

  /** A removal: the range, and then the line it was in if that is blank now. */
  ghost function Removed(cells: Cells, r: CharRange): (now: Cells)
    requires 2 * r.begin + 1 <= |cells|
    ensures |now| == |cells|
  {
    CutPointInside(Emptied(cells, r), r);
    WithoutBlank(Emptied(cells, r), CutPoint(Emptied(cells, r), r))
  }

  // ----- Comparing cells -----

  /** Cells that are no longer than others, one by one. */
  ghost predicate NoLonger(a: Cells, b: Cells) {
    |a| == |b| && forall k :: 0 <= k < |a| ==> |a[k]| <= |b[k]|
  }

  lemma {:induction false} LongerText(a: Cells, b: Cells, j: nat)
    requires NoLonger(a, b) && j <= |a|
    ensures |Text(a, 0, j)| <= |Text(b, 0, j)|
    ensures forall k :: 0 <= k < j && |a[k]| < |b[k]| ==> |Text(a, 0, j)| < |Text(b, 0, j)|
  {
    if j > 0 { LongerText(a, b, j - 1); }
  }

  /** Cells with less in them have the same text only if they are the same. */
  lemma LessText(a: Cells, b: Cells)
    requires NoLonger(a, b) && forall k :: 0 <= k < |a| ==> a[k] == b[k] || |a[k]| < |b[k]|
    ensures Whole(a) == Whole(b) <==> a == b
  {
    LongerText(a, b, |a|);
    if a != b {
      var k :| 0 <= k < |a| && a[k] != b[k];
      assert |a[k]| < |b[k]|;
    }
  }

  lemma OutsideNoLonger(t: string, offset: nat, from: nat, n: nat)
    ensures |Outside(t, offset, from, n)| <= |t|
  {
    var a, b := Clamp(from - offset, |t|), Clamp(from + n - offset, |t|);
    assert a <= b;
  }

  lemma LinedNoLonger(cells: Cells, from: nat, n: nat)
    ensures NoLonger(Lined(cells, from, n), cells)
  {
    forall k | 0 <= k < |cells| ensures |Lined(cells, from, n)[k]| <= |cells[k]| {
      OutsideNoLonger(cells[k], |Text(cells, 0, k)|, from, n);
    }
  }

  lemma RemovedIsLess(cells: Cells, r: CharRange)
    requires 2 * r.begin + 1 <= |cells|
    ensures NoLonger(Removed(cells, r), Emptied(cells, r))
  {
    var x := Emptied(cells, r);
    CutPointInside(x, r);
    LinedNoLonger(x, LineStart(Whole(x), CutPoint(x, r)), BlankLine(Whole(x), CutPoint(x, r)));
  }

  lemma EmptiedNoLonger(a: Cells, b: Cells, r: CharRange)
    requires NoLonger(a, b)
    ensures NoLonger(Emptied(a, r), Emptied(b, r))
  {
  }
}
