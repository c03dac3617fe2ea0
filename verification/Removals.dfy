/** The list of character ranges to remove, and what it means as a set of
    positions (TransformActions.cpp, struct CharRange). */
module Removals {

  /** A half-open range of characters. */
  datatype CharRange = CharRange(begin: nat, end: nat) {
    predicate WellFormed() { begin <= end }

    predicate Covers(p: nat) { begin <= p < end }

    /** A location with characters of the range on both sides of it. */
    predicate StrictlyContains(p: nat) { begin < p < end }

    function Positions(): set<nat> { set p: nat | begin <= p < end && Covers(p) }

    function CompareWith(rhs: CharRange): RangeComparison {
      if end < rhs.begin then RangeBefore
      else if rhs.end < begin then RangeAfter
      else if !(begin < rhs.begin) && !(rhs.end < end) then RangeContained
      else if begin < rhs.begin && rhs.end < end then RangeContains
      else if begin < rhs.begin then RangeExtendsBegin
      else RangeExtendsEnd
    }
  }

  datatype RangeComparison =
    | RangeBefore
    | RangeAfter
    | RangeContains
    | RangeContained
    | RangeExtendsBegin
    | RangeExtendsEnd

  /** Sorted, nonempty ranges with at least one kept character between
      neighbours. */
  ghost predicate GapSorted(ranges: seq<CharRange>) {
    && (forall i :: 0 <= i < |ranges| ==> ranges[i].begin < ranges[i].end)
    && (forall i, j :: 0 <= i < j < |ranges| ==> ranges[i].end < ranges[j].begin)
  }

  ghost predicate Covered(ranges: seq<CharRange>, p: nat) {
    exists i :: 0 <= i < |ranges| && ranges[i].Covers(p)
  }

  /** The positions a list of ranges covers, in whatever order they come. */
  function CoveredSet(ranges: seq<CharRange>): set<nat> {
    if ranges == [] then {} else ranges[0].Positions() + CoveredSet(ranges[1..])
  }

  lemma {:induction false} CoveredSetMembers(ranges: seq<CharRange>, p: nat)
    ensures p in CoveredSet(ranges) <==> Covered(ranges, p)
  {
    if ranges != [] {
      CoveredSetMembers(ranges[1..], p);
      if Covered(ranges[1..], p) {
        var i :| 0 <= i < |ranges[1..]| && ranges[1..][i].Covers(p);
        assert ranges[i + 1].Covers(p);
      }
    }
  }

  /** The first range starts at the least covered position and ends at the
      first uncovered position after it. */
  lemma FirstRangeIsMaximal(ranges: seq<CharRange>)
    requires GapSorted(ranges) && ranges != []
    ensures Covered(ranges, ranges[0].begin)
    ensures forall p: nat :: p < ranges[0].begin ==> !Covered(ranges, p)
    ensures forall p: nat :: ranges[0].Covers(p) ==> Covered(ranges, p)
    ensures !Covered(ranges, ranges[0].end)
  {
    assert ranges[0].Covers(ranges[0].begin);
  }

  lemma TailCovers(ranges: seq<CharRange>, p: nat)
    requires GapSorted(ranges) && ranges != []
    ensures Covered(ranges[1..], p) <==> Covered(ranges, p) && p > ranges[0].end
  {
    if Covered(ranges[1..], p) {
      var i :| 0 <= i < |ranges[1..]| && ranges[1..][i].Covers(p);
      assert ranges[i + 1].Covers(p);
    }
    if Covered(ranges, p) && p > ranges[0].end {
      var i :| 0 <= i < |ranges| && ranges[i].Covers(p);
      assert ranges[1..][i - 1].Covers(p);
    }
  }

  ghost predicate CoverSame(a: seq<CharRange>, b: seq<CharRange>) {
    forall p: nat :: Covered(a, p) <==> Covered(b, p)
  }

  lemma SameFirstRange(a: seq<CharRange>, b: seq<CharRange>)
    requires GapSorted(a) && a != [] && GapSorted(b) && b != [] && CoverSame(a, b)
    ensures a[0] == b[0]
  {
    var x, y := a[0], b[0];
    FirstRangeIsMaximal(a);
    FirstRangeIsMaximal(b);
    assert Covered(b, x.begin) && Covered(a, y.begin);
    assert !Covered(b, x.end) && !Covered(a, y.end);
    assert !y.Covers(x.end) && !x.Covers(y.end);
  }

  lemma SameTails(a: seq<CharRange>, b: seq<CharRange>)
    requires GapSorted(a) && a != [] && GapSorted(b) && b != [] && CoverSame(a, b) && a[0] == b[0]
    ensures CoverSame(a[1..], b[1..])
  {
    forall p: nat ensures Covered(a[1..], p) <==> Covered(b[1..], p) {
      TailCovers(a, p);
      TailCovers(b, p);
      assert Covered(a, p) <==> Covered(b, p);
    }
  }

  /** The list is the canonical form of the set it covers: the maximal runs of
      covered positions, in order. */
  lemma {:induction false} Canonical(a: seq<CharRange>, b: seq<CharRange>)
    requires GapSorted(a) && GapSorted(b) && CoverSame(a, b)
    ensures a == b
  {
    if a == [] {
      if b != [] { FirstRangeIsMaximal(b); }
    } else if b == [] {
      FirstRangeIsMaximal(a);
    } else {
      SameFirstRange(a, b);
      SameTails(a, b);
      Canonical(a[1..], b[1..]);
      assert a == [a[0]] + a[1..] && b == [b[0]] + b[1..];
    }
  }

  lemma CanonicalSet(a: seq<CharRange>, b: seq<CharRange>)
    requires GapSorted(a) && GapSorted(b)
    requires CoveredSet(a) == CoveredSet(b)
    ensures a == b
  {
    forall p: nat ensures Covered(a, p) <==> Covered(b, p) {
      CoveredSetMembers(a, p);
      CoveredSetMembers(b, p);
    }
    Canonical(a, b);
  }

  /** Ranges that are rearranged cover the same positions. */
  lemma RearrangedCoverSame(a: seq<CharRange>, b: seq<CharRange>)
    requires multiset(a) == multiset(b)
    ensures CoveredSet(a) == CoveredSet(b)
  {
    forall p: nat ensures p in CoveredSet(a) <==> p in CoveredSet(b) {
      CoveredSetMembers(a, p);
      CoveredSetMembers(b, p);
      if Covered(a, p) { SameElementsCover(a, b, p); }
      if Covered(b, p) { SameElementsCover(b, a, p); }
    }
  }

  lemma SameElementsCover(a: seq<CharRange>, b: seq<CharRange>, p: nat)
    requires multiset(a) == multiset(b)
    requires Covered(a, p)
    ensures Covered(b, p)
  {
    var i :| 0 <= i < |a| && a[i].Covers(p);
    assert a[i] in multiset(b);
    var j :| 0 <= j < |b| && b[j] == a[i];
  }

  // ----- Steps of the merging loop -----

  /** Where the merging loop stands: the ranges `now` together with the range
      `pending` cover what the ranges `was` and the range `added` cover, and
      `pending` ends before the ranges from i on. */
  ghost predicate Merging(was: seq<CharRange>, added: CharRange, now: seq<CharRange>, pending: CharRange, i: nat) {
    && i <= |now| && GapSorted(now) && pending.begin < pending.end
    && (forall k :: i <= k < |now| ==> pending.end < now[k].begin)
    && (forall p: nat :: Covered(now, p) || pending.Covers(p) <==> Covered(was, p) || added.Covers(p))
  }

  /** What the loop must end with. */
  ghost predicate Merged(was: seq<CharRange>, added: CharRange, now: seq<CharRange>) {
    && GapSorted(now)
    && (forall p: nat :: Covered(now, p) <==> Covered(was, p) || added.Covers(p))
  }

  lemma MergedSet(was: seq<CharRange>, added: CharRange, now: seq<CharRange>)
    requires Merged(was, added, now)
    ensures CoveredSet(now) == CoveredSet(was) + added.Positions()
  {
    forall p: nat ensures p in CoveredSet(now) <==> p in CoveredSet(was) + added.Positions() {
      CoveredSetMembers(now, p);
      CoveredSetMembers(was, p);
    }
  }

  /** All the ranges before i end before `pending` begins: it goes in between. */
  lemma MergeInsert(was: seq<CharRange>, added: CharRange, now: seq<CharRange>, pending: CharRange, i: nat)
    requires Merging(was, added, now, pending, i)
    requires i > 0 ==> now[i - 1].end < pending.begin
    ensures Merged(was, added, now[..i] + [pending] + now[i..])
  {
    var after := now[..i] + [pending] + now[i..];
    forall p: nat ensures Covered(after, p) <==> Covered(now, p) || pending.Covers(p) {
      InsertedCovers(now, pending, i, p);
    }
  }

  lemma InsertedCovers(now: seq<CharRange>, r: CharRange, i: nat, p: nat)
    requires i <= |now|
    ensures Covered(now[..i] + [r] + now[i..], p) <==> Covered(now, p) || r.Covers(p)
  {
    var after := now[..i] + [r] + now[i..];
    assert after[i] == r;
    if Covered(now, p) {
      var k :| 0 <= k < |now| && now[k].Covers(p);
      assert after[if k < i then k else k + 1].Covers(p);
    }
    if Covered(after, p) {
      var k :| 0 <= k < |after| && after[k].Covers(p);
      assert k == i || now[if k < i then k else k - 1].Covers(p);
    }
  }

  lemma MergeContained(was: seq<CharRange>, added: CharRange, now: seq<CharRange>, pending: CharRange, i: nat)
    requires Merging(was, added, now, pending, i) && i > 0
    requires pending.CompareWith(now[i - 1]).RangeContained?
    ensures Merged(was, added, now)
  {
    forall p: nat | pending.Covers(p) ensures Covered(now, p) {
      assert now[i - 1].Covers(p);
    }
  }

  lemma GapSortedWithout(now: seq<CharRange>, j: nat)
    requires GapSorted(now) && j < |now|
    ensures var after := now[..j] + now[j + 1..];
            GapSorted(after) && forall k :: j <= k < |after| ==> after[k] == now[k + 1] && now[j].end < after[k].begin
  {
    var after := now[..j] + now[j + 1..];
    assert forall k :: 0 <= k < |after| ==> after[k] == now[if k < j then k else k + 1];
  }

  lemma WithoutCovers(now: seq<CharRange>, j: nat, p: nat)
    requires j < |now|
    ensures Covered(now[..j] + now[j + 1..], p) || now[j].Covers(p) <==> Covered(now, p)
  {
    var after := now[..j] + now[j + 1..];
    if Covered(now, p) && !now[j].Covers(p) {
      var k :| 0 <= k < |now| && now[k].Covers(p);
      assert after[if k < j then k else k - 1].Covers(p);
    }
    if Covered(after, p) {
      var k :| 0 <= k < |after| && after[k].Covers(p);
      assert now[if k < j then k else k + 1].Covers(p);
    }
  }

  /** `pending` reaches over the begin of the range before i and swallows it. */
  lemma MergeAbsorb(was: seq<CharRange>, added: CharRange, now: seq<CharRange>, pending: CharRange, i: nat)
    requires Merging(was, added, now, pending, i) && i > 0
    requires pending.CompareWith(now[i - 1]) in {RangeContains, RangeExtendsBegin}
    ensures var end := if now[i - 1].end < pending.end then pending.end else now[i - 1].end;
            Merging(was, added, now[..i - 1] + now[i..], CharRange(pending.begin, end), i - 1)
  {
    var j, last := i - 1, now[i - 1];
    var merged := CharRange(pending.begin, if last.end < pending.end then pending.end else last.end);
    var after := now[..j] + now[j + 1..];
    GapSortedWithout(now, j);
    forall p: nat ensures Covered(after, p) || merged.Covers(p) <==> Covered(now, p) || pending.Covers(p) {
      WithoutCovers(now, j, p);
      assert merged.Covers(p) <==> pending.Covers(p) || last.Covers(p);
    }
  }

  /** `pending` reaches over the end of the range before i, which grows. */
  lemma MergeExtend(was: seq<CharRange>, added: CharRange, now: seq<CharRange>, pending: CharRange, i: nat)
    requires Merging(was, added, now, pending, i) && i > 0
    requires pending.CompareWith(now[i - 1]).RangeExtendsEnd?
    ensures Merged(was, added, now[i - 1 := now[i - 1].(end := pending.end)])
  {
    var last := now[i - 1];
    var grown := last.(end := pending.end);
    var after := now[i - 1 := grown];
    assert forall p: nat :: grown.Covers(p) <==> pending.Covers(p) || last.Covers(p);
    forall p: nat ensures Covered(after, p) <==> Covered(now, p) || pending.Covers(p) {
      if Covered(now, p) {
        var k :| 0 <= k < |now| && now[k].Covers(p);
        assert after[k].Covers(p);
      }
      assert after[i - 1] == grown;
      if Covered(after, p) {
        var k :| 0 <= k < |after| && after[k].Covers(p);
        assert k == i - 1 || now[k].Covers(p);
      }
    }
  }

  lemma NeighboursShare(ranges: seq<CharRange>, p: nat, i: nat, j: nat)
    requires GapSorted(ranges) && i < |ranges| && j < |ranges| && p > 0
    requires ranges[i].Covers(p - 1) && ranges[j].Covers(p)
    ensures i == j && ranges[i].StrictlyContains(p)
  {
  }

  lemma CoveredByOne(ranges: seq<CharRange>, p: nat)
    requires GapSorted(ranges) && p > 0
    ensures Covered(ranges, p - 1) && Covered(ranges, p) <==>
            exists i :: 0 <= i < |ranges| && ranges[i].StrictlyContains(p)
  {
    if Covered(ranges, p - 1) && Covered(ranges, p) {
      var i :| 0 <= i < |ranges| && ranges[i].Covers(p - 1);
      var j :| 0 <= j < |ranges| && ranges[j].Covers(p);
      NeighboursShare(ranges, p, i, j);
    }
    if i :| 0 <= i < |ranges| && ranges[i].StrictlyContains(p) {
      assert ranges[i].Covers(p - 1) && ranges[i].Covers(p);
    }
  }

  /** Both neighbours of a location are covered exactly when one range has the
      location strictly inside: ranges that touch have been merged. */
  lemma BuriedInOneRange(ranges: seq<CharRange>, p: nat)
    requires GapSorted(ranges) && p > 0
    ensures p - 1 in CoveredSet(ranges) && p in CoveredSet(ranges) <==>
            exists i :: 0 <= i < |ranges| && ranges[i].StrictlyContains(p)
  {
    CoveredSetMembers(ranges, p - 1);
    CoveredSetMembers(ranges, p);
    CoveredByOne(ranges, p);
  }
}
