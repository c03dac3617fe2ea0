/** The diagnostics captured for a migration (ARCMT.cpp, Internals.h). */
module Diagnostics {
  import opened SourceModel

  datatype Level = Ignored | Note | Remark | Warning | Error | Fatal {
    function Rank(): nat {
      match this
      case Ignored => 0 case Note => 1 case Remark => 2
      case Warning => 3 case Error => 4 case Fatal => 5
    }
  }

  datatype Diagnostic = Diagnostic(id: nat, level: Level, loc: nat)

  /** The diagnostics a request speaks of; no ids means any id. */
  datatype Selection = Selection(ids: seq<nat>, range: SourceRange) {
    predicate Matches(d: Diagnostic)
      requires !range.IsInvalid()
    {
      && (ids == [] || d.id in ids)
      && !(d.loc < range.begin.Expansion())
      && (d.loc == range.end.Expansion() || d.loc < range.end.Expansion())
    }

    predicate Selects(d: Diagnostic) { !range.IsInvalid() && Matches(d) }
  }

  /** Selected are the diagnostics with one of the ids, or with any if none is given,
      that lie in a valid range, its two ends included. */
  lemma SelectedExactly(sel: Selection, d: Diagnostic)
    ensures sel.Selects(d) <==>
            && !sel.range.begin.Invalid? && !sel.range.end.Invalid?
            && sel.range.begin.Expansion() <= d.loc <= sel.range.end.Expansion()
            && (|sel.ids| > 0 ==> exists k :: 0 <= k < |sel.ids| && sel.ids[k] == d.id)
  {
  }

  ghost predicate Has(list: seq<Diagnostic>, sel: Selection) {
    exists d :: d in list && sel.Selects(d)
  }

  /** The i-th diagnostic is a note, and the closest diagnostic before it that
      is not a note is selected. */
  ghost predicate FollowsSelected(list: seq<Diagnostic>, sel: Selection, i: nat)
    requires i < |list|
  {
    list[i].level.Note? &&
    exists k :: 0 <= k < i && sel.Selects(list[k]) && !list[k].level.Note? && NotesBetween(list, k, i)
  }

  ghost predicate NotesBetween(list: seq<Diagnostic>, k: int, i: nat)
    requires 0 <= k <= i < |list|
  {
    forall j :: k < j < i ==> list[j].level.Note?
  }

  ghost predicate Kept(list: seq<Diagnostic>, sel: Selection, i: nat)
    requires i < |list|
  {
    !sel.Selects(list[i]) && !FollowsSelected(list, sel, i)
  }

  /** The diagnostics among the first n that a request leaves, in order. */
  ghost function Cleared(list: seq<Diagnostic>, sel: Selection, n: nat): seq<Diagnostic>
    requires n <= |list|
  {
    if n == 0 then []
    else Cleared(list, sel, n - 1) + (if Kept(list, sel, n - 1) then [list[n - 1]] else [])
  }

  ghost function ClearedAll(list: seq<Diagnostic>, sel: Selection): seq<Diagnostic> {
    Cleared(list, sel, |list|)
  }

  /** One diagnostic after the other, what is left gets those that are neither selected
      nor notes with a selected one as the last before them that is no note. */
  lemma ClearedNext(list: seq<Diagnostic>, sel: Selection, n: nat)
    requires n < |list|
    ensures Cleared(list, sel, 0) == []
    ensures var stays := !sel.Selects(list[n]) &&
              (list[n].level.Note? ==>
                 forall k :: 0 <= k < n && !list[k].level.Note? && (forall j :: k < j < n ==> list[j].level.Note?) ==>
                   !sel.Selects(list[k]));
            Cleared(list, sel, n + 1) == Cleared(list, sel, n) + if stays then [list[n]] else []
  {
    if list[n].level.Note? {
      forall k | 0 <= k < n ensures NotesBetween(list, k, n) <==> forall j :: k < j < n ==> list[j].level.Note? {
      }
    }
  }

  lemma {:induction false} ClearedMembers(list: seq<Diagnostic>, sel: Selection, n: nat, d: Diagnostic)
    requires n <= |list|
    ensures d in Cleared(list, sel, n) <==> exists i :: 0 <= i < n && list[i] == d && Kept(list, sel, i)
  {
    if n > 0 { ClearedMembers(list, sel, n - 1, d); }
  }

  /** Clearing leaves nothing selected behind and brings nothing new. */
  lemma ClearingIsComplete(list: seq<Diagnostic>, sel: Selection)
    ensures !Has(ClearedAll(list, sel), sel)
    ensures forall d :: d in ClearedAll(list, sel) ==> d in list
  {
    forall d | d in ClearedAll(list, sel) ensures d in list && !sel.Selects(d) {
      ClearedMembers(list, sel, |list|, d);
    }
  }

  /** Clearing changes something exactly when something is selected. */
  lemma {:induction false} ClearingNothing(list: seq<Diagnostic>, sel: Selection)
    ensures ClearedAll(list, sel) == list <==> !Has(list, sel)
  {
    if Has(list, sel) {
      ClearingIsComplete(list, sel);
    } else {
      NothingToClear(list, sel, |list|);
      assert list[..|list|] == list;
    }
  }

  lemma {:induction false} NothingToClear(list: seq<Diagnostic>, sel: Selection, n: nat)
    requires n <= |list| && !Has(list, sel)
    ensures Cleared(list, sel, n) == list[..n]
  {
    if n > 0 {
      NothingToClear(list, sel, n - 1);
      assert list[n - 1] in list;
      assert list[..n] == list[..n - 1] + [list[n - 1]];
    }
  }

  function Erased<T>(list: seq<T>, first: nat, last: nat): (r: seq<T>)
    requires first <= last <= |list|
    ensures |r| == |list| - (last - first)
  {
    list[..first] + list[last..]
  }

  class CapturedDiagList {
    var List: seq<Diagnostic>

    constructor ()
      ensures List == []
    {
      List := [];
    }

    method PushBack(d: Diagnostic)
      modifies this
      ensures List == old(List) + [d]
    {
      List := List + [d];
    }

    method HasDiagnostic(sel: Selection) returns (found: bool)
      ensures found <==> Has(List, sel)
      ensures found <==> !sel.range.begin.Invalid? && !sel.range.end.Invalid? && exists i ::
                && 0 <= i < |List| && sel.range.begin.Expansion() <= List[i].loc <= sel.range.end.Expansion()
                && (sel.ids == [] || List[i].id in sel.ids)
    {
      if sel.range.IsInvalid() {
        return false;
      }
      var i := 0;
      while i != |List|
        invariant 0 <= i <= |List|
        invariant forall j :: 0 <= j < i ==> !sel.Selects(List[j])
      {
        if sel.Matches(List[i]) {
          assert sel.Selects(List[i]);
          return true;
        }
        i := i + 1;
      }
      return false;
    }

    method Erase(first: nat, last: nat)
      requires first <= last <= |List|
      modifies this
      ensures List == Erased(old(List), first, last)
    {
      List := List[..first] + List[last..];
    }

    /** Where the notes from i on end. */
    method PassNotes(i: nat) returns (end: nat)
      requires i <= |List|
      ensures i <= end <= |List| && forall j :: i <= j < end ==> List[j].level.Note?
      ensures end < |List| ==> !List[end].level.Note?
    {
      end := i;
      while end != |List| && List[end].level == Note
        invariant i <= end <= |List|
        invariant forall j :: i <= j < end ==> List[j].level.Note?
      {
        end := end + 1;
      }
    }

    /** Erases a diagnostic, with the notes that follow it if it is no note; the
        iterator stays where it is. */
    method EraseMatch(eraseS: nat) returns (ghost end: nat)
      requires eraseS < |List|
      modifies this
      ensures eraseS < end <= |old(List)| && List == Erased(old(List), eraseS, end)
      ensures forall j :: eraseS < j < end ==> old(List)[j].level.Note?
      ensures old(List)[eraseS].level.Note? ==> end == eraseS + 1
      ensures !old(List)[eraseS].level.Note? && end < |old(List)| ==> !old(List)[end].level.Note?
    {
      var i := eraseS + 1;
      if List[eraseS].level != Note {
        i := PassNotes(i);
      }
      Erase(eraseS, i);
      return i;
    }

    /** Erases in place; `i` is the iterator. */
    method ClearDiagnostic(sel: Selection) returns (cleared: bool)
      modifies this
      ensures cleared <==> Has(old(List), sel)
      ensures List == ClearedAll(old(List), sel)
    {
      if sel.range.IsInvalid() {
        ClearingNothing(List, sel);
        return false;
      }
      ghost var was := List;
      ghost var seen: nat := 0;
      cleared := false;
      var i := 0;
      while i != |List|
        invariant 0 <= i <= |List| && seen <= |was|
        invariant Cursor(was, sel, seen, cleared, List, i)
        decreases |List| - i
      {
        ghost var now, clearedBefore := List, cleared;
        if sel.Matches(List[i]) {
          cleared := true;
          ghost var end := EraseMatch(i);
          ErasedRun(was, sel, seen, clearedBefore, now, i, end);
          seen := seen + (end - i);
        } else {
          KeptOne(was, sel, seen, cleared, now, i);
          seen := seen + 1;
          i := i + 1;
        }
      }
      CursorAtEnd(was, sel, seen, cleared, List);
    }

    method HasErrors() returns (found: bool)
      ensures found <==> exists d :: d in List && (d.level.Error? || d.level.Fatal?)
    {
      for i := 0 to |List|
        invariant forall j :: 0 <= j < i ==> List[j].level.Rank() < Error.Rank()
      {
        if List[i].level.Rank() >= Error.Rank() {
          return true;
        }
      }
      return false;
    }
  }

  /** A note that does not itself follow a selected diagnostic passes that on. */
  lemma NextFollows(list: seq<Diagnostic>, sel: Selection, i: nat)
    requires i + 1 < |list| && !FollowsSelected(list, sel, i)
    requires list[i].level.Note? || !sel.Selects(list[i])
    ensures !FollowsSelected(list, sel, i + 1)
  {
    if FollowsSelected(list, sel, i + 1) {
      var k :| 0 <= k < i + 1 && sel.Selects(list[k]) && !list[k].level.Note? && NotesBetween(list, k, i + 1);
      assert NotesBetween(list, k, i);
    }
  }

  lemma SameSuffix<T>(a: seq<T>, i: nat, next: nat, b: seq<T>, j: nat)
    requires i <= next <= |a| && j <= |b| && a[i..] == b[j..]
    ensures j + (next - i) <= |b| && a[next..] == b[j + (next - i)..]
    ensures forall k :: j <= k < |b| ==> i + (k - j) < |a| && b[k] == a[i + (k - j)]
  {
    assert |a| - i == |b| - j;
    forall k | j <= k < |b| ensures b[k] == a[i + (k - j)] {
      assert b[k] == b[j..][k - j] == a[i..][k - j];
    }
    assert a[next..] == a[i..][next - i..] == b[j..][next - i..] == b[j + (next - i)..];
  }

  /** Where the clearing loop stands: the first `seen` of the diagnostics it
      started from are dealt with, and `i` of the present ones are theirs. */
  ghost predicate Cursor(was: seq<Diagnostic>, sel: Selection, seen: nat, cleared: bool, now: seq<Diagnostic>, i: nat)
    requires seen <= |was| && i <= |now|
  {
    && now[..i] == Cleared(was, sel, seen)
    && now[i..] == was[seen..]
    && (seen < |was| ==> !FollowsSelected(was, sel, seen))
    && (cleared <==> exists j :: 0 <= j < seen && sel.Selects(was[j]))
  }

  lemma CursorAtEnd(was: seq<Diagnostic>, sel: Selection, seen: nat, cleared: bool, now: seq<Diagnostic>)
    requires seen <= |was| && Cursor(was, sel, seen, cleared, now, |now|)
    ensures now == ClearedAll(was, sel)
    ensures cleared <==> Has(was, sel)
  {
    assert was[seen..] == [] && now[..|now|] == now;
  }

  /** The loop passes over a diagnostic it keeps. */
  lemma KeptOne(was: seq<Diagnostic>, sel: Selection, seen: nat, cleared: bool, now: seq<Diagnostic>, i: nat)
    requires i < |now| && seen <= |was| && !sel.Selects(now[i])
    requires Cursor(was, sel, seen, cleared, now, i)
    ensures seen < |was| && Cursor(was, sel, seen + 1, cleared, now, i + 1)
  {
    SameSuffix(now, i, i + 1, was, seen);
    assert now[..i + 1] == now[..i] + [was[seen]];
    if seen + 1 < |was| {
      NextFollows(was, sel, seen);
    }
  }

  /** The loop erases a selected diagnostic at `start`, with the notes up to
      `end` after it. None of them is kept, and what comes next follows no
      selected diagnostic. */
  lemma {:induction false} ErasedRun(was: seq<Diagnostic>, sel: Selection, seen: nat, cleared: bool,
                                     now: seq<Diagnostic>, start: nat, end: nat)
    requires start < end <= |now| && seen <= |was| && Cursor(was, sel, seen, cleared, now, start)
    requires sel.Selects(now[start])
    requires forall j :: start < j < end ==> now[j].level.Note?
    requires now[start].level.Note? ==> end == start + 1
    requires !now[start].level.Note? && end < |now| ==> !now[end].level.Note?
    ensures seen + (end - start) <= |was|
    ensures Cursor(was, sel, seen + (end - start), true, Erased(now, start, end), start)
  {
    var next := seen + (end - start);
    SameSuffix(now, start, end, was, seen);
    assert was[seen] == now[start];
    forall j | seen < j < next ensures !Kept(was, sel, j) {
      assert NotesBetween(was, seen, j);
    }
    ClearedSkips(was, sel, seen, next);
    if next < |was| && was[seen].level.Note? {
      NextFollows(was, sel, seen);
    }
    var after := Erased(now, start, end);
    assert after[..start] == now[..start] && after[start..] == now[end..];
  }

  lemma {:induction false} ClearedSkips(list: seq<Diagnostic>, sel: Selection, first: nat, next: nat)
    requires first <= next <= |list|
    requires forall j :: first <= j < next ==> !Kept(list, sel, j)
    ensures Cleared(list, sel, next) == Cleared(list, sel, first)
  {
    if first < next { ClearedSkips(list, sel, first, next - 1); }
  }
}
