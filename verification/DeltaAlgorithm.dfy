/** Delta debugging (token-delta.py, class DeltaAlgorithm), for an arbitrary
    deterministic test. */
module DeltaAlgorithm {
  import opened Sequences
  import opened Sublists
  import opened Wrappers

  /** What `Run` ends with: the original raises an error when the initial test
      fails. */
  datatype Outcome<+T> = InitialTestFails | Reduced(changes: seq<T>)

  /** Dropping any single change makes the test fail. */
  ghost predicate OneMinimal<T>(test: seq<T> -> bool, c: seq<T>) {
    forall i :: 0 <= i < |c| ==> !test(Without(c, i))
  }

  // ----- Splitting -----

  function Split<T>(s: seq<T>): seq<seq<T>> {
    var mid := |s| / 2;
    if mid == 0 then [s] else [s[..mid], s[mid..]]
  }

  function Refine<T>(pieces: seq<seq<T>>): seq<seq<T>> {
    if pieces == [] then [] else Split(pieces[0]) + Refine(pieces[1..])
  }

  /** All pieces are nonempty and of size `low` or `low + 1`. */
  ghost predicate Even<T>(pieces: seq<seq<T>>, low: nat) {
    low > 0 && forall i :: 0 <= i < |pieces| ==> low <= |pieces[i]| <= low + 1
  }

  /** What `Delta` is called with: the pieces make up c; a single piece only
      when nothing can be split, otherwise pieces of nearly equal size. */
  ghost predicate Partition<T>(c: seq<T>, pieces: seq<seq<T>>) {
    && Concat(pieces) == c
    && if |c| <= 1 then |pieces| <= 1 else |pieces| >= 2 && exists low :: Even(pieces, low)
  }

  lemma SplitPartition<T>(s: seq<T>)
    ensures Partition(s, Split(s))
    ensures |s| <= 1 ==> |Split(s)| == 1
    ensures |s| >= 2 ==> |Split(s)| == 2 && Even(Split(s), |s| / 2)
  {
    var mid := |s| / 2;
    assert s[..mid] + s[mid..] == s;
    if mid == 0 {
      assert Concat([s]) == s + Concat([]);
    } else {
      assert [s[..mid], s[mid..]][1..] == [s[mid..]];
      assert Concat([s[mid..]]) == s[mid..] + Concat([]);
      assert Even(Split(s), mid);
    }
  }

  lemma {:induction false} RefineConcat<T>(pieces: seq<seq<T>>)
    ensures Concat(Refine(pieces)) == Concat(pieces)
  {
    if pieces != [] {
      RefineConcat(pieces[1..]);
      SplitPartition(pieces[0]);
      ConcatSplits(Split(pieces[0]), Refine(pieces[1..]));
    }
  }

  /** Larger pieces are all halved. */
  lemma {:induction false} RefineHalves<T>(pieces: seq<seq<T>>, low: nat)
    requires Even(pieces, low) && low >= 2
    ensures |Refine(pieces)| == 2 * |pieces| && Even(Refine(pieces), low / 2)
  {
    if pieces != [] {
      assert Even(pieces[1..], low);
      RefineHalves(pieces[1..], low);
    }
  }

  /** Pieces of one or two elements fall apart into single elements. */
  lemma {:induction false} RefineSingles<T>(pieces: seq<seq<T>>)
    requires Even(pieces, 1)
    ensures |Refine(pieces)| == |Concat(pieces)| >= |pieces|
    ensures forall i :: 0 <= i < |Refine(pieces)| ==> |Refine(pieces)[i]| == 1
    ensures |Refine(pieces)| == |pieces| ==> forall i :: 0 <= i < |pieces| ==> |pieces[i]| == 1
  {
    if pieces != [] {
      var rest := pieces[1..];
      assert Even(rest, 1);
      RefineSingles(rest);
      if |Refine(pieces)| == |pieces| {
        assert |pieces[0]| == 1;
        assert forall i :: 0 < i < |pieces| ==> pieces[i] == rest[i - 1];
      }
    }
  }

  /** A refinement is finer, ends in single elements, and stops only there. */
  lemma RefinePartition<T>(c: seq<T>, pieces: seq<seq<T>>)
    requires Partition(c, pieces) && |pieces| >= 2
    ensures Partition(c, Refine(pieces))
    ensures |pieces| <= |Refine(pieces)| <= |c|
    ensures |Refine(pieces)| == |c| || |Refine(pieces)| == 2 * |pieces|
    ensures |Refine(pieces)| == |pieces| ==> forall i :: 0 <= i < |pieces| ==> |pieces[i]| == 1
  {
    var low: nat :| Even(pieces, low);
    RefineConcat(pieces);
    if low >= 2 {
      RefineHalves(pieces, low);
      EvenLength(Refine(pieces), low / 2);
    } else {
      RefineSingles(pieces);
      assert Even(Refine(pieces), 1);
    }
  }

  lemma EvenLength<T>(pieces: seq<seq<T>>, low: nat)
    requires Even(pieces, low)
    ensures |Concat(pieces)| >= low * |pieces| >= |pieces|
    ensures low > 1 && |pieces| > 0 ==> |Concat(pieces)| > |pieces|
  {
    ConcatLength(pieces, low);
    AtLeast(low, |pieces|);
    if low > 1 {
      AtLeast(low - 1, |pieces|);
      assert low * |pieces| == (low - 1) * |pieces| + |pieces|;
    }
  }

  lemma AtLeast(low: nat, n: nat)
    requires low >= 1
    ensures low * n >= n
  {
  }

  /** Where a piece of a partition, or all but it, can go next. */
  lemma PieceSizes<T>(c: seq<T>, pieces: seq<seq<T>>, i: nat)
    requires Partition(c, pieces) && |pieces| >= 2 && i < |pieces|
    ensures 0 < |pieces[i]| && 2 * |pieces[i]| <= |c| + 1
    ensures |Concat(Without(pieces, i))| == |c| - |pieces[i]|
    ensures |pieces| <= |c| && |pieces| - 1 <= |c| - |pieces[i]|
    ensures |pieces| == |c| ==> |pieces[i]| == 1
    ensures |pieces| > 2 ==> Partition(Concat(Without(pieces, i)), Without(pieces, i))
  {
    var low: nat :| Even(pieces, low);
    PieceSublists(pieces, i);
    var rest := Without(pieces, i);
    assert Even(rest, low);
    EvenLength(rest, low);
    AtLeast(|rest|, low);
  }

  // ----- The number of tests -----

  /** n * (n + 1), in small steps. */
  function Pronic(n: nat): (r: nat) {
    if n == 0 then 0 else Pronic(n - 1) + 2 * n
  }

  lemma {:induction false} PronicIsProduct(n: nat)
    ensures Pronic(n) == n * (n + 1)
  {
    if n > 0 { PronicIsProduct(n - 1); }
  }

  lemma {:induction false} PronicGrows(a: nat, b: nat)
    requires a <= b
    ensures Pronic(a) + 2 * (b - a) * (a + 1) <= Pronic(b)
    decreases b
  {
    if a < b {
      PronicGrows(a, b - 1);
      OneMoreTime(2 * (b - 1 - a), 2, a + 1);
    }
  }

  lemma OneMoreTime(x: nat, y: nat, n: nat)
    ensures (x + y) * n == x * n + y * n
  {
  }

  /** Enough test results for `Delta` on n changes in k pieces. */
  function Budget(n: nat, k: nat): int {
    if n <= 1 then 0 else if k >= n then Pronic(n) else Pronic(n) + 6 * n - 2 * k
  }

  /** A whole failing search and what comes after it stay within the budget. */
  lemma BudgetAfterFailure(n: nat, k: nat, k': nat)
    requires 2 <= k <= n
    ensures 2 * k <= Budget(n, k)
    ensures k < k' <= n && (k' == n || k' == 2 * k) ==> 2 * k + Budget(n, k') <= Budget(n, k)
  {
    PronicGrows(1, n);
  }

  lemma TimesAtLeast(a: int, b: int, c: int)
    requires a >= 0 && b >= c
    ensures a * b >= a * c
  {
  }

  /** Half the changes cost at least six less for each of them but one. */
  lemma PronicOfHalf(n: nat, s: nat)
    requires 2 <= s && 2 * s <= n + 1
    ensures Pronic(s) + 6 * (s - 1) + 2 * (n - (2 * s - 1)) <= Pronic(n)
  {
    PronicGrows(s, 2 * s - 1);
    TimesAtLeast(2 * (s - 1), s + 1, 3);
    PronicGrows(2 * s - 1, n);
    TimesAtLeast(2 * (n - (2 * s - 1)), 2 * s, 1);
  }

  /** A search that finds a passing piece of s changes. */
  lemma BudgetAfterPiece(n: nat, k: nat, s: nat)
    requires 2 <= k <= n && 0 < s && 2 * s <= n + 1 && (k == n ==> s == 1)
    ensures 2 * k - 1 + Budget(s, 2) <= Budget(n, k)
  {
    if s == 1 {
      PronicGrows(1, n);
    } else {
      PronicOfHalf(n, s);
    }
  }

  /** A search that finds a piece of s changes that can be dropped. */
  lemma BudgetAfterComplement(n: nat, k: nat, s: nat)
    requires 2 < k <= n && 0 < s < n && k - 1 <= n - s && (k == n ==> s == 1)
    ensures 2 * k + Budget(n - s, k - 1) <= Budget(n, k)
  {
    PronicGrows(n - s, n - 1);
  }

  // ----- The algorithm -----

  class DeltaAlgorithm<T(==)> {
    /** The outcome of running the test program. */
    const test: seq<T> -> bool
    var cache: set<set<T>>
    /** The candidates the test was really run on, in order. */
    ghost var executed: seq<seq<T>>
    /** How often a test result was asked for. */
    ghost var asked: nat

    constructor (test: seq<T> -> bool)
      ensures this.test == test && cache == {} && executed == [] && asked == 0
    {
      this.test := test;
      cache := {};
      executed := [];
      asked := 0;
    }

    /** The cache holds the sets of exactly those candidates that were run and
        failed, every one of them a sublist of `all`, and none was run twice. */
    ghost predicate Sound(all: seq<T>)
      reads this
    {
      && (forall c :: c in executed ==> Sublist(c, all))
      && (forall c :: c in executed && !test(c) ==> Elems(c) in cache)
      && (forall s :: s in cache ==> exists c :: c in executed && !test(c) && Elems(c) == s)
      && (forall i, j :: 0 <= i < j < |executed| && !test(executed[i]) ==> executed[i] != executed[j])
    }

    /** Despite the cache being keyed by sets, the answer is that of the test. */
    method GetTestResult(changes: seq<T>, ghost all: seq<T>) returns (passes: bool)
      requires Distinct(all) && Sublist(changes, all) && Sound(all)
      modifies this
      ensures Sound(all)
      ensures passes == test(changes)
      ensures !passes ==> Elems(changes) in cache
      ensures old(executed) <= executed
      ensures asked == old(asked) + 1
    {
      asked := asked + 1;
      var changeset := set x | x in changes;
      if changeset in cache {
        ghost var c :| c in executed && !test(c) && Elems(c) == changeset;
        SameElemsSameSublist(changes, c, all);
        return false;
      }
      assert changes in executed ==> test(changes);
      executed := executed + [changes];
      passes := test(changes);
      if !passes {
        cache := cache + {changeset};
      }
      assert forall c :: c in executed <==> c in old(executed) || c == changes;
    }

    method Run(changes: seq<T>, force: bool) returns (res: Outcome<T>)
      requires Distinct(changes) && Sound(changes)
      modifies this
      ensures Sound(changes)
      ensures res.InitialTestFails? <==> !force && !test(changes)
      ensures res.Reduced? ==> Sublist(res.changes, changes) && OneMinimal(test, res.changes)
      ensures res.Reduced? ==> test(res.changes) || (force && res.changes == changes)
      ensures asked - old(asked) <= |changes| * |changes| + 7 * |changes| + 2
      ensures asked - old(asked) <= 3 * |changes| * (|changes| + 1) + 2
    {
      SublistRefl(changes);
      BudgetOfRun(|changes|);
      if !force {
        var passes := GetTestResult(changes, changes);
        if !passes {
          return InitialTestFails;
        }
      }
      var trivial := GetTestResult([], changes);
      if trivial {
        return Reduced([]);
      }
      SplitPartition(changes);
      var c := Delta(changes, Split(changes), changes);
      return Reduced(c);
    }

    method Delta(c: seq<T>, pieces: seq<seq<T>>, ghost all: seq<T>) returns (res: seq<T>)
      requires Distinct(all) && Sublist(c, all) && Sound(all) && !test([])
      requires Partition(c, pieces)
      modifies this
      ensures Sound(all)
      ensures Sublist(res, c) && OneMinimal(test, res) && (res == c || test(res))
      ensures asked - old(asked) <= Budget(|c|, |pieces|)
      decreases |c|, 1 + |c| - |pieces|, 1
    {
      SublistRefl(c);
      if |pieces| <= 1 {
        assert forall i :: 0 <= i < |c| ==> Without(c, i) == [];
        return c;
      }
      RefinePartition(c, pieces);
      BudgetAfterFailure(|c|, |pieces|, |Refine(pieces)|);
      var found := Search(c, pieces, all);
      if found.Some? {
        return found.value;
      }
      var refined := Refine(pieces);
      if |refined| == |pieces| {
        SinglesAreMinimal(test, c, pieces);
        return c;
      }
      res := Delta(c, refined, all);
    }

    /** The loop body of the original's `search` is the two methods below. */
    method Search(c: seq<T>, pieces: seq<seq<T>>, ghost all: seq<T>) returns (res: Option<seq<T>>)
      requires Distinct(all) && Sublist(c, all) && Sound(all) && !test([])
      requires Partition(c, pieces) && |pieces| >= 2
      modifies this
      ensures Sound(all)
      ensures res.Some? ==> Sublist(res.value, c) && OneMinimal(test, res.value) && test(res.value)
      ensures res.Some? ==> asked - old(asked) <= Budget(|c|, |pieces|)
      ensures res.None? ==> NothingPasses(test, pieces, |pieces|) && asked - old(asked) <= 2 * |pieces|
      decreases |c|, 1 + |c| - |pieces|, 0
    {
      PieceSizes(c, pieces, 0);
      for i := 0 to |pieces|
        invariant Sound(all)
        invariant NothingPasses(test, pieces, i)
        invariant asked - old(asked) <= 2 * i
      {
        // If the test passes on this piece alone, recurse.
        res := TryPiece(c, pieces, i, all);
        if res.Some? {
          return;
        }
        // With more than two pieces, see if it passes without this piece.
        if |pieces| > 2 {
          res := TryComplement(c, pieces, i, all);
          if res.Some? {
            return;
          }
        }
      }
      return None;
    }

    method TryPiece(c: seq<T>, pieces: seq<seq<T>>, i: nat, ghost all: seq<T>) returns (res: Option<seq<T>>)
      requires Distinct(all) && Sublist(c, all) && Sound(all) && !test([])
      requires Partition(c, pieces) && |pieces| >= 2 && i < |pieces|
      modifies this
      ensures Sound(all)
      ensures res.Some? ==> Sublist(res.value, c) && OneMinimal(test, res.value) && test(res.value)
      ensures res.Some? ==> asked - old(asked) <= Budget(|c|, |pieces|) - 2 * (|pieces| - 1)
      ensures res.None? ==> !test(pieces[i]) && asked - old(asked) <= 1
      decreases |c|, 0
    {
      var s := pieces[i];
      PieceSublists(pieces, i);
      PieceSizes(c, pieces, i);
      SublistTrans(s, c, all);
      var passes := GetTestResult(s, all);
      if !passes {
        return None;
      }
      SplitPartition(s);
      BudgetAfterPiece(|c|, |pieces|, |s|);
      var r := Delta(s, Split(s), all);
      SublistTrans(r, s, c);
      return Some(r);
    }

    method TryComplement(c: seq<T>, pieces: seq<seq<T>>, i: nat, ghost all: seq<T>) returns (res: Option<seq<T>>)
      requires Distinct(all) && Sublist(c, all) && Sound(all) && !test([])
      requires Partition(c, pieces) && |pieces| > 2 && i < |pieces|
      modifies this
      ensures Sound(all)
      ensures res.Some? ==> Sublist(res.value, c) && OneMinimal(test, res.value) && test(res.value)
      ensures res.Some? ==> asked - old(asked) <= Budget(|c|, |pieces|) - 2 * |pieces| + 1
      ensures res.None? ==> !test(Concat(Without(pieces, i))) && asked - old(asked) <= 1
      decreases |c|, 0
    {
      var rest := pieces[..i] + pieces[i + 1..];
      var complement := Concat(rest);
      PieceSublists(pieces, i);
      PieceSizes(c, pieces, i);
      SublistTrans(complement, c, all);
      var passes := GetTestResult(complement, all);
      if !passes {
        return None;
      }
      BudgetAfterComplement(|c|, |pieces|, |pieces[i]|);
      var r := Delta(complement, rest, all);
      SublistTrans(r, complement, c);
      return Some(r);
    }
  }

  /** What a search has found out about the first n pieces. */
  ghost predicate NothingPasses<T>(test: seq<T> -> bool, pieces: seq<seq<T>>, n: nat)
    requires n <= |pieces|
  {
    forall i :: 0 <= i < n ==> !test(pieces[i]) && (|pieces| > 2 ==> !test(Concat(Without(pieces, i))))
  }

  lemma SinglesAreMinimal<T>(test: seq<T> -> bool, c: seq<T>, pieces: seq<seq<T>>)
    requires Concat(pieces) == c && |pieces| >= 2 && NothingPasses(test, pieces, |pieces|)
    requires forall i :: 0 <= i < |pieces| ==> |pieces[i]| == 1
    ensures OneMinimal(test, c)
  {
    SingletonConcat(pieces);
    forall i | 0 <= i < |c| ensures !test(Without(c, i)) {
      SingletonWithout(pieces, i);
      if |pieces| == 2 {
        assert Without(c, i) == pieces[1 - i];
      }
    }
  }

  /** The budget of a run on n changes is quadratic. */
  lemma BudgetOfRun(n: nat)
    ensures Budget(n, 2) <= n * n + 7 * n
    ensures Budget(n, 2) <= 3 * n * (n + 1)
  {
    PronicIsProduct(n);
    if n > 1 {
      assert n * n >= 2 * n;
    }
  }
}
