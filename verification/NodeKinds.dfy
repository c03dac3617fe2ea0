/** The table of syntax-node kinds and walks up its parents
    (ASTTypeTraits.cpp). */
module NodeKinds {

  /** Kinds are numbered; 0 is "no kind". */
  type NodeKindId = nat

  const NKI_NONE: NodeKindId := 0

  /** The parent of every kind. */
  type KindTable = seq<NodeKindId>

  ghost predicate WellFormed(t: KindTable) {
    |t| > 0 && t[NKI_NONE] == NKI_NONE && forall k :: 0 <= k < |t| ==> t[k] < |t|
  }

  /** Kinds can be ranked so that parents come strictly before their children. */
  ghost predicate Ranked(t: KindTable, rank: NodeKindId -> nat)
    requires WellFormed(t)
  {
    forall k: nat :: 0 < k < |t| ==> rank(t[k]) < rank(k)
  }

  ghost predicate Acyclic(t: KindTable) {
    WellFormed(t) && exists rank :: Ranked(t, rank)
  }

  /** The kind n parents up. */
  function Up(t: KindTable, k: NodeKindId, n: nat): (a: NodeKindId)
    requires WellFormed(t) && k < |t|
    ensures a < |t|
  {
    if n == 0 then k else t[Up(t, k, n - 1)]
  }

  /** The reflexive and transitive parent relation. */
  ghost predicate Derives(t: KindTable, base: NodeKindId, derived: NodeKindId)
    requires WellFormed(t) && derived < |t|
  {
    base != NKI_NONE && exists n: nat :: Reaches(t, derived, n, base)
  }

  ghost predicate Reaches(t: KindTable, derived: NodeKindId, n: nat, base: NodeKindId)
    requires WellFormed(t) && derived < |t|
  {
    Up(t, derived, n) == base
  }

  lemma {:induction false} UpAdds(t: KindTable, k: NodeKindId, m: nat, n: nat)
    requires WellFormed(t) && k < |t|
    ensures Up(t, Up(t, k, m), n) == Up(t, k, m + n)
  {
    if n > 0 { UpAdds(t, k, m, n - 1); }
  }

  lemma {:induction false} UpRanks(t: KindTable, rank: NodeKindId -> nat, k: NodeKindId, n: nat)
    requires WellFormed(t) && Ranked(t, rank) && k < |t|
    ensures Up(t, k, n) == NKI_NONE || rank(Up(t, k, n)) + n <= rank(k)
  {
    if n > 0 { UpRanks(t, rank, k, n - 1); }
  }

  /** On an acyclic table, the number of steps between two kinds is unique. */
  lemma DistanceIsUnique(t: KindTable, k: NodeKindId, m: nat, n: nat)
    requires Acyclic(t) && k < |t|
    requires Up(t, k, m) == Up(t, k, n) != NKI_NONE
    ensures m == n
  {
    var rank :| Ranked(t, rank);
    var lo, hi := if m <= n then m else n, if m <= n then n else m;
    UpAdds(t, k, lo, hi - lo);
    UpRanks(t, rank, Up(t, k, lo), hi - lo);
  }

  lemma {:induction false} NoneStays(t: KindTable, k: NodeKindId, m: nat, n: nat)
    requires WellFormed(t) && k < |t| && Up(t, k, m) == NKI_NONE && m <= n
    ensures Up(t, k, n) == NKI_NONE
  {
    if m < n { NoneStays(t, k, m, n - 1); }
  }

  /** Every walk up comes to an end. */
  lemma WalkEnds(t: KindTable, k: NodeKindId) returns (height: nat)
    requires Acyclic(t) && k < |t|
    ensures forall n: nat :: n >= height ==> Up(t, k, n) == NKI_NONE
  {
    var rank :| Ranked(t, rank);
    height := rank(k) + 1;
    UpRanks(t, rank, k, height);
    forall n: nat | n >= height ensures Up(t, k, n) == NKI_NONE {
      NoneStays(t, k, height, n);
    }
  }

  // ----- The walks -----

  method IsBaseOf(t: KindTable, base: NodeKindId, derived: NodeKindId) returns (yes: bool, distance: nat)
    requires Acyclic(t) && base < |t| && derived < |t|
    ensures yes <==> Derives(t, base, derived)
    ensures yes ==> Up(t, derived, distance) == base
  {
    if base == NKI_NONE || derived == NKI_NONE {
      NoneHasNoBase(t, base);
      return false, 0;
    }
    ghost var height: int := WalkEnds(t, derived);
    var dist := 0;
    var d := derived;
    while d != base && d != NKI_NONE
      invariant d < |t| && d == Up(t, derived, dist)
      invariant forall n: nat :: n < dist ==> !Reaches(t, derived, n, base)
      decreases height - dist
    {
      d := t[d];
      dist := dist + 1;
    }
    if d == NKI_NONE {
      forall n: nat ensures !Reaches(t, derived, n, base) {
        if n >= dist { NoneStays(t, derived, dist, n); }
      }
    }
    assert Reaches(t, derived, dist, d);
    return d == base, dist;
  }

  method GetMostDerivedType(t: KindTable, kind1: NodeKindId, kind2: NodeKindId) returns (k: NodeKindId)
    requires Acyclic(t) && kind1 < |t| && kind2 < |t|
    ensures k == kind1 || k == kind2 || k == NKI_NONE
    ensures k != NKI_NONE ==> Derives(t, kind1, k) && Derives(t, kind2, k)
    ensures k == NKI_NONE <==> !Derives(t, kind1, kind2) && !Derives(t, kind2, kind1)
  {
    DerivesReflexive(t, kind1);
    DerivesReflexive(t, kind2);
    NoneHasNoBase(t, kind1);
    NoneHasNoBase(t, kind2);
    var yes, distance := IsBaseOf(t, kind1, kind2);
    if yes {
      return kind2;
    }
    yes, distance := IsBaseOf(t, kind2, kind1);
    if yes {
      return kind1;
    }
    return NKI_NONE;
  }

  lemma DerivesReflexive(t: KindTable, k: NodeKindId)
    requires WellFormed(t) && k < |t|
    ensures k != NKI_NONE ==> Derives(t, k, k)
  {
    assert Reaches(t, k, 0, k);
  }

  /** The common base of two kinds that derives from every other, if any. */
  ghost predicate LowestCommonBase(t: KindTable, kind1: NodeKindId, kind2: NodeKindId, k: NodeKindId)
    requires WellFormed(t) && kind1 < |t| && kind2 < |t| && k < |t|
  {
    if k == NKI_NONE then forall b: nat :: !(Derives(t, b, kind1) && Derives(t, b, kind2))
    else
      && Derives(t, k, kind1) && Derives(t, k, kind2)
      && forall b: nat :: Derives(t, b, kind1) && Derives(t, b, kind2) ==> Derives(t, b, k)
  }

  method GetMostDerivedCommonAncestor(t: KindTable, kind1: NodeKindId, kind2: NodeKindId) returns (k: NodeKindId)
    requires Acyclic(t) && kind1 < |t| && kind2 < |t|
    ensures k < |t| && LowestCommonBase(t, kind1, kind2, k)
  {
    ghost var height: int := WalkEnds(t, kind1);
    ghost var steps := 0;
    var parent := kind1;
    var found, distance := IsBaseOf(t, parent, kind2);
    while !found && parent != NKI_NONE
      invariant parent < |t| && parent == Up(t, kind1, steps)
      invariant found <==> Derives(t, parent, kind2)
      invariant NoneShared(t, kind1, kind2, steps)
      decreases height - steps
    {
      NoneSharedNext(t, kind1, kind2, steps);
      parent := t[parent];
      steps := steps + 1;
      found, distance := IsBaseOf(t, parent, kind2);
    }
    FirstSharedIsLowest(t, kind1, kind2, steps);
    return parent;
  }

  /** None of the first steps up from one kind is a base of the other. */
  ghost predicate NoneShared(t: KindTable, kind1: NodeKindId, kind2: NodeKindId, steps: nat)
    requires WellFormed(t) && kind1 < |t| && kind2 < |t|
  {
    forall n: nat :: n < steps ==> !Derives(t, Up(t, kind1, n), kind2)
  }

  lemma NoneSharedNext(t: KindTable, kind1: NodeKindId, kind2: NodeKindId, steps: nat)
    requires WellFormed(t) && kind1 < |t| && kind2 < |t|
    requires NoneShared(t, kind1, kind2, steps) && !Derives(t, Up(t, kind1, steps), kind2)
    ensures NoneShared(t, kind1, kind2, steps + 1)
  {
  }

  /** Going up from one kind, the first base of the other is the lowest. */
  lemma FirstSharedIsLowest(t: KindTable, kind1: NodeKindId, kind2: NodeKindId, steps: nat)
    requires WellFormed(t) && kind1 < |t| && kind2 < |t|
    requires NoneShared(t, kind1, kind2, steps)
    requires Up(t, kind1, steps) == NKI_NONE || Derives(t, Up(t, kind1, steps), kind2)
    ensures LowestCommonBase(t, kind1, kind2, Up(t, kind1, steps))
  {
    forall b: nat | Derives(t, b, kind1) && Derives(t, b, kind2)
      ensures Up(t, kind1, steps) != NKI_NONE && Derives(t, b, Up(t, kind1, steps))
    {
      SharedIsAbove(t, kind1, kind2, steps, b);
    }
    assert Reaches(t, kind1, steps, Up(t, kind1, steps));
  }

  lemma SharedIsAbove(t: KindTable, kind1: NodeKindId, kind2: NodeKindId, steps: nat, b: NodeKindId)
    requires WellFormed(t) && kind1 < |t| && kind2 < |t|
    requires NoneShared(t, kind1, kind2, steps)
    requires Derives(t, b, kind1) && Derives(t, b, kind2)
    ensures Up(t, kind1, steps) != NKI_NONE && Derives(t, b, Up(t, kind1, steps))
  {
    var n: nat :| Reaches(t, kind1, n, b);
    BasesAbove(t, kind1, steps, n);
  }

  lemma BasesAbove(t: KindTable, k: NodeKindId, m: nat, n: nat)
    requires WellFormed(t) && k < |t| && m <= n && Up(t, k, n) != NKI_NONE
    ensures Up(t, k, m) != NKI_NONE && Derives(t, Up(t, k, n), Up(t, k, m))
  {
    if Up(t, k, m) == NKI_NONE {
      NoneStays(t, k, m, n);
    }
    UpAdds(t, k, m, n - m);
    assert Reaches(t, Up(t, k, m), n - m, Up(t, k, n));
  }

  lemma NoneHasNoBase(t: KindTable, b: NodeKindId)
    requires WellFormed(t)
    ensures !Derives(t, b, NKI_NONE)
  {
    if n: nat :| Reaches(t, NKI_NONE, n, b) {
      NoneStays(t, NKI_NONE, 0, n);
    }
  }

  // ----- What the relation is worth -----

  /** Distances add up along the hierarchy. */
  lemma DistancesAdd(t: KindTable, a: NodeKindId, b: NodeKindId, c: NodeKindId, ab: nat, bc: nat, ac: nat)
    requires Acyclic(t) && b < |t| && c < |t| && a != NKI_NONE
    requires Up(t, b, ab) == a && Up(t, c, bc) == b && Up(t, c, ac) == a
    ensures ac == ab + bc
  {
    UpAdds(t, c, bc, ab);
    DistanceIsUnique(t, c, ac, bc + ab);
  }

  lemma DerivesTransitive(t: KindTable, a: NodeKindId, b: NodeKindId, c: NodeKindId)
    requires WellFormed(t) && b < |t| && c < |t| && Derives(t, a, b) && Derives(t, b, c)
    ensures Derives(t, a, c)
  {
    var m: nat :| Reaches(t, b, m, a);
    var n: nat :| Reaches(t, c, n, b);
    UpAdds(t, c, n, m);
    assert Reaches(t, c, n + m, a);
  }

  lemma DerivesAntisymmetric(t: KindTable, a: NodeKindId, b: NodeKindId)
    requires Acyclic(t) && a < |t| && b < |t| && Derives(t, a, b) && Derives(t, b, a)
    ensures a == b
  {
    var m: nat :| Reaches(t, b, m, a);
    var n: nat :| Reaches(t, a, n, b);
    UpAdds(t, b, m, n);
    DistanceIsUnique(t, b, 0, m + n);
  }

  /** There is one lowest common base, whichever kind comes first. */
  lemma LowestIsUnique(t: KindTable, kind1: NodeKindId, kind2: NodeKindId, a: NodeKindId, b: NodeKindId)
    requires Acyclic(t) && kind1 < |t| && kind2 < |t| && a < |t| && b < |t|
    requires LowestCommonBase(t, kind1, kind2, a) && LowestCommonBase(t, kind2, kind1, b)
    ensures a == b
  {
    if a != NKI_NONE && b != NKI_NONE {
      DerivesAntisymmetric(t, a, b);
    }
  }
}
