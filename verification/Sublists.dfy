/** Order-preserving sublists, and lists cut into pieces. */
module Sublists {
  import opened Sequences

  ghost predicate Distinct<T>(s: seq<T>) {
    forall i, j :: 0 <= i < j < |s| ==> s[i] != s[j]
  }

  function Elems<T>(s: seq<T>): set<T> { set x | x in s }

  /** `a` is what is left of `b` when some elements are dropped. */
  ghost predicate Sublist<T>(a: seq<T>, b: seq<T>) {
    if a == [] then true
    else if b == [] then false
    else (a[0] == b[0] && Sublist(a[1..], b[1..])) || Sublist(a, b[1..])
  }

  lemma {:induction false} SublistRefl<T>(a: seq<T>)
    ensures Sublist(a, a)
  {
    if a != [] { SublistRefl(a[1..]); }
  }

  lemma {:induction false} SublistMembers<T>(a: seq<T>, b: seq<T>)
    requires Sublist(a, b)
    ensures |a| <= |b| && forall x :: x in a ==> x in b
  {
    if a != [] {
      assert forall x :: x in a ==> x == a[0] || x in a[1..];
      if a[0] == b[0] && Sublist(a[1..], b[1..]) {
        SublistMembers(a[1..], b[1..]);
      } else {
        SublistMembers(a, b[1..]);
      }
    }
  }

  lemma {:induction false} SublistTrans<T>(a: seq<T>, b: seq<T>, c: seq<T>)
    requires Sublist(a, b) && Sublist(b, c)
    ensures Sublist(a, c)
    decreases |b| + |c|
  {
    if a != [] {
      if b[0] == c[0] && Sublist(b[1..], c[1..]) {
        if a[0] == b[0] && Sublist(a[1..], b[1..]) {
          SublistTrans(a[1..], b[1..], c[1..]);
        } else {
          SublistTrans(a, b[1..], c[1..]);
        }
      } else {
        SublistTrans(a, b, c[1..]);
      }
    }
  }

  /** Dropping a prefix. */
  lemma {:induction false} SublistSkip<T>(p: seq<T>, a: seq<T>, b: seq<T>)
    requires Sublist(a, b)
    ensures Sublist(a, p + b)
  {
    if p == [] {
      assert p + b == b;
    } else {
      SublistSkip(p[1..], a, b);
      assert (p + b)[1..] == p[1..] + b;
    }
  }

  lemma {:induction false} SublistKeep<T>(p: seq<T>, a: seq<T>, b: seq<T>)
    requires Sublist(a, b)
    ensures Sublist(p + a, p + b)
  {
    if p == [] {
      assert p + a == a && p + b == b;
    } else {
      SublistKeep(p[1..], a, b);
      assert (p + a)[1..] == p[1..] + a && (p + b)[1..] == p[1..] + b;
    }
  }

  lemma {:induction false} SublistPrefix<T>(p: seq<T>, q: seq<T>)
    ensures Sublist(p, p + q)
  {
    SublistKeep(p, [], q);
    assert p + [] == p;
  }

  /** A sublist of a list without repetitions is determined by its elements. */
  lemma {:induction false} SameElemsSameSublist<T>(a: seq<T>, b: seq<T>, all: seq<T>)
    requires Distinct(all) && Sublist(a, all) && Sublist(b, all)
    requires Elems(a) == Elems(b)
    ensures a == b
    decreases |all|
  {
    FirstInElems(a);
    FirstInElems(b);
    if a != [] && b != [] {
      var rest := all[1..];
      assert forall x :: x in rest ==> x != all[0];
      SplitOff(a, all);
      SplitOff(b, all);
      if a[0] == all[0] {
        assert all[0] in Elems(b);
        assert b[0] == all[0];
        assert Elems(a[1..]) == Elems(a) - {all[0]} && Elems(b[1..]) == Elems(b) - {all[0]};
        SameElemsSameSublist(a[1..], b[1..], rest);
      } else {
        assert all[0] !in Elems(a);
        SameElemsSameSublist(a, b, rest);
      }
    }
  }

  lemma FirstInElems<T>(s: seq<T>)
    ensures s != [] ==> s[0] in Elems(s)
    ensures s == [] ==> Elems(s) == {}
  {
  }

  lemma SplitOff<T>(a: seq<T>, all: seq<T>)
    requires Distinct(all) && a != [] && Sublist(a, all)
    ensures all != []
    ensures a[0] == all[0] ==> Sublist(a[1..], all[1..]) && all[0] !in a[1..]
    ensures a[0] != all[0] ==> Sublist(a, all[1..]) && all[0] !in a
  {
    assert forall x :: x in all[1..] ==> x != all[0];
    assert a[0] in a;
    if a[0] == all[0] {
      if !Sublist(a[1..], all[1..]) {
        SublistMembers(a, all[1..]);
      }
      SublistMembers(a[1..], all[1..]);
    } else {
      SublistMembers(a, all[1..]);
    }
  }

  // ----- Pieces -----

  lemma ConcatAround<T>(pieces: seq<seq<T>>, i: nat)
    requires i < |pieces|
    ensures Concat(pieces) == Concat(pieces[..i]) + pieces[i] + Concat(pieces[i + 1..])
    ensures Concat(Without(pieces, i)) == Concat(pieces[..i]) + Concat(pieces[i + 1..])
  {
    Around(pieces, i);
    ConcatThree(pieces[..i], pieces[i], pieces[i + 1..]);
    ConcatSplits(pieces[..i], pieces[i + 1..]);
  }

  lemma Around<T>(s: seq<T>, i: nat)
    requires i < |s|
    ensures s == s[..i] + ([s[i]] + s[i + 1..])
  {
  }

  lemma ConcatThree<T>(front: seq<seq<T>>, piece: seq<T>, back: seq<seq<T>>)
    ensures Concat(front + ([piece] + back)) == Concat(front) + piece + Concat(back)
  {
    ConcatSplits(front, [piece] + back);
    assert ([piece] + back)[1..] == back;
    Regroup(Concat(front), piece, Concat(back));
  }

  /** A piece, and all but a piece, are sublists of the whole. */
  lemma PieceSublists<T>(pieces: seq<seq<T>>, i: nat)
    requires i < |pieces|
    ensures Sublist(pieces[i], Concat(pieces))
    ensures Sublist(Concat(Without(pieces, i)), Concat(pieces))
    ensures |Concat(pieces)| == |pieces[i]| + |Concat(Without(pieces, i))|
  {
    ConcatAround(pieces, i);
    var p, q := Concat(pieces[..i]), Concat(pieces[i + 1..]);
    SublistPrefix(pieces[i], q);
    SublistSkip(p, pieces[i], pieces[i] + q);
    assert p + (pieces[i] + q) == p + pieces[i] + q;
    SublistRefl(q);
    SublistSkip(pieces[i], q, q);
    SublistKeep(p, q, pieces[i] + q);
  }

  lemma {:induction false} SingletonConcat<T>(pieces: seq<seq<T>>)
    requires forall i :: 0 <= i < |pieces| ==> |pieces[i]| == 1
    ensures |Concat(pieces)| == |pieces|
    ensures forall i :: 0 <= i < |pieces| ==> pieces[i] == [Concat(pieces)[i]]
  {
    if pieces != [] {
      SingletonConcat(pieces[1..]);
      assert forall i :: 0 < i < |pieces| ==> pieces[i] == pieces[1..][i - 1];
    }
  }

  lemma SingletonWithout<T>(pieces: seq<seq<T>>, i: nat)
    requires forall j :: 0 <= j < |pieces| ==> |pieces[j]| == 1
    requires i < |pieces|
    ensures |Concat(pieces)| == |pieces|
    ensures Concat(Without(pieces, i)) == Without(Concat(pieces), i)
  {
    SingletonConcat(pieces);
    ConcatAround(pieces, i);
    SingletonConcat(pieces[..i]);
    MiddleOut(Concat(pieces[..i]), pieces[i], Concat(pieces[i + 1..]));
  }

  lemma MiddleOut<T>(a: seq<T>, x: seq<T>, b: seq<T>)
    requires |x| == 1
    ensures Without(a + x + b, |a|) == a + b
  {
  }
}
