/** Delta debugging over the tokens of several files (token-delta.py, class
    TMBDDelta). */
module TokenDelta {
  import opened Sequences
  import opened Sublists
  import opened DeltaAlgorithm

  /** The i-th file, the j-th of its tokens. */
  type Change = (nat, nat)

  type TokenLists = seq<seq<string>>

  function Upto(n: nat): seq<nat> { seq(n, j => j) }

  function ChangesOf(i: nat, n: nat): seq<Change> { seq(n, j => (i, j)) }

  /** All tokens of the first n files, file by file. */
  function AllChanges(lists: TokenLists, n: nat): seq<Change>
    requires n <= |lists|
  {
    if n == 0 then [] else AllChanges(lists, n - 1) + ChangesOf(n - 1, |lists[n - 1]|)
  }

  predicate InRange(lists: TokenLists, c: Change) {
    c.0 < |lists| && c.1 < |lists[c.0]|
  }

  /** The token indices that changes keep of file i, in order. */
  function Project(changes: seq<Change>, i: nat): seq<nat> {
    if changes == [] then []
    else Project(changes[..|changes| - 1], i) +
         (if changes[|changes| - 1].0 == i then [changes[|changes| - 1].1] else [])
  }

  function Pick(tokens: seq<string>, indices: seq<nat>): seq<string>
    requires forall j :: j in indices ==> j < |tokens|
  {
    seq(|indices|, k requires 0 <= k < |indices| => assert indices[k] in indices; tokens[indices[k]])
  }

  /** The token lists that the files hold for a choice of changes. */
  function Chosen(lists: TokenLists, changes: seq<Change>): (chosen: TokenLists)
    requires forall c :: c in changes ==> InRange(lists, c)
    ensures |chosen| == |lists|
  {
    seq(|lists|, i requires 0 <= i < |lists| => ProjectInRange(lists, changes, i); Pick(lists[i], Project(changes, i)))
  }

  lemma {:induction false} ProjectInRange(lists: TokenLists, changes: seq<Change>, i: nat)
    requires i < |lists| && forall c :: c in changes ==> InRange(lists, c)
    ensures forall j :: j in Project(changes, i) ==> j < |lists[i]|
  {
    if changes != [] {
      ProjectInRange(lists, changes[..|changes| - 1], i);
      assert changes[|changes| - 1] in changes;
    }
  }

  // ----- All changes -----

  lemma {:induction false} AllChangesInRange(lists: TokenLists, n: nat)
    requires n <= |lists|
    ensures forall c :: c in AllChanges(lists, n) ==> c.0 < n && InRange(lists, c)
  {
    if n > 0 { AllChangesInRange(lists, n - 1); }
  }

  lemma {:induction false} AllChangesDistinct(lists: TokenLists, n: nat)
    requires n <= |lists|
    ensures Distinct(AllChanges(lists, n))
  {
    if n > 0 {
      var front, last := AllChanges(lists, n - 1), ChangesOf(n - 1, |lists[n - 1]|);
      AllChangesDistinct(lists, n - 1);
      AllChangesInRange(lists, n - 1);
      forall i, j | 0 <= i < j < |front + last| ensures (front + last)[i] != (front + last)[j] {
        if i < |front| { assert (front + last)[i] in front; }
      }
    }
  }

  lemma {:induction false} ProjectConcat(a: seq<Change>, b: seq<Change>, i: nat)
    ensures Project(a + b, i) == Project(a, i) + Project(b, i)
  {
    if b == [] {
      assert a + b == a;
    } else {
      assert (a + b)[..|a + b| - 1] == a + b[..|b| - 1];
      ProjectConcat(a, b[..|b| - 1], i);
    }
  }

  lemma {:induction false} ProjectOne(k: nat, n: nat, i: nat)
    ensures Project(ChangesOf(k, n), i) == if i == k then Upto(n) else []
  {
    if n > 0 {
      ProjectOne(k, n - 1, i);
      assert ChangesOf(k, n)[..n - 1] == ChangesOf(k, n - 1);
    }
  }

  /** All changes keep all tokens of every file. */
  lemma {:induction false} ProjectAll(lists: TokenLists, n: nat, i: nat)
    requires n <= |lists|
    ensures Project(AllChanges(lists, n), i) == if i < n then Upto(|lists[i]|) else []
  {
    if n > 0 {
      var m := n - 1;
      ProjectAll(lists, m, i);
      ProjectOne(m, |lists[m]|, i);
      ProjectNext(lists, m, i);
      var front, last := Project(AllChanges(lists, m), i), Project(ChangesOf(m, |lists[m]|), i);
      if i == m { NothingMore(last); } else { NothingMore(front); }
    }
  }

  lemma ProjectNext(lists: TokenLists, m: nat, i: nat)
    requires m < |lists|
    ensures Project(AllChanges(lists, m + 1), i) == Project(AllChanges(lists, m), i) + Project(ChangesOf(m, |lists[m]|), i)
  {
    ProjectConcat(AllChanges(lists, m), ChangesOf(m, |lists[m]|), i);
  }

  // ----- Fewer changes -----

  lemma {:induction false} ProjectSublist(a: seq<Change>, b: seq<Change>, i: nat)
    requires Sublist(a, b)
    ensures Sublist(Project(a, i), Project(b, i))
    decreases |b|
  {
    if a != [] {
      assert b == [b[0]] + b[1..];
      ProjectConcat([b[0]], b[1..], i);
      if a[0] == b[0] && Sublist(a[1..], b[1..]) {
        ProjectSublist(a[1..], b[1..], i);
        assert a == [a[0]] + a[1..];
        ProjectConcat([a[0]], a[1..], i);
        SublistKeep(Project([a[0]], i), Project(a[1..], i), Project(b[1..], i));
      } else {
        ProjectSublist(a, b[1..], i);
        SublistSkip(Project([b[0]], i), Project(a, i), Project(b[1..], i));
      }
    }
  }

  lemma {:induction false} PickSublist(tokens: seq<string>, a: seq<nat>, b: seq<nat>)
    requires Sublist(a, b) && (forall j :: j in a ==> j < |tokens|) && (forall j :: j in b ==> j < |tokens|)
    ensures Sublist(Pick(tokens, a), Pick(tokens, b))
    decreases |b|
  {
    if a != [] {
      assert forall j :: j in a[1..] ==> j in a;
      assert forall j :: j in b[1..] ==> j in b;
      assert Pick(tokens, a)[1..] == Pick(tokens, a[1..]) && Pick(tokens, b)[1..] == Pick(tokens, b[1..]);
      if a[0] == b[0] && Sublist(a[1..], b[1..]) {
        PickSublist(tokens, a[1..], b[1..]);
      } else {
        PickSublist(tokens, a, b[1..]);
      }
    }
  }

  /** Whatever changes are kept, every file holds some of its own tokens, in
      their original order; keeping all changes keeps the files. */
  lemma ChosenKeepsOrder(lists: TokenLists, changes: seq<Change>, i: nat)
    requires i < |lists| && Sublist(changes, AllChanges(lists, |lists|))
    ensures forall c :: c in changes ==> InRange(lists, c)
    ensures Sublist(Chosen(lists, changes)[i], lists[i])
    ensures changes == AllChanges(lists, |lists|) ==> Chosen(lists, changes)[i] == lists[i]
  {
    var all := AllChanges(lists, |lists|);
    AllChangesInRange(lists, |lists|);
    SublistMembers(changes, all);
    ProjectAll(lists, |lists|, i);
    ProjectSublist(changes, all, i);
    ProjectInRange(lists, changes, i);
    PickSublist(lists[i], Project(changes, i), Upto(|lists[i]|));
    assert Pick(lists[i], Upto(|lists[i]|)) == lists[i];
  }

  // ----- Which tokens are chosen -----

  /** Without changes all files are empty, and one more change puts the token it
      names behind those of its file and leaves the other files as they are. */
  lemma ChosenNext(lists: TokenLists, changes: seq<Change>, i: nat, j: nat)
    requires (forall c :: c in changes ==> InRange(lists, c)) && i < |lists| && j < |lists[i]|
    ensures forall k :: 0 <= k < |lists| ==> Chosen(lists, [])[k] == []
    ensures forall c :: c in changes + [(i, j)] ==> InRange(lists, c)
    ensures var was := Chosen(lists, changes);
            Chosen(lists, changes + [(i, j)]) == was[i := was[i] + [lists[i][j]]]
  {
    var more := changes + [(i, j)];
    assert more[..|more| - 1] == changes;
    var was, now := Chosen(lists, changes), Chosen(lists, more);
    forall k | 0 <= k < |lists| ensures now[k] == was[i := was[i] + [lists[i][j]]][k] {
      ProjectInRange(lists, changes, k);
      ProjectInRange(lists, more, k);
      if k == i {
        PickNext(lists[i], Project(changes, i), j);
      } else {
        NothingMore(Project(changes, k));
      }
    }
  }

  lemma PickNext(tokens: seq<string>, indices: seq<nat>, j: nat)
    requires (forall k :: k in indices ==> k < |tokens|) && j < |tokens|
    ensures Pick(tokens, indices + [j]) == Pick(tokens, indices) + [tokens[j]]
  {
    forall k | 0 <= k < |indices| ensures Pick(tokens, indices + [j])[k] == Pick(tokens, indices)[k] {
      assert (indices + [j])[k] == indices[k] && indices[k] in indices;
    }
  }

  /** Every token of the files can be dropped by dropping one change. */
  lemma {:induction false} TokenOfChange(lists: TokenLists, changes: seq<Change>, i: nat, k: nat) returns (m: nat)
    requires (forall c :: c in changes ==> InRange(lists, c)) && i < |lists| && k < |Chosen(lists, changes)[i]|
    ensures m < |changes| && forall c :: c in Without(changes, m) ==> InRange(lists, c)
    ensures var was := Chosen(lists, changes);
            Chosen(lists, Without(changes, m)) == was[i := Without(was[i], k)]
  {
    if changes == [] {
      assert false;
    } else {
      var front := changes[..|changes| - 1];
      var (a, b) := changes[|changes| - 1];
      LastApart(changes);
      assert InRange(lists, changes[|changes| - 1]);
      ChosenNext(lists, front, a, b);
      var was, token := Chosen(lists, front), lists[a][b];
      if a == i && k == |was[i]| {
        m := |front|;
        DropLast(front, (a, b));
        DropLast(was[i], token);
      } else {
        m := TokenOfChange(lists, front, i, k);
        DropEarlier(front, (a, b), m);
        ChosenNext(lists, Without(front, m), a, b);
        if a == i { DropEarlier(was[i], token, k); }
      }
    }
  }

  lemma DropLast<T>(s: seq<T>, x: T)
    ensures Without(s + [x], |s|) == s
  {
  }

  lemma DropEarlier<T>(s: seq<T>, x: T, m: nat)
    requires m < |s|
    ensures Without(s + [x], m) == Without(s, m) + [x]
  {
  }

  /** The files without token k of file i. */
  function WithoutToken(files: TokenLists, i: nat, k: nat): TokenLists
    requires i < |files| && k < |files[i]|
  {
    files[i := files[i][..k] + files[i][k + 1..]]
  }

  class TMBDDelta {
    const tokenLists: TokenLists
    /** Whether the test program succeeds on files with the given tokens. */
    const program: TokenLists -> bool
    var targetFiles: TokenLists

    constructor (tokenLists: TokenLists, program: TokenLists -> bool)
      ensures this.tokenLists == tokenLists && this.program == program
    {
      this.tokenLists := tokenLists;
      this.program := program;
      targetFiles := [];
    }

    /** Sorts the changes by file and writes the tokens they name. */
    method WriteFiles(changes: seq<Change>) returns (files: TokenLists)
      requires forall c :: c in changes ==> InRange(tokenLists, c)
      ensures files == Chosen(tokenLists, changes)
    {
      var byFile := seq(|tokenLists|, i => []);
      for k := 0 to |changes|
        invariant |byFile| == |tokenLists|
        invariant forall i :: 0 <= i < |byFile| ==> byFile[i] == Project(changes[..k], i)
      {
        var (i, j) := changes[k];
        assert InRange(tokenLists, changes[k]);
        ghost var upto := changes[..k + 1];
        assert upto[..|upto| - 1] == changes[..k] && upto[|upto| - 1] == (i, j);
        byFile := byFile[i := byFile[i] + [j]];
      }
      assert changes[..|changes|] == changes;
      files := [];
      for i := 0 to |tokenLists|
        invariant files == Chosen(tokenLists, changes)[..i]
      {
        ProjectInRange(tokenLists, changes, i);
        var tokens, indices := tokenLists[i], byFile[i];
        var f := [];
        for k := 0 to |indices|
          invariant f == Pick(tokens, indices)[..k]
        {
          assert indices[k] in indices;
          f := f + [tokens[indices[k]]];
        }
        assert f == Chosen(tokenLists, changes)[i];
        files := files + [f];
      }
    }

    /** Returns false when the program fails on the unreduced files. Otherwise
        the target files hold tokens of the original files in order, the
        program succeeds on them, and it fails when any one token is dropped. */
    method Run() returns (ok: bool, res: seq<Change>)
      modifies this
      ensures ok <==> program(tokenLists)
      ensures ok ==> Sublist(res, AllChanges(tokenLists, |tokenLists|))
      ensures ok ==> (forall c :: c in res ==> InRange(tokenLists, c)) && targetFiles == Chosen(tokenLists, res)
      ensures ok ==> program(targetFiles)
      ensures ok ==> forall i :: 0 <= i < |res| ==> !program(Chosen(tokenLists, Without(res, i)))
      ensures ok ==> forall i :: 0 <= i < |tokenLists| ==> Sublist(targetFiles[i], tokenLists[i])
      ensures ok ==> forall i: nat, k: nat :: i < |targetFiles| && k < |targetFiles[i]| ==> !program(WithoutToken(targetFiles, i, k))
    {
      var all := AllChanges(tokenLists, |tokenLists|);
      AllChangesDistinct(tokenLists, |tokenLists|);
      AllChangesInRange(tokenLists, |tokenLists|);
      WholeIsUnchanged(tokenLists);
      var lists, prog := tokenLists, program;
      var test := (changes: seq<Change>) => (forall c :: c in changes ==> InRange(lists, c)) && prog(Chosen(lists, changes));
      var delta := new DeltaAlgorithm<Change>(test);
      var outcome := delta.Run(all, false);
      if outcome.InitialTestFails? {
        return false, [];
      }
      res := outcome.changes;
      targetFiles := WriteFiles(res);
      forall i | 0 <= i < |tokenLists| ensures Sublist(targetFiles[i], tokenLists[i]) {
        ChosenKeepsOrder(tokenLists, res, i);
      }
      forall i: nat, k: nat | i < |targetFiles| && k < |targetFiles[i]| ensures !program(WithoutToken(targetFiles, i, k)) {
        var m := TokenOfChange(tokenLists, res, i, k);
      }
      return true, res;
    }
  }

  lemma WholeIsUnchanged(lists: TokenLists)
    ensures forall c :: c in AllChanges(lists, |lists|) ==> InRange(lists, c)
    ensures Chosen(lists, AllChanges(lists, |lists|)) == lists
  {
    var all := AllChanges(lists, |lists|);
    AllChangesInRange(lists, |lists|);
    SublistRefl(all);
    forall i | 0 <= i < |lists| ensures Chosen(lists, all)[i] == lists[i] {
      ChosenKeepsOrder(lists, all, i);
    }
  }
}
