/** Rewriting NSAutoreleasePool variables as @autoreleasepool blocks
    (TransAutoreleasePool.cpp). */
module AutoreleasePools {
  import opened Wrappers

  type Var = nat

  /** A declared name, by its declaration. */
  type Name = nat

  /** What a child of a compound statement is to the pool matcher. */
  datatype Role =
    | PoolDeclaration(v: Var, created: bool)
    | PoolAssignment(v: Var)
    | PoolDrain(v: Var)
    | SimpleReturn
    | OtherStmt
  {
    /** The statement makes a new pool for a variable. */
    predicate Creates() { PoolAssignment? || (PoolDeclaration? && created) }
  }

  /** A statement with the names it declares and refers to, at any depth, and
      the compound statements inside it. */
  datatype Stmt = Stmt(role: Role, declares: set<Name>, refers: set<Name>, blocks: seq<Compound>)

  datatype Compound = Compound(body: Block)

  type Block = seq<Stmt>

  datatype PoolScope = PoolScope(poolVar: Var, begin: nat, end: nat, followedByReturn: bool)

  /** A pool that has been created and not yet drained. */
  datatype OpenPool = OpenPool(poolVar: Var, begin: nat)

  // ----- What the matcher finds -----

  datatype Scan = Scan(open: seq<OpenPool>, closed: seq<PoolScope>)

  function FollowedByReturn(block: Block, end: nat): bool {
    end + 1 < |block| && block[end + 1].role.SimpleReturn?
  }

  /** A name declared from `begin` up to the drain at `end` is used after it. A
      return that is pulled into the scope does not count. */
  predicate NameLeaks(block: Block, begin: nat, end: nat)
    requires begin <= end < |block|
  {
    exists i, j :: begin <= i < end && (if FollowedByReturn(block, end) then end + 1 else end) < j < |block|
                   && block[i].declares * block[j].refers != {}
  }

  /** The matcher's stack, and the scopes it has closed, after n children. */
  function ScanUpto(block: Block, n: nat): Scan
    requires n <= |block|
  {
    if n == 0 then Scan([], []) else Advance(block, n - 1, ScanUpto(block, n - 1))
  }

  function Advance(block: Block, i: nat, before: Scan): Scan
    requires i < |block|
  {
    var role := block[i].role;
    if role.Creates() then before.(open := before.open + [OpenPool(role.v, i)])
    else if role.PoolDrain? && before.open != [] && before.open[|before.open| - 1].poolVar == role.v then
      Scan(before.open[..|before.open| - 1],
           before.closed + [PoolScope(role.v, before.open[|before.open| - 1].begin, i, FollowedByReturn(block, i))])
    else before
  }

  /** The closed scopes that do not let a name out. */
  function Recorded(block: Block, n: nat): set<PoolScope>
    requires n <= |block|
  {
    set s | s in ScanUpto(block, n).closed && s.begin <= s.end < |block| && !NameLeaks(block, s.begin, s.end)
  }

  // ----- The shape of the scopes -----

  ghost predicate ScopeOf(block: Block, s: PoolScope) {
    && s.begin < s.end < |block|
    && block[s.begin].role.Creates() && block[s.begin].role.v == s.poolVar
    && block[s.end].role == PoolDrain(s.poolVar)
    && s.followedByReturn == FollowedByReturn(block, s.end)
  }

  /** Two scopes share no endpoint and are disjoint or nested. */
  ghost predicate Compatible(s: PoolScope, t: PoolScope) {
    s.end < t.begin || t.end < s.begin || (s.begin < t.begin && t.end < s.end) || (t.begin < s.begin && s.end < t.end)
  }

  ghost predicate Scopes(block: Block, scopes: set<PoolScope>) {
    && (forall s :: s in scopes ==> ScopeOf(block, s))
    && (forall s, t :: s in scopes && t in scopes && s != t ==> Compatible(s, t))
  }

  ghost predicate IsOpenPool(block: Block, n: nat, p: OpenPool)
    requires n <= |block|
  {
    p.begin < n && block[p.begin].role.Creates() && block[p.begin].role.v == p.poolVar
  }

  /** The open pools lie around or after every closed scope. */
  ghost predicate ScanInvariant(block: Block, n: nat, scan: Scan)
    requires n <= |block|
  {
    && (forall k :: 0 <= k < |scan.open| ==> IsOpenPool(block, n, scan.open[k]))
    && (forall k, l :: 0 <= k < l < |scan.open| ==> scan.open[k].begin < scan.open[l].begin)
    && (forall s :: s in scan.closed ==> ScopeOf(block, s) && s.end < n)
    && (forall k, l :: 0 <= k < l < |scan.closed| ==> Compatible(scan.closed[k], scan.closed[l]))
    && (forall k, s :: 0 <= k < |scan.open| && s in scan.closed ==>
          scan.open[k].begin < s.begin || s.end < scan.open[k].begin)
  }

  lemma {:induction false} ScanKeepsInvariant(block: Block, n: nat)
    requires n <= |block|
    ensures ScanInvariant(block, n, ScanUpto(block, n))
  {
    if n > 0 {
      var i, before := n - 1, ScanUpto(block, n - 1);
      ScanKeepsInvariant(block, i);
      AdvanceKeepsInvariant(block, i, before);
      assert ScanUpto(block, n) == Advance(block, i, before);
    }
  }

  lemma {:induction false} AdvanceKeepsInvariant(block: Block, i: nat, before: Scan)
    requires i < |block| && ScanInvariant(block, i, before)
    ensures ScanInvariant(block, i + 1, Advance(block, i, before))
  {
    var open := before.open;
    if !block[i].role.Creates() && block[i].role.PoolDrain? && open != [] && open[|open| - 1].poolVar == block[i].role.v {
      var s := PoolScope(open[|open| - 1].poolVar, open[|open| - 1].begin, i, FollowedByReturn(block, i));
      assert IsOpenPool(block, i, open[|open| - 1]);
      ClosingKeepsInvariant(block, i, before, s);
    }
  }

  lemma {:induction false} ClosingKeepsInvariant(block: Block, i: nat, before: Scan, s: PoolScope)
    requires i < |block| && ScanInvariant(block, i, before) && before.open != []
    requires ScopeOf(block, s) && s.end == i && s.begin == before.open[|before.open| - 1].begin
    ensures ScanInvariant(block, i + 1, Scan(before.open[..|before.open| - 1], before.closed + [s]))
  {
    forall k | 0 <= k < |before.closed| ensures Compatible(before.closed[k], s) {
      assert before.closed[k] in before.closed;
    }
  }

  /** What is recorded for a compound statement is laminar: scopes begin before
      they end, share no endpoints, and are nested or disjoint. */
  lemma {:induction false} RecordedAreScopes(block: Block)
    ensures Scopes(block, Recorded(block, |block|))
  {
    ScanKeepsInvariant(block, |block|);
    var closed := ScanUpto(block, |block|).closed;
    forall s, t | s in closed && t in closed && s != t ensures Compatible(s, t) {
      var k :| 0 <= k < |closed| && closed[k] == s;
      var l :| 0 <= l < |closed| && closed[l] == t;
      assert Compatible(closed[if k < l then k else l], closed[if k < l then l else k]);
    }
  }

  ghost predicate IsOpen(scan: Scan, c: nat) {
    exists k :: 0 <= k < |scan.open| && scan.open[k].begin == c
  }

  ghost predicate IsClosed(scan: Scan, c: nat) {
    exists s :: s in scan.closed && s.begin == c
  }

  /** Every pool that was created is still open or was closed. */
  lemma {:induction false} PoolsAreAccounted(block: Block, n: nat, c: nat)
    requires c < n <= |block| && block[c].role.Creates()
    ensures IsOpen(ScanUpto(block, n), c) || IsClosed(ScanUpto(block, n), c)
  {
    var before, after := ScanUpto(block, n - 1), ScanUpto(block, n);
    if c == n - 1 {
      assert after.open[|before.open|].begin == c;
    } else {
      PoolsAreAccounted(block, n - 1, c);
      if IsClosed(before, c) {
        var s :| s in before.closed && s.begin == c;
        assert s in after.closed;
      } else {
        var k :| 0 <= k < |before.open| && before.open[k].begin == c;
        if k < |after.open| {
          assert after.open[k].begin == c;
        } else {
          assert after.closed[|before.closed|].begin == c;
        }
      }
    }
  }

  /** A drain closes the innermost pool: every pool created inside a scope has
      been closed inside it. */
  lemma {:induction false} InnerPoolsAreClosed(block: Block, i: nat, c: nat)
    requires i < |block| && |ScanUpto(block, i + 1).closed| > |ScanUpto(block, i).closed|
    requires ScanUpto(block, i + 1).closed[|ScanUpto(block, i).closed|].begin < c < i && block[c].role.Creates()
    ensures IsClosed(ScanUpto(block, i), c)
  {
    PoolsAreAccounted(block, i, c);
    ScanKeepsInvariant(block, i);
    assert !IsOpen(ScanUpto(block, i), c);
  }

  // ----- Exactly which scopes are closed -----

  ghost predicate ClosedScope(scan: Scan, b: nat, e: nat) {
    exists s :: s in scan.closed && s.begin == b && s.end == e
  }

  /** What is closed after all children with an end among the first n was closed
      by them. */
  lemma {:induction false} ClosedStays(block: Block, n: nat, m: nat, b: nat, e: nat)
    requires n <= m <= |block|
    ensures ClosedScope(ScanUpto(block, n), b, e) <==> e < n && ClosedScope(ScanUpto(block, m), b, e)
    decreases m - n
  {
    ScanKeepsInvariant(block, n);
    if n < m {
      ClosedNext(block, n, b, e);
      ClosedStays(block, n + 1, m, b, e);
    }
  }

  lemma {:induction false} ClosedNext(block: Block, i: nat, b: nat, e: nat)
    requires i < |block|
    ensures e != i ==> (ClosedScope(ScanUpto(block, i + 1), b, e) <==> ClosedScope(ScanUpto(block, i), b, e))
  {
    var before, after := ScanUpto(block, i), ScanUpto(block, i + 1);
    if ClosedScope(before, b, e) {
      var s :| s in before.closed && s.begin == b && s.end == e;
      assert s in after.closed;
    }
    if ClosedScope(after, b, e) && e != i {
      var s :| s in after.closed && s.begin == b && s.end == e;
      assert s in before.closed;
    }
  }

  /** A pool that was created is open exactly if it was not closed. */
  lemma {:induction false} OpenOrClosed(block: Block, n: nat, c: nat)
    requires c < n <= |block| && block[c].role.Creates()
    ensures IsOpen(ScanUpto(block, n), c) <==> !IsClosed(ScanUpto(block, n), c)
  {
    PoolsAreAccounted(block, n, c);
    ScanKeepsInvariant(block, n);
  }

  /** Child e closes the pool created at b exactly if it drains its variable, the
      pool has not been closed, and all pools created behind it have. */
  lemma {:induction false} ClosedHere(block: Block, b: nat, e: nat)
    requires b < e < |block|
    ensures ClosedScope(ScanUpto(block, e + 1), b, e) <==>
            && block[b].role.Creates() && block[e].role == PoolDrain(block[b].role.v)
            && !IsClosed(ScanUpto(block, e), b)
            && forall c :: b < c < e && block[c].role.Creates() ==> IsClosed(ScanUpto(block, e), c)
  {
    var before, after := ScanUpto(block, e), ScanUpto(block, e + 1);
    ScanKeepsInvariant(block, e);
    forall c: nat | c < e && block[c].role.Creates() ensures IsOpen(before, c) <==> !IsClosed(before, c) {
      OpenOrClosed(block, e, c);
    }
    if ClosedScope(after, b, e) {
      var s :| s in after.closed && s.begin == b && s.end == e;
      var top := before.open[|before.open| - 1];
      assert s !in before.closed && top.begin == b;
      assert IsOpenPool(block, e, top) && IsOpen(before, b);
    }
    if && block[b].role.Creates() && block[e].role == PoolDrain(block[b].role.v) && !IsClosed(before, b)
       && forall c :: b < c < e && block[c].role.Creates() ==> IsClosed(before, c) {
      var k :| 0 <= k < |before.open| && before.open[k].begin == b;
      var top := before.open[|before.open| - 1];
      assert IsOpenPool(block, e, top) && IsOpenPool(block, e, before.open[k]) && IsOpen(before, top.begin);
      assert top.begin == b;
      assert after.closed[|before.closed|].begin == b;
    }
  }

  /** The scopes of a compound statement, told without a stack: a drain closes the
      last pool of its variable that was not closed before it, provided that all
      pools created in between were. */
  lemma {:induction false} ClosedExactly(block: Block, b: nat, e: nat)
    requires b < e < |block|
    ensures var all := ScanUpto(block, |block|);
            ClosedScope(all, b, e) <==>
            && block[b].role.Creates() && block[e].role == PoolDrain(block[b].role.v)
            && (forall d :: b < d < e ==> !ClosedScope(all, b, d))
            && forall c :: b < c < e && block[c].role.Creates() ==> exists d :: c < d < e && ClosedScope(all, c, d)
  {
    ClosedHere(block, b, e);
    ClosedStays(block, e + 1, |block|, b, e);
    ClosedBefore(block, b, e);
    forall c | b < c < e ensures IsClosed(ScanUpto(block, e), c) <==> exists d :: c < d < e && ClosedScope(ScanUpto(block, |block|), c, d) {
      ClosedBefore(block, c, e);
    }
  }

  /** What is noted of a closed scope is so. */
  lemma {:induction false} ClosedIsNoted(block: Block, s: PoolScope)
    requires s in ScanUpto(block, |block|).closed
    ensures s.begin < s.end < |block| && block[s.end].role == PoolDrain(s.poolVar)
    ensures s.followedByReturn <==> s.end + 1 < |block| && block[s.end + 1].role.SimpleReturn?
  {
    ScanKeepsInvariant(block, |block|);
  }

  lemma {:induction false} ClosedBefore(block: Block, c: nat, e: nat)
    requires c < e < |block|
    ensures IsClosed(ScanUpto(block, e), c) <==> exists d :: c < d < e && ClosedScope(ScanUpto(block, |block|), c, d)
  {
    ScanKeepsInvariant(block, e);
    if IsClosed(ScanUpto(block, e), c) {
      var s :| s in ScanUpto(block, e).closed && s.begin == c;
      assert ScopeOf(block, s) && ClosedScope(ScanUpto(block, e), c, s.end);
      ClosedStays(block, e, |block|, c, s.end);
    }
    if d :| c < d < e && ClosedScope(ScanUpto(block, |block|), c, d) {
      ClosedStays(block, e, |block|, c, d);
    }
  }

  // ----- Braces -----

  datatype Brace = Open(scope: PoolScope) | Close(scope: PoolScope)

  /** Where braces go: 2i is in front of child i, 2i + 1 behind it. A return
      behind the drain is pulled into the scope. */
  function OpenAt(s: PoolScope): nat { 2 * s.begin }

  function CloseAt(s: PoolScope): nat { if s.followedByReturn then 2 * s.end + 3 else 2 * s.end }

  /** A stretch of the emitted text, as far as braces go. */
  datatype Text = Nothing | Single(brace: Brace) | Then(first: Text, second: Text) {
    function Braces(): seq<Brace> {
      match this
      case Nothing => []
      case Single(brace) => [brace]
      case Then(first, second) => first.Braces() + second.Braces()
    }
  }

  /** The brace at a place, if any. */
  ghost function BraceAt(scopes: set<PoolScope>, p: nat): Text {
    if s :| s in scopes && OpenAt(s) == p then Single(Open(s))
    else if s :| s in scopes && CloseAt(s) == p then Single(Close(s))
    else Nothing
  }

  /** The scopes of a compound statement whose variable is rewritten. */
  function Chosen(block: Block, vars: set<Var>): set<PoolScope> {
    set s | s in Recorded(block, |block|) && s.poolVar in vars
  }

  /** The text of a child: what is inside it, between the braces in front of it
      and behind it. */
  ghost function ChildText(scopes: set<PoolScope>, i: nat, inside: Text): Text {
    Then(BraceAt(scopes, 2 * i), Then(inside, BraceAt(scopes, 2 * i + 1)))
  }

  /** The text of the first n children of a compound statement. */
  ghost function TextUpto(block: Block, vars: set<Var>, n: nat): Text
    requires n <= |block|
    decreases block, n
  {
    if n == 0 then Nothing
    else Then(TextUpto(block, vars, n - 1),
              ChildText(Chosen(block, vars), n - 1, TextInside(block[n - 1].blocks, vars)))
  }

  ghost function TextInside(blocks: seq<Compound>, vars: set<Var>): Text
    decreases blocks, 0
  {
    if blocks == [] then Nothing
    else Then(TextUpto(blocks[0].body, vars, |blocks[0].body|), TextInside(blocks[1..], vars))
  }

  // ----- Balance -----

  /** Reads braces with a stack; a closing brace must belong to the scope that
      was opened last. */
  ghost function Match(stack: seq<PoolScope>, braces: seq<Brace>): Option<seq<PoolScope>>
    decreases braces
  {
    if braces == [] then Some(stack)
    else match braces[0]
      case Open(s) => Match(stack + [s], braces[1..])
      case Close(s) =>
        if stack != [] && stack[|stack| - 1] == s then Match(stack[..|stack| - 1], braces[1..]) else None
  }

  lemma {:induction false} MatchSplits(stack: seq<PoolScope>, a: seq<Brace>, b: seq<Brace>)
    requires Match(stack, a).Some?
    ensures Match(stack, a + b) == Match(Match(stack, a).value, b)
    decreases a
  {
    if a == [] {
      assert a + b == b;
    } else {
      assert (a + b)[1..] == a[1..] + b;
      match a[0]
      case Open(s) => MatchSplits(stack + [s], a[1..], b);
      case Close(s) => MatchSplits(stack[..|stack| - 1], a[1..], b);
    }
  }

  /** Reads a text piece by piece. */
  ghost function Parse(stack: seq<PoolScope>, text: Text): Option<seq<PoolScope>>
    decreases text
  {
    match text
    case Nothing => Some(stack)
    case Single(Open(s)) => Some(stack + [s])
    case Single(Close(s)) =>
      if stack != [] && stack[|stack| - 1] == s then Some(stack[..|stack| - 1]) else None
    case Then(first, second) =>
      var r := Parse(stack, first);
      if r.None? then None else Parse(r.value, second)
  }

  lemma {:induction false} ParsingIsMatching(stack: seq<PoolScope>, text: Text)
    requires Parse(stack, text).Some?
    ensures Match(stack, text.Braces()) == Parse(stack, text)
    decreases text
  {
    match text
    case Nothing =>
    case Single(brace) =>
      assert [brace][1..] == [];
    case Then(first, second) =>
      ParsingIsMatching(stack, first);
      ParsingIsMatching(Parse(stack, first).value, second);
      MatchSplits(stack, first.Braces(), second.Braces());
  }

  /** The places of the braces are distinct and do not cross. */
  ghost predicate Placed(scopes: set<PoolScope>) {
    && (forall s :: s in scopes ==> OpenAt(s) < CloseAt(s))
    && (forall s, t :: s in scopes && t in scopes && s != t ==>
          (CloseAt(s) < OpenAt(t) || CloseAt(t) < OpenAt(s) ||
           (OpenAt(s) < OpenAt(t) && CloseAt(t) < CloseAt(s)) ||
           (OpenAt(t) < OpenAt(s) && CloseAt(s) < CloseAt(t))))
  }

  ghost predicate Within(scopes: set<PoolScope>, n: nat) {
    forall s :: s in scopes ==> CloseAt(s) < 2 * n
  }

  /** Pulling a return into some scopes keeps them from crossing: the return is
      neither the begin nor the end of another scope. */
  lemma {:induction false} ScopesArePlaced(block: Block, scopes: set<PoolScope>)
    requires Scopes(block, scopes)
    ensures Placed(scopes) && Within(scopes, |block|)
  {
    forall s, t | s in scopes && t in scopes && s != t
      ensures CloseAt(s) < OpenAt(t) || CloseAt(t) < OpenAt(s) ||
              (OpenAt(s) < OpenAt(t) && CloseAt(t) < CloseAt(s)) ||
              (OpenAt(t) < OpenAt(s) && CloseAt(s) < CloseAt(t))
    {
      assert Compatible(s, t) && ScopeOf(block, s) && ScopeOf(block, t);
    }
  }

  /** Every rewritten scope gets its two braces, where they belong. */
  lemma {:induction false} EveryScopeIsBraced(scopes: set<PoolScope>, s: PoolScope)
    requires Placed(scopes) && s in scopes
    ensures BraceAt(scopes, OpenAt(s)) == Single(Open(s))
    ensures BraceAt(scopes, CloseAt(s)) == Single(Close(s))
  {
  }

  /** The scopes that are open in front of a place, outermost first. */
  ghost predicate OpenScopes(scopes: set<PoolScope>, p: nat, stack: seq<PoolScope>) {
    && (forall k, l :: 0 <= k < l < |stack| ==> OpenAt(stack[k]) < OpenAt(stack[l]))
    && (forall s :: s in stack <==> s in scopes && OpenAt(s) < p <= CloseAt(s))
  }

  /** Reading the brace at a place moves the open scopes one place on. */
  lemma {:induction false} PlaceStep(scopes: set<PoolScope>, p: nat, base: seq<PoolScope>, stack: seq<PoolScope>) returns (next: seq<PoolScope>)
    requires Placed(scopes) && OpenScopes(scopes, p, stack)
    ensures OpenScopes(scopes, p + 1, next)
    ensures Parse(base + stack, BraceAt(scopes, p)) == Some(base + next)
  {
    if s :| s in scopes && OpenAt(s) == p {
      EveryScopeIsBraced(scopes, s);
      next := stack + [s];
      PushedIsOpen(scopes, p, stack, s);
      PushedOnBase(base, stack, s);
    } else if s :| s in scopes && CloseAt(s) == p {
      EveryScopeIsBraced(scopes, s);
      ClosedIsLast(scopes, p, stack, s);
      next := stack[..|stack| - 1];
      PoppedIsOpen(scopes, p, stack, s);
      PoppedFromBase(base, stack);
    } else {
      next := stack;
    }
  }

  lemma {:induction false} PushedOnBase<T>(base: seq<T>, stack: seq<T>, s: T)
    ensures base + stack + [s] == base + (stack + [s])
  {
  }

  lemma {:induction false} PoppedFromBase<T>(base: seq<T>, stack: seq<T>)
    requires stack != []
    ensures (base + stack)[|base + stack| - 1] == stack[|stack| - 1]
    ensures (base + stack)[..|base + stack| - 1] == base + stack[..|stack| - 1]
  {
  }

  lemma {:induction false} PushedIsOpen(scopes: set<PoolScope>, p: nat, stack: seq<PoolScope>, s: PoolScope)
    requires Placed(scopes) && OpenScopes(scopes, p, stack) && s in scopes && OpenAt(s) == p
    ensures OpenScopes(scopes, p + 1, stack + [s])
  {
    assert forall k :: 0 <= k < |stack| ==> stack[k] in stack;
  }

  lemma {:induction false} ClosedIsLast(scopes: set<PoolScope>, p: nat, stack: seq<PoolScope>, s: PoolScope)
    requires Placed(scopes) && OpenScopes(scopes, p, stack) && s in scopes && CloseAt(s) == p
    ensures stack != [] && stack[|stack| - 1] == s
  {
    assert s in stack;
    var k :| 0 <= k < |stack| && stack[k] == s;
    var t := stack[|stack| - 1];
    assert t in stack;
  }

  lemma {:induction false} PoppedIsOpen(scopes: set<PoolScope>, p: nat, stack: seq<PoolScope>, s: PoolScope)
    requires Placed(scopes) && OpenScopes(scopes, p, stack) && s in scopes && CloseAt(s) == p
    requires stack != [] && stack[|stack| - 1] == s
    ensures OpenScopes(scopes, p + 1, stack[..|stack| - 1])
  {
    var next := stack[..|stack| - 1];
    assert stack == next + [s];
    assert s !in next;
  }

  lemma {:induction false} ChosenArePlaced(block: Block, vars: set<Var>)
    ensures Placed(Chosen(block, vars)) && Within(Chosen(block, vars), |block|)
  {
    RecordedAreScopes(block);
    ScopesArePlaced(block, Chosen(block, vars));
  }

  /** Up to any child, the braces leave the scopes open that reach beyond it. */
  lemma {:induction false} ParseUpto(block: Block, vars: set<Var>, n: nat, base: seq<PoolScope>) returns (stack: seq<PoolScope>)
    requires n <= |block|
    ensures OpenScopes(Chosen(block, vars), 2 * n, stack)
    ensures Parse(base, TextUpto(block, vars, n)) == Some(base + stack)
    decreases block, n, 0
  {
    if n == 0 {
      stack := [];
      ChosenArePlaced(block, vars);
      assert base + [] == base;
    } else {
      stack := ParseNext(block, vars, n - 1, base);
    }
  }

  lemma {:induction false} ParseNext(block: Block, vars: set<Var>, i: nat, base: seq<PoolScope>) returns (stack: seq<PoolScope>)
    requires i < |block|
    ensures OpenScopes(Chosen(block, vars), 2 * (i + 1), stack)
    ensures Parse(base, TextUpto(block, vars, i + 1)) == Some(base + stack)
    decreases block, i, 1
  {
    var before := ParseUpto(block, vars, i, base);
    forall open ensures Parse(open, TextInside(block[i].blocks, vars)) == Some(open) {
      ParseInside(block[i].blocks, vars, open);
    }
    ChosenArePlaced(block, vars);
    TextNext(block, vars, i);
    stack := ParseAround(Chosen(block, vars), i, base, TextUpto(block, vars, i), TextInside(block[i].blocks, vars), before);
  }

  /** Reads a child between the braces in front of it and behind it. */
  lemma {:induction false} ParseAround(scopes: set<PoolScope>, i: nat, base: seq<PoolScope>, front: Text, inside: Text,
                                       before: seq<PoolScope>) returns (stack: seq<PoolScope>)
    requires Placed(scopes) && OpenScopes(scopes, 2 * i, before) && Parse(base, front) == Some(base + before)
    requires forall open :: Parse(open, inside) == Some(open)
    ensures OpenScopes(scopes, 2 * (i + 1), stack)
    ensures Parse(base, Then(front, Then(BraceAt(scopes, 2 * i), Then(inside, BraceAt(scopes, 2 * i + 1))))) == Some(base + stack)
  {
    var inner := PlaceStep(scopes, 2 * i, base, before);
    stack := PlaceStep(scopes, 2 * i + 1, base, inner);
    ParseChild(base, front, BraceAt(scopes, 2 * i), inside, BraceAt(scopes, 2 * i + 1), base + before, base + inner, base + stack);
  }

  lemma {:induction false} TextNext(block: Block, vars: set<Var>, i: nat)
    requires i < |block|
    ensures TextUpto(block, vars, i + 1) ==
            Then(TextUpto(block, vars, i),
                 Then(BraceAt(Chosen(block, vars), 2 * i),
                      Then(TextInside(block[i].blocks, vars), BraceAt(Chosen(block, vars), 2 * i + 1))))
  {
  }

  lemma {:induction false} ParseChild(start: seq<PoolScope>, a: Text, b: Text, c: Text, d: Text,
                   s1: seq<PoolScope>, s2: seq<PoolScope>, s3: seq<PoolScope>)
    requires Parse(start, a) == Some(s1) && Parse(s1, b) == Some(s2)
    requires Parse(s2, c) == Some(s2) && Parse(s2, d) == Some(s3)
    ensures Parse(start, Then(a, Then(b, Then(c, d)))) == Some(s3)
  {
    assert Parse(s2, Then(c, d)) == Some(s3);
    assert Parse(s1, Then(b, Then(c, d))) == Some(s3);
  }

  lemma {:induction false} ParseInside(blocks: seq<Compound>, vars: set<Var>, base: seq<PoolScope>)
    ensures Parse(base, TextInside(blocks, vars)) == Some(base)
    decreases blocks, 0
  {
    if blocks != [] {
      var body := blocks[0].body;
      var stack := ParseUpto(body, vars, |body|, base);
      ChosenArePlaced(body, vars);
      AllClosed(Chosen(body, vars), |body|, stack);
      assert base + [] == base;
      ParseInside(blocks[1..], vars, base);
    }
  }

  lemma {:induction false} AllClosed(scopes: set<PoolScope>, n: nat, stack: seq<PoolScope>)
    requires Within(scopes, n) && OpenScopes(scopes, 2 * n, stack)
    ensures stack == []
  {
    FirstIsMember(stack);
  }

  lemma {:induction false} FirstIsMember<T>(s: seq<T>)
    ensures s != [] ==> s[0] in s
  {
  }

  /** For any subset of the pool variables, the braces the rewriter emits for a
      whole function body are balanced, and every closing brace closes the scope
      that the matching opening brace opened. */
  lemma {:induction false} EmittedBracesBalance(block: Block, vars: set<Var>)
    ensures Match([], TextUpto(block, vars, |block|).Braces()) == Some([])
  {
    var stack := ParseUpto(block, vars, |block|, []);
    ChosenArePlaced(block, vars);
    AllClosed(Chosen(block, vars), |block|, stack);
    assert [] + stack == [];
    ParsingIsMatching([], TextUpto(block, vars, |block|));
  }

  /** Around child i just those chosen scopes are open that begin at it or before it
      and end behind it, and those that pull it in as their return, or as the drain
      in front of it. */
  lemma {:induction false} OpenAroundChild(block: Block, vars: set<Var>, i: nat) returns (stack: seq<PoolScope>)
    requires i < |block|
    ensures Match([], Then(TextUpto(block, vars, i), BraceAt(Chosen(block, vars), 2 * i)).Braces()) == Some(stack)
    ensures forall k, l :: 0 <= k < l < |stack| ==> stack[k].begin < stack[l].begin
    ensures forall s :: s in stack <==>
              ToRewrite(block, vars, s) && (s.begin <= i < s.end || (s.followedByReturn && s.end <= i <= s.end + 1))
  {
    var scopes := Chosen(block, vars);
    var before := ParseUpto(block, vars, i, []);
    ChosenArePlaced(block, vars);
    stack := PlaceStep(scopes, 2 * i, [], before);
    assert [] + before == before && [] + stack == stack;
    var text := Then(TextUpto(block, vars, i), BraceAt(scopes, 2 * i));
    assert Parse([], text) == Some(stack);
    ParsingIsMatching([], text);
    forall s ensures s in scopes <==> ToRewrite(block, vars, s) {
      RecordedAreListed(block, s);
    }
  }

  // ----- Every brace is there, and no other -----

  /** How often a brace occurs in a text. */
  function Occurrences(text: Text, b: Brace): nat {
    match text
    case Nothing => 0
    case Single(brace) => if brace == b then 1 else 0
    case Then(first, second) => Occurrences(first, b) + Occurrences(second, b)
  }

  lemma {:induction false} OccurrencesCount(text: Text, b: Brace)
    ensures Occurrences(text, b) == multiset(text.Braces())[b]
  {
    match text
    case Nothing =>
    case Single(brace) =>
    case Then(first, second) =>
      OccurrencesCount(first, b);
      OccurrencesCount(second, b);
      assert multiset(text.Braces()) == multiset(first.Braces()) + multiset(second.Braces());
  }

  /** The scope is in the list of its variable, and that is to be rewritten. */
  predicate ToRewrite(block: Block, vars: set<Var>, s: PoolScope) {
    s.poolVar in vars && s in RecordedFor(block, ScanUpto(block, |block|).closed, s.poolVar)
  }

  /** How many compound statements at any depth have a scope like s to rewrite. */
  ghost function HowMany(block: Block, vars: set<Var>, s: PoolScope): nat
    decreases block, |block| + 1
  {
    (if ToRewrite(block, vars, s) then 1 else 0) + HowManyUpto(block, vars, s, |block|)
  }

  ghost function HowManyUpto(block: Block, vars: set<Var>, s: PoolScope, n: nat): nat
    requires n <= |block|
    decreases block, n
  {
    if n == 0 then 0
    else HowManyUpto(block, vars, s, n - 1) + HowManyInside(block[n - 1].blocks, vars, s)
  }

  ghost function HowManyInside(blocks: seq<Compound>, vars: set<Var>, s: PoolScope): nat
    decreases blocks, 0
  {
    if blocks == [] then 0 else HowMany(blocks[0].body, vars, s) + HowManyInside(blocks[1..], vars, s)
  }

  lemma {:induction false} BracesUpto(block: Block, vars: set<Var>, s: PoolScope, n: nat)
    requires n <= |block|
    ensures CountedUpto(block, vars, s, n)
    decreases block, n
  {
    if n > 0 {
      BracesUpto(block, vars, s, n - 1);
      BracesInside(block[n - 1].blocks, vars, s);
      BracesNext(block, vars, s, n - 1);
    }
  }

  ghost predicate CountedUpto(block: Block, vars: set<Var>, s: PoolScope, n: nat)
    requires n <= |block|
  {
    OccursUpto(TextUpto(block, vars, n), Chosen(block, vars), s, 2 * n, HowManyUpto(block, vars, s, n))
  }

  ghost predicate CountedInside(blocks: seq<Compound>, vars: set<Var>, s: PoolScope) {
    var text := TextInside(blocks, vars);
    Occurrences(text, Open(s)) == Occurrences(text, Close(s)) == HowManyInside(blocks, vars, s)
  }

  lemma {:induction false} BracesNext(block: Block, vars: set<Var>, s: PoolScope, i: nat)
    requires i < |block|
    requires CountedUpto(block, vars, s, i) && CountedInside(block[i].blocks, vars, s)
    ensures CountedUpto(block, vars, s, i + 1)
  {
    ChosenArePlaced(block, vars);
    TextNext(block, vars, i);
    HowManyNext(block, vars, s, i);
    BracesAround(TextUpto(block, vars, i), TextInside(block[i].blocks, vars), Chosen(block, vars), s, i,
                 HowManyUpto(block, vars, s, i), HowManyInside(block[i].blocks, vars, s));
  }

  lemma {:induction false} HowManyNext(block: Block, vars: set<Var>, s: PoolScope, i: nat)
    requires i < |block|
    ensures HowManyUpto(block, vars, s, i + 1) == HowManyUpto(block, vars, s, i) + HowManyInside(block[i].blocks, vars, s)
  {
  }

  lemma {:induction false} BracesAround(front: Text, inside: Text, scopes: set<PoolScope>, s: PoolScope, i: nat, m: nat, n: nat)
    requires Placed(scopes) && OccursUpto(front, scopes, s, 2 * i, m)
    requires Occurrences(inside, Open(s)) == Occurrences(inside, Close(s)) == n
    ensures OccursUpto(Then(front, Then(BraceAt(scopes, 2 * i), Then(inside, BraceAt(scopes, 2 * i + 1)))),
                       scopes, s, 2 * (i + 1), m + n)
  {
    BraceOccurs(scopes, 2 * i, s);
    BraceOccurs(scopes, 2 * i + 1, s);
    ChildOccurs(front, BraceAt(scopes, 2 * i), inside, BraceAt(scopes, 2 * i + 1), scopes, s, i, m, n);
  }

  /** The braces of s in front of a place, and those of others like it. */
  ghost predicate OccursUpto(text: Text, scopes: set<PoolScope>, s: PoolScope, p: nat, others: nat) {
    && Occurrences(text, Open(s)) == (if s in scopes && OpenAt(s) < p then 1 else 0) + others
    && Occurrences(text, Close(s)) == (if s in scopes && CloseAt(s) < p then 1 else 0) + others
  }

  lemma {:induction false} ChildOccurs(front: Text, before: Text, inside: Text, behind: Text, scopes: set<PoolScope>, s: PoolScope,
                                       i: nat, m: nat, n: nat)
    requires OccursUpto(front, scopes, s, 2 * i, m) && OccursAt(before, scopes, s, 2 * i) && OccursAt(behind, scopes, s, 2 * i + 1)
    requires Occurrences(inside, Open(s)) == Occurrences(inside, Close(s)) == n
    ensures OccursUpto(Then(front, Then(before, Then(inside, behind))), scopes, s, 2 * (i + 1), m + n)
  {
    OccurrencesAdd(front, before, inside, behind, Open(s));
    OccurrencesAdd(front, before, inside, behind, Close(s));
  }

  ghost predicate OccursAt(text: Text, scopes: set<PoolScope>, s: PoolScope, p: nat) {
    && Occurrences(text, Open(s)) == (if s in scopes && OpenAt(s) == p then 1 else 0)
    && Occurrences(text, Close(s)) == (if s in scopes && CloseAt(s) == p then 1 else 0)
  }

  lemma {:induction false} OccurrencesAdd(a: Text, b: Text, c: Text, d: Text, x: Brace)
    ensures Occurrences(Then(a, Then(b, Then(c, d))), x) ==
            Occurrences(a, x) + Occurrences(b, x) + Occurrences(c, x) + Occurrences(d, x)
  {
    assert Occurrences(Then(b, Then(c, d)), x) == Occurrences(b, x) + Occurrences(Then(c, d), x);
  }

  lemma {:induction false} BraceOccurs(scopes: set<PoolScope>, p: nat, s: PoolScope)
    requires Placed(scopes)
    ensures OccursAt(BraceAt(scopes, p), scopes, s, p)
  {
    if s in scopes { EveryScopeIsBraced(scopes, s); }
  }

  lemma {:induction false} BracesInside(blocks: seq<Compound>, vars: set<Var>, s: PoolScope)
    ensures CountedInside(blocks, vars, s)
    decreases blocks, 0
  {
    if blocks != [] {
      var body := blocks[0].body;
      BracesUpto(body, vars, s, |body|);
      ChosenArePlaced(body, vars);
      RecordedAreListed(body, s);
      BracesInside(blocks[1..], vars, s);
    }
  }

  /** Each scope to rewrite, at whatever depth, gets one opening and one closing
      brace, and there are no other braces. */
  lemma {:induction false} EveryBraceIsEmitted(block: Block, vars: set<Var>, s: PoolScope)
    ensures var braces := multiset(TextUpto(block, vars, |block|).Braces());
            braces[Open(s)] == braces[Close(s)] == HowMany(block, vars, s)
  {
    BracesUpto(block, vars, s, |block|);
    ChosenArePlaced(block, vars);
    RecordedAreListed(block, s);
    OccurrencesCount(TextUpto(block, vars, |block|), Open(s));
    OccurrencesCount(TextUpto(block, vars, |block|), Close(s));
  }

  // ----- The matcher itself -----

  /** The recorded scopes of one variable, in the order they are closed. */
  function RecordedFor(block: Block, closed: seq<PoolScope>, v: Var): seq<PoolScope> {
    if closed == [] then []
    else
      var s := closed[|closed| - 1];
      RecordedFor(block, closed[..|closed| - 1], v) +
      (if s.poolVar == v && s.begin <= s.end < |block| && !NameLeaks(block, s.begin, s.end) then [s] else [])
  }

  /** No name declared in the scope is referred to behind it; behind it does not
      mean in a simple return that comes next. */
  lemma {:induction false} NamesStayInside(block: Block, begin: nat, end: nat)
    requires begin <= end < |block|
    ensures !NameLeaks(block, begin, end) <==>
            forall i, j, x ::
              begin <= i < end < j < |block| && !(j == end + 1 && block[j].role.SimpleReturn?) && x in block[i].declares ==>
              x !in block[j].refers
  {
    if NameLeaks(block, begin, end) {
      var i, j :| begin <= i < end && (if FollowedByReturn(block, end) then end + 1 else end) < j < |block|
                  && block[i].declares * block[j].refers != {};
      var x :| x in block[i].declares * block[j].refers;
      assert x in block[i].declares && x in block[j].refers;
    } else {
      forall i, j, x | begin <= i < end < j < |block| && !(j == end + 1 && block[j].role.SimpleReturn?) && x in block[i].declares
        ensures x !in block[j].refers
      {
        assert (if FollowedByReturn(block, end) then end + 1 else end) < j;
        assert block[i].declares * block[j].refers == {};
        assert x !in block[i].declares * block[j].refers;
      }
    }
  }

  /** The lists of the variables hold exactly the closed scopes that let no
      declared name out. */
  lemma {:induction false} RecordedForMembers(block: Block, closed: seq<PoolScope>, s: PoolScope)
    ensures s in RecordedFor(block, closed, s.poolVar) <==>
            && s in closed && s.begin <= s.end < |block|
            && forall i, j, x ::
                 s.begin <= i < s.end < j < |block| && !(j == s.end + 1 && block[j].role.SimpleReturn?) && x in block[i].declares ==>
                 x !in block[j].refers
    ensures forall v :: v != s.poolVar ==> s !in RecordedFor(block, closed, v)
  {
    if closed != [] {
      var front, last := closed[..|closed| - 1], closed[|closed| - 1];
      RecordedForMembers(block, front, s);
      if last.begin <= last.end < |block| { NamesStayInside(block, last.begin, last.end); }
      assert closed == front + [last];
    }
  }

  /** The scopes that get braces are those in the lists. */
  lemma {:induction false} RecordedAreListed(block: Block, s: PoolScope)
    ensures s in Recorded(block, |block|) <==> s in RecordedFor(block, ScanUpto(block, |block|).closed, s.poolVar)
  {
    RecordedForMembers(block, ScanUpto(block, |block|).closed, s);
    if s.begin <= s.end < |block| { NamesStayInside(block, s.begin, s.end); }
  }

  /** What child i adds to the list of a variable when the given pools are open. */
  function NewAt(block: Block, i: nat, open: seq<OpenPool>, v: Var): seq<PoolScope>
    requires i < |block| && (open != [] ==> open[|open| - 1].begin < i)
  {
    if open != [] && block[i].role == PoolDrain(v) && open[|open| - 1].poolVar == v &&
       !NameLeaks(block, open[|open| - 1].begin, i)
    then [PoolScope(v, open[|open| - 1].begin, i, FollowedByReturn(block, i))] else []
  }

  lemma {:induction false} NewIsRecorded(block: Block, i: nat)
    requires i < |block|
    ensures var open := ScanUpto(block, i).open; open != [] ==> open[|open| - 1].begin < i
    ensures forall v :: RecordedFor(block, ScanUpto(block, i + 1).closed, v) ==
                        RecordedFor(block, ScanUpto(block, i).closed, v) + NewAt(block, i, ScanUpto(block, i).open, v)
  {
    ScanKeepsInvariant(block, i);
    var before, after := ScanUpto(block, i), ScanUpto(block, i + 1);
    if after.closed != before.closed {
      assert after.closed[..|before.closed|] == before.closed;
    }
  }

  function ListOf(lists: map<Var, seq<PoolScope>>, v: Var): seq<PoolScope> {
    if v in lists then lists[v] else []
  }

  /** The lists `now` are the lists `was` with what the first n children record. */
  ghost predicate RecordsUpto(was: map<Var, seq<PoolScope>>, now: map<Var, seq<PoolScope>>, block: Block, n: nat)
    requires n <= |block|
  {
    forall v :: ListOf(now, v) == ListOf(was, v) + RecordedFor(block, ScanUpto(block, n).closed, v)
  }

  lemma {:induction false} RecordsNext(was: map<Var, seq<PoolScope>>, mid: map<Var, seq<PoolScope>>, now: map<Var, seq<PoolScope>>,
                    block: Block, i: nat, open: seq<OpenPool>)
    requires i < |block| && RecordsUpto(was, mid, block, i) && open == ScanUpto(block, i).open
    requires open != [] ==> open[|open| - 1].begin < i
    requires forall v :: ListOf(now, v) == ListOf(mid, v) + NewAt(block, i, open, v)
    ensures RecordsUpto(was, now, block, i + 1)
  {
    NewIsRecorded(block, i);
    var before, after := ScanUpto(block, i).closed, ScanUpto(block, i + 1).closed;
    forall v ensures ListOf(now, v) == ListOf(was, v) + RecordedFor(block, after, v) {
      Appended(ListOf(was, v), ListOf(mid, v), ListOf(now, v), RecordedFor(block, before, v),
               NewAt(block, i, open, v), RecordedFor(block, after, v));
    }
  }

  lemma {:induction false} Appended<T>(a: seq<T>, b: seq<T>, c: seq<T>, p: seq<T>, q: seq<T>, r: seq<T>)
    requires b == a + p && c == b + q && r == p + q
    ensures c == a + r
  {
  }

  lemma {:induction false} OpenedEarlier(block: Block, i: nat)
    requires i < |block|
    ensures var open := ScanUpto(block, i).open; open != [] ==> open[|open| - 1].begin < i
  {
    ScanKeepsInvariant(block, i);
  }

  class AutoreleasePoolRewriter {
    var PoolVars: map<Var, seq<PoolScope>>

    constructor ()
      ensures PoolVars == map[]
    {
      PoolVars := map[];
    }

    method VisitCompoundStmt(block: Block)
      modifies this
      ensures RecordsUpto(old(PoolVars), PoolVars, block, |block|)
    {
      var scopes: seq<OpenPool> := [];
      for i := 0 to |block|
        invariant scopes == ScanUpto(block, i).open
        invariant RecordsUpto(old(PoolVars), PoolVars, block, i)
      {
        OpenedEarlier(block, i);
        ghost var mid := PoolVars;
        scopes := VisitChild(block, i, scopes);
        RecordsNext(old(PoolVars), mid, PoolVars, block, i, ScanUpto(block, i).open);
        assert ScanUpto(block, i) == Scan(ScanUpto(block, i).open, ScanUpto(block, i).closed);
      }
    }

    /** The loop body: works on the stack of open pools. */
    method VisitChild(block: Block, i: nat, open: seq<OpenPool>) returns (scopes: seq<OpenPool>)
      requires i < |block| && (open != [] ==> open[|open| - 1].begin < i)
      modifies this
      ensures forall closed :: scopes == Advance(block, i, Scan(open, closed)).open
      ensures forall v :: ListOf(PoolVars, v) == ListOf(old(PoolVars), v) + NewAt(block, i, open, v)
    {
      scopes := open;
      var role := block[i].role;
      if role.PoolDeclaration? {
        PoolVars := PoolVars[role.v := ListOf(PoolVars, role.v)];
        if role.created {
          scopes := scopes + [OpenPool(role.v, i)];
        }
      } else if role.PoolAssignment? {
        scopes := scopes + [OpenPool(role.v, i)];
      }
      if scopes != [] && role == PoolDrain(scopes[|scopes| - 1].poolVar) {
        HandlePoolScope(block, role.v, scopes[|scopes| - 1].begin, i);
        scopes := scopes[..|scopes| - 1];
      }
    }

    /** Records the scope unless a name declared in it is used after it. */
    method HandlePoolScope(block: Block, v: Var, begin: nat, end: nat)
      requires begin <= end < |block|
      modifies this
      ensures ListOf(PoolVars, v) == ListOf(old(PoolVars), v) +
                if NameLeaks(block, begin, end) then [] else [PoolScope(v, begin, end, FollowedByReturn(block, end))]
      ensures ListOf(PoolVars, v) == ListOf(old(PoolVars), v) <==>
              exists i, j, x ::
                && begin <= i < end < j < |block| && !(j == end + 1 && block[j].role.SimpleReturn?)
                && x in block[i].declares && x in block[j].refers
      ensures ListOf(PoolVars, v) != ListOf(old(PoolVars), v) ==>
              ListOf(PoolVars, v) == ListOf(old(PoolVars), v) +
                [PoolScope(v, begin, end, end + 1 < |block| && block[end + 1].role.SimpleReturn?)]
      ensures forall w :: w != v ==> ListOf(PoolVars, w) == ListOf(old(PoolVars), w)
    {
      NamesStayInside(block, begin, end);
      var followed := false;
      var si := end + 1;
      if si != |block| && block[si].role.SimpleReturn? {
        followed := true;
        si := si + 1;
      }
      ghost var first := si;
      while si != |block|
        invariant first <= si <= |block|
        invariant forall i, j :: begin <= i < end && first <= j < si ==> block[i].declares * block[j].refers == {}
      {
        var sj := begin;
        while sj != end
          invariant begin <= sj <= end
          invariant forall i :: begin <= i < sj ==> block[i].declares * block[si].refers == {}
        {
          if block[sj].declares * block[si].refers != {} {
            assert NameLeaks(block, begin, end);
            return;
          }
          sj := sj + 1;
        }
        si := si + 1;
      }
      PoolVars := PoolVars[v := ListOf(PoolVars, v) + [PoolScope(v, begin, end, followed)]];
    }
  }

  /** The statements to indent: those strictly inside a scope, if any. */
  method GetIndentedRange(s: PoolScope) returns (range: Option<(nat, nat)>)
    requires s.begin < s.end
    ensures range == if s.begin + 1 == s.end then None else Some((s.begin + 1, s.end - 1))
  {
    var rangeS := s.begin + 1;
    if rangeS == s.end {
      return None;
    }
    var rangeE := s.begin;
    var i := rangeS;
    while i != s.end
      invariant rangeS <= i <= s.end && rangeE == s.begin + (i - rangeS)
      decreases s.end - i
    {
      rangeE := rangeE + 1;
      i := i + 1;
    }
    return Some((rangeS, rangeE));
  }
}
