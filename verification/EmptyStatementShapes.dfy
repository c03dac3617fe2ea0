/** Which statements are accepted as empty, and what the remover leaves. */
module EmptyStatementShapes {
  import opened EmptyStatements
  import opened EmptyStatementProofs
  import opened Sequences
  import opened Wrappers

  // ----- Exactly what is accepted -----

  /** The statement and those in it, not counting statement expressions. */
  function Parts(s: Stmt): seq<Stmt>
    decreases s, 1
  {
    [s] + PartsBelow(s)
  }

  function PartsBelow(s: Stmt): seq<Stmt>
    decreases s, 0
  {
    match s
    case Compound(body) => PartsOfAll(body)
    case If(_, _, thn, els) => Parts(thn) + if els.Some? then Parts(els.value) else []
    case While(_, _, body) => Parts(body)
    case Do(body, _) => Parts(body)
    case ForIn(_, _, _, body) => Parts(body)
    case AutoreleasePool(body) => Parts(body)
    case _ => []
  }

  function PartsOfAll(ss: seq<Stmt>): seq<Stmt>
    decreases ss, 0
  {
    if ss == [] then [] else Parts(ss[0]) + PartsOfAll(ss[1..])
  }

  /** Nothing in the statement itself speaks against it. */
  predicate Acceptable(s: Stmt) {
    match s
    case NullStmt(leftover) => leftover
    case Compound(body) => body != []
    case If(conditionVariable, cond, _, _) => !conditionVariable && !MigratorSideEffects(cond)
    case While(conditionVariable, cond, _) => !conditionVariable && !MigratorSideEffects(cond)
    case Do(_, cond) => !MigratorSideEffects(cond)
    case ForIn(_, _, collection, _) => !MigratorSideEffects(collection)
    case AutoreleasePool(_) => true
    case _ => false
  }

  /** Accepted is what consists of acceptable statements only. */
  lemma {:induction false} AcceptedExactly(s: Stmt)
    ensures Empty(s) <==> forall t :: t in Parts(s) ==> Acceptable(t)
    decreases s, 0
  {
    assert (forall t :: t in Parts(s) ==> Acceptable(t)) <==> Acceptable(s) && forall t :: t in PartsBelow(s) ==> Acceptable(t) by {
      assert forall t :: t in Parts(s) <==> t == s || t in PartsBelow(s);
    }
    match s
    case Compound(body) => AllAcceptedExactly(body);
    case If(_, _, thn, els) =>
      AcceptedExactly(thn);
      if els.Some? { AcceptedExactly(els.value); }
    case While(_, _, body) => AcceptedExactly(body);
    case Do(body, _) => AcceptedExactly(body);
    case ForIn(_, _, _, body) => AcceptedExactly(body);
    case AutoreleasePool(body) => AcceptedExactly(body);
    case _ => assert PartsBelow(s) == [];
  }

  lemma {:induction false} AllAcceptedExactly(ss: seq<Stmt>)
    ensures AllEmpty(ss) <==> forall t :: t in PartsOfAll(ss) ==> Acceptable(t)
    decreases ss, 0
  {
    if ss != [] {
      AcceptedExactly(ss[0]);
      AllAcceptedExactly(ss[1..]);
    }
  }

  // ----- Exactly what has side effects -----

  /** The expression and all those in it, with those in statements. */
  function Exprs(e: Expr): seq<Expr>
    decreases e, 0
  {
    [e] +
    match e
    case Binary(_, a, b) => Exprs(a) + Exprs(b)
    case Assign(_, e1) => Exprs(e1)
    case ParenOrCast(e1) => Exprs(e1)
    case Message(_, receiver) => if receiver.Instance? then Exprs(receiver.e) else []
    case StmtExpr(body) => ExprsInAll(body)
    case _ => []
  }

  function ExprsIn(s: Stmt): seq<Expr>
    decreases s, 0
  {
    match s
    case Compound(body) => ExprsInAll(body)
    case If(_, cond, thn, els) => Exprs(cond) + ExprsIn(thn) + if els.Some? then ExprsIn(els.value) else []
    case While(_, cond, body) => Exprs(cond) + ExprsIn(body)
    case Do(body, cond) => ExprsIn(body) + Exprs(cond)
    case ForIn(_, _, collection, body) => Exprs(collection) + ExprsIn(body)
    case AutoreleasePool(body) => ExprsIn(body)
    case ExprStmt(e) => Exprs(e)
    case Return(e) => Exprs(e)
    case _ => []
  }

  function ExprsInAll(ss: seq<Stmt>): seq<Expr>
    decreases ss, 0
  {
    if ss == [] then [] else ExprsIn(ss[0]) + ExprsInAll(ss[1..])
  }

  predicate Acts(e: Expr) { e.Assign? || e.Message? }

  ghost predicate AnyActs(es: seq<Expr>) { exists e :: e in es && Acts(e) }

  lemma {:induction false} ActsConcat(a: seq<Expr>, b: seq<Expr>)
    ensures AnyActs(a + b) <==> AnyActs(a) || AnyActs(b)
  {
    if AnyActs(a) || AnyActs(b) {
      var e :| (e in a || e in b) && Acts(e);
      assert e in a + b;
    }
  }

  /** An expression has side effects exactly if there is an assignment or a message
      in it. */
  lemma {:induction false} EffectsExactly(e: Expr)
    ensures HasSideEffects(e) <==> AnyActs(Exprs(e))
    decreases e, 0
  {
    assert AnyActs([e]) <==> Acts(e) by { assert e in [e]; }
    match e
    case Binary(_, a, b) =>
      EffectsExactly(a);
      EffectsExactly(b);
      ActsConcat(Exprs(a), Exprs(b));
      ActsConcat([e], Exprs(a) + Exprs(b));
    case Assign(_, e1) => ActsConcat([e], Exprs(e1));
    case ParenOrCast(e1) => EffectsExactly(e1); ActsConcat([e], Exprs(e1));
    case Message(_, receiver) => ActsConcat([e], if receiver.Instance? then Exprs(receiver.e) else []);
    case StmtExpr(body) => AllEffectsExactly(body); ActsConcat([e], ExprsInAll(body));
    case _ =>
  }

  lemma {:induction false} StmtEffectsExactly(s: Stmt)
    ensures StmtHasSideEffects(s) <==> AnyActs(ExprsIn(s))
    decreases s, 0
  {
    match s
    case Compound(body) => AllEffectsExactly(body);
    case If(_, cond, thn, els) =>
      EffectsExactly(cond);
      StmtEffectsExactly(thn);
      ActsConcat(Exprs(cond), ExprsIn(thn));
      if els.Some? { StmtEffectsExactly(els.value); }
      ActsConcat(Exprs(cond) + ExprsIn(thn), if els.Some? then ExprsIn(els.value) else []);
    case While(_, cond, body) => EffectsExactly(cond); StmtEffectsExactly(body); ActsConcat(Exprs(cond), ExprsIn(body));
    case Do(body, cond) => EffectsExactly(cond); StmtEffectsExactly(body); ActsConcat(ExprsIn(body), Exprs(cond));
    case ForIn(_, _, collection, body) =>
      EffectsExactly(collection);
      StmtEffectsExactly(body);
      ActsConcat(Exprs(collection), ExprsIn(body));
    case AutoreleasePool(body) => StmtEffectsExactly(body);
    case ExprStmt(e) => EffectsExactly(e);
    case Return(e) => EffectsExactly(e);
    case _ =>
  }

  lemma {:induction false} AllEffectsExactly(ss: seq<Stmt>)
    ensures AnySideEffects(ss) <==> AnyActs(ExprsInAll(ss))
    decreases ss, 0
  {
    if ss != [] {
      StmtEffectsExactly(ss[0]);
      AllEffectsExactly(ss[1..]);
      ActsConcat(ExprsIn(ss[0]), ExprsInAll(ss[1..]));
    }
  }

  predicate Manages(e: Expr) { e.Message? && !e.family.OtherFamily? && !e.receiver.Class? }

  /** What memory management is done to, without parentheses and casts. */
  function Managed(e: Expr): (core: Expr)
    ensures !core.ParenOrCast? && (Manages(core) ==> core.receiver.SuperInstance?)
  {
    match e
    case ParenOrCast(e1) => Managed(e1)
    case Message(_, Instance(e1)) => if Manages(e) then Managed(e1) else e
    case _ => e
  }

  /** To the migrator, memory management on something has the side effects that this
      has, and none on `super`. */
  lemma {:induction false} MigratorEffectsExactly(e: Expr)
    ensures MigratorSideEffects(e) <==> HasSideEffects(Managed(e)) && !Manages(Managed(e))
  {
    match e
    case ParenOrCast(e1) => MigratorEffectsExactly(e1);
    case Message(_, receiver) => if receiver.Instance? { MigratorEffectsExactly(receiver.e); }
    case _ =>
  }

  // ----- Exactly what is removed -----

  /** Children are looked at one by one: an accepted one goes, any other stays where
      it is, and the last one of a statement expression always does. */
  lemma {:induction false} RemovedOneByOne(ss: seq<Stmt>, s: Stmt)
    ensures RemoveEmpty([]) == []
    ensures RemoveEmpty(ss + [s]) == RemoveEmpty(ss) + if Empty(s) then [] else [RemoveIn(s)]
    ensures RemoveAllButLast(ss + [s]) == RemoveEmpty(ss) + [RemoveIn(s)]
    decreases ss
  {
    if ss == [] {
      assert [] + [s] == [s] && [s][1..] == [];
      NothingMore(if Empty(s) then [] else [RemoveIn(s)]);
      NothingMore([RemoveIn(s)]);
    } else {
      var here := if Empty(ss[0]) then [] else [RemoveIn(ss[0])];
      assert (ss + [s])[1..] == ss[1..] + [s];
      RemovedOneByOne(ss[1..], s);
      Regroup(here, RemoveEmpty(ss[1..]), if Empty(s) then [] else [RemoveIn(s)]);
      Regroup(here, RemoveEmpty(ss[1..]), [RemoveIn(s)]);
    }
  }

  // ----- Whether anything is left to remove -----

  /** No child that the remover looks at is accepted. */
  predicate Reduced(s: Stmt)
    decreases s, 0
  {
    match s
    case Compound(body) => AllReduced(body, false)
    case If(_, cond, thn, els) => ReducedExpr(cond) && Reduced(thn) && (els.Some? ==> Reduced(els.value))
    case While(_, cond, body) => ReducedExpr(cond) && Reduced(body)
    case Do(body, cond) => ReducedExpr(cond) && Reduced(body)
    case ForIn(_, _, collection, body) => ReducedExpr(collection) && Reduced(body)
    case AutoreleasePool(body) => Reduced(body)
    case ExprStmt(e) => ReducedExpr(e)
    case Return(e) => ReducedExpr(e)
    case _ => true
  }

  predicate ReducedExpr(e: Expr)
    decreases e, 0
  {
    match e
    case Binary(_, a, b) => ReducedExpr(a) && ReducedExpr(b)
    case Assign(_, e1) => ReducedExpr(e1)
    case ParenOrCast(e1) => ReducedExpr(e1)
    case Message(_, receiver) => receiver.Instance? ==> ReducedExpr(receiver.e)
    case StmtExpr(body) => AllReduced(body, true)
    case _ => true
  }

  predicate AllReduced(ss: seq<Stmt>, keepLast: bool)
    decreases ss, 0
  {
    ss == [] ||
    ((Empty(ss[0]) ==> keepLast && |ss| == 1) && Reduced(ss[0]) && AllReduced(ss[1..], keepLast))
  }

  /** No condition loses its side effects. */
  predicate Steady(s: Stmt)
    decreases s, 0
  {
    match s
    case Compound(body) => AllSteady(body)
    case If(_, cond, thn, els) => SteadyCondition(cond) && Steady(thn) && (els.Some? ==> Steady(els.value))
    case While(_, cond, body) => SteadyCondition(cond) && Steady(body)
    case Do(body, cond) => SteadyCondition(cond) && Steady(body)
    case ForIn(_, _, collection, body) => SteadyCondition(collection) && Steady(body)
    case AutoreleasePool(body) => Steady(body)
    case ExprStmt(e) => SteadyExpr(e)
    case Return(e) => SteadyExpr(e)
    case _ => true
  }

  predicate SteadyCondition(e: Expr)
    decreases e, 1
  {
    SteadyExpr(e) && (MigratorSideEffects(e) ==> MigratorSideEffects(RemoveInExpr(e)))
  }

  predicate SteadyExpr(e: Expr)
    decreases e, 0
  {
    match e
    case Binary(_, a, b) => SteadyExpr(a) && SteadyExpr(b)
    case Assign(_, e1) => SteadyExpr(e1)
    case ParenOrCast(e1) => SteadyExpr(e1)
    case Message(_, receiver) => receiver.Instance? ==> SteadyExpr(receiver.e)
    case StmtExpr(body) => AllSteady(body)
    case _ => true
  }

  predicate AllSteady(ss: seq<Stmt>)
    decreases ss, 0
  {
    ss == [] || (Steady(ss[0]) && AllSteady(ss[1..]))
  }

  lemma {:induction false} StaysUnaccepted(s: Stmt)
    requires Steady(s) && !Empty(s)
    ensures !Empty(RemoveIn(s))
    decreases s, 0
  {
    match s
    case Compound(body) => OneStaysUnaccepted(body);
    case If(_, cond, thn, els) =>
      if !Empty(thn) { StaysUnaccepted(thn); }
      if els.Some? && !Empty(els.value) { StaysUnaccepted(els.value); }
    case While(_, cond, body) => if !Empty(body) { StaysUnaccepted(body); }
    case Do(body, cond) => if !Empty(body) { StaysUnaccepted(body); }
    case ForIn(_, _, collection, body) => if !Empty(body) { StaysUnaccepted(body); }
    case AutoreleasePool(body) => StaysUnaccepted(body);
    case _ =>
  }

  lemma {:induction false} OneStaysUnaccepted(ss: seq<Stmt>)
    requires AllSteady(ss)
    ensures RemoveEmpty(ss) != [] ==> !AllEmpty(RemoveEmpty(ss))
    decreases ss, 0
  {
    if ss != [] {
      OneStaysUnaccepted(ss[1..]);
      if Empty(ss[0]) { NothingMore(RemoveEmpty(ss[1..])); } else { StaysUnaccepted(ss[0]); }
    }
  }

  /** If no condition loses its side effects, no accepted child is left. */
  lemma {:induction false} NothingIsLeft(s: Stmt)
    requires Steady(s)
    ensures Reduced(RemoveIn(s))
    decreases s, 0
  {
    match s
    case Compound(body) => NothingIsLeftOfAll(body);
    case If(_, cond, thn, els) =>
      NothingIsLeftIn(cond);
      NothingIsLeft(thn);
      if els.Some? { NothingIsLeft(els.value); }
    case While(_, cond, body) => NothingIsLeftIn(cond); NothingIsLeft(body);
    case Do(body, cond) => NothingIsLeftIn(cond); NothingIsLeft(body);
    case ForIn(_, _, collection, body) => NothingIsLeftIn(collection); NothingIsLeft(body);
    case AutoreleasePool(body) => NothingIsLeft(body);
    case ExprStmt(e) => NothingIsLeftIn(e);
    case Return(e) => NothingIsLeftIn(e);
    case _ =>
  }

  lemma {:induction false} NothingIsLeftIn(e: Expr)
    requires SteadyExpr(e)
    ensures ReducedExpr(RemoveInExpr(e))
    decreases e, 0
  {
    match e
    case Binary(_, a, b) => NothingIsLeftIn(a); NothingIsLeftIn(b);
    case Assign(_, e1) => NothingIsLeftIn(e1);
    case ParenOrCast(e1) => NothingIsLeftIn(e1);
    case Message(_, receiver) => if receiver.Instance? { NothingIsLeftIn(receiver.e); }
    case StmtExpr(body) => NothingButTheLast(body);
    case _ =>
  }

  lemma {:induction false} NothingIsLeftOfAll(ss: seq<Stmt>)
    requires AllSteady(ss)
    ensures AllReduced(RemoveEmpty(ss), false)
    decreases ss, 0
  {
    if ss != [] {
      var rest := RemoveEmpty(ss[1..]);
      NothingIsLeftOfAll(ss[1..]);
      if Empty(ss[0]) {
        NothingMore(rest);
      } else {
        NothingIsLeft(ss[0]);
        StaysUnaccepted(ss[0]);
        assert ([RemoveIn(ss[0])] + rest)[1..] == rest;
      }
    }
  }

  lemma {:induction false} NothingButTheLast(ss: seq<Stmt>)
    requires AllSteady(ss)
    ensures AllReduced(RemoveAllButLast(ss), true)
    decreases ss, 0
  {
    if |ss| == 1 {
      NothingIsLeft(ss[0]);
      assert [RemoveIn(ss[0])][1..] == [];
    } else if ss != [] {
      var rest := RemoveAllButLast(ss[1..]);
      NothingButTheLast(ss[1..]);
      if Empty(ss[0]) {
        NothingMore(rest);
      } else {
        NothingIsLeft(ss[0]);
        StaysUnaccepted(ss[0]);
        assert ([RemoveIn(ss[0])] + rest)[1..] == rest;
      }
    }
  }

  /** Otherwise one can be: without the retain in its condition, which was removed,
      the statement that is left would be accepted. */
  lemma {:induction false} SomethingIsLeft(x: Name)
    ensures var quiet := If(false, Message(Retain, Instance(VarRef(x))), NullStmt(true), None);
            var s := If(false, StmtExpr([quiet, ExprStmt(Literal(0))]), NullStmt(true), None);
            && RemoveIn(Compound([s])) == Compound([If(false, StmtExpr([ExprStmt(Literal(0))]), NullStmt(true), None)])
            && !Reduced(RemoveIn(Compound([s])))
  {
    var quiet := If(false, Message(Retain, Instance(VarRef(x))), NullStmt(true), None);
    var zero := ExprStmt(Literal(0));
    var body := [quiet, zero];
    var s := If(false, StmtExpr(body), NullStmt(true), None);
    assert HasSideEffects(Message(Retain, Instance(VarRef(x))));
    assert !MigratorSideEffects(VarRef(x));
    assert Empty(quiet) && Empty(NullStmt(true));
    assert StmtHasSideEffects(body[0]) && AnySideEffects(body);
    assert MigratorSideEffects(StmtExpr(body)) && !Empty(s);
    assert body[1..] == [zero];
    assert RemoveAllButLast([zero]) == [zero];
    NothingMore([zero]);
    assert RemoveInExpr(StmtExpr(body)) == StmtExpr([zero]);
    var left := If(false, StmtExpr([zero]), NullStmt(true), None);
    assert RemoveIn(s) == left;
    assert [s][1..] == [] && RemoveEmpty([s]) == [left] + [];
    NothingMore([left]);
    assert [zero][1..] == [] && !AnySideEffects([zero]);
    assert !HasSideEffects(StmtExpr([zero])) && Empty(left);
  }
}
