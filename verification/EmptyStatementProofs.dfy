/** When an empty statement does nothing. */
module EmptyStatementProofs {
  import opened EmptyStatements
  import opened Wrappers

  // ----- Only retain counts change -----

  /** Every for-in loop declares its variable. */
  predicate Declares(s: Stmt)
    decreases s, 0
  {
    match s
    case NullStmt(_) => true
    case Compound(body) => AllDeclare(body)
    case If(_, cond, thn, els) => DeclaresExpr(cond) && Declares(thn) && (els.Some? ==> Declares(els.value))
    case While(_, cond, body) => DeclaresExpr(cond) && Declares(body)
    case Do(body, cond) => DeclaresExpr(cond) && Declares(body)
    case ForIn(_, declared, collection, body) => declared && DeclaresExpr(collection) && Declares(body)
    case AutoreleasePool(body) => Declares(body)
    case ExprStmt(e) => DeclaresExpr(e)
    case Return(e) => DeclaresExpr(e)
    case Break => true
    case Continue => true
  }

  predicate DeclaresExpr(e: Expr)
    decreases e, 0
  {
    match e
    case Literal(_) => true
    case VarRef(_) => true
    case Binary(_, a, b) => DeclaresExpr(a) && DeclaresExpr(b)
    case Assign(_, e1) => DeclaresExpr(e1)
    case ParenOrCast(e1) => DeclaresExpr(e1)
    case Message(_, receiver) => receiver.Instance? ==> DeclaresExpr(receiver.e)
    case StmtExpr(body) => AllDeclare(body)
  }

  predicate AllDeclare(ss: seq<Stmt>)
    decreases ss, 0
  {
    ss == [] || (Declares(ss[0]) && AllDeclare(ss[1..]))
  }

  /** Built so that only retain counts can change, however it is left. */
  predicate Quiet(s: Stmt)
    decreases s, 0
  {
    match s
    case NullStmt(_) => true
    case Compound(body) => AllQuiet(body)
    case If(_, cond, thn, els) => QuietExpr(cond) && Quiet(thn) && (els.Some? ==> Quiet(els.value))
    case While(_, cond, body) => QuietExpr(cond) && Quiet(body)
    case Do(body, cond) => QuietExpr(cond) && Quiet(body)
    case ForIn(_, declared, collection, body) => declared && QuietExpr(collection) && Quiet(body)
    case AutoreleasePool(body) => Quiet(body)
    case ExprStmt(e) => QuietExpr(e)
    case Return(e) => QuietExpr(e)
    case Break => true
    case Continue => true
  }

  predicate QuietExpr(e: Expr)
    decreases e, 0
  {
    match e
    case Literal(_) => true
    case VarRef(_) => true
    case Binary(_, a, b) => QuietExpr(a) && QuietExpr(b)
    case Assign(_, _) => false
    case ParenOrCast(e1) => QuietExpr(e1)
    case Message(family, receiver) => Counts(family, receiver) && (receiver.Instance? ==> QuietExpr(receiver.e))
    case StmtExpr(body) => AllQuiet(body)
  }

  predicate AllQuiet(ss: seq<Stmt>)
    decreases ss, 0
  {
    ss == [] || (Quiet(ss[0]) && AllQuiet(ss[1..]))
  }

  lemma {:induction false} NoEffectsQuietExpr(e: Expr)
    requires !HasSideEffects(e) && DeclaresExpr(e)
    ensures QuietExpr(e)
    decreases e, 0
  {
    match e
    case Literal(_) =>
    case VarRef(_) =>
    case Binary(_, a, b) => NoEffectsQuietExpr(a); NoEffectsQuietExpr(b);
    case ParenOrCast(e1) => NoEffectsQuietExpr(e1);
    case StmtExpr(body) => NoEffectsAllQuiet(body);
  }

  lemma {:induction false} NoEffectsQuiet(s: Stmt)
    requires !StmtHasSideEffects(s) && Declares(s)
    ensures Quiet(s)
    decreases s, 0
  {
    match s
    case NullStmt(_) =>
    case Compound(body) => NoEffectsAllQuiet(body);
    case If(_, cond, thn, els) =>
      NoEffectsQuietExpr(cond);
      NoEffectsQuiet(thn);
      if els.Some? { NoEffectsQuiet(els.value); }
    case While(_, cond, body) => NoEffectsQuietExpr(cond); NoEffectsQuiet(body);
    case Do(body, cond) => NoEffectsQuietExpr(cond); NoEffectsQuiet(body);
    case ForIn(_, _, collection, body) => NoEffectsQuietExpr(collection); NoEffectsQuiet(body);
    case AutoreleasePool(body) => NoEffectsQuiet(body);
    case ExprStmt(e) => NoEffectsQuietExpr(e);
    case Return(e) => NoEffectsQuietExpr(e);
    case Break =>
    case Continue =>
  }

  lemma {:induction false} NoEffectsAllQuiet(ss: seq<Stmt>)
    requires !AnySideEffects(ss) && AllDeclare(ss)
    ensures AllQuiet(ss)
    decreases ss, 0
  {
    if ss != [] {
      NoEffectsQuiet(ss[0]);
      NoEffectsAllQuiet(ss[1..]);
    }
  }

  lemma {:induction false} NoMigratorEffectsQuiet(e: Expr)
    requires !MigratorSideEffects(e) && DeclaresExpr(e)
    ensures QuietExpr(e)
  {
    if !HasSideEffects(e) {
      NoEffectsQuietExpr(e);
    } else {
      match e
      case ParenOrCast(e1) => NoMigratorEffectsQuiet(e1);
      case Message(family, receiver) => if receiver.Instance? { NoMigratorEffectsQuiet(receiver.e); }
    }
  }

  lemma {:induction false} EmptyIsQuiet(s: Stmt)
    requires Empty(s) && Declares(s)
    ensures Quiet(s)
    decreases s, 0
  {
    match s
    case NullStmt(_) =>
    case Compound(body) => AllEmptyQuiet(body);
    case If(_, cond, thn, els) =>
      NoMigratorEffectsQuiet(cond);
      EmptyIsQuiet(thn);
      if els.Some? { EmptyIsQuiet(els.value); }
    case While(_, cond, body) => NoMigratorEffectsQuiet(cond); EmptyIsQuiet(body);
    case Do(body, cond) => NoMigratorEffectsQuiet(cond); EmptyIsQuiet(body);
    case ForIn(_, _, collection, body) => NoMigratorEffectsQuiet(collection); EmptyIsQuiet(body);
    case AutoreleasePool(body) => EmptyIsQuiet(body);
  }

  lemma {:induction false} AllEmptyQuiet(ss: seq<Stmt>)
    requires AllEmpty(ss) && AllDeclare(ss)
    ensures AllQuiet(ss)
    decreases ss, 0
  {
    if ss != [] {
      EmptyIsQuiet(ss[0]);
      AllEmptyQuiet(ss[1..]);
    }
  }

  predicate Keeps(st: State, r: Ending) { r.Done? ==> Same(st, r.st) }

  lemma {:induction false} QuietExprKeeps(e: Expr, st: State, fuel: nat)
    requires QuietExpr(e)
    ensures var r := Eval(e, st, fuel); !r.EndlessValue? ==> Same(st, r.st)
    decreases fuel, e, 0
  {
    match e
    case Literal(_) =>
    case VarRef(_) =>
    case Binary(_, a, b) =>
      QuietExprKeeps(a, st, fuel);
      if Eval(a, st, fuel).Value? { QuietExprKeeps(b, Eval(a, st, fuel).st, fuel); }
    case ParenOrCast(e1) => QuietExprKeeps(e1, st, fuel);
    case Message(_, receiver) => if receiver.Instance? { QuietExprKeeps(receiver.e, st, fuel); }
    case StmtExpr(body) => AllQuietKeeps(body, st, fuel);
  }

  lemma {:induction false} AllQuietKeeps(ss: seq<Stmt>, st: State, fuel: nat)
    requires AllQuiet(ss)
    ensures Keeps(st, ExecSeq(ss, st, fuel))
    decreases fuel, ss, 0
  {
    if ss != [] {
      QuietKeeps(ss[0], st, fuel);
      var r := Exec(ss[0], st, fuel);
      if r.Done? { AllQuietKeeps(ss[1..], r.st, fuel); }
    }
  }

  lemma {:induction false} QuietKeeps(s: Stmt, st: State, fuel: nat)
    requires Quiet(s)
    ensures Keeps(st, Exec(s, st, fuel))
    decreases fuel, s, 1
  {
    match s
    case NullStmt(_) =>
    case Compound(body) => AllQuietKeeps(body, st, fuel);
    case If(_, cond, thn, els) =>
      QuietExprKeeps(cond, st, fuel);
      var c := Eval(cond, st, fuel);
      if c.Value? {
        QuietKeeps(thn, c.st, fuel);
        if els.Some? { QuietKeeps(els.value, c.st, fuel); }
      }
    case While(_, cond, body) =>
      QuietExprKeeps(cond, st, fuel);
      var t := TestOf(Eval(cond, st, fuel));
      if t.Enter? {
        QuietKeeps(body, t.st, fuel);
        var r := Exec(body, t.st, fuel);
        if r.Done? && fuel > 0 { QuietKeeps(s, r.st, fuel - 1); }
      } else if t.TestAgain? && fuel > 0 {
        QuietKeeps(s, t.st, fuel - 1);
      }
    case Do(body, cond) =>
      QuietKeeps(body, st, fuel);
      var r := Exec(body, st, fuel);
      if r.Done? { QuietTestKeeps(s, r.st, fuel); }
    case ForIn(x, _, collection, body) =>
      QuietExprKeeps(collection, st, fuel);
      var c := Eval(collection, st, fuel);
      if c.Value? { QuietLoopKeeps(x, Elements(c.st, c.v), body, c.st, c.st, fuel); }
    case AutoreleasePool(body) => QuietKeeps(body, st, fuel);
    case ExprStmt(e) => QuietExprKeeps(e, st, fuel);
    case Return(e) => QuietExprKeeps(e, st, fuel);
    case Break =>
    case Continue =>
  }

  lemma {:induction false} QuietTestKeeps(s: Stmt, st: State, fuel: nat)
    requires s.Do? && Quiet(s)
    ensures Keeps(st, DoTest(s, st, fuel))
    decreases fuel, s, 0
  {
    QuietExprKeeps(s.cond, st, fuel);
    var t := TestOf(Eval(s.cond, st, fuel));
    if fuel > 0 {
      if t.Enter? { QuietKeeps(s, t.st, fuel - 1); }
      else if t.TestAgain? { QuietTestKeeps(s, t.st, fuel - 1); }
    }
  }

  /** During a for-in loop only the loop variable differs from outside. */
  lemma {:induction false} QuietLoopKeeps(x: Name, elements: seq<int>, body: Stmt, outer: State, st: State, fuel: nat)
    requires Quiet(body)
    requires SameBut(x, outer, st)
    ensures var r := ForLoop(x, elements, body, st, fuel);
            r.Done? ==> SameBut(x, outer, r.st) && Same(outer, LeaveScope(x, outer, r.st))
    decreases fuel, body, 1 + |elements|
  {
    if elements == [] {
      LeavingRestores(x, outer, st.(vars := st.vars[x := 0]));
    } else {
      var bound := st.(vars := st.vars[x := elements[0]]);
      QuietKeeps(body, bound, fuel);
      var r := Exec(body, bound, fuel);
      if r.Done? {
        assert SameBut(x, outer, bound);
        LeavingRestores(x, outer, r.st);
        QuietLoopKeeps(x, elements[1..], body, outer, r.st, fuel);
      }
    }
  }

  predicate SameBut(x: Name, s: State, t: State) {
    && s.collections == t.collections && s.log == t.log
    && s.vars - {x} == t.vars - {x}
  }

  lemma {:induction false} LeavingRestores(x: Name, outer: State, inner: State)
    requires SameBut(x, outer, inner)
    ensures Same(outer, LeaveScope(x, outer, inner))
  {
    var restored := LeaveScope(x, outer, inner).vars;
    forall y ensures y in outer.vars <==> y in restored {
      assert y != x ==> (y in outer.vars - {x} <==> y in inner.vars - {x});
    }
    forall y | y in outer.vars ensures restored[y] == outer.vars[y] {
      if y != x {
        assert y in outer.vars - {x} && (outer.vars - {x})[y] == (inner.vars - {x})[y];
      }
    }
  }

  /** However it is left, what the checker calls empty keeps the observable state
      if its for-in loops declare their variables. */
  lemma {:induction false} EmptyKeepsState(s: Stmt, st: State, fuel: nat)
    requires Empty(s) && Declares(s)
    ensures Keeps(st, Exec(s, st, fuel))
  {
    EmptyIsQuiet(s);
    QuietKeeps(s, st, fuel);
  }

  // ----- No jump leaves a statement -----

  /** Built so that no jump leaves the statement, apart from those that belong to
      a loop around it. */
  predicate Tame(s: Stmt, loop: bool)
    decreases s, 0
  {
    match s
    case NullStmt(_) => true
    case Compound(body) => AllTame(body, loop)
    case If(_, cond, thn, els) => TameExpr(cond, loop) && Tame(thn, loop) && (els.Some? ==> Tame(els.value, loop))
    case While(_, cond, body) => TameExpr(cond, true) && Tame(body, true)
    case Do(body, cond) => TameExpr(cond, true) && Tame(body, true)
    case ForIn(_, _, collection, body) => TameExpr(collection, loop) && Tame(body, true)
    case AutoreleasePool(body) => Tame(body, loop)
    case ExprStmt(e) => TameExpr(e, loop)
    case Return(_) => false
    case Break => loop
    case Continue => loop
  }

  predicate TameExpr(e: Expr, loop: bool)
    decreases e, 0
  {
    match e
    case Literal(_) => true
    case VarRef(_) => true
    case Binary(_, a, b) => TameExpr(a, loop) && TameExpr(b, loop)
    case Assign(_, e1) => TameExpr(e1, loop)
    case ParenOrCast(e1) => TameExpr(e1, loop)
    case Message(_, receiver) => receiver.Instance? ==> TameExpr(receiver.e, loop)
    case StmtExpr(body) => AllTame(body, loop)
  }

  predicate AllTame(ss: seq<Stmt>, loop: bool)
    decreases ss, 0
  {
    ss == [] || (Tame(ss[0], loop) && AllTame(ss[1..], loop))
  }

  predicate Stays(r: Ending, loop: bool) {
    r.Done? ==> r.out.Normal? || (loop && !r.out.Returned?)
  }

  lemma {:induction false} TameExprStays(e: Expr, loop: bool, st: State, fuel: nat)
    requires TameExpr(e, loop)
    ensures var r := Eval(e, st, fuel); r.Escape? ==> loop && (r.out.Broke? || r.out.Continued?)
    decreases fuel, e, 0
  {
    match e
    case Literal(_) =>
    case VarRef(_) =>
    case Binary(_, a, b) =>
      TameExprStays(a, loop, st, fuel);
      if Eval(a, st, fuel).Value? { TameExprStays(b, loop, Eval(a, st, fuel).st, fuel); }
    case Assign(_, e1) => TameExprStays(e1, loop, st, fuel);
    case ParenOrCast(e1) => TameExprStays(e1, loop, st, fuel);
    case Message(_, receiver) => if receiver.Instance? { TameExprStays(receiver.e, loop, st, fuel); }
    case StmtExpr(body) => AllTameStay(body, loop, st, fuel);
  }

  lemma {:induction false} AllTameStay(ss: seq<Stmt>, loop: bool, st: State, fuel: nat)
    requires AllTame(ss, loop)
    ensures Stays(ExecSeq(ss, st, fuel), loop)
    decreases fuel, ss, 0
  {
    if ss != [] {
      TameStays(ss[0], loop, st, fuel);
      var r := Exec(ss[0], st, fuel);
      if r.Done? { AllTameStay(ss[1..], loop, r.st, fuel); }
    }
  }

  lemma {:induction false} TameStays(s: Stmt, loop: bool, st: State, fuel: nat)
    requires Tame(s, loop)
    ensures Stays(Exec(s, st, fuel), loop)
    decreases fuel, s, 1
  {
    match s
    case NullStmt(_) =>
    case Compound(body) => AllTameStay(body, loop, st, fuel);
    case If(_, cond, thn, els) =>
      TameExprStays(cond, loop, st, fuel);
      var c := Eval(cond, st, fuel);
      if c.Value? {
        TameStays(thn, loop, c.st, fuel);
        if els.Some? { TameStays(els.value, loop, c.st, fuel); }
      }
    case While(_, cond, body) =>
      TameExprStays(cond, true, st, fuel);
      var t := TestOf(Eval(cond, st, fuel));
      if t.Enter? {
        TameStays(body, true, t.st, fuel);
        var r := Exec(body, t.st, fuel);
        if r.Done? && fuel > 0 { TameStays(s, loop, r.st, fuel - 1); }
      } else if t.TestAgain? && fuel > 0 {
        TameStays(s, loop, t.st, fuel - 1);
      }
    case Do(body, cond) =>
      TameStays(body, true, st, fuel);
      var r := Exec(body, st, fuel);
      if r.Done? { TameTestStays(s, loop, r.st, fuel); }
    case ForIn(x, _, collection, body) =>
      TameExprStays(collection, loop, st, fuel);
      var c := Eval(collection, st, fuel);
      if c.Value? { TameLoopStays(x, Elements(c.st, c.v), body, c.st, fuel); }
    case AutoreleasePool(body) => TameStays(body, loop, st, fuel);
    case ExprStmt(e) => TameExprStays(e, loop, st, fuel);
    case Break =>
    case Continue =>
  }

  lemma {:induction false} TameTestStays(s: Stmt, loop: bool, st: State, fuel: nat)
    requires s.Do? && Tame(s, loop)
    ensures Stays(DoTest(s, st, fuel), loop)
    decreases fuel, s, 0
  {
    TameExprStays(s.cond, true, st, fuel);
    var t := TestOf(Eval(s.cond, st, fuel));
    if fuel > 0 {
      if t.Enter? { TameStays(s, loop, t.st, fuel - 1); }
      else if t.TestAgain? { TameTestStays(s, loop, t.st, fuel - 1); }
    }
  }

  lemma {:induction false} TameLoopStays(x: Name, elements: seq<int>, body: Stmt, st: State, fuel: nat)
    requires Tame(body, true)
    ensures Stays(ForLoop(x, elements, body, st, fuel), false)
    decreases fuel, body, 1 + |elements|
  {
    if elements != [] {
      var bound := st.(vars := st.vars[x := elements[0]]);
      TameStays(body, true, bound, fuel);
      var r := Exec(body, bound, fuel);
      if r.Done? { TameLoopStays(x, elements[1..], body, r.st, fuel); }
    }
  }

  // ----- Empty statements -----

  predicate Unchanging(st: State, r: Ending) {
    r.Done? ==> r.out.Normal? && Same(st, r.st)
  }

  /** Empty, for-in loops declare their variables, no jump leaves. */
  predicate Harmless(s: Stmt) { Empty(s) && Declares(s) && Tame(s, false) }

  /** What the checker calls empty ends normally and leaves the observable state
      as it was, whenever it ends. */
  lemma {:induction false} EmptyIsSound(s: Stmt, st: State, fuel: nat)
    requires Harmless(s)
    ensures Unchanging(st, Exec(s, st, fuel))
  {
    EmptyKeepsState(s, st, fuel);
    TameStays(s, false, st, fuel);
  }

  // ----- Fuel and retain counts do not matter -----

  /** The same outcome in the same observable state. */
  predicate Alike(r: Ending, t: Ending) {
    r.Done? && t.Done? && r.out == t.out && Same(r.st, t.st)
  }

  predicate AlikeValue(r: Valuing, t: Valuing) {
    match r
    case EndlessValue => false
    case Value(st, v) => t.Value? && t.v == v && Same(st, t.st)
    case Escape(st, out) => t.Escape? && t.out == out && Same(st, t.st)
  }

  /** With more fuel, and other retain counts, an ending stays what it is. */
  lemma {:induction false} MoreFuelExpr(e: Expr, st: State, other: State, fuel: nat, more: nat)
    requires Same(st, other) && fuel <= more && !Eval(e, st, fuel).EndlessValue?
    ensures AlikeValue(Eval(e, st, fuel), Eval(e, other, more))
    decreases fuel, e, 0
  {
    match e
    case Literal(_) =>
    case VarRef(_) =>
    case Binary(_, a, b) =>
      MoreFuelExpr(a, st, other, fuel, more);
      var ra := Eval(a, st, fuel);
      if ra.Value? { MoreFuelExpr(b, ra.st, Eval(a, other, more).st, fuel, more); }
    case Assign(_, e1) => MoreFuelExpr(e1, st, other, fuel, more);
    case ParenOrCast(e1) => MoreFuelExpr(e1, st, other, fuel, more);
    case Message(_, receiver) => if receiver.Instance? { MoreFuelExpr(receiver.e, st, other, fuel, more); }
    case StmtExpr(body) => MoreFuelSeq(body, st, other, fuel, more);
  }

  lemma {:induction false} MoreFuelSeq(ss: seq<Stmt>, st: State, other: State, fuel: nat, more: nat)
    requires Same(st, other) && fuel <= more && ExecSeq(ss, st, fuel).Done?
    ensures Alike(ExecSeq(ss, st, fuel), ExecSeq(ss, other, more))
    decreases fuel, ss, 0
  {
    if ss != [] {
      MoreFuel(ss[0], st, other, fuel, more);
      var r, q := Exec(ss[0], st, fuel), Exec(ss[0], other, more);
      if r.out.Normal? && |ss| > 1 { MoreFuelSeq(ss[1..], r.st, q.st, fuel, more); }
    }
  }

  lemma {:induction false} MoreFuel(s: Stmt, st: State, other: State, fuel: nat, more: nat)
    requires Same(st, other) && fuel <= more && Exec(s, st, fuel).Done?
    ensures Alike(Exec(s, st, fuel), Exec(s, other, more))
    decreases fuel, s, 1
  {
    match s
    case NullStmt(_) =>
    case Compound(body) => MoreFuelSeq(body, st, other, fuel, more);
    case If(_, cond, thn, els) =>
      MoreFuelExpr(cond, st, other, fuel, more);
      var c, d := Eval(cond, st, fuel), Eval(cond, other, more);
      if c.Value? {
        if c.v != 0 { MoreFuel(thn, c.st, d.st, fuel, more); }
        else if els.Some? { MoreFuel(els.value, c.st, d.st, fuel, more); }
      }
    case While(_, _, _) => MoreFuelWhile(s, st, other, fuel, more);
    case Do(body, cond) =>
      MoreFuel(body, st, other, fuel, more);
      var r, q := Exec(body, st, fuel), Exec(body, other, more);
      if !r.out.Returned? && !r.out.Broke? { MoreFuelTest(s, r.st, q.st, fuel, more); }
    case ForIn(x, declared, collection, body) =>
      MoreFuelExpr(collection, st, other, fuel, more);
      var c, d := Eval(collection, st, fuel), Eval(collection, other, more);
      if c.Value? { MoreFuelLoop(x, Elements(c.st, c.v), body, c.st, d.st, fuel, more); }
    case AutoreleasePool(body) => MoreFuel(body, st, other, fuel, more);
    case ExprStmt(e) => MoreFuelExpr(e, st, other, fuel, more);
    case Return(e) => MoreFuelExpr(e, st, other, fuel, more);
    case Break =>
    case Continue =>
  }

  lemma {:induction false} MoreFuelWhile(s: Stmt, st: State, other: State, fuel: nat, more: nat)
    requires s.While? && Same(st, other) && fuel <= more && Exec(s, st, fuel).Done?
    ensures Alike(Exec(s, st, fuel), Exec(s, other, more))
    decreases fuel, s, 0
  {
    MoreFuelExpr(s.cond, st, other, fuel, more);
    var t, u := TestOf(Eval(s.cond, st, fuel)), TestOf(Eval(s.cond, other, more));
    if t.Enter? {
      MoreFuel(s.body1, t.st, u.st, fuel, more);
      var r, q := Exec(s.body1, t.st, fuel), Exec(s.body1, u.st, more);
      if !r.out.Returned? && !r.out.Broke? { MoreFuel(s, r.st, q.st, fuel - 1, more - 1); }
    } else if t.TestAgain? {
      MoreFuel(s, t.st, u.st, fuel - 1, more - 1);
    }
  }

  lemma {:induction false} MoreFuelTest(s: Stmt, st: State, other: State, fuel: nat, more: nat)
    requires s.Do? && Same(st, other) && fuel <= more && DoTest(s, st, fuel).Done?
    ensures Alike(DoTest(s, st, fuel), DoTest(s, other, more))
    decreases fuel, s, 0
  {
    MoreFuelExpr(s.cond, st, other, fuel, more);
    var t, u := TestOf(Eval(s.cond, st, fuel)), TestOf(Eval(s.cond, other, more));
    if t.Enter? { MoreFuel(s, t.st, u.st, fuel - 1, more - 1); }
    else if t.TestAgain? { MoreFuelTest(s, t.st, u.st, fuel - 1, more - 1); }
  }

  lemma {:induction false} MoreFuelLoop(x: Name, elements: seq<int>, body: Stmt, st: State, other: State, fuel: nat, more: nat)
    requires Same(st, other) && fuel <= more && ForLoop(x, elements, body, st, fuel).Done?
    ensures Alike(ForLoop(x, elements, body, st, fuel), ForLoop(x, elements, body, other, more))
    decreases fuel, body, 1 + |elements|
  {
    if elements != [] {
      var a, b := st.(vars := st.vars[x := elements[0]]), other.(vars := other.vars[x := elements[0]]);
      MoreFuel(body, a, b, fuel, more);
      var r, q := Exec(body, a, fuel), Exec(body, b, more);
      if !r.out.Returned? && !r.out.Broke? { MoreFuelLoop(x, elements[1..], body, r.st, q.st, fuel, more); }
    }
  }

  // ----- Exactly how an empty statement ends -----

  lemma {:induction false} EvalAlike(e: Expr, st: State, other: State, fuel: nat)
    requires Same(st, other)
    ensures Eval(e, st, fuel).EndlessValue? <==> Eval(e, other, fuel).EndlessValue?
    ensures !Eval(e, st, fuel).EndlessValue? ==> AlikeValue(Eval(e, st, fuel), Eval(e, other, fuel))
  {
    if !Eval(e, st, fuel).EndlessValue? { MoreFuelExpr(e, st, other, fuel, fuel); }
    if !Eval(e, other, fuel).EndlessValue? { MoreFuelExpr(e, other, st, fuel, fuel); }
  }

  datatype Fate = Endless | Ends(out: Outcome)

  function FateOf(r: Ending): Fate { if r.NoFuel? then Endless else Ends(r.out) }

  predicate GoesOn(f: Fate) { f.Ends? && (f.out.Normal? || f.out.Continued?) }

  /** What a loop makes of the fate of its body that does not go on. */
  function OutOfLoop(f: Fate): Fate { if f == Ends(Broke) then Ends(Normal(0)) else f }

  /** How a loop ends whose condition is tried once. */
  function TestFate(cond: Expr, st: State, fuel: nat): Fate {
    var t := TestOf(Eval(cond, st, fuel));
    if t.Leave? then Ends(t.out) else Endless
  }

  /** How an accepted statement ends, told without repeating a loop and without
      following the state: all its conditions are evaluated where it starts. */
  function FateIn(s: Stmt, st: State, fuel: nat): Fate
    requires Empty(s)
    decreases s, 0
  {
    match s
    case NullStmt(_) => Ends(Normal(0))
    case Compound(body) =>
      var f := FateInAll(body, st, fuel);
      if f.Ends? && f.out.Normal? then Ends(Normal(0)) else f
    case If(_, cond, thn, els) =>
      var c := Eval(cond, st, fuel);
      if c.EndlessValue? then Endless
      else if c.Escape? then Ends(c.out)
      else if c.v != 0 then FateIn(thn, st, fuel)
      else if els.Some? then FateIn(els.value, st, fuel)
      else Ends(Normal(0))
    case While(_, cond, body) =>
      if !TestOf(Eval(cond, st, fuel)).Enter? then TestFate(cond, st, fuel)
      else
        var f := FateIn(body, st, fuel);
        if GoesOn(f) then Endless else OutOfLoop(f)
    case Do(body, cond) =>
      var f := FateIn(body, st, fuel);
      if GoesOn(f) then TestFate(cond, st, fuel) else OutOfLoop(f)
    case ForIn(x, _, collection, body) =>
      var c := Eval(collection, st, fuel);
      if c.EndlessValue? then Endless
      else if c.Escape? then Ends(c.out)
      else FateInLoop(x, Elements(st, c.v), body, st, fuel)
    case AutoreleasePool(body) => FateIn(body, st, fuel)
  }

  function FateInAll(ss: seq<Stmt>, st: State, fuel: nat): Fate
    requires AllEmpty(ss)
    decreases ss, 0
  {
    if ss == [] then Ends(Normal(0))
    else
      var f := FateIn(ss[0], st, fuel);
      if f.Ends? && f.out.Normal? && |ss| > 1 then FateInAll(ss[1..], st, fuel) else f
  }

  /** Only the variable of the loop differs from one round to the next. */
  function FateInLoop(x: Name, elements: seq<int>, body: Stmt, st: State, fuel: nat): Fate
    requires Empty(body)
    decreases body, 1 + |elements|
  {
    if elements == [] then Ends(Normal(0))
    else
      var f := FateIn(body, st.(vars := st.vars[x := elements[0]]), fuel);
      if GoesOn(f) then FateInLoop(x, elements[1..], body, st, fuel) else OutOfLoop(f)
  }

  /** More fuel and other retain counts do not change a fate that is an end. */
  lemma {:induction false} FateLasts(s: Stmt, st: State, other: State, fuel: nat, more: nat)
    requires Empty(s) && Same(st, other) && fuel <= more && FateIn(s, st, fuel).Ends?
    ensures FateIn(s, other, more) == FateIn(s, st, fuel)
    decreases s, 0
  {
    match s
    case NullStmt(_) =>
    case Compound(body) => FateInAllLasts(body, st, other, fuel, more);
    case If(_, cond, thn, els) =>
      MoreFuelExpr(cond, st, other, fuel, more);
      var c := Eval(cond, st, fuel);
      if c.Value? {
        if c.v != 0 { FateLasts(thn, st, other, fuel, more); }
        else if els.Some? { FateLasts(els.value, st, other, fuel, more); }
      }
    case While(_, cond, body) =>
      MoreFuelExpr(cond, st, other, fuel, more);
      if TestOf(Eval(cond, st, fuel)).Enter? { FateLasts(body, st, other, fuel, more); }
    case Do(body, cond) =>
      FateLasts(body, st, other, fuel, more);
      if GoesOn(FateIn(body, st, fuel)) { MoreFuelExpr(cond, st, other, fuel, more); }
    case ForIn(x, _, collection, body) =>
      MoreFuelExpr(collection, st, other, fuel, more);
      var c := Eval(collection, st, fuel);
      if c.Value? { FateInLoopLasts(x, Elements(st, c.v), body, st, other, fuel, more); }
    case AutoreleasePool(body) => FateLasts(body, st, other, fuel, more);
  }

  lemma {:induction false} FateInAllLasts(ss: seq<Stmt>, st: State, other: State, fuel: nat, more: nat)
    requires AllEmpty(ss) && Same(st, other) && fuel <= more && FateInAll(ss, st, fuel).Ends?
    ensures FateInAll(ss, other, more) == FateInAll(ss, st, fuel)
    decreases ss, 0
  {
    if ss != [] {
      FateLasts(ss[0], st, other, fuel, more);
      if FateIn(ss[0], st, fuel).out.Normal? && |ss| > 1 { FateInAllLasts(ss[1..], st, other, fuel, more); }
    }
  }

  lemma {:induction false} FateInLoopLasts(x: Name, elements: seq<int>, body: Stmt, st: State, other: State,
                                           fuel: nat, more: nat)
    requires Empty(body) && Same(st, other) && fuel <= more && FateInLoop(x, elements, body, st, fuel).Ends?
    ensures FateInLoop(x, elements, body, other, more) == FateInLoop(x, elements, body, st, fuel)
    decreases body, 1 + |elements|
  {
    if elements != [] {
      var a, b := st.(vars := st.vars[x := elements[0]]), other.(vars := other.vars[x := elements[0]]);
      FateLasts(body, a, b, fuel, more);
      if GoesOn(FateIn(body, a, fuel)) { FateInLoopLasts(x, elements[1..], body, st, other, fuel, more); }
    }
  }

  lemma {:induction false} FateAlike(s: Stmt, st: State, other: State, fuel: nat)
    requires Empty(s) && Same(st, other)
    ensures FateIn(s, st, fuel) == FateIn(s, other, fuel)
  {
    if FateIn(s, st, fuel).Ends? { FateLasts(s, st, other, fuel, fuel); }
    if FateIn(s, other, fuel).Ends? { FateLasts(s, other, st, fuel, fuel); }
  }

  lemma {:induction false} AllFatesAlike(ss: seq<Stmt>, st: State, other: State, fuel: nat)
    requires AllEmpty(ss) && Same(st, other)
    ensures FateInAll(ss, st, fuel) == FateInAll(ss, other, fuel)
  {
    if FateInAll(ss, st, fuel).Ends? { FateInAllLasts(ss, st, other, fuel, fuel); }
    if FateInAll(ss, other, fuel).Ends? { FateInAllLasts(ss, other, st, fuel, fuel); }
  }

  /** Every accepted statement whose for-in loops declare their variables, with
      whatever jumps in it, ends just as told. */
  lemma {:induction false} EmptyEnds(s: Stmt, st: State, fuel: nat)
    requires Empty(s) && Declares(s)
    ensures FateOf(Exec(s, st, fuel)) == FateIn(s, st, fuel)
    decreases fuel, s, 1
  {
    match s
    case NullStmt(_) =>
    case Compound(body) => AllEmptyEnd(body, st, fuel);
    case If(_, cond, thn, els) => EmptyIfEnds(s, st, fuel);
    case While(_, cond, body) => EmptyWhileEnds(s, st, fuel);
    case Do(body, cond) => EmptyDoEnds(s, st, fuel);
    case ForIn(x, _, collection, body) =>
      NoMigratorEffectsQuiet(collection);
      QuietExprKeeps(collection, st, fuel);
      var c := Eval(collection, st, fuel);
      if c.Value? { EmptyLoopEnds(x, Elements(st, c.v), body, st, c.st, fuel); }
    case AutoreleasePool(body) => EmptyEnds(body, st, fuel);
  }

  lemma {:induction false} AllEmptyEnd(ss: seq<Stmt>, st: State, fuel: nat)
    requires AllEmpty(ss) && AllDeclare(ss)
    ensures FateOf(ExecSeq(ss, st, fuel)) == FateInAll(ss, st, fuel)
    decreases fuel, ss, 0
  {
    if ss != [] {
      EmptyEnds(ss[0], st, fuel);
      EmptyKeepsState(ss[0], st, fuel);
      var r := Exec(ss[0], st, fuel);
      if r.Done? && r.out.Normal? && |ss| > 1 {
        AllEmptyEnd(ss[1..], r.st, fuel);
        AllFatesAlike(ss[1..], st, r.st, fuel);
      }
    }
  }

  lemma {:induction false} EmptyIfEnds(s: Stmt, st: State, fuel: nat)
    requires s.If? && Empty(s) && Declares(s)
    ensures FateOf(Exec(s, st, fuel)) == FateIn(s, st, fuel)
    decreases fuel, s, 0
  {
    NoMigratorEffectsQuiet(s.cond);
    QuietExprKeeps(s.cond, st, fuel);
    var c := Eval(s.cond, st, fuel);
    if c.Value? {
      if c.v != 0 {
        EmptyEnds(s.thn, c.st, fuel);
        FateAlike(s.thn, st, c.st, fuel);
      } else if s.els.Some? {
        EmptyEnds(s.els.value, c.st, fuel);
        FateAlike(s.els.value, st, c.st, fuel);
      }
    }
  }

  /** A loop that does not end after its first round does not end: if it did with
      less fuel, it would have done so before. */
  lemma {:induction false} EmptyWhileEnds(s: Stmt, st: State, fuel: nat)
    requires s.While? && Empty(s) && Declares(s)
    ensures FateOf(Exec(s, st, fuel)) == FateIn(s, st, fuel)
    decreases fuel, s, 0
  {
    NoMigratorEffectsQuiet(s.cond);
    QuietExprKeeps(s.cond, st, fuel);
    var t := TestOf(Eval(s.cond, st, fuel));
    if t.Enter? {
      EmptyEnds(s.body1, t.st, fuel);
      FateAlike(s.body1, st, t.st, fuel);
      EmptyKeepsState(s.body1, t.st, fuel);
      var r := Exec(s.body1, t.st, fuel);
      if r.Done? && GoesOn(FateOf(r)) && fuel > 0 { EmptyEndsSooner(s, st, r.st, fuel); }
    } else if t.TestAgain? && fuel > 0 {
      EmptyEndsSooner(s, st, t.st, fuel);
    }
  }

  lemma {:induction false} EmptyEndsSooner(s: Stmt, st: State, again: State, fuel: nat)
    requires Empty(s) && Declares(s) && Same(st, again) && fuel > 0
    ensures Exec(s, again, fuel - 1).Done? ==> FateIn(s, st, fuel).Ends?
    decreases fuel - 1, s, 2
  {
    EmptyEnds(s, again, fuel - 1);
    if Exec(s, again, fuel - 1).Done? { FateLasts(s, again, st, fuel - 1, fuel); }
  }

  lemma {:induction false} EmptyDoEnds(s: Stmt, st: State, fuel: nat)
    requires s.Do? && Empty(s) && Declares(s)
    ensures FateOf(Exec(s, st, fuel)) == FateIn(s, st, fuel)
    decreases fuel, s, 0
  {
    EmptyEnds(s.body1, st, fuel);
    EmptyKeepsState(s.body1, st, fuel);
    var r := Exec(s.body1, st, fuel);
    if GoesOn(FateOf(r)) {
      EvalAlike(s.cond, st, r.st, fuel);
      NoMigratorEffectsQuiet(s.cond);
      QuietExprKeeps(s.cond, r.st, fuel);
      var t := TestOf(Eval(s.cond, r.st, fuel));
      if t.Enter? && fuel > 0 { EmptyEndsSooner(s, st, t.st, fuel); }
      if t.TestAgain? { TestsForever(s, r.st, fuel); }
    }
  }

  /** A condition that only says to be tested again says so for ever. */
  lemma {:induction false} TestsForever(s: Stmt, st: State, fuel: nat)
    requires s.Do? && QuietExpr(s.cond)
    requires TestOf(Eval(s.cond, st, fuel)).TestAgain? || TestOf(Eval(s.cond, st, fuel)).Undecided?
    ensures DoTest(s, st, fuel).NoFuel?
    decreases fuel
  {
    QuietExprKeeps(s.cond, st, fuel);
    var t := TestOf(Eval(s.cond, st, fuel));
    if t.TestAgain? && fuel > 0 {
      if !Eval(s.cond, t.st, fuel - 1).EndlessValue? { MoreFuelExpr(s.cond, t.st, st, fuel - 1, fuel); }
      TestsForever(s, t.st, fuel - 1);
    }
  }

  lemma {:induction false} EmptyLoopEnds(x: Name, elements: seq<int>, body: Stmt, outer: State, st: State, fuel: nat)
    requires Empty(body) && Declares(body) && SameBut(x, outer, st)
    ensures FateOf(ForLoop(x, elements, body, st, fuel)) == FateInLoop(x, elements, body, outer, fuel)
    decreases fuel, body, 2 + |elements|
  {
    if elements != [] {
      var bound, told := st.(vars := st.vars[x := elements[0]]), outer.(vars := outer.vars[x := elements[0]]);
      BindingAlike(x, elements[0], outer, st);
      EmptyEnds(body, bound, fuel);
      FateAlike(body, told, bound, fuel);
      EmptyKeepsState(body, bound, fuel);
      var r := Exec(body, bound, fuel);
      if GoesOn(FateOf(r)) { EmptyLoopEnds(x, elements[1..], body, outer, r.st, fuel); }
    }
  }

  lemma {:induction false} BindingAlike(x: Name, v: int, s: State, t: State)
    requires SameBut(x, s, t)
    ensures var a, b := s.(vars := s.vars[x := v]), t.(vars := t.vars[x := v]);
            Same(a, b) && SameBut(x, s, b)
  {
    var a, b := s.vars[x := v], t.vars[x := v];
    forall y ensures y in a <==> y in b {
      assert y != x ==> (y in s.vars - {x} <==> y in t.vars - {x});
    }
    forall y | y in a ensures a[y] == b[y] {
      if y != x {
        assert y in s.vars - {x} && (s.vars - {x})[y] == (t.vars - {x})[y];
      }
    }
    assert b - {x} == t.vars - {x};
  }

  // ----- Exactly when an empty statement is harmless -----

  /** An accepted statement is harmless exactly unless it ends in a jump. */
  lemma {:induction false} HarmlessExactly(s: Stmt, st: State, fuel: nat)
    requires Empty(s) && Declares(s)
    ensures Unchanging(st, Exec(s, st, fuel)) <==> FateIn(s, st, fuel).Endless? || FateIn(s, st, fuel).out.Normal?
  {
    EmptyEnds(s, st, fuel);
    EmptyKeepsState(s, st, fuel);
  }

  predicate Returns(c: Valuing) { c.Escape? && c.out.Returned? }

  /** The condition makes the loop end when it is tried. */
  predicate EndsLoop(c: Valuing) { (c.Escape? && !c.out.Continued?) || (c.Value? && c.v == 0) }

  /** With harmless parts, an if or a for-in loop is harmless exactly when
      evaluating its condition or collection does not jump. */
  lemma {:induction false} HarmlessIf(s: Stmt, st: State, fuel: nat)
    requires s.If? && Empty(s) && Declares(s) && Tame(s.thn, false) && (s.els.Some? ==> Tame(s.els.value, false))
    ensures Unchanging(st, Exec(s, st, fuel)) <==> !Eval(s.cond, st, fuel).Escape?
  {
    HarmlessExactly(s, st, fuel);
    TameFate(s.thn, st, fuel);
    if s.els.Some? { TameFate(s.els.value, st, fuel); }
    EscapesAreJumps(s.cond, st, fuel);
  }

  lemma {:induction false} TameFate(s: Stmt, st: State, fuel: nat)
    requires Harmless(s)
    ensures var f := FateIn(s, st, fuel); f.Endless? || f.out.Normal?
  {
    EmptyIsSound(s, st, fuel);
    HarmlessExactly(s, st, fuel);
  }

  /** A while loop ends exactly when its condition gives 0, or jumps other than by
      a `continue`, the first time; if not, it never gets any further. Only a
      `return` in the condition does harm: other jumps belong to the loop. */
  lemma {:induction false} HarmlessWhile(s: Stmt, st: State, fuel: nat)
    requires s.While? && Empty(s) && Declares(s) && Tame(s.body1, false)
    ensures Exec(s, st, fuel).Done? <==> EndsLoop(Eval(s.cond, st, fuel))
    ensures Unchanging(st, Exec(s, st, fuel)) <==> !Returns(Eval(s.cond, st, fuel))
  {
    HarmlessExactly(s, st, fuel);
    EmptyEnds(s, st, fuel);
    TameFate(s.body1, st, fuel);
    EscapesAreJumps(s.cond, st, fuel);
  }

  /** With a loop that tests last, the body has to end as well. */
  lemma {:induction false} HarmlessDo(s: Stmt, st: State, fuel: nat)
    requires s.Do? && Empty(s) && Declares(s) && Tame(s.body1, false)
    ensures Exec(s, st, fuel).Done? <==> Exec(s.body1, st, fuel).Done? && EndsLoop(Eval(s.cond, st, fuel))
    ensures Unchanging(st, Exec(s, st, fuel)) <==> !(Exec(s.body1, st, fuel).Done? && Returns(Eval(s.cond, st, fuel)))
  {
    HarmlessExactly(s, st, fuel);
    EmptyEnds(s, st, fuel);
    EmptyEnds(s.body1, st, fuel);
    TameFate(s.body1, st, fuel);
    EscapesAreJumps(s.cond, st, fuel);
  }

  lemma {:induction false} HarmlessForIn(s: Stmt, st: State, fuel: nat)
    requires s.ForIn? && Empty(s) && Declares(s) && Tame(s.body1, false)
    ensures Unchanging(st, Exec(s, st, fuel)) <==> !Eval(s.collection, st, fuel).Escape?
  {
    HarmlessExactly(s, st, fuel);
    EscapesAreJumps(s.collection, st, fuel);
    var c := Eval(s.collection, st, fuel);
    if c.Value? { TameLoopFate(s.x, Elements(st, c.v), s.body1, st, fuel); }
  }

  lemma {:induction false} TameLoopFate(x: Name, elements: seq<int>, body: Stmt, st: State, fuel: nat)
    requires Harmless(body)
    ensures var f := FateInLoop(x, elements, body, st, fuel); f.Endless? || f.out.Normal?
  {
    if elements != [] {
      TameFate(body, st.(vars := st.vars[x := elements[0]]), fuel);
      TameLoopFate(x, elements[1..], body, st, fuel);
    }
  }

  /** What escapes an expression is not a normal outcome. */
  lemma {:induction false} EscapesAreJumps(e: Expr, st: State, fuel: nat)
    ensures var r := Eval(e, st, fuel); r.Escape? ==> !r.out.Normal?
  {
    match e
    case Literal(_) =>
    case VarRef(_) =>
    case Binary(_, a, b) =>
      EscapesAreJumps(a, st, fuel);
      if Eval(a, st, fuel).Value? { EscapesAreJumps(b, Eval(a, st, fuel).st, fuel); }
    case Assign(_, e1) => EscapesAreJumps(e1, st, fuel);
    case ParenOrCast(e1) => EscapesAreJumps(e1, st, fuel);
    case Message(_, receiver) => if receiver.Instance? { EscapesAreJumps(receiver.e, st, fuel); }
    case StmtExpr(body) =>
  }

  /** A jump inside a statement expression is overlooked: the statement is called
      empty although it returns from the function. */
  lemma {:induction false} OverlookedReturn(st: State, fuel: nat)
    ensures var s := If(false, StmtExpr([Return(Literal(1)), ExprStmt(Literal(0))]), NullStmt(true), None);
            Empty(s) && Exec(s, st, fuel) == Done(st, Returned(1))
  {
    var body := [Return(Literal(1)), ExprStmt(Literal(0))];
    assert body[1..] == [ExprStmt(Literal(0))] && body[1..][1..] == [];
    assert AnySideEffects(body[1..][1..]) == false;
    assert !AnySideEffects(body[1..]);
    assert !AnySideEffects(body);
    assert Exec(body[0], st, fuel) == Done(st, Returned(1));
    assert ExecSeq(body, st, fuel) == Done(st, Returned(1));
    assert !HasSideEffects(StmtExpr(body));
    assert Empty(NullStmt(true));
    assert Eval(StmtExpr(body), st, fuel) == Escape(st, Returned(1));
  }

  /** A loop with an empty body and a constant condition is endless, and called
      empty. */
  lemma {:induction false} EndlessLoop(st: State, fuel: nat)
    ensures var loop := While(false, Literal(1), NullStmt(true));
            Empty(loop) && Exec(loop, st, fuel).NoFuel?
  {
    var loop := While(false, Literal(1), NullStmt(true));
    assert !HasSideEffects(Literal(1));
    assert Eval(Literal(1), st, fuel) == Value(st, 1);
    assert Tame(NullStmt(true), false) && Declares(NullStmt(true)) && DeclaresExpr(Literal(1));
    HarmlessWhile(loop, st, fuel);
  }

  // ----- For-in loops over an outer variable -----

  /** A for-in loop with a harmless body leaves nil in its variable. */
  lemma {:induction false} LoopEndsAtNil(x: Name, elements: seq<int>, body: Stmt, st: State, fuel: nat)
    requires Harmless(body)
    ensures var r := ForLoop(x, elements, body, st, fuel);
            r.Done? ==> r.out.Normal? && SameBut(x, st, r.st) && x in r.st.vars && r.st.vars[x] == 0
  {
    if elements != [] {
      var bound := st.(vars := st.vars[x := elements[0]]);
      EmptyIsSound(body, bound, fuel);
      var r := Exec(body, bound, fuel);
      if r.Done? { LoopEndsAtNil(x, elements[1..], body, r.st, fuel); }
    }
  }

  /** An empty for-in loop over a variable declared before it, even over an empty
      collection: it is harmless exactly when the variable was nil before and
      evaluating the collection does not jump. */
  lemma {:induction false} OuterLoopVariable(x: Name, collection: Expr, body: Stmt, st: State, fuel: nat)
    requires !MigratorSideEffects(collection) && DeclaresExpr(collection) && Harmless(body)
    requires Exec(ForIn(x, false, collection, body), st, fuel).Done?
    ensures Empty(ForIn(x, false, collection, body))
    ensures Unchanging(st, Exec(ForIn(x, false, collection, body), st, fuel)) <==>
            Eval(collection, st, fuel).Value? && x in st.vars && st.vars[x] == 0
  {
    NoMigratorEffectsQuiet(collection);
    QuietExprKeeps(collection, st, fuel);
    EscapesAreJumps(collection, st, fuel);
    var c := Eval(collection, st, fuel);
    if c.Value? {
      LoopEndsAtNil(x, Elements(c.st, c.v), body, c.st, fuel);
      var after := ForLoop(x, Elements(c.st, c.v), body, c.st, fuel).st;
      if x in st.vars && st.vars[x] == 0 {
        LeavingRestores(x, c.st, after);
        assert LeaveScope(x, c.st, after).vars == after.vars;
      }
    }
  }

  /** Walking over nothing sets the outer variable to nil. */
  lemma {:induction false} OuterVariableChanges(fuel: nat)
    ensures var loop := ForIn("x", false, Literal(7), NullStmt(true));
            var st := State(map["x" := 1], map[], [], map[]);
            Empty(loop) && Exec(loop, st, fuel) == Done(st.(vars := map["x" := 0]), Normal(0))
  {
    var st := State(map["x" := 1], map[], [], map[]);
    assert Eval(Literal(7), st, fuel) == Value(st, 7);
    assert st.vars["x" := 0] == map["x" := 0];
  }
}
