/** Removing empty statements preserves meaning. */
module EmptyStatementRemoval {
  import opened EmptyStatements
  import opened EmptyStatementProofs
  import opened Wrappers

  /** In what the remover drops, for-in loops declare their variables, and no jump
      leaves it. */
  predicate Removable(s: Stmt)
    decreases s, 0
  {
    match s
    case NullStmt(_) => true
    case Compound(body) => AllRemovable(body)
    case If(_, cond, thn, els) => RemovableExpr(cond) && Removable(thn) && (els.Some? ==> Removable(els.value))
    case While(_, cond, body) => RemovableExpr(cond) && Removable(body)
    case Do(body, cond) => RemovableExpr(cond) && Removable(body)
    case ForIn(_, _, collection, body) => RemovableExpr(collection) && Removable(body)
    case AutoreleasePool(body) => Removable(body)
    case ExprStmt(e) => RemovableExpr(e)
    case Return(e) => RemovableExpr(e)
    case Break => true
    case Continue => true
  }

  predicate RemovableExpr(e: Expr)
    decreases e, 0
  {
    match e
    case Literal(_) => true
    case VarRef(_) => true
    case Binary(_, a, b) => RemovableExpr(a) && RemovableExpr(b)
    case Assign(_, e1) => RemovableExpr(e1)
    case ParenOrCast(e1) => RemovableExpr(e1)
    case Message(_, receiver) => receiver.Instance? ==> RemovableExpr(receiver.e)
    case StmtExpr(body) => AllRemovable(body)
  }

  predicate AllRemovable(ss: seq<Stmt>)
    decreases ss, 0
  {
    ss == [] || (Removable(ss[0]) && (Empty(ss[0]) ==> Harmless(ss[0])) && AllRemovable(ss[1..]))
  }

  // ----- No removed statement is endless -----

  ghost predicate Terminates(s: Stmt, st: State) { exists fuel: nat :: Exec(s, st, fuel).Done? }

  /** Every removed statement that the reduced program passes would have ended
      there. */
  ghost predicate PassedEnd(s: Stmt, st: State, fuel: nat)
    decreases fuel, s, 1
  {
    match s
    case NullStmt(_) => true
    case Compound(body) => AllPassedEnd(body, false, st, fuel)
    case If(_, cond, thn, els) =>
      PassedEndExpr(cond, st, fuel) &&
      var c := Eval(RemoveInExpr(cond), st, fuel);
      (c.Value? && c.v != 0 ==> PassedEnd(thn, c.st, fuel)) &&
      (c.Value? && c.v == 0 && els.Some? ==> PassedEnd(els.value, c.st, fuel))
    case While(_, cond, body) =>
      PassedEndExpr(cond, st, fuel) &&
      var t := TestOf(Eval(RemoveInExpr(cond), st, fuel));
      (t.TestAgain? && fuel > 0 ==> PassedEnd(s, t.st, fuel - 1)) &&
      (t.Enter? ==>
        PassedEnd(body, t.st, fuel) &&
        var r := Exec(RemoveIn(body), t.st, fuel);
        Continues(r) && fuel > 0 ==> PassedEnd(s, r.st, fuel - 1))
    case Do(body, cond) =>
      PassedEnd(body, st, fuel) &&
      var r := Exec(RemoveIn(body), st, fuel);
      Continues(r) ==> PassedEndTest(s, r.st, fuel)
    case ForIn(x, _, collection, body) =>
      PassedEndExpr(collection, st, fuel) &&
      var c := Eval(RemoveInExpr(collection), st, fuel);
      c.Value? ==> PassedEndLoop(x, Elements(c.st, c.v), body, c.st, fuel)
    case AutoreleasePool(body) => PassedEnd(body, st, fuel)
    case ExprStmt(e) => PassedEndExpr(e, st, fuel)
    case Return(e) => PassedEndExpr(e, st, fuel)
    case Break => true
    case Continue => true
  }

  /** Likewise from the condition of a do loop on. */
  ghost predicate PassedEndTest(s: Stmt, st: State, fuel: nat)
    requires s.Do?
    decreases fuel, s, 0
  {
    PassedEndExpr(s.cond, st, fuel) &&
    var t := TestOf(Eval(RemoveInExpr(s.cond), st, fuel));
    (t.Enter? && fuel > 0 ==> PassedEnd(s, t.st, fuel - 1)) &&
    (t.TestAgain? && fuel > 0 ==> PassedEndTest(s, t.st, fuel - 1))
  }

  predicate Continues(r: Ending) { r.Done? && !r.out.Returned? && !r.out.Broke? }

  ghost predicate PassedEndExpr(e: Expr, st: State, fuel: nat)
    decreases fuel, e, 0
  {
    match e
    case Literal(_) => true
    case VarRef(_) => true
    case Binary(_, a, b) =>
      PassedEndExpr(a, st, fuel) &&
      var ra := Eval(RemoveInExpr(a), st, fuel);
      ra.Value? ==> PassedEndExpr(b, ra.st, fuel)
    case Assign(_, e1) => PassedEndExpr(e1, st, fuel)
    case ParenOrCast(e1) => PassedEndExpr(e1, st, fuel)
    case Message(_, receiver) => receiver.Instance? ==> PassedEndExpr(receiver.e, st, fuel)
    case StmtExpr(body) => AllPassedEnd(body, true, st, fuel)
  }

  /** With `keepLast`, the last statement is not removed. */
  ghost predicate AllPassedEnd(ss: seq<Stmt>, keepLast: bool, st: State, fuel: nat)
    decreases fuel, ss, 0
  {
    if ss == [] then true
    else if Empty(ss[0]) && !(keepLast && |ss| == 1) then
      Terminates(ss[0], st) && AllPassedEnd(ss[1..], keepLast, st, fuel)
    else
      PassedEnd(ss[0], st, fuel) &&
      var r := Exec(RemoveIn(ss[0]), st, fuel);
      r.Done? && r.out.Normal? ==> AllPassedEnd(ss[1..], keepLast, r.st, fuel)
  }

  ghost predicate PassedEndLoop(x: Name, elements: seq<int>, body: Stmt, st: State, fuel: nat)
    decreases fuel, body, 1 + |elements|
  {
    elements == [] ||
    var bound := st.(vars := st.vars[x := elements[0]]);
    PassedEnd(body, bound, fuel) &&
    var r := Exec(RemoveIn(body), bound, fuel);
    Continues(r) ==> PassedEndLoop(x, elements[1..], body, r.st, fuel)
  }

  // ----- From the program to the reduced one -----

  /** As Alike, except for the value of a statement that ends normally. */
  predicate AlikeButValue(r: Ending, t: Ending) {
    && r.Done? && t.Done? && Same(r.st, t.st)
    && (r.out == t.out || (r.out.Normal? && t.out.Normal?))
  }

  lemma {:induction false} RemovingInExpr(e: Expr, st: State, other: State, fuel: nat)
    requires RemovableExpr(e) && Same(st, other) && !Eval(e, st, fuel).EndlessValue?
    ensures AlikeValue(Eval(e, st, fuel), Eval(RemoveInExpr(e), other, fuel)) && PassedEndExpr(e, other, fuel)
    decreases fuel, e, 0
  {
    match e
    case Literal(_) =>
    case VarRef(_) =>
    case Binary(_, a, b) =>
      RemovingInExpr(a, st, other, fuel);
      var ra := Eval(a, st, fuel);
      if ra.Value? { RemovingInExpr(b, ra.st, Eval(RemoveInExpr(a), other, fuel).st, fuel); }
    case Assign(_, e1) => RemovingInExpr(e1, st, other, fuel);
    case ParenOrCast(e1) => RemovingInExpr(e1, st, other, fuel);
    case Message(_, receiver) => if receiver.Instance? { RemovingInExpr(receiver.e, st, other, fuel); }
    case StmtExpr(body) => RemovingAllButLast(body, st, other, fuel);
  }

  /** Every ending of a program is an ending of the program without its empty
      statements: same observable state, same jump, same value. */
  lemma {:induction false} RemovingIn(s: Stmt, st: State, other: State, fuel: nat)
    requires Removable(s) && Same(st, other) && Exec(s, st, fuel).Done?
    ensures Alike(Exec(s, st, fuel), Exec(RemoveIn(s), other, fuel)) && PassedEnd(s, other, fuel)
    decreases fuel, s, 2
  {
    match s
    case NullStmt(_) =>
    case Compound(body) => RemovingEmpty(body, st, other, fuel);
    case If(_, cond, thn, els) => RemovingInIf(s, st, other, fuel);
    case While(_, cond, body) => RemovingInWhile(s, st, other, fuel);
    case Do(body, cond) => RemovingInDo(s, st, other, fuel);
    case ForIn(x, declared, collection, body) => RemovingInForIn(s, st, other, fuel);
    case AutoreleasePool(body) => RemovingIn(body, st, other, fuel);
    case ExprStmt(e) => RemovingInExpr(e, st, other, fuel);
    case Return(e) => RemovingInExpr(e, st, other, fuel);
    case Break =>
    case Continue =>
  }

  lemma {:induction false} RemovingInIf(s: Stmt, st: State, other: State, fuel: nat)
    requires s.If? && Removable(s) && Same(st, other) && Exec(s, st, fuel).Done?
    ensures Alike(Exec(s, st, fuel), Exec(RemoveIn(s), other, fuel)) && PassedEnd(s, other, fuel)
    decreases fuel, s, 0
  {
    RemovingInExpr(s.cond, st, other, fuel);
    var c, d := Eval(s.cond, st, fuel), Eval(RemoveInExpr(s.cond), other, fuel);
    if c.Value? {
      if c.v != 0 { RemovingIn(s.thn, c.st, d.st, fuel); }
      else if s.els.Some? { RemovingIn(s.els.value, c.st, d.st, fuel); }
    }
  }

  lemma {:induction false} RemovingInForIn(s: Stmt, st: State, other: State, fuel: nat)
    requires s.ForIn? && Removable(s) && Same(st, other) && Exec(s, st, fuel).Done?
    ensures Alike(Exec(s, st, fuel), Exec(RemoveIn(s), other, fuel)) && PassedEnd(s, other, fuel)
    decreases fuel, s, 0
  {
    RemovingInExpr(s.collection, st, other, fuel);
    var c, d := Eval(s.collection, st, fuel), Eval(RemoveInExpr(s.collection), other, fuel);
    if c.Value? { RemovingInLoop(s.x, Elements(c.st, c.v), s.body1, c.st, d.st, fuel); }
  }

  lemma {:induction false} RemovingInWhile(s: Stmt, st: State, other: State, fuel: nat)
    requires s.While? && Removable(s) && Same(st, other) && Exec(s, st, fuel).Done?
    ensures Alike(Exec(s, st, fuel), Exec(RemoveIn(s), other, fuel)) && PassedEnd(s, other, fuel)
    decreases fuel, s, 0
  {
    RemovingInExpr(s.cond, st, other, fuel);
    var t, u := TestOf(Eval(s.cond, st, fuel)), TestOf(Eval(RemoveInExpr(s.cond), other, fuel));
    if t.Enter? {
      RemovingIn(s.body1, t.st, u.st, fuel);
      var r, q := Exec(s.body1, t.st, fuel), Exec(RemoveIn(s.body1), u.st, fuel);
      if !r.out.Returned? && !r.out.Broke? { RemovingIn(s, r.st, q.st, fuel - 1); }
    } else if t.TestAgain? {
      RemovingIn(s, t.st, u.st, fuel - 1);
    }
  }

  lemma {:induction false} RemovingInDo(s: Stmt, st: State, other: State, fuel: nat)
    requires s.Do? && Removable(s) && Same(st, other) && Exec(s, st, fuel).Done?
    ensures Alike(Exec(s, st, fuel), Exec(RemoveIn(s), other, fuel)) && PassedEnd(s, other, fuel)
    decreases fuel, s, 1
  {
    RemovingIn(s.body1, st, other, fuel);
    var r, q := Exec(s.body1, st, fuel), Exec(RemoveIn(s.body1), other, fuel);
    if !r.out.Returned? && !r.out.Broke? { RemovingInTest(s, r.st, q.st, fuel); }
  }

  lemma {:induction false} RemovingInTest(s: Stmt, st: State, other: State, fuel: nat)
    requires s.Do? && Removable(s) && Same(st, other) && DoTest(s, st, fuel).Done?
    ensures Alike(DoTest(s, st, fuel), DoTest(RemoveIn(s), other, fuel)) && PassedEndTest(s, other, fuel)
    decreases fuel, s, 0
  {
    RemovingInExpr(s.cond, st, other, fuel);
    var t, u := TestOf(Eval(s.cond, st, fuel)), TestOf(Eval(RemoveInExpr(s.cond), other, fuel));
    if t.Enter? { RemovingIn(s, t.st, u.st, fuel - 1); }
    else if t.TestAgain? { RemovingInTest(s, t.st, u.st, fuel - 1); }
  }

  lemma {:induction false} RemovingInLoop(x: Name, elements: seq<int>, body: Stmt, st: State, other: State, fuel: nat)
    requires Removable(body) && Same(st, other) && ForLoop(x, elements, body, st, fuel).Done?
    ensures Alike(ForLoop(x, elements, body, st, fuel), ForLoop(x, elements, RemoveIn(body), other, fuel))
    ensures PassedEndLoop(x, elements, body, other, fuel)
    decreases fuel, body, 2 + |elements|
  {
    if elements != [] {
      var a, b := st.(vars := st.vars[x := elements[0]]), other.(vars := other.vars[x := elements[0]]);
      RemovingIn(body, a, b, fuel);
      var r, q := Exec(body, a, fuel), Exec(RemoveIn(body), b, fuel);
      if !r.out.Returned? && !r.out.Broke? { RemovingInLoop(x, elements[1..], body, r.st, q.st, fuel); }
    }
  }

  /** A removed statement that ends has no effect. */
  lemma {:induction false} DroppedEnds(s: Stmt, st: State, other: State, fuel: nat)
    requires Harmless(s) && Same(st, other) && Exec(s, st, fuel).Done?
    ensures Unchanging(st, Exec(s, st, fuel)) && Terminates(s, other)
  {
    EmptyIsSound(s, st, fuel);
    MoreFuel(s, st, other, fuel, fuel);
  }

  lemma {:induction false} RemovingEmpty(ss: seq<Stmt>, st: State, other: State, fuel: nat)
    requires AllRemovable(ss) && Same(st, other) && ExecSeq(ss, st, fuel).Done?
    ensures AlikeButValue(ExecSeq(ss, st, fuel), ExecSeq(RemoveEmpty(ss), other, fuel))
    ensures AllPassedEnd(ss, false, other, fuel)
    decreases fuel, ss, 0
  {
    if ss != [] {
      var r := Exec(ss[0], st, fuel);
      if Empty(ss[0]) {
        DroppedEnds(ss[0], st, other, fuel);
        if |ss| > 1 { RemovingEmpty(ss[1..], r.st, other, fuel); }
        assert [] + RemoveEmpty(ss[1..]) == RemoveEmpty(ss[1..]);
      } else {
        RemovingIn(ss[0], st, other, fuel);
        var q := Exec(RemoveIn(ss[0]), other, fuel);
        if r.out.Normal? && |ss| > 1 { RemovingEmpty(ss[1..], r.st, q.st, fuel); }
        assert ([RemoveIn(ss[0])] + RemoveEmpty(ss[1..]))[1..] == RemoveEmpty(ss[1..]);
      }
    }
  }

  /** In a statement expression even the value is kept: the last statement is
      never removed. */
  lemma {:induction false} RemovingAllButLast(ss: seq<Stmt>, st: State, other: State, fuel: nat)
    requires AllRemovable(ss) && Same(st, other) && ExecSeq(ss, st, fuel).Done?
    ensures Alike(ExecSeq(ss, st, fuel), ExecSeq(RemoveAllButLast(ss), other, fuel))
    ensures AllPassedEnd(ss, true, other, fuel)
    decreases fuel, ss, 0
  {
    if |ss| == 1 {
      RemovingIn(ss[0], st, other, fuel);
    } else if ss != [] {
      var r, rest := Exec(ss[0], st, fuel), RemoveAllButLast(ss[1..]);
      if Empty(ss[0]) {
        DroppedEnds(ss[0], st, other, fuel);
        RemovingAllButLast(ss[1..], r.st, other, fuel);
        assert [] + rest == rest;
      } else {
        RemovingIn(ss[0], st, other, fuel);
        var q := Exec(RemoveIn(ss[0]), other, fuel);
        if r.out.Normal? { RemovingAllButLast(ss[1..], r.st, q.st, fuel); }
        assert ([RemoveIn(ss[0])] + rest)[1..] == rest;
      }
    }
  }

  // ----- And back -----

  /** From a state, whatever its retain counts, and with enough fuel a statement
      ends like t. */
  ghost predicate Settles(s: Stmt, st: State, enough: nat, t: Ending) {
    forall p: State, fuel: nat :: Same(p, st) && fuel >= enough ==> Alike(Exec(s, p, fuel), t)
  }

  ghost predicate SettlesExpr(e: Expr, st: State, enough: nat, t: Valuing) {
    forall p: State, fuel: nat :: Same(p, st) && fuel >= enough ==> AlikeValue(Eval(e, p, fuel), t)
  }

  ghost predicate SettlesTest(s: Stmt, st: State, enough: nat, t: Ending)
    requires s.Do?
  {
    forall p: State, fuel: nat :: Same(p, st) && fuel >= enough ==> Alike(DoTest(s, p, fuel), t)
  }

  ghost predicate SettlesLoop(x: Name, elements: seq<int>, body: Stmt, st: State, enough: nat, t: Ending) {
    forall p: State, fuel: nat :: Same(p, st) && fuel >= enough ==> Alike(ForLoop(x, elements, body, p, fuel), t)
  }

  /** The value matters only with `value`. */
  ghost predicate SettlesSeq(ss: seq<Stmt>, value: bool, st: State, enough: nat, t: Ending) {
    forall p: State, fuel: nat :: Same(p, st) && fuel >= enough ==>
      var r := ExecSeq(ss, p, fuel);
      if value then Alike(r, t) else AlikeButValue(r, t)
  }

  function Max(a: nat, b: nat): nat { if a < b then b else a }

  lemma {:induction false} RestoringExpr(e: Expr, st: State, fuel: nat) returns (enough: nat)
    requires RemovableExpr(e) && !Eval(RemoveInExpr(e), st, fuel).EndlessValue? && PassedEndExpr(e, st, fuel)
    ensures SettlesExpr(e, st, enough, Eval(RemoveInExpr(e), st, fuel))
    decreases fuel, e, 0
  {
    enough := 0;
    match e
    case Literal(_) =>
    case VarRef(_) =>
    case Binary(_, a, b) =>
      enough := RestoringExpr(a, st, fuel);
      var ra := Eval(RemoveInExpr(a), st, fuel);
      if ra.Value? {
        var enoughB := RestoringExpr(b, ra.st, fuel);
        enough := Max(enough, enoughB);
      }
    case Assign(_, e1) => enough := RestoringExpr(e1, st, fuel);
    case ParenOrCast(e1) => enough := RestoringExpr(e1, st, fuel);
    case Message(_, receiver) => if receiver.Instance? { enough := RestoringExpr(receiver.e, st, fuel); }
    case StmtExpr(body) => enough := RestoringAllButLast(body, st, fuel);
  }

  /** When the reduced program ends and no statement removed on its way is
      endless, the program ends alike. */
  lemma {:induction false} RestoringIn(s: Stmt, st: State, fuel: nat) returns (enough: nat)
    requires Removable(s) && Exec(RemoveIn(s), st, fuel).Done? && PassedEnd(s, st, fuel)
    ensures Settles(s, st, enough, Exec(RemoveIn(s), st, fuel))
    decreases fuel, s, 2
  {
    enough := 0;
    match s
    case NullStmt(_) =>
    case Compound(body) => enough := RestoringEmpty(body, st, fuel);
    case If(_, cond, thn, els) => enough := RestoringInIf(s, st, fuel);
    case While(_, cond, body) => enough := RestoringInWhile(s, st, fuel);
    case Do(body, cond) => enough := RestoringInDo(s, st, fuel);
    case ForIn(x, declared, collection, body) => enough := RestoringInForIn(s, st, fuel);
    case AutoreleasePool(body) => enough := RestoringIn(body, st, fuel);
    case ExprStmt(e) => enough := RestoringExpr(e, st, fuel);
    case Return(e) => enough := RestoringExpr(e, st, fuel);
    case Break =>
    case Continue =>
  }

  lemma {:induction false} RestoringInIf(s: Stmt, st: State, fuel: nat) returns (enough: nat)
    requires s.If? && Removable(s) && Exec(RemoveIn(s), st, fuel).Done? && PassedEnd(s, st, fuel)
    ensures Settles(s, st, enough, Exec(RemoveIn(s), st, fuel))
    decreases fuel, s, 0
  {
    enough := RestoringExpr(s.cond, st, fuel);
    var c, branch := Eval(RemoveInExpr(s.cond), st, fuel), 0;
    if c.Value? {
      if c.v != 0 { branch := RestoringIn(s.thn, c.st, fuel); }
      else if s.els.Some? { branch := RestoringIn(s.els.value, c.st, fuel); }
    }
    enough := Max(enough, branch);
  }

  lemma {:induction false} RestoringInWhile(s: Stmt, st: State, fuel: nat) returns (enough: nat)
    requires s.While? && Removable(s) && Exec(RemoveIn(s), st, fuel).Done? && PassedEnd(s, st, fuel)
    ensures Settles(s, st, enough, Exec(RemoveIn(s), st, fuel))
    decreases fuel, s, 0
  {
    enough := RestoringExpr(s.cond, st, fuel);
    var t := TestOf(Eval(RemoveInExpr(s.cond), st, fuel));
    if t.Enter? {
      var once := RestoringIn(s.body1, t.st, fuel);
      enough := Max(enough, once);
      var q := Exec(RemoveIn(s.body1), t.st, fuel);
      if Continues(q) {
        var again := RestoringIn(s, q.st, fuel - 1);
        enough := Max(enough, again + 1);
      }
    } else if t.TestAgain? {
      var again := RestoringIn(s, t.st, fuel - 1);
      enough := Max(enough, again + 1);
    }
  }

  lemma {:induction false} RestoringInDo(s: Stmt, st: State, fuel: nat) returns (enough: nat)
    requires s.Do? && Removable(s) && Exec(RemoveIn(s), st, fuel).Done? && PassedEnd(s, st, fuel)
    ensures Settles(s, st, enough, Exec(RemoveIn(s), st, fuel))
    decreases fuel, s, 1
  {
    enough := RestoringIn(s.body1, st, fuel);
    var q := Exec(RemoveIn(s.body1), st, fuel);
    if Continues(q) {
      var test := RestoringTest(s, q.st, fuel);
      enough := Max(enough, test);
    }
  }

  lemma {:induction false} RestoringTest(s: Stmt, st: State, fuel: nat) returns (enough: nat)
    requires s.Do? && Removable(s) && DoTest(RemoveIn(s), st, fuel).Done? && PassedEndTest(s, st, fuel)
    ensures SettlesTest(s, st, enough, DoTest(RemoveIn(s), st, fuel))
    decreases fuel, s, 0
  {
    enough := RestoringExpr(s.cond, st, fuel);
    var t := TestOf(Eval(RemoveInExpr(s.cond), st, fuel));
    if t.Enter? {
      var again := RestoringIn(s, t.st, fuel - 1);
      enough := Max(enough, again + 1);
    } else if t.TestAgain? {
      var again := RestoringTest(s, t.st, fuel - 1);
      enough := Max(enough, again + 1);
    }
  }

  lemma {:induction false} RestoringInForIn(s: Stmt, st: State, fuel: nat) returns (enough: nat)
    requires s.ForIn? && Removable(s) && Exec(RemoveIn(s), st, fuel).Done? && PassedEnd(s, st, fuel)
    ensures Settles(s, st, enough, Exec(RemoveIn(s), st, fuel))
    decreases fuel, s, 0
  {
    enough := RestoringExpr(s.collection, st, fuel);
    var c := Eval(RemoveInExpr(s.collection), st, fuel);
    if c.Value? {
      var loop := RestoringInLoop(s.x, Elements(c.st, c.v), s.body1, c.st, fuel);
      enough := Max(enough, loop);
    }
  }

  lemma {:induction false} RestoringInLoop(x: Name, elements: seq<int>, body: Stmt, st: State, fuel: nat) returns (enough: nat)
    requires Removable(body) && ForLoop(x, elements, RemoveIn(body), st, fuel).Done?
    requires PassedEndLoop(x, elements, body, st, fuel)
    ensures SettlesLoop(x, elements, body, st, enough, ForLoop(x, elements, RemoveIn(body), st, fuel))
    decreases fuel, body, 2 + |elements|
  {
    enough := 0;
    if elements != [] {
      var bound := st.(vars := st.vars[x := elements[0]]);
      enough := RestoringIn(body, bound, fuel);
      var q := Exec(RemoveIn(body), bound, fuel);
      if Continues(q) {
        var rest := RestoringInLoop(x, elements[1..], body, q.st, fuel);
        enough := Max(enough, rest);
      }
      forall p: State, more: nat | Same(p, st) && more >= enough
        ensures Alike(ForLoop(x, elements, body, p, more), ForLoop(x, elements, RemoveIn(body), st, fuel))
      {
        RoundAlike(x, elements, body, RemoveIn(body), p, st, more, fuel);
      }
    }
  }

  lemma {:induction false} RoundAlike(x: Name, elements: seq<int>, body: Stmt, reduced: Stmt, p: State, st: State, more: nat, fuel: nat)
    requires elements != [] && ForLoop(x, elements, reduced, st, fuel).Done?
    requires var r := Exec(body, p.(vars := p.vars[x := elements[0]]), more);
             var q := Exec(reduced, st.(vars := st.vars[x := elements[0]]), fuel);
             && Alike(r, q)
             && (Continues(q) ==> Alike(ForLoop(x, elements[1..], body, r.st, more), ForLoop(x, elements[1..], reduced, q.st, fuel)))
    ensures Alike(ForLoop(x, elements, body, p, more), ForLoop(x, elements, reduced, st, fuel))
  {
  }

  /** A removed statement that ends somewhere has no effect with enough fuel. */
  lemma {:induction false} RestoringDropped(s: Stmt, st: State) returns (enough: nat)
    requires Harmless(s) && Terminates(s, st)
    ensures forall p: State, fuel: nat :: Same(p, st) && fuel >= enough ==>
              Exec(s, p, fuel).Done? && Unchanging(p, Exec(s, p, fuel))
  {
    enough :| Exec(s, st, enough).Done?;
    forall p: State, fuel: nat | Same(p, st) && fuel >= enough
      ensures Exec(s, p, fuel).Done? && Unchanging(p, Exec(s, p, fuel))
    {
      MoreFuel(s, st, p, enough, fuel);
      EmptyIsSound(s, p, fuel);
    }
  }

  lemma {:induction false} RestoringEmpty(ss: seq<Stmt>, st: State, fuel: nat) returns (enough: nat)
    requires AllRemovable(ss) && ExecSeq(RemoveEmpty(ss), st, fuel).Done? && AllPassedEnd(ss, false, st, fuel)
    ensures SettlesSeq(ss, false, st, enough, ExecSeq(RemoveEmpty(ss), st, fuel))
    decreases fuel, ss, 0
  {
    enough := 0;
    if ss != [] {
      var others := RemoveEmpty(ss[1..]);
      if Empty(ss[0]) {
        enough := RestoringDropped(ss[0], st);
        assert [] + others == others;
        var rest := RestoringEmpty(ss[1..], st, fuel);
        enough := Max(enough, rest);
      } else {
        assert ([RemoveIn(ss[0])] + others)[1..] == others;
        enough := RestoringIn(ss[0], st, fuel);
        var q := Exec(RemoveIn(ss[0]), st, fuel);
        if q.out.Normal? {
          EndOfSeq(others, q.st, fuel);
          var rest := RestoringEmpty(ss[1..], q.st, fuel);
          enough := Max(enough, rest);
        }
      }
    }
  }

  lemma {:induction false} EndOfSeq(ss: seq<Stmt>, st: State, fuel: nat)
    ensures ss == [] ==> ExecSeq(ss, st, fuel) == Done(st, Normal(0))
  {
  }

  lemma {:induction false} RestoringAllButLast(ss: seq<Stmt>, st: State, fuel: nat) returns (enough: nat)
    requires AllRemovable(ss) && ExecSeq(RemoveAllButLast(ss), st, fuel).Done? && AllPassedEnd(ss, true, st, fuel)
    ensures SettlesSeq(ss, true, st, enough, ExecSeq(RemoveAllButLast(ss), st, fuel))
    decreases fuel, ss, 0
  {
    enough := 0;
    if |ss| == 1 {
      enough := RestoringIn(ss[0], st, fuel);
    } else if ss != [] {
      var others := RemoveAllButLast(ss[1..]);
      if Empty(ss[0]) {
        enough := RestoringDropped(ss[0], st);
        assert [] + others == others;
        var rest := RestoringAllButLast(ss[1..], st, fuel);
        enough := Max(enough, rest);
      } else {
        assert ([RemoveIn(ss[0])] + others)[1..] == others;
        enough := RestoringIn(ss[0], st, fuel);
        var q := Exec(RemoveIn(ss[0]), st, fuel);
        if q.out.Normal? {
          var rest := RestoringAllButLast(ss[1..], q.st, fuel);
          enough := Max(enough, rest);
        }
      }
    }
  }

  // ----- The whole truth -----

  /** A program ends exactly when its reduced form ends and passes no place where
      an endless statement was removed. */
  lemma {:induction false} RemovalKeepsTermination(s: Stmt, st: State)
    requires Removable(s)
    ensures Terminates(s, st) <==> exists fuel: nat :: Exec(RemoveIn(s), st, fuel).Done? && PassedEnd(s, st, fuel)
  {
    if Terminates(s, st) {
      var fuel: nat :| Exec(s, st, fuel).Done?;
      RemovingIn(s, st, st, fuel);
    }
    if fuel: nat :| Exec(RemoveIn(s), st, fuel).Done? && PassedEnd(s, st, fuel) {
      var enough := RestoringIn(s, st, fuel);
      assert Alike(Exec(s, st, enough), Exec(RemoveIn(s), st, fuel));
    }
  }

  /** If both end, with whatever fuel, they end alike. */
  lemma {:induction false} RemovalKeepsEndings(s: Stmt, st: State, fuel: nat, fuel': nat)
    requires Removable(s) && Exec(s, st, fuel).Done? && Exec(RemoveIn(s), st, fuel').Done?
    ensures Alike(Exec(s, st, fuel), Exec(RemoveIn(s), st, fuel'))
  {
    RemovingIn(s, st, st, fuel);
    if fuel <= fuel' { MoreFuel(RemoveIn(s), st, st, fuel, fuel'); } else { MoreFuel(RemoveIn(s), st, st, fuel', fuel); }
  }

  /** A removed statement ends exactly when it ends as told without repeating its
      loops. */
  lemma {:induction false} RemovedTerminates(s: Stmt, st: State)
    requires Empty(s) && Declares(s)
    ensures Terminates(s, st) <==> exists fuel: nat :: FateIn(s, st, fuel).Ends?
  {
    if fuel: nat :| Exec(s, st, fuel).Done? {
      EmptyEnds(s, st, fuel);
      assert FateIn(s, st, fuel).Ends?;
    }
    if fuel: nat :| FateIn(s, st, fuel).Ends? {
      EmptyEnds(s, st, fuel);
      assert Exec(s, st, fuel).Done?;
    }
  }

  /** A removed loop is endless exactly when its condition does not end it the
      first time it is tried. */
  lemma {:induction false} RemovedWhileTerminates(s: Stmt, st: State)
    requires s.While? && Empty(s) && Declares(s) && Tame(s.body1, false)
    ensures Terminates(s, st) <==> exists fuel: nat :: EndsLoop(Eval(s.cond, st, fuel))
  {
    if fuel: nat :| Exec(s, st, fuel).Done? {
      HarmlessWhile(s, st, fuel);
      assert EndsLoop(Eval(s.cond, st, fuel));
    }
    if fuel: nat :| EndsLoop(Eval(s.cond, st, fuel)) {
      HarmlessWhile(s, st, fuel);
      assert Exec(s, st, fuel).Done?;
    }
  }

  /** Likewise for a loop that tests last, whose body has to end as well. */
  lemma {:induction false} RemovedDoTerminates(s: Stmt, st: State)
    requires s.Do? && Empty(s) && Declares(s) && Tame(s.body1, false)
    ensures Terminates(s, st) <==> exists fuel: nat :: Exec(s.body1, st, fuel).Done? && EndsLoop(Eval(s.cond, st, fuel))
  {
    if fuel: nat :| Exec(s, st, fuel).Done? {
      HarmlessDo(s, st, fuel);
      assert Exec(s.body1, st, fuel).Done? && EndsLoop(Eval(s.cond, st, fuel));
    }
    if fuel: nat :| Exec(s.body1, st, fuel).Done? && EndsLoop(Eval(s.cond, st, fuel)) {
      HarmlessDo(s, st, fuel);
      assert Exec(s, st, fuel).Done?;
    }
  }

  /** Removal does not keep programs from ending: an endless loop with an empty
      body is removed. */
  lemma {:induction false} EndlessLoopIsRemoved(st: State, fuel: nat)
    ensures var loop := While(false, Literal(1), NullStmt(true));
            && Exec(Compound([loop]), st, fuel).NoFuel?
            && RemoveIn(Compound([loop])) == Compound([])
            && Exec(Compound([]), st, fuel) == Done(st, Normal(0))
  {
    var loop := While(false, Literal(1), NullStmt(true));
    EndlessLoop(st, fuel);
    assert [loop][1..] == [];
    assert RemoveEmpty([loop]) == [] + RemoveEmpty([]);
  }
}
