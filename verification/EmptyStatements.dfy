/** A small statement language with the meaning of its programs, the checker that
    calls a statement empty, and the pass that removes empty statements
    (TransEmptyStatementsAndDealloc.cpp; hasSideEffects in Transforms.cpp). */
module EmptyStatements {
  import opened Wrappers

  // ----- Syntax -----

  type Name = string

  datatype BinaryOp = Add | Less

  /** Method families, as far as memory management cares. */
  datatype Family = Autorelease | Dealloc | Release | Retain | OtherFamily

  datatype Receiver = Instance(e: Expr) | SuperInstance | Class

  datatype Expr =
    | Literal(n: int)
    | VarRef(x: Name)
    | Binary(op: BinaryOp, a: Expr, b: Expr)
    | Assign(x: Name, e: Expr)
    | ParenOrCast(e: Expr)
    | Message(family: Family, receiver: Receiver)
    | StmtExpr(body: seq<Stmt>)

  datatype Stmt =
    | NullStmt(leftover: bool)
    | Compound(body: seq<Stmt>)
    | If(conditionVariable: bool, cond: Expr, thn: Stmt, els: Option<Stmt>)
    | While(conditionVariable: bool, cond: Expr, body1: Stmt)
    | Do(body1: Stmt, cond: Expr)
    | ForIn(x: Name, declared: bool, collection: Expr, body1: Stmt)
    | AutoreleasePool(body1: Stmt)
    | ExprStmt(e: Expr)
    | Return(e: Expr)
    | Break
    | Continue

  // ----- Meaning -----

  /** Retain counts are not observable: after the migration nobody counts. */
  datatype State = State(vars: map<Name, int>, collections: map<int, seq<int>>, log: seq<int>, counts: map<int, int>)

  predicate Same(s: State, t: State) {
    s.vars == t.vars && s.collections == t.collections && s.log == t.log
  }

  datatype Outcome = Normal(v: int) | Returned(v: int) | Broke | Continued

  /** How a statement ends; running out of fuel stands for not ending. */
  datatype Ending = NoFuel | Done(st: State, out: Outcome)

  /** How an expression ends; a statement expression can be left by a jump. */
  datatype Valuing = EndlessValue | Value(st: State, v: int) | Escape(st: State, out: Outcome)

  function Lookup(st: State, x: Name): int { if x in st.vars then st.vars[x] else 0 }

  function Elements(st: State, c: int): seq<int> { if c in st.collections then st.collections[c] else [] }

  predicate Counts(family: Family, receiver: Receiver) {
    !family.OtherFamily? && !receiver.Class?
  }

  function Send(family: Family, receiver: Receiver, st: State, target: int): Valuing {
    if Counts(family, receiver) then
      var n := if target in st.counts then st.counts[target] else 0;
      Value(st.(counts := st.counts[target := if family.Retain? then n + 1 else n - 1]), target)
    else
      Value(st.(log := st.log + [target]), |st.log|)
  }

  function Eval(e: Expr, st: State, fuel: nat): Valuing
    decreases fuel, e, 0
  {
    match e
    case Literal(n) => Value(st, n)
    case VarRef(x) => Value(st, Lookup(st, x))
    case Binary(op, a, b) =>
      var ra := Eval(a, st, fuel);
      if !ra.Value? then ra
      else
        var rb := Eval(b, ra.st, fuel);
        if !rb.Value? then rb
        else Value(rb.st, if op.Add? then ra.v + rb.v else if ra.v < rb.v then 1 else 0)
    case Assign(x, e1) =>
      var r := Eval(e1, st, fuel);
      if !r.Value? then r else Value(r.st.(vars := r.st.vars[x := r.v]), r.v)
    case ParenOrCast(e1) => Eval(e1, st, fuel)
    case Message(family, receiver) =>
      if receiver.Instance? then
        var r := Eval(receiver.e, st, fuel);
        if !r.Value? then r else Send(family, receiver, r.st, r.v)
      else Send(family, receiver, st, 0)
    case StmtExpr(body) =>
      var r := ExecSeq(body, st, fuel);
      if r.NoFuel? then EndlessValue
      else if r.out.Normal? then Value(r.st, r.out.v)
      else Escape(r.st, r.out)
  }

  /** The ending of a statement whose expression did not give a value. */
  function Unvalued(r: Valuing): Ending
    requires !r.Value?
  {
    if r.EndlessValue? then NoFuel else Done(r.st, r.out)
  }

  /** What the condition of a loop has decided. */
  datatype Test = Undecided | Enter(st: State) | TestAgain(st: State) | Leave(st: State, out: Outcome)

  /** A `break` or `continue` that leaves the condition of a loop belongs to that
      loop (ParseStmt.cpp:1343-1362, CGStmt.cpp:629-656 and 718-739). */
  function TestOf(c: Valuing): Test {
    match c
    case EndlessValue => Undecided
    case Value(st, v) => if v == 0 then Leave(st, Normal(0)) else Enter(st)
    case Escape(st, out) =>
      if out.Continued? then TestAgain(st) else Leave(st, if out.Broke? then Normal(0) else out)
  }

  function Exec(s: Stmt, st: State, fuel: nat): Ending
    decreases fuel, s, 1
  {
    match s
    case NullStmt(_) => Done(st, Normal(0))
    case Compound(body) =>
      var r := ExecSeq(body, st, fuel);
      if r.Done? && r.out.Normal? then Done(r.st, Normal(0)) else r
    case If(_, cond, thn, els) =>
      var c := Eval(cond, st, fuel);
      if !c.Value? then Unvalued(c)
      else if c.v != 0 then Exec(thn, c.st, fuel)
      else if els.Some? then Exec(els.value, c.st, fuel)
      else Done(c.st, Normal(0))
    case While(_, cond, body) =>
      var t := TestOf(Eval(cond, st, fuel));
      if t.Undecided? then NoFuel
      else if t.Leave? then Done(t.st, t.out)
      else if t.TestAgain? then if fuel == 0 then NoFuel else Exec(s, t.st, fuel - 1)
      else
        var r := Exec(body, t.st, fuel);
        if r.NoFuel? || r.out.Returned? then r
        else if r.out.Broke? then Done(r.st, Normal(0))
        else if fuel == 0 then NoFuel
        else Exec(s, r.st, fuel - 1)
    case Do(body, cond) =>
      var r := Exec(body, st, fuel);
      if r.NoFuel? || r.out.Returned? then r
      else if r.out.Broke? then Done(r.st, Normal(0))
      else DoTest(s, r.st, fuel)
    case ForIn(x, declared, collection, body) =>
      var c := Eval(collection, st, fuel);
      if !c.Value? then Unvalued(c)
      else
        var r := ForLoop(x, Elements(c.st, c.v), body, c.st, fuel);
        if r.Done? && declared then Done(LeaveScope(x, c.st, r.st), r.out) else r
    case AutoreleasePool(body) => Exec(body, st, fuel)
    case ExprStmt(e) =>
      var r := Eval(e, st, fuel);
      if !r.Value? then Unvalued(r) else Done(r.st, Normal(r.v))
    case Return(e) =>
      var r := Eval(e, st, fuel);
      if !r.Value? then Unvalued(r) else Done(r.st, Returned(r.v))
    case Break => Done(st, Broke)
    case Continue => Done(st, Continued)
  }

  /** The value of a sequence is that of its last statement. */
  function ExecSeq(ss: seq<Stmt>, st: State, fuel: nat): Ending
    decreases fuel, ss, 0
  {
    if ss == [] then Done(st, Normal(0))
    else
      var r := Exec(ss[0], st, fuel);
      if r.Done? && r.out.Normal? && |ss| > 1 then ExecSeq(ss[1..], r.st, fuel) else r
  }

  /** A do loop from its condition on. */
  function DoTest(s: Stmt, st: State, fuel: nat): Ending
    requires s.Do?
    decreases fuel, s, 0
  {
    var t := TestOf(Eval(s.cond, st, fuel));
    if t.Undecided? then NoFuel
    else if t.Leave? then Done(t.st, t.out)
    else if fuel == 0 then NoFuel
    else if t.Enter? then Exec(s, t.st, fuel - 1)
    else DoTest(s, t.st, fuel - 1)
  }

  /** Without a `break`, the variable is nil in the end (CGObjC.cpp:1713-1723);
      only a variable from outside the loop is there to be seen then. */
  function ForLoop(x: Name, elements: seq<int>, body: Stmt, st: State, fuel: nat): Ending
    decreases fuel, body, 1 + |elements|
  {
    if elements == [] then Done(st.(vars := st.vars[x := 0]), Normal(0))
    else
      var r := Exec(body, st.(vars := st.vars[x := elements[0]]), fuel);
      if r.NoFuel? || r.out.Returned? then r
      else if r.out.Broke? then Done(r.st, Normal(0))
      else ForLoop(x, elements[1..], body, r.st, fuel)
  }

  /** A variable declared in the loop header is gone after the loop. */
  function LeaveScope(x: Name, outer: State, inner: State): State {
    inner.(vars := if x in outer.vars then inner.vars[x := outer.vars[x]] else inner.vars - {x})
  }

  // ----- Side effects, as the migrator sees them -----

  /** The compiler's own notion. */
  predicate HasSideEffects(e: Expr)
    decreases e, 0
  {
    match e
    case Literal(_) => false
    case VarRef(_) => false
    case Binary(_, a, b) => HasSideEffects(a) || HasSideEffects(b)
    case Assign(_, _) => true
    case ParenOrCast(e1) => HasSideEffects(e1)
    case Message(_, _) => true
    case StmtExpr(body) => AnySideEffects(body)
  }

  /** Looks only at the expressions inside a statement. */
  predicate StmtHasSideEffects(s: Stmt)
    decreases s, 0
  {
    match s
    case NullStmt(_) => false
    case Compound(body) => AnySideEffects(body)
    case If(_, cond, thn, els) =>
      HasSideEffects(cond) || StmtHasSideEffects(thn) || (els.Some? && StmtHasSideEffects(els.value))
    case While(_, cond, body) => HasSideEffects(cond) || StmtHasSideEffects(body)
    case Do(body, cond) => HasSideEffects(cond) || StmtHasSideEffects(body)
    case ForIn(_, _, collection, body) => HasSideEffects(collection) || StmtHasSideEffects(body)
    case AutoreleasePool(body) => StmtHasSideEffects(body)
    case ExprStmt(e) => HasSideEffects(e)
    case Return(e) => HasSideEffects(e)
    case Break => false
    case Continue => false
  }

  predicate AnySideEffects(ss: seq<Stmt>)
    decreases ss, 0
  {
    ss != [] && (StmtHasSideEffects(ss[0]) || AnySideEffects(ss[1..]))
  }

  /** Memory-management messages do not count, whatever they are sent to. */
  predicate MigratorSideEffects(e: Expr)
    decreases e
  {
    if !HasSideEffects(e) then false
    else
      match e
      case ParenOrCast(e1) => MigratorSideEffects(e1)
      case Message(family, receiver) =>
        if family.OtherFamily? then true
        else if receiver.SuperInstance? then false
        else if receiver.Instance? then MigratorSideEffects(receiver.e)
        else true
      case _ => true
  }

  // ----- The checker -----

  predicate Empty(s: Stmt)
    decreases s, 0
  {
    match s
    case NullStmt(leftover) => leftover
    case Compound(body) => body != [] && AllEmpty(body)
    case If(conditionVariable, cond, thn, els) =>
      !conditionVariable && !MigratorSideEffects(cond) && Empty(thn) && (els.None? || Empty(els.value))
    case While(conditionVariable, cond, body) => !conditionVariable && !MigratorSideEffects(cond) && Empty(body)
    case Do(body, cond) => !MigratorSideEffects(cond) && Empty(body)
    case ForIn(_, _, collection, body) => !MigratorSideEffects(collection) && Empty(body)
    case AutoreleasePool(body) => Empty(body)
    case ExprStmt(_) => false
    case Return(_) => false
    case Break => false
    case Continue => false
  }

  predicate AllEmpty(ss: seq<Stmt>)
    decreases ss, 0
  {
    ss == [] || (Empty(ss[0]) && AllEmpty(ss[1..]))
  }

  // ----- The remover -----

  function RemoveIn(s: Stmt): Stmt
    decreases s, 0
  {
    match s
    case NullStmt(_) => s
    case Compound(body) => Compound(RemoveEmpty(body))
    case If(cv, cond, thn, els) =>
      If(cv, RemoveInExpr(cond), RemoveIn(thn), if els.None? then None else Some(RemoveIn(els.value)))
    case While(cv, cond, body) => While(cv, RemoveInExpr(cond), RemoveIn(body))
    case Do(body, cond) => Do(RemoveIn(body), RemoveInExpr(cond))
    case ForIn(x, declared, collection, body) => ForIn(x, declared, RemoveInExpr(collection), RemoveIn(body))
    case AutoreleasePool(body) => AutoreleasePool(RemoveIn(body))
    case ExprStmt(e) => ExprStmt(RemoveInExpr(e))
    case Return(e) => Return(RemoveInExpr(e))
    case Break => s
    case Continue => s
  }

  function RemoveInExpr(e: Expr): Expr
    decreases e, 0
  {
    match e
    case Literal(_) => e
    case VarRef(_) => e
    case Binary(op, a, b) => Binary(op, RemoveInExpr(a), RemoveInExpr(b))
    case Assign(x, e1) => Assign(x, RemoveInExpr(e1))
    case ParenOrCast(e1) => ParenOrCast(RemoveInExpr(e1))
    case Message(family, receiver) =>
      Message(family, if receiver.Instance? then Instance(RemoveInExpr(receiver.e)) else receiver)
    case StmtExpr(body) => StmtExpr(RemoveAllButLast(body))
  }

  /** The children of a compound statement: empty ones go. */
  function RemoveEmpty(ss: seq<Stmt>): seq<Stmt>
    decreases ss, 0
  {
    if ss == [] then []
    else (if Empty(ss[0]) then [] else [RemoveIn(ss[0])]) + RemoveEmpty(ss[1..])
  }

  /** The children of a statement expression: the last one stays. */
  function RemoveAllButLast(ss: seq<Stmt>): (kept: seq<Stmt>)
    ensures ss != [] ==> kept != []
    decreases ss, 0
  {
    if ss == [] then []
    else if |ss| == 1 then [RemoveIn(ss[0])]
    else (if Empty(ss[0]) then [] else [RemoveIn(ss[0])]) + RemoveAllButLast(ss[1..])
  }
}
