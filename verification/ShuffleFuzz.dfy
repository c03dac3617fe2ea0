/** The shufflevector fuzzer (shuffle_fuzz.py): the program it emits computes
    what its symbolic evaluation expects. */
module ShuffleFuzz {

  /** Lane choices of one shuffle: -1 leaves a lane undefined. */
  type Mask = seq<int>

  /** Lanes of a symbolic vector: -1 is undefined. */
  type Lanes = seq<int>

  /** Level i of a tree of height h has h - i shuffles of `width` lanes each,
      drawing from the lanes of two vectors. */
  ghost predicate ShuffleTree(tree: seq<seq<Mask>>, width: nat) {
    && (forall i :: 0 <= i < |tree| ==> |tree[i]| == |tree| - i)
    && (forall i, j :: 0 <= i < |tree| && 0 <= j < |tree[i]| ==> IsMask(tree[i][j], width))
  }

  ghost predicate IsMask(m: Mask, width: nat) {
    |m| == width && forall k :: 0 <= k < width ==> -1 <= m[k] < 2 * width
  }

  ghost predicate Vectors(vs: seq<Lanes>, n: nat, width: nat) {
    |vs| == n && forall i :: 0 <= i < n ==> |vs[i]| == width
  }

  // ----- Symbolic evaluation -----

  function SymbolicShuffle(a: Lanes, b: Lanes, m: Mask, width: nat): Lanes
    requires |a| == |b| == width && IsMask(m, width)
  {
    seq(width, k requires 0 <= k < width =>
      if m[k] == -1 then -1 else (if m[k] < width then a else b)[m[k] % width])
  }

  function SymbolicLevel(results: seq<Lanes>, shuffles: seq<Mask>, width: nat): (next: seq<Lanes>)
    requires Vectors(results, |shuffles| + 1, width)
    requires forall j :: 0 <= j < |shuffles| ==> IsMask(shuffles[j], width)
    ensures Vectors(next, |shuffles|, width)
  {
    seq(|shuffles|, j requires 0 <= j < |shuffles| =>
      SymbolicShuffle(results[j], results[j + 1], shuffles[j], width))
  }

  /** The results after the first n levels. */
  function SymbolicAfter(inputs: seq<Lanes>, tree: seq<seq<Mask>>, width: nat, n: nat): (results: seq<Lanes>)
    requires ShuffleTree(tree, width) && Vectors(inputs, |tree| + 1, width) && n <= |tree|
    ensures Vectors(results, |tree| - n + 1, width)
  {
    if n == 0 then inputs
    else SymbolicLevel(SymbolicAfter(inputs, tree, width, n - 1), tree[n - 1], width)
  }

  /** Where a lane comes from: lane k of the i-th input, or nowhere. */
  datatype Origin = Undefined | FromInput(i: nat, k: nat)

  /** Follows lane k of result j after n levels back through the masks. */
  function Trace(tree: seq<seq<Mask>>, width: nat, n: nat, j: nat, k: nat): (origin: Origin)
    requires ShuffleTree(tree, width) && n <= |tree| && j <= |tree| - n && k < width
    ensures origin.FromInput? ==> origin.i <= |tree| && origin.k < width
    decreases n
  {
    if n == 0 then FromInput(j, k)
    else
      assert IsMask(tree[n - 1][j], width);
      var lane := tree[n - 1][j][k];
      if lane == -1 then Undefined
      else if lane < width then Trace(tree, width, n - 1, j, lane)
      else Trace(tree, width, n - 1, j + 1, lane - width)
  }

  function ValueOf(inputs: seq<Lanes>, origin: Origin): int
    requires origin.FromInput? ==> origin.i < |inputs| && origin.k < |inputs[origin.i]|
  {
    match origin
    case Undefined => -1
    case FromInput(i, k) => inputs[i][k]
  }

  /** Every lane holds what it comes from. */
  lemma {:induction false} LaneIsTraced(inputs: seq<Lanes>, tree: seq<seq<Mask>>, width: nat, n: nat, j: nat, k: nat)
    requires ShuffleTree(tree, width) && Vectors(inputs, |tree| + 1, width)
    requires n <= |tree| && j <= |tree| - n && k < width
    ensures LaneTraced(inputs, tree, width, n, j, k)
    decreases n
  {
    if n == 0 {
      FirstTraced(inputs, tree, width, j, k);
    } else {
      var m := n - 1;
      forall i: nat, l: nat | i <= |tree| - m && l < width ensures LaneTraced(inputs, tree, width, m, i, l) {
        LaneIsTraced(inputs, tree, width, m, i, l);
      }
      var lane := LaneAfter(inputs, tree, width, m, j, k);
      NextTraced(inputs, tree, width, m, j, k, lane);
    }
  }

  ghost predicate LaneTraced(inputs: seq<Lanes>, tree: seq<seq<Mask>>, width: nat, n: nat, j: nat, k: nat)
    requires ShuffleTree(tree, width) && Vectors(inputs, |tree| + 1, width)
    requires n <= |tree| && j <= |tree| - n && k < width
  {
    SymbolicAfter(inputs, tree, width, n)[j][k] == ValueOf(inputs, Trace(tree, width, n, j, k))
  }

  lemma FirstTraced(inputs: seq<Lanes>, tree: seq<seq<Mask>>, width: nat, j: nat, k: nat)
    requires ShuffleTree(tree, width) && Vectors(inputs, |tree| + 1, width) && j <= |tree| && k < width
    ensures LaneTraced(inputs, tree, width, 0, j, k)
  {
  }

  lemma {:induction false} NextTraced(inputs: seq<Lanes>, tree: seq<seq<Mask>>, width: nat, m: nat, j: nat, k: nat, lane: int)
    requires ShuffleTree(tree, width) && Vectors(inputs, |tree| + 1, width)
    requires m < |tree| && j < |tree| - m && k < width && lane == tree[m][j][k] && -1 <= lane < 2 * width
    requires LaneTaken(inputs, tree, width, m, j, k, lane)
    requires forall i: nat, l: nat :: i <= |tree| - m && l < width ==> LaneTraced(inputs, tree, width, m, i, l)
    ensures LaneTraced(inputs, tree, width, m + 1, j, k)
  {
    TraceNext(tree, width, m, j, k, lane);
    if lane >= width {
      assert LaneTraced(inputs, tree, width, m, j + 1, lane - width);
    } else if lane >= 0 {
      assert LaneTraced(inputs, tree, width, m, j, lane);
    }
  }

  lemma {:induction false} TraceNext(tree: seq<seq<Mask>>, width: nat, m: nat, j: nat, k: nat, lane: int)
    requires ShuffleTree(tree, width)
    requires m < |tree| && j < |tree| - m && k < width && lane == tree[m][j][k] && -1 <= lane < 2 * width
    ensures Trace(tree, width, m + 1, j, k) ==
            if lane == -1 then Undefined else if lane < width then Trace(tree, width, m, j, lane)
            else Trace(tree, width, m, j + 1, lane - width)
  {
  }

  /** What the level n + 1 takes a lane from. */
  ghost predicate LaneTaken(inputs: seq<Lanes>, tree: seq<seq<Mask>>, width: nat, m: nat, j: nat, k: nat, lane: int)
    requires ShuffleTree(tree, width) && Vectors(inputs, |tree| + 1, width)
    requires m < |tree| && j < |tree| - m && k < width && -1 <= lane < 2 * width
  {
    var before := SymbolicAfter(inputs, tree, width, m);
    SymbolicAfter(inputs, tree, width, m + 1)[j][k] ==
    if lane == -1 then -1 else if lane < width then before[j][lane] else before[j + 1][lane - width]
  }

  lemma {:induction false} LaneAfter(inputs: seq<Lanes>, tree: seq<seq<Mask>>, width: nat, m: nat, j: nat, k: nat) returns (lane: int)
    requires ShuffleTree(tree, width) && Vectors(inputs, |tree| + 1, width)
    requires m < |tree| && j < |tree| - m && k < width
    ensures j < |tree[m]| && k < |tree[m][j]| && lane == tree[m][j][k] && -1 <= lane < 2 * width
    ensures LaneTaken(inputs, tree, width, m, j, k, lane)
  {
    var before, mask := SymbolicAfter(inputs, tree, width, m), tree[m][j];
    assert IsMask(mask, width);
    lane := mask[k];
    assert SymbolicAfter(inputs, tree, width, m + 1) == SymbolicLevel(before, tree[m], width);
    ShuffledAt(before, tree[m], width, j, k);
  }

  lemma {:induction false} ShuffledAt(before: seq<Lanes>, shuffles: seq<Mask>, width: nat, j: nat, k: nat)
    requires Vectors(before, |shuffles| + 1, width) && (forall i :: 0 <= i < |shuffles| ==> IsMask(shuffles[i], width))
    requires j < |shuffles| && k < width
    ensures |before[j]| == |before[j + 1]| == |shuffles[j]| == width
    ensures var lane := shuffles[j][k];
            SymbolicLevel(before, shuffles, width)[j][k] ==
            if lane == -1 then -1 else if lane < width then before[j][lane] else before[j + 1][lane - width]
  {
    ShuffledLane(before[j], before[j + 1], shuffles[j], width, k);
  }

  lemma {:induction false} ShuffledLane(a: Lanes, b: Lanes, m: Mask, width: nat, k: nat)
    requires |a| == |b| == width && IsMask(m, width) && k < width
    ensures SymbolicShuffle(a, b, m, width)[k] == if m[k] == -1 then -1 else if m[k] < width then a[m[k]] else b[m[k] - width]
  {
    if m[k] >= width { LaneOfSecond(m[k], width); } else if m[k] >= 0 { LaneOfFirst(m[k], width); }
  }

  lemma LaneOfFirst(j: nat, width: nat)
    requires j < width
    ensures j % width == j
  {
  }

  /** Every level has one result less; the single one that is left holds in every
      lane what that comes from. */
  method EvaluateTree(inputs: seq<Lanes>, tree: seq<seq<Mask>>, width: nat) returns (result: Lanes)
    requires ShuffleTree(tree, width) && Vectors(inputs, |tree| + 1, width)
    ensures [result] == SymbolicAfter(inputs, tree, width, |tree|)
    ensures |result| == width && forall k: nat :: k < width ==> result[k] == ValueOf(inputs, Trace(tree, width, |tree|, 0, k))
  {
    var results := inputs;
    for i := 0 to |tree|
      invariant results == SymbolicAfter(inputs, tree, width, i)
    {
      results := SymbolicLevel(results, tree[i], width);
    }
    assert |results| == 1;
    result := results[0];
    forall k: nat | k < width ensures result[k] == ValueOf(inputs, Trace(tree, width, |tree|, 0, k)) {
      LaneIsTraced(inputs, tree, width, |tree|, 0, k);
    }
  }

  /** The inputs hold consecutive numbers, cut to the size of an element. */
  function Inputs(height: nat, width: nat, modulus: nat): (inputs: seq<Lanes>)
    requires modulus > 0
    ensures Vectors(inputs, height + 1, width)
  {
    seq(height + 1, i requires 0 <= i < height + 1 => seq(width, k requires 0 <= k < width => (i * width + 1 + k) % modulus))
  }

  /** If the elements can hold enough numbers, no two input lanes look alike: what
      is expected of a lane tells where it must come from, and only a lane from
      nowhere is not checked. */
  lemma ExpectationTellsOrigin(tree: seq<seq<Mask>>, width: nat, modulus: nat, k: nat, l: nat)
    requires ShuffleTree(tree, width) && modulus > 0 && k < width && l < width
    ensures var inputs := Inputs(|tree|, width, modulus);
            var result := SymbolicAfter(inputs, tree, width, |tree|)[0];
            var a, b := Trace(tree, width, |tree|, 0, k), Trace(tree, width, |tree|, 0, l);
            && (result[k] == -1 <==> a.Undefined?)
            && ((|tree| + 1) * width <= modulus ==> (result[k] == result[l] <==> a == b))
  {
    var inputs := Inputs(|tree|, width, modulus);
    LaneIsTraced(inputs, tree, width, |tree|, 0, k);
    LaneIsTraced(inputs, tree, width, |tree|, 0, l);
    var a, b := Trace(tree, width, |tree|, 0, k), Trace(tree, width, |tree|, 0, l);
    if a.FromInput? && b.FromInput? && (|tree| + 1) * width <= modulus {
      InputsDiffer(|tree|, width, modulus, a.i, a.k, b.i, b.k);
    }
  }

  /** The inputs count all lanes, starting from 1. */
  lemma InputsDiffer(height: nat, width: nat, modulus: nat, i: nat, k: nat, j: nat, l: nat)
    requires modulus > 0 && (height + 1) * width <= modulus && i <= height && j <= height && k < width && l < width
    ensures var inputs := Inputs(height, width, modulus);
            inputs[i][k] == inputs[j][l] <==> i == j && k == l
  {
    CountsUpTo(height, width, i, k);
    CountsUpTo(height, width, j, l);
    WrapsOnlyLast(i * width + 1 + k, modulus);
    WrapsOnlyLast(j * width + 1 + l, modulus);
    if i < j { LaterCounts(width, i, k, j, l); }
    if j < i { LaterCounts(width, j, l, i, k); }
  }

  lemma CountsUpTo(height: nat, width: nat, i: nat, k: nat)
    requires i <= height && k < width
    ensures i * width + 1 + k <= (height + 1) * width
  {
    assert i * width <= height * width;
  }

  lemma LaterCounts(width: nat, i: nat, k: nat, j: nat, l: nat)
    requires i < j && k < width
    ensures i * width + 1 + k < j * width + 1 + l
  {
    assert (i + 1) * width <= j * width;
  }

  lemma WrapsOnlyLast(n: nat, modulus: nat)
    requires 0 < n <= modulus
    ensures n % modulus == if n == modulus then 0 else n
  {
  }

  // ----- The emitted program -----

  /** The value named %s.level.index. */
  datatype Register = Register(level: nat, index: nat)

  /** %s.dst = shufflevector %s.a, %s.b, mask; -1 prints as undef. */
  datatype Instruction = ShuffleVector(dst: Register, a: Register, b: Register, mask: Mask)

  function EmittedBy(i: nat, j: nat, mask: Mask): Instruction {
    ShuffleVector(Register(i + 1, j), Register(i, j), Register(i, j + 1), mask)
  }

  function LevelProgram(i: nat, shuffles: seq<Mask>): seq<Instruction> {
    seq(|shuffles|, j requires 0 <= j < |shuffles| => EmittedBy(i, j, shuffles[j]))
  }

  function TreeProgram(tree: seq<seq<Mask>>, n: nat): seq<Instruction>
    requires n <= |tree|
  {
    if n == 0 then [] else TreeProgram(tree, n - 1) + LevelProgram(n - 1, tree[n - 1])
  }

  method Emit(tree: seq<seq<Mask>>) returns (program: seq<Instruction>)
    ensures program == TreeProgram(tree, |tree|)
  {
    program := [];
    for i := 0 to |tree|
      invariant program == TreeProgram(tree, i)
    {
      for j := 0 to |tree[i]|
        invariant program == TreeProgram(tree, i) + LevelProgram(i, tree[i])[..j]
      {
        program := program + [EmittedBy(i, j, tree[i][j])];
      }
    }
  }

  // ----- Running it -----

  /** A machine: register contents, and what it makes of each undefined lane. */
  type Env = map<Register, Lanes>

  type Undef = (Register, nat) -> int

  /** One shufflevector; getting stuck on a register that is not set is None. */
  datatype Machine = Stuck | Running(env: Env)

  ghost function Execute(m: Machine, ins: Instruction, width: nat, undef: Undef): Machine {
    if m.Stuck? || ins.a !in m.env || ins.b !in m.env || ins.dst in m.env ||
       |m.env[ins.a]| != width || |m.env[ins.b]| != width || !IsMask(ins.mask, width)
    then Stuck
    else Running(m.env[ins.dst :=
      seq(width, k requires 0 <= k < width =>
        Lane(m.env[ins.a], m.env[ins.b], ins.mask[k], width, undef(ins.dst, k)))])
  }

  /** Lane j of the two vectors put together, or whatever is there for -1. */
  function Lane(x: Lanes, y: Lanes, j: int, width: nat, whatever: int): int
    requires |x| == |y| == width && -1 <= j < 2 * width
  {
    if j == -1 then whatever else if j < width then x[j] else y[j - width]
  }

  ghost function ExecuteAll(m: Machine, program: seq<Instruction>, width: nat, undef: Undef): Machine {
    if program == [] then m
    else Execute(ExecuteAll(m, program[..|program| - 1], width, undef), program[|program| - 1], width, undef)
  }

  ghost function InitialEnv(inputs: seq<Lanes>): Env {
    map i: nat | i < |inputs| :: Register(0, i) := inputs[i]
  }

  /** Concrete lanes agree with symbolic ones wherever those are defined. */
  ghost predicate Agrees(concrete: Lanes, symbolic: Lanes) {
    |concrete| == |symbolic| &&
    forall k :: 0 <= k < |symbolic| && symbolic[k] != -1 ==> concrete[k] == symbolic[k]
  }

  ghost predicate LevelAgrees(env: Env, level: nat, results: seq<Lanes>, n: nat)
    requires n <= |results|
  {
    forall j: nat :: j < n ==> Register(level, j) in env && Agrees(env[Register(level, j)], results[j])
  }

  /** Nothing is set from (level, index) on. */
  ghost predicate NotYet(env: Env, level: nat, index: nat) {
    forall r :: r in env ==> r.level < level || (r.level == level && r.index < index)
  }

  lemma {:induction false} ExecuteSplits(m: Machine, p: seq<Instruction>, q: seq<Instruction>, width: nat, undef: Undef)
    ensures ExecuteAll(m, p + q, width, undef) == ExecuteAll(ExecuteAll(m, p, width, undef), q, width, undef)
  {
    if q == [] {
      assert p + q == p;
    } else {
      assert (p + q)[..|p + q| - 1] == p + q[..|q| - 1];
      ExecuteSplits(m, p, q[..|q| - 1], width, undef);
    }
  }

  /** The first n instructions of a level. */
  lemma {:induction false} LevelRuns(env: Env, i: nat, shuffles: seq<Mask>, results: seq<Lanes>, width: nat, undef: Undef, n: nat)
    requires Vectors(results, |shuffles| + 1, width) && n <= |shuffles|
    requires forall j :: 0 <= j < |shuffles| ==> IsMask(shuffles[j], width)
    requires LevelAgrees(env, i, results, |results|) && NotYet(env, i + 1, 0)
    ensures var m := ExecuteAll(Running(env), LevelProgram(i, shuffles)[..n], width, undef);
            m.Running? && LevelDone(m.env, i, shuffles, results, width, n)
  {
    var program := LevelProgram(i, shuffles);
    if n > 0 {
      LevelRuns(env, i, shuffles, results, width, undef, n - 1);
      assert program[..n][..n - 1] == program[..n - 1] && program[..n][n - 1] == EmittedBy(i, n - 1, shuffles[n - 1]);
      var before := ExecuteAll(Running(env), program[..n - 1], width, undef).env;
      NextInstruction(before, i, shuffles, results, width, undef, n - 1);
    }
  }

  /** The first n registers of a level are set, and agree with its results. */
  ghost predicate LevelDone(env: Env, i: nat, shuffles: seq<Mask>, results: seq<Lanes>, width: nat, n: nat)
    requires Vectors(results, |shuffles| + 1, width) && n <= |shuffles|
    requires forall j :: 0 <= j < |shuffles| ==> IsMask(shuffles[j], width)
  {
    && NotYet(env, i + 1, n) && LevelAgrees(env, i, results, |results|)
    && LevelAgrees(env, i + 1, SymbolicLevel(results, shuffles, width), n)
  }

  lemma {:induction false} NextInstruction(env: Env, i: nat, shuffles: seq<Mask>, results: seq<Lanes>, width: nat, undef: Undef, j: nat)
    requires Vectors(results, |shuffles| + 1, width) && j < |shuffles|
    requires forall j :: 0 <= j < |shuffles| ==> IsMask(shuffles[j], width)
    requires LevelDone(env, i, shuffles, results, width, j)
    ensures var m := Execute(Running(env), EmittedBy(i, j, shuffles[j]), width, undef);
            m.Running? && LevelDone(m.env, i, shuffles, results, width, j + 1)
  {
    assert Agrees(env[Register(i, j)], results[j]) && Agrees(env[Register(i, j + 1)], results[j + 1]);
    ShuffleAgrees(env, EmittedBy(i, j, shuffles[j]), results[j], results[j + 1], width, undef);
    var now := Execute(Running(env), EmittedBy(i, j, shuffles[j]), width, undef).env;
    KeepsLevel(env, now, Register(i + 1, j), i, results, |results|);
    KeepsLevel(env, now, Register(i + 1, j), i + 1, SymbolicLevel(results, shuffles, width), j);
  }

  lemma {:induction false} KeepsLevel(env: Env, now: Env, dst: Register, level: nat, results: seq<Lanes>, n: nat)
    requires dst !in env && now.Keys == env.Keys + {dst} && forall r :: r in env ==> now[r] == env[r]
    requires n <= |results| && LevelAgrees(env, level, results, n)
    ensures LevelAgrees(now, level, results, n)
  {
  }

  lemma ShuffleAgrees(env: Env, ins: Instruction, a: Lanes, b: Lanes, width: nat, undef: Undef)
    requires |a| == |b| == width && IsMask(ins.mask, width)
    requires ins.a in env && Agrees(env[ins.a], a) && ins.b in env && Agrees(env[ins.b], b) && ins.dst !in env
    ensures var m := Execute(Running(env), ins, width, undef);
            && m.Running? && m.env.Keys == env.Keys + {ins.dst}
            && (forall r :: r in env ==> m.env[r] == env[r])
            && Agrees(m.env[ins.dst], SymbolicShuffle(a, b, ins.mask, width))
  {
    var x, y := env[ins.a], env[ins.b];
    var lanes := Execute(Running(env), ins, width, undef).env[ins.dst];
    var symbolic := SymbolicShuffle(a, b, ins.mask, width);
    forall k | 0 <= k < width && symbolic[k] != -1 ensures lanes[k] == symbolic[k] {
      LaneAgrees(x, y, a, b, ins.mask[k], width, undef(ins.dst, k));
    }
  }

  /** A defined lane of a symbolic shuffle holds what the machine picks. */
  lemma LaneAgrees(x: Lanes, y: Lanes, a: Lanes, b: Lanes, j: int, width: nat, whatever: int)
    requires |a| == |b| == width && Agrees(x, a) && Agrees(y, b) && -1 < j < 2 * width
    ensures var symbolic := (if j < width then a else b)[j % width];
            symbolic != -1 ==> Lane(x, y, j, width, whatever) == symbolic
  {
    if j >= width { LaneOfSecond(j, width); }
  }

  lemma LaneOfSecond(j: nat, width: nat)
    requires width <= j < 2 * width
    ensures j % width == j - width
  {
  }

  lemma WholeLevelRuns(env: Env, i: nat, shuffles: seq<Mask>, results: seq<Lanes>, width: nat, undef: Undef)
    requires Vectors(results, |shuffles| + 1, width)
    requires forall j :: 0 <= j < |shuffles| ==> IsMask(shuffles[j], width)
    requires LevelAgrees(env, i, results, |results|) && NotYet(env, i + 1, 0)
    ensures var m := ExecuteAll(Running(env), LevelProgram(i, shuffles), width, undef);
            && m.Running? && NotYet(m.env, i + 2, 0)
            && LevelAgrees(m.env, i + 1, SymbolicLevel(results, shuffles, width), |shuffles|)
  {
    LevelRuns(env, i, shuffles, results, width, undef, |shuffles|);
    assert LevelProgram(i, shuffles)[..|shuffles|] == LevelProgram(i, shuffles);
  }

  /** The program runs through and leaves the symbolic results in the registers
      of every level, whatever the machine puts into undefined lanes. */
  lemma {:induction false} TreeRuns(inputs: seq<Lanes>, tree: seq<seq<Mask>>, width: nat, undef: Undef, n: nat)
    requires ShuffleTree(tree, width) && Vectors(inputs, |tree| + 1, width) && n <= |tree|
    ensures var m := ExecuteAll(Running(InitialEnv(inputs)), TreeProgram(tree, n), width, undef);
            var results := SymbolicAfter(inputs, tree, width, n);
            m.Running? && NotYet(m.env, n + 1, 0) && LevelAgrees(m.env, n, results, |results|)
  {
    if n > 0 {
      TreeRuns(inputs, tree, width, undef, n - 1);
      var first, shuffles := TreeProgram(tree, n - 1), tree[n - 1];
      var m := ExecuteAll(Running(InitialEnv(inputs)), first, width, undef);
      WholeLevelRuns(m.env, n - 1, shuffles, SymbolicAfter(inputs, tree, width, n - 1), width, undef);
      ExecuteSplits(Running(InitialEnv(inputs)), first, LevelProgram(n - 1, shuffles), width, undef);
      assert TreeProgram(tree, n) == first + LevelProgram(n - 1, shuffles);
    } else {
      assert TreeProgram(tree, 0) == [];
    }
  }

  // ----- The emitted main -----

  /** What main does with lane k: go on, or trap. */
  datatype Check = Skip | Expect(value: int)

  datatype Exit = Returns(status: int) | Traps(lane: nat)

  method EmitChecks(result: Lanes) returns (checks: seq<Check>)
    ensures checks == ChecksFor(result)
  {
    checks := [];
    for i := 0 to |result|
      invariant checks == ChecksFor(result)[..i]
    {
      checks := checks + [if result[i] == -1 then Skip else Expect(result[i])];
    }
  }

  function ChecksFor(result: Lanes): seq<Check> {
    seq(|result|, i requires 0 <= i < |result| => if result[i] == -1 then Skip else Expect(result[i]))
  }

  /** Runs the checks test.i, test.i+1, ... on the returned vector. */
  function RunChecks(checks: seq<Check>, v: Lanes, i: nat): Exit
    requires |v| == |checks| && i <= |v|
    decreases |v| - i
  {
    if i == |v| then Returns(0)
    else if checks[i].Expect? && v[i] != checks[i].value then Traps(i)
    else RunChecks(checks, v, i + 1)
  }

  /** Main returns 0 exactly when the vector agrees with the expectation. */
  lemma {:induction false} ChecksDecide(result: Lanes, v: Lanes, i: nat)
    requires |v| == |result| && i <= |v|
    ensures RunChecks(ChecksFor(result), v, i) == Returns(0) <==>
            forall k :: i <= k < |v| && result[k] != -1 ==> v[k] == result[k]
    decreases |v| - i
  {
    if i < |v| { ChecksDecide(result, v, i + 1); }
  }

  /** On a machine that implements shufflevector, the emitted program always
      returns 0. */
  lemma EmittedProgramPasses(tree: seq<seq<Mask>>, width: nat, modulus: nat, undef: Undef)
    requires ShuffleTree(tree, width) && modulus > 0
    ensures var inputs := Inputs(|tree|, width, modulus);
            var result := SymbolicAfter(inputs, tree, width, |tree|)[0];
            var m := ExecuteAll(Running(InitialEnv(inputs)), TreeProgram(tree, |tree|), width, undef);
            var ret := Register(|tree|, 0);
            && m.Running? && ret in m.env && |m.env[ret]| == |result|
            && RunChecks(ChecksFor(result), m.env[ret], 0) == Returns(0)
  {
    var inputs := Inputs(|tree|, width, modulus);
    TreeRuns(inputs, tree, width, undef, |tree|);
    var m := ExecuteAll(Running(InitialEnv(inputs)), TreeProgram(tree, |tree|), width, undef);
    var results := SymbolicAfter(inputs, tree, width, |tree|);
    assert |results| == 1;
    ChecksDecide(results[0], m.env[Register(|tree|, 0)], 0);
  }
}
