/**
 Why a rewritten function behaves like the original one: every remaining instruction matches
 an original one, every missing instruction was free of effects, and no remaining
 instruction reads a missing register.
 */
module Refinement {
  import opened Wrappers
  import opened Ir
  import opened ConstantFold
  import opened Dominance
  import opened PeepholeFacts

  predicate Increasing(s: seq<nat>) {
    forall a, b :: 0 <= a < b < |s| ==> s[a] < s[b]
  }

  predicate Aligned(f: Func, blocks: seq<Block>, pos: seq<seq<nat>>) {
    && |blocks| == |pos| == |f.blocks|
    && forall b :: 0 <= b < |pos| ==> |pos[b]| == |blocks[b]| && Increasing(pos[b])
  }

  /** pos[b][j] is the original place of instruction j of block b. */
  ghost predicate Tracks(f: Func, blocks: seq<Block>, pos: seq<seq<nat>>) {
    && Aligned(f, blocks, pos)
    && forall b: nat, j: nat :: InBlock(blocks, b, j) ==> MatchesInst(f, Point(b, pos[b][j]), blocks[b][j])
  }

  predicate InBlock(blocks: seq<Block>, b: nat, j: nat) {
    b < |blocks| && j < |blocks[b]|
  }

  predicate Present(pos: seq<seq<nat>>, p: Point) {
    p.block < |pos| && p.index in pos[p.block]
  }

  /** inst_dead_def_eliminable, and what folding and load reuse remove. */
  predicate Removable(i: Inst) {
    DefinesDest(i) && !i.op.Alloca? && !i.op.Call?
  }

  ghost predicate OnlyRemovableMissing(f: Func, pos: seq<seq<nat>>) {
    forall p :: Inside(f, p) && !Present(pos, p) ==> Removable(InstAt(f, p))
  }

  /** Register x is still written, or is never written at all. */
  ghost predicate StillDefined(f: Func, pos: seq<seq<nat>>, x: nat) {
    forall d :: IsDef(f, x, d) ==> Present(pos, d) || Never(f, d)
  }

  ghost predicate Closed(f: Func, blocks: seq<Block>, pos: seq<seq<nat>>) {
    forall b: nat, j: nat, k: nat ::
      InBlock(blocks, b, j) && k < |blocks[b][j].operands| && blocks[b][j].operands[k].Vreg? ==>
      StillDefined(f, pos, blocks[b][j].operands[k].vreg)
  }

  /** The rewritten function can take every step the original takes. */
  ghost predicate Simulates(f: Func, blocks: seq<Block>, pos: seq<seq<nat>>) {
    Tracks(f, blocks, pos) && OnlyRemovableMissing(f, pos) && Closed(f, blocks, pos)
  }

  // ---------------------------------------------------------------------------
  // What it means to behave alike

  /** Whatever the original has done after n steps, the other function does in at most n: the
      same stores and calls in the same order, the same memory, the same returned value.
      Nothing is promised once the original run has become undefined. */
  ghost predicate Follows(f: Func, g: Func, u: Start, n: nat) {
    match RunOf(f, u, n)
    case Stuck => true
    case Returned(_, _, _) => exists m: nat :: m <= n && RunOf(g, u, m) == RunOf(f, u, n)
    case Running(s) => exists m: nat :: m <= n && RunOf(g, u, m).Running?
                                   && RunOf(g, u, m).state.mem == s.mem && RunOf(g, u, m).state.trace == s.trace
  }

  /** What the other function has done, b, is what the original has done, a, unless that is
      undefined. */
  predicate Matched(a: Outcome, b: Outcome) {
    match (a, b)
    case (Stuck, _) => true
    case (Returned(_, _, _), Returned(_, _, _)) => a == b
    case (Running(s), Running(t)) => s.mem == t.mem && s.trace == t.trace
    case _ => false
  }

  /** The other function never gets ahead: what it has done after n steps the original does as
      well, even if it never ends. */
  ghost predicate NeverAhead(f: Func, g: Func, u: Start, n: nat) {
    exists m: nat :: m >= n && Matched(RunOf(f, u, m), RunOf(g, u, n))
  }

  ghost predicate Preserves(f: Func, g: Func) {
    forall u, n: nat :: ValidStart(f.params, u) ==> Follows(f, g, u, n) && NeverAhead(f, g, u, n)
  }

  // ---------------------------------------------------------------------------
  // The simulation relation

  ghost predicate Kept(f: Func, pos: seq<seq<nat>>, x: nat) {
    x in f.params || exists d :: IsDef(f, x, d) && Present(pos, d)
  }

  ghost predicate EnvAgree(f: Func, pos: seq<seq<nat>>, env: Env, env': Env) {
    forall x :: Kept(f, pos, x) ==> (x in env <==> x in env') && (x in env ==> env[x] == env'[x])
  }

  /** Instruction j of the rewritten block is the first one at or after original place i. */
  predicate NextAt(places: seq<nat>, i: nat, j: nat) {
    && j <= |places|
    && (forall a :: 0 <= a < j ==> places[a] < i)
    && (forall a :: j <= a < |places| ==> places[a] >= i)
  }

  ghost predicate Related(f: Func, pos: seq<seq<nat>>, s: State, t: State) {
    && s.block == t.block < |pos| && s.prev == t.prev && s.mem == t.mem && s.trace == t.trace
    && NextAt(pos[s.block], s.index, t.index)
    && EnvAgree(f, pos, s.env, t.env)
    && EnvAgree(f, pos, s.before, t.before)
  }

  lemma {:induction false} NotPresentNotKept(f: Func, pos: seq<seq<nat>>, p: Point)
    requires WellFormed(f) && Inside(f, p) && !Present(pos, p) && DefinesDest(InstAt(f, p))
    ensures !Kept(f, pos, InstAt(f, p).dest)
  {
    assert IsDef(f, InstAt(f, p).dest, p);
    NotParam(f, InstAt(f, p).dest, p);
  }

  /** A step over a missing instruction only writes a register nobody reads. */
  lemma {:induction false} SkipMissing(f: Func, pos: seq<seq<nat>>, w: World, s: State, t: State)
    requires WellFormed(f) && OnlyRemovableMissing(f, pos) && Related(f, pos, s, t)
    requires Inside(f, PointOf(s)) && !Present(pos, PointOf(s)) && !Step(w, f, s).Stuck?
    ensures Step(w, f, s).Running? && Related(f, pos, Step(w, f, s).state, t)
  {
    var p := PointOf(s);
    var i := InstAt(f, p);
    assert Removable(i);
    NotPresentNotKept(f, pos, p);
    QuietDefinition(w, f, s);
    var s' := Step(w, f, s).state;
    assert EnvAgree(f, pos, s'.env, t.env);
  }

  lemma {:induction false} QuietDefinition(w: World, f: Func, s: State)
    requires Inside(f, PointOf(s)) && Removable(InstAt(f, PointOf(s))) && !Step(w, f, s).Stuck?
    ensures Step(w, f, s).Running?
    ensures var s' := Step(w, f, s).state; var i := InstAt(f, PointOf(s));
      i.dest in s'.env && s' == s.(index := s.index + 1, env := s.env[i.dest := s'.env[i.dest]])
  {
  }

  /** The rewritten instruction stands where the original one stands. */
  lemma {:induction false} PresentIndex(f: Func, blocks: seq<Block>, pos: seq<seq<nat>>, s: State, t: State)
    requires Tracks(f, blocks, pos) && Related(f, pos, s, t) && Present(pos, PointOf(s))
    ensures t.index < |blocks[t.block]| && pos[t.block][t.index] == s.index
  {
    var a :| 0 <= a < |pos[s.block]| && pos[s.block][a] == s.index;
  }

  /** A readable register that the rewritten function names is one it still writes. */
  lemma {:induction false} NamedIsKept(f: Func, pos: seq<seq<nat>>, u: Start, n: nat, q: Point, x: nat)
    requires WellFormed(f) && ValidStart(f.params, u) && At(f, u, n, q)
    requires Available(f, x, q) && StillDefined(f, pos, x)
    ensures Kept(f, pos, x)
  {
    hide Run;
    if x !in f.params {
      var d :| IsDef(f, x, d) && Dominates(f, d, q);
      var m := DominatorExecuted(f, u, n, d, q);
    }
  }

  /** Reading the substituted operand in the rewritten run gives the original value. */
  lemma {:induction false} SameRead(f: Func, pos: seq<seq<nat>>, u: Start, n: nat, q: Point, o: Operand, o': Operand,
                                    env: Env, env': Env)
    requires WellFormed(f) && ValidStart(f.params, u) && At(f, u, n, q) && EnvAt(f, u, n) == env
    requires StandsFor(f, q, o, o') && (o'.Vreg? ==> StillDefined(f, pos, o'.vreg))
    requires EnvAgree(f, pos, env, env')
    ensures Eval(u.world, env, o) == Eval(u.world, env', o')
  {
    hide Run;
    if !o.BlockRef? {
      assert EvalAt(f, u, n, o) == EvalAt(f, u, n, o');
      if o'.Vreg? {
        NamedIsKept(f, pos, u, n, q, o'.vreg);
      }
    }
  }

  lemma {:induction false} ClosedOperand(f: Func, blocks: seq<Block>, pos: seq<seq<nat>>, b: nat, j: nat, k: nat)
    requires Closed(f, blocks, pos) && InBlock(blocks, b, j) && k < |blocks[b][j].operands|
    ensures blocks[b][j].operands[k].Vreg? ==> StillDefined(f, pos, blocks[b][j].operands[k].vreg)
  {
  }

  lemma {:induction false} SameArguments(f: Func, blocks: seq<Block>, pos: seq<seq<nat>>, u: Start, n: nat, t: State)
    requires WellFormed(f) && ValidStart(f.params, u) && RunOf(f, u, n).Running?
    requires Simulates(f, blocks, pos) && Related(f, pos, RunOf(f, u, n).state, t)
    requires var s := RunOf(f, u, n).state;
      Inside(f, PointOf(s)) && Present(pos, PointOf(s)) && !InstAt(f, PointOf(s)).op.Phi?
      && InBlock(blocks, t.block, t.index) && pos[t.block][t.index] == s.index
      && blocks[t.block][t.index].op == InstAt(f, PointOf(s)).op
    ensures var s := RunOf(f, u, n).state; var i := InstAt(f, PointOf(s)); var i' := blocks[t.block][t.index];
      && |i.operands| == |i'.operands|
      && (forall k :: 0 <= k < |i.operands| ==>
            Eval(u.world, s.env, i.operands[k]) == Eval(u.world, t.env, i'.operands[k]))
      && EvalAll(u.world, s.env, i.operands) == EvalAll(u.world, t.env, i'.operands)
  {
    hide Run;
    var s := RunOf(f, u, n).state;
    var p := PointOf(s);
    var i := InstAt(f, p);
    var i' := blocks[t.block][t.index];
    assert MatchesInst(f, Point(t.block, pos[t.block][t.index]), i');
    forall k | 0 <= k < |i.operands|
      ensures Eval(u.world, s.env, i.operands[k]) == Eval(u.world, t.env, i'.operands[k])
    {
      assert StandsFor(f, UsePoint(f, p, k), i.operands[k], i'.operands[k]);
      ClosedOperand(f, blocks, pos, t.block, t.index, k);
      SameRead(f, pos, u, n, p, i.operands[k], i'.operands[k], s.env, t.env);
    }
    EvalAllPointwise(u.world, s.env, t.env, i.operands, i'.operands);
  }

  // ---------------------------------------------------------------------------
  // One step of a present instruction

  ghost predicate OutcomesRelated(f: Func, pos: seq<seq<nat>>, a: Outcome, b: Outcome) {
    match (a, b)
    case (Running(s), Running(t)) => Related(f, pos, s, t)
    case (Returned(_, _, _), Returned(_, _, _)) => a == b
    case (Stuck, _) => true
    case _ => false
  }

  lemma {:induction false} NextAtStep(places: seq<nat>, i: nat, j: nat)
    requires Increasing(places) && NextAt(places, i, j) && j < |places| && places[j] == i
    ensures NextAt(places, i + 1, j + 1)
  {
  }

  /** Defining the same register with the same value keeps the states related. */
  lemma {:induction false} DefineRelated(f: Func, pos: seq<seq<nat>>, s: State, t: State, i: Inst, i': Inst, v: int)
    requires Related(f, pos, s, t) && i'.op == i.op && i'.ty == i.ty && i'.dest == i.dest
    requires NextAt(pos[s.block], s.index + 1, t.index + 1)
    ensures OutcomesRelated(f, pos, Define(s, i, v), Define(t, i', v))
  {
  }

  lemma {:induction false} ArgsRelated(f: Func, pos: seq<seq<nat>>, w: World, s: State, t: State, i: Inst, i': Inst,
                                       args: seq<int>)
    requires Related(f, pos, s, t) && i'.op == i.op && i'.ty == i.ty && i'.dest == i.dest
    requires NextAt(pos[s.block], s.index + 1, t.index + 1)
    requires |i.operands| == |i'.operands|
    requires forall k :: 0 <= k < |i.operands| ==> i.operands[k].BlockRef? == i'.operands[k].BlockRef?
    requires forall k :: 0 <= k < |i.operands| && !i.operands[k].BlockRef? ==> i.operands[k].ty == i'.operands[k].ty
    ensures OutcomesRelated(f, pos, StepArgs(w, s, i, args), StepArgs(w, t, i', args))
  {
    hide EnvAgree, PureResult;
    SamePureResult(w, i, i', args);
    forall s1, t1, v | Related(f, pos, s1, t1) && s1.index == s.index && t1.index == t.index && s1.block == s.block
      ensures OutcomesRelated(f, pos, Define(s1, i, v), Define(t1, i', v))
    {
      DefineRelated(f, pos, s1, t1, i, i', v);
    }
  }

  lemma {:induction false} GotoRelated(f: Func, g: Func, pos: seq<seq<nat>>, s: State, t: State, o: Operand)
    requires Related(f, pos, s, t) && |g.blocks| == |f.blocks| == |pos|
    ensures OutcomesRelated(f, pos, Goto(f, s, o), Goto(g, t, o))
  {
  }

  lemma {:induction false} SamePhiOperand(os: seq<Operand>, os': seq<Operand>, prev: nat) returns (k: nat)
    requires |os| == |os'| && PhiOperand(os, prev).Some?
    requires forall k :: 0 <= k < |os| && os[k].BlockRef? ==> os'[k] == os[k]
    requires forall k :: 0 <= k < |os| && !os[k].BlockRef? ==> !os'[k].BlockRef?
    ensures k + 1 < |os| && os[k + 1] == BlockRef(prev)
    ensures PhiOperand(os, prev) == Some(os[k]) && PhiOperand(os', prev) == Some(os'[k])
  {
    if os[1] == BlockRef(prev) {
      k := 0;
    } else {
      k := SamePhiOperand(os[2..], os'[2..], prev);
      k := k + 2;
    }
  }

  lemma {:induction false} PhiRelated(f: Func, blocks: seq<Block>, pos: seq<seq<nat>>, u: Start, n: nat, t: State)
    requires WellFormed(f) && ValidStart(f.params, u) && RunOf(f, u, n).Running?
    requires Simulates(f, blocks, pos) && Related(f, pos, RunOf(f, u, n).state, t)
    requires var s := RunOf(f, u, n).state;
      Inside(f, PointOf(s)) && Present(pos, PointOf(s)) && InstAt(f, PointOf(s)).op.Phi?
      && InBlock(blocks, t.block, t.index) && pos[t.block][t.index] == s.index
    ensures var s := RunOf(f, u, n).state;
      OutcomesRelated(f, pos, StepPhi(u.world, s, InstAt(f, PointOf(s))), StepPhi(u.world, t, blocks[t.block][t.index]))
  {
    hide Run;
    var s := RunOf(f, u, n).state;
    var p := PointOf(s);
    var i := InstAt(f, p);
    var i' := blocks[t.block][t.index];
    assert MatchesInst(f, Point(t.block, pos[t.block][t.index]), i');
    assert InstShape(f, i);
    NextAtStep(pos[s.block], s.index, t.index);
    if s.prev.Some? && PhiOperand(i.operands, s.prev.value).Some? {
      forall k | 0 <= k < |i.operands|
        ensures StandsFor(f, UsePoint(f, p, k), i.operands[k], i'.operands[k])
        ensures i.operands[k].BlockRef? ==> i'.operands[k] == i.operands[k]
        ensures !i.operands[k].BlockRef? ==> !i'.operands[k].BlockRef?
      {
        assert StandsFor(f, UsePoint(f, p, k), i.operands[k], i'.operands[k]);
      }
      var k := SamePhiOperand(i.operands, i'.operands, s.prev.value);
      var m := BlockEntry(f, u, n);
      ClosedOperand(f, blocks, pos, t.block, t.index, k);
      SameRead(f, pos, u, m, UsePoint(f, p, k), i.operands[k], i'.operands[k], s.before, t.before);
      var v := Eval(u.world, s.before, i.operands[k]);
      if v.Some? {
        DefineRelated(f, pos, s, t, i, i', v.value);
      }
    }
  }

  lemma {:induction false} BranchRelated(f: Func, g: Func, pos: seq<seq<nat>>, u: Start, n: nat, t: State)
    requires WellFormed(f) && ValidStart(f.params, u) && RunOf(f, u, n).Running?
    requires Simulates(f, g.blocks, pos) && Related(f, pos, RunOf(f, u, n).state, t)
    requires var s := RunOf(f, u, n).state;
      Inside(f, PointOf(s)) && Present(pos, PointOf(s)) && InstAt(f, PointOf(s)).op in {Br, CondBr}
      && InBlock(g.blocks, t.block, t.index) && pos[t.block][t.index] == s.index
    ensures OutcomesRelated(f, pos, Step(u.world, f, RunOf(f, u, n).state), Step(u.world, g, t))
  {
    var s := RunOf(f, u, n).state;
    var p := PointOf(s);
    var i := InstAt(f, p);
    var i' := g.blocks[t.block][t.index];
    assert MatchesInst(f, Point(t.block, pos[t.block][t.index]), i');
    assert InstShape(f, i);
    if i'.op == i.op {
      SameArguments(f, g.blocks, pos, u, n, t);
      forall k | 0 <= k < |i.operands| && i.operands[k].BlockRef?
        ensures i'.operands[k] == i.operands[k]
      {
        assert StandsFor(f, UsePoint(f, p, k), i.operands[k], i'.operands[k]);
      }
      forall k | 0 <= k < |i.operands|
        ensures OutcomesRelated(f, pos, Goto(f, s, i.operands[k]), Goto(g, t, i'.operands[k]))
      {
        assert StandsFor(f, UsePoint(f, p, k), i.operands[k], i'.operands[k]);
        GotoRelated(f, g, pos, s, t, i.operands[k]);
      }
    } else {
      assert EvalAt(f, u, n, i.operands[0]) == Eval(u.world, s.env, i.operands[0]);
      GotoRelated(f, g, pos, s, t, i'.operands[0]);
    }
  }

  lemma {:induction false} StepPresent(f: Func, g: Func, pos: seq<seq<nat>>, u: Start, n: nat, t: State)
    requires WellFormed(f) && ValidStart(f.params, u) && RunOf(f, u, n).Running?
    requires Simulates(f, g.blocks, pos) && Related(f, pos, RunOf(f, u, n).state, t)
    requires Inside(f, PointOf(RunOf(f, u, n).state)) && Present(pos, PointOf(RunOf(f, u, n).state))
    ensures OutcomesRelated(f, pos, Step(u.world, f, RunOf(f, u, n).state), Step(u.world, g, t))
  {
    var s := RunOf(f, u, n).state;
    var p := PointOf(s);
    var i := InstAt(f, p);
    PresentIndex(f, g.blocks, pos, s, t);
    var i' := g.blocks[t.block][t.index];
    assert InBlock(g.blocks, t.block, t.index);
    assert MatchesInst(f, Point(t.block, pos[t.block][t.index]), i');
    if i.op.Br? || i.op.CondBr? {
      BranchRelated(f, g, pos, u, n, t);
    } else if i.op.Phi? {
      PhiRelated(f, g.blocks, pos, u, n, t);
    } else if !i.op.Unreachable? {
      hide Run, StepArgs;
      SameArguments(f, g.blocks, pos, u, n, t);
      forall k | 0 <= k < |i.operands|
        ensures i.operands[k].BlockRef? == i'.operands[k].BlockRef?
        ensures !i.operands[k].BlockRef? ==> i.operands[k].ty == i'.operands[k].ty
      {
        assert StandsFor(f, UsePoint(f, p, k), i.operands[k], i'.operands[k]);
      }
      NextAtStep(pos[s.block], s.index, t.index);
      var args := EvalAll(u.world, s.env, i.operands);
      if args.Some? {
        ArgsRelated(f, pos, u.world, s, t, i, i', args.value);
      }
    }
  }

  // ---------------------------------------------------------------------------
  // Whole runs

  /** Before the original run is undefined, the rewritten run keeps up with it. */
  lemma {:induction false} KeepsUp(f: Func, g: Func, pos: seq<seq<nat>>, u: Start, n: nat) returns (m: nat)
    requires WellFormed(f) && ValidStart(f.params, u) && Simulates(f, g.blocks, pos) && !RunOf(f, u, n).Stuck?
    ensures m <= n && OutcomesRelated(f, pos, RunOf(f, u, n), RunOf(g, u, m))
  {
    hide Step;
    if n == 0 {
      InitRelated(f, g, pos, u);
      m := 0;
    } else {
      m := KeepsUp(f, g, pos, u, n - 1);
      if RunOf(f, u, n - 1).Running? {
        var s := RunOf(f, u, n - 1).state;
        var t := RunOf(g, u, m).state;
        StepInside(u.world, f, s);
        if Present(pos, PointOf(s)) {
          StepPresent(f, g, pos, u, n - 1, t);
          m := m + 1;
        } else {
          SkipMissing(f, pos, u.world, s, t);
        }
      }
    }
  }

  lemma {:induction false} StepInside(w: World, f: Func, s: State)
    requires !Step(w, f, s).Stuck?
    ensures Inside(f, PointOf(s))
  {
  }

  lemma {:induction false} StaysDone(f: Func, u: Start, n: nat)
    ensures !RunOf(f, u, n).Running? ==> RunOf(f, u, n + 1) == RunOf(f, u, n)
    ensures RunOf(f, u, n).Running? ==> RunOf(f, u, n + 1) == Step(u.world, f, RunOf(f, u, n).state)
  {
  }

  /** Only finitely many missing instructions are passed before one that is present. */
  lemma {:induction false} ReachesPresent(f: Func, pos: seq<seq<nat>>, u: Start, n: nat, t: State,
                                          gap: nat) returns (m: nat)
    requires WellFormed(f) && |pos| == |f.blocks| && OnlyRemovableMissing(f, pos) && RunOf(f, u, n).Running?
    requires var s := RunOf(f, u, n).state; Related(f, pos, s, t) && s.index + gap >= |f.blocks[s.block]|
    ensures m >= n
    ensures !RunOf(f, u, m).Stuck? ==>
      && RunOf(f, u, m).Running? && Related(f, pos, RunOf(f, u, m).state, t)
      && Inside(f, PointOf(RunOf(f, u, m).state)) && Present(pos, PointOf(RunOf(f, u, m).state))
    decreases gap
  {
    hide Run, Step, Related, OnlyRemovableMissing, WellFormed;
    var s := RunOf(f, u, n).state;
    StaysDone(f, u, n);
    if Inside(f, PointOf(s)) && Present(pos, PointOf(s)) {
      m := n;
    } else if Step(u.world, f, s).Stuck? {
      m := n + 1;
    } else {
      StepInside(u.world, f, s);
      SkipMissing(f, pos, u.world, s, t);
      MissingAdvances(f, pos, u.world, s);
      m := ReachesPresent(f, pos, u, n + 1, t, gap - 1);
    }
  }

  lemma {:induction false} MissingAdvances(f: Func, pos: seq<seq<nat>>, w: World, s: State)
    requires OnlyRemovableMissing(f, pos) && !Step(w, f, s).Stuck?
    requires Inside(f, PointOf(s)) && !Present(pos, PointOf(s))
    ensures Step(w, f, s).Running?
    ensures Step(w, f, s).state.block == s.block && Step(w, f, s).state.index == s.index + 1
  {
    hide Step;
    QuietDefinition(w, f, s);
  }

  /** Both runs stand before the same present instruction some steps later. */
  lemma {:induction false} CatchStep(f: Func, g: Func, pos: seq<seq<nat>>, u: Start, k: nat, t: State) returns (m: nat)
    requires WellFormed(f) && ValidStart(f.params, u) && Simulates(f, g.blocks, pos) && RunOf(f, u, k).Running?
    requires Related(f, pos, RunOf(f, u, k).state, t)
    ensures m >= k && OutcomesRelated(f, pos, RunOf(f, u, m + 1), Step(u.world, g, t))
  {
    hide Run, Step, Related, Simulates, WellFormed;
    var s := RunOf(f, u, k).state;
    RelatedBlock(f, g, pos, s, t);
    m := ReachesPresent(f, pos, u, k, t, |f.blocks[s.block]|);
    StaysDone(f, u, m);
    if !RunOf(f, u, m).Stuck? {
      StepPresent(f, g, pos, u, m, t);
    }
  }

  /** The original run gets as far as the rewritten one. */
  lemma {:induction false} CatchesUp(f: Func, g: Func, pos: seq<seq<nat>>, u: Start, n: nat) returns (m: nat)
    requires WellFormed(f) && ValidStart(f.params, u) && Simulates(f, g.blocks, pos)
    ensures m >= n && OutcomesRelated(f, pos, RunOf(f, u, m), RunOf(g, u, n))
  {
    hide RunOf, Step, Related, Simulates, WellFormed, ValidStart;
    if n == 0 {
      InitRelated(f, g, pos, u);
      m := 0;
    } else {
      m := CatchesUp(f, g, pos, u, n - 1);
      StaysDone(g, u, n - 1);
      var a := RunOf(f, u, m);
      if a.Running? {
        m := CatchStep(f, g, pos, u, m, RunOf(g, u, n - 1).state);
        assert RunOf(g, u, n) == Step(u.world, g, RunOf(g, u, n - 1).state);
      } else {
        StaysDone(f, u, m);
        assert RunOf(f, u, m + 1) == a;
      }
      m := m + 1;
    }
  }

  lemma {:induction false} InitRelated(f: Func, g: Func, pos: seq<seq<nat>>, u: Start)
    requires WellFormed(f) && ValidStart(f.params, u) && Simulates(f, g.blocks, pos)
    ensures OutcomesRelated(f, pos, RunOf(f, u, 0), RunOf(g, u, 0))
  {
  }

  lemma {:induction false} RelatedBlock(f: Func, g: Func, pos: seq<seq<nat>>, s: State, t: State)
    requires Simulates(f, g.blocks, pos) && Related(f, pos, s, t)
    ensures |pos| == |f.blocks| && s.block < |f.blocks| && OnlyRemovableMissing(f, pos)
  {
  }

  lemma {:induction false} RelatedMatch(f: Func, pos: seq<seq<nat>>, a: Outcome, b: Outcome)
    requires OutcomesRelated(f, pos, a, b)
    ensures Matched(a, b)
  {
  }

  /** A simulation preserves every run, in both directions. */
  lemma {:induction false} SimulatesPreserves(f: Func, g: Func, pos: seq<seq<nat>>)
    requires WellFormed(f) && Simulates(f, g.blocks, pos)
    ensures Preserves(f, g)
  {
    hide Run;
    forall u, n: nat | ValidStart(f.params, u)
      ensures Follows(f, g, u, n) && NeverAhead(f, g, u, n)
    {
      if !RunOf(f, u, n).Stuck? {
        var m := KeepsUp(f, g, pos, u, n);
      }
      var k := CatchesUp(f, g, pos, u, n);
      RelatedMatch(f, pos, RunOf(f, u, k), RunOf(g, u, n));
    }
  }
}
