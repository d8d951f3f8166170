/**
 Control-flow paths, dominance and the static single assignment discipline, and what they
 say about runs: a register keeps its value wherever its definition dominates.
 */
module Dominance {
  import opened Wrappers
  import opened Numbers
  import opened Ir
  import opened ConstantFold

  datatype Point = Point(block: nat, index: nat)

  predicate Inside(f: Func, p: Point) {
    InRange(f, p.block, p.index)
  }

  function InstAt(f: Func, p: Point): Inst
    requires Inside(f, p)
  {
    f.blocks[p.block][p.index]
  }

  /** inst_defines_dest */
  predicate DefinesDest(i: Inst) {
    !IsTerminator(i.op) && !i.op.Store? && !i.ty.Void?
  }

  predicate Edge(f: Func, p: Point, q: Point) {
    && Inside(f, p)
    && if IsTerminator(InstAt(f, p).op)
       then BlockRef(q.block) in InstAt(f, p).operands && q.index == 0
       else q == Point(p.block, p.index + 1)
  }

  predicate IsPath(f: Func, path: seq<Point>) {
    && path != []
    && path[0] == Point(0, 0)
    && forall k :: 0 <= k < |path| - 1 ==> Edge(f, path[k], path[k + 1])
  }

  function Last<T>(s: seq<T>): T
    requires s != []
  {
    s[|s| - 1]
  }

  predicate IsDef(f: Func, v: nat, d: Point) {
    Inside(f, d) && DefinesDest(InstAt(f, d)) && InstAt(f, d).dest == v
  }

  /** d is passed on every path from the entry to q before q itself. */
  ghost predicate Dominates(f: Func, d: Point, q: Point) {
    forall path :: IsPath(f, path) && Last(path) == q ==> d in path[..|path| - 1]
  }

  ghost predicate Available(f: Func, v: nat, q: Point) {
    v in f.params || exists d :: IsDef(f, v, d) && Dominates(f, d, q)
  }

  ghost predicate HasVregType(f: Func, v: nat, t: Type) {
    || (v in f.params && f.params[v] == t)
    || exists d :: IsDef(f, v, d) && ResultType(InstAt(f, d)) == t
  }

  // ---------------------------------------------------------------------------
  // Well-formed functions

  /** Where operand k of the instruction at p is read: for a phi at the end of the
      predecessor named next to it. */
  function UsePoint(f: Func, p: Point, k: nat): Point
    requires Inside(f, p)
  {
    var i := InstAt(f, p);
    if i.op.Phi? && k + 1 < |i.operands| && i.operands[k + 1].BlockRef?
       && i.operands[k + 1].block < |f.blocks| && |f.blocks[i.operands[k + 1].block]| > 0
    then Point(i.operands[k + 1].block, |f.blocks[i.operands[k + 1].block]| - 1)
    else p
  }

  predicate BlockShape(b: Block) {
    && b != []
    && forall k :: 0 <= k < |b| ==> (IsTerminator(b[k].op) <==> k == |b| - 1)
  }

  predicate InstShape(f: Func, i: Inst) {
    && WellTyped(i)
    && (IsTerminator(i.op) || i.op.Store? || i.op.Call? || !i.ty.Void?)
    && (DefinesDest(i) ==> i.dest < f.nextVreg && i.dest !in f.params)
    && (i.op.Phi? ==> |i.operands| % 2 == 0 && forall k :: 0 <= k < |i.operands| ==>
          (i.operands[k].BlockRef? <==> k % 2 == 1))
    && (i.op.Br? || i.op.CondBr? || i.op.Phi? ==> forall k :: 0 <= k < |i.operands| && i.operands[k].BlockRef? ==>
          i.operands[k].block < |f.blocks|)
  }

  ghost predicate OperandScoped(f: Func, p: Point, k: nat)
    requires Inside(f, p) && k < |InstAt(f, p).operands|
  {
    var o := InstAt(f, p).operands[k];
    o.Vreg? ==> o.vreg < f.nextVreg && HasVregType(f, o.vreg, o.ty) && Available(f, o.vreg, UsePoint(f, p, k))
  }

  ghost predicate UniqueDefs(f: Func) {
    forall v, d, e :: IsDef(f, v, d) && IsDef(f, v, e) ==> d == e
  }

  ghost predicate WellFormed(f: Func) {
    && |f.blocks| > 0
    && (forall b :: 0 <= b < |f.blocks| ==> BlockShape(f.blocks[b]))
    && (forall p :: Inside(f, p) ==> InstShape(f, InstAt(f, p)))
    && (forall v :: v in f.params ==> v < f.nextVreg)
    && UniqueDefs(f)
    && (forall p, k: nat :: Inside(f, p) && k < |InstAt(f, p).operands| ==> OperandScoped(f, p, k))
  }

  // ---------------------------------------------------------------------------
  // Runs

  /** Everything a run depends on besides the function. */
  datatype Start = Start(world: World, init: State)

  predicate ValidStart(params: map<nat, Type>, u: Start) {
    && u.init.block == 0 && u.init.index == 0 && u.init.prev == None
    && u.init.env.Keys == params.Keys
    && u.init.before == u.init.env
    && forall v :: v in params ==> u.init.env[v] == Fit(params[v], u.init.env[v])
  }

  function RunOf(f: Func, u: Start, n: nat): Outcome {
    Run(u.world, f, u.init, n)
  }

  function PointOf(s: State): Point {
    Point(s.block, s.index)
  }

  /** After n steps the run stands before the instruction at q. */
  predicate At(f: Func, u: Start, n: nat, q: Point) {
    RunOf(f, u, n).Running? && PointOf(RunOf(f, u, n).state) == q
  }

  function EnvAt(f: Func, u: Start, n: nat): Env
    requires RunOf(f, u, n).Running?
  {
    RunOf(f, u, n).state.env
  }

  lemma {:induction false} StepFollowsEdge(w: World, f: Func, s: State)
    requires Step(w, f, s).Running?
    ensures Edge(f, PointOf(s), PointOf(Step(w, f, s).state))
  {
    var i := f.blocks[s.block][s.index];
    if i.op.CondBr? {
      assert i.operands[1] in i.operands && i.operands[2] in i.operands;
    }
  }

  /** A step writes at most the register its instruction defines. */
  lemma {:induction false} StepFrame(w: World, f: Func, s: State, x: nat)
    requires WellFormed(f) && Step(w, f, s).Running?
    requires !IsDef(f, x, PointOf(s))
    ensures x in Step(w, f, s).state.env <==> x in s.env
    ensures x in s.env ==> Step(w, f, s).state.env[x] == s.env[x]
  {
    hide PureResult, LoadValue, StoreValue, EvalAll, Eval, AllocaSize, PhiOperand, WellTyped;
    assert Inside(f, PointOf(s));
    var i := InstAt(f, PointOf(s));
    assert InstShape(f, i);
  }

  lemma {:induction false} EarlierRunning(f: Func, u: Start, m: nat, n: nat)
    requires m <= n && RunOf(f, u, n).Running?
    ensures RunOf(f, u, m).Running?
    decreases n - m
  {
    if m < n {
      EarlierRunning(f, u, m, n - 1);
    }
  }

  function Trail(f: Func, u: Start, n: nat): (path: seq<Point>)
    requires RunOf(f, u, n).Running?
    ensures |path| == n + 1
  {
    (if n == 0 then [] else Trail(f, u, n - 1)) + [PointOf(RunOf(f, u, n).state)]
  }

  lemma {:induction false} TrailPoints(f: Func, u: Start, n: nat, k: nat)
    requires RunOf(f, u, n).Running? && k <= n
    ensures At(f, u, k, Trail(f, u, n)[k])
  {
    if k < n {
      TrailPoints(f, u, n - 1, k);
    }
  }

  lemma {:induction false} TrailIsPath(f: Func, u: Start, n: nat)
    requires RunOf(f, u, n).Running? && PointOf(u.init) == Point(0, 0)
    ensures IsPath(f, Trail(f, u, n)) && Last(Trail(f, u, n)) == PointOf(RunOf(f, u, n).state)
  {
    if n > 0 {
      TrailIsPath(f, u, n - 1);
      StepFollowsEdge(u.world, f, RunOf(f, u, n - 1).state);
    }
  }

  /** What dominates the current point has been executed. */
  lemma {:induction false} DominatorExecuted(f: Func, u: Start, n: nat, d: Point, q: Point) returns (m: nat)
    requires PointOf(u.init) == Point(0, 0) && At(f, u, n, q) && Dominates(f, d, q)
    ensures m < n && At(f, u, m, d)
  {
    TrailIsPath(f, u, n);
    var path := Trail(f, u, n);
    m :| 0 <= m < |path| - 1 && path[..|path| - 1][m] == d;
    TrailPoints(f, u, n, m);
  }

  lemma {:induction false} FirstVisit(f: Func, u: Start, n: nat, d: Point) returns (m: nat)
    requires At(f, u, n, d)
    ensures m <= n && At(f, u, m, d)
    ensures forall k :: 0 <= k < m ==> !At(f, u, k, d)
  {
    m := 0;
    while !At(f, u, m, d)
      invariant m <= n
      invariant forall k :: 0 <= k < m ==> !At(f, u, k, d)
      decreases n - m
    {
      m := m + 1;
    }
  }

  lemma {:induction false} LastVisit(f: Func, u: Start, n: nat, start: nat, d: Point) returns (m: nat)
    requires start < n && At(f, u, start, d)
    ensures start <= m < n && At(f, u, m, d)
    ensures forall k :: m < k < n ==> !At(f, u, k, d)
  {
    m := n - 1;
    while !At(f, u, m, d)
      invariant start <= m < n
      invariant forall k :: m < k < n ==> !At(f, u, k, d)
      decreases m
    {
      m := m - 1;
    }
  }

  /** No executed point dominates itself. */
  lemma {:induction false} NoSelfDominance(f: Func, u: Start, n: nat, d: Point)
    requires PointOf(u.init) == Point(0, 0) && At(f, u, n, d)
    ensures !Dominates(f, d, d)
  {
    if Dominates(f, d, d) {
      var m := FirstVisit(f, u, n, d);
      var k := DominatorExecuted(f, u, m, d, d);
      assert false;
    }
  }

  lemma {:induction false} DominatesTransitive(f: Func, a: Point, d: Point, q: Point)
    requires Dominates(f, a, d) && Dominates(f, d, q)
    ensures Dominates(f, a, q)
  {
    forall path | IsPath(f, path) && Last(path) == q
      ensures a in path[..|path| - 1]
    {
      var j :| 0 <= j < |path| - 1 && path[..|path| - 1][j] == d;
      var prefix := path[..j + 1];
      assert IsPath(f, prefix) && Last(prefix) == d;
      assert a in prefix[..|prefix| - 1];
      assert prefix[..|prefix| - 1] <= path[..|path| - 1];
    }
  }

  lemma {:induction false} AvailableTransitive(f: Func, x: nat, d: Point, q: Point)
    requires Available(f, x, d) && Dominates(f, d, q)
    ensures Available(f, x, q)
  {
    if x !in f.params {
      var e :| IsDef(f, x, e) && Dominates(f, e, d);
      DominatesTransitive(f, e, d, q);
    }
  }

  /** Within a block availability only grows. */
  lemma {:induction false} AvailableNext(f: Func, x: nat, b: nat, i: nat)
    requires WellFormed(f) && Available(f, x, Point(b, i)) && InRange(f, b, i + 1)
    ensures Available(f, x, Point(b, i + 1))
  {
    StraightLine(f, b, i);
    AvailableTransitive(f, x, Point(b, i), Point(b, i + 1));
  }

  lemma {:induction false} StraightLine(f: Func, b: nat, i: nat)
    requires WellFormed(f) && InRange(f, b, i + 1)
    ensures Dominates(f, Point(b, i), Point(b, i + 1))
  {
    var q := Point(b, i + 1);
    forall path | IsPath(f, path) && Last(path) == q
      ensures Point(b, i) in path[..|path| - 1]
    {
      assert |path| > 1;
      var p := path[|path| - 2];
      assert Edge(f, p, path[|path| - 2 + 1]);
      assert path[..|path| - 1][|path| - 2] == p;
    }
  }

  // ---------------------------------------------------------------------------
  // Stability

  /** A register keeps its value while its definition is not executed. */
  lemma {:induction false} Unchanged(f: Func, u: Start, m: nat, n: nat, x: nat)
    requires WellFormed(f) && m <= n && RunOf(f, u, n).Running? && RunOf(f, u, m).Running?
    requires forall k, d :: m <= k < n && IsDef(f, x, d) ==> !At(f, u, k, d)
    ensures x in EnvAt(f, u, n) <==> x in EnvAt(f, u, m)
    ensures x in EnvAt(f, u, m) ==> EnvAt(f, u, n)[x] == EnvAt(f, u, m)[x]
    decreases n - m
  {
    hide Step;
    if m < n {
      EarlierRunning(f, u, n - 1, n);
      Unchanged(f, u, m, n - 1, x);
      var s := RunOf(f, u, n - 1).state;
      assert At(f, u, n - 1, PointOf(s));
      StepFrame(u.world, f, s, x);
    }
  }

  /** Cutting a cycle out of a path leaves a path. */
  lemma {:induction false} Shortcut(f: Func, path: seq<Point>, i: nat, k: nat)
    requires IsPath(f, path) && i <= k < |path| - 1 && path[i] == path[k]
    ensures IsPath(f, path[..i + 1] + path[k + 1..])
    ensures Last(path[..i + 1] + path[k + 1..]) == Last(path)
  {
    var short := path[..i + 1] + path[k + 1..];
    forall j | 0 <= j < |short| - 1
      ensures Edge(f, short[j], short[j + 1])
    {
      if j < i {
        assert Edge(f, path[j], path[j + 1]);
      } else {
        assert Edge(f, path[j - i + k], path[j - i + k + 1]);
      }
    }
  }

  lemma {:induction false} FirstOccurrence(path: seq<Point>, e: Point, k: nat) returns (i: nat)
    requires k < |path| && path[k] == e
    ensures i <= k && path[i] == e && forall j :: 0 <= j < i ==> path[j] != e
  {
    i := 0;
    while path[i] != e
      invariant i <= k && forall j :: 0 <= j < i ==> path[j] != e
      decreases k - i
    {
      i := i + 1;
    }
  }

  lemma {:induction false} Passed(f: Func, d: Point, q: Point, path: seq<Point>) returns (j: nat)
    requires Dominates(f, d, q) && IsPath(f, path) && Last(path) == q
    ensures j < |path| - 1 && path[j] == d
  {
    j :| 0 <= j < |path| - 1 && path[..|path| - 1][j] == d;
  }

  lemma {:induction false} PrefixIsPath(f: Func, path: seq<Point>, j: nat)
    requires IsPath(f, path) && j < |path|
    ensures IsPath(f, path[..j + 1]) && Last(path[..j + 1]) == path[j]
  {
  }

  /** A point e that dominates d is not passed between the last passage of d and a point that
      d dominates: cutting the path at its first passage of e would avoid d. */
  lemma {:induction false} NoReturn(f: Func, path: seq<Point>, m: nat, k: nat, e: Point, d: Point, q: Point)
    requires IsPath(f, path) && Last(path) == q && m < k < |path| - 1
    requires forall j :: m < j < |path| - 1 ==> path[j] != d
    requires Dominates(f, e, d) && Dominates(f, d, q) && e != d
    ensures path[k] != e
  {
    if path[k] == e {
      var i := FirstOccurrence(path, e, k);
      Shortcut(f, path, i, k);
      var j := Passed(f, d, q, path[..i + 1] + path[k + 1..]);
      if j <= i {
        PrefixIsPath(f, path, j);
        var j' := Passed(f, e, d, path[..j + 1]);
      }
      assert false;
    }
  }

  lemma {:induction false} NoRevisit(f: Func, u: Start, m: nat, n: nat, k: nat, e: Point, d: Point, q: Point)
    requires PointOf(u.init) == Point(0, 0)
    requires At(f, u, n, q) && m < k < n
    requires forall j :: m < j < n ==> !At(f, u, j, d)
    requires Dominates(f, e, d) && Dominates(f, d, q) && e != d
    ensures !At(f, u, k, e)
  {
    TrailIsPath(f, u, n);
    var path := Trail(f, u, n);
    forall j | m < j < n
      ensures path[j] != d
    {
      TrailPoints(f, u, n, j);
    }
    NoReturn(f, path, m, k, e, d, q);
    TrailPoints(f, u, n, k);
  }

  lemma {:induction false} NotParam(f: Func, v: nat, d: Point)
    requires WellFormed(f) && IsDef(f, v, d)
    ensures v !in f.params
  {
    assert InstShape(f, InstAt(f, d));
  }

  lemma {:induction false} ParamType(f: Func, v: nat, t: Type)
    requires WellFormed(f) && v in f.params && HasVregType(f, v, t)
    ensures f.params[v] == t
  {
    forall d
      ensures !IsDef(f, v, d)
    {
      if IsDef(f, v, d) {
        NotParam(f, v, d);
      }
    }
  }

  lemma {:induction false} LastExecution(f: Func, u: Start, n: nat, q: Point, d: Point) returns (m: nat)
    requires PointOf(u.init) == Point(0, 0) && At(f, u, n, q) && Dominates(f, d, q)
    ensures m < n && At(f, u, m, d) && RunOf(f, u, m + 1).Running?
    ensures forall j :: m < j < n ==> !At(f, u, j, d)
  {
    hide Run;
    var start := DominatorExecuted(f, u, n, d, q);
    m := LastVisit(f, u, n, start, d);
    EarlierRunning(f, u, m + 1, n);
  }

  lemma {:induction false} ValueSinceDefinition(f: Func, u: Start, m: nat, n: nat, v: nat, d: Point)
    requires WellFormed(f) && IsDef(f, v, d) && m < n
    requires RunOf(f, u, m + 1).Running? && RunOf(f, u, n).Running?
    requires forall j :: m < j < n ==> !At(f, u, j, d)
    ensures v in EnvAt(f, u, m + 1) <==> v in EnvAt(f, u, n)
    ensures v in EnvAt(f, u, n) ==> EnvAt(f, u, n)[v] == EnvAt(f, u, m + 1)[v]
  {
    forall k, e | m + 1 <= k < n && IsDef(f, v, e)
      ensures !At(f, u, k, e)
    {
      assert e == d;
    }
    Unchanged(f, u, m + 1, n, v);
  }

  /** Main result on runs, first half: where v's definition dominates, v holds what the last
      execution of the definition wrote. */
  lemma {:induction false} Stability(f: Func, u: Start, n: nat, q: Point, v: nat, d: Point) returns (m: nat)
    requires WellFormed(f) && ValidStart(f.params, u) && At(f, u, n, q)
    requires IsDef(f, v, d) && Dominates(f, d, q)
    ensures m < n && At(f, u, m, d) && RunOf(f, u, m + 1).Running?
    ensures v in EnvAt(f, u, m + 1) <==> v in EnvAt(f, u, n)
    ensures v in EnvAt(f, u, n) ==> EnvAt(f, u, n)[v] == EnvAt(f, u, m + 1)[v]
    ensures forall j :: m < j < n ==> !At(f, u, j, d)
  {
    m := LastExecution(f, u, n, q, d);
    ValueSinceDefinition(f, u, m, n, v, d);
  }

  /** Second half: so do the registers that were available at that definition. */
  lemma {:induction false} StableOperand(f: Func, u: Start, m: nat, n: nat, q: Point, d: Point, x: nat)
    requires WellFormed(f) && ValidStart(f.params, u) && m < n && At(f, u, n, q) && At(f, u, m, d)
    requires Dominates(f, d, q) && Available(f, x, d) && !IsDef(f, x, d)
    requires forall j :: m < j < n ==> !At(f, u, j, d)
    ensures x in EnvAt(f, u, m) <==> x in EnvAt(f, u, n)
    ensures x in EnvAt(f, u, m) ==> EnvAt(f, u, n)[x] == EnvAt(f, u, m)[x]
  {
    forall k, e | m <= k < n && IsDef(f, x, e)
      ensures !At(f, u, k, e)
    {
      NotParam(f, x, e);
      var e' :| IsDef(f, x, e') && Dominates(f, e', d);
      assert e' == e;
      if k == m {
      } else {
        NoRevisit(f, u, m, n, k, e, d, q);
      }
    }
    Unchanged(f, u, m, n, x);
  }

  // ---------------------------------------------------------------------------
  // Types of values, and the environment phis read

  ghost predicate EnvFits(f: Func, env: Env) {
    forall v, t :: v in env && HasVregType(f, v, t) ==> env[v] == Fit(t, env[v])
  }

  lemma {:induction false} FitTwice(t: Type, n: int)
    ensures Fit(t, Fit(t, n)) == Fit(t, n)
  {
    if !t.OtherType? {
      Pow2ModMod(n, Width(t), Width(t));
    }
  }

  lemma {:induction false} StepFits(w: World, f: Func, s: State)
    requires WellFormed(f) && EnvFits(f, s.env) && Step(w, f, s).Running?
    ensures EnvFits(f, Step(w, f, s).state.env)
  {
    var p := PointOf(s);
    var i := InstAt(f, p);
    var s' := Step(w, f, s).state;
    assert InstShape(f, i);
    forall v, t | v in s'.env && HasVregType(f, v, t)
      ensures s'.env[v] == Fit(t, s'.env[v])
    {
      if IsDef(f, v, p) {
        assert t == ResultType(i);
        DefinedValueFits(w, f, s);
      } else {
        StepFrame(w, f, s, v);
      }
    }
  }

  lemma {:induction false} DefinedValueFits(w: World, f: Func, s: State)
    requires Step(w, f, s).Running? && Inside(f, PointOf(s)) && DefinesDest(InstAt(f, PointOf(s)))
    ensures InstAt(f, PointOf(s)).dest in Step(w, f, s).state.env
    ensures var i := InstAt(f, PointOf(s));
      Step(w, f, s).state.env[i.dest] == Fit(ResultType(i), Step(w, f, s).state.env[i.dest])
  {
    var i := InstAt(f, PointOf(s));
    forall n: int
      ensures Fit(ResultType(i), Fit(ResultType(i), n)) == Fit(ResultType(i), n)
    {
      FitTwice(ResultType(i), n);
    }
  }

  lemma {:induction false} RunFits(f: Func, u: Start, n: nat)
    requires WellFormed(f) && ValidStart(f.params, u) && RunOf(f, u, n).Running?
    ensures EnvFits(f, RunOf(f, u, n).state.env)
  {
    if n == 0 {
      forall v, t | v in u.init.env && HasVregType(f, v, t)
        ensures u.init.env[v] == Fit(t, u.init.env[v])
      {
        ParamType(f, v, t);
      }
    } else {
      RunFits(f, u, n - 1);
      StepFits(u.world, f, RunOf(f, u, n - 1).state);
    }
  }

  lemma {:induction false} RunLast(f: Func, u: Start, n: nat)
    requires RunOf(f, u, n).Running?
    ensures n == 0 ==> RunOf(f, u, n).state == u.init
    ensures n > 0 ==> RunOf(f, u, n - 1).Running? && RunOf(f, u, n) == Step(u.world, f, RunOf(f, u, n - 1).state)
  {
    hide Step;
  }

  /** The block was entered from the end of its predecessor, with the environment phis read. */
  lemma {:induction false} BlockEntry(f: Func, u: Start, n: nat) returns (m: nat)
    requires WellFormed(f) && ValidStart(f.params, u) && RunOf(f, u, n).Running?
    requires RunOf(f, u, n).state.prev.Some?
    ensures m < n && RunOf(f, u, m).Running?
    ensures var (p, s) := (RunOf(f, u, n).state.prev.value, RunOf(f, u, m).state);
      && p < |f.blocks| && s.block == p && s.index == |f.blocks[p]| - 1
      && s.env == RunOf(f, u, n).state.before
  {
    hide Step, Run;
    RunLast(f, u, n);
    var s := RunOf(f, u, n - 1).state;
    StepKeepsEntry(u.world, f, s);
    if IsTerminator(InstAt(f, PointOf(s)).op) {
      m := n - 1;
      assert BlockShape(f.blocks[s.block]);
    } else {
      m := BlockEntry(f, u, n - 1);
    }
  }

  lemma {:induction false} StepKeepsEntry(w: World, f: Func, s: State)
    requires Step(w, f, s).Running?
    ensures Inside(f, PointOf(s))
    ensures var s' := Step(w, f, s).state;
      if IsTerminator(InstAt(f, PointOf(s)).op)
      then s'.prev == Some(s.block) && s'.before == s.env
      else s'.prev == s.prev && s'.before == s.before
  {
  }
}
