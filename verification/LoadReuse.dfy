/**
 The load cache of one block: which register already holds what memory holds.
 */
module LoadReuse {
  import opened Wrappers
  import opened Numbers
  import opened Ir
  import opened ConstantFold
  import opened Dominance
  import opened PeepholeFacts

  datatype LoadEntry = LoadEntry(ptr: Operand, loadType: Type, value: nat)

  /** In state s the register of the entry holds what a load through its pointer would give. */
  predicate CacheHit(w: World, s: State, e: LoadEntry) {
    && Eval(w, s.env, e.ptr).Some?
    && LoadValue(s.mem, e.loadType, Eval(w, s.env, e.ptr).value).Some?
    && Eval(w, s.env, Vreg(e.value, e.loadType)) == LoadValue(s.mem, e.loadType, Eval(w, s.env, e.ptr).value)
  }

  /** The entry may be used just before the instruction at (b, i). */
  ghost predicate CacheOk(f: Func, b: nat, i: nat, e: LoadEntry) {
    && ReadableAt(f, Point(b, i), e.ptr)
    && e.value < f.nextVreg && HasVregType(f, e.value, e.loadType)
    && (exists j :: 0 <= j < i && IsDef(f, e.value, Point(b, j)))
    && forall u, n: nat :: ValidStart(f.params, u) && At(f, u, n, Point(b, i)) ==>
         CacheHit(u.world, RunOf(f, u, n).state, e)
  }

  lemma {:induction false} LoadStep(w: World, f: Func, s: State)
    requires WellFormed(f) && Step(w, f, s).Running? && Inside(f, PointOf(s)) && InstAt(f, PointOf(s)).op.Load?
    ensures var i := InstAt(f, PointOf(s));
      && |i.operands| == 1 && Eval(w, s.env, i.operands[0]).Some?
      && LoadValue(s.mem, i.ty, Eval(w, s.env, i.operands[0]).value).Some?
      && Step(w, f, s).state.mem == s.mem
      && Step(w, f, s).state.env == s.env[i.dest := LoadValue(s.mem, i.ty, Eval(w, s.env, i.operands[0]).value).value]
  {
    var i := InstAt(f, PointOf(s));
    assert InstShape(f, i);
    EvalAllCons(w, s.env, i.operands);
    assert i.operands[1..] == [];
    FitTwice(i.ty, LoadBytes(s.mem, Eval(w, s.env, i.operands[0]).value, SizeInBytes(i.ty)).value);
  }

  lemma {:induction false} SameBytesSameLoad(m: Mem, m': Mem, addr: int, n: nat)
    requires m.bytes == m'.bytes
    ensures LoadBytes(m, addr, n) == LoadBytes(m', addr, n)
    decreases n
  {
    if n > 0 {
      SameBytesSameLoad(m, m', addr + 1, n - 1);
    }
  }

  /** Only stores and calls change the bytes of memory. */
  lemma {:induction false} QuietStep(w: World, f: Func, s: State)
    requires Step(w, f, s).Running?
    requires Inside(f, PointOf(s)) && !InstAt(f, PointOf(s)).op.Store? && !InstAt(f, PointOf(s)).op.Call?
    ensures Step(w, f, s).state.mem.bytes == s.mem.bytes
  {
  }

  /** The run reached (b, i + 1) from (b, i). */
  lemma {:induction false} CameFrom(f: Func, u: Start, n: nat, b: nat, i: nat)
    requires WellFormed(f) && ValidStart(f.params, u) && At(f, u, n, Point(b, i + 1))
    ensures n > 0 && At(f, u, n - 1, Point(b, i))
  {
    assert n > 0;
    StepFollowsEdge(u.world, f, RunOf(f, u, n - 1).state);
  }

  lemma {:induction false} DefinedElsewhere(f: Func, u: Start, n: nat, p: Point, x: nat)
    requires WellFormed(f) && ValidStart(f.params, u) && At(f, u, n, p) && Available(f, x, p)
    ensures !IsDef(f, x, p)
  {
    hide Run;
    if IsDef(f, x, p) {
      AvailableMeansDominated(f, x, p, p);
      NoSelfDominance(f, u, n, p);
    }
  }

  lemma {:induction false} OperandSurvives(f: Func, u: Start, n: nat, p: Point, o: Operand)
    requires WellFormed(f) && ValidStart(f.params, u) && At(f, u, n, p) && RunOf(f, u, n + 1).Running?
    requires o.Vreg? ==> !IsDef(f, o.vreg, p)
    ensures EvalAt(f, u, n + 1, o) == EvalAt(f, u, n, o)
  {
    hide Step;
    if o.Vreg? {
      StepFrame(u.world, f, RunOf(f, u, n).state, o.vreg);
    }
  }

  lemma {:induction false} ReadableNext(f: Func, b: nat, i: nat, o: Operand)
    requires WellFormed(f) && ReadableAt(f, Point(b, i), o) && InRange(f, b, i + 1)
    ensures ReadableAt(f, Point(b, i + 1), o)
  {
    if o.Vreg? {
      AvailableNext(f, o.vreg, b, i);
    }
  }

  lemma {:induction false} HitAfterStep(f: Func, u: Start, n: nat, b: nat, i: nat, e: LoadEntry)
    requires WellFormed(f) && ValidStart(f.params, u) && CacheOk(f, b, i, e)
    requires InRange(f, b, i) && !f.blocks[b][i].op.Store? && !f.blocks[b][i].op.Call?
    requires At(f, u, n, Point(b, i)) && RunOf(f, u, n + 1).Running?
    ensures CacheHit(u.world, RunOf(f, u, n + 1).state, e)
  {
    hide Step;
    var p := Point(b, i);
    var s := RunOf(f, u, n).state;
    var t := RunOf(f, u, n + 1).state;
    var value := Vreg(e.value, e.loadType);
    assert CacheHit(u.world, s, e);
    if e.ptr.Vreg? {
      DefinedElsewhere(f, u, n, p, e.ptr.vreg);
    }
    hide CacheOk;
    QuietStep(u.world, f, s);
    OperandSurvives(f, u, n, p, e.ptr);
    OperandSurvives(f, u, n, p, value);
    assert EvalAt(f, u, n, value) == Eval(u.world, s.env, value);
    assert EvalAt(f, u, n + 1, value) == Eval(u.world, t.env, value);
    SameBytesSameLoad(s.mem, t.mem, Eval(u.world, s.env, e.ptr).value, SizeInBytes(e.loadType));
  }

  /** An instruction that neither stores nor calls keeps every entry usable. */
  lemma {:induction false} CacheAdvance(f: Func, b: nat, i: nat, e: LoadEntry)
    requires WellFormed(f) && CacheOk(f, b, i, e) && InRange(f, b, i + 1)
    requires !f.blocks[b][i].op.Store? && !f.blocks[b][i].op.Call?
    ensures CacheOk(f, b, i + 1, e)
  {
    hide Run;
    ReadableNext(f, b, i, e.ptr);
    forall u, n: nat | ValidStart(f.params, u) && At(f, u, n, Point(b, i + 1))
      ensures CacheHit(u.world, RunOf(f, u, n).state, e)
    {
      CameFrom(f, u, n, b, i);
      HitAfterStep(f, u, n - 1, b, i, e);
    }
  }

  lemma {:induction false} LoadAfter(f: Func, u: Start, m: nat, p: Point)
    requires WellFormed(f) && At(f, u, m, p) && RunOf(f, u, m + 1).Running?
    requires Inside(f, p) && InstAt(f, p).op.Load?
    ensures var i := InstAt(f, p); var s := RunOf(f, u, m).state;
      && |i.operands| == 1 && Eval(u.world, s.env, i.operands[0]).Some?
      && LoadValue(s.mem, i.ty, Eval(u.world, s.env, i.operands[0]).value).Some?
      && RunOf(f, u, m + 1).state.mem == s.mem
      && i.dest in EnvAt(f, u, m + 1)
      && Some(EnvAt(f, u, m + 1)[i.dest]) == LoadValue(s.mem, i.ty, Eval(u.world, s.env, i.operands[0]).value)
  {
    hide Step;
    LoadStep(u.world, f, RunOf(f, u, m).state);
  }

  lemma {:induction false} HitAfterLoad(f: Func, u: Start, n: nat, p: Point, ptr: Operand)
    requires WellFormed(f) && ValidStart(f.params, u) && At(f, u, n, p) && RunOf(f, u, n + 1).Running?
    requires Inside(f, p) && InstAt(f, p).op.Load?
    requires ReadableAt(f, p, ptr) && |InstAt(f, p).operands| == 1
    requires SameValueAt(f, p, InstAt(f, p).operands[0], ptr)
    ensures CacheHit(u.world, RunOf(f, u, n + 1).state, LoadEntry(ptr, InstAt(f, p).ty, InstAt(f, p).dest))
  {
    hide Run;
    assert EvalAt(f, u, n, InstAt(f, p).operands[0]) == EvalAt(f, u, n, ptr);
    LoadAfter(f, u, n, p);
    if ptr.Vreg? {
      DefinedElsewhere(f, u, n, p, ptr.vreg);
    }
    OperandSurvives(f, u, n, p, ptr);
  }

  /** A load that stays makes its register a cache entry. */
  lemma {:induction false} CacheInsert(f: Func, b: nat, i: nat, inst: Inst)
    requires WellFormed(f) && MatchesInst(f, Point(b, i), inst) && inst.op.Load? && InRange(f, b, i + 1)
    ensures |inst.operands| == 1
    ensures CacheOk(f, b, i + 1, LoadEntry(inst.operands[0], inst.ty, inst.dest))
  {
    hide Run;
    var p := Point(b, i);
    var orig := InstAt(f, p);
    assert InstShape(f, orig);
    var ptr := inst.operands[0];
    var e := LoadEntry(ptr, inst.ty, inst.dest);
    assert StandsFor(f, UsePoint(f, p, 0), orig.operands[0], ptr);
    assert IsDef(f, inst.dest, p);
    ReadableNext(f, b, i, ptr);
    forall u, n: nat | ValidStart(f.params, u) && At(f, u, n, Point(b, i + 1))
      ensures CacheHit(u.world, RunOf(f, u, n).state, e)
    {
      CameFrom(f, u, n, b, i);
      HitAfterLoad(f, u, n - 1, p, ptr);
    }
  }

  /** A load through a cached pointer is known to give the cached register. */
  lemma {:induction false} CacheReuse(f: Func, b: nat, i: nat, inst: Inst, e: LoadEntry)
    requires WellFormed(f) && MatchesInst(f, Point(b, i), inst) && inst.op.Load? && CacheOk(f, b, i, e)
    requires |inst.operands| >= 1 && OperandEqual(e.ptr, inst.operands[0]) && e.loadType == inst.ty
    ensures e.value != inst.dest
    ensures Known(f, inst.dest, Vreg(e.value, inst.ty))
  {
    hide Run;
    var p := Point(b, i);
    var orig := InstAt(f, p);
    assert InstShape(f, orig);
    var o := Vreg(e.value, inst.ty);
    assert StandsFor(f, UsePoint(f, p, 0), orig.operands[0], inst.operands[0]);
    assert IsDef(f, inst.dest, p);
    var j :| 0 <= j < i && IsDef(f, e.value, Point(b, j));
    DominatesWithinBlock(f, b, j, i);
    forall u, m: nat | ValidStart(f.params, u) && At(f, u, m, p) && RunOf(f, u, m + 1).Running?
      ensures inst.dest in EnvAt(f, u, m + 1)
      ensures Some(EnvAt(f, u, m + 1)[inst.dest]) == EvalAt(f, u, m, o)
    {
      LoadAfter(f, u, m, p);
      assert EvalAt(f, u, m, orig.operands[0]) == EvalAt(f, u, m, inst.operands[0]);
      assert CacheHit(u.world, RunOf(f, u, m).state, e);
    }
    EstablishKnown(f, inst.dest, p, o);
  }

  lemma {:induction false} DominatesWithinBlock(f: Func, b: nat, j: nat, i: nat)
    requires WellFormed(f) && j < i && InRange(f, b, i)
    ensures Dominates(f, Point(b, j), Point(b, i))
    decreases i
  {
    assert InRange(f, b, i - 1);
    hide *;
    StraightLine(f, b, i - 1);
    if j < i - 1 {
      DominatesWithinBlock(f, b, j, i - 1);
      DominatesTransitive(f, Point(b, j), Point(b, i - 1), Point(b, i));
    }
  }
}
