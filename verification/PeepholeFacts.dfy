/**
 What the optimiser knows about a function while it rewrites it.  Every fact is stated about
 the runs of the original function f, so no fact is ever invalidated by a later rewrite.
 */
module PeepholeFacts {
  import opened Wrappers
  import opened Numbers
  import opened Ir
  import opened ConstantFold
  import opened Dominance

  function EvalAt(f: Func, u: Start, n: nat, o: Operand): Option<int> {
    match RunOf(f, u, n)
    case Running(s) => Eval(u.world, s.env, o)
    case _ => None
  }

  /** Whenever a run stands at q the two operands have the same value. */
  ghost predicate SameValueAt(f: Func, q: Point, o: Operand, o': Operand) {
    forall u, n: nat :: ValidStart(f.params, u) && At(f, u, n, q) ==> EvalAt(f, u, n, o) == EvalAt(f, u, n, o')
  }

  /** o is a value that may be read at q. */
  ghost predicate ReadableAt(f: Func, q: Point, o: Operand) {
    && !o.BlockRef?
    && (o.Vreg? ==> o.vreg < f.nextVreg && HasVregType(f, o.vreg, o.ty) && Available(f, o.vreg, q))
  }

  /** Operand o' may be read at q instead of o. */
  ghost predicate StandsFor(f: Func, q: Point, o: Operand, o': Operand) {
    if o.BlockRef? then o' == o
    else ReadableAt(f, q, o') && (o' == o || FaithfulImm(o')) && o'.ty == o.ty && SameValueAt(f, q, o, o')
  }

  /** The branch at p always goes to target. */
  ghost predicate AlwaysTaken(f: Func, p: Point, target: Operand) {
    && Inside(f, p) && |InstAt(f, p).operands| == 3 && target in InstAt(f, p).operands
    && forall u, n: nat :: ValidStart(f.params, u) && At(f, u, n, p) ==>
         var c := EvalAt(f, u, n, InstAt(f, p).operands[0]);
         c.Some? ==> InstAt(f, p).operands[if c.value != 0 then 1 else 2] == target
  }

  /** Instruction i may be executed instead of the original instruction at p. */
  ghost predicate MatchesInst(f: Func, p: Point, i: Inst) {
    && Inside(f, p)
    && var orig := InstAt(f, p);
       i.dest == orig.dest && i.ty == orig.ty
       && if i.op == orig.op then
            |i.operands| == |orig.operands|
            && forall k :: 0 <= k < |i.operands| ==> StandsFor(f, UsePoint(f, p, k), orig.operands[k], i.operands[k])
          else
            orig.op.CondBr? && i.op.Br? && |i.operands| == 1 && i.operands[0].BlockRef?
            && AlwaysTaken(f, p, i.operands[0])
  }

  ghost predicate Never(f: Func, p: Point) {
    forall u, n: nat :: ValidStart(f.params, u) ==> !At(f, u, n, p)
  }

  /** Wherever v's definition dominates, o has the value of v. */
  ghost predicate KnownAt(f: Func, v: nat, d: Point, o: Operand) {
    && IsDef(f, v, d) && ReadableAt(f, d, o) && FaithfulImm(o) && HasVregType(f, v, o.ty)
    && (o.Vreg? ==> o.vreg != v)
    && forall u, n: nat, q :: ValidStart(f.params, u) && At(f, u, n, q) && Dominates(f, d, q) ==>
         EvalAt(f, u, n, Vreg(v, o.ty)) == EvalAt(f, u, n, o)
  }

  ghost predicate Known(f: Func, v: nat, o: Operand) {
    exists d :: KnownAt(f, v, d, o)
  }

  // ---------------------------------------------------------------------------
  // Starting point and substitution

  lemma {:induction false} OriginalMatches(f: Func, p: Point)
    requires WellFormed(f) && Inside(f, p)
    ensures MatchesInst(f, p, InstAt(f, p))
  {
    var i := InstAt(f, p);
    assert InstShape(f, i);
    forall k | 0 <= k < |i.operands|
      ensures StandsFor(f, UsePoint(f, p, k), i.operands[k], i.operands[k])
    {
      assert OperandScoped(f, p, k);
    }
  }

  lemma {:induction false} UniqueType(f: Func, v: nat, s: Type, t: Type)
    requires WellFormed(f) && HasVregType(f, v, s) && HasVregType(f, v, t)
    ensures s == t
  {
    if v in f.params {
      ParamType(f, v, s);
      ParamType(f, v, t);
    }
  }

  lemma {:induction false} AvailableMeansDominated(f: Func, v: nat, d: Point, q: Point)
    requires WellFormed(f) && IsDef(f, v, d) && Available(f, v, q)
    ensures Dominates(f, d, q)
  {
    NotParam(f, v, d);
  }

  /** Following one replacement keeps an operand valid. */
  lemma {:induction false} SubstituteKnown(f: Func, q: Point, o: Operand, v: nat, t: Type, r: Operand)
    requires WellFormed(f) && !o.BlockRef? && StandsFor(f, q, o, Vreg(v, t)) && Known(f, v, r)
    ensures StandsFor(f, q, o, r)
  {
    var d :| KnownAt(f, v, d, r);
    AvailableMeansDominated(f, v, d, q);
    UniqueType(f, v, t, r.ty);
    if r.Vreg? {
      AvailableTransitive(f, r.vreg, d, q);
    }
  }

  // ---------------------------------------------------------------------------
  // Evaluating matched instructions

  lemma {:induction false} MatchWellTyped(f: Func, p: Point, i: Inst)
    requires WellFormed(f) && MatchesInst(f, p, i) && i.op == InstAt(f, p).op
    ensures WellTyped(i)
  {
    var orig := InstAt(f, p);
    assert InstShape(f, orig);
    forall k | 0 <= k < |i.operands|
      ensures i.op.Select? || i.op.CondBr? ==> FaithfulImm(i.operands[k])
      ensures orig.operands[k].BlockRef? ==> i.operands[k] == orig.operands[k]
      ensures !orig.operands[k].BlockRef? ==> !i.operands[k].BlockRef? && i.operands[k].ty == orig.operands[k].ty
    {
      assert StandsFor(f, UsePoint(f, p, k), orig.operands[k], i.operands[k]);
    }
  }

  lemma {:induction false} EvalAllPointwise(w: World, env: Env, env': Env, os: seq<Operand>, os': seq<Operand>)
    requires |os| == |os'|
    requires forall k :: 0 <= k < |os| ==> Eval(w, env, os[k]) == Eval(w, env', os'[k])
    ensures EvalAll(w, env, os) == EvalAll(w, env', os')
  {
    if os != [] {
      EvalAllPointwise(w, env, env', os[1..], os'[1..]);
    }
  }

  /** In a run at p the matched instruction reads the same arguments. */
  lemma {:induction false} MatchedArguments(f: Func, u: Start, n: nat, p: Point, i: Inst)
    requires WellFormed(f) && ValidStart(f.params, u) && At(f, u, n, p)
    requires MatchesInst(f, p, i) && i.op == InstAt(f, p).op && !i.op.Phi?
    ensures EvalAll(u.world, EnvAt(f, u, n), i.operands) == EvalAll(u.world, EnvAt(f, u, n), InstAt(f, p).operands)
    ensures OperandsFit(EnvAt(f, u, n), i.operands)
  {
    hide Run;
    var orig := InstAt(f, p);
    var env := EnvAt(f, u, n);
    RunFits(f, u, n);
    forall k | 0 <= k < |i.operands|
      ensures Eval(u.world, env, i.operands[k]) == Eval(u.world, env, orig.operands[k])
      ensures i.operands[k].Vreg? ==> HasVregType(f, i.operands[k].vreg, i.operands[k].ty)
    {
      assert StandsFor(f, p, orig.operands[k], i.operands[k]);
      assert EvalAt(f, u, n, orig.operands[k]) == EvalAt(f, u, n, i.operands[k]);
    }
    EvalAllPointwise(u.world, env, env, i.operands, orig.operands);
  }

  /** An operand readable at d keeps its value until every later point d dominates. */
  lemma {:induction false} ReadableStable(f: Func, u: Start, m: nat, n: nat, d: Point, q: Point, v: nat, o: Operand)
    requires WellFormed(f) && ValidStart(f.params, u) && m < n && At(f, u, n, q) && At(f, u, m, d)
    requires IsDef(f, v, d) && Dominates(f, d, q) && ReadableAt(f, d, o) && (o.Vreg? ==> o.vreg != v)
    requires forall j :: m < j < n ==> !At(f, u, j, d)
    ensures EvalAt(f, u, m, o) == EvalAt(f, u, n, o)
  {
    hide Run;
    if o.Vreg? {
      StableOperand(f, u, m, n, q, d, o.vreg);
    }
  }

  /** If every execution of v's definition writes the value o has at that moment, o is known
      for v. */
  lemma {:induction false} EstablishKnown(f: Func, v: nat, d: Point, o: Operand)
    requires WellFormed(f) && IsDef(f, v, d) && ReadableAt(f, d, o) && FaithfulImm(o) && HasVregType(f, v, o.ty)
    requires o.Vreg? ==> o.vreg != v
    requires forall u, m: nat :: ValidStart(f.params, u) && At(f, u, m, d) && RunOf(f, u, m + 1).Running? ==>
      v in EnvAt(f, u, m + 1) && Some(EnvAt(f, u, m + 1)[v]) == EvalAt(f, u, m, o)
    ensures Known(f, v, o)
  {
    hide Run;
    forall u, n: nat, q | ValidStart(f.params, u) && At(f, u, n, q) && Dominates(f, d, q)
      ensures EvalAt(f, u, n, Vreg(v, o.ty)) == EvalAt(f, u, n, o)
    {
      var m := Stability(f, u, n, q, v, d);
      ReadableStable(f, u, m, n, d, q, v, o);
    }
    assert KnownAt(f, v, d, o);
  }

  // ---------------------------------------------------------------------------
  // Folding

  lemma {:induction false} PureStep(w: World, f: Func, s: State)
    requires Step(w, f, s).Running? && Inside(f, PointOf(s))
    requires var op := InstAt(f, PointOf(s)).op; IsBinop(op) || op.ICmp? || op.Select?
    ensures var i := InstAt(f, PointOf(s));
      && EvalAll(w, s.env, i.operands).Some?
      && PureResult(w, i, EvalAll(w, s.env, i.operands).value).Some?
      && var v := PureResult(w, i, EvalAll(w, s.env, i.operands).value).value;
         Step(w, f, s).state.env == s.env[i.dest := Fit(ResultType(i), v)]
  {
  }

  lemma {:induction false} SamePureResult(w: World, i: Inst, j: Inst, args: seq<int>)
    requires i.op == j.op && i.ty == j.ty && |i.operands| == |j.operands|
    requires forall k :: 0 <= k < |i.operands| ==> i.operands[k].BlockRef? == j.operands[k].BlockRef?
    requires forall k :: 0 <= k < |i.operands| && !i.operands[k].BlockRef? ==> i.operands[k].ty == j.operands[k].ty
    ensures PureResult(w, i, args) == PureResult(w, j, args)
  {
  }

  lemma {:induction false} FoldedValue(f: Func, u: Start, m: nat, p: Point, i: Inst)
    requires WellFormed(f) && ValidStart(f.params, u) && At(f, u, m, p) && RunOf(f, u, m + 1).Running?
    requires MatchesInst(f, p, i) && i.op == InstAt(f, p).op && TryReplacement(i).Some?
    ensures i.dest in EnvAt(f, u, m + 1)
    ensures Some(EnvAt(f, u, m + 1)[i.dest]) == EvalAt(f, u, m, TryReplacement(i).value)
  {
    hide TryReplacement, PureResult, Step;
    var orig := InstAt(f, p);
    MatchWellTyped(f, p, i);
    ReplacementShape(i);
    var s := RunOf(f, u, m).state;
    PureStep(u.world, f, s);
    MatchedArguments(f, u, m, p, i);
    var args := EvalAll(u.world, s.env, i.operands).value;
    forall k | 0 <= k < |i.operands|
      ensures i.operands[k].BlockRef? == orig.operands[k].BlockRef?
      ensures !i.operands[k].BlockRef? ==> i.operands[k].ty == orig.operands[k].ty
    {
      assert StandsFor(f, UsePoint(f, p, k), orig.operands[k], i.operands[k]);
    }
    SamePureResult(u.world, orig, i, args);
    ReplacementSound(u.world, s.env, i, args);
  }

  /** A folded instruction makes its replacement known. */
  lemma {:induction false} FoldKnown(f: Func, p: Point, i: Inst)
    requires WellFormed(f) && MatchesInst(f, p, i) && i.op == InstAt(f, p).op && TryReplacement(i).Some?
    requires DefinesDest(i)
    requires TryReplacement(i).value.Vreg? ==> TryReplacement(i).value.vreg != i.dest
    ensures Known(f, i.dest, TryReplacement(i).value)
  {
    hide Run, TryReplacement;
    var o := TryReplacement(i).value;
    MatchWellTyped(f, p, i);
    ReplacementShape(i);
    FoldReadable(f, p, i);
    forall u, m: nat | ValidStart(f.params, u) && At(f, u, m, p) && RunOf(f, u, m + 1).Running?
      ensures i.dest in EnvAt(f, u, m + 1)
      ensures Some(EnvAt(f, u, m + 1)[i.dest]) == EvalAt(f, u, m, o)
    {
      FoldedValue(f, u, m, p, i);
    }
    assert IsDef(f, i.dest, p);
    EstablishKnown(f, i.dest, p, o);
  }

  lemma {:induction false} FoldReadable(f: Func, p: Point, i: Inst)
    requires WellFormed(f) && MatchesInst(f, p, i) && i.op == InstAt(f, p).op && TryReplacement(i).Some?
    ensures ReadableAt(f, p, TryReplacement(i).value)
  {
    hide Run, TryReplacement;
    MatchWellTyped(f, p, i);
    ReplacementShape(i);
    var o := TryReplacement(i).value;
    if o.Vreg? {
      var k :| 0 <= k < |i.operands| && i.operands[k] == o;
      assert StandsFor(f, UsePoint(f, p, k), InstAt(f, p).operands[k], i.operands[k]);
    }
  }

  /** A register that would replace itself belongs to code that is never reached. */
  lemma {:induction false} SelfReplacementNever(f: Func, p: Point, i: Inst)
    requires WellFormed(f) && MatchesInst(f, p, i) && i.op == InstAt(f, p).op && TryReplacement(i).Some?
    requires DefinesDest(i) && TryReplacement(i).value.Vreg? && TryReplacement(i).value.vreg == i.dest
    ensures Never(f, p)
  {
    hide Run, TryReplacement;
    FoldReadable(f, p, i);
    assert IsDef(f, i.dest, p);
    AvailableMeansDominated(f, i.dest, p, p);
    forall u, n: nat | ValidStart(f.params, u)
      ensures !At(f, u, n, p)
    {
      if At(f, u, n, p) {
        NoSelfDominance(f, u, n, p);
      }
    }
  }

  // ---------------------------------------------------------------------------
  // Constant branches

  lemma {:induction false} ConstantBranch(f: Func, p: Point, i: Inst)
    requires WellFormed(f) && MatchesInst(f, p, i) && i.op.CondBr? && InstAt(f, p).op.CondBr?
    requires |i.operands| >= 3 && i.operands[0].ImmI64?
    ensures MatchesInst(f, p, i.(op := Br, operands := [i.operands[if i.operands[0].imm != 0 then 1 else 2]]))
  {
    hide Run;
    var orig := InstAt(f, p);
    assert InstShape(f, orig);
    MatchWellTyped(f, p, i);
    var target := i.operands[if i.operands[0].imm != 0 then 1 else 2];
    assert StandsFor(f, p, orig.operands[0], i.operands[0]);
    assert StandsFor(f, UsePoint(f, p, 1), orig.operands[1], i.operands[1]);
    assert StandsFor(f, UsePoint(f, p, 2), orig.operands[2], i.operands[2]);
    ConditionResidue(i.operands[0]);
    forall u, n: nat | ValidStart(f.params, u) && At(f, u, n, p)
      ensures EvalAt(f, u, n, orig.operands[0]).Some? ==>
        orig.operands[if EvalAt(f, u, n, orig.operands[0]).value != 0 then 1 else 2] == target
    {
      assert EvalAt(f, u, n, orig.operands[0]) == EvalAt(f, u, n, i.operands[0]);
    }
  }
}
