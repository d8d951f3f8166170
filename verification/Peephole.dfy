/**
 The peephole pass itself: fold, reuse loads and fold branches until nothing changes (at most
 six rounds), substitute what became known, then drop definitions nobody reads (at most
 eight rounds).  Instruction lists are sequences that the pass edits in place.
 */
module Peephole {
  import opened Wrappers
  import opened Numbers
  import opened Ir
  import opened ConstantFold
  import opened Dominance
  import opened PeepholeFacts
  import opened LoadReuse
  import opened Refinement

  class Function {
    const params: map<nat, Type>
    var blocks: seq<Block>
    var nextVreg: nat

    ghost function View(): Func
      reads this
    {
      Func(params, blocks, nextVreg)
    }
  }

  type Replacements = seq<Option<Operand>>

  // ---------------------------------------------------------------------------
  // The invariant of the pass

  predicate Root(repl: Replacements, o: Operand) {
    o.Vreg? && o.vreg < |repl| ==> repl[o.vreg].None?
  }

  predicate Distinct(s: seq<nat>) {
    forall a, b :: 0 <= a < b < |s| ==> s[a] != s[b]
  }

  /** order lists the replaced registers as they were recorded: a replacement never names a
      register recorded before it, so chains of replacements end. */
  ghost predicate Ordered(repl: Replacements, order: seq<nat>) {
    && Distinct(order)
    && (forall v: nat :: v in order <==> v < |repl| && repl[v].Some?)
    && (forall a :: 0 <= a < |order| ==> Forward(repl, order, a))
  }

  predicate Forward(repl: Replacements, order: seq<nat>, a: nat)
    requires a < |order|
  {
    && order[a] < |repl| && repl[order[a]].Some?
    && var o := repl[order[a]].value; (o.Vreg? ==> forall c :: 0 <= c <= a ==> order[c] != o.vreg)
  }

  ghost predicate Replaced(f: Func, repl: Replacements) {
    forall v: nat :: v < |repl| && repl[v].Some? ==> Known(f, v, repl[v].value)
  }

  ghost predicate MissingExplained(f: Func, pos: seq<seq<nat>>, repl: Replacements) {
    forall p :: Inside(f, p) && !Present(pos, p) ==>
      && Removable(InstAt(f, p))
      && ((InstAt(f, p).dest < |repl| && repl[InstAt(f, p).dest].Some?) || Never(f, p))
  }

  ghost predicate PresentUnknown(f: Func, pos: seq<seq<nat>>, repl: Replacements) {
    forall p :: Inside(f, p) && Present(pos, p) && DefinesDest(InstAt(f, p)) && InstAt(f, p).dest < |repl| ==>
      repl[InstAt(f, p).dest].None?
  }

  ghost predicate PassState(f: Func, blocks: seq<Block>, pos: seq<seq<nat>>, repl: Replacements, order: seq<nat>) {
    && f.nextVreg <= |repl|
    && Tracks(f, blocks, pos) && Replaced(f, repl) && Ordered(repl, order)
    && MissingExplained(f, pos, repl) && PresentUnknown(f, pos, repl)
  }

  function Without<T>(s: seq<T>, j: nat): seq<T>
    requires j < |s|
  {
    s[..j] + s[j + 1..]
  }

  function Edit(blocks: seq<Block>, b: nat, j: nat, i: Inst): seq<Block>
    requires InBlock(blocks, b, j)
  {
    blocks[b := blocks[b][j := i]]
  }

  function Unlink(blocks: seq<Block>, b: nat, j: nat): seq<Block>
    requires InBlock(blocks, b, j)
  {
    blocks[b := Without(blocks[b], j)]
  }

  function UnlinkPos(pos: seq<seq<nat>>, b: nat, j: nat): seq<seq<nat>>
    requires b < |pos| && j < |pos[b]|
  {
    pos[b := Without(pos[b], j)]
  }

  // ---------------------------------------------------------------------------
  // Following replacements

  function Resolved(repl: Replacements, o: Operand, guard: nat): Operand
    decreases guard
  {
    if guard == 0 || !o.Vreg? || o.vreg >= |repl| || repl[o.vreg].None? then o
    else if repl[o.vreg].value.Vreg? && repl[o.vreg].value.vreg == o.vreg then o
    else Resolved(repl, repl[o.vreg].value, guard - 1)
  }

  lemma {:induction false} ResolvedStands(f: Func, q: Point, o: Operand, op: Operand, repl: Replacements, guard: nat)
    requires WellFormed(f) && Replaced(f, repl) && StandsFor(f, q, o, op)
    ensures StandsFor(f, q, o, Resolved(repl, op, guard))
    decreases guard
  {
    hide StandsFor, Known, WellFormed;
    if guard > 0 && op.Vreg? && op.vreg < |repl| && repl[op.vreg].Some? {
      NotABlock(f, q, o, op);
      SubstituteKnown(f, q, o, op.vreg, op.ty, repl[op.vreg].value);
      ResolvedStands(f, q, o, repl[op.vreg].value, repl, guard - 1);
    }
  }

  lemma {:induction false} NotABlock(f: Func, q: Point, o: Operand, op: Operand)
    requires StandsFor(f, q, o, op)
    ensures o.BlockRef? <==> op.BlockRef?
  {
  }

  lemma {:induction false} DistinctBounded(s: seq<nat>, n: nat)
    requires Distinct(s) && forall a :: 0 <= a < |s| ==> s[a] < n
    ensures |s| <= n
  {
    assert s != [] ==> s[0] < n;
    if n == 0 {
    } else if n - 1 in s {
      var k :| 0 <= k < |s| && s[k] == n - 1;
      DistinctBounded(Without(s, k), n - 1);
    } else {
      DistinctBounded(s, n - 1);
    }
  }

  /** Chains end within the guard: every step moves forward in the recording order. */
  lemma {:induction false} RootWithin(repl: Replacements, order: seq<nat>, o: Operand, guard: nat)
    requires Ordered(repl, order)
    requires o.Vreg? && o.vreg in order ==> exists a :: 0 <= a < |order| && order[a] == o.vreg && |order| - a <= guard
    ensures Root(repl, Resolved(repl, o, guard))
    decreases guard
  {
    if o.Vreg? && o.vreg in order {
      var a :| 0 <= a < |order| && order[a] == o.vreg && |order| - a <= guard;
      assert Forward(repl, order, a);
      var next := repl[o.vreg].value;
      if next.Vreg? && next.vreg in order {
        var c :| 0 <= c < |order| && order[c] == next.vreg;
        assert c > a;
      }
      RootWithin(repl, order, next, guard - 1);
    }
  }

  lemma {:induction false} ResolvedIsRoot(repl: Replacements, order: seq<nat>, o: Operand)
    requires Ordered(repl, order)
    ensures Root(repl, Resolved(repl, o, |repl| + 1))
  {
    forall a | 0 <= a < |order|
      ensures order[a] < |repl|
    {
      assert Forward(repl, order, a);
    }
    DistinctBounded(order, |repl|);
    if o.Vreg? && o.vreg in order {
      var a :| 0 <= a < |order| && order[a] == o.vreg;
    }
    RootWithin(repl, order, o, |repl| + 1);
  }

  /** operand_resolve */
  method ResolveOperand(repl: array<Option<Operand>>, op: Operand) returns (r: Operand, changed: bool)
    ensures r == Resolved(repl[..], op, repl.Length + 1)
    ensures !changed ==> r == op
  {
    r, changed := op, false;
    var guard := 0;
    while r.Vreg? && r.vreg < repl.Length && repl[r.vreg].Some? && guard <= repl.Length
      invariant 0 <= guard <= repl.Length + 1
      invariant Resolved(repl[..], r, repl.Length + 1 - guard) == Resolved(repl[..], op, repl.Length + 1)
      invariant !changed ==> r == op
      decreases repl.Length + 1 - guard
    {
      guard := guard + 1;
      var next := repl[r.vreg].value;
      if next.Vreg? && next.vreg == r.vreg {
        break;
      }
      r, changed := next, true;
    }
  }

  method ResolveOperands(repl: array<Option<Operand>>, inst: Inst) returns (r: Inst, changed: bool)
    ensures r == inst.(operands := r.operands) && |r.operands| == |inst.operands|
    ensures forall k :: 0 <= k < |r.operands| ==>
      r.operands[k] == Resolved(repl[..], inst.operands[k], repl.Length + 1)
  {
    r, changed := inst, false;
    for oi := 0 to |inst.operands|
      invariant r == inst.(operands := r.operands) && |r.operands| == |inst.operands|
      invariant forall k :: 0 <= k < oi ==> r.operands[k] == Resolved(repl[..], inst.operands[k], repl.Length + 1)
      invariant forall k :: oi <= k < |r.operands| ==> r.operands[k] == inst.operands[k]
    {
      var o, c := ResolveOperand(repl, r.operands[oi]);
      r := r.(operands := r.operands[oi := o]);
      changed := changed || c;
    }
  }

  lemma {:induction false} ResolvedMatches(f: Func, p: Point, repl: Replacements, inst: Inst, r: Inst)
    requires WellFormed(f) && Replaced(f, repl) && MatchesInst(f, p, inst)
    requires r == inst.(operands := r.operands) && |r.operands| == |inst.operands|
    requires forall k :: 0 <= k < |r.operands| ==> r.operands[k] == Resolved(repl, inst.operands[k], |repl| + 1)
    ensures MatchesInst(f, p, r)
  {
    if inst.op == InstAt(f, p).op {
      forall k | 0 <= k < |r.operands|
        ensures StandsFor(f, UsePoint(f, p, k), InstAt(f, p).operands[k], r.operands[k])
      {
        ResolvedStands(f, UsePoint(f, p, k), InstAt(f, p).operands[k], inst.operands[k], repl, |repl| + 1);
      }
    } else {
      assert r.operands[0] == inst.operands[0];
    }
  }

  // ---------------------------------------------------------------------------
  // Editing the function

  lemma {:induction false} TracksEdit(f: Func, blocks: seq<Block>, pos: seq<seq<nat>>, b: nat, j: nat, i: Inst)
    requires Tracks(f, blocks, pos) && InBlock(blocks, b, j) && MatchesInst(f, Point(b, pos[b][j]), i)
    ensures Tracks(f, Edit(blocks, b, j, i), pos)
  {
    hide MatchesInst;
    var blocks' := Edit(blocks, b, j, i);
    forall c: nat, k: nat | InBlock(blocks', c, k)
      ensures MatchesInst(f, Point(c, pos[c][k]), blocks'[c][k])
    {
      assert InBlock(blocks, c, k);
    }
  }

  lemma {:induction false} WithoutIncreasing(s: seq<nat>, j: nat)
    requires Increasing(s) && j < |s|
    ensures Increasing(Without(s, j))
    ensures forall x :: x in Without(s, j) <==> x in s && x != s[j]
  {
    var t := Without(s, j);
    assert forall a :: 0 <= a < |t| ==> t[a] == s[if a < j then a else a + 1];
    forall x | x in s && x != s[j]
      ensures x in t
    {
      var a :| 0 <= a < |s| && s[a] == x;
      assert t[if a < j then a else a - 1] == x;
    }
  }

  lemma {:induction false} TracksUnlink(f: Func, blocks: seq<Block>, pos: seq<seq<nat>>, b: nat, j: nat)
    requires Tracks(f, blocks, pos) && InBlock(blocks, b, j)
    ensures Tracks(f, Unlink(blocks, b, j), UnlinkPos(pos, b, j))
    ensures forall p :: Present(UnlinkPos(pos, b, j), p) <==> Present(pos, p) && p != Point(b, pos[b][j])
  {
    hide MatchesInst;
    WithoutIncreasing(pos[b], j);
    var blocks' := Unlink(blocks, b, j);
    var pos' := UnlinkPos(pos, b, j);
    forall c: nat, k: nat | InBlock(blocks', c, k)
      ensures MatchesInst(f, Point(c, pos'[c][k]), blocks'[c][k])
    {
      var k0 := if c == b && k >= j then k + 1 else k;
      assert InBlock(blocks, c, k0);
      assert pos'[c][k] == pos[c][k0] && blocks'[c][k] == blocks[c][k0];
    }
  }

  lemma {:induction false} PassEdit(f: Func, blocks: seq<Block>, pos: seq<seq<nat>>, repl: Replacements,
                                    order: seq<nat>, b: nat, j: nat, i: Inst)
    requires PassState(f, blocks, pos, repl, order) && InBlock(blocks, b, j)
    requires MatchesInst(f, Point(b, pos[b][j]), i)
    ensures PassState(f, Edit(blocks, b, j, i), pos, repl, order)
  {
    TracksEdit(f, blocks, pos, b, j, i);
  }

  lemma {:induction false} OrderedAppend(repl: Replacements, order: seq<nat>, v: nat, o: Operand)
    requires Ordered(repl, order) && v < |repl| && repl[v].None? && Root(repl, o) && (o.Vreg? ==> o.vreg != v)
    ensures Ordered(repl[v := Some(o)], order + [v])
  {
    var repl' := repl[v := Some(o)];
    var order' := order + [v];
    forall a | 0 <= a < |order'|
      ensures Forward(repl', order', a)
    {
      if a < |order| {
        assert Forward(repl, order, a);
        assert order[a] in order;
      } else if o.Vreg? {
        forall c | 0 <= c <= a
          ensures order'[c] != o.vreg
        {
          assert c < |order| ==> order[c] in order;
        }
      }
    }
    forall x: nat
      ensures x in order' <==> x < |repl'| && repl'[x].Some?
    {
      assert x in order' <==> x in order || x == v;
    }
  }

  /** Dropping a definition that has become known. */
  lemma {:induction false} PassRecord(f: Func, blocks: seq<Block>, pos: seq<seq<nat>>, repl: Replacements,
                                      order: seq<nat>, b: nat, j: nat, o: Operand)
    requires WellFormed(f) && PassState(f, blocks, pos, repl, order) && InBlock(blocks, b, j)
    requires Removable(InstAt(f, Point(b, pos[b][j])))
    requires var v := InstAt(f, Point(b, pos[b][j])).dest;
      v < |repl| && Known(f, v, o) && Root(repl, o) && (o.Vreg? ==> o.vreg != v)
    ensures var v := InstAt(f, Point(b, pos[b][j])).dest;
      PassState(f, Unlink(blocks, b, j), UnlinkPos(pos, b, j), repl[v := Some(o)], order + [v])
  {
    var p := Point(b, pos[b][j]);
    var v := InstAt(f, p).dest;
    var pos' := UnlinkPos(pos, b, j);
    var repl' := repl[v := Some(o)];
    hide Known, WellFormed;
    assert Inside(f, p) && Present(pos, p) && IsDef(f, v, p) by {
      assert MatchesInst(f, p, blocks[b][j]);
    }
    hide MatchesInst;
    TracksUnlink(f, blocks, pos, b, j);
    OrderedAppend(repl, order, v, o);
    hide Ordered, Tracks, UnlinkPos, Unlink;
    RecordExplains(f, pos, pos', repl, p, o);
    hide MissingExplained, PresentUnknown;
    assert Replaced(f, repl');
  }

  /** With the definition of a register gone and its replacement recorded, what is missing is
      explained and what is present has no replacement. */
  lemma {:induction false} RecordExplains(f: Func, pos: seq<seq<nat>>, pos': seq<seq<nat>>, repl: Replacements,
                                          p: Point, o: Operand)
    requires WellFormed(f) && MissingExplained(f, pos, repl) && PresentUnknown(f, pos, repl)
    requires Inside(f, p) && Removable(InstAt(f, p)) && IsDef(f, InstAt(f, p).dest, p) && InstAt(f, p).dest < |repl|
    requires forall q :: Present(pos', q) <==> Present(pos, q) && q != p
    ensures var repl' := repl[InstAt(f, p).dest := Some(o)];
      MissingExplained(f, pos', repl') && PresentUnknown(f, pos', repl')
  {
    hide Removable, Never;
    var repl' := repl[InstAt(f, p).dest := Some(o)];
    assert UniqueDefs(f);
    hide WellFormed;
    forall q | Inside(f, q) && Present(pos', q) && DefinesDest(InstAt(f, q)) && InstAt(f, q).dest < |repl|
      ensures repl'[InstAt(f, q).dest].None?
    {
      assert Present(pos, q) && IsDef(f, InstAt(f, q).dest, q);
    }
    assert MissingExplained(f, pos', repl');
  }

  /** Dropping a definition that is never executed. */
  lemma {:induction false} PassForget(f: Func, blocks: seq<Block>, pos: seq<seq<nat>>, repl: Replacements,
                                      order: seq<nat>, b: nat, j: nat)
    requires WellFormed(f) && PassState(f, blocks, pos, repl, order) && InBlock(blocks, b, j)
    requires Removable(InstAt(f, Point(b, pos[b][j]))) && Never(f, Point(b, pos[b][j]))
    ensures PassState(f, Unlink(blocks, b, j), UnlinkPos(pos, b, j), repl, order)
  {
    hide MatchesInst, Known;
    TracksUnlink(f, blocks, pos, b, j);
    hide Ordered, Tracks;
  }

  // ---------------------------------------------------------------------------
  // One block

  /** The cache entries may be used at original place cur of block b, and their registers are
      still written. */
  ghost predicate CacheState(f: Func, b: nat, cur: nat, cache: seq<LoadEntry>, repl: Replacements) {
    forall c :: 0 <= c < |cache| ==>
      && (InRange(f, b, cur) ==> CacheOk(f, b, cur, cache[c]))
      && (cache[c].value < |repl| ==> repl[cache[c].value].None?)
  }

  /** cur lies after every instruction already visited and not after the next one. */
  predicate Cursor(places: seq<nat>, j: nat, cur: nat) {
    && j <= |places|
    && (forall a :: 0 <= a < j ==> places[a] < cur)
    && (j < |places| ==> cur <= places[j])
  }

  lemma {:induction false} CacheAcross(f: Func, pos: seq<seq<nat>>, b: nat, j: nat, cur: nat, next: nat,
                                       cache: seq<LoadEntry>, repl: Replacements)
    requires WellFormed(f) && b < |pos| && Increasing(pos[b]) && CacheState(f, b, cur, cache, repl)
    requires Cursor(pos[b], j, cur) && j < |pos[b]| && cur <= next <= pos[b][j] && InRange(f, b, pos[b][j])
    requires MissingExplained(f, pos, repl)
    ensures CacheState(f, b, next, cache, repl)
    decreases next - cur
  {
    if cur < next {
      var p := Point(b, cur);
      assert Inside(f, p);
      assert !Present(pos, p);
      hide CacheOk, MissingExplained;
      assert Removable(InstAt(f, p));
      CacheStep(f, b, cur, cache, repl);
      CacheAcross(f, pos, b, j, cur + 1, next, cache, repl);
    }
  }

  lemma {:induction false} CacheStep(f: Func, b: nat, i: nat, cache: seq<LoadEntry>, repl: Replacements)
    requires WellFormed(f) && InRange(f, b, i) && CacheState(f, b, i, cache, repl)
    requires !f.blocks[b][i].op.Store? && !f.blocks[b][i].op.Call?
    ensures CacheState(f, b, i + 1, cache, repl)
  {
    hide CacheOk;
    if InRange(f, b, i + 1) {
      forall c | 0 <= c < |cache|
        ensures CacheOk(f, b, i + 1, cache[c])
      {
        CacheAdvance(f, b, i, cache[c]);
      }
    }
  }

  lemma {:induction false} CacheEmpty(f: Func, b: nat, i: nat, repl: Replacements)
    ensures CacheState(f, b, i, [], repl)
  {
  }

  lemma {:induction false} CacheAdd(f: Func, b: nat, i: nat, inst: Inst, cache: seq<LoadEntry>, repl: Replacements)
    requires WellFormed(f) && InRange(f, b, i) && CacheState(f, b, i, cache, repl)
    requires MatchesInst(f, Point(b, i), inst) && inst.op.Load?
    requires inst.dest < |repl| ==> repl[inst.dest].None?
    ensures |inst.operands| == 1
    ensures CacheState(f, b, i + 1, cache + [LoadEntry(inst.operands[0], inst.ty, inst.dest)], repl)
  {
    MatchWellTyped(f, Point(b, i), inst);
    hide CacheOk;
    CacheStep(f, b, i, cache, repl);
    if InRange(f, b, i + 1) {
      CacheInsert(f, b, i, inst);
    }
  }

  /** Recording a replacement for the register defined at (b, i) does not touch the entries. */
  lemma {:induction false} CacheRecord(f: Func, b: nat, i: nat, cache: seq<LoadEntry>, repl: Replacements, v: nat,
                                       o: Operand)
    requires WellFormed(f) && InRange(f, b, i) && CacheState(f, b, i, cache, repl)
    requires IsDef(f, v, Point(b, i)) && v < |repl|
    ensures CacheState(f, b, i, cache, repl[v := Some(o)])
  {
    forall c | 0 <= c < |cache|
      ensures cache[c].value != v
    {
      assert CacheOk(f, b, i, cache[c]);
      var j :| 0 <= j < i && IsDef(f, cache[c].value, Point(b, j));
    }
  }

  /** A constant condition turns the conditional branch into an unconditional one. */
  function FoldBranch(i: Inst): Inst {
    if i.op.CondBr? && |i.operands| >= 3 && i.operands[0].ImmI64?
    then i.(op := Br, operands := [i.operands[if i.operands[0].imm != 0 then 1 else 2]])
    else i
  }

  // What the first round does to instructions whose operands are all constants

  predicate Constant(i: Inst) {
    forall k :: 0 <= k < |i.operands| ==> !i.operands[k].Vreg?
  }

  /** If settled, i has been through the rules for constants, and none removes it. */
  predicate Settled(f: Func, p: Point, i: Inst, settled: bool) {
    && Inside(f, p)
    && (Constant(InstAt(f, p)) ==>
          || (i == FoldBranch(InstAt(f, p)) && TryReplacement(InstAt(f, p)).None?)
          || (!settled && (i == InstAt(f, p) || i == FoldBranch(InstAt(f, p)))))
  }

  /** The first n instructions of block b are settled. */
  predicate SettledTo(f: Func, b: nat, block: Block, places: seq<nat>, n: nat) {
    && |places| == |block| && n <= |block|
    && forall j :: 0 <= j < |block| ==> Settled(f, Point(b, places[j]), block[j], j < n)
  }

  predicate AllSettled(f: Func, blocks: seq<Block>, pos: seq<seq<nat>>) {
    && |pos| == |blocks|
    && forall b :: 0 <= b < |blocks| ==> SettledTo(f, b, blocks[b], pos[b], |blocks[b]|)
  }

  lemma {:induction false} ConstantResolved(repl: Replacements, inst: Inst, r: Inst)
    requires r == inst.(operands := r.operands) && |r.operands| == |inst.operands|
    requires forall k :: 0 <= k < |r.operands| ==> r.operands[k] == Resolved(repl, inst.operands[k], |repl| + 1)
    ensures Constant(inst) ==> r == inst
  {
    if Constant(inst) {
      assert r.operands == inst.operands;
    }
  }

  lemma {:induction false} ConstantBranches(i: Inst)
    ensures Constant(i) ==> Constant(FoldBranch(i))
    ensures FoldBranch(FoldBranch(i)) == FoldBranch(i)
    ensures FoldBranch(i) != i ==> TryReplacement(i).None?
  {
    hide FoldValue, FoldCompare, FoldIntBinopImmediates, FoldIdentityIntBinop;
    OnlyBinopsFold(i);
  }

  /** Instruction n has been visited: it stays, or it is unlinked. */
  lemma {:induction false} VisitSettles(f: Func, b: nat, block: Block, places: seq<nat>, n: nat, inst: Inst)
    requires SettledTo(f, b, block, places, n) && n < |block|
    requires Constant(block[n]) ==> inst == FoldBranch(block[n])
    ensures TryReplacement(inst).None? ==> SettledTo(f, b, block[n := inst], places, n + 1)
    ensures SettledTo(f, b, Without(block[n := inst], n), Without(places, n), n)
  {
    hide FoldBranch, TryReplacement;
    var orig := InstAt(f, Point(b, places[n]));
    ConstantBranches(orig);
    var less, fewer := Without(block[n := inst], n), Without(places, n);
    hide Settled;
    forall j | 0 <= j < |less|
      ensures Settled(f, Point(b, fewer[j]), less[j], j < n)
    {
      var k := if j < n then j else j + 1;
      assert less[j] == block[k] && fewer[j] == places[k];
    }
    if TryReplacement(inst).None? {
      assert Settled(f, Point(b, places[n]), block[n], n < n);
      VisitOne(f, Point(b, places[n]), block[n], inst);
      var more := block[n := inst];
      forall j | 0 <= j < |more|
        ensures Settled(f, Point(b, places[j]), more[j], j < n + 1)
      {
        assert Settled(f, Point(b, places[j]), block[j], j < n);
      }
    }
  }

  lemma {:induction false} VisitOne(f: Func, p: Point, i: Inst, inst: Inst)
    requires Settled(f, p, i, false) && (Constant(i) ==> inst == FoldBranch(i)) && TryReplacement(inst).None?
    ensures Settled(f, p, inst, true)
  {
    hide FoldBranch, TryReplacement;
    ConstantBranches(InstAt(f, p));
  }

  lemma {:induction false} SettledWithout(f: Func, b: nat, block: Block, places: seq<nat>, j: nat)
    requires SettledTo(f, b, block, places, |block|) && j < |block|
    ensures SettledTo(f, b, Without(block, j), Without(places, j), |block| - 1)
  {
    hide Settled;
    var less, fewer := Without(block, j), Without(places, j);
    forall i | 0 <= i < |less|
      ensures Settled(f, Point(b, fewer[i]), less[i], true)
    {
      var k := if i < j then i else i + 1;
      assert less[i] == block[k] && fewer[i] == places[k];
      assert Settled(f, Point(b, places[k]), block[k], k < |block|);
    }
  }

  lemma {:induction false} SettledUnlink(f: Func, blocks: seq<Block>, pos: seq<seq<nat>>, b: nat, j: nat)
    requires AllSettled(f, blocks, pos) && InBlock(blocks, b, j)
    ensures AllSettled(f, Unlink(blocks, b, j), UnlinkPos(pos, b, j))
  {
    SettledWithout(f, b, blocks[b], pos[b], j);
    hide SettledTo;
  }

  /** Substitution does not touch instructions without registers. */
  lemma {:induction false} SettledEdit(f: Func, blocks: seq<Block>, pos: seq<seq<nat>>, b: nat, j: nat, r: Inst)
    requires AllSettled(f, blocks, pos) && InBlock(blocks, b, j) && (Constant(blocks[b][j]) ==> r == blocks[b][j])
    ensures AllSettled(f, Edit(blocks, b, j, r), pos)
  {
    hide FoldBranch, TryReplacement;
    var p := Point(b, pos[b][j]);
    assert Settled(f, p, blocks[b][j], true);
    ConstantBranches(InstAt(f, p));
    assert Settled(f, p, r, true);
    var block := blocks[b][j := r];
    forall k | 0 <= k < |block|
      ensures Settled(f, Point(b, pos[b][k]), block[k], true)
    {
      assert Settled(f, Point(b, pos[b][k]), blocks[b][k], true);
    }
    hide Settled;
    assert SettledTo(f, b, block, pos[b], |block|);
  }

  lemma {:induction false} NothingSettled(f: Func, b: nat, block: Block, places: seq<nat>)
    requires b < |f.blocks| && block == f.blocks[b] && |places| == |block|
    requires forall k :: 0 <= k < |places| ==> places[k] == k
    ensures SettledTo(f, b, block, places, 0)
  {
    hide FoldBranch, TryReplacement;
  }

  lemma {:induction false} SettledAgain(f: Func, b: nat, block: Block, places: seq<nat>)
    requires SettledTo(f, b, block, places, |block|)
    ensures SettledTo(f, b, block, places, 0)
  {
    hide FoldBranch, TryReplacement;
    forall j | 0 <= j < |block|
      ensures Settled(f, Point(b, places[j]), block[j], false)
    {
      assert Settled(f, Point(b, places[j]), block[j], true);
    }
  }

  /** What the pass removes of a function: every branch on a constant has become a branch to the
      block it goes to, and registers that the rules compute from constants alone are defined
      nowhere any more. */
  ghost predicate ConstantsFolded(f: Func, g: Func) {
    && |g.blocks| == |f.blocks|
    && (forall b :: 0 <= b < |f.blocks| ==> BranchFolded(f.blocks[b], g.blocks[b]))
    && (forall p: Point, b: nat, j: nat ::
          Inside(f, p) && FoldsAway(InstAt(f, p)) && InBlock(g.blocks, b, j) && DefinesDest(g.blocks[b][j]) ==>
            g.blocks[b][j].dest != InstAt(f, p).dest)
  }

  predicate FoldsAway(i: Inst) {
    Constant(i) && TryReplacement(i).Some?
  }

  /** br i1 0 goes to the second target, br i1 with another constant to the first. */
  predicate BranchFolded(before: Block, after: Block) {
    before != [] && before[|before| - 1].op.CondBr? && |before[|before| - 1].operands| == 3
    && before[|before| - 1].operands[0].ImmI64? && Constant(before[|before| - 1]) ==>
      after != [] && after[|after| - 1].op.Br?
      && after[|after| - 1].operands
         == [if before[|before| - 1].operands[0].imm != 0 then before[|before| - 1].operands[1]
             else before[|before| - 1].operands[2]]
  }

  lemma {:induction false} LastPlace(places: seq<nat>, last: nat)
    requires Increasing(places) && last in places && forall k :: 0 <= k < |places| ==> places[k] <= last
    ensures places[|places| - 1] == last
  {
    var k :| 0 <= k < |places| && places[k] == last;
  }

  lemma {:induction false} BranchesFolded(f: Func, blocks: seq<Block>, pos: seq<seq<nat>>, b: nat)
    requires WellFormed(f) && Simulates(f, blocks, pos) && AllSettled(f, blocks, pos) && b < |f.blocks|
    ensures b < |blocks| && BranchFolded(f.blocks[b], blocks[b])
  {
    var before := f.blocks[b];
    if before != [] && before[|before| - 1].op.CondBr? {
      var last := |before| - 1;
      var p := Point(b, last);
      hide SettledTo;
      assert Inside(f, p) && !Removable(InstAt(f, p));
      assert Present(pos, p);
      forall k | 0 <= k < |pos[b]|
        ensures pos[b][k] <= last
      {
        assert InBlock(blocks, b, k) && MatchesInst(f, Point(b, pos[b][k]), blocks[b][k]);
      }
      LastPlace(pos[b], last);
      LastSettled(f, blocks, pos, b);
    }
  }

  lemma {:induction false} LastSettled(f: Func, blocks: seq<Block>, pos: seq<seq<nat>>, b: nat)
    requires AllSettled(f, blocks, pos) && b < |blocks| && blocks[b] != []
    ensures Settled(f, Point(b, pos[b][|blocks[b]| - 1]), blocks[b][|blocks[b]| - 1], true)
  {
    hide Settled;
    var j := |blocks[b]| - 1;
    assert Settled(f, Point(b, pos[b][j]), blocks[b][j], j < |blocks[b]|);
  }

  lemma {:induction false} FoldedGone(f: Func, blocks: seq<Block>, pos: seq<seq<nat>>, p: Point, b: nat, j: nat)
    requires WellFormed(f) && Simulates(f, blocks, pos) && AllSettled(f, blocks, pos)
    requires Inside(f, p) && FoldsAway(InstAt(f, p)) && InBlock(blocks, b, j) && DefinesDest(blocks[b][j])
    ensures blocks[b][j].dest != InstAt(f, p).dest
  {
    hide TryReplacement, FoldBranch;
    var q := Point(b, pos[b][j]);
    assert MatchesInst(f, q, blocks[b][j]);
    assert Settled(f, q, blocks[b][j], j < |blocks[b]|);
    FoldsAwayDefines(f, p);
    assert IsDef(f, InstAt(f, p).dest, p) && IsDef(f, InstAt(f, q).dest, q);
  }

  lemma {:induction false} FoldsAwayDefines(f: Func, p: Point)
    requires WellFormed(f) && Inside(f, p) && FoldsAway(InstAt(f, p))
    ensures DefinesDest(InstAt(f, p))
  {
    OriginalMatches(f, p);
    hide TryReplacement;
    ReplaceableKind(f, p, InstAt(f, p));
  }

  lemma {:induction false} PassFolds(f: Func, blocks: seq<Block>, pos: seq<seq<nat>>)
    requires WellFormed(f) && Simulates(f, blocks, pos) && AllSettled(f, blocks, pos)
    ensures |blocks| == |f.blocks| && ConstantsFolded(f, f.(blocks := blocks))
  {
    hide WellFormed, AllSettled, FoldsAway, BranchFolded;
    var g := f.(blocks := blocks);
    forall b | 0 <= b < |f.blocks|
      ensures BranchFolded(f.blocks[b], blocks[b])
    {
      BranchesFolded(f, blocks, pos, b);
    }
    forall p: Point, b: nat, j: nat
      | Inside(f, p) && FoldsAway(InstAt(f, p)) && InBlock(g.blocks, b, j) && DefinesDest(g.blocks[b][j])
      ensures g.blocks[b][j].dest != InstAt(f, p).dest
    {
      FoldedGone(f, blocks, pos, p, b, j);
    }
  }

  lemma {:induction false} FoldBranchMatches(f: Func, p: Point, i: Inst)
    requires WellFormed(f) && MatchesInst(f, p, i)
    ensures MatchesInst(f, p, FoldBranch(i))
  {
    hide WellFormed;
    if FoldBranch(i) != i {
      if InstAt(f, p).op.CondBr? {
        ConstantBranch(f, p, i);
      }
    }
  }

  /** Only a matched instruction of the original kind can be replaced or be a load. */
  lemma {:induction false} ReplaceableKind(f: Func, p: Point, i: Inst)
    requires WellFormed(f) && MatchesInst(f, p, i) && (TryReplacement(i).Some? || i.op.Load?)
    ensures i.op == InstAt(f, p).op && Removable(InstAt(f, p)) && DefinesDest(i)
    ensures i.dest < f.nextVreg && IsDef(f, i.dest, p)
  {
    assert InstShape(f, InstAt(f, p));
    if i.op == InstAt(f, p).op {
      MatchWellTyped(f, p, i);
      if TryReplacement(i).Some? {
        ReplacementShape(i);
      }
    }
  }

  lemma {:induction false} FoldRoot(f: Func, p: Point, i: Inst, repl: Replacements)
    requires WellFormed(f) && MatchesInst(f, p, i) && TryReplacement(i).Some?
    requires forall k :: 0 <= k < |i.operands| ==> Root(repl, i.operands[k])
    ensures Root(repl, TryReplacement(i).value)
  {
    ReplaceableKind(f, p, i);
    MatchWellTyped(f, p, i);
    ReplacementShape(i);
  }

  method FindLoad(cache: array<LoadEntry>, count: nat, inst: Inst) returns (hit: Option<nat>)
    requires count <= cache.Length && |inst.operands| >= 1
    ensures hit.Some? ==> hit.value < count && cache[hit.value].loadType == inst.ty
                          && OperandEqual(cache[hit.value].ptr, inst.operands[0])
    ensures hit.None? ==> forall c :: 0 <= c < count ==>
      !(cache[c].loadType == inst.ty && OperandEqual(cache[c].ptr, inst.operands[0]))
  {
    for li := 0 to count
      invariant forall c :: 0 <= c < li ==>
        !(cache[c].loadType == inst.ty && OperandEqual(cache[c].ptr, inst.operands[0]))
    {
      if cache[li].loadType == inst.ty && OperandEqual(cache[li].ptr, inst.operands[0]) {
        return Some(li);
      }
    }
    return None;
  }

  /** What the invariant says about the instruction the traversal has reached. */
  lemma {:induction false} Visit(f: Func, blocks: seq<Block>, pos: seq<seq<nat>>, repl: Replacements, order: seq<nat>,
                                 b: nat, j: nat)
    requires PassState(f, blocks, pos, repl, order) && InBlock(blocks, b, j)
    ensures |pos| == |blocks| && |pos[b]| == |blocks[b]| && Increasing(pos[b])
    ensures MatchesInst(f, Point(b, pos[b][j]), blocks[b][j]) && InRange(f, b, pos[b][j])
    ensures Replaced(f, repl) && Ordered(repl, order) && MissingExplained(f, pos, repl) && f.nextVreg <= |repl|
  {
    assert MatchesInst(f, Point(b, pos[b][j]), blocks[b][j]);
  }

  lemma {:induction false} CursorKeep(places: seq<nat>, j: nat, cur: nat)
    requires Increasing(places) && Cursor(places, j, cur) && j < |places|
    ensures Cursor(places, j + 1, places[j] + 1)
  {
  }

  lemma {:induction false} CursorDrop(places: seq<nat>, j: nat, cur: nat)
    requires Increasing(places) && Cursor(places, j, cur) && j < |places|
    ensures Cursor(Without(places, j), j, places[j] + 1)
  {
  }

  lemma {:induction false} PassAligned(f: Func, blocks: seq<Block>, pos: seq<seq<nat>>, repl: Replacements,
                                       order: seq<nat>, b: nat)
    requires PassState(f, blocks, pos, repl, order) && b < |blocks|
    ensures |pos| == |blocks| && |pos[b]| == |blocks[b]|
  {
  }

  lemma {:induction false} CursorStart(places: seq<nat>)
    ensures Cursor(places, 0, 0)
  {
  }

  lemma {:induction false} CursorBound(places: seq<nat>, j: nat, cur: nat)
    requires Cursor(places, j, cur) && j < |places|
    ensures cur <= places[j]
  {
  }

  lemma {:induction false} FoldBranchRoots(i: Inst, repl: Replacements)
    requires forall k :: 0 <= k < |i.operands| ==> Root(repl, i.operands[k])
    ensures forall k :: 0 <= k < |FoldBranch(i).operands| ==> Root(repl, FoldBranch(i).operands[k])
  {
  }

  lemma {:induction false} CacheEntry(f: Func, b: nat, cur: nat, cache: seq<LoadEntry>, repl: Replacements, c: nat)
    requires CacheState(f, b, cur, cache, repl) && c < |cache| && InRange(f, b, cur)
    ensures CacheOk(f, b, cur, cache[c]) && Root(repl, Vreg(cache[c].value, cache[c].loadType))
  {
  }

  lemma {:induction false} CacheKept(f: Func, b: nat, i: nat, inst: Inst, cache: seq<LoadEntry>, repl: Replacements)
    requires WellFormed(f) && InRange(f, b, i) && CacheState(f, b, i, cache, repl)
    requires MatchesInst(f, Point(b, i), inst) && !inst.op.Store? && !inst.op.Call?
    ensures CacheState(f, b, i + 1, cache, repl)
  {
    hide CacheState;
    CacheStep(f, b, i, cache, repl);
  }

  /** Substitute what is known into instruction j and fold its branch. */
  method VisitInst(fn: Function, bi: nat, j: nat, repl: array<Option<Operand>>,
                   ghost f: Func, ghost pos: seq<seq<nat>>, ghost order: seq<nat>)
    returns (inst: Inst, changed: bool)
    requires WellFormed(f) && PassState(f, fn.blocks, pos, repl[..], order) && InBlock(fn.blocks, bi, j)
    modifies fn`blocks
    ensures |pos| == |fn.blocks| && |pos[bi]| == |fn.blocks[bi]|
    ensures fn.blocks == Edit(old(fn.blocks), bi, j, inst)
    ensures PassState(f, fn.blocks, pos, repl[..], order)
    ensures MatchesInst(f, Point(bi, pos[bi][j]), inst)
    ensures forall k :: 0 <= k < |inst.operands| ==> Root(repl[..], inst.operands[k])
    ensures Constant(old(fn.blocks[bi][j])) ==> inst == FoldBranch(old(fn.blocks[bi][j]))
  {
    hide WellFormed, PassState, MatchesInst, MissingExplained, Replaced, Ordered, FoldBranch, Root, Resolved, Constant;
    Visit(f, fn.blocks, pos, repl[..], order, bi, j);
    var p: Point := Point(bi, pos[bi][j]);
    inst, changed := ResolveOperands(repl, fn.blocks[bi][j]);
    ResolvedMatches(f, p, repl[..], fn.blocks[bi][j], inst);
    RootsAfterResolve(repl[..], order, fn.blocks[bi][j], inst);
    ConstantResolved(repl[..], fn.blocks[bi][j], inst);
    FoldBranchMatches(f, p, inst);
    FoldBranchRoots(inst, repl[..]);
    changed := changed || FoldBranch(inst) != inst;
    inst := FoldBranch(inst);
    PassEdit(f, fn.blocks, pos, repl[..], order, bi, j, inst);
    fn.blocks := Edit(fn.blocks, bi, j, inst);
  }

  /** Unlink instruction j; remember what replaces it, unless that is the register itself. */
  method RemoveInst(fn: Function, bi: nat, j: nat, repl: array<Option<Operand>>, inst: Inst, replacement: Operand,
                    ghost f: Func, ghost pos0: seq<seq<nat>>, ghost order0: seq<nat>, ghost cache: seq<LoadEntry>)
    returns (ghost pos: seq<seq<nat>>, ghost order: seq<nat>)
    requires WellFormed(f) && PassState(f, fn.blocks, pos0, repl[..], order0) && InBlock(fn.blocks, bi, j)
    requires |pos0| == |fn.blocks| && |pos0[bi]| == |fn.blocks[bi]|
    requires InRange(f, bi, pos0[bi][j]) && CacheState(f, bi, pos0[bi][j], cache, repl[..])
    requires var p := Point(bi, pos0[bi][j]);
      && IsDef(f, inst.dest, p) && Removable(InstAt(f, p)) && inst.dest < repl.Length
      && (replacement.Vreg? && replacement.vreg == inst.dest ==> Never(f, p))
    requires !(replacement.Vreg? && replacement.vreg == inst.dest) ==>
      Known(f, inst.dest, replacement) && Root(repl[..], replacement)
    modifies fn`blocks, repl
    ensures fn.blocks == Unlink(old(fn.blocks), bi, j) && pos == UnlinkPos(pos0, bi, j)
    ensures PassState(f, fn.blocks, pos, repl[..], order)
    ensures CacheState(f, bi, pos0[bi][j] + 1, cache, repl[..])
  {
    hide WellFormed, PassState, CacheState, Known, Never, Root;
    ghost var i := pos0[bi][j];
    order := order0;
    if !(replacement.Vreg? && replacement.vreg == inst.dest) {
      PassRecord(f, fn.blocks, pos0, repl[..], order, bi, j, replacement);
      CacheRecord(f, bi, i, cache, repl[..], inst.dest, replacement);
      order := order + [inst.dest];
      ghost var before := repl[..];
      repl[inst.dest] := Some(replacement);
      assert repl[..] == before[inst.dest := Some(replacement)];
    } else {
      PassForget(f, fn.blocks, pos0, repl[..], order, bi, j);
    }
    CacheStep(f, bi, i, cache, repl[..]);
    fn.blocks := Unlink(fn.blocks, bi, j);
    pos := UnlinkPos(pos0, bi, j);
  }

  /** Look the load up in the cache, or add it. */
  method ReuseLoad(cache: array<LoadEntry>, count: nat, inst: Inst, ghost f: Func, ghost b: nat, ghost i: nat,
                   ghost repl: Replacements)
    returns (replacement: Option<Operand>, count': nat)
    requires WellFormed(f) && InRange(f, b, i) && MatchesInst(f, Point(b, i), inst) && inst.op.Load?
    requires |inst.operands| >= 1 && count <= cache.Length && CacheState(f, b, i, cache[..count], repl)
    requires inst.dest < |repl| ==> repl[inst.dest].None?
    modifies cache
    ensures count' <= cache.Length
    ensures replacement.Some? ==>
      && cache[..count'] == old(cache[..count]) && count' == count
      && replacement.value.Vreg? && replacement.value.vreg != inst.dest
      && Known(f, inst.dest, replacement.value) && Root(repl, replacement.value)
    ensures replacement.None? ==> CacheState(f, b, i + 1, cache[..count'], repl)
  {
    hide WellFormed, CacheState, MatchesInst, Known, CacheOk;
    ghost var entries := cache[..count];
    var hit := FindLoad(cache, count, inst);
    count' := count;
    if hit.Some? {
      ghost var e := entries[hit.value];
      CacheEntry(f, b, i, entries, repl, hit.value);
      CacheReuse(f, b, i, inst, e);
      replacement := Some(Vreg(cache[hit.value].value, inst.ty));
    } else {
      replacement := None;
      if count < cache.Length {
        CacheAdd(f, b, i, inst, entries, repl);
        cache[count] := LoadEntry(inst.operands[0], inst.ty, inst.dest);
        count' := count + 1;
        assert cache[..count'] == entries + [cache[count]];
      } else {
        CacheKept(f, b, i, inst, entries, repl);
      }
    }
  }

  /** One traversal of a block: substitute, fold, reuse loads, unlink what is replaced. */
  method PeepholeBlock(fn: Function, bi: nat, repl: array<Option<Operand>>, cache: array<LoadEntry>,
                       ghost f: Func, ghost pos0: seq<seq<nat>>, ghost order0: seq<nat>)
    returns (changed: bool, ghost pos: seq<seq<nat>>, ghost order: seq<nat>)
    requires WellFormed(f) && PassState(f, fn.blocks, pos0, repl[..], order0)
    requires bi < |fn.blocks| == |pos0| && cache.Length == repl.Length
    requires SettledTo(f, bi, fn.blocks[bi], pos0[bi], 0)
    modifies fn`blocks, repl, cache
    ensures PassState(f, fn.blocks, pos, repl[..], order)
    ensures |fn.blocks| == old(|fn.blocks|) == |pos|
    ensures SettledTo(f, bi, fn.blocks[bi], pos[bi], |fn.blocks[bi]|)
    ensures forall c :: 0 <= c < |pos| && c != bi ==> fn.blocks[c] == old(fn.blocks)[c] && pos[c] == pos0[c]
  {
    hide SettledTo, Constant, FoldBranch;
    hide WellFormed, PassState, CacheState, MatchesInst, MissingExplained, Replaced, Ordered, Known, Removable,
         TryReplacement, Cursor, Increasing, Root, Never, IsDef, DefinesDest;
    changed, pos, order := false, pos0, order0;
    var j := 0;
    var loadCount: nat := 0;
    ghost var cur := 0;
    CacheEmpty(f, bi, 0, repl[..]);
    PassAligned(f, fn.blocks, pos, repl[..], order, bi);
    CursorStart(pos[bi]);
    assert cache[..0] == [];
    while j < |fn.blocks[bi]|
      invariant |fn.blocks| == old(|fn.blocks|) == |pos| && j <= |fn.blocks[bi]| == |pos[bi]|
      invariant PassState(f, fn.blocks, pos, repl[..], order)
      invariant Cursor(pos[bi], j, cur)
      invariant SettledTo(f, bi, fn.blocks[bi], pos[bi], j)
      invariant forall c :: 0 <= c < |pos| && c != bi ==> fn.blocks[c] == old(fn.blocks)[c] && pos[c] == pos0[c]
      invariant loadCount <= cache.Length && CacheState(f, bi, cur, cache[..loadCount], repl[..])
      decreases |fn.blocks[bi]| - j
    {
      ghost var i := pos[bi][j];
      ghost var p := Point(bi, i);
      Visit(f, fn.blocks, pos, repl[..], order, bi, j);
      CursorBound(pos[bi], j, cur);
      CacheAcross(f, pos, bi, j, cur, i, cache[..loadCount], repl[..]);
      ghost var block := fn.blocks[bi];
      var inst, c := VisitInst(fn, bi, j, repl, f, pos, order);
      VisitSettles(f, bi, block, pos[bi], j, inst);
      changed := changed || c;

      var replacement := TryReplacement(inst);
      if replacement.Some? {
        FoldFacts(f, p, inst, repl[..]);
      } else if inst.op.Load? && |inst.operands| >= 1 && DefinesDest(inst) {
        LoadFacts(f, fn.blocks, pos, repl[..], order, bi, j);
        replacement, loadCount := ReuseLoad(cache, loadCount, inst, f, bi, i, repl[..]);
      } else if inst.op.Store? || inst.op.Call? {
        loadCount := 0;
        assert cache[..0] == [];
        CacheEmpty(f, bi, i + 1, repl[..]);
      } else {
        CacheKept(f, bi, i, inst, cache[..loadCount], repl[..]);
      }

      if replacement.Some? && DefinesDest(inst) && inst.dest < repl.Length {
        CursorDrop(pos[bi], j, cur);
        pos, order := RemoveInst(fn, bi, j, repl, inst, replacement.value, f, pos, order, cache[..loadCount]);
        changed := true;
      } else {
        CursorKeep(pos[bi], j, cur);
        j := j + 1;
      }
      cur := i + 1;
    }
  }

  /** What a successful fold gives. */
  lemma {:induction false} FoldFacts(f: Func, p: Point, i: Inst, repl: Replacements)
    requires WellFormed(f) && MatchesInst(f, p, i) && TryReplacement(i).Some? && f.nextVreg <= |repl|
    requires forall k :: 0 <= k < |i.operands| ==> Root(repl, i.operands[k])
    ensures IsDef(f, i.dest, p) && Removable(InstAt(f, p)) && DefinesDest(i) && i.dest < |repl|
    ensures var o := TryReplacement(i).value;
      if o.Vreg? && o.vreg == i.dest then Never(f, p) else Known(f, i.dest, o) && Root(repl, o)
  {
    hide Known, Never;
    ReplaceableKind(f, p, i);
    FoldRoot(f, p, i, repl);
    hide TryReplacement, MatchesInst, WellFormed;
    var o := TryReplacement(i).value;
    if o.Vreg? && o.vreg == i.dest {
      SelfReplacementNever(f, p, i);
    } else {
      FoldKnown(f, p, i);
    }
  }

  lemma {:induction false} LoadFacts(f: Func, blocks: seq<Block>, pos: seq<seq<nat>>, repl: Replacements,
                                     order: seq<nat>, b: nat, j: nat)
    requires WellFormed(f) && PassState(f, blocks, pos, repl, order) && InBlock(blocks, b, j) && blocks[b][j].op.Load?
    ensures var p := Point(b, pos[b][j]);
      Inside(f, p) && IsDef(f, blocks[b][j].dest, p) && Removable(InstAt(f, p)) && DefinesDest(blocks[b][j])
    ensures blocks[b][j].dest < |repl| && repl[blocks[b][j].dest].None?
  {
    Visit(f, blocks, pos, repl, order, b, j);
    ReplaceableKind(f, Point(b, pos[b][j]), blocks[b][j]);
    VisitedUnknown(f, blocks, pos, repl, order, b, j);
  }

  lemma {:induction false} RootsAfterResolve(repl: Replacements, order: seq<nat>, inst: Inst, r: Inst)
    requires Ordered(repl, order) && |r.operands| == |inst.operands|
    requires forall k :: 0 <= k < |r.operands| ==> r.operands[k] == Resolved(repl, inst.operands[k], |repl| + 1)
    ensures forall k :: 0 <= k < |r.operands| ==> Root(repl, r.operands[k])
  {
    forall k | 0 <= k < |r.operands|
      ensures Root(repl, r.operands[k])
    {
      ResolvedIsRoot(repl, order, inst.operands[k]);
    }
  }

  lemma {:induction false} VisitedUnknown(f: Func, blocks: seq<Block>, pos: seq<seq<nat>>, repl: Replacements,
                                          order: seq<nat>, b: nat, j: nat)
    requires PassState(f, blocks, pos, repl, order) && InBlock(blocks, b, j) && DefinesDest(blocks[b][j])
    requires blocks[b][j].op == InstAt(f, Point(b, pos[b][j])).op
    ensures blocks[b][j].dest < |repl| ==> repl[blocks[b][j].dest].None?
  {
    var p := Point(b, pos[b][j]);
    assert MatchesInst(f, p, blocks[b][j]);
    assert Present(pos, p);
  }

  // ---------------------------------------------------------------------------
  // Final substitution

  predicate BlockRooted(repl: Replacements, b: Block) {
    forall j, k :: 0 <= j < |b| && 0 <= k < |b[j].operands| ==> Root(repl, b[j].operands[k])
  }

  method ResolveBlock(fn: Function, bi: nat, repl: array<Option<Operand>>,
                      ghost f: Func, ghost pos: seq<seq<nat>>, ghost order: seq<nat>)
    requires WellFormed(f) && PassState(f, fn.blocks, pos, repl[..], order) && bi < |fn.blocks|
    requires AllSettled(f, fn.blocks, pos)
    modifies fn`blocks
    ensures PassState(f, fn.blocks, pos, repl[..], order) && AllSettled(f, fn.blocks, pos)
    ensures |fn.blocks| == old(|fn.blocks|) && BlockRooted(repl[..], fn.blocks[bi])
    ensures forall c :: 0 <= c < |fn.blocks| && c != bi ==> fn.blocks[c] == old(fn.blocks)[c]
  {
    hide WellFormed, PassState, MatchesInst, Replaced, Ordered, MissingExplained, Root, AllSettled, Constant;
    for j := 0 to |fn.blocks[bi]|
      invariant PassState(f, fn.blocks, pos, repl[..], order) && AllSettled(f, fn.blocks, pos)
      invariant |fn.blocks| == old(|fn.blocks|) && |fn.blocks[bi]| == old(|fn.blocks[bi]|)
      invariant BlockRooted(repl[..], fn.blocks[bi][..j])
      invariant forall c :: 0 <= c < |fn.blocks| && c != bi ==> fn.blocks[c] == old(fn.blocks)[c]
    {
      Visit(f, fn.blocks, pos, repl[..], order, bi, j);
      var inst, c := ResolveOperands(repl, fn.blocks[bi][j]);
      ResolvedMatches(f, Point(bi, pos[bi][j]), repl[..], fn.blocks[bi][j], inst);
      RootsAfterResolve(repl[..], order, fn.blocks[bi][j], inst);
      ConstantResolved(repl[..], fn.blocks[bi][j], inst);
      SettledEdit(f, fn.blocks, pos, bi, j, inst);
      PassEdit(f, fn.blocks, pos, repl[..], order, bi, j, inst);
      ghost var before := fn.blocks[bi];
      fn.blocks := Edit(fn.blocks, bi, j, inst);
      assert fn.blocks[bi][..j + 1] == before[..j] + [inst];
    }
    assert fn.blocks[bi][..|fn.blocks[bi]|] == fn.blocks[bi];
  }

  /** Once every operand is a root, no remaining instruction reads a missing register. */
  lemma {:induction false} RootedSimulates(f: Func, blocks: seq<Block>, pos: seq<seq<nat>>, repl: Replacements,
                                           order: seq<nat>)
    requires WellFormed(f) && PassState(f, blocks, pos, repl, order)
    requires forall b :: 0 <= b < |blocks| ==> BlockRooted(repl, blocks[b])
    ensures Simulates(f, blocks, pos)
  {
    forall b: nat, j: nat, k: nat
      | InBlock(blocks, b, j) && k < |blocks[b][j].operands| && blocks[b][j].operands[k].Vreg?
      ensures StillDefined(f, pos, blocks[b][j].operands[k].vreg)
    {
      var o := blocks[b][j].operands[k];
      assert BlockRooted(repl, blocks[b]) && Root(repl, o);
      RegisterInBounds(f, blocks, pos, b, j, k);
      hide Tracks, Replaced, Ordered;
      forall d | IsDef(f, o.vreg, d)
        ensures Present(pos, d) || Never(f, d)
      {
      }
    }
  }

  lemma {:induction false} RegisterInBounds(f: Func, blocks: seq<Block>, pos: seq<seq<nat>>, b: nat, j: nat, k: nat)
    requires Tracks(f, blocks, pos) && InBlock(blocks, b, j) && k < |blocks[b][j].operands|
    ensures blocks[b][j].operands[k].Vreg? ==> blocks[b][j].operands[k].vreg < f.nextVreg
  {
    var p := Point(b, pos[b][j]);
    assert MatchesInst(f, p, blocks[b][j]);
    if blocks[b][j].op == InstAt(f, p).op {
      assert StandsFor(f, UsePoint(f, p, k), InstAt(f, p).operands[k], blocks[b][j].operands[k]);
    }
  }

  // ---------------------------------------------------------------------------
  // Dead definitions

  predicate Reads(i: Inst, v: nat) {
    exists k :: 0 <= k < |i.operands| && i.operands[k].Vreg? && i.operands[k].vreg == v
  }

  predicate ReadInBlock(b: Block, v: nat) {
    exists j :: 0 <= j < |b| && Reads(b[j], v)
  }

  /** A register whose counter is zero is read nowhere. */
  predicate CountsSound(counts: seq<nat>, blocks: seq<Block>) {
    forall v, b :: 0 <= v < |counts| && counts[v] == 0 && 0 <= b < |blocks| ==> !ReadInBlock(blocks[b], v)
  }

  method CountInst(counts: array<nat>, inst: Inst)
    modifies counts
    ensures forall v :: 0 <= v < counts.Length ==> counts[v] >= old(counts[v])
    ensures forall v :: 0 <= v < counts.Length && Reads(inst, v) ==> counts[v] > 0
  {
    for oi := 0 to |inst.operands|
      invariant forall v :: 0 <= v < counts.Length ==> counts[v] >= old(counts[v])
      invariant forall k :: 0 <= k < oi && inst.operands[k].Vreg? && inst.operands[k].vreg < counts.Length ==>
        counts[inst.operands[k].vreg] > 0
    {
      if inst.operands[oi].Vreg? && inst.operands[oi].vreg < counts.Length {
        counts[inst.operands[oi].vreg] := counts[inst.operands[oi].vreg] + 1;
      }
    }
  }

  method CountBlock(counts: array<nat>, b: Block)
    modifies counts
    ensures forall v :: 0 <= v < counts.Length ==> counts[v] >= old(counts[v])
    ensures forall v :: 0 <= v < counts.Length && ReadInBlock(b, v) ==> counts[v] > 0
  {
    hide Reads;
    for j := 0 to |b|
      invariant forall v :: 0 <= v < counts.Length ==> counts[v] >= old(counts[v])
      invariant forall v, c :: 0 <= v < counts.Length && 0 <= c < j && Reads(b[c], v) ==> counts[v] > 0
    {
      CountInst(counts, b[j]);
    }
  }

  method CountUses(fn: Function, counts: array<nat>)
    modifies counts
    ensures CountsSound(counts[..], fn.blocks)
  {
    hide ReadInBlock;
    forall v | 0 <= v < counts.Length {
      counts[v] := 0;
    }
    for bi := 0 to |fn.blocks|
      invariant forall v, b :: 0 <= v < counts.Length && 0 <= b < bi && ReadInBlock(fn.blocks[b], v) ==> counts[v] > 0
    {
      CountBlock(counts, fn.blocks[bi]);
    }
  }

  lemma {:induction false} ReadAfterUnlink(b: Block, j: nat, v: nat)
    requires j < |b| && ReadInBlock(Without(b, j), v)
    ensures ReadInBlock(b, v)
  {
    var a :| 0 <= a < |Without(b, j)| && Reads(Without(b, j)[a], v);
    assert Reads(b[if a < j then a else a + 1], v);
  }

  lemma {:induction false} UnlinkCounts(counts: seq<nat>, blocks: seq<Block>, b: nat, j: nat)
    requires CountsSound(counts, blocks) && InBlock(blocks, b, j)
    ensures CountsSound(counts, Unlink(blocks, b, j))
  {
    forall v: nat | ReadInBlock(Without(blocks[b], j), v)
      ensures ReadInBlock(blocks[b], v)
    {
      ReadAfterUnlink(blocks[b], j, v);
    }
  }

  lemma {:induction false} ClosedWithout(f: Func, blocks: seq<Block>, pos: seq<seq<nat>>, counts: seq<nat>, b: nat,
                                         j: nat)
    requires Aligned(f, blocks, pos) && Closed(f, blocks, pos) && InBlock(blocks, b, j) && CountsSound(counts, blocks)
    requires blocks[b][j].dest < |counts| && counts[blocks[b][j].dest] == 0
    requires Inside(f, Point(b, pos[b][j])) && InstAt(f, Point(b, pos[b][j])).dest == blocks[b][j].dest
    requires forall p :: Present(UnlinkPos(pos, b, j), p) <==> Present(pos, p) && p != Point(b, pos[b][j])
    ensures Closed(f, Unlink(blocks, b, j), UnlinkPos(pos, b, j))
  {
    var blocks' := Unlink(blocks, b, j);
    var pos' := UnlinkPos(pos, b, j);
    forall c: nat, k: nat, o: nat
      | InBlock(blocks', c, k) && o < |blocks'[c][k].operands| && blocks'[c][k].operands[o].Vreg?
      ensures StillDefined(f, pos', blocks'[c][k].operands[o].vreg)
    {
      var k0 := if c == b && k >= j then k + 1 else k;
      var x := blocks'[c][k].operands[o].vreg;
      assert InBlock(blocks, c, k0) && blocks[c][k0] == blocks'[c][k];
      ClosedOperand(f, blocks, pos, c, k0, o);
      assert Reads(blocks[c][k0], x);
      assert ReadInBlock(blocks[c], x);
    }
  }

  /** A definition that nobody reads may go. */
  lemma {:induction false} DropDead(f: Func, blocks: seq<Block>, pos: seq<seq<nat>>, counts: seq<nat>, b: nat, j: nat)
    requires WellFormed(f) && Simulates(f, blocks, pos) && InBlock(blocks, b, j) && CountsSound(counts, blocks)
    requires Removable(blocks[b][j]) && blocks[b][j].dest < |counts| && counts[blocks[b][j].dest] == 0
    ensures Simulates(f, Unlink(blocks, b, j), UnlinkPos(pos, b, j))
  {
    var p := Point(b, pos[b][j]);
    assert MatchesInst(f, p, blocks[b][j]);
    assert Removable(InstAt(f, p));
    hide MatchesInst;
    TracksUnlink(f, blocks, pos, b, j);
    ClosedWithout(f, blocks, pos, counts, b, j);
  }

  method DeadSweep(fn: Function, bi: nat, counts: array<nat>, ghost f: Func, ghost pos0: seq<seq<nat>>)
    returns (removed: bool, ghost pos: seq<seq<nat>>)
    requires WellFormed(f) && Simulates(f, fn.blocks, pos0) && bi < |fn.blocks|
    requires CountsSound(counts[..], fn.blocks) && AllSettled(f, fn.blocks, pos0)
    modifies fn`blocks
    ensures Simulates(f, fn.blocks, pos) && |fn.blocks| == old(|fn.blocks|)
    ensures CountsSound(counts[..], fn.blocks) && AllSettled(f, fn.blocks, pos)
  {
    hide WellFormed, Simulates, CountsSound, AllSettled;
    removed, pos := false, pos0;
    var j := 0;
    while j < |fn.blocks[bi]|
      invariant |fn.blocks| == old(|fn.blocks|) && j <= |fn.blocks[bi]|
      invariant Simulates(f, fn.blocks, pos) && CountsSound(counts[..], fn.blocks) && AllSettled(f, fn.blocks, pos)
      decreases |fn.blocks[bi]| - j
    {
      var inst := fn.blocks[bi][j];
      if Removable(inst) && inst.dest < counts.Length && counts[inst.dest] == 0 {
        SimulatesAligned(f, fn.blocks, pos, bi);
        DropDead(f, fn.blocks, pos, counts[..], bi, j);
        UnlinkCounts(counts[..], fn.blocks, bi, j);
        SettledUnlink(f, fn.blocks, pos, bi, j);
        fn.blocks := Unlink(fn.blocks, bi, j);
        pos := UnlinkPos(pos, bi, j);
        removed := true;
      } else {
        j := j + 1;
      }
    }
  }

  lemma {:induction false} SimulatesAligned(f: Func, blocks: seq<Block>, pos: seq<seq<nat>>, b: nat)
    requires Simulates(f, blocks, pos) && b < |blocks|
    ensures |pos| == |blocks| && |pos[b]| == |blocks[b]|
  {
  }

  // ---------------------------------------------------------------------------
  // The whole pass

  function Iota(n: nat): (s: seq<nat>)
    ensures |s| == n && forall k :: 0 <= k < n ==> s[k] == k
  {
    seq(n, k requires 0 <= k < n => k)
  }

  lemma {:induction false} InitialState(f: Func, pos: seq<seq<nat>>, repl: Replacements)
    requires WellFormed(f) && f.nextVreg <= |repl| && forall v :: 0 <= v < |repl| ==> repl[v] == None
    requires |pos| == |f.blocks| && forall b :: 0 <= b < |pos| ==> pos[b] == Iota(|f.blocks[b]|)
    ensures PassState(f, f.blocks, pos, repl, [])
  {
    forall b: nat, j: nat | InBlock(f.blocks, b, j)
      ensures MatchesInst(f, Point(b, pos[b][j]), f.blocks[b][j])
    {
      OriginalMatches(f, Point(b, j));
    }
    forall p | Inside(f, p)
      ensures Present(pos, p)
    {
      assert pos[p.block][p.index] == p.index;
    }
  }

  lemma {:induction false} PreservesItself(f: Func)
    ensures Preserves(f, f)
  {
    hide Run;
    forall u, n: nat | ValidStart(f.params, u)
      ensures Follows(f, f, u, n) && NeverAhead(f, f, u, n)
    {
      assert Matched(RunOf(f, u, n), RunOf(f, u, n));
    }
  }

  method FoldPhase(fn: Function, repl: array<Option<Operand>>, cache: array<LoadEntry>,
                   ghost f: Func, ghost pos0: seq<seq<nat>>)
    returns (ghost pos: seq<seq<nat>>, ghost order: seq<nat>)
    requires WellFormed(f) && PassState(f, fn.blocks, pos0, repl[..], []) && cache.Length == repl.Length
    requires |pos0| == |fn.blocks| && forall b :: 0 <= b < |pos0| ==> SettledTo(f, b, fn.blocks[b], pos0[b], 0)
    modifies fn`blocks, repl, cache
    ensures PassState(f, fn.blocks, pos, repl[..], order) && AllSettled(f, fn.blocks, pos)
    ensures forall b :: 0 <= b < |fn.blocks| ==> BlockRooted(repl[..], fn.blocks[b])
  {
    hide WellFormed, PassState, BlockRooted, SettledTo;
    pos, order := pos0, [];
    var iter := 0;
    var iterChanged := true;
    while iter < 6 && iterChanged
      invariant PassState(f, fn.blocks, pos, repl[..], order) && |fn.blocks| == old(|fn.blocks|) == |pos|
      invariant iter > 0 ==> AllSettled(f, fn.blocks, pos)
      invariant iter == 0 ==> iterChanged && forall b :: 0 <= b < |pos| ==> SettledTo(f, b, fn.blocks[b], pos[b], 0)
    {
      iterChanged := false;
      for bi := 0 to |fn.blocks|
        invariant PassState(f, fn.blocks, pos, repl[..], order) && |fn.blocks| == old(|fn.blocks|) == |pos|
        invariant forall b :: 0 <= b < |pos| ==>
          SettledTo(f, b, fn.blocks[b], pos[b], if b < bi || iter > 0 then |fn.blocks[b]| else 0)
      {
        if iter > 0 {
          SettledAgain(f, bi, fn.blocks[bi], pos[bi]);
        }
        var changed;
        changed, pos, order := PeepholeBlock(fn, bi, repl, cache, f, pos, order);
        iterChanged := iterChanged || changed;
      }
      iter := iter + 1;
    }
    hide AllSettled;
    for bi := 0 to |fn.blocks|
      invariant PassState(f, fn.blocks, pos, repl[..], order) && |fn.blocks| == old(|fn.blocks|)
      invariant AllSettled(f, fn.blocks, pos)
      invariant forall b :: 0 <= b < bi ==> BlockRooted(repl[..], fn.blocks[b])
    {
      ResolveBlock(fn, bi, repl, f, pos, order);
    }
  }

  method DeadPhase(fn: Function, counts: array<nat>, ghost f: Func, ghost pos0: seq<seq<nat>>)
    returns (ghost pos: seq<seq<nat>>)
    requires WellFormed(f) && Simulates(f, fn.blocks, pos0) && AllSettled(f, fn.blocks, pos0)
    modifies fn`blocks, counts
    ensures Simulates(f, fn.blocks, pos) && AllSettled(f, fn.blocks, pos)
  {
    hide WellFormed, Simulates, CountsSound, AllSettled;
    pos := pos0;
    var iter := 0;
    var removedAny := true;
    while iter < 8 && removedAny
      invariant Simulates(f, fn.blocks, pos) && |fn.blocks| == old(|fn.blocks|)
      invariant AllSettled(f, fn.blocks, pos)
    {
      removedAny := false;
      CountUses(fn, counts);
      for bi := 0 to |fn.blocks|
        invariant Simulates(f, fn.blocks, pos) && CountsSound(counts[..], fn.blocks)
        invariant |fn.blocks| == old(|fn.blocks|) && AllSettled(f, fn.blocks, pos)
      {
        var removed;
        removed, pos := DeadSweep(fn, bi, counts, f, pos);
        removedAny := removedAny || removed;
      }
      iter := iter + 1;
    }
  }

  /** Main result: for every function in static single assignment form, every outside world and
      every input, the function after the pass follows the function before it; and what can be
      computed from constants alone is gone. */
  method RunPeepholePasses(fn: Function)
    requires fn.blocks == [] || WellFormed(fn.View())
    modifies fn`blocks
    ensures Preserves(old(fn.View()), fn.View())
    ensures ConstantsFolded(old(fn.View()), fn.View())
  {
    hide Preserves, ConstantsFolded, AllSettled, SettledTo, WellFormed, PassState, Simulates, BlockRooted;
    ghost var f := fn.View();
    if fn.blocks == [] {
      PreservesItself(f);
      NothingToFold(f);
      return;
    }
    var nrepl := if fn.nextVreg > 0 then fn.nextVreg else 1;
    var repl := new Option<Operand>[nrepl](_ => None);
    var cache := new LoadEntry[nrepl](_ => LoadEntry(Null(Void), Void, 0));
    var useCounts := new nat[nrepl](_ => 0);
    ghost var pos := seq(|f.blocks|, b requires 0 <= b < |f.blocks| => Iota(|f.blocks[b]|));
    ghost var order;
    InitialState(f, pos, repl[..]);
    forall b | 0 <= b < |pos| ensures SettledTo(f, b, fn.blocks[b], pos[b], 0) {
      NothingSettled(f, b, fn.blocks[b], pos[b]);
    }
    pos, order := FoldPhase(fn, repl, cache, f, pos);
    RootedSimulates(f, fn.blocks, pos, repl[..], order);
    pos := DeadPhase(fn, useCounts, f, pos);
    SimulatesPreserves(f, fn.View(), pos);
    PassFolds(f, fn.blocks, pos);
  }

  lemma {:induction false} NothingToFold(f: Func)
    requires f.blocks == []
    ensures ConstantsFolded(f, f)
  {
  }

  // ---------------------------------------------------------------------------
  // Where the pass would go wrong

  /** if (i1 imm) then return 1 else return 2 */
  function Choice(imm: int): Func {
    var branch := Inst(CondBr, Void, 0, [ImmI64(imm, I1), BlockRef(1), BlockRef(2)]);
    var one := Inst(Ret, Void, 0, [ImmI64(1, I32)]);
    var two := Inst(Ret, Void, 0, [ImmI64(2, I32)]);
    Func(map[], [[branch], [one], [two]], 0)
  }

  function FoldedChoice(imm: int): Func {
    var f := Choice(imm);
    f.(blocks := Edit(f.blocks, 0, 0, FoldBranch(f.blocks[0][0])))
  }

  lemma {:induction false} ChoiceRuns(u: Start)
    requires ValidStart(map[], u)
    ensures RunOf(Choice(2), u, 2) == Returned(Some(2), u.init.mem, u.init.trace)
    ensures RunOf(FoldedChoice(2), u, 2) == Returned(Some(1), u.init.mem, u.init.trace)
    ensures RunOf(FoldedChoice(2), u, 0).Running? && RunOf(FoldedChoice(2), u, 1).Running?
  {
    ChoiceFits();
    var s1 := State(2, 0, Some(0), u.init.env, u.init.env, u.init.mem, u.init.trace);
    FirstSteps(u, s1);
    RetStep(u.world, Choice(2), s1, ImmI64(2, I32));
    RetStep(u.world, FoldedChoice(2), s1.(block := 1), ImmI64(1, I32));
    hide Step, Fit;
  }

  lemma {:induction false} ChoiceFits()
    ensures Fit(I1, 2) == 0 && Fit(I32, 1) == 1 && Fit(I32, 2) == 2
  {
    Pow2Values();
  }

  lemma {:induction false} FirstSteps(u: Start, s1: State)
    requires ValidStart(map[], u)
    requires s1 == State(2, 0, Some(0), u.init.env, u.init.env, u.init.mem, u.init.trace)
    ensures Run(u.world, Choice(2), u.init, 1) == Running(s1)
    ensures Run(u.world, FoldedChoice(2), u.init, 1) == Running(s1.(block := 1))
  {
    ChoiceFits();
    hide Fit;
    assert Run(u.world, Choice(2), u.init, 0) == Running(u.init);
    assert Run(u.world, FoldedChoice(2), u.init, 0) == Running(u.init);
  }

  lemma {:induction false} RetStep(w: World, f: Func, s: State, o: Operand)
    requires InRange(f, s.block, s.index) && f.blocks[s.block][s.index] == Inst(Ret, Void, 0, [o]) && o.ImmI64?
    ensures Step(w, f, s) == Returned(Some(Fit(o.ty, o.imm)), s.mem, s.trace)
  {
    var os := [o];
    var rest := os[1..];
    assert rest == [] && EvalAll(w, s.env, rest) == Some([]);
    assert EvalAll(w, s.env, os) == Some([Fit(o.ty, o.imm)] + []);
  }

  lemma {:induction false} ChoiceMisread(u: Start)
    requires ValidStart(map[], u)
    ensures !Follows(Choice(2), FoldedChoice(2), u, 2)
  {
    hide Run;
    ChoiceRuns(u);
    if Follows(Choice(2), FoldedChoice(2), u, 2) {
      var m: nat :| m <= 2 && RunOf(FoldedChoice(2), u, m) == RunOf(Choice(2), u, 2);
    }
  }

  /** Folding a branch on an even i1 immediate other than zero takes the wrong side. */
  lemma {:induction false} EvenConditionMisread()
    ensures !FaithfulImm(Choice(2).blocks[0][0].operands[0])
    ensures !Preserves(Choice(2), FoldedChoice(2))
  {
    hide Run;
    var w := World(_ => 0, (_, _, _) => None, (_, _, _, _) => None);
    var u := Start(w, State(0, 0, None, map[], map[], Mem(1, map[]), []));
    ChoiceMisread(u);
  }
}
