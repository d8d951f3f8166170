/**
 The shape of a decoded function before and after its switches have been turned into chains
 of compare-and-branch blocks: numbering of the test blocks, the block that a test block
 belongs to, and where a chain leads.
 */
module SwitchChain {
  import opened PhiRewrite

  datatype Case = Case(value: int, target: nat)

  datatype SrcTerm =
    | Switch(cond: nat, default: nat, cases: seq<Case>)
    | Jump(targets: seq<nat>)

  datatype SrcBlock = SrcBlock(phis: seq<Phi>, term: SrcTerm)

  /** Test compares the register cond with value and branches to hit or miss. */
  datatype Term =
    | Unset
    | Goto(targets: seq<nat>)
    | Test(cond: nat, value: int, hit: nat, miss: nat)

  datatype Block = Block(phis: seq<Phi>, term: Term)

  // ---------------------------------------------------------------------------
  // The source function

  function Succs(t: SrcTerm): set<nat> {
    match t
    case Jump(targets) => set x | x in targets
    case Switch(_, default, cases) => {default} + set i | 0 <= i < |cases| :: cases[i].target
  }

  function Targets(t: Term): set<nat> {
    match t
    case Unset => {}
    case Goto(targets) => set x | x in targets
    case Test(_, _, hit, miss) => {hit, miss}
  }

  predicate TargetsInRange(src: seq<SrcBlock>) {
    forall s, t :: 0 <= s < |src| && t in Succs(src[s].term) ==> t < |src|
  }

  /** Every phi of block b has consistent entries for exactly the predecessors of b. */
  ghost predicate PhiCovers(src: seq<SrcBlock>, b: nat, es: Phi) {
    && Coherent(es)
    && forall s: nat :: HasPred(es, s) <==> s < |src| && b in Succs(src[s].term)
  }

  ghost predicate WellFormed(src: seq<SrcBlock>) {
    && TargetsInRange(src)
    && forall b, k :: 0 <= b < |src| && 0 <= k < |src[b].phis| ==> PhiCovers(src, b, src[b].phis[k])
  }

  /** Where the switch goes: the first case that matches, or the default. */
  function FirstMatch(cases: seq<Case>, x: int): (i: nat)
    ensures i <= |cases|
    ensures i < |cases| ==> cases[i].value == x
    ensures forall j :: 0 <= j < i ==> cases[j].value != x
  {
    if cases == [] || cases[0].value == x then 0 else 1 + FirstMatch(cases[1..], x)
  }

  function SwitchTarget(default: nat, cases: seq<Case>, x: int): nat {
    var i := FirstMatch(cases, x);
    if i < |cases| then cases[i].target else default
  }

  // ---------------------------------------------------------------------------
  // Numbering

  function ExtraBlocks(t: SrcTerm): nat {
    if t.Switch? && t.cases != [] then |t.cases| - 1 else 0
  }

  /** Number of blocks when the first s source blocks have been lowered. */
  function Base(src: seq<SrcBlock>, s: nat): nat
    requires s <= |src|
  {
    if s == 0 then |src| else Base(src, s - 1) + ExtraBlocks(src[s - 1].term)
  }

  /** Id of the i-th test block of a switch in block s whose new blocks start at base. */
  function TestId(s: nat, base: nat, i: nat): nat {
    if i == 0 then s else base + i - 1
  }

  lemma {:induction false} BaseMonotone(src: seq<SrcBlock>, s: nat, t: nat)
    requires s < t <= |src|
    ensures |src| <= Base(src, s) && Base(src, s) + ExtraBlocks(src[s].term) <= Base(src, t)
    decreases t
  {
    BaseAtLeast(src, s);
    if s + 1 < t {
      BaseMonotone(src, s, t - 1);
    }
  }

  lemma {:induction false} BaseAtLeast(src: seq<SrcBlock>, s: nat)
    requires s <= |src|
    ensures |src| <= Base(src, s)
  {
    if s > 0 {
      BaseAtLeast(src, s - 1);
    }
  }

  /** The source block whose switch produced block p, among the first k. */
  function OwnUpTo(src: seq<SrcBlock>, k: nat, p: nat): nat
    requires k <= |src|
  {
    if k == 0 then p
    else if Base(src, k - 1) <= p then k - 1
    else OwnUpTo(src, k - 1, p)
  }

  /** The source block that block p of the lowered function does the work of. */
  function Own(src: seq<SrcBlock>, p: nat): nat {
    if p < |src| || p >= Base(src, |src|) then p else OwnUpTo(src, |src|, p)
  }

  lemma {:induction false} OwnUpToFacts(src: seq<SrcBlock>, k: nat, p: nat)
    requires k <= |src| <= p < Base(src, k)
    ensures OwnUpTo(src, k, p) < k
    ensures var s := OwnUpTo(src, k, p); Base(src, s) <= p < Base(src, s) + ExtraBlocks(src[s].term)
  {
    if k > 0 && p < Base(src, k - 1) {
      OwnUpToFacts(src, k - 1, p);
    }
  }

  lemma {:induction false} OwnUpToUnique(src: seq<SrcBlock>, k: nat, s: nat, p: nat)
    requires s < k <= |src| && Base(src, s) <= p < Base(src, s) + ExtraBlocks(src[s].term)
    ensures OwnUpTo(src, k, p) == s
  {
    if s < k - 1 {
      BaseMonotone(src, s, k - 1);
      OwnUpToUnique(src, k - 1, s, p);
    }
  }

  /** Every new block is a test block of exactly one switch. */
  lemma {:induction false} OwnerOfNewBlock(src: seq<SrcBlock>, p: nat)
    requires |src| <= p < Base(src, |src|)
    ensures Own(src, p) < |src|
    ensures var s := Own(src, p);
      ExtraBlocks(src[s].term) > 0 && 0 <= p - Base(src, s) + 1 < |src[s].term.cases|
      && p == TestId(s, Base(src, s), p - Base(src, s) + 1)
  {
    OwnUpToFacts(src, |src|, p);
  }

  lemma {:induction false} OwnOfTest(src: seq<SrcBlock>, s: nat, i: nat)
    requires s < |src| && src[s].term.Switch? && i < |src[s].term.cases|
    ensures Own(src, TestId(s, Base(src, s), i)) == s
    ensures TestId(s, Base(src, s), i) < Base(src, |src|)
    ensures i > 0 ==> |src| <= TestId(s, Base(src, s), i)
  {
    BaseMonotone(src, s, |src|);
    if i > 0 {
      OwnUpToUnique(src, |src|, s, TestId(s, Base(src, s), i));
    }
  }

  // ---------------------------------------------------------------------------
  // The lowered function

  /** The terminator of the i-th test block. */
  function TestTerm(s: nat, base: nat, cond: nat, default: nat, cases: seq<Case>, i: nat): Term
    requires i < |cases|
  {
    Test(cond, cases[i].value, cases[i].target,
         if i + 1 < |cases| then TestId(s, base, i + 1) else default)
  }

  /** Blocks s and base.. hold the chain for the given switch. */
  predicate IsChain(blocks: seq<Block>, s: nat, base: nat, cond: nat, default: nat, cases: seq<Case>) {
    && base + |cases| - 1 <= |blocks|
    && s < base && s < |blocks|
    && forall i :: 0 <= i < |cases| ==> blocks[TestId(s, base, i)].term == TestTerm(s, base, cond, default, cases, i)
  }

  predicate LoweredTerm(blocks: seq<Block>, s: nat, base: nat, t: SrcTerm) {
    s < |blocks|
    && match t
       case Jump(targets) => blocks[s].term == Goto(targets)
       case Switch(cond, default, cases) =>
         if cases == [] then blocks[s].term == Goto([default])
         else IsChain(blocks, s, base, cond, default, cases)
  }

  /** The predecessors that block b gets from source block s. */
  function Preds(src: seq<SrcBlock>, s: nat, b: nat): set<nat> {
    if s >= |src| then {}
    else match src[s].term
      case Jump(targets) => if b in targets then {s} else {}
      case Switch(_, default, cases) => ChainPreds(s, Base(src, s), default, cases, b)
  }

  function ChainPreds(s: nat, base: nat, default: nat, cases: seq<Case>, b: nat): set<nat> {
    (set i | 0 <= i < |cases| && cases[i].target == b :: TestId(s, base, i))
    + if default == b then {TestId(s, base, if cases == [] then 0 else |cases| - 1)} else {}
  }

  lemma {:induction false} PredsNonempty(src: seq<SrcBlock>, s: nat, b: nat)
    ensures Preds(src, s, b) != {} <==> s < |src| && b in Succs(src[s].term)
  {
    if s < |src| {
      match src[s].term
      case Jump(targets) =>
      case Switch(_, default, cases) =>
        var ps := ChainPreds(s, Base(src, s), default, cases, b);
        if b in Succs(src[s].term) && b != default {
          var i :| 0 <= i < |cases| && cases[i].target == b;
          assert TestId(s, Base(src, s), i) in ps;
        }
        if b == default {
          assert TestId(s, Base(src, s), if cases == [] then 0 else |cases| - 1) in ps;
        }
        if ps != {} {
          var p :| p in ps;
          if b != default {
            var i :| 0 <= i < |cases| && cases[i].target == b && p == TestId(s, Base(src, s), i);
          }
        }
    }
  }

  lemma {:induction false} PredsOwned(src: seq<SrcBlock>, s: nat, b: nat, p: nat)
    requires p in Preds(src, s, b)
    ensures s < |src| && Own(src, p) == s && p < Base(src, |src|) && (p == s || |src| <= p)
  {
    BaseAtLeast(src, |src|);
    match src[s].term
    case Jump(targets) =>
    case Switch(_, default, cases) =>
      if cases != [] {
        ghost var last := |cases| - 1;
        assert p == TestId(s, Base(src, s), last) || exists i :: 0 <= i < |cases| && p == TestId(s, Base(src, s), i);
        var i :| 0 <= i < |cases| && p == TestId(s, Base(src, s), i);
        OwnOfTest(src, s, i);
      }
  }

  // ---------------------------------------------------------------------------
  // Running the chain

  /** Follow the test blocks from block b when the switched value is x, until control enters
      one of the first n blocks: the block entered and the block it is entered from. */
  function Exit(blocks: seq<Block>, n: nat, b: nat, x: int): (nat, nat)
    requires b < |blocks| && blocks[b].term.Test?
    decreases |blocks| - b
  {
    var t := blocks[b].term;
    if t.value == x then (t.hit, b)
    else if n <= t.miss < |blocks| && b < t.miss && blocks[t.miss].term.Test? then Exit(blocks, n, t.miss, x)
    else (t.miss, b)
  }

  /** The chain leads to the first matching case, or the default, and is left from the test
      block of that case, or the last one. */
  lemma {:induction false} ChainReachesFirstMatch(blocks: seq<Block>, n: nat, s: nat, base: nat, cond: nat,
                                                  default: nat,
                               cases: seq<Case>, x: int)
    requires cases != [] && IsChain(blocks, s, base, cond, default, cases)
    requires s < n <= base && default < n
    ensures blocks[s].term.Test?
    ensures Exit(blocks, n, s, x).0 == SwitchTarget(default, cases, x)
    ensures var i := FirstMatch(cases, x);
      Exit(blocks, n, s, x).1 == TestId(s, base, if i < |cases| then i else |cases| - 1)
  {
    assert blocks[TestId(s, base, 0)].term == TestTerm(s, base, cond, default, cases, 0);
    ExitFrom(blocks, n, s, base, cond, default, cases, x, 0);
  }

  lemma {:induction false} ExitFrom(blocks: seq<Block>, n: nat, s: nat, base: nat, cond: nat, default: nat,
                                    cases: seq<Case>, x: int, i: nat)
    requires i < |cases| && IsChain(blocks, s, base, cond, default, cases)
    requires s < n <= base && default < n
    requires i <= FirstMatch(cases, x)
    ensures blocks[TestId(s, base, i)].term.Test?
    ensures Exit(blocks, n, TestId(s, base, i), x).0 == SwitchTarget(default, cases, x)
    ensures var m := FirstMatch(cases, x);
      Exit(blocks, n, TestId(s, base, i), x).1 == TestId(s, base, if m < |cases| then m else |cases| - 1)
    decreases |cases| - i
  {
    var m := FirstMatch(cases, x);
    assert blocks[TestId(s, base, i)].term == TestTerm(s, base, cond, default, cases, i);
    if i == m {
    } else if i + 1 < |cases| {
      assert blocks[TestId(s, base, i + 1)].term == TestTerm(s, base, cond, default, cases, i + 1);
      ExitFrom(blocks, n, s, base, cond, default, cases, x, i + 1);
    } else {
      assert m == |cases|;
    }
  }

  // ---------------------------------------------------------------------------
  // Predecessors in the lowered function

  predicate Lowered(src: seq<SrcBlock>, blocks: seq<Block>) {
    && |blocks| == Base(src, |src|)
    && forall s :: 0 <= s < |src| ==> LoweredTerm(blocks, s, Base(src, s), src[s].term)
  }

  /** Preds names exactly the control-flow predecessors of the lowered function. */
  lemma {:induction false} PredsAreCfg(src: seq<SrcBlock>, blocks: seq<Block>, b: nat, p: nat)
    requires TargetsInRange(src) && Lowered(src, blocks) && b < |src| && p < |blocks|
    ensures b in Targets(blocks[p].term) <==> p in Preds(src, Own(src, p), b)
  {
    var s := Own(src, p);
    if p >= |src| {
      OwnerOfNewBlock(src, p);
    }
    BaseAtLeast(src, s);
    assert LoweredTerm(blocks, s, Base(src, s), src[s].term);
    match src[s].term
    case Jump(targets) =>
    case Switch(cond, default, cases) =>
      assert default in Succs(src[s].term);
      if cases != [] {
        var base := Base(src, s);
        var i := if p == s then 0 else p - base + 1;
        assert p == TestId(s, base, i);
        assert blocks[TestId(s, base, i)].term == TestTerm(s, base, cond, default, cases, i);
        assert cases[i].target in Succs(src[s].term);
        assert p in Preds(src, s, b) <==> cases[i].target == b || (default == b && i == |cases| - 1) by {
          assert forall j :: 0 <= j < |cases| && TestId(s, base, j) == p ==> j == i;
        }
        assert i + 1 < |cases| ==> |src| <= TestId(s, base, i + 1);
      }
  }
}
