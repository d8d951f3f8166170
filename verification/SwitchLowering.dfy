/**
 Decoding a function whose blocks end in switches: chains are appended while the blocks are
 read, phi repairs are queued, and at the end the repairs are applied and repeated
 predecessors removed.
 */
module SwitchLowering {
  import opened Wrappers
  import opened PhiRewrite
  import opened SwitchChain

  /** Queued repair: in the phis of succ, was stands for preds (and for itself, if keep). */
  datatype Fixup = Fixup(succ: nat, was: nat, keep: bool, preds: seq<nat>)

  datatype Edge = Edge(target: nat, pred: nat)

  // ---------------------------------------------------------------------------
  // What the queue must hold

  /** f turns an entry for f.was into entries for exactly the blocks of ps. */
  ghost predicate FixupFits(f: Fixup, ps: set<nat>) {
    && f.preds != []
    && (f.keep <==> f.was in ps)
    && forall p: nat :: p in f.preds <==> p in ps && p != f.was
  }

  predicate Queued(fs: seq<Fixup>, s: nat, b: nat) {
    exists j :: 0 <= j < |fs| && fs[j].was == s && fs[j].succ == b
  }

  /** The queue after the first k source blocks. */
  ghost predicate AllQueued(src: seq<SrcBlock>, k: nat, fs: seq<Fixup>)
    requires k <= |src|
  {
    && (forall j :: 0 <= j < |fs| ==> fs[j].was < k && fs[j].succ in Succs(src[fs[j].was].term))
    && (forall j :: 0 <= j < |fs| ==> FixupFits(fs[j], Preds(src, fs[j].was, fs[j].succ)))
    && (forall i, j :: 0 <= i < j < |fs| ==> fs[i].was != fs[j].was || fs[i].succ != fs[j].succ)
    && (forall s, b :: 0 <= s < k && b in Succs(src[s].term) && Preds(src, s, b) != {s} ==> Queued(fs, s, b))
  }

  function RemapOnce(es: Phi, f: Fixup): Phi {
    if Hits(es, f.was) == 0 then es else Remap(es, f.was, f.preds, f.keep)
  }

  /** A phi of block b after the repairs fs. */
  function Repaired(es: Phi, b: nat, fs: seq<Fixup>): Phi {
    if fs == [] then es
    else
      var f := fs[|fs| - 1];
      var before := Repaired(es, b, fs[..|fs| - 1]);
      if f.succ == b then RemapOnce(before, f) else before
  }

  // ---------------------------------------------------------------------------
  // What the repairs do to a phi

  /** p may occur for its source block s when the repairs for the blocks in done are made. */
  predicate Stage(src: seq<SrcBlock>, b: nat, done: set<nat>, s: nat, p: nat) {
    if s in done then p in Preds(src, s, b) else p == s
  }

  /** es holds the entries of the source phi es0, each for the predecessors its source block
      stands for at this stage. */
  ghost predicate PhiState(src: seq<SrcBlock>, b: nat, es0: Phi, es: Phi, done: set<nat>) {
    forall v: int, p: nat :: Entry(v, p) in es <==>
      Entry(v, Own(src, p)) in es0 && Stage(src, b, done, Own(src, p), p)
  }

  ghost function Done(fs: seq<Fixup>, b: nat): set<nat> {
    set j | 0 <= j < |fs| && fs[j].succ == b :: fs[j].was
  }

  lemma {:induction false} HasPredMember(es: Phi, p: nat)
    ensures HasPred(es, p) <==> exists v: int :: Entry(v, p) in es
  {
    if HasPred(es, p) {
      var i :| 0 <= i < |es| && es[i].pred == p;
      assert Entry(es[i].value, p) in es;
    }
    if v: int :| Entry(v, p) in es {
      var i :| 0 <= i < |es| && es[i] == Entry(v, p);
    }
  }

  /** One repair moves a phi from one stage to the next. */
  lemma {:induction false} RemapAdvances(src: seq<SrcBlock>, b: nat, es0: Phi, es: Phi, done: set<nat>, f: Fixup)
    requires PhiCovers(src, b, es0) && PhiState(src, b, es0, es, done)
    requires f.was < |src| && f.was !in done && FixupFits(f, Preds(src, f.was, b))
    ensures PhiState(src, b, es0, RemapOnce(es, f), done + {f.was})
  {
    var s := f.was;
    NoHits(es, s);
    HasPredMember(es, s);
    HasPredMember(es0, s);
    assert Own(src, s) == s;
    if HasPred(es0, s) {
      var v: int :| Entry(v, s) in es0;
      assert Stage(src, b, done, s, s);
      assert Entry(v, s) in es;
      RemapPreconditions(src, b, es0, es, done, f, v);
      RemapFacts([], es, s, f.preds, f.keep, v);
      RemapEntries(src, b, es0, es, done, f, v);
    } else {
      assert RemapOnce(es, f) == es by {
        assert !HasPred(es, s);
      }
      forall u: int, p: nat
        ensures Entry(u, p) in es <==>
          Entry(u, Own(src, p)) in es0 && Stage(src, b, done + {s}, Own(src, p), p)
      {
        if Own(src, p) == s {
          assert Entry(u, s) !in es0;
        }
      }
    }
  }

  lemma {:induction false} ValueOf(es: Phi, v: int, u: int, p: nat)
    requires Coherent(es) && Entry(v, p) in es && Entry(u, p) in es
    ensures u == v
  {
    var i :| 0 <= i < |es| && es[i] == Entry(v, p);
    var j :| 0 <= j < |es| && es[j] == Entry(u, p);
    assert es[i].pred == es[j].pred;
  }

  lemma {:induction false} RemapPreconditions(src: seq<SrcBlock>, b: nat, es0: Phi, es: Phi, done: set<nat>, f: Fixup,
                                              v: int)
    requires PhiCovers(src, b, es0) && PhiState(src, b, es0, es, done)
    requires f.was < |src| && f.was !in done && FixupFits(f, Preds(src, f.was, b))
    requires Entry(v, f.was) in es0
    ensures forall e :: e in es && e.pred == f.was ==> e.value == v
    ensures f.was !in f.preds && forall e :: e in es ==> e.pred !in f.preds
  {
    forall e | e in es
      ensures e.pred == f.was ==> e.value == v
      ensures e.pred !in f.preds
    {
      assert e == Entry(e.value, e.pred);
      var o := Own(src, e.pred);
      assert Stage(src, b, done, o, e.pred);
      if e.pred == f.was {
        assert o == f.was;
        ValueOf(es0, v, e.value, f.was);
      }
      if e.pred in f.preds {
        PredsOwned(src, f.was, b, e.pred);
        assert false;
      }
    }
  }

  lemma {:induction false} RemapEntries(src: seq<SrcBlock>, b: nat, es0: Phi, es: Phi, done: set<nat>, f: Fixup, v: int)
    requires PhiCovers(src, b, es0) && PhiState(src, b, es0, es, done)
    requires f.was < |src| && f.was !in done && FixupFits(f, Preds(src, f.was, b))
    requires Entry(v, f.was) in es0 && HasPred(es, f.was) && Hits(es, f.was) != 0
    requires forall e :: e in Remap(es, f.was, f.preds, f.keep) <==>
      (e in es && (e.pred != f.was || f.keep)) || (e.value == v && e.pred in f.preds)
    ensures PhiState(src, b, es0, RemapOnce(es, f), done + {f.was})
  {
    var s := f.was;
    var es1 := RemapOnce(es, f);
    var ps := Preds(src, s, b);
    forall u: int, p: nat
      ensures Entry(u, p) in es1 <==>
        Entry(u, Own(src, p)) in es0 && Stage(src, b, done + {s}, Own(src, p), p)
    {
      var o := Own(src, p);
      assert Own(src, s) == s;
      if p in ps {
        PredsOwned(src, s, b, p);
      }
      if o == s {
        if Entry(u, s) in es0 {
          ValueOf(es0, v, u, s);
        }
        assert Stage(src, b, done + {s}, s, p) <==> p in ps;
        assert Entry(u, p) in es <==> Entry(u, s) in es0 && p == s;
      } else {
        assert p !in ps && p != s;
        assert Stage(src, b, done + {s}, o, p) <==> Stage(src, b, done, o, p);
      }
    }
  }

  lemma {:induction false} RepairedState(src: seq<SrcBlock>, b: nat, es0: Phi, fs: seq<Fixup>, i: nat)
    requires PhiCovers(src, b, es0) && b < |src| && AllQueued(src, |src|, fs) && i <= |fs|
    ensures PhiState(src, b, es0, Repaired(es0, b, fs[..i]), Done(fs[..i], b))
  {
    if i == 0 {
      assert forall s :: s in Done(fs[..0], b) ==> false;
      forall v: int, p: nat
        ensures Entry(v, p) in es0 <==> Entry(v, Own(src, p)) in es0 && Stage(src, b, {}, Own(src, p), p)
      {
        HasPredMember(es0, p);
        HasPredMember(es0, Own(src, p));
      }
    } else {
      RepairedState(src, b, es0, fs, i - 1);
      var f := fs[i - 1];
      var before := Repaired(es0, b, fs[..i - 1]);
      assert fs[..i][..i - 1] == fs[..i - 1];
      DoneStep(fs, b, i);
      if f.succ == b {
        assert f.was !in Done(fs[..i - 1], b);
        RemapAdvances(src, b, es0, before, Done(fs[..i - 1], b), f);
      }
    }
  }

  lemma {:induction false} DoneStep(fs: seq<Fixup>, b: nat, i: nat)
    requires 0 < i <= |fs|
    ensures Done(fs[..i], b) == Done(fs[..i - 1], b) + if fs[i - 1].succ == b then {fs[i - 1].was} else {}
  {
    var left, right := Done(fs[..i], b), Done(fs[..i - 1], b) + if fs[i - 1].succ == b then {fs[i - 1].was} else {};
    forall s: nat ensures s in left <==> s in right {
      if s in left {
        var j :| 0 <= j < |fs[..i]| && fs[..i][j].succ == b && fs[..i][j].was == s;
        if j < i - 1 {
          assert fs[..i - 1][j] == fs[j];
        }
      }
      if s in Done(fs[..i - 1], b) {
        var j :| 0 <= j < |fs[..i - 1]| && fs[..i - 1][j].succ == b && fs[..i - 1][j].was == s;
        assert fs[..i][j] == fs[j];
      }
      if fs[i - 1].succ == b && s == fs[i - 1].was {
        assert fs[..i][i - 1] == fs[i - 1];
      }
    }
  }

  /** After all repairs the entry of a source predecessor is found under exactly the blocks
      that do its work. */
  lemma {:induction false} RepairedEntries(src: seq<SrcBlock>, b: nat, es0: Phi, fs: seq<Fixup>)
    requires PhiCovers(src, b, es0) && b < |src| && AllQueued(src, |src|, fs)
    ensures var es := Repaired(es0, b, fs);
      && Coherent(es)
      && forall v: int, p: nat :: Entry(v, p) in es <==>
           Entry(v, Own(src, p)) in es0 && p in Preds(src, Own(src, p), b)
  {
    RepairedState(src, b, es0, fs, |fs|);
    assert fs[..|fs|] == fs;
    var es := Repaired(es0, b, fs);
    var done := Done(fs, b);
    forall v: int, p: nat
      ensures Entry(v, p) in es <==> Entry(v, Own(src, p)) in es0 && p in Preds(src, Own(src, p), b)
    {
      var s := Own(src, p);
      if Entry(v, s) in es0 {
        HasPredMember(es0, s);
        PredsNonempty(src, s, b);
        if s !in done {
          assert forall j :: 0 <= j < |fs| && fs[j].succ == b ==> fs[j].was in done;
          assert !Queued(fs, s, b);
          assert Preds(src, s, b) == {s};
        }
      }
    }
    forall i, j | 0 <= i < |es| && 0 <= j < |es| && es[i].pred == es[j].pred
      ensures es[i].value == es[j].value
    {
      var p := es[i].pred;
      assert es[i] == Entry(es[i].value, p) && es[i] in es;
      assert es[j] == Entry(es[j].value, p) && es[j] in es;
      ValueOf(es0, es[i].value, es[j].value, Own(src, p));
    }
  }

  // ---------------------------------------------------------------------------
  // The whole function

  function Incoming(es: Phi, p: nat): Option<int> {
    if es == [] then None else if es[0].pred == p then Some(es[0].value) else Incoming(es[1..], p)
  }

  lemma {:induction false} IncomingIs(es: Phi, v: int, p: nat)
    requires Coherent(es) && Entry(v, p) in es
    ensures Incoming(es, p) == Some(v)
  {
    assert es[0].pred == p ==> es[0].value == v by {
      var i :| 0 <= i < |es| && es[i] == Entry(v, p);
    }
    if es[0].pred != p {
      assert Entry(v, p) in es[1..];
      assert Coherent(es[1..]) by {
        forall i, j | 0 <= i < |es[1..]| && 0 <= j < |es[1..]| && es[1..][i].pred == es[1..][j].pred
          ensures es[1..][i].value == es[1..][j].value
        {
          assert es[i + 1] == es[1..][i] && es[j + 1] == es[1..][j];
        }
      }
      IncomingIs(es[1..], v, p);
    }
  }

  /** Entering block b from block p gives every phi the value that entering it from s gave. */
  predicate SameIncoming(src: seq<SrcBlock>, blocks: seq<Block>, s: nat, b: nat, p: nat) {
    b < |src| <= |blocks| && |blocks[b].phis| == |src[b].phis|
    && forall k :: 0 <= k < |src[b].phis| ==>
         Incoming(src[b].phis[k], s).Some? && Incoming(blocks[b].phis[k], p) == Incoming(src[b].phis[k], s)
  }

  /** Control leaves source block s for the same block, with the same phi values. */
  ghost predicate BlockPreserved(src: seq<SrcBlock>, blocks: seq<Block>, s: nat)
    requires s < |src| <= |blocks|
  {
    match src[s].term
    case Jump(targets) =>
      blocks[s].term == Goto(targets) && forall b :: b in targets ==> SameIncoming(src, blocks, s, b, s)
    case Switch(cond, default, cases) =>
      if cases == [] then blocks[s].term == Goto([default]) && SameIncoming(src, blocks, s, default, s)
      else
        && blocks[s].term.Test? && blocks[s].term.cond == cond
        && forall x: int ::
             Exit(blocks, |src|, s, x).0 == SwitchTarget(default, cases, x)
             && SameIncoming(src, blocks, s, SwitchTarget(default, cases, x), Exit(blocks, |src|, s, x).1)
  }

  /** Every phi has exactly one entry per actual predecessor. */
  ghost predicate PhisExact(blocks: seq<Block>, n: nat)
    requires n <= |blocks|
  {
    forall b, k :: 0 <= b < n && 0 <= k < |blocks[b].phis| ==>
      && DistinctPreds(blocks[b].phis[k])
      && forall p: nat :: HasPred(blocks[b].phis[k], p) <==> p < |blocks| && b in Targets(blocks[p].term)
  }

  ghost predicate Preserved(src: seq<SrcBlock>, blocks: seq<Block>) {
    && |src| <= |blocks|
    && PhisExact(blocks, |src|)
    && forall s: nat :: s < |src| ==> BlockPreserved(src, blocks, s)
  }

  /** What the decoder leaves in the blocks. */
  ghost predicate Decoded(src: seq<SrcBlock>, blocks: seq<Block>, fs: seq<Fixup>) {
    && Lowered(src, blocks) && AllQueued(src, |src|, fs) && |src| <= |blocks|
    && (forall b :: 0 <= b < |src| ==> |blocks[b].phis| == |src[b].phis|)
    && (forall b, k :: 0 <= b < |src| && 0 <= k < |src[b].phis| ==>
          blocks[b].phis[k] == Dedup(Repaired(src[b].phis[k], b, fs)))
  }

  lemma {:induction false} FinalPhi(src: seq<SrcBlock>, b: nat, k: nat, fs: seq<Fixup>)
    requires WellFormed(src) && b < |src| && k < |src[b].phis| && AllQueued(src, |src|, fs)
    ensures var es := Dedup(Repaired(src[b].phis[k], b, fs));
      && DistinctPreds(es)
      && forall v: int, p: nat :: Entry(v, p) in es <==>
           Entry(v, Own(src, p)) in src[b].phis[k] && p in Preds(src, Own(src, p), b)
  {
    RepairedEntries(src, b, src[b].phis[k], fs);
    var es := Repaired(src[b].phis[k], b, fs);
    assert [] + es == es;
    DedupFacts([], es);
  }

  lemma {:induction false} PhiExact(src: seq<SrcBlock>, blocks: seq<Block>, fs: seq<Fixup>, b: nat, k: nat, p: nat)
    requires WellFormed(src) && Decoded(src, blocks, fs) && b < |src| && k < |src[b].phis|
    ensures HasPred(blocks[b].phis[k], p) <==> p < |blocks| && b in Targets(blocks[p].term)
  {
    var es0 := src[b].phis[k];
    FinalPhi(src, b, k, fs);
    assert PhiCovers(src, b, es0);
    var s := Own(src, p);
    HasPredMember(blocks[b].phis[k], p);
    HasPredMember(es0, s);
    PredsNonempty(src, s, b);
    if p < |blocks| {
      PredsAreCfg(src, blocks, b, p);
    } else if p in Preds(src, s, b) {
      PredsOwned(src, s, b, p);
      assert false;
    }
  }

  lemma {:induction false} EdgeKeepsValues(src: seq<SrcBlock>, blocks: seq<Block>, fs: seq<Fixup>, s: nat, b: nat,
                                           p: nat)
    requires WellFormed(src) && Decoded(src, blocks, fs)
    requires s < |src| && b in Succs(src[s].term) && p in Preds(src, s, b)
    ensures SameIncoming(src, blocks, s, b, p)
  {
    PredsOwned(src, s, b, p);
    forall k | 0 <= k < |src[b].phis|
      ensures Incoming(src[b].phis[k], s).Some?
      ensures Incoming(blocks[b].phis[k], p) == Incoming(src[b].phis[k], s)
    {
      var es0 := src[b].phis[k];
      assert PhiCovers(src, b, es0);
      HasPredMember(es0, s);
      var v: int :| Entry(v, s) in es0;
      IncomingIs(es0, v, s);
      FinalPhi(src, b, k, fs);
      DistinctCoherent(blocks[b].phis[k]);
      IncomingIs(blocks[b].phis[k], v, p);
    }
  }

  lemma {:induction false} DistinctCoherent(es: Phi)
    requires DistinctPreds(es)
    ensures Coherent(es)
  {
    forall i, j | 0 <= i < |es| && 0 <= j < |es| && es[i].pred == es[j].pred
      ensures es[i].value == es[j].value
    {
      assert i == j;
    }
  }

  lemma {:induction false} SwitchBlockPreserved(src: seq<SrcBlock>, blocks: seq<Block>, fs: seq<Fixup>, s: nat, x: int)
    requires WellFormed(src) && Decoded(src, blocks, fs) && s < |src|
    requires src[s].term.Switch? && src[s].term.cases != []
    ensures var t := src[s].term;
      && blocks[s].term.Test? && blocks[s].term.cond == t.cond
      && Exit(blocks, |src|, s, x).0 == SwitchTarget(t.default, t.cases, x)
      && SameIncoming(src, blocks, s, SwitchTarget(t.default, t.cases, x), Exit(blocks, |src|, s, x).1)
  {
    var t := src[s].term;
    var base := Base(src, s);
    BaseAtLeast(src, s);
    assert LoweredTerm(blocks, s, base, t);
    assert blocks[TestId(s, base, 0)].term == TestTerm(s, base, t.cond, t.default, t.cases, 0);
    assert t.default in Succs(t);
    ChainReachesFirstMatch(blocks, |src|, s, base, t.cond, t.default, t.cases, x);
    var i := FirstMatch(t.cases, x);
    var b := SwitchTarget(t.default, t.cases, x);
    var p := TestId(s, base, if i < |t.cases| then i else |t.cases| - 1);
    assert p in Preds(src, s, b);
    PredsNonempty(src, s, b);
    EdgeKeepsValues(src, blocks, fs, s, b, p);
  }

  /** Main result: the decoded function takes the same branches as the one with switches, and
      every phi has one entry per actual predecessor, with the value it had. */
  lemma {:induction false} SwitchesPreserved(src: seq<SrcBlock>, blocks: seq<Block>, fs: seq<Fixup>)
    requires WellFormed(src) && Decoded(src, blocks, fs)
    ensures Preserved(src, blocks)
  {
    forall s: nat | s < |src|
      ensures BlockPreserved(src, blocks, s)
    {
      assert LoweredTerm(blocks, s, Base(src, s), src[s].term);
      match src[s].term
      case Jump(targets) =>
        forall b | b in targets ensures SameIncoming(src, blocks, s, b, s) {
          EdgeKeepsValues(src, blocks, fs, s, b, s);
        }
      case Switch(cond, default, cases) =>
        if cases == [] {
          assert s in Preds(src, s, default);
          EdgeKeepsValues(src, blocks, fs, s, default, s);
        } else {
          SwitchBlockPreserved(src, blocks, fs, s, 0);
          forall x: int
            ensures Exit(blocks, |src|, s, x).0 == SwitchTarget(default, cases, x)
            ensures SameIncoming(src, blocks, s, SwitchTarget(default, cases, x), Exit(blocks, |src|, s, x).1)
          {
            SwitchBlockPreserved(src, blocks, fs, s, x);
          }
        }
    }
    forall b, k | 0 <= b < |src| && 0 <= k < |blocks[b].phis|
      ensures DistinctPreds(blocks[b].phis[k])
      ensures forall p: nat :: HasPred(blocks[b].phis[k], p) <==> p < |blocks| && b in Targets(blocks[p].term)
    {
      FinalPhi(src, b, k, fs);
      forall p: nat
        ensures HasPred(blocks[b].phis[k], p) <==> p < |blocks| && b in Targets(blocks[p].term)
      {
        PhiExact(src, blocks, fs, b, k, p);
      }
    }
  }

  // ---------------------------------------------------------------------------
  // The decoder

  /** Blocks added or changed by lowering the switch of block cur, and nothing else. */
  predicate OnlyChain(before: seq<Block>, after: seq<Block>, cur: nat) {
    && cur < |before| <= |after|
    && after[cur].phis == before[cur].phis
    && (forall b :: 0 <= b < |before| && b != cur ==> after[b] == before[b])
    && (forall b :: |before| <= b < |after| ==> after[b].phis == [])
  }

  /** The first k test blocks are written, and the block for the next one is there. */
  predicate ChainPrefix(before: seq<Block>, after: seq<Block>, cur: nat, cond: nat, default: nat,
                        cases: seq<Case>, k: nat)
  {
    && OnlyChain(before, after, cur) && k <= |cases| && cases != []
    && |after| == |before| + (if k < |cases| then k else |cases| - 1)
    && forall i :: 0 <= i < k ==>
         after[TestId(cur, |before|, i)].term == TestTerm(cur, |before|, cond, default, cases, i)
  }

  lemma {:induction false} ChainPrefixStep(before: seq<Block>, after: seq<Block>, cur: nat, cond: nat, default: nat,
                        cases: seq<Case>, k: nat, grown: seq<Block>)
    requires ChainPrefix(before, after, cur, cond, default, cases, k) && k < |cases|
    requires grown == if k + 1 < |cases| then after + [Block([], Unset)] else after
    ensures TestId(cur, |before|, k) < |after|
    ensures var t := TestId(cur, |before|, k);
      ChainPrefix(before, grown[t := grown[t].(term := TestTerm(cur, |before|, cond, default, cases, k))],
                  cur, cond, default, cases, k + 1)
  {
    var t := TestId(cur, |before|, k);
    var next := grown[t := grown[t].(term := TestTerm(cur, |before|, cond, default, cases, k))];
    forall i | 0 <= i < k + 1
      ensures next[TestId(cur, |before|, i)].term == TestTerm(cur, |before|, cond, default, cases, i)
    {
      assert i < k ==> TestId(cur, |before|, i) != t;
    }
  }

  lemma {:induction false} ChainStart(before: seq<Block>, cur: nat, cond: nat, default: nat, cases: seq<Case>)
    requires cur < |before| && cases != []
    ensures ChainPrefix(before, before, cur, cond, default, cases, 0)
  {
  }

  lemma {:induction false} ChainShape(before: seq<Block>, after: seq<Block>, cur: nat, cond: nat, default: nat,
                   cases: seq<Case>, k: nat)
    requires ChainPrefix(before, after, cur, cond, default, cases, k)
    ensures OnlyChain(before, after, cur) && k <= |cases|
    ensures |after| == |before| + if k < |cases| then k else |cases| - 1
    ensures k == |cases| && cur < |before| ==> IsChain(after, cur, |before|, cond, default, cases)
  {
  }

  /** bc_append_unique_u32 */
  method AppendUnique(vals: array<nat>, count: nat, v: nat) returns (ok: bool, count': nat)
    requires count <= vals.Length
    modifies vals
    ensures ok <==> v in old(vals[..count]) || count < vals.Length
    ensures count <= count' <= vals.Length
    ensures vals[..count'] == if v in old(vals[..count]) || !ok then old(vals[..count]) else old(vals[..count]) + [v]
  {
    for i := 0 to count
      invariant v !in vals[..i]
    {
      if vals[i] == v {
        assert vals[..count][i] == v;
        return true, count;
      }
    }
    if count >= vals.Length {
      return false, count;
    }
    ghost var before := vals[..count];
    vals[count] := v;
    assert vals[..count + 1] == before + [v];
    return true, count + 1;
  }

  /** The edges that lead to t. */
  ghost function EdgePreds(edges: seq<Edge>, t: nat): set<nat> {
    set i | 0 <= i < |edges| && edges[i].target == t :: edges[i].pred
  }

  lemma {:induction false} EdgePredsAppend(edges: seq<Edge>, e: Edge, t: nat)
    ensures EdgePreds(edges + [e], t) == EdgePreds(edges, t) + if e.target == t then {e.pred} else {}
  {
    var all := edges + [e];
    forall p: nat
      ensures p in EdgePreds(all, t) <==> p in EdgePreds(edges, t) || (e.target == t && p == e.pred)
    {
      if p in EdgePreds(edges, t) {
        var i :| 0 <= i < |edges| && edges[i].target == t && edges[i].pred == p;
        assert all[i] == edges[i];
      }
      if e.target == t && p == e.pred {
        assert all[|edges|] == e;
      }
      if p in EdgePreds(all, t) {
        var i :| 0 <= i < |all| && all[i].target == t && all[i].pred == p;
        assert i < |edges| ==> all[i] == edges[i];
      }
    }
  }

  ghost predicate Members(ps: seq<nat>, s: set<nat>) {
    forall p: nat :: p in ps <==> p in s
  }

  predicate Distinct(ps: seq<nat>) {
    forall i, j :: 0 <= i < j < |ps| ==> ps[i] != ps[j]
  }

  /** The distinct predecessors among the edges to t, in order of first occurrence, and whether
      cur is one of them; the buffer has room for all of them. */
  method CollectPreds(edges: array<Edge>, n: nat, t: nat, cur: nat, preds: array<nat>)
    returns (count: nat, hasCur: bool)
    requires n <= edges.Length && n <= preds.Length
    modifies preds
    ensures count <= n
    ensures Distinct(preds[..count]) && Members(preds[..count], EdgePreds(edges[..n], t))
    ensures hasCur <==> cur in EdgePreds(edges[..n], t)
  {
    count, hasCur := 0, false;
    for i := 0 to n
      invariant count <= i
      invariant Distinct(preds[..count]) && Members(preds[..count], EdgePreds(edges[..i], t))
      invariant hasCur <==> cur in EdgePreds(edges[..i], t)
    {
      assert edges[..i + 1] == edges[..i] + [edges[i]];
      EdgePredsAppend(edges[..i], edges[i], t);
      if edges[i].target == t {
        ghost var before := preds[..count];
        var ok, c := AppendUnique(preds, count, edges[i].pred);
        assert ok;
        count := c;
        assert forall p: nat :: p in preds[..count] <==> p in before || p == edges[i].pred;
        if edges[i].pred == cur {
          hasCur := true;
        }
      }
    }
  }

  /** Move the predecessors other than cur to the front. */
  method DropPred(preds: array<nat>, n: nat, cur: nat) returns (count: nat)
    requires n <= preds.Length
    modifies preds
    ensures count <= n
    ensures forall p: nat :: p in preds[..count] <==> p in old(preds[..n]) && p != cur
  {
    count := 0;
    for i := 0 to n
      invariant count <= i
      invariant preds[i..] == old(preds[i..])
      invariant forall p: nat :: p in preds[..count] <==> p in old(preds[..i]) && p != cur
    {
      ghost var before := preds[..count];
      assert preds[i] == preds[i..][0] && old(preds[i]) == old(preds[i..])[0];
      assert old(preds[..i + 1]) == old(preds[..i]) + [old(preds[i])];
      if preds[i] != cur {
        preds[count] := preds[i];
        count := count + 1;
        assert preds[..count] == before + [old(preds[i])];
      }
    }
  }

  ghost predicate NeededFixup(f: Fixup, cur: nat, t: nat, ps: set<nat>) {
    f.was == cur && f.succ == t && FixupFits(f, ps)
  }

  lemma {:induction false} FewPreds(all: seq<nat>, cur: nat, ps: set<nat>)
    requires Distinct(all) && Members(all, ps)
    ensures ps != {} ==> all != []
    ensures |all| > 1 ==> exists p: nat :: p in all && p != cur
    ensures cur in ps && ps != {cur} ==> |all| > 1
  {
    if ps != {} {
      var p :| p in ps;
      assert p in all;
    }
    if |all| > 1 {
      assert all[0] in all && all[1] in all;
    }
    if cur in ps && ps != {cur} {
      var p :| p in ps && p != cur;
      assert p in all && cur in all;
    }
  }

  /** fs holds the repairs needed for the targets of the first k edges. */
  ghost predicate QueuedFor(fs: seq<Fixup>, cur: nat, edges: seq<Edge>, k: nat)
    requires k <= |edges|
  {
    && (forall j :: 0 <= j < |fs| ==> NeededFixup(fs[j], cur, fs[j].succ, EdgePreds(edges, fs[j].succ)))
    && (forall i, j :: 0 <= i < j < |fs| ==> fs[i].succ != fs[j].succ)
    && (forall j :: 0 <= j < |fs| ==> exists i :: 0 <= i < k && edges[i].target == fs[j].succ)
    && (forall i :: 0 <= i < k && EdgePreds(edges, edges[i].target) != {cur} ==> Queued(fs, cur, edges[i].target))
  }

  lemma {:induction false} QueuedForStep(fs: seq<Fixup>, cur: nat, edges: seq<Edge>, k: nat, one: seq<Fixup>)
    requires k < |edges| && QueuedFor(fs, cur, edges, k)
    requires one == [] || (|one| == 1 && NeededFixup(one[0], cur, edges[k].target, EdgePreds(edges, edges[k].target)))
    requires var seen := exists i :: 0 <= i < k && edges[i].target == edges[k].target;
      if seen then one == [] else EdgePreds(edges, edges[k].target) != {cur} ==> one != []
    ensures QueuedFor(fs + one, cur, edges, k + 1)
  {
    var next := fs + one;
    forall i | 0 <= i < k + 1 && EdgePreds(edges, edges[i].target) != {cur}
      ensures Queued(next, cur, edges[i].target)
    {
      if j :| 0 <= j < k && edges[j].target == edges[i].target {
        var m :| 0 <= m < |fs| && fs[m].was == cur && fs[m].succ == edges[j].target;
        assert next[m] == fs[m];
      } else {
        assert next[|fs|] == one[0];
      }
    }
    forall j | 0 <= j < |next|
      ensures exists i :: 0 <= i < k + 1 && edges[i].target == next[j].succ
    {
      if j < |fs| {
        assert next[j] == fs[j];
        var i :| 0 <= i < k && edges[i].target == fs[j].succ;
      } else {
        assert next[j] == one[0];
        assert edges[k].target == next[j].succ;
      }
    }
  }

  predicate SameShape(x: Block, y: Block) {
    x.term == y.term && |x.phis| == |y.phis|
  }

  predicate SameShapes(before: seq<Block>, after: seq<Block>) {
    |after| == |before| && forall b :: 0 <= b < |before| ==> SameShape(before[b], after[b])
  }

  /** after is before with the repairs fs made in every phi. */
  predicate AllRepaired(before: seq<Block>, after: seq<Block>, fs: seq<Fixup>) {
    && SameShapes(before, after)
    && forall b, k :: 0 <= b < |before| && 0 <= k < |before[b].phis| ==>
         after[b].phis[k] == Repaired(before[b].phis[k], b, fs)
  }

  predicate AllDeduped(before: seq<Block>, after: seq<Block>, n: nat) {
    && SameShapes(before, after) && n <= |before|
    && forall b, k :: 0 <= b < n && 0 <= k < |before[b].phis| ==>
         after[b].phis[k] == Dedup(before[b].phis[k])
  }

  /** The repairs concern declared blocks, and phis that have entries. */
  predicate Applicable(blocks: seq<Block>, fs: seq<Fixup>, n: nat)
    requires n <= |blocks|
  {
    forall j :: 0 <= j < |fs| ==> fs[j].succ < n && NoEmptyPhi(blocks[fs[j].succ])
  }

  predicate NoEmptyPhi(block: Block) {
    forall k :: 0 <= k < |block.phis| ==> block.phis[k] != []
  }

  /** One edge per case, from its test block, and the edge to the default from the last. */
  predicate ChainEdges(es: seq<Edge>, cur: nat, base: nat, default: nat, cases: seq<Case>) {
    && cases != [] && |es| == |cases| + 1
    && (forall i :: 0 <= i < |cases| ==> es[i] == Edge(cases[i].target, TestId(cur, base, i)))
    && es[|cases|] == Edge(default, TestId(cur, base, |cases| - 1))
  }

  lemma {:induction false} ChainEdgePreds(es: seq<Edge>, cur: nat, base: nat, default: nat, cases: seq<Case>, b: nat)
    requires ChainEdges(es, cur, base, default, cases)
    ensures EdgePreds(es, b) == ChainPreds(cur, base, default, cases, b)
  {
    forall p: nat
      ensures p in EdgePreds(es, b) <==> p in ChainPreds(cur, base, default, cases, b)
    {
      if p in EdgePreds(es, b) {
        var i :| 0 <= i < |es| && es[i].target == b && es[i].pred == p;
        assert i < |cases| ==> cases[i].target == b && p == TestId(cur, base, i);
      }
      if i :| 0 <= i < |cases| && cases[i].target == b && p == TestId(cur, base, i) {
        assert es[i].target == b && es[i].pred == p;
      }
      if default == b && p == TestId(cur, base, |cases| - 1) {
        assert es[|cases|].target == b && es[|cases|].pred == p;
      }
    }
  }

  /** Queueing the repairs of source block k extends the queue correctly. */
  lemma {:induction false} AllQueuedStep(src: seq<SrcBlock>, k: nat, fs: seq<Fixup>, pushed: seq<Fixup>, es: seq<Edge>)
    requires k < |src| && AllQueued(src, k, fs)
    requires src[k].term.Switch? && src[k].term.cases != []
    requires ChainEdges(es, k, Base(src, k), src[k].term.default, src[k].term.cases)
    requires QueuedFor(pushed, k, es, |es|)
    ensures AllQueued(src, k + 1, fs + pushed)
  {
    hide ChainEdges, Preds, EdgePreds, FixupFits, Base, Succs, ChainPreds;
    var next := fs + pushed;
    forall j | 0 <= j < |next|
      ensures next[j].was < k + 1 && next[j].succ in Succs(src[next[j].was].term)
      ensures FixupFits(next[j], Preds(src, next[j].was, next[j].succ))
    {
      if j >= |fs| {
        PushedFits(src, k, pushed, es, j - |fs|);
      }
    }
    forall s, b | 0 <= s < k + 1 && b in Succs(src[s].term) && Preds(src, s, b) != {s}
      ensures Queued(next, s, b)
    {
      if s < k {
        var j :| 0 <= j < |fs| && fs[j].was == s && fs[j].succ == b;
        assert next[j] == fs[j];
      } else {
        PushedCovers(src, k, pushed, es, b);
        var j :| 0 <= j < |pushed| && pushed[j].was == k && pushed[j].succ == b;
        assert next[|fs| + j] == pushed[j];
      }
    }
  }

  lemma {:induction false} PushedFits(src: seq<SrcBlock>, k: nat, pushed: seq<Fixup>, es: seq<Edge>, j: nat)
    requires k < |src| && src[k].term.Switch? && j < |pushed|
    requires ChainEdges(es, k, Base(src, k), src[k].term.default, src[k].term.cases)
    requires QueuedFor(pushed, k, es, |es|)
    ensures pushed[j].was == k && pushed[j].succ in Succs(src[k].term)
    ensures FixupFits(pushed[j], Preds(src, k, pushed[j].succ))
  {
    hide FixupFits;
    var t := src[k].term;
    ChainEdgePreds(es, k, Base(src, k), t.default, t.cases, pushed[j].succ);
    var i :| 0 <= i < |es| && es[i].target == pushed[j].succ;
    assert i < |t.cases| ==> t.cases[i].target == pushed[j].succ;
  }

  lemma {:induction false} PushedCovers(src: seq<SrcBlock>, k: nat, pushed: seq<Fixup>, es: seq<Edge>, b: nat)
    requires k < |src| && src[k].term.Switch? && b in Succs(src[k].term) && Preds(src, k, b) != {k}
    requires ChainEdges(es, k, Base(src, k), src[k].term.default, src[k].term.cases)
    requires QueuedFor(pushed, k, es, |es|)
    ensures Queued(pushed, k, b)
  {
    var t := src[k].term;
    ChainEdgePreds(es, k, Base(src, k), t.default, t.cases, b);
    EdgeTo(es, k, Base(src, k), t.default, t.cases, b);
    var i :| 0 <= i < |es| && es[i].target == b;
  }

  lemma {:induction false} EdgeTo(es: seq<Edge>, cur: nat, base: nat, default: nat, cases: seq<Case>, b: nat)
    requires ChainEdges(es, cur, base, default, cases)
    requires b in Succs(Switch(0, default, cases))
    ensures exists i :: 0 <= i < |es| && es[i].target == b
  {
    if b == default {
      assert es[|cases|].target == b;
    } else {
      var i :| 0 <= i < |cases| && cases[i].target == b;
      assert es[i].target == b;
    }
  }

  lemma {:induction false} AllQueuedSkip(src: seq<SrcBlock>, k: nat, fs: seq<Fixup>)
    requires k < |src| && AllQueued(src, k, fs) && ExtraTests(src[k].term) == 0
    ensures AllQueued(src, k + 1, fs)
  {
    forall b | b in Succs(src[k].term) ensures Preds(src, k, b) == {k} {
      match src[k].term
      case Jump(targets) =>
      case Switch(_, default, cases) =>
        assert ChainPreds(k, Base(src, k), default, cases, b) == {k};
    }
  }

  function ExtraTests(t: SrcTerm): nat {
    if t.Switch? then |t.cases| else 0
  }

  /** The first k source blocks are decoded, the others declared. */
  ghost predicate Progress(src: seq<SrcBlock>, k: nat, blocks: seq<Block>, fs: seq<Fixup>) {
    && k <= |src| <= |blocks| == Base(src, k)
    && (forall s :: 0 <= s < k ==> LoweredTerm(blocks, s, Base(src, s), src[s].term))
    && (forall s :: 0 <= s < k ==> blocks[s].phis == src[s].phis)
    && (forall b :: |src| <= b < |blocks| ==> blocks[b].phis == [])
    && (forall b :: k <= b < |src| ==> blocks[b].phis == [])
    && AllQueued(src, k, fs)
  }

  /** Chains that are already there survive the decoding of block k. */
  lemma {:induction false} LoweredKept(src: seq<SrcBlock>, s: nat, k: nat, before: seq<Block>, after: seq<Block>)
    requires s < k < |src| && |before| == Base(src, k) && OnlyChain(before, after, k)
    requires LoweredTerm(before, s, Base(src, s), src[s].term)
    ensures LoweredTerm(after, s, Base(src, s), src[s].term)
  {
    BaseMonotone(src, s, k);
    match src[s].term
    case Jump(_) =>
    case Switch(cond, default, cases) =>
      var base := Base(src, s);
      if cases != [] {
        assert base + |cases| - 1 <= |before|;
        forall i | 0 <= i < |cases|
          ensures after[TestId(s, base, i)].term == TestTerm(s, base, cond, default, cases, i)
        {
          assert before[TestId(s, base, i)].term == TestTerm(s, base, cond, default, cases, i);
        }
      }
  }

  lemma {:induction false} ProgressStep(src: seq<SrcBlock>, k: nat, blocks: seq<Block>, fs: seq<Fixup>,
                                        mid: seq<Block>, after: seq<Block>, fs': seq<Fixup>)
    requires Progress(src, k, blocks, fs) && k < |src|
    requires mid == blocks[k := Block(src[k].phis, blocks[k].term)] && OnlyChain(mid, after, k)
    requires |after| == Base(src, k + 1) && LoweredTerm(after, k, Base(src, k), src[k].term)
    requires AllQueued(src, k + 1, fs')
    ensures Progress(src, k + 1, after, fs')
  {
    hide LoweredTerm, AllQueued, Base;
    forall s | 0 <= s < k + 1
      ensures LoweredTerm(after, s, Base(src, s), src[s].term)
    {
      if s < k {
        assert OnlyChain(blocks, after[k := Block(blocks[k].phis, after[k].term)], k);
        LoweredKept(src, s, k, blocks, after[k := Block(blocks[k].phis, after[k].term)]);
        PhisIrrelevant(after[k := Block(blocks[k].phis, after[k].term)], after, s, Base(src, s), src[s].term);
      }
    }
  }

  lemma {:induction false} PhisIrrelevant(x: seq<Block>, y: seq<Block>, s: nat, base: nat, t: SrcTerm)
    requires |x| == |y| && forall b :: 0 <= b < |x| ==> x[b].term == y[b].term
    requires LoweredTerm(x, s, base, t)
    ensures LoweredTerm(y, s, base, t)
  {
    if t.Switch? && t.cases != [] {
      forall i | 0 <= i < |t.cases|
        ensures y[TestId(s, base, i)].term == TestTerm(s, base, t.cond, t.default, t.cases, i)
      {
        assert x[TestId(s, base, i)].term == TestTerm(s, base, t.cond, t.default, t.cases, i);
      }
    }
  }

  /** What is left when everything is decoded, repaired and deduplicated. */
  lemma {:induction false} AllDecoded(src: seq<SrcBlock>, read: seq<Block>, repaired: seq<Block>, final: seq<Block>,
                                      fs: seq<Fixup>)
    requires Progress(src, |src|, read, fs)
    requires AllRepaired(read, repaired, fs) && AllDeduped(repaired, final, |src|)
    ensures Decoded(src, final, fs)
  {
    hide LoweredTerm, AllQueued, Base, Repaired, Dedup;
    forall s | 0 <= s < |src|
      ensures LoweredTerm(final, s, Base(src, s), src[s].term)
    {
      assert forall b :: 0 <= b < |read| ==> SameShape(read[b], repaired[b]) && SameShape(repaired[b], final[b]);
      PhisIrrelevant(read, final, s, Base(src, s), src[s].term);
    }
    forall b, k | 0 <= b < |src| && 0 <= k < |src[b].phis|
      ensures final[b].phis[k] == Dedup(Repaired(src[b].phis[k], b, fs))
    {
      assert SameShape(read[b], repaired[b]) && SameShape(repaired[b], final[b]);
      assert repaired[b].phis[k] == Repaired(read[b].phis[k], b, fs);
    }
  }

  predicate SwitchInRange(t: SrcTerm, n: nat) {
    t.Switch? ==> t.default < n && forall i :: 0 <= i < |t.cases| ==> t.cases[i].target < n
  }

  lemma {:induction false} RangeOf(src: seq<SrcBlock>, s: nat)
    requires TargetsInRange(src) && s < |src|
    ensures SwitchInRange(src[s].term, |src|)
  {
    var t := src[s].term;
    if t.Switch? {
      assert t.default in Succs(t);
      forall i | 0 <= i < |t.cases| ensures t.cases[i].target < |src| {
        assert t.cases[i].target in Succs(t);
      }
    }
  }

  lemma {:induction false} NoFixups(src: seq<SrcBlock>, fs: seq<Fixup>)
    requires fs == []
    ensures AllQueued(src, 0, fs)
  {
  }

  /** A well-formed source has no phi without entries in a block that needs a repair. */
  lemma {:induction false} SuccessorPhis(src: seq<SrcBlock>, blocks: seq<Block>, fs: seq<Fixup>, j: nat, k: nat)
    requires WellFormed(src) && Progress(src, |src|, blocks, fs) && j < |fs|
    requires fs[j].succ < |src| && k < |blocks[fs[j].succ].phis|
    ensures blocks[fs[j].succ].phis[k] != []
  {
    var b := fs[j].succ;
    assert PhiCovers(src, b, src[b].phis[k]);
    assert HasPred(src[b].phis[k], fs[j].was);
  }

  class FunctionDecoder {
    var blocks: seq<Block>
    var fixups: seq<Fixup>

    constructor ()
      ensures blocks == [] && fixups == []
    {
      blocks, fixups := [], [];
    }

    /** Emit the test blocks of one switch; edges records who branches where. */
    method EmitChain(cur: nat, cond: nat, default: nat, cases: seq<Case>, numBlocks: nat, edges: array<Edge>)
      returns (ok: bool)
      requires cur < numBlocks <= |blocks| && cases != [] && edges.Length == |cases| + 1
      modifies this`blocks, edges
      ensures ok <==> forall i :: 0 <= i < |cases| ==> cases[i].target < numBlocks
      ensures ok ==> |blocks| == |old(blocks)| + |cases| - 1
      ensures ok ==> IsChain(blocks, cur, |old(blocks)|, cond, default, cases)
      ensures OnlyChain(old(blocks), blocks, cur)
      ensures ok ==> ChainEdges(edges[..], cur, |old(blocks)|, default, cases)
    {
      hide OnlyChain, ChainPrefix;
      ghost var before := blocks;
      ghost var base := |blocks|;
      ChainStart(before, cur, cond, default, cases);
      var test := cur;
      for ci := 0 to |cases|
        invariant ChainPrefix(before, blocks, cur, cond, default, cases, ci)
        invariant test == TestId(cur, base, if ci < |cases| then ci else |cases| - 1)
        invariant forall i :: 0 <= i < ci ==> cases[i].target < numBlocks
        invariant forall i :: 0 <= i < ci ==> edges[i] == Edge(cases[i].target, TestId(cur, base, i))
      {
        ChainShape(before, blocks, cur, cond, default, cases, ci);
        if cases[ci].target >= numBlocks {
          return false;
        }
        var missId := default;
        ghost var was := blocks;
        if ci + 1 < |cases| {
          missId := |blocks|;
          blocks := blocks + [Block([], Unset)];
        }
        ChainPrefixStep(before, was, cur, cond, default, cases, ci, blocks);
        blocks := blocks[test := blocks[test].(term := Test(cond, cases[ci].value, cases[ci].target, missId))];
        edges[ci] := Edge(cases[ci].target, test);
        if ci + 1 < |cases| {
          test := |blocks| - 1;
        }
      }
      ChainShape(before, blocks, cur, cond, default, cases, |cases|);
      edges[|cases|] := Edge(default, test);
      ok := true;
    }

    /** Queue the repair, if one is needed, of the phis of one successor. */
    method QueueFixup(edges: array<Edge>, t: nat, cur: nat, preds: array<nat>) returns (ghost pushed: seq<Fixup>)
      requires edges.Length <= preds.Length
      requires EdgePreds(edges[..], t) != {}
      modifies this`fixups, preds
      ensures fixups == old(fixups) + pushed
      ensures pushed == [] || (|pushed| == 1 && NeededFixup(pushed[0], cur, t, EdgePreds(edges[..], t)))
      ensures EdgePreds(edges[..], t) != {cur} ==> pushed != []
    {
      assert edges[..edges.Length] == edges[..];
      var count, hasCur := CollectPreds(edges, edges.Length, t, cur, preds);
      ghost var ps := EdgePreds(edges[..], t);
      ghost var all := preds[..count];
      FewPreds(all, cur, ps);
      pushed := [];
      if !hasCur {
        pushed := [Fixup(t, cur, false, preds[..count])];
        fixups := fixups + [Fixup(t, cur, false, preds[..count])];
      } else if count > 1 {
        ghost var other :| other in all && other != cur;
        var extra := DropPred(preds, count, cur);
        assert other in preds[..extra];
        if extra > 0 {
          pushed := [Fixup(t, cur, true, preds[..extra])];
          fixups := fixups + [Fixup(t, cur, true, preds[..extra])];
        }
      }
    }

    /** Queue the repairs of all successors, each once. */
    method QueueFixups(edges: array<Edge>, cur: nat) returns (ghost pushed: seq<Fixup>)
      modifies this`fixups
      ensures fixups == old(fixups) + pushed
      ensures QueuedFor(pushed, cur, edges[..], edges.Length)
    {
      var preds := new nat[edges.Length](_ => 0);
      pushed := [];
      for ei := 0 to edges.Length
        invariant fixups == old(fixups) + pushed
        invariant QueuedFor(pushed, cur, edges[..], ei)
      {
        var t := edges[ei].target;
        var seen := false;
        for pi := 0 to ei
          invariant seen <==> exists i :: 0 <= i < pi && edges[i].target == t
        {
          if edges[pi].target == t {
            seen := true;
          }
        }
        ghost var one := [];
        if !seen {
          assert edges[..][ei].pred in EdgePreds(edges[..], t);
          one := QueueFixup(edges, t, cur, preds);
        }
        QueuedForStep(pushed, cur, edges[..], ei, one);
        pushed := pushed + one;
      }
    }

    /** Lower the switch that ends block cur. */
    method LowerSwitch(cur: nat, cond: nat, default: nat, cases: seq<Case>, numBlocks: nat)
      returns (ok: bool, ghost pushed: seq<Fixup>, ghost es: seq<Edge>)
      requires cur < numBlocks <= |blocks|
      modifies this
      ensures ok <==> default < numBlocks && forall i :: 0 <= i < |cases| ==> cases[i].target < numBlocks
      ensures ok ==> |blocks| == |old(blocks)| + ExtraBlocks(Switch(cond, default, cases))
      ensures ok ==> LoweredTerm(blocks, cur, |old(blocks)|, Switch(cond, default, cases))
      ensures OnlyChain(old(blocks), blocks, cur)
      ensures ok ==> fixups == old(fixups) + pushed
      ensures ok && cases == [] ==> pushed == []
      ensures ok && cases != [] ==>
        ChainEdges(es, cur, |old(blocks)|, default, cases) && QueuedFor(pushed, cur, es, |es|)
    {
      pushed, es := [], [];
      if default >= numBlocks {
        return false, pushed, es;
      }
      if cases == [] {
        blocks := blocks[cur := blocks[cur].(term := Goto([default]))];
        return true, pushed, es;
      }
      hide IsChain, EdgePreds, FixupFits;
      var edges := new Edge[|cases| + 1](_ => Edge(0, 0));
      ok := EmitChain(cur, cond, default, cases, numBlocks, edges);
      if ok {
        pushed := QueueFixups(edges, cur);
        es := edges[..];
      }
    }

    /** Repair the phis of one block; a phi without operands is malformed. */
    method RemapBlock(b: nat, f: Fixup) returns (ok: bool)
      requires b < |blocks| && f.preds != []
      modifies this`blocks
      ensures ok <==> forall k :: 0 <= k < |old(blocks)[b].phis| ==> old(blocks)[b].phis[k] != []
      ensures |blocks| == |old(blocks)| && |blocks[b].phis| == |old(blocks)[b].phis|
      ensures blocks[b].term == old(blocks)[b].term
      ensures forall c :: 0 <= c < |blocks| && c != b ==> blocks[c] == old(blocks)[c]
      ensures ok ==> forall k :: 0 <= k < |blocks[b].phis| ==> blocks[b].phis[k] == RemapOnce(old(blocks)[b].phis[k], f)
    {
      for k := 0 to |blocks[b].phis|
        invariant |blocks| == |old(blocks)| && |blocks[b].phis| == |old(blocks)[b].phis|
        invariant blocks[b].term == old(blocks)[b].term
        invariant forall c :: 0 <= c < |blocks| && c != b ==> blocks[c] == old(blocks)[c]
        invariant forall i :: 0 <= i < k ==> old(blocks)[b].phis[i] != []
        invariant forall i :: 0 <= i < k ==> blocks[b].phis[i] == RemapOnce(old(blocks)[b].phis[i], f)
        invariant forall i :: k <= i < |blocks[b].phis| ==> blocks[b].phis[i] == old(blocks)[b].phis[i]
      {
        var es := blocks[b].phis[k];
        if es == [] {
          return false;
        }
        var rewritten := RemapPhi(es, f.was, f.preds, f.keep);
        blocks := blocks[b := blocks[b].(phis := blocks[b].phis[k := rewritten])];
      }
      ok := true;
    }

    /** Apply the queued repairs in order. */
    method ApplyFixups(numBlocks: nat) returns (ok: bool)
      requires numBlocks <= |blocks|
      requires forall j :: 0 <= j < |fixups| ==> fixups[j].preds != []
      modifies this`blocks
      ensures SameShapes(old(blocks), blocks)
      ensures ok ==> AllRepaired(old(blocks), blocks, fixups)
      ensures ok <==> Applicable(old(blocks), fixups, numBlocks)
    {
      for i := 0 to |fixups|
        invariant AllRepaired(old(blocks), blocks, fixups[..i])
        invariant Applicable(old(blocks), fixups[..i], numBlocks)
      {
        var f := fixups[i];
        assert fixups[..i + 1][..i] == fixups[..i];
        if f.succ >= numBlocks {
          return false;
        }
        ghost var before := blocks;
        var one := RemapBlock(f.succ, f);
        forall k | 0 <= k < |before[f.succ].phis|
          ensures before[f.succ].phis[k] == [] <==> old(blocks)[f.succ].phis[k] == []
        {
          RepairedNonempty(old(blocks)[f.succ].phis[k], f.succ, fixups[..i]);
        }
        if !one {
          return false;
        }
      }
      assert fixups[..|fixups|] == fixups;
      ok := true;
    }

    /** Remove repeated predecessors from the phis of one block. */
    method DedupBlock(b: nat)
      requires b < |blocks|
      modifies this`blocks
      ensures |blocks| == |old(blocks)| && SameShape(old(blocks)[b], blocks[b])
      ensures forall c :: 0 <= c < |blocks| && c != b ==> blocks[c] == old(blocks)[c]
      ensures forall k :: 0 <= k < |blocks[b].phis| ==> blocks[b].phis[k] == Dedup(old(blocks)[b].phis[k])
    {
      for k := 0 to |blocks[b].phis|
        invariant |blocks| == |old(blocks)| && SameShape(old(blocks)[b], blocks[b])
        invariant forall c :: 0 <= c < |blocks| && c != b ==> blocks[c] == old(blocks)[c]
        invariant forall i :: 0 <= i < k ==> blocks[b].phis[i] == Dedup(old(blocks)[b].phis[i])
        invariant forall i :: k <= i < |blocks[b].phis| ==> blocks[b].phis[i] == old(blocks)[b].phis[i]
      {
        var es := blocks[b].phis[k];
        var ops := new Entry[|es|](i requires 0 <= i < |es| => es[i]);
        assert ops[..] == es;
        var n := DedupPhi(ops);
        blocks := blocks[b := blocks[b].(phis := blocks[b].phis[k := ops[..n]])];
      }
    }

    method DedupPhis(numBlocks: nat)
      requires numBlocks <= |blocks|
      modifies this`blocks
      ensures AllDeduped(old(blocks), blocks, numBlocks)
    {
      for bi := 0 to numBlocks
        invariant AllDeduped(old(blocks), blocks, bi)
        invariant forall b :: bi <= b < |blocks| ==> blocks[b] == old(blocks)[b]
      {
        DedupBlock(bi);
      }
    }

    /** Decode all blocks, then repair and deduplicate the phis. */
    method Decode(src: seq<SrcBlock>) returns (ok: bool)
      requires blocks == [] && fixups == []
      modifies this
      ensures ok ==> Decoded(src, blocks, fixups) && forall s :: 0 <= s < |src| ==> SwitchInRange(src[s].term, |src|)
      ensures WellFormed(src) ==> ok && Preserved(src, blocks)
    {
      var n := |src|;
      blocks := seq(n, _ => Block([], Unset));
      NoFixups(src, fixups);
      if TargetsInRange(src) {
        forall s | 0 <= s < n ensures SwitchInRange(src[s].term, n) {
          RangeOf(src, s);
        }
      }
      ok := ReadBlocks(src);
      if ok {
        ghost var read := blocks;
        if WellFormed(src) {
          Repairable(src, blocks, fixups);
        }
        ok := ApplyFixups(n);
        if ok {
          ghost var repaired := blocks;
          DedupPhis(n);
          AllDecoded(src, read, repaired, blocks, fixups);
          if WellFormed(src) {
            SwitchesPreserved(src, blocks, fixups);
          }
        }
      }
    }

    method ReadBlocks(src: seq<SrcBlock>) returns (ok: bool)
      requires Progress(src, 0, blocks, fixups)
      modifies this
      ensures ok <==> forall s :: 0 <= s < |src| ==> SwitchInRange(src[s].term, |src|)
      ensures ok ==> Progress(src, |src|, blocks, fixups)
    {
      hide Progress, OnlyChain, LoweredTerm, Base, AllQueued, ChainEdges, QueuedFor;
      for cur := 0 to |src|
        invariant Progress(src, cur, blocks, fixups)
        invariant forall s :: 0 <= s < cur ==> SwitchInRange(src[s].term, |src|)
      {
        ghost var before, fs := blocks, fixups;
        ProgressShape(src, cur, blocks, fixups);
        blocks := blocks[cur := Block(src[cur].phis, blocks[cur].term)];
        ghost var mid := blocks;
        match src[cur].term {
          case Jump(targets) =>
            blocks := blocks[cur := blocks[cur].(term := Goto(targets))];
            AllQueuedSkip(src, cur, fs);
            JumpShape(mid, cur, targets, Base(src, cur));
          case Switch(cond, default, cases) =>
            ghost var pushed, es;
            ok, pushed, es := LowerSwitch(cur, cond, default, cases, |src|);
            if !ok {
              return;
            }
            if cases == [] {
              AllQueuedSkip(src, cur, fs);
              assert fixups == fs;
            } else {
              AllQueuedStep(src, cur, fs, pushed, es);
            }
        }
        BaseNext(src, cur);
        ProgressStep(src, cur, before, fs, mid, blocks, fixups);
      }
      ok := true;
    }
  }

  lemma {:induction false} BaseNext(src: seq<SrcBlock>, s: nat)
    requires s < |src|
    ensures Base(src, s + 1) == Base(src, s) + ExtraBlocks(src[s].term)
  {
  }

  lemma {:induction false} ProgressShape(src: seq<SrcBlock>, k: nat, blocks: seq<Block>, fs: seq<Fixup>)
    requires Progress(src, k, blocks, fs)
    ensures k <= |src| <= |blocks| == Base(src, k) && AllQueued(src, k, fs)
  {
  }

  lemma {:induction false} JumpShape(mid: seq<Block>, cur: nat, targets: seq<nat>, base: nat)
    requires cur < |mid|
    ensures var after := mid[cur := mid[cur].(term := Goto(targets))];
      OnlyChain(mid, after, cur) && LoweredTerm(after, cur, base, Jump(targets))
  {
  }

  lemma {:induction false} Repairable(src: seq<SrcBlock>, blocks: seq<Block>, fs: seq<Fixup>)
    requires WellFormed(src) && Progress(src, |src|, blocks, fs)
    ensures Applicable(blocks, fs, |src|)
  {
    forall j | 0 <= j < |fs|
      ensures fs[j].succ < |src| && NoEmptyPhi(blocks[fs[j].succ])
    {
      assert fs[j].succ in Succs(src[fs[j].was].term);
      forall k | 0 <= k < |blocks[fs[j].succ].phis|
        ensures blocks[fs[j].succ].phis[k] != []
      {
        SuccessorPhis(src, blocks, fs, j, k);
      }
    }
  }

  lemma {:induction false} AddMissingLonger(out: Phi, v: int, preds: seq<nat>)
    ensures |AddMissing(out, v, preds)| >= |out|
    ensures preds != [] ==> AddMissing(out, v, preds) != []
    decreases |preds|
  {
    if preds != [] {
      AddMissingLonger(if HasPred(out, preds[0]) then out else out + [Entry(v, preds[0])], v, preds[1..]);
    }
  }

  lemma {:induction false} RemapIntoNonempty(out: Phi, es: Phi, was: nat, preds: seq<nat>, keep: bool)
    requires preds != [] && (es != [] || out != [])
    ensures RemapInto(out, es, was, preds, keep) != []
    decreases |es|
  {
    if es != [] {
      var e := es[0];
      var kept := if keep then out + [e] else out;
      AddMissingLonger(kept, e.value, preds);
      RemapIntoNonempty(if e.pred != was then out + [e] else AddMissing(kept, e.value, preds), es[1..], was, preds,
                        keep);
    }
  }

  lemma {:induction false} RepairedNonempty(es: Phi, b: nat, fs: seq<Fixup>)
    requires forall j :: 0 <= j < |fs| ==> fs[j].preds != []
    ensures es == [] <==> Repaired(es, b, fs) == []
    decreases |fs|
  {
    if fs != [] {
      var f := fs[|fs| - 1];
      RepairedNonempty(es, b, fs[..|fs| - 1]);
    }
    if fs != [] && es != [] {
      var f := fs[|fs| - 1];
      RemapIntoNonempty([], Repaired(es, b, fs[..|fs| - 1]), f.was, f.preds, f.keep);
    }
  }
}
