/**
 Rewriting the incoming entries of a phi node: replacing a predecessor by several
 (bc_switch_remap_phi_preds) and removing repeated predecessors.
 */
module PhiRewrite {
  /** One incoming value of a phi and the block it comes from. */
  datatype Entry = Entry(value: int, pred: nat)

  type Phi = seq<Entry>

  // ---------------------------------------------------------------------------
  // Rewriting one phi

  predicate HasPred(es: Phi, p: nat) {
    exists i :: 0 <= i < |es| && es[i].pred == p
  }

  function AddMissing(out: Phi, v: int, preds: seq<nat>): Phi
    decreases |preds|
  {
    if preds == [] then out
    else AddMissing(if HasPred(out, preds[0]) then out else out + [Entry(v, preds[0])], v, preds[1..])
  }

  function RemapInto(out: Phi, es: Phi, was: nat, preds: seq<nat>, keep: bool): Phi
    decreases |es|
  {
    if es == [] then out
    else
      var e := es[0];
      var next := if e.pred != was then out + [e]
                  else AddMissing(if keep then out + [e] else out, e.value, preds);
      RemapInto(next, es[1..], was, preds, keep)
  }

  /** Every entry for was becomes one entry per new predecessor (and stays, if keep). */
  function Remap(es: Phi, was: nat, preds: seq<nat>, keep: bool): Phi {
    RemapInto([], es, was, preds, keep)
  }

  function Hits(es: Phi, was: nat): nat {
    if es == [] then 0 else (if es[0].pred == was then 1 else 0) + Hits(es[1..], was)
  }

  /** new_pairs: the size of the buffer the rewritten operands are put in. */
  function PairBound(n: nat, hits: nat, preds: nat, keep: bool): int {
    n + if keep then hits * preds else hits * (preds - 1)
  }

  lemma {:induction false} HitsAppend(es: Phi, e: Entry, was: nat)
    ensures Hits(es + [e], was) == Hits(es, was) + if e.pred == was then 1 else 0
  {
    if es != [] {
      assert (es + [e])[1..] == es[1..] + [e];
      HitsAppend(es[1..], e, was);
    } else {
      assert (es + [e])[1..] == [];
    }
  }

  lemma {:induction false} RemapIntoAppend(out: Phi, es: Phi, e: Entry, was: nat, preds: seq<nat>, keep: bool)
    ensures RemapInto(out, es + [e], was, preds, keep)
      == RemapInto(RemapInto(out, es, was, preds, keep), [e], was, preds, keep)
    decreases |es|
  {
    if es != [] {
      assert (es + [e])[1..] == es[1..] + [e];
      var next := if es[0].pred != was then out + [es[0]]
                  else AddMissing(if keep then out + [es[0]] else out, es[0].value, preds);
      RemapIntoAppend(next, es[1..], e, was, preds, keep);
    } else {
      assert es + [e] == [e];
    }
  }

  lemma {:induction false} AddMissingStep(out: Phi, v: int, preds: seq<nat>, k: nat)
    requires k < |preds|
    ensures AddMissing(out, v, preds[..k + 1])
      == var o := AddMissing(out, v, preds[..k]); if HasPred(o, preds[k]) then o else o + [Entry(v, preds[k])]
  {
    AddMissingAppend(out, v, preds[..k], preds[k]);
    assert preds[..k + 1] == preds[..k] + [preds[k]];
  }

  lemma {:induction false} AddMissingAppend(out: Phi, v: int, preds: seq<nat>, p: nat)
    ensures AddMissing(out, v, preds + [p])
      == var o := AddMissing(out, v, preds); if HasPred(o, p) then o else o + [Entry(v, p)]
    decreases |preds|
  {
    if preds == [] {
      assert (preds + [p])[1..] == [];
    } else {
      assert (preds + [p])[1..] == preds[1..] + [p];
      AddMissingAppend(if HasPred(out, preds[0]) then out else out + [Entry(v, preds[0])], v, preds[1..], p);
    }
  }

  method CountHits(es: Phi, was: nat) returns (hits: nat)
    ensures hits == Hits(es, was)
  {
    hits := 0;
    for i := 0 to |es|
      invariant hits == Hits(es[..i], was)
    {
      HitsAppend(es[..i], es[i], was);
      assert es[..i + 1] == es[..i] + [es[i]];
      if es[i].pred == was {
        hits := hits + 1;
      }
    }
    assert es[..|es|] == es;
  }

  method FindPred(es: array<Entry>, n: nat, p: nat) returns (found: bool)
    requires n <= es.Length
    ensures found <==> HasPred(es[..n], p)
  {
    found := false;
    for q := 0 to n
      invariant !HasPred(es[..q], p)
    {
      if es[q].pred == p {
        assert es[..n][q].pred == p;
        return true;
      }
    }
  }

  lemma {:induction false} PairBoundStep(n: nat, hits: nat, preds: nat, keep: bool)
    requires preds >= 1 || keep
    ensures PairBound(n + 1, hits + 1, preds, keep) == PairBound(n, hits, preds, keep) + preds + if keep then 1 else 0
    ensures PairBound(n + 1, hits, preds, keep) == PairBound(n, hits, preds, keep) + 1
  {
    assert (hits + 1) * preds == hits * preds + preds;
    assert (hits + 1) * (preds - 1) == hits * (preds - 1) + (preds - 1);
  }

  lemma {:induction false} PairBoundMonotone(es: Phi, i: nat, was: nat, preds: nat, keep: bool)
    requires i <= |es| && (preds >= 1 || keep)
    ensures PairBound(i, Hits(es[..i], was), preds, keep) <= PairBound(|es|, Hits(es, was), preds, keep)
    decreases |es| - i
  {
    if i < |es| {
      PairBoundMonotone(es, i + 1, was, preds, keep);
      assert es[..i + 1] == es[..i] + [es[i]];
      HitsAppend(es[..i], es[i], was);
      PairBoundStep(i, Hits(es[..i], was), preds, keep);
    } else {
      assert es[..i] == es;
    }
  }

  /** Write one entry per new predecessor that is not there yet. */
  method WriteMissing(buf: array<Entry>, n: nat, v: int, preds: seq<nat>) returns (n': nat)
    requires n + |preds| <= buf.Length
    modifies buf
    ensures n <= n' <= n + |preds| && buf[..n'] == AddMissing(old(buf[..n]), v, preds)
  {
    n' := n;
    assert preds[..0] == [];
    for pi := 0 to |preds|
      invariant n <= n' <= n + pi && buf[..n'] == AddMissing(old(buf[..n]), v, preds[..pi])
    {
      AddMissingStep(old(buf[..n]), v, preds, pi);
      var dup := FindPred(buf, n', preds[pi]);
      if !dup {
        ghost var before := buf[..n'];
        buf[n'] := Entry(v, preds[pi]);
        n' := n' + 1;
        assert buf[..n'] == before + [Entry(v, preds[pi])];
      }
    }
    assert preds[..|preds|] == preds;
  }

  /** The rewriting loop of bc_switch_remap_phi_preds, into a buffer of the size computed
      beforehand: no write is out of bounds. */
  method RemapPhi(es: Phi, was: nat, preds: seq<nat>, keep: bool) returns (r: Phi)
    requires preds != []
    ensures r == if Hits(es, was) == 0 then es else Remap(es, was, preds, keep)
  {
    var hits := CountHits(es, was);
    if hits == 0 {
      return es;
    }
    PairBoundMonotone(es, 0, was, |preds|, keep);
    assert es[..0] == [] && Hits(es[..0], was) == 0;
    var buf := new Entry[PairBound(|es|, hits, |preds|, keep)](_ => Entry(0, 0));
    var out := 0;
    for i := 0 to |es|
      invariant 0 <= out <= PairBound(i, Hits(es[..i], was), |preds|, keep)
      invariant out <= buf.Length
      invariant buf[..out] == Remap(es[..i], was, preds, keep)
    {
      var e := es[i];
      assert es[..i + 1] == es[..i] + [e];
      HitsAppend(es[..i], e, was);
      RemapIntoAppend([], es[..i], e, was, preds, keep);
      PairBoundStep(i, Hits(es[..i], was), |preds|, keep);
      PairBoundMonotone(es, i + 1, was, |preds|, keep);
      ghost var before := buf[..out];
      if e.pred == was {
        if keep {
          buf[out] := e;
          out := out + 1;
          assert buf[..out] == before + [e];
        }
        out := WriteMissing(buf, out, e.value, preds);
      } else {
        buf[out] := e;
        out := out + 1;
        assert buf[..out] == before + [e];
      }
    }
    assert es[..|es|] == es;
    return buf[..out];
  }

  // ---------------------------------------------------------------------------
  // Removing duplicate predecessors

  function DedupInto(out: Phi, es: Phi): Phi
    decreases |es|
  {
    if es == [] then out
    else DedupInto(if HasPred(out, es[0].pred) then out else out + [es[0]], es[1..])
  }

  function Dedup(es: Phi): Phi {
    DedupInto([], es)
  }

  lemma {:induction false} DedupAppend(out: Phi, es: Phi, e: Entry)
    ensures DedupInto(out, es + [e])
      == var o := DedupInto(out, es); if HasPred(o, e.pred) then o else o + [e]
    decreases |es|
  {
    if es == [] {
      assert (es + [e])[1..] == [];
    } else {
      assert (es + [e])[1..] == es[1..] + [e];
      DedupAppend(if HasPred(out, es[0].pred) then out else out + [es[0]], es[1..], e);
    }
  }

  /** The compaction loop: kept entries move to the front of the operand array. */
  method DedupPhi(ops: array<Entry>) returns (n: nat)
    modifies ops
    ensures n <= ops.Length && ops[..n] == Dedup(old(ops[..]))
  {
    if ops.Length < 2 {
      DedupShort(ops[..]);
      assert ops[..ops.Length] == ops[..];
      return ops.Length;
    }
    n := 0;
    for pi := 0 to ops.Length
      invariant n <= pi
      invariant ops[..n] == Dedup(old(ops[..pi]))
      invariant forall k :: pi <= k < ops.Length ==> ops[k] == old(ops[k])
    {
      ghost var e := old(ops[pi]);
      DedupAppend([], old(ops[..pi]), e);
      assert old(ops[..pi + 1]) == old(ops[..pi]) + [e];
      var dup := FindPred(ops, n, ops[pi].pred);
      ghost var before := ops[..n];
      if !dup {
        ops[n] := ops[pi];
        n := n + 1;
        assert ops[..n] == before + [e];
      }
    }
    assert old(ops[..ops.Length]) == old(ops[..]);
  }

  lemma {:induction false} DedupShort(es: Phi)
    requires |es| < 2
    ensures Dedup(es) == es
  {
    if |es| == 1 {
      assert es[1..] == [] && [] + [es[0]] == es;
      assert !HasPred([], es[0].pred);
      assert DedupInto([], es) == DedupInto([es[0]], []);
    }
  }

  // ---------------------------------------------------------------------------
  // Phis as sets of entries

  /** Entries for the same predecessor agree. */
  predicate Coherent(es: Phi) {
    forall i, j :: 0 <= i < |es| && 0 <= j < |es| && es[i].pred == es[j].pred ==> es[i].value == es[j].value
  }

  predicate DistinctPreds(es: Phi) {
    forall i, j :: 0 <= i < j < |es| ==> es[i].pred != es[j].pred
  }

  lemma {:induction false} DedupFacts(out: Phi, es: Phi)
    requires DistinctPreds(out) && Coherent(out + es)
    ensures DistinctPreds(DedupInto(out, es))
    ensures forall e :: e in DedupInto(out, es) <==> e in out || e in es
    decreases |es|
  {
    if es != [] {
      var e := es[0];
      var next := if HasPred(out, e.pred) then out else out + [e];
      assert out + es == (out + [e]) + es[1..];
      if HasPred(out, e.pred) {
        var i :| 0 <= i < |out| && out[i].pred == e.pred;
        assert (out + es)[i] == out[i] && (out + es)[|out|] == e;
        assert e == out[i];
        CoherentWithout(out, e, es[1..]);
      }
      DedupFacts(next, es[1..]);
      assert forall x :: x in es <==> x == e || x in es[1..];
    }
  }

  lemma {:induction false} CoherentWithout(out: Phi, e: Entry, rest: Phi)
    requires Coherent((out + [e]) + rest)
    ensures Coherent(out + rest)
  {
    var all := (out + [e]) + rest;
    var short := out + rest;
    forall i, j | 0 <= i < |short| && 0 <= j < |short| && short[i].pred == short[j].pred
      ensures short[i].value == short[j].value
    {
      var i' := if i < |out| then i else i + 1;
      var j' := if j < |out| then j else j + 1;
      assert all[i'] == short[i] && all[j'] == short[j];
    }
  }

  lemma {:induction false} AddMissingFacts(out: Phi, v: int, preds: seq<nat>)
    requires forall e :: e in out && e.pred in preds ==> e.value == v
    ensures forall e :: e in AddMissing(out, v, preds) <==> e in out || (e.value == v && e.pred in preds)
    decreases |preds|
  {
    if preds != [] {
      var p := preds[0];
      var next := if HasPred(out, p) then out else out + [Entry(v, p)];
      assert forall q :: q in preds <==> q == p || q in preds[1..];
      if HasPred(out, p) {
        var i :| 0 <= i < |out| && out[i].pred == p;
        assert out[i] in out && out[i] == Entry(v, p);
      }
      AddMissingFacts(next, v, preds[1..]);
    }
  }

  lemma {:induction false} RemapFacts(out: Phi, es: Phi, was: nat, preds: seq<nat>, keep: bool, v: int)
    requires forall e :: e in es && e.pred == was ==> e.value == v
    requires was !in preds && forall e :: e in es ==> e.pred !in preds
    requires forall e :: e in out && e.pred in preds ==> e.value == v
    ensures forall e :: e in RemapInto(out, es, was, preds, keep) <==>
      || e in out
      || (e in es && (e.pred != was || keep))
      || (HasPred(es, was) && e.value == v && e.pred in preds)
    decreases |es|
  {
    if es != [] {
      var e := es[0];
      assert e in es && forall x :: x in es <==> x == e || x in es[1..];
      HasPredSplit(es, was);
      if e.pred != was {
        RemapFacts(out + [e], es[1..], was, preds, keep, v);
      } else {
        var kept := if keep then out + [e] else out;
        AddMissingFacts(kept, v, preds);
        RemapFacts(AddMissing(kept, v, preds), es[1..], was, preds, keep, v);
      }
    }
  }

  lemma {:induction false} HasPredSplit(es: Phi, p: nat)
    requires es != []
    ensures HasPred(es, p) <==> es[0].pred == p || HasPred(es[1..], p)
  {
    if HasPred(es[1..], p) {
      var i :| 0 <= i < |es[1..]| && es[1..][i].pred == p;
      assert es[i + 1].pred == p;
    }
    if HasPred(es, p) && es[0].pred != p {
      var i :| 0 <= i < |es| && es[i].pred == p;
      assert es[1..][i - 1].pred == p;
    }
  }

  lemma {:induction false} NoHits(es: Phi, was: nat)
    ensures Hits(es, was) == 0 <==> !HasPred(es, was)
  {
    if es != [] {
      HasPredSplit(es, was);
      NoHits(es[1..], was);
    }
  }
}
