/**
 Phi copies per predecessor: counted in one traversal, filled from the back in a second.
 */
module PhiCopies {
  import opened Wrappers

  datatype Copy = Copy(dest: nat, src: int)

  datatype Incoming = Incoming(src: int, pred: nat)

  /** Only phis matter; other instructions have isPhi false. */
  datatype Inst = Inst(isPhi: bool, dest: nat, incoming: seq<Incoming>)

  datatype Edge = Edge(pred: nat, copy: Copy)

  // ---------------------------------------------------------------------------
  // The pairs in traversal order

  function InstEdges(inst: Inst, k: nat): seq<Edge>
    requires k <= |inst.incoming|
  {
    if k == 0 || !inst.isPhi then []
    else
      var x := inst.incoming[k - 1];
      InstEdges(inst, k - 1) + [Edge(x.pred, Copy(inst.dest, x.src))]
  }

  function BlockEdges(insts: seq<Inst>, k: nat): seq<Edge>
    requires k <= |insts|
  {
    if k == 0 then []
    else BlockEdges(insts, k - 1) + InstEdges(insts[k - 1], |insts[k - 1].incoming|)
  }

  function FuncEdges(blocks: seq<seq<Inst>>, k: nat): seq<Edge>
    requires k <= |blocks|
  {
    if k == 0 then [] else FuncEdges(blocks, k - 1) + BlockEdges(blocks[k - 1], |blocks[k - 1]|)
  }

  // ---------------------------------------------------------------------------
  // What the slots have to hold

  /** A pair of a phi: block, instruction, pair. */
  datatype Place = Place(block: nat, inst: nat, pair: nat)

  predicate IsPair(blocks: seq<seq<Inst>>, t: Place) {
    && t.block < |blocks| && t.inst < |blocks[t.block]| && blocks[t.block][t.inst].isPhi
    && t.pair < |blocks[t.block][t.inst].incoming|
  }

  predicate Before(a: Place, b: Place) {
    a.block < b.block || (a.block == b.block && (a.inst < b.inst || (a.inst == b.inst && a.pair < b.pair)))
  }

  /** Slot j holds the copy of pair origin[j]; these are the pairs that name p, each once, the
      later ones first. */
  ghost predicate HoldsPairs(blocks: seq<seq<Inst>>, p: nat, slots: seq<Option<Copy>>, origin: seq<Place>) {
    && |origin| == |slots|
    && (forall j :: 0 <= j < |slots| ==>
          IsPair(blocks, origin[j])
          && var i := blocks[origin[j].block][origin[j].inst];
             i.incoming[origin[j].pair].pred == p && slots[j] == Some(Copy(i.dest, i.incoming[origin[j].pair].src)))
    && (forall j, k :: 0 <= j < k < |origin| ==> Before(origin[k], origin[j]))
    && (forall t :: IsPair(blocks, t) && blocks[t.block][t.inst].incoming[t.pair].pred == p ==> t in origin)
  }

  /** The slots of p: one for every pair that names p. */
  ghost predicate SlotsOfPairs(blocks: seq<seq<Inst>>, p: nat, slots: seq<Option<Copy>>) {
    exists origin :: HoldsPairs(blocks, p, slots, origin)
  }

  // ---------------------------------------------------------------------------
  // What each predecessor gets

  /** The copies for predecessor p, last edge first. */
  function CopiesFor(edges: seq<Edge>, p: nat): seq<Copy> {
    if edges == [] then []
    else
      var e := edges[|edges| - 1];
      (if e.pred == p then [e.copy] else []) + CopiesFor(edges[..|edges| - 1], p)
  }

  function EdgesInto(edges: seq<Edge>, p: nat): seq<Edge> {
    if edges == [] then []
    else (if edges[0].pred == p then [edges[0]] else []) + EdgesInto(edges[1..], p)
  }

  function Reverse(s: seq<Copy>): (r: seq<Copy>)
    ensures |r| == |s|
  {
    if s == [] then [] else Reverse(s[1..]) + [s[0]]
  }

  function CopiesOf(edges: seq<Edge>): (r: seq<Copy>)
    ensures |r| == |edges|
  {
    seq(|edges|, i requires 0 <= i < |edges| => edges[i].copy)
  }

  lemma {:induction false} CopiesAppend(edges: seq<Edge>, e: Edge, p: nat)
    ensures CopiesFor(edges + [e], p) == (if e.pred == p then [e.copy] else []) + CopiesFor(edges, p)
  {
    assert (edges + [e])[..|edges|] == edges;
  }

  lemma {:induction false} CopiesPrepend(e: Edge, edges: seq<Edge>, p: nat)
    ensures CopiesFor([e] + edges, p) == CopiesFor(edges, p) + (if e.pred == p then [e.copy] else [])
    decreases |edges|
  {
    if edges == [] {
      assert [e] + edges == [] + [e];
      CopiesAppend([], e, p);
    } else {
      var l := edges[|edges| - 1];
      var init := edges[..|edges| - 1];
      assert [e] + edges == ([e] + init) + [l] && edges == init + [l];
      CopiesAppend([e] + init, l, p);
      CopiesAppend(init, l, p);
      CopiesPrepend(e, init, p);
    }
  }

  /** The copies of a predecessor are exactly the pairs that name it, in reverse order. */
  lemma {:induction false} CopiesAreReversedEdges(edges: seq<Edge>, p: nat)
    ensures CopiesFor(edges, p) == Reverse(CopiesOf(EdgesInto(edges, p)))
  {
    if edges != [] {
      assert edges == [edges[0]] + edges[1..];
      CopiesPrepend(edges[0], edges[1..], p);
      CopiesAreReversedEdges(edges[1..], p);
      var rest := EdgesInto(edges[1..], p);
      if edges[0].pred == p {
        assert CopiesOf([edges[0]] + rest) == [edges[0].copy] + CopiesOf(rest);
        assert ([edges[0].copy] + CopiesOf(rest))[1..] == CopiesOf(rest);
      } else {
        assert [] + rest == rest;
      }
    }
  }

  lemma {:induction false} CopiesGrow(edges: seq<Edge>, more: seq<Edge>, p: nat)
    ensures |CopiesFor(edges, p)| <= |CopiesFor(edges + more, p)|
    decreases |more|
  {
    if more == [] {
      assert edges + more == edges;
    } else {
      var init, l := more[..|more| - 1], more[|more| - 1];
      assert edges + more == (edges + init) + [l];
      CopiesAppend(edges + init, l, p);
      CopiesGrow(edges, init, p);
    }
  }

  // ---------------------------------------------------------------------------
  // The traversal lists every pair once

  /** edges are those of the pairs before end, in order. */
  ghost predicate Enumerates(blocks: seq<seq<Inst>>, edges: seq<Edge>, places: seq<Place>, end: Place) {
    && |edges| == |places|
    && (forall j :: 0 <= j < |places| ==>
          IsPair(blocks, places[j]) && Before(places[j], end)
          && var i := blocks[places[j].block][places[j].inst];
             edges[j] == Edge(i.incoming[places[j].pair].pred, Copy(i.dest, i.incoming[places[j].pair].src)))
    && (forall j, k :: 0 <= j < k < |places| ==> Before(places[j], places[k]))
    && (forall t :: IsPair(blocks, t) && Before(t, end) ==> t in places)
  }

  /** The end may be moved up to where the next pair can be. */
  lemma {:induction false} EndMoves(blocks: seq<seq<Inst>>, edges: seq<Edge>, places: seq<Place>, a: Place, b: Place)
    requires Enumerates(blocks, edges, places, a) && (a == b || Before(a, b))
    requires forall t :: IsPair(blocks, t) && Before(t, b) ==> Before(t, a)
    ensures Enumerates(blocks, edges, places, b)
  {
  }

  lemma {:induction false} OneMore(blocks: seq<seq<Inst>>, edges: seq<Edge>, places: seq<Place>, t: Place, e: Edge)
    requires Enumerates(blocks, edges, places, t) && IsPair(blocks, t)
    requires var i := blocks[t.block][t.inst];
      e == Edge(i.incoming[t.pair].pred, Copy(i.dest, i.incoming[t.pair].src))
    ensures Enumerates(blocks, edges + [e], places + [t], t.(pair := t.pair + 1))
  {
    forall u | IsPair(blocks, u) && Before(u, t.(pair := t.pair + 1)) ensures u in places + [t] {
      if u != t {
        assert Before(u, t) && u in places;
      }
    }
  }

  lemma {:induction false} EnumerateInst(blocks: seq<seq<Inst>>, edges: seq<Edge>, places: seq<Place>, bi: nat, ii: nat,
                                         k: nat) returns (more: seq<Place>)
    requires Enumerates(blocks, edges, places, Place(bi, ii, 0)) && bi < |blocks| && ii < |blocks[bi]|
    requires blocks[bi][ii].isPhi && k <= |blocks[bi][ii].incoming|
    ensures Enumerates(blocks, edges + InstEdges(blocks[bi][ii], k), more, Place(bi, ii, k))
    decreases k
  {
    hide Enumerates;
    more := places;
    if k == 0 {
      assert edges + [] == edges;
    } else {
      more := EnumerateInst(blocks, edges, places, bi, ii, k - 1);
      var inst := blocks[bi][ii];
      var e := Edge(inst.incoming[k - 1].pred, Copy(inst.dest, inst.incoming[k - 1].src));
      OneMore(blocks, edges + InstEdges(inst, k - 1), more, Place(bi, ii, k - 1), e);
      more := more + [Place(bi, ii, k - 1)];
      assert edges + InstEdges(inst, k) == (edges + InstEdges(inst, k - 1)) + [e];
    }
  }

  lemma {:induction false} EnumerateWhole(blocks: seq<seq<Inst>>, edges: seq<Edge>, places: seq<Place>, bi: nat,
                                          ii: nat)
    returns (more: seq<Place>)
    requires Enumerates(blocks, edges, places, Place(bi, ii, 0)) && bi < |blocks| && ii < |blocks[bi]|
    ensures var inst := blocks[bi][ii];
      Enumerates(blocks, edges + InstEdges(inst, |inst.incoming|), more, Place(bi, ii + 1, 0))
  {
    hide Enumerates;
    var inst := blocks[bi][ii];
    more := places;
    if inst.isPhi {
      more := EnumerateInst(blocks, edges, places, bi, ii, |inst.incoming|);
      EndMoves(blocks, edges + InstEdges(inst, |inst.incoming|), more, Place(bi, ii, |inst.incoming|),
               Place(bi, ii + 1, 0));
    } else {
      EndMoves(blocks, edges, more, Place(bi, ii, 0), Place(bi, ii + 1, 0));
      assert edges + [] == edges;
    }
  }

  lemma {:induction false} EnumerateBlock(blocks: seq<seq<Inst>>, edges: seq<Edge>, places: seq<Place>, bi: nat, k: nat)
    returns (more: seq<Place>)
    requires Enumerates(blocks, edges, places, Place(bi, 0, 0)) && bi < |blocks| && k <= |blocks[bi]|
    ensures Enumerates(blocks, edges + BlockEdges(blocks[bi], k), more, Place(bi, k, 0))
    decreases k
  {
    hide Enumerates;
    more := places;
    if k == 0 {
      assert edges + [] == edges;
    } else {
      more := EnumerateBlock(blocks, edges, places, bi, k - 1);
      var inst := blocks[bi][k - 1];
      var done := edges + BlockEdges(blocks[bi], k - 1);
      more := EnumerateWhole(blocks, done, more, bi, k - 1);
      assert edges + BlockEdges(blocks[bi], k) == done + InstEdges(inst, |inst.incoming|);
    }
  }

  lemma {:induction false} EnumerateFunc(blocks: seq<seq<Inst>>, k: nat) returns (places: seq<Place>)
    requires k <= |blocks|
    ensures Enumerates(blocks, FuncEdges(blocks, k), places, Place(k, 0, 0))
    decreases k
  {
    places := [];
    if k > 0 {
      hide Enumerates;
      places := EnumerateFunc(blocks, k - 1);
      var b := blocks[k - 1];
      places := EnumerateBlock(blocks, FuncEdges(blocks, k - 1), places, k - 1, |b|);
      EndMoves(blocks, FuncEdges(blocks, k), places, Place(k - 1, |b|, 0), Place(k, 0, 0));
    }
  }

  /** The places whose edges go to p, last first. */
  function PlacesFor(edges: seq<Edge>, places: seq<Place>, p: nat): (r: seq<Place>)
    requires |edges| == |places|
    ensures |r| == |CopiesFor(edges, p)|
  {
    if edges == [] then []
    else
      var n := |edges| - 1;
      (if edges[n].pred == p then [places[n]] else []) + PlacesFor(edges[..n], places[..n], p)
  }

  lemma {:induction false} PlacesForFacts(edges: seq<Edge>, places: seq<Place>, p: nat, j: nat) returns (k: nat)
    requires |edges| == |places| && j < |CopiesFor(edges, p)|
    ensures k < |edges| && edges[k].pred == p
    ensures PlacesFor(edges, places, p)[j] == places[k] && CopiesFor(edges, p)[j] == edges[k].copy
  {
    var n := |edges| - 1;
    if edges[n].pred == p && j == 0 {
      k := n;
    } else {
      k := PlacesForFacts(edges[..n], places[..n], p, if edges[n].pred == p then j - 1 else j);
    }
  }

  lemma {:induction false} PlacesForAll(edges: seq<Edge>, places: seq<Place>, p: nat, k: nat)
    requires |edges| == |places| && k < |edges| && edges[k].pred == p
    ensures places[k] in PlacesFor(edges, places, p)
  {
    var n := |edges| - 1;
    if k < n {
      PlacesForAll(edges[..n], places[..n], p, k);
    }
  }

  lemma {:induction false} PlacesForOrder(edges: seq<Edge>, places: seq<Place>, p: nat, i: nat, j: nat)
    requires |edges| == |places| && forall a, b :: 0 <= a < b < |places| ==> Before(places[a], places[b])
    requires i < j < |CopiesFor(edges, p)|
    ensures Before(PlacesFor(edges, places, p)[j], PlacesFor(edges, places, p)[i])
  {
    var n := |edges| - 1;
    if edges[n].pred == p && i == 0 {
      var k := PlacesForFacts(edges[..n], places[..n], p, j - 1);
    } else {
      var d := if edges[n].pred == p then 1 else 0;
      PlacesForOrder(edges[..n], places[..n], p, i - d, j - d);
    }
  }

  /** The copies of p in traversal order are what its slots have to hold. */
  lemma {:induction false} SlotsHoldPairs(blocks: seq<seq<Inst>>, p: nat, slots: seq<Option<Copy>>)
    requires |slots| == |CopiesFor(FuncEdges(blocks, |blocks|), p)|
    requires forall j :: 0 <= j < |slots| ==> slots[j] == Some(CopiesFor(FuncEdges(blocks, |blocks|), p)[j])
    ensures SlotsOfPairs(blocks, p, slots)
  {
    hide FuncEdges, CopiesFor, PlacesFor;
    var edges := FuncEdges(blocks, |blocks|);
    var places := EnumerateFunc(blocks, |blocks|);
    var origin := PlacesFor(edges, places, p);
    forall j | 0 <= j < |slots|
      ensures IsPair(blocks, origin[j])
      ensures var i := blocks[origin[j].block][origin[j].inst];
        i.incoming[origin[j].pair].pred == p && slots[j] == Some(Copy(i.dest, i.incoming[origin[j].pair].src))
    {
      var k := PlacesForFacts(edges, places, p, j);
    }
    forall j, k | 0 <= j < k < |origin| ensures Before(origin[k], origin[j]) {
      PlacesForOrder(edges, places, p, j, k);
    }
    forall t | IsPair(blocks, t) && blocks[t.block][t.inst].incoming[t.pair].pred == p ensures t in origin {
      assert Before(t, Place(|blocks|, 0, 0));
      var k :| 0 <= k < |places| && places[k] == t;
      PlacesForAll(edges, places, p, k);
    }
    assert HoldsPairs(blocks, p, slots, origin);
  }

  /** Slots and origins are determined by that: there is one per pair that names p. */
  lemma {:induction false} SlotPerPair(blocks: seq<seq<Inst>>, p: nat, slots: seq<Option<Copy>>, origin: seq<Place>)
    requires HoldsPairs(blocks, p, slots, origin)
    ensures |slots| == |set t | t in origin| && forall t :: t in origin <==> (
      IsPair(blocks, t) && blocks[t.block][t.inst].incoming[t.pair].pred == p)
  {
    forall i, j | 0 <= i < j < |origin| ensures origin[i] != origin[j] {
      assert Before(origin[j], origin[i]);
    }
    DistinctSize(origin);
  }

  lemma {:induction false} DistinctSize(s: seq<Place>)
    requires forall i, j :: 0 <= i < j < |s| ==> s[i] != s[j]
    ensures |set t | t in s| == |s|
  {
    if s != [] {
      var n := |s| - 1;
      DistinctSize(s[..n]);
      assert (set t | t in s) == (set t | t in s[..n]) + {s[n]};
    }
  }

  // ---------------------------------------------------------------------------
  // The two traversals

  /** Counts after the edges done. */
  predicate Counted(counts: seq<nat>, done: seq<Edge>) {
    forall p :: 0 <= p < |counts| ==> counts[p] == |CopiesFor(done, p)|
  }

  method CountEdge(counts: array<nat>, e: Edge, ghost done: seq<Edge>)
    requires Counted(counts[..], done)
    modifies counts
    ensures Counted(counts[..], done + [e])
  {
    forall p: nat ensures |CopiesFor(done + [e], p)| == |CopiesFor(done, p)| + if e.pred == p then 1 else 0 {
      CopiesAppend(done, e, p);
    }
    assert forall p :: 0 <= p < counts.Length ==> counts[..][p] == |CopiesFor(done, p)|;
    if e.pred < counts.Length {
      counts[e.pred] := counts[e.pred] + 1;
    }
  }

  /** The slots from fill[p] on hold the copies of the edges done; the others are unset. */
  predicate Filled(copies: seq<seq<Option<Copy>>>, fill: seq<nat>, done: seq<Edge>, all: seq<Edge>) {
    && |copies| == |fill|
    && forall p :: 0 <= p < |fill| ==>
         && |copies[p]| == |CopiesFor(all, p)|
         && fill[p] + |CopiesFor(done, p)| == |copies[p]|
         && (forall i :: 0 <= i < fill[p] ==> copies[p][i] == None)
         && (forall i :: 0 <= i < |CopiesFor(done, p)| ==> copies[p][fill[p] + i] == Some(CopiesFor(done, p)[i]))
  }

  method FillEdge(copies: array<seq<Option<Copy>>>, fill: array<nat>, e: Edge, ghost done: seq<Edge>,
                  ghost all: seq<Edge>)
    requires Filled(copies[..], fill[..], done, all)
    requires exists more :: all == (done + [e]) + more
    modifies copies, fill
    ensures Filled(copies[..], fill[..], done + [e], all)
  {
    FillStep(copies[..], fill[..], e, done, all);
    ghost var c0, f0 := copies[..], fill[..];
    hide Filled;
    if e.pred < fill.Length {
      var slot := fill[e.pred] - 1;
      fill[e.pred] := slot;
      copies[e.pred] := copies[e.pred][slot := Some(e.copy)];
      assert copies[..] == c0[e.pred := c0[e.pred][slot := Some(e.copy)]] && fill[..] == f0[e.pred := slot];
    }
  }

  /** There is a free slot for one more edge, and filling it keeps the rest. */
  lemma {:induction false} FillStep(copies: seq<seq<Option<Copy>>>, fill: seq<nat>, e: Edge, done: seq<Edge>,
                                    all: seq<Edge>)
    requires Filled(copies, fill, done, all) && exists more :: all == (done + [e]) + more
    ensures |copies| == |fill|
    ensures e.pred >= |fill| ==> Filled(copies, fill, done + [e], all)
    ensures e.pred < |fill| ==> 0 < fill[e.pred] <= |copies[e.pred]|
    ensures e.pred < |fill| ==>
      Filled(copies[e.pred := copies[e.pred][fill[e.pred] - 1 := Some(e.copy)]], fill[e.pred := fill[e.pred] - 1],
             done + [e], all)
  {
    hide CopiesFor;
    var more :| all == (done + [e]) + more;
    forall p: nat
      ensures CopiesFor(done + [e], p) == (if e.pred == p then [e.copy] else []) + CopiesFor(done, p)
      ensures |CopiesFor(done + [e], p)| <= |CopiesFor(all, p)|
    {
      CopiesAppend(done, e, p);
      CopiesGrow(done + [e], more, p);
    }
    if e.pred >= |fill| {
      assert forall p :: 0 <= p < |fill| ==> CopiesFor(done + [e], p) == CopiesFor(done, p);
    }
  }

  /** Once all edges are done no slot is unset. */
  lemma {:induction false} AllFilled(blocks: seq<seq<Inst>>, copies: seq<seq<Option<Copy>>>, fill: seq<nat>)
    requires Filled(copies, fill, FuncEdges(blocks, |blocks|), FuncEdges(blocks, |blocks|))
    ensures forall p :: 0 <= p < |copies| ==>
              && |copies[p]| == |CopiesFor(FuncEdges(blocks, |blocks|), p)|
              && forall i :: 0 <= i < |copies[p]| ==>
                   copies[p][i] == Some(CopiesFor(FuncEdges(blocks, |blocks|), p)[i])
    ensures forall p: nat :: p < |copies| ==> SlotsOfPairs(blocks, p, copies[p])
  {
    hide FuncEdges, CopiesFor, SlotsOfPairs;
    forall p: nat | p < |copies|
      ensures |copies[p]| == |CopiesFor(FuncEdges(blocks, |blocks|), p)|
      ensures forall i :: 0 <= i < |copies[p]| ==> copies[p][i] == Some(CopiesFor(FuncEdges(blocks, |blocks|), p)[i])
      ensures SlotsOfPairs(blocks, p, copies[p])
    {
      var own := CopiesFor(FuncEdges(blocks, |blocks|), p);
      assert forall i :: 0 <= i < |copies[p]| ==> copies[p][fill[p] + i] == Some(own[i]);
      SlotsHoldPairs(blocks, p, copies[p]);
    }
  }

  /** Before the second traversal all slots are unset. */
  lemma {:induction false} NothingFilled(copies: seq<seq<Option<Copy>>>, fill: seq<nat>, counts: seq<nat>,
                                         all: seq<Edge>)
    requires |copies| == |fill| == |counts| && Counted(counts, all)
    requires forall p :: 0 <= p < |fill| ==> fill[p] == counts[p] && copies[p] == seq(counts[p], _ => None)
    ensures Filled(copies, fill, [], all)
  {
  }

  /** lr_build_phi_copies: every slot is set, and in reverse order of the traversal. */
  method BuildPhiCopies(blocks: seq<seq<Inst>>) returns (copies: array<seq<Option<Copy>>>)
    ensures fresh(copies) && copies.Length == |blocks|
    ensures forall p :: 0 <= p < |blocks| ==>
              |copies[p]| == |CopiesFor(FuncEdges(blocks, |blocks|), p)|
              && forall i :: 0 <= i < |copies[p]| ==>
                   copies[p][i] == Some(CopiesFor(FuncEdges(blocks, |blocks|), p)[i])
    ensures forall p: nat :: p < |blocks| ==> SlotsOfPairs(blocks, p, copies[p])
  {
    hide FuncEdges, CopiesFor, SlotsOfPairs, Filled, Counted;
    var n := |blocks|;
    var counts := CountAll(blocks);
    copies := new seq<Option<Copy>>[n](_ => []);
    var fill := new nat[n](_ => 0);
    for i := 0 to n
      invariant fill.Length == n == copies.Length
      invariant forall p :: 0 <= p < i ==> fill[p] == counts[p] && copies[p] == seq(counts[p], _ => None)
      invariant Counted(counts[..], FuncEdges(blocks, n))
    {
      fill[i] := counts[i];
      copies[i] := seq(counts[i], _ => None);
    }
    NothingFilled(copies[..], fill[..], counts[..], FuncEdges(blocks, n));
    FillAll(blocks, copies, fill);
    ghost var slots := copies[..];
    AllFilled(blocks, slots, fill[..]);
    assert forall p :: 0 <= p < n ==> slots[p] == copies[p];
  }

  method CountAll(blocks: seq<seq<Inst>>) returns (counts: array<nat>)
    ensures fresh(counts) && counts.Length == |blocks|
    ensures Counted(counts[..], FuncEdges(blocks, |blocks|))
  {
    hide Counted;
    counts := new nat[|blocks|](_ => 0);
    NothingCounted(counts[..]);
    for bi := 0 to |blocks|
      invariant Counted(counts[..], FuncEdges(blocks, bi))
    {
      var b := blocks[bi];
      ghost var before := FuncEdges(blocks, bi);
      assert before + [] == before;
      for ii := 0 to |b|
        invariant Counted(counts[..], before + BlockEdges(b, ii))
      {
        var inst := b[ii];
        ghost var mid := before + BlockEdges(b, ii);
        assert mid + [] == mid;
        if inst.isPhi {
          for i := 0 to |inst.incoming|
            invariant Counted(counts[..], mid + InstEdges(inst, i))
          {
            var e := Edge(inst.incoming[i].pred, Copy(inst.dest, inst.incoming[i].src));
            CountEdge(counts, e, mid + InstEdges(inst, i));
            assert mid + InstEdges(inst, i + 1) == (mid + InstEdges(inst, i)) + [e];
          }
        }
        NoEdges(inst);
        assert before + BlockEdges(b, ii + 1) == mid + InstEdges(inst, |inst.incoming|);
      }
    }
  }

  method FillAll(blocks: seq<seq<Inst>>, copies: array<seq<Option<Copy>>>, fill: array<nat>)
    requires Filled(copies[..], fill[..], [], FuncEdges(blocks, |blocks|))
    modifies copies, fill
    ensures Filled(copies[..], fill[..], FuncEdges(blocks, |blocks|), FuncEdges(blocks, |blocks|))
  {
    hide Filled;
    ghost var all := FuncEdges(blocks, |blocks|);
    for bi := 0 to |blocks|
      invariant Filled(copies[..], fill[..], FuncEdges(blocks, bi), all)
    {
      var b := blocks[bi];
      ghost var before := FuncEdges(blocks, bi);
      assert before + [] == before;
      for ii := 0 to |b|
        invariant Filled(copies[..], fill[..], before + BlockEdges(b, ii), all)
      {
        var inst := b[ii];
        ghost var mid := before + BlockEdges(b, ii);
        assert mid + [] == mid;
        if inst.isPhi {
          for i := 0 to |inst.incoming|
            invariant Filled(copies[..], fill[..], mid + InstEdges(inst, i), all)
          {
            var e := Edge(inst.incoming[i].pred, Copy(inst.dest, inst.incoming[i].src));
            assert mid + InstEdges(inst, i + 1) == (mid + InstEdges(inst, i)) + [e];
            ghost var more := Remaining(blocks, bi, ii, i + 1);
            FillEdge(copies, fill, e, mid + InstEdges(inst, i), all);
          }
        }
        NoEdges(inst);
        assert before + BlockEdges(b, ii + 1) == mid + InstEdges(inst, |inst.incoming|);
      }
    }
  }

  lemma {:induction false} NothingCounted(counts: seq<nat>)
    requires forall p :: 0 <= p < |counts| ==> counts[p] == 0
    ensures Counted(counts, [])
  {
  }

  lemma {:induction false} NoEdges(inst: Inst)
    ensures !inst.isPhi ==> InstEdges(inst, |inst.incoming|) == []
  {
  }

  /** The edges still to come after position (bi, ii, i) of the traversal. */
  lemma {:induction false} Remaining(blocks: seq<seq<Inst>>, bi: nat, ii: nat, i: nat) returns (more: seq<Edge>)
    requires bi < |blocks| && ii < |blocks[bi]| && i <= |blocks[bi][ii].incoming|
    ensures FuncEdges(blocks, |blocks|) ==
      ((FuncEdges(blocks, bi) + BlockEdges(blocks[bi], ii)) + InstEdges(blocks[bi][ii], i)) + more
  {
    var b, inst := blocks[bi], blocks[bi][ii];
    var m1 := InstSuffix(inst, i, |inst.incoming|);
    var m2 := BlockSuffix(b, ii + 1, |b|);
    var m3 := FuncSuffix(blocks, bi + 1, |blocks|);
    more := m1 + m2 + m3;
    assert FuncEdges(blocks, bi + 1) == FuncEdges(blocks, bi) + BlockEdges(b, |b|);
    assert BlockEdges(b, ii + 1) == BlockEdges(b, ii) + InstEdges(inst, |inst.incoming|);
    hide FuncEdges, BlockEdges, InstEdges;
    Regroup(FuncEdges(blocks, bi), BlockEdges(b, ii), InstEdges(inst, i), m1, m2, m3);
  }

  lemma {:induction false} Regroup(f: seq<Edge>, b: seq<Edge>, i: seq<Edge>, m1: seq<Edge>, m2: seq<Edge>,
                                   m3: seq<Edge>)
    ensures (f + ((b + (i + m1)) + m2)) + m3 == ((f + b) + i) + (m1 + m2 + m3)
  {
  }

  lemma {:induction false} InstSuffix(inst: Inst, i: nat, n: nat) returns (more: seq<Edge>)
    requires i <= n <= |inst.incoming|
    ensures InstEdges(inst, n) == InstEdges(inst, i) + more
    decreases n
  {
    more := [];
    if i < n {
      var m := InstSuffix(inst, i, n - 1);
      more := m + InstEdges(inst, n)[|InstEdges(inst, n - 1)|..];
    }
  }

  lemma {:induction false} BlockSuffix(insts: seq<Inst>, i: nat, n: nat) returns (more: seq<Edge>)
    requires i <= n <= |insts|
    ensures BlockEdges(insts, n) == BlockEdges(insts, i) + more
    decreases n
  {
    more := [];
    if i < n {
      var m := BlockSuffix(insts, i, n - 1);
      more := m + InstEdges(insts[n - 1], |insts[n - 1].incoming|);
    }
  }

  lemma {:induction false} FuncSuffix(blocks: seq<seq<Inst>>, i: nat, n: nat) returns (more: seq<Edge>)
    requires i <= n <= |blocks|
    ensures FuncEdges(blocks, n) == FuncEdges(blocks, i) + more
    decreases n
  {
    more := [];
    if i < n {
      var m := FuncSuffix(blocks, i, n - 1);
      more := m + BlockEdges(blocks[n - 1], |blocks[n - 1]|);
    }
  }
}
