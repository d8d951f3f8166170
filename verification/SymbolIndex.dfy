/**
 Interning of symbol names: a list of names in the order first seen, and a hash index over it
 with linear probing.
 */
module SymbolIndex {
  import opened Wrappers
  import opened Numbers

  // ---------------------------------------------------------------------------
  // Hashing and probing

  /** symbol_hash: FNV-1a on 32 bits. */
  function HashFrom(s: string, h: nat): nat {
    if s == "" then h
    else HashFrom(s[1..], BitXor(h, s[0] as nat % 256) * 16777619 % 0x1_0000_0000)
  }

  function Hash(name: string): nat {
    HashFrom(name, 2166136261)
  }

  /** The slot looked at after j steps. */
  function SlotAt(h: nat, j: nat, cap: nat): (p: nat)
    requires cap > 0
    ensures p < cap
  {
    (h + j) % cap
  }

  lemma {:induction false} NextSlot(h: nat, j: nat, cap: nat)
    requires cap > 0
    ensures (SlotAt(h, j, cap) + 1) % cap == SlotAt(h, j + 1, cap)
  {
    var q, r := (h + j) / cap, (h + j) % cap;
    assert h + j == q * cap + r;
    ModShift(r + 1, q, cap);
    assert r + 1 + q * cap == h + (j + 1);
  }

  /** Every slot is reached within cap steps. */
  lemma {:induction false} AllSlots(h: nat, p: nat, cap: nat) returns (j: nat)
    requires p < cap
    ensures j < cap && SlotAt(h, j, cap) == p
  {
    var r, q := h % cap, h / cap;
    assert h == q * cap + r;
    j := if p >= r then p - r else p + cap - r;
    if p >= r {
      DivModUnique(h + j, cap, q, p);
    } else {
      assert (q + 1) * cap == q * cap + cap;
      DivModUnique(h + j, cap, q + 1, p);
    }
  }

  // ---------------------------------------------------------------------------
  // The index over a list of hashes

  /** Entry i is steps[i] probes from its home, behind occupied slots; nothing else is stored. */
  ghost predicate Placed(index: seq<nat>, hashes: seq<nat>, steps: seq<nat>) {
    && |index| > 0 && |steps| == |hashes|
    && (forall i :: 0 <= i < |steps| ==>
          steps[i] < |index| && index[SlotAt(hashes[i], steps[i], |index|)] == i + 1)
    && (forall i, j: nat :: 0 <= i < |steps| && j < steps[i] ==> index[SlotAt(hashes[i], j, |index|)] != 0)
    && (forall p :: 0 <= p < |index| && index[p] != 0 ==>
          index[p] <= |hashes| && SlotAt(hashes[index[p] - 1], steps[index[p] - 1], |index|) == p)
  }

  /** The first d slots probed for h are occupied. */
  predicate Occupied(index: seq<nat>, h: nat, d: nat)
    requires |index| > 0
  {
    forall j: nat :: j < d ==> index[SlotAt(h, j, |index|)] != 0
  }

  lemma {:induction false} PlaceNext(index: seq<nat>, hashes: seq<nat>, steps: seq<nat>, h: nat, d: nat)
    requires Placed(index, hashes, steps) && d < |index|
    requires Occupied(index, h, d) && index[SlotAt(h, d, |index|)] == 0
    ensures Placed(index[SlotAt(h, d, |index|) := |hashes| + 1], hashes + [h], steps + [d])
  {
    var cap := |index|;
    var p := SlotAt(h, d, cap);
    var index', hashes', steps' := index[p := |hashes| + 1], hashes + [h], steps + [d];
    forall i | 0 <= i < |steps'|
      ensures steps'[i] < cap && index'[SlotAt(hashes'[i], steps'[i], cap)] == i + 1
    {
      if i < |steps| {
        assert index[SlotAt(hashes[i], steps[i], cap)] == i + 1;
      }
    }
    forall i, j: nat | 0 <= i < |steps'| && j < steps'[i]
      ensures index'[SlotAt(hashes'[i], j, cap)] != 0
    {
      if i < |steps| {
        assert index[SlotAt(hashes[i], j, cap)] != 0;
      } else {
        assert index[SlotAt(h, j, cap)] != 0;
      }
    }
  }

  function UsedSlots(hashes: seq<nat>, steps: seq<nat>, cap: nat, n: nat): set<nat>
    requires cap > 0 && n <= |hashes| == |steps|
  {
    if n == 0 then {} else UsedSlots(hashes, steps, cap, n - 1) + {SlotAt(hashes[n - 1], steps[n - 1], cap)}
  }

  lemma {:induction false} UsedSlotsFacts(hashes: seq<nat>, steps: seq<nat>, cap: nat, n: nat)
    requires cap > 0 && n <= |hashes| == |steps|
    ensures |UsedSlots(hashes, steps, cap, n)| <= n
    ensures forall i :: 0 <= i < n ==> SlotAt(hashes[i], steps[i], cap) in UsedSlots(hashes, steps, cap, n)
  {
    if n > 0 {
      UsedSlotsFacts(hashes, steps, cap, n - 1);
    }
  }

  lemma {:induction false} RangeSize(n: nat, s: set<nat>)
    requires forall p: nat {:trigger p in s} :: p < n ==> p in s
    ensures |s| >= n
  {
    if n > 0 {
      var rest := s - {n - 1};
      assert forall p: nat :: p in rest <==> p in s && p != n - 1;
      RangeSize(n - 1, rest);
    }
  }

  /** With fewer entries than slots, probing cannot find all slots occupied. */
  lemma {:induction false} ProbeEnds(index: seq<nat>, hashes: seq<nat>, steps: seq<nat>, h: nat)
    requires Placed(index, hashes, steps) && |hashes| < |index|
    ensures !Occupied(index, h, |index|)
  {
    var cap := |index|;
    if Occupied(index, h, cap) {
      var used := UsedSlots(hashes, steps, cap, |hashes|);
      UsedSlotsFacts(hashes, steps, cap, |hashes|);
      forall p: nat | p < cap ensures p in used {
        var j := AllSlots(h, p, cap);
        assert index[SlotAt(h, j, cap)] != 0;
        var i := index[p] - 1;
        assert SlotAt(hashes[i], steps[i], cap) == p;
      }
      RangeSize(cap, used);
    }
  }

  // ---------------------------------------------------------------------------
  // The list of names

  predicate AllDistinct(names: seq<string>) {
    forall i, j :: 0 <= i < j < |names| ==> names[i] != names[j]
  }

  /** The list after a name has been interned. */
  function Interned(names: seq<string>, name: string): seq<string> {
    if name in names then names else names + [name]
  }

  function InternedAll(names: seq<string>, more: seq<string>): seq<string>
    decreases |more|
  {
    if more == [] then names else InternedAll(Interned(names, more[0]), more[1..])
  }

  /** Over any further interning ids stay what they are, no name gets two ids, and exactly the
      names seen have one. */
  lemma {:induction false} IdsAreStable(names: seq<string>, more: seq<string>)
    requires AllDistinct(names)
    ensures var all := InternedAll(names, more);
      && names <= all && AllDistinct(all)
      && forall s: string :: s in all <==> s in names || s in more
    decreases |more|
  {
    if more != [] {
      IdsAreStable(Interned(names, more[0]), more[1..]);
      assert forall s: string :: s in more <==> s == more[0] || s in more[1..];
    }
  }

  predicate HashesOf(hashes: seq<nat>, names: seq<string>) {
    |hashes| == |names| && forall i :: 0 <= i < |names| ==> hashes[i] == Hash(names[i])
  }

  class SymbolTable {
    var names: seq<string>
    var hashes: seq<nat>
    /** 0 is a free slot, i + 1 stands for id i; null before the first name. */
    var index: array?<nat>
    ghost var steps: seq<nat>
    ghost var bits: nat

    /** At least half of the slots are free. */
    ghost predicate Valid()
      reads this, index
    {
      && AllDistinct(names) && HashesOf(hashes, names)
      && (index == null ==> names == [])
      && (index != null ==> Indexed(index[..]) && 2 * |names| <= index.Length)
    }

    ghost predicate Indexed(slots: seq<nat>)
      reads this
    {
      |slots| == Pow2(bits) && Placed(slots, hashes, steps)
    }

    constructor ()
      ensures Valid() && names == []
    {
      names, hashes, index, steps, bits := [], [], null, [], 0;
    }

    /** Probe from the home slot of h to the first free slot. */
    static method FreeSlot(slots: array<nat>, h: nat, ghost hashes: seq<nat>, ghost steps: seq<nat>, ghost bits: nat)
      returns (slot: nat, ghost d: nat)
      requires slots.Length == Pow2(bits) && Placed(slots[..], hashes, steps) && |hashes| < slots.Length
      ensures d < slots.Length && slot == SlotAt(h, d, slots.Length)
      ensures Occupied(slots[..], h, d) && slots[slot] == 0
    {
      hide Placed, Pow2;
      d := 0;
      BitAndMask(h, bits);
      slot := BitAnd(h, slots.Length - 1);
      while slots[slot] != 0
        invariant d < slots.Length && slot == SlotAt(h, d, slots.Length) && Occupied(slots[..], h, d)
        decreases slots.Length - d
      {
        NextSlot(h, d, slots.Length);
        BitAndMask(slot + 1, bits);
        assert Occupied(slots[..], h, d + 1);
        ProbeEnds(slots[..], hashes, steps, h);
        slot := BitAnd(slot + 1, slots.Length - 1);
        d := d + 1;
      }
    }

    /** symbol_index_rebuild */
    method Rebuild(minSymbols: nat)
      requires AllDistinct(names) && HashesOf(hashes, names) && |names| <= minSymbols
      modifies this`index, this`steps, this`bits
      ensures Valid() && index != null && fresh(index) && 2 * minSymbols <= index.Length
    {
      hide Placed, Pow2;
      var cap := 128;
      bits := 7;
      PowSeven();
      while cap < 2 * minSymbols
        invariant cap == Pow2(bits) && cap >= 128
        decreases 2 * minSymbols - cap
      {
        PowDouble(bits);
        cap := cap * 2;
        bits := bits + 1;
      }
      var slots := new nat[cap](_ => 0);
      ghost var done: seq<nat> := [];
      NothingPlaced(slots[..]);
      for i := 0 to |names|
        invariant |done| == i && slots.Length == cap == Pow2(bits) && Placed(slots[..], hashes[..i], done)
      {
        var slot;
        ghost var d;
        slot, d := FreeSlot(slots, hashes[i], hashes[..i], done, bits);
        PlaceNext(slots[..], hashes[..i], done, hashes[i], d);
        assert hashes[..i] + [hashes[i]] == hashes[..i + 1];
        ghost var before: seq<nat> := slots[..];
        slots[slot] := i + 1;
        assert slots[..] == before[slot := i + 1];
        done := done + [d];
      }
      assert hashes[..|names|] == hashes;
      index, steps := slots, done;
    }

    /** lr_module_find_symbol_id, and the first loop of interning. */
    method Lookup(name: string) returns (id: Option<nat>)
      requires Valid()
      ensures id == None <==> name !in names
      ensures id.Some? ==> id.value < |names| && names[id.value] == name
    {
      hide Placed, Pow2, Hash, SlotAt, NotSeen, AllDistinct, BitAnd;
      if index == null {
        return None;
      }
      ghost var s := index[..];
      var hash := Hash(name);
      ghost var d := 0;
      HomeSlot(hash, index.Length, s, names, name);
      BitAndMask(hash, bits);
      var slot := BitAnd(hash, index.Length - 1);
      while index[slot] != 0
        invariant d < index.Length && slot == SlotAt(hash, d, index.Length) && Occupied(s, hash, d)
        invariant NotSeen(s, names, name, hash, d)
        decreases index.Length - d
      {
        var i := index[slot] - 1;
        StoredIds(s, hashes, steps, slot);
        if hashes[i] == hash && names[i] == name {
          return Some(i);
        }
        NotSeenStep(s, hashes, names, name, d);
        NextSlot(hash, d, index.Length);
        BitAndMask(slot + 1, bits);
        assert Occupied(s, hash, d + 1);
        ProbeEnds(s, hashes, steps, hash);
        slot := BitAnd(slot + 1, index.Length - 1);
        d := d + 1;
      }
      AbsentName(s, hashes, steps, names, name, d);
      return None;
    }

    /** Lookup from outside refuses the empty name. */
    method Find(name: string) returns (id: Option<nat>)
      requires Valid()
      ensures id == None <==> name == "" || name !in names
      ensures id.Some? ==> id.value < |names| && names[id.value] == name
    {
      if name == "" {
        return None;
      }
      id := Lookup(name);
    }

    /** lr_module_intern_symbol */
    method Intern(name: string) returns (id: nat)
      requires Valid()
      modifies this, index
      ensures Valid() && names == Interned(old(names), name)
      ensures id < |names| && names[id] == name
      ensures index != null && (index == old(index) || fresh(index))
    {
      hide Placed, Pow2, Hash;
      if index == null {
        Rebuild(1);
      }
      var known := Lookup(name);
      if known.Some? {
        return known.value;
      }
      if (|names| + 1) * 2 > index.Length {
        Rebuild(|names| + 1);
      }
      var hash := Hash(name);
      var slot;
      ghost var d;
      slot, d := FreeSlot(index, hash, hashes, steps, bits);
      PlaceNext(index[..], hashes, steps, hash, d);
      ghost var before: seq<nat> := index[..];
      id := |names|;
      names := names + [name];
      hashes := hashes + [hash];
      index[slot] := id + 1;
      steps := steps + [d];
      assert index[..] == before[slot := id + 1];
    }
  }

  lemma {:induction false} PowSeven()
    ensures Pow2(7) == 128
  {
  }

  lemma {:induction false} NothingPlaced(slots: seq<nat>)
    requires |slots| > 0 && forall p :: 0 <= p < |slots| ==> slots[p] == 0
    ensures Placed(slots, [], [])
  {
  }

  lemma {:induction false} StoredIds(index: seq<nat>, hashes: seq<nat>, steps: seq<nat>, p: nat)
    requires Placed(index, hashes, steps) && p < |index| && index[p] != 0
    ensures index[p] <= |hashes|
  {
  }

  /** None of the first d slots probed holds the name. */
  predicate NotSeen(index: seq<nat>, names: seq<string>, name: string, h: nat, d: nat)
    requires |index| > 0
  {
    forall j: nat :: j < d && 0 < index[SlotAt(h, j, |index|)] <= |names| ==>
      names[index[SlotAt(h, j, |index|)] - 1] != name
  }

  lemma {:induction false} HomeSlot(h: nat, cap: nat, index: seq<nat>, names: seq<string>, name: string)
    requires cap > 0 && |index| == cap
    ensures SlotAt(h, 0, cap) == h % cap && NotSeen(index, names, name, h, 0)
  {
  }

  lemma {:induction false} AbsentName(index: seq<nat>, hashes: seq<nat>, steps: seq<nat>, names: seq<string>,
                                      name: string,
                                      d: nat)
    requires Placed(index, hashes, steps) && HashesOf(hashes, names)
    requires NotSeen(index, names, name, Hash(name), d) && index[SlotAt(Hash(name), d, |index|)] == 0
    ensures name !in names
  {
    forall i | 0 <= i < |names| ensures names[i] != name {
      AbsentAt(index, hashes, steps, names, name, d, i);
    }
  }

  lemma {:induction false} AbsentAt(index: seq<nat>, hashes: seq<nat>, steps: seq<nat>, names: seq<string>,
                                    name: string,
                                    d: nat, i: nat)
    requires Placed(index, hashes, steps) && HashesOf(hashes, names) && i < |names|
    requires NotSeen(index, names, name, Hash(name), d) && index[SlotAt(Hash(name), d, |index|)] == 0
    ensures names[i] != name
  {
    hide Hash;
    assert hashes[i] == Hash(names[i]);
    assert index[SlotAt(hashes[i], steps[i], |index|)] == i + 1;
    assert d < steps[i] ==> index[SlotAt(hashes[i], d, |index|)] != 0;
    assert hashes[i] == Hash(name) ==> steps[i] < d;
  }

  lemma {:induction false} NotSeenStep(index: seq<nat>, hashes: seq<nat>, names: seq<string>, name: string, d: nat)
    requires |index| > 0 && HashesOf(hashes, names) && NotSeen(index, names, name, Hash(name), d)
    requires var id := index[SlotAt(Hash(name), d, |index|)];
      0 < id <= |names| && !(hashes[id - 1] == Hash(name) && names[id - 1] == name)
    ensures NotSeen(index, names, name, Hash(name), d + 1)
  {
    hide Hash, SlotAt;
  }
}
