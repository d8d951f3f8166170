/**
 The cache of compiled code: buckets by hash, entries compared by the full key, one entry per
 key, everything dropped when the epoch advances.
 */
module CodeCache {
  import opened Wrappers
  import opened Numbers
  import opened Signature
  import opened SignatureShape

  const BUCKETS: nat := 4096

  datatype Key = Key(epoch: nat, target: Text, ptrSize: nat, moduleSig: Text, funcSig: Text)

  /** Code before relocation, and the names it refers to. */
  datatype Stored = Stored(code: Text, relocs: seq<(nat, nat, Text)>)

  datatype CacheEntry = CacheEntry(hash: nat, key: Key, stored: Stored)

  function EpochAfter(epoch: nat): nat {
    if (epoch + 1) % 0x1_0000_0000 == 0 then 1 else (epoch + 1) % 0x1_0000_0000
  }

  /** The entry for a key, in list order. */
  function FindIn(es: seq<CacheEntry>, k: Key): Option<Stored> {
    if es == [] then None else if es[0].key == k then Some(es[0].stored) else FindIn(es[1..], k)
  }

  class Cache {
    /** Any hash function will do. */
    const hashOf: Key -> nat
    var buckets: array<seq<CacheEntry>>
    var epoch: nat
    var hits: nat
    var misses: nat
    var count: nat
    /** What the cache holds, as a map. */
    ghost var contents: map<Key, Stored>

    ghost predicate Valid()
      reads this, buckets
    {
      && buckets.Length == BUCKETS
      && 1 <= epoch < 0x1_0000_0000
      && (forall b, i :: 0 <= b < BUCKETS && 0 <= i < |buckets[b]| ==> EntryOk(b, buckets[b][i]))
      && (forall k :: k in contents ==> FindIn(buckets[hashOf(k) % BUCKETS], k) == Some(contents[k]))
    }

    ghost predicate EntryOk(b: nat, e: CacheEntry)
      reads this
    {
      && e.hash == hashOf(e.key) && b == e.hash % BUCKETS && e.key.epoch == epoch
      && e.key in contents && e.stored.code != []
      && e.key.moduleSig != [] && e.key.funcSig != []
    }

    constructor (hashOf: Key -> nat)
      ensures Valid() && contents == map[] && epoch == 1 && fresh(buckets)
    {
      this.hashOf := hashOf;
      buckets := new seq<CacheEntry>[BUCKETS](_ => []);
      epoch, hits, misses, count := 1, 0, 0, 0;
      contents := map[];
    }

    /** Scan a bucket: the hash is compared first, then the whole key. */
    method Scan(bucket: seq<CacheEntry>, k: Key, hash: nat) returns (found: Option<Stored>)
      requires hash == hashOf(k) && forall i :: 0 <= i < |bucket| ==> bucket[i].hash == hashOf(bucket[i].key)
      ensures found == FindIn(bucket, k)
    {
      for i := 0 to |bucket|
        invariant FindIn(bucket, k) == FindIn(bucket[i..], k)
      {
        assert bucket[i..][1..] == bucket[i + 1..];
        if bucket[i].hash == hash && bucket[i].key == k {
          return Some(bucket[i].stored);
        }
      }
      return None;
    }

    /** materialize_cache_lookup: a hit is what was stored under this very key, and every
        stored key is found, whatever the hash function. */
    method Lookup(target: Text, ptrSize: nat, moduleSig: Text, funcSig: Text, updateStats: bool)
      returns (found: Option<Stored>)
      requires Valid()
      modifies this`hits, this`misses
      ensures Valid()
      ensures var k := Key(epoch, target, ptrSize, moduleSig, funcSig);
        found == if k in contents then Some(contents[k]) else None
      ensures hits + misses == old(hits + misses) + if updateStats then 1 else 0
      ensures hits == old(hits) + if updateStats && found.Some? then 1 else 0
    {
      var k := Key(epoch, target, ptrSize, moduleSig, funcSig);
      if moduleSig == [] || funcSig == [] {
        if k in contents {
          FoundIsMember(buckets[hashOf(k) % BUCKETS], k);
        }
        if updateStats {
          misses := misses + 1;
        }
        return None;
      }
      var hash := hashOf(k);
      var bucket := buckets[hash % BUCKETS];
      found := Scan(bucket, k, hash);
      if found.Some? {
        FoundIsMember(bucket, k);
      }
      if updateStats {
        if found.Some? {
          hits := hits + 1;
        } else {
          misses := misses + 1;
        }
      }
    }

    /** materialize_cache_insert: the first insertion under a key stays. */
    method Insert(target: Text, ptrSize: nat, moduleSig: Text, funcSig: Text, code: Text, relocs: seq<(nat, nat, Text)>)
      returns (ok: bool)
      requires Valid()
      modifies this`count, this`contents, buckets
      ensures Valid()
      ensures ok <==> moduleSig != [] && funcSig != [] && code != []
      ensures var k := Key(epoch, target, ptrSize, moduleSig, funcSig);
        contents == if !ok || k in old(contents) then old(contents) else old(contents)[k := Stored(code, relocs)]
    {
      if moduleSig == [] || funcSig == [] || code == [] {
        return false;
      }
      var k := Key(epoch, target, ptrSize, moduleSig, funcSig);
      var hash := hashOf(k);
      var bucket := buckets[hash % BUCKETS];
      var found := Scan(bucket, k, hash);
      if found.Some? {
        FoundIsMember(bucket, k);
        return true;
      }
      var e := CacheEntry(hash, k, Stored(code, relocs));
      forall q: Key | q != k ensures FindIn([e] + bucket, q) == FindIn(bucket, q) {
        assert ([e] + bucket)[1..] == bucket;
      }
      ghost var b0 := hash % BUCKETS;
      assert k !in contents;
      buckets[hash % BUCKETS] := [e] + bucket;
      contents := contents[k := Stored(code, relocs)];
      count := count + 1;
      assert forall i :: 0 <= i < |bucket| ==> ([e] + bucket)[i + 1] == bucket[i];
      ok := true;
    }

    /** lr_jit_materialize_cache_invalidate_all */
    method InvalidateAll()
      requires Valid()
      modifies this`count, this`contents, this`epoch, buckets
      ensures Valid() && contents == map[] && count == 0
      ensures epoch == EpochAfter(old(epoch)) && epoch != old(epoch)
    {
      for b := 0 to BUCKETS
        invariant buckets.Length == BUCKETS && epoch == old(epoch)
        invariant forall c :: 0 <= c < b ==> buckets[c] == []
      {
        buckets[b] := [];
      }
      count, contents := 0, map[];
      epoch := (epoch + 1) % 0x1_0000_0000;
      if epoch == 0 {
        epoch := 1;
      }
    }
  }

  lemma {:induction false} FoundIsMember(es: seq<CacheEntry>, k: Key)
    requires FindIn(es, k).Some?
    ensures exists i :: 0 <= i < |es| && es[i].key == k
  {
    if es[0].key != k {
      FoundIsMember(es[1..], k);
      var i :| 0 <= i < |es[1..]| && es[1..][i].key == k;
      assert es[i + 1].key == k;
    }
  }

  /** The key under which the code of function f of module m is kept. */
  function KeyOf(epoch: nat, target: Text, ptrSize: nat, m: Module, f: Function): Key {
    Key(epoch, target, ptrSize, ModuleBytes(m), FunctionBytes(f))
  }

  /** A hit means code compiled for the same target, in the same epoch, from the same visible
      function of the same visible module, with the indices at addresses with the same low
      halves; and everything that agrees in these hits. */
  lemma {:induction false} HitIff(epoch: nat, target: Text, ptrSize: nat, m: Module, f: Function,
                                  epoch': nat, target': Text, ptrSize': nat, m': Module, f': Function)
    requires ModuleFits(m) && FunctionFits(f) && ModuleFits(m') && FunctionFits(f')
    ensures KeyOf(epoch, target, ptrSize, m, f) == KeyOf(epoch', target', ptrSize', m', f') <==>
      && epoch == epoch' && target == target' && ptrSize == ptrSize'
      && VisibleModule(m) == VisibleModule(m') && FunctionsAddresses(m.funcs) == FunctionsAddresses(m'.funcs)
      && VisibleFunction(f) == VisibleFunction(f') && Addresses(f) == Addresses(f')
  {
    hide ModuleBytes, FunctionBytes, VisibleModule, VisibleFunction, ModuleFits, FunctionFits, Addresses,
         FunctionsAddresses;
    ModuleSignatureIff(m, m');
    FunctionSignatureIff(f, f');
  }

  /** So code compiled for vectors of two lanes is handed out for vectors of four, and code for
      one calling convention for the other. */
  lemma {:induction false} WrongHits(epoch: nat, target: Text, ptrSize: nat, m: Module, f: Function)
    ensures OnVectors(2) != OnVectors(4)
    ensures KeyOf(epoch, target, ptrSize, m, OnVectors(2)) == KeyOf(epoch, target, ptrSize, m, OnVectors(4))
    ensures f.(usesLlvmAbi := true) != f.(usesLlvmAbi := false)
    ensures KeyOf(epoch, target, ptrSize, m, f.(usesLlvmAbi := true))
      == KeyOf(epoch, target, ptrSize, m, f.(usesLlvmAbi := false))
  {
    hide OnVectors, FunctionBytes;
    LanesCollide(2, 4);
    ConventionsCollide(f);
  }

  /** The module is serialised with its functions, so the convention of the others is not seen
      either. */
  lemma {:induction false} WrongModuleHit(epoch: nat, target: Text, ptrSize: nat, m: Module, f: Function, i: nat)
    requires i < |m.funcs|
    ensures var g := m.funcs[i];
      KeyOf(epoch, target, ptrSize, m.(funcs := m.funcs[i := g.(usesLlvmAbi := !g.usesLlvmAbi)]), f)
      == KeyOf(epoch, target, ptrSize, m, f)
  {
    hide FunctionBytes, FunctionsBytes, GlobalsBytes;
    var g := m.funcs[i];
    ConventionsCollide(g);
    OneFunction(m.funcs, i, g.(usesLlvmAbi := !g.usesLlvmAbi));
  }

  lemma {:induction false} OneFunction(fs: seq<Function>, i: nat, g: Function)
    requires i < |fs| && FunctionBytes(g) == FunctionBytes(fs[i])
    ensures FunctionsBytes(fs[i := g]) == FunctionsBytes(fs)
  {
    hide FunctionBytes;
    if i > 0 {
      OneFunction(fs[1..], i - 1, g);
      assert fs[i := g][1..] == fs[1..][i - 1 := g];
    } else {
      assert fs[i := g][1..] == fs[1..];
    }
  }

  /** And code of a function is not found for a copy of it. */
  lemma {:induction false} MissedCopy(epoch: nat, target: Text, ptrSize: nat, m: Module)
    ensures IsCopy(Extracting(4096), Extracting(8192))
    ensures KeyOf(epoch, target, ptrSize, m, Extracting(4096)) != KeyOf(epoch, target, ptrSize, m, Extracting(8192))
  {
    hide Extracting, FunctionBytes, IsCopy;
    CopiesDiffer(4096, 8192);
  }
}
