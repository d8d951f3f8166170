/**
 Lazy materialisation of jitted functions, as values: the state of the symbol tables and of
 the emitted code, what a name resolves to, and what every state must satisfy.
 */
module LazyWorld {
  type Name = string

  /** 0 is the null address. */
  type Addr = nat

  datatype State = Pending | Compiling | Ready

  datatype DataReloc = DataReloc(offset: nat, target: Name, addend: int)

  datatype Global = Global(name: Name, size: nat, relocs: seq<DataReloc>)

  /** A lazily registered function; address is its code while it is being compiled. */
  datatype Entry = Entry(globals: seq<Global>, state: State, address: Addr)

  /** Emitted code of one function: the names it refers to, and the addresses patched in. */
  datatype Piece = Piece(name: Name, targets: seq<Name>, slots: seq<Addr>)

  /** A host symbol provider. */
  datatype Provider = Provider(table: map<Name, Addr>, skipWhenMissed: bool, cacheResult: bool)

  /** givenUp counts the functions that went back to pending, skipped the data relocations whose
      failed materialisation was passed over; loose holds the names that lost their meaning while a ready function
      referred to them. */
  datatype World = World(
    entries: map<Name, Entry>,
    symbols: map<Name, Addr>,
    misses: set<Name>,
    providers: seq<Provider>,
    pieces: map<Addr, Piece>,
    codeEnd: Addr,
    depth: nat,
    givenUp: nat,
    skipped: nat,
    loose: set<Name>)

  function FromProviders(ps: seq<Provider>, n: Name): Addr {
    if ps == [] then 0
    else if n in ps[0].table && ps[0].table[n] != 0 then ps[0].table[n]
    else FromProviders(ps[1..], n)
  }

  /** What a name stands for; independent of the miss cache. */
  function Resolve(w: World, n: Name): Addr {
    if n in w.entries && w.entries[n].state == Compiling then w.entries[n].address
    else if n in w.entries && w.entries[n].state == Pending then 0
    else if n in w.symbols then w.symbols[n]
    else FromProviders(w.providers, n)
  }

  predicate IsReady(w: World, f: Name) {
    f in w.entries && w.entries[f].state == Ready
  }

  predicate IsCompiling(w: World, f: Name) {
    f in w.entries && w.entries[f].state == Compiling
  }

  function PendingSet(w: World): set<Name> {
    set f | f in w.entries && w.entries[f].state == Pending
  }

  // ---------------------------------------------------------------------------
  // Invariants

  predicate HasPiece(w: World, f: Name, at: Addr) {
    at in w.pieces && w.pieces[at].name == f && |w.pieces[at].slots| == |w.pieces[at].targets|
  }

  predicate CodeInside(w: World) {
    w.codeEnd != 0 && forall a :: a in w.pieces ==> 0 < a < w.codeEnd
  }

  predicate CompilingHasCode(w: World) {
    forall f :: f in w.entries && w.entries[f].state == Compiling ==>
      w.entries[f].address != 0 && HasPiece(w, f, w.entries[f].address)
  }

  predicate ReadyHasCode(w: World) {
    forall f :: f in w.entries && w.entries[f].state == Ready ==>
      f in w.symbols && HasPiece(w, f, w.symbols[f])
      && forall i :: 0 <= i < |w.pieces[w.symbols[f]].slots| ==> w.pieces[w.symbols[f]].slots[i] != 0
  }

  predicate OthersHaveNoAddress(w: World) {
    forall f :: f in w.entries && w.entries[f].state != Compiling ==> w.entries[f].address == 0
  }

  predicate MissesAreMisses(w: World) {
    forall n :: n in w.misses && n !in w.entries ==> FromProviders(w.providers, n) == 0
  }

  /** Every address patched into the code of f is what its target resolves to; nothing is said
      of the names in except. */
  predicate Bound(w: World, f: Name, except: set<Name>)
    requires f in w.symbols && HasPiece(w, f, w.symbols[f])
  {
    forall i :: 0 <= i < |w.pieces[w.symbols[f]].targets| ==>
      || w.pieces[w.symbols[f]].targets[i] in except
      || w.pieces[w.symbols[f]].slots[i] == Resolve(w, w.pieces[w.symbols[f]].targets[i])
  }

  predicate AllBound(w: World, except: set<Name>)
    requires ReadyHasCode(w)
  {
    forall f :: f in w.entries && w.entries[f].state == Ready ==> Bound(w, f, except)
  }

  predicate Valid(w: World) {
    && CodeInside(w) && CompilingHasCode(w) && ReadyHasCode(w) && MissesAreMisses(w)
    && OthersHaveNoAddress(w) && AllBound(w, w.loose)
    && (w.depth == 0 ==> forall f :: f in w.entries ==> w.entries[f].state != Compiling)
  }

  /** g is ready and refers to f. */
  predicate Refers(w: World, g: Name, f: Name) {
    IsReady(w, g) && g in w.symbols && w.symbols[g] in w.pieces && f in w.pieces[w.symbols[g]].targets
  }

  predicate Referred(w: World, f: Name) {
    exists g :: g in w.entries && Refers(w, g, f)
  }

  /** b comes after a: no function was registered, none that was ready is so no longer, the
      ones being compiled are the same, code other than the piece at own is the same, and what
      other names stand for is the same. */
  ghost predicate Follows(a: World, b: World, own: Addr) {
    EntriesFollow(a, b) && CodeFollows(a, b, own) && LoosensBy(a, b) && OthersFollow(a, b)
  }

  ghost predicate OthersFollow(a: World, b: World) {
    forall n: Name :: n !in a.entries ==> Resolve(b, n) == Resolve(a, n)
  }

  predicate EntriesFollow(a: World, b: World) {
    && b.entries.Keys == a.entries.Keys && b.providers == a.providers && b.depth == a.depth
    && (forall f :: f in a.entries ==> (b.entries[f].state == Compiling <==> a.entries[f].state == Compiling))
    && (forall f :: f in a.entries && a.entries[f].state == Compiling ==> b.entries[f] == a.entries[f])
    && (forall f :: f in a.entries ==> b.entries[f].globals == a.entries[f].globals)
    && (forall f :: f in a.entries && a.entries[f].state == Ready ==>
          b.entries[f].state == Ready && f in a.symbols && f in b.symbols && b.symbols[f] == a.symbols[f])
  }

  predicate CodeFollows(a: World, b: World, own: Addr) {
    && (forall p :: p in a.pieces && p != own ==> p in b.pieces && b.pieces[p] == a.pieces[p])
    && (own in a.pieces ==> own in b.pieces && b.pieces[own].(slots := a.pieces[own].slots) == a.pieces[own])
    && a.codeEnd <= b.codeEnd
  }

  /** Names come loose only when functions are given up, and only names of such functions. */
  predicate LoosensBy(a: World, b: World) {
    && a.givenUp <= b.givenUp && a.skipped <= b.skipped && a.loose <= b.loose
    && (b.givenUp == a.givenUp ==> b.loose == a.loose)
    && (forall f :: f in b.loose ==> f in a.loose || f in PendingSet(a))
  }

  /** No module has data relocations. */
  predicate NoData(w: World) {
    forall f :: f in w.entries ==> NoRelocs(w.entries[f].globals)
  }

  predicate NoRelocs(globals: seq<Global>) {
    forall i :: 0 <= i < |globals| ==> globals[i].relocs == []
  }

  lemma {:induction false} FollowsTransitive(a: World, b: World, c: World, own: Addr)
    requires Follows(a, b, own) && Follows(b, c, own)
    ensures Follows(a, c, own)
  {
  }

  lemma {:induction false} FollowsWeaken(a: World, b: World, own: Addr)
    requires Follows(a, b, 0) && 0 !in a.pieces
    ensures Follows(a, b, own)
  {
  }

  lemma {:induction false} PendingShrinks(a: World, b: World, own: Addr)
    requires Follows(a, b, own)
    ensures PendingSet(b) <= PendingSet(a) && |PendingSet(b)| <= |PendingSet(a)|
  {
    SubsetSize(PendingSet(b), PendingSet(a));
  }

  lemma {:induction false} SubsetSize(s: set<Name>, t: set<Name>)
    requires s <= t
    ensures |s| <= |t|
    ensures s != t ==> |s| < |t|
  {
    assert t == s + (t - s);
    assert s != t ==> t - s != {};
  }

  // ---------------------------------------------------------------------------
  // Transitions

  /** A result of a provider is remembered as a symbol. */
  lemma {:induction false} CacheResult(w: World, n: Name)
    requires Valid(w) && n !in w.entries && n !in w.symbols
    ensures var w' := w.(symbols := w.symbols[n := FromProviders(w.providers, n)]);
      Valid(w') && Follows(w, w', 0) && forall m: Name :: Resolve(w', m) == Resolve(w, m)
  {
    var w' := w.(symbols := w.symbols[n := FromProviders(w.providers, n)]);
    SameResolve(w, w');
  }

  lemma {:induction false} CacheMiss(w: World, n: Name)
    requires Valid(w) && (n in w.entries || FromProviders(w.providers, n) == 0)
    ensures var w' := w.(misses := w.misses + {n});
      Valid(w') && Follows(w, w', 0) && forall m: Name :: Resolve(w', m) == Resolve(w, m)
  {
    var w' := w.(misses := w.misses + {n});
    SameResolve(w, w');
  }

  /** Bindings survive when code, readiness and resolution are the same. */
  lemma {:induction false} SameResolve(w: World, w': World)
    requires ReadyHasCode(w) && ReadyHasCode(w') && w'.entries == w.entries && w'.pieces == w.pieces
    requires forall f :: f in w.entries && w.entries[f].state == Ready ==> w'.symbols[f] == w.symbols[f]
    requires forall m: Name :: Resolve(w', m) == Resolve(w, m)
    ensures forall except: set<Name> :: AllBound(w, except) ==> AllBound(w', except)
  {
    forall except: set<Name> | AllBound(w, except) ensures AllBound(w', except) {
      forall f | f in w'.entries && w'.entries[f].state == Ready ensures Bound(w', f, except) {
        assert Bound(w, f, except);
      }
    }
  }

  /** The code of f is in place; f is being compiled. */
  function Placed(w: World, f: Name, len: nat, targets: seq<Name>): World
    requires f in w.entries
  {
    w.(entries := w.entries[f := w.entries[f].(state := Compiling, address := w.codeEnd)],
       pieces := w.pieces[w.codeEnd := Piece(f, targets, seq(|targets|, _ => 0))],
       codeEnd := w.codeEnd + len)
  }

  lemma {:induction false} PlacedValid(w: World, f: Name, len: nat, targets: seq<Name>)
    requires Valid(w) && w.depth > 0 && f in PendingSet(w) && len > 0
    ensures Valid(Placed(w, f, len, targets))
    ensures PendingSet(Placed(w, f, len, targets)) == PendingSet(w) - {f}
  {
    var w' := Placed(w, f, len, targets);
    forall g | g in w'.entries && w'.entries[g].state == Ready
      ensures Bound(w', g, w'.loose)
    {
      assert Bound(w, g, w.loose);
      var p := w.pieces[w.symbols[g]];
      forall i | 0 <= i < |p.targets| && p.targets[i] !in w.loose ensures p.slots[i] == Resolve(w', p.targets[i]) {
        assert p.slots[i] != 0;
      }
    }
  }

  function Patch(w: World, at: Addr, i: nat, a: Addr): World
    requires at in w.pieces && i < |w.pieces[at].slots|
  {
    w.(pieces := w.pieces[at := w.pieces[at].(slots := w.pieces[at].slots[i := a])])
  }

  /** Patching code that is still being compiled disturbs nothing. */
  lemma {:induction false} PatchValid(w: World, f: Name, i: nat, a: Addr)
    requires Valid(w) && IsCompiling(w, f) && i < |w.pieces[w.entries[f].address].slots|
    ensures var w' := Patch(w, w.entries[f].address, i, a);
      Valid(w') && Follows(w, w', w.entries[f].address) && forall m: Name :: Resolve(w', m) == Resolve(w, m)
  {
    var at := w.entries[f].address;
    var w' := Patch(w, at, i, a);
    assert HasPiece(w, f, at);
    forall g | g in w'.entries && w'.entries[g].state == Ready
      ensures Bound(w', g, w'.loose)
    {
      assert Bound(w, g, w.loose) && HasPiece(w, g, w.symbols[g]);
      assert w.symbols[g] != at;
    }
  }

  predicate Patched(w: World, at: Addr, k: nat)
    requires at in w.pieces && |w.pieces[at].slots| == |w.pieces[at].targets|
  {
    && k <= |w.pieces[at].targets|
    && forall i :: 0 <= i < k ==>
         w.pieces[at].slots[i] != 0 && w.pieces[at].slots[i] == Resolve(w, w.pieces[at].targets[i])
  }

  /** The function becomes ready. */
  function Finished(w: World, f: Name): World
    requires f in w.entries
  {
    w.(symbols := w.symbols[f := w.entries[f].address],
       entries := w.entries[f := w.entries[f].(state := Ready, address := 0)])
  }

  lemma {:induction false} FinishedValid(w: World, f: Name)
    requires Valid(w) && IsCompiling(w, f) && w.depth > 0
    requires Patched(w, w.entries[f].address, |w.pieces[w.entries[f].address].targets|)
    ensures Valid(Finished(w, f))
    ensures forall m: Name :: Resolve(Finished(w, f), m) == Resolve(w, m)
    ensures PendingSet(Finished(w, f)) == PendingSet(w)
  {
    var w' := Finished(w, f);
    forall m: Name ensures Resolve(w', m) == Resolve(w, m) {
    }
    forall g | g in w'.entries && w'.entries[g].state == Ready
      ensures Bound(w', g, w'.loose)
    {
      if g != f {
        assert Bound(w, g, w.loose);
      }
    }
  }

  /** The function goes back to pending, and its name comes loose if a ready function refers to
      it. */
  function Abandoned(w: World, f: Name): World
    requires f in w.entries
  {
    w.(entries := w.entries[f := w.entries[f].(state := Pending, address := 0)],
       givenUp := w.givenUp + 1,
       loose := if Referred(w, f) then w.loose + {f} else w.loose)
  }

  lemma {:induction false} AbandonedValid(w: World, f: Name)
    requires Valid(w) && f in w.entries && !IsReady(w, f)
    ensures Valid(Abandoned(w, f))
  {
    var w' := Abandoned(w, f);
    forall g | g in w'.entries && w'.entries[g].state == Ready
      ensures Bound(w', g, w'.loose)
    {
      assert Bound(w, g, w.loose);
      assert f in w.pieces[w.symbols[g]].targets ==> Refers(w, g, f);
    }
  }

  /** Giving up a function that is being compiled leaves all bindings right exactly if no ready
      function refers to it. */
  lemma {:induction false} AbandonKeepsBindingsIff(w: World, f: Name)
    requires Valid(w) && AllBound(w, {}) && IsCompiling(w, f)
    ensures ReadyHasCode(Abandoned(w, f))
    ensures AllBound(Abandoned(w, f), {}) <==> !Referred(w, f)
  {
    var w' := Abandoned(w, f);
    AbandonedValid(w, f);
    if Referred(w, f) {
      var g :| g in w.entries && Refers(w, g, f);
      var p := w.pieces[w.symbols[g]];
      var i :| 0 <= i < |p.targets| && p.targets[i] == f;
      assert p.slots[i] != 0 && Resolve(w', f) == 0;
      assert !Bound(w', g, {});
    } else {
      forall g | g in w'.entries && w'.entries[g].state == Ready ensures Bound(w', g, {}) {
        assert Bound(w, g, {}) && !Refers(w, g, f);
      }
    }
  }

  // ---------------------------------------------------------------------------
  // Registering

  /** A name registered again starts over, and comes loose if a ready function refers to it. */
  function Registered(w: World, f: Name, globals: seq<Global>): World {
    w.(entries := w.entries[f := Entry(globals, Pending, 0)],
       misses := if f in w.symbols then w.misses else w.misses + {f},
       loose := if Referred(w, f) then w.loose + {f} else w.loose)
  }

  lemma {:induction false} RegisteredValid(w: World, f: Name, globals: seq<Global>)
    requires Valid(w) && w.depth == 0
    ensures Valid(Registered(w, f, globals))
  {
    var w' := Registered(w, f, globals);
    forall g | g in w'.entries && w'.entries[g].state == Ready
      ensures Bound(w', g, w'.loose)
    {
      assert Bound(w, g, w.loose);
      assert f in w.pieces[w.symbols[g]].targets ==> Refers(w, g, f);
    }
  }

  /** Registering the names of a module, in order. */
  function RegisteredAll(w: World, names: seq<Name>, globals: seq<Global>): World {
    if names == [] then w
    else Registered(RegisteredAll(w, names[..|names| - 1], globals), names[|names| - 1], globals)
  }

  /** All the names are pending and the rest is as before; a name comes loose only if a ready
      function referred to it, and does so if that function is not registered anew. */
  lemma {:induction false} RegisteredAllFacts(w: World, names: seq<Name>, globals: seq<Global>)
    ensures var w' := RegisteredAll(w, names, globals);
      && w'.symbols == w.symbols && w'.pieces == w.pieces && w'.depth == w.depth && w'.providers == w.providers
      && w'.givenUp == w.givenUp && w'.skipped == w.skipped
      && (forall n: Name :: n in w'.entries <==> n in w.entries || n in names)
      && (forall n: Name :: n in names ==> w'.entries[n] == Entry(globals, Pending, 0))
      && (forall n: Name :: n in w.entries && n !in names ==> w'.entries[n] == w.entries[n])
      && w.loose <= w'.loose
      && (forall n: Name :: n in w'.loose ==> n in w.loose || (n in names && Referred(w, n)))
      && (forall n: Name, g: Name :: n in names && g in w.entries && g !in names && Refers(w, g, n) ==> n in w'.loose)
    decreases |names|
  {
    if names != [] {
      var init, last := names[..|names| - 1], names[|names| - 1];
      RegisteredAllFacts(w, init, globals);
      assert names == init + [last];
      var mid := RegisteredAll(w, init, globals);
      forall g: Name | g in mid.entries && Refers(mid, g, last) ensures Refers(w, g, last) {
      }
      forall g: Name | g in w.entries && g !in names && Refers(w, g, last) ensures Refers(mid, g, last) {
      }
    }
  }

  // ---------------------------------------------------------------------------
  // Closure

  /** Each function on the path refers to the next. */
  predicate CodePath(w: World, path: seq<Name>) {
    && path != []
    && (forall k :: 0 <= k < |path| ==> path[k] in w.entries)
    && (forall k :: 0 <= k < |path| - 1 ==>
          path[k] in w.symbols && w.symbols[path[k]] in w.pieces
          && path[k + 1] in w.pieces[w.symbols[path[k]]].targets)
  }

  /** Every reference from f to g holds the address of g. */
  predicate BoundTo(w: World, f: Name, g: Name) {
    && f in w.symbols && g in w.symbols && HasPiece(w, f, w.symbols[f])
    && forall i :: 0 <= i < |w.pieces[w.symbols[f]].targets| && w.pieces[w.symbols[f]].targets[i] == g ==>
         w.pieces[w.symbols[f]].slots[i] == w.symbols[g]
  }

  /** Between outermost calls, everything reachable by relocations from a ready function
      without passing a loose name is ready, and the reference holds the address of its code. */
  lemma {:induction false} ReachableIsReady(w: World, path: seq<Name>)
    requires Valid(w) && w.depth == 0
    requires CodePath(w, path) && IsReady(w, path[0])
    requires forall k :: 0 < k < |path| ==> path[k] !in w.loose
    ensures forall k :: 0 <= k < |path| ==> IsReady(w, path[k]) && HasPiece(w, path[k], w.symbols[path[k]])
    ensures forall k :: 0 <= k < |path| - 1 ==> BoundTo(w, path[k], path[k + 1])
  {
    if |path| > 1 {
      var f, g := path[0], path[1];
      assert Bound(w, f, w.loose);
      var p := w.pieces[w.symbols[f]];
      var i :| 0 <= i < |p.targets| && p.targets[i] == g;
      assert p.slots[i] != 0 && p.slots[i] == Resolve(w, g);
      assert IsReady(w, g);
      var rest := path[1..];
      assert CodePath(w, rest) by {
        forall k | 0 <= k < |rest| - 1
          ensures rest[k] in w.symbols && w.symbols[rest[k]] in w.pieces
          ensures rest[k + 1] in w.pieces[w.symbols[rest[k]]].targets
        {
          assert rest[k] == path[k + 1] && rest[k + 1] == path[k + 2];
        }
      }
      ReachableIsReady(w, rest);
      forall k | 0 <= k < |path|
        ensures IsReady(w, path[k]) && HasPiece(w, path[k], w.symbols[path[k]])
      {
        assert k > 0 ==> path[k] == rest[k - 1];
      }
    }
    forall k | 0 <= k < |path| - 1 ensures BoundTo(w, path[k], path[k + 1]) {
      assert Bound(w, path[k], w.loose);
      assert IsReady(w, path[k + 1]);
    }
  }

  // ---------------------------------------------------------------------------
  // Runs

  /** The moves of a run.  Remember and Miss are what lookups leave behind, Refuse is a failed
      compilation, PassOver a failure that a data relocation ignores. */
  datatype Move =
    | Register(names: seq<Name>, globals: seq<Global>)
    | Enter
    | Place(f: Name, len: nat, targets: seq<Name>)
    | PatchSlot(f: Name, i: nat)
    | Finish(f: Name)
    | GiveUp(f: Name)
    | Leave
    | Remember(n: Name)
    | Miss(n: Name)
    | Refuse
    | PassOver

  predicate HasSlot(w: World, f: Name, i: nat) {
    IsCompiling(w, f) && HasPiece(w, f, w.entries[f].address) && i < |w.pieces[w.entries[f].address].slots|
  }

  predicate Allowed(w: World, m: Move) {
    match m
    case Register(_, _) => w.depth == 0
    case Enter => true
    case Place(f, len, _) => w.depth > 0 && f in PendingSet(w) && len > 0
    case PatchSlot(f, i) => HasSlot(w, f, i) && Resolve(w, w.pieces[w.entries[f].address].targets[i]) != 0
    case Finish(f) =>
      && w.depth > 0 && IsCompiling(w, f) && HasPiece(w, f, w.entries[f].address)
      && Patched(w, w.entries[f].address, |w.pieces[w.entries[f].address].targets|)
    case GiveUp(f) => IsCompiling(w, f)
    case Remember(n) => n !in w.entries && n !in w.symbols && FromProviders(w.providers, n) != 0
    case Miss(n) => n in w.entries || FromProviders(w.providers, n) == 0
    case Refuse => true
    case PassOver => true
    case Leave => w.depth > 0 && (w.depth == 1 ==> forall f :: f in w.entries ==> !IsCompiling(w, f))
  }

  function Apply(w: World, m: Move): World
    requires Allowed(w, m)
  {
    match m
    case Register(names, globals) => RegisteredAll(w, names, globals)
    case Enter => w.(depth := w.depth + 1)
    case Place(f, len, targets) => Placed(w, f, len, targets)
    case PatchSlot(f, i) =>
      Patch(w, w.entries[f].address, i, Resolve(w, w.pieces[w.entries[f].address].targets[i]))
    case Finish(f) => Finished(w, f)
    case GiveUp(f) => Abandoned(w, f)
    case Remember(n) => w.(symbols := w.symbols[n := FromProviders(w.providers, n)])
    case Miss(n) => w.(misses := w.misses + {n})
    case Refuse => w.(givenUp := w.givenUp + 1)
    case PassOver => w.(skipped := w.skipped + 1)
    case Leave => w.(depth := w.depth - 1)
  }

  predicate IsRun(w: World, moves: seq<Move>)
    decreases |moves|
  {
    moves == [] || (Allowed(w, moves[0]) && IsRun(Apply(w, moves[0]), moves[1..]))
  }

  function After(w: World, moves: seq<Move>): World
    requires IsRun(w, moves)
    decreases |moves|
  {
    if moves == [] then w else After(Apply(w, moves[0]), moves[1..])
  }

  lemma {:induction false} RegisteredAllValid(w: World, names: seq<Name>, globals: seq<Global>)
    requires Valid(w) && w.depth == 0
    ensures Valid(RegisteredAll(w, names, globals))
    decreases |names|
  {
    hide Valid;
    if names != [] {
      RegisteredAllValid(w, names[..|names| - 1], globals);
      RegisteredAllFacts(w, names[..|names| - 1], globals);
      RegisteredValid(RegisteredAll(w, names[..|names| - 1], globals), names[|names| - 1], globals);
    }
  }

  lemma {:induction false} ApplyValid(w: World, m: Move)
    requires Valid(w) && Allowed(w, m)
    ensures Valid(Apply(w, m))
    ensures !m.GiveUp? && !m.Register? ==> Apply(w, m).loose == w.loose
  {
    match m
    case Register(names, globals) => RegisteredAllValid(w, names, globals);
    case Enter => SameResolve(w, Apply(w, m));
    case Place(f, len, targets) => PlacedValid(w, f, len, targets);
    case PatchSlot(f, i) => PatchValid(w, f, i, Resolve(w, w.pieces[w.entries[f].address].targets[i]));
    case Finish(f) => FinishedValid(w, f);
    case GiveUp(f) => AbandonedValid(w, f);
    case Remember(n) => CacheResult(w, n);
    case Miss(n) => CacheMiss(w, n);
    case Refuse => SameResolve(w, Apply(w, m));
    case PassOver => SameResolve(w, Apply(w, m));
    case Leave => SameResolve(w, Apply(w, m));
  }

  /** Over every run the bindings outside the loose names are right; a run that registers
      nothing and gives nothing up loosens none. */
  lemma {:induction false} RunValid(w: World, moves: seq<Move>)
    requires Valid(w) && IsRun(w, moves)
    ensures Valid(After(w, moves))
    ensures (forall m :: m in moves ==> !m.GiveUp? && !m.Register?) ==> After(w, moves).loose == w.loose
    decreases |moves|
  {
    if moves != [] {
      hide Valid, Allowed, Apply;
      ApplyValid(w, moves[0]);
      RunValid(Apply(w, moves[0]), moves[1..]);
    }
  }

  /** Some run leads from one world to the other. */
  ghost predicate Reaches(a: World, b: World) {
    exists moves :: Leads(a, moves, b)
  }

  ghost predicate Leads(a: World, moves: seq<Move>, b: World) {
    IsRun(a, moves) && After(a, moves) == b
  }

  lemma {:induction false} ReachesSelf(w: World)
    ensures Reaches(w, w)
  {
    assert Leads(w, [], w);
  }

  lemma {:induction false} ReachesOne(w: World, m: Move)
    requires Allowed(w, m)
    ensures Reaches(w, Apply(w, m))
  {
    hide Allowed, Apply;
    var w' := Apply(w, m);
    assert [m][0] == m && [m][1..] == [];
    assert IsRun(w', []) && After(w', []) == w';
    assert Leads(w, [m], w');
  }

  lemma {:induction false} JoinRuns(a: World, b: World, xs: seq<Move>, ys: seq<Move>)
    requires Leads(a, xs, b) && IsRun(b, ys)
    ensures Leads(a, xs + ys, After(b, ys))
    decreases |xs|
  {
    hide Allowed, Apply;
    if xs == [] {
      assert [] + ys == ys;
    } else {
      JoinRuns(Apply(a, xs[0]), b, xs[1..], ys);
      assert (xs + ys)[0] == xs[0] && (xs + ys)[1..] == xs[1..] + ys;
    }
  }

  lemma {:induction false} ReachesJoin(a: World, b: World, c: World)
    requires Reaches(a, b) && Reaches(b, c)
    ensures Reaches(a, c)
  {
    var xs :| Leads(a, xs, b);
    var ys :| Leads(b, ys, c);
    JoinRuns(a, b, xs, ys);
    hide IsRun, After;
  }

  /** Worlds of the run below: two functions of a module without data, f at 1 and g at 2. */
  function Two(f: State, atF: Addr, g: State, atG: Addr, pieces: map<Addr, Piece>, codeEnd: Addr, depth: nat): World {
    World(map["f" := Entry([], f, atF), "g" := Entry([], g, atG)], if g == Ready then map["g" := 2] else map[],
          {"f", "g"}, [], pieces, codeEnd, depth, 0, 0, {})
  }

  const START := World(map[], map[], {}, [], map[], 1, 0, 0, 0, {})

  const END := World(map["f" := Entry([], Pending, 0), "g" := Entry([], Ready, 0)], map["g" := 2], {"f", "g"}, [],
                     map[1 := F1, 2 := G1], 3, 0, 1, 0, {"f"})

  // The code of f and of g, before and after its first slot is patched
  const F0 := Piece("f", ["g", "x"], [0, 0])
  const F1 := Piece("f", ["g", "x"], [2, 0])
  const G0 := Piece("g", ["f"], [0])
  const G1 := Piece("g", ["f"], [1])

  /** f refers to g and to a name nobody knows, g refers to f: g becomes ready while f is being
      compiled, then f is given up. */
  function BrokenRun(): (moves: seq<Move>)
    ensures |moves| == 11
  {
    [Register(["f", "g"], []), Enter, Place("f", 1, ["g", "x"]), Enter, Place("g", 1, ["f"]), PatchSlot("g", 0),
     Finish("g"), Leave, PatchSlot("f", 0), GiveUp("f"), Leave]
  }

  function BrokenWorld(k: nat): World {
    match k
    case 0 => START
    case 1 => Two(Pending, 0, Pending, 0, map[], 1, 0)
    case 2 => Two(Pending, 0, Pending, 0, map[], 1, 1)
    case 3 => Two(Compiling, 1, Pending, 0, map[1 := F0], 2, 1)
    case 4 => Two(Compiling, 1, Pending, 0, map[1 := F0], 2, 2)
    case 5 => Two(Compiling, 1, Compiling, 2, map[1 := F0, 2 := G0], 3, 2)
    case 6 => Two(Compiling, 1, Compiling, 2, map[1 := F0, 2 := G1], 3, 2)
    case 7 => Two(Compiling, 1, Ready, 0, map[1 := F0, 2 := G1], 3, 2)
    case 8 => Two(Compiling, 1, Ready, 0, map[1 := F0, 2 := G1], 3, 1)
    case 9 => Two(Compiling, 1, Ready, 0, map[1 := F1, 2 := G1], 3, 1)
    case 10 => END.(depth := 1)
    case _ => END
  }

  predicate BrokenStep(k: nat)
    requires k < 11
  {
    Allowed(BrokenWorld(k), BrokenRun()[k]) && Apply(BrokenWorld(k), BrokenRun()[k]) == BrokenWorld(k + 1)
  }

  lemma {:induction false} RegisterLeads()
    ensures BrokenStep(0)
  {
    assert ["f", "g"][..1] == ["f"] && ["f"][..0] == [];
    var w := RegisteredAll(START, ["f"], []);
    assert RegisteredAll(START, [], []) == START;
    assert w == Registered(START, "f", []) && w.misses == {"f"};
    assert RegisteredAll(START, ["f", "g"], []) == Registered(w, "g", []);
    assert Registered(w, "g", []).misses == {"f", "g"};
  }

  lemma {:induction false} PlaceLeads()
    ensures BrokenStep(2) && BrokenStep(4)
  {
    assert seq(2, _ => 0) == [0, 0];
    assert seq(1, _ => 0) == [0];
  }

  lemma {:induction false} PatchLeads()
    ensures BrokenStep(5) && BrokenStep(8)
  {
    assert [0][0 := 1] == [1];
    assert [0, 0][0 := 2] == [2, 0];
  }

  lemma {:induction false} FinishLeads()
    ensures BrokenStep(6)
  {
  }

  lemma {:induction false} GiveUpLeads()
    ensures BrokenStep(9)
  {
    assert Refers(BrokenWorld(9), "g", "f");
  }

  lemma {:induction false} EnterLeads()
    ensures BrokenStep(1) && BrokenStep(3)
  {
  }

  lemma {:induction false} LeaveLeads()
    ensures BrokenStep(7)
  {
    hide Apply;
    LeftIs(BrokenWorld(7));
  }

  lemma {:induction false} LastLeads()
    ensures BrokenStep(10)
  {
    hide Apply;
    LeftIs(BrokenWorld(10));
  }

  lemma {:induction false} LeftIs(w: World)
    requires Allowed(w, Leave)
    ensures Apply(w, Leave) == w.(depth := w.depth - 1)
  {
  }

  lemma {:induction false} BrokenFrom(k: nat)
    requires k <= 11
    ensures IsRun(BrokenWorld(k), BrokenRun()[k..]) && After(BrokenWorld(k), BrokenRun()[k..]) == END
    decreases 11 - k
  {
    hide Allowed, Apply, BrokenRun;
    if k < 11 {
      assert BrokenStep(k) by {
        hide BrokenStep;
        RegisterLeads();
        EnterLeads();
        LeaveLeads();
        LastLeads();
        PlaceLeads();
        PatchLeads();
        FinishLeads();
        GiveUpLeads();
      }
      hide BrokenWorld;
      BrokenFrom(k + 1);
      assert BrokenRun()[k..][1..] == BrokenRun()[k + 1..];
    }
  }

  /** That leaves a ready function whose target is not, with a stale address in its code. */
  lemma {:induction false} BrokenRunBreaks()
    ensures Valid(START) && IsRun(START, BrokenRun()) && After(START, BrokenRun()) == END
    ensures END.depth == 0 && CodePath(END, ["g", "f"]) && IsReady(END, "g") && !IsReady(END, "f")
    ensures ReadyHasCode(END) && !AllBound(END, {})
    ensures var w := BrokenWorld(9);
      1 in w.pieces && w.pieces[1].targets == ["g", "x"] && Resolve(w, "x") == 0 && "x" !in w.entries
  {
    hide IsRun, After, BrokenWorld;
    StartsThere();
    BrokenFrom(0);
    assert BrokenRun()[0..] == BrokenRun();
    EndIsBroken();
    UnknownTarget();
  }

  lemma {:induction false} StartsThere()
    ensures BrokenWorld(0) == START
  {
  }

  lemma {:induction false} UnknownTarget()
    ensures var w := BrokenWorld(9);
      1 in w.pieces && w.pieces[1].targets == ["g", "x"] && Resolve(w, "x") == 0 && "x" !in w.entries
  {
  }

  lemma {:induction false} EndIsBroken()
    ensures CodePath(END, ["g", "f"]) && IsReady(END, "g") && !IsReady(END, "f")
    ensures ReadyHasCode(END) && !AllBound(END, {})
  {
    assert !Bound(END, "g", {}) by {
      assert Resolve(END, "f") == 0 && END.pieces[2].slots[0] == 1;
    }
  }
}
