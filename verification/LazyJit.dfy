/**
 Lazy materialisation as the jit does it: compile, patch, materialise whatever is missing and
 patch again, publish, then bind the module's data. What the compiler, the code cache, the
 patcher and the page protection answer is left open: the answers are a parameter.
 */
module LazyJit {
  import opened LazyWorld

  /** A refused patch may name its target; granted code has a length and refers to names. */
  datatype Answer = Refused(named: bool) | Granted(len: nat, targets: seq<Name>)

  /** Nothing stands for the name, and it is not registered. */
  predicate Unknown(w: World, n: Name) {
    n !in w.entries && Resolve(w, n) == 0
  }

  /** No, or no code, or code that refers to a name nobody knows. */
  predicate Bad(w: World, x: Answer) {
    x.Refused? || x.len == 0 || exists i :: 0 <= i < |x.targets| && Unknown(w, x.targets[i])
  }

  /** One of the answers numbered from a to before b was bad: the only excuse for a failure. */
  ghost predicate Excused(w: World, answers: nat -> Answer, a: nat, b: nat) {
    exists k :: a <= k < b && Bad(w, answers(k))
  }

  predicate NamesUnknown(w: World, at: Addr)
    requires at in w.pieces
  {
    exists i :: 0 <= i < |w.pieces[at].targets| && Unknown(w, w.pieces[at].targets[i])
  }

  class Jit {
    var entries: map<Name, Entry>
    var symbols: map<Name, Addr>
    var misses: set<Name>
    const providers: seq<Provider>
    var pieces: map<Addr, Piece>
    var codeEnd: Addr
    var depth: nat
    var updateActive: bool
    const answers: nat -> Answer
    var asked: nat
    ghost var givenUp: nat
    ghost var skipped: nat
    ghost var loose: set<Name>

    ghost function Now(): World
      reads this
    {
      World(entries, symbols, misses, providers, pieces, codeEnd, depth, givenUp, skipped, loose)
    }

    constructor (codeStart: Addr, host: map<Name, Addr>, providers: seq<Provider>,
                 answers: nat -> Answer)
      requires codeStart != 0
      ensures Valid(Now()) && depth == 0 && loose == {} && entries == map[]
      ensures forall n :: n in host ==> Resolve(Now(), n) == host[n]
    {
      entries, symbols, misses, pieces := map[], host, {}, map[];
      this.providers, this.answers, asked := providers, answers, 0;
      codeEnd, depth, updateActive := codeStart, 0, false;
      givenUp, skipped, loose := 0, 0, {};
    }

    method Ask() returns (x: Answer)
      modifies this`asked
      ensures asked == old(asked) + 1 && x == answers(old(asked))
    {
      x := answers(asked);
      asked := asked + 1;
    }

    /** lookup_symbol_hashed_exact: neither the miss cache nor remembering results shows. */
    method Lookup(n: Name) returns (a: Addr)
      requires Valid(Now())
      modifies this`symbols, this`misses
      ensures Valid(Now()) && Follows(old(Now()), Now(), 0)
      ensures a == Resolve(old(Now()), n)
      ensures forall m: Name :: Resolve(Now(), m) == Resolve(old(Now()), m)
      ensures Reaches(old(Now()), Now())
    {
      hide Reaches;
      ReachesSelf(Now());
      if n in entries {
        if entries[n].state == Compiling {
          return entries[n].address;
        }
        if entries[n].state != Ready {
          return 0;
        }
      }
      if n in symbols {
        return symbols[n];
      }
      var missKnown := n in misses;
      for i := 0 to |providers|
        invariant symbols == old(symbols) && misses == old(misses)
        invariant FromProviders(providers, n) == FromProviders(providers[i..], n)
      {
        assert providers[i..][1..] == providers[i + 1..];
        var p := providers[i];
        if !(missKnown && p.skipWhenMissed) && n in p.table && p.table[n] != 0 {
          if p.cacheResult {
            CacheResult(Now(), n);
            ReachesOne(Now(), Remember(n));
            symbols := symbols[n := p.table[n]];
          }
          return p.table[n];
        }
        if missKnown && p.skipWhenMissed {
          ProviderSilent(providers, i, n);
        }
      }
      if !missKnown {
        CacheMiss(Now(), n);
        ReachesOne(Now(), Miss(n));
        misses := misses + {n};
      }
      return 0;
    }

    /** apply_jit_relocs on the code of f: patch until something cannot be resolved. */
    method ApplyRelocs(f: Name) returns (ok: bool, missing: seq<Name>)
      requires Valid(Now()) && IsCompiling(Now(), f)
      modifies this`symbols, this`misses, this`pieces, this`asked
      ensures Valid(Now()) && entries == old(entries) && IsCompiling(Now(), f)
      ensures Follows(old(Now()), Now(), entries[f].address)
      ensures ok ==> Patched(Now(), entries[f].address, |pieces[entries[f].address].targets|)
      ensures |missing| <= 1 && old(asked) <= asked
      ensures !ok ==>
        || Excused(Now(), answers, old(asked), asked)
        || (|missing| == 1 && missing[0] in pieces[entries[f].address].targets && Resolve(Now(), missing[0]) == 0)
      ensures Reaches(old(Now()), Now())
    {
      hide Valid, Follows, Resolve, Reaches, Allowed, Apply, Excused;
      ReachesSelf(Now());
      CompilingFacts(Now(), f);
      var at := entries[f].address;
      var n := |pieces[at].targets|;
      FollowsSelf(Now(), at);
      for i := 0 to n
        invariant Valid(Now()) && entries == old(entries)
        invariant Follows(old(Now()), Now(), at)
        invariant HasPiece(Now(), f, at) && |pieces[at].targets| == n && Patched(Now(), at, i)
        invariant old(asked) <= asked
        invariant Reaches(old(Now()), Now())
      {
        var t := pieces[at].targets[i];
        ghost var w0 := Now();
        var a;
        if t == f {
          a := at;
          ResolveSelf(w0, f);
          FollowsSelf(w0, 0);
          ReachesSelf(w0);
        } else {
          a := Lookup(t);
        }
        CompilingFacts(w0, f);
        LookupKeeps(w0, Now(), at, i);
        FollowsWeaken(w0, Now(), at);
        FollowsTransitive(old(Now()), w0, Now(), at);
        ReachesJoin(old(Now()), w0, Now());
        if a == 0 {
          return false, [t];
        }
        ghost var w1 := Now();
        var fits := Ask();
        if fits.Refused? {
          BadAnswer(w1, answers, old(asked), asked);
          return false, if fits.named then [t] else [];
        }
        assert Now() == w1;
        PatchValid(w1, f, i, a);
        SlotMove(w1, f, i, a);
        pieces := pieces[at := pieces[at].(slots := pieces[at].slots[i := a])];
        PatchedStep(w1, at, i, a);
        FollowsTransitive(old(Now()), w1, Now(), at);
        ReachesJoin(old(Now()), w1, Now());
      }
      return true, [];
    }

    /** materialize_lazy_function.  When it succeeds and no data relocation is passed over
        on the way, nothing is given up, so nothing comes loose. */
    method Materialize(f: Name) returns (ok: bool)
      requires Valid(Now()) && f in entries
      modifies this
      ensures Valid(Now()) && Follows(old(Now()), Now(), 0)
      ensures old(entries[f].state) != Pending ==> ok && Now() == old(Now())
      ensures old(asked) <= asked
      ensures (ok && skipped == old(skipped)) || Excused(Now(), answers, old(asked), asked)
      ensures ok && !IsCompiling(old(Now()), f) ==> IsReady(Now(), f)
      ensures ok && skipped == old(skipped) ==> givenUp == old(givenUp)
      ensures NoData(old(Now())) ==> skipped == old(skipped)
      ensures Reaches(old(Now()), Now())
      decreases |PendingSet(Now())|, 2
    {
      hide Valid, Follows, Reaches, Excused;
      ghost var start := Now();
      FollowsSelf(start, 0);
      ReachesSelf(start);
      if entries[f].state == Ready || entries[f].state == Compiling {
        return true;
      }
      var ownTransition := depth == 0 && !updateActive;
      if ownTransition {
        var writable := Ask();
        if writable.Refused? {
          BadAnswer(start, answers, old(asked), asked);
          assert Now() == start;
          return false;
        }
        assert Now() == start;
      }
      ok := MaterializeInside(f, old(asked));
      if ownTransition {
        ghost var left, a1 := Now(), asked;
        var executable := Ask();
        assert Now() == left;
        BadAnswer(left, answers, old(asked), asked);
        ExcusedMore(left, answers, old(asked), a1, asked);
        ok := ok && executable.Granted?;
      }
    }

    /** One level deeper. */
    method MaterializeInside(f: Name, ghost from: nat) returns (ok: bool)
      requires Valid(Now()) && f in PendingSet(Now()) && from <= asked
      modifies this
      ensures Valid(Now()) && Follows(old(Now()), Now(), 0)
      ensures from <= asked
      ensures (ok && skipped == old(skipped)) || Excused(Now(), answers, from, asked)
      ensures ok ==> IsReady(Now(), f)
      ensures ok && skipped == old(skipped) ==> givenUp == old(givenUp)
      ensures NoData(old(Now())) ==> skipped == old(skipped)
      ensures Reaches(old(Now()), Now())
      decreases |PendingSet(Now())|, 1
    {
      hide Valid, Follows, Reaches, Excused;
      ghost var start := Now();
      ghost var a0 := asked;
      depth := depth + 1;
      ghost var inside := Now();
      DepthUp(start);
      EnterMove(start);
      ok := CompileAndPatch(f);
      ghost var w := Now();
      SameDepth(inside, w, 0);
      DepthDown(start, w);
      LeaveMove(start, w);
      ReachesJoin(start, inside, w);
      ReachesJoin(start, w, w.(depth := start.depth));
      depth := depth - 1;
      assert Now() == w.(depth := start.depth);
      ExcusedAtDepth(w, start.depth, answers, a0, asked, from, asked);
    }

    /** Produce the code of f, from the code cache or the compiler, at the end of the code. */
    method Emit(f: Name) returns (ok: bool, ghost len: nat, ghost targets: seq<Name>)
      requires Valid(Now()) && f in PendingSet(Now()) && depth > 0
      modifies this
      ensures old(asked) < asked
      ensures ok ==> answers(asked - 1) == Granted(len, targets)
      ensures !ok ==> Excused(Now(), answers, old(asked), asked)
      ensures ok ==> len > 0 && Now() == Placed(old(Now()), f, len, targets)
      ensures !ok ==> Now() == old(Now()).(givenUp := old(givenUp) + 1)
      ensures Reaches(old(Now()), Now())
    {
      hide Reaches, Excused;
      ghost var start := Now();
      PendingHasNoAddress(start, f);
      hide Valid, Bad, Placed, Allowed, Apply, Resolve;
      RefuseMove(start);
      len, targets := 0, [];
      var prepared := Ask();
      if prepared.Refused? {
        givenUp := givenUp + 1;
        BadAnswer(Now(), answers, old(asked), asked);
        return false, len, targets;
      }
      ok, len, targets := EmitCode(f);
      ExcusedEarlier(Now(), answers, old(asked) + 1, old(asked), asked);
    }

    method EmitCode(f: Name) returns (ok: bool, ghost len: nat, ghost targets: seq<Name>)
      requires Valid(Now()) && f in PendingSet(Now()) && depth > 0
      modifies this
      ensures old(asked) < asked
      ensures ok ==> answers(asked - 1) == Granted(len, targets)
      ensures !ok ==> Excused(Now(), answers, old(asked), asked)
      ensures ok ==> len > 0 && Now() == Placed(old(Now()), f, len, targets)
      ensures !ok ==> Now() == old(Now()).(givenUp := old(givenUp) + 1)
      ensures Reaches(old(Now()), Now())
    {
      hide Reaches, Excused;
      ghost var start := Now();
      PendingHasNoAddress(start, f);
      hide Valid, Bad, Placed, Allowed, Apply, Resolve;
      RefuseMove(start);
      len, targets := 0, [];
      entries := entries[f := entries[f].(state := Compiling, address := 0)];
      var result := Ask();
      if result.Refused? || result.len == 0 {
        entries := entries[f := entries[f].(state := Pending, address := 0)];
        assert entries == start.entries;
        givenUp := givenUp + 1;
        BadAnswer(Now(), answers, old(asked), asked);
        return false, len, targets;
      }
      len, targets := result.len, result.targets;
      Install(start, f, result.len, result.targets);
      PlaceMove(start, f, len, targets);
      return true, len, targets;
    }

    /** The code of f goes to the end of the code. */
    method Install(ghost start: World, f: Name, len: nat, targets: seq<Name>)
      requires f in start.entries
      requires Now() == start.(entries := start.entries[f := start.entries[f].(state := Compiling, address := 0)])
      modifies this`pieces, this`entries, this`codeEnd
      ensures Now() == Placed(start, f, len, targets)
    {
      pieces := pieces[codeEnd := Piece(f, targets, seq(|targets|, _ => 0))];
      entries := entries[f := entries[f].(address := codeEnd)];
      codeEnd := codeEnd + len;
    }

    /** The part between entering the function and its cleanup: compile, patch and publish, or
        go back to pending. */
    method CompileAndPatch(f: Name) returns (ok: bool)
      requires Valid(Now()) && f in PendingSet(Now()) && depth > 0
      modifies this
      ensures Valid(Now()) && Follows(old(Now()), Now(), 0)
      ensures old(asked) <= asked
      ensures (ok && skipped == old(skipped)) || Excused(Now(), answers, old(asked), asked)
      ensures ok ==> IsReady(Now(), f)
      ensures ok && skipped == old(skipped) ==> givenUp == old(givenUp)
      ensures NoData(old(Now())) ==> skipped == old(skipped)
      ensures Reaches(old(Now()), Now())
      decreases |PendingSet(Now())|, 0
    {
      assert f in entries;
      hide Valid, Follows, Resolve, Patched, Placed, HasPiece, Finished, Abandoned, NoData, NoRelocs, PendingSet,
           Reaches, Excused, NamesUnknown, Referred, IsReady;
      ghost var start := Now();
      FollowsSelf(start, 0);
      var globals := entries[f].globals;
      ghost var len, targets;
      ok, len, targets := Emit(f);
      if !ok {
        EmitFailed(start);
        return false;
      }
      PlacedValid(start, f, len, targets);
      PlacedShape(start, f, len, targets);
      PlacedShrinks(start, f, len, targets);
      ok := PatchAndPublish(start, old(asked), len, targets, f, globals);
    }

    method PatchAndPublish(ghost start: World, ghost from: nat, ghost len: nat, ghost targets: seq<Name>, f: Name,
                           globals: seq<Global>)
      returns (ok: bool)
      requires Valid(start) && f in PendingSet(start) && Now() == Placed(start, f, len, targets)
      requires Valid(Now()) && IsCompiling(Now(), f) && entries[f].address == start.codeEnd && depth > 0
      requires givenUp == start.givenUp && skipped == start.skipped && globals == start.entries[f].globals
      requires from < asked && answers(asked - 1) == Granted(len, targets) && Reaches(start, Now())
      modifies this
      ensures Valid(Now()) && Follows(start, Now(), 0) && Reaches(start, Now())
      ensures from <= asked
      ensures (ok && skipped == start.skipped) || Excused(Now(), answers, from, asked)
      ensures ok ==> IsReady(Now(), f)
      ensures ok && skipped == start.skipped ==> givenUp == start.givenUp
      ensures NoData(start) ==> skipped == start.skipped
      decreases |PendingSet(Now())|, 8
    {
      hide Valid, Follows, Resolve, Patched, Placed, HasPiece, Finished, Abandoned, NoData, NoRelocs, PendingSet,
           Reaches, Excused, NamesUnknown, Referred;
      ghost var placed := Now();
      ghost var a0 := asked;
      PlacedStillNoData(start, f, len, targets);
      ok := PatchAll(f);
      ghost var w := Now();
      Counts(placed, w, start.codeEnd);
      ReachesJoin(start, placed, w);
      PlacedUnknown(start, f, len, targets, w, answers, from, a0, asked);
      if !ok {
        ExcusedAbandoned(w, f, answers, from, asked);
        AbandonedFollows(start, len, targets, w, f);
        GiveUp(f);
        ReachesJoin(start, w, Now());
        return false;
      }
      PendingShrinks(placed, w, start.codeEnd);
      PlacedNoData(start, len, targets, w, f);
      PublishAndRebind(start, from, len, targets, f, globals);
    }

    /** The end of it, once everything is patched. */
    method PublishAndRebind(ghost start: World, ghost from: nat, ghost len: nat, ghost targets: seq<Name>, f: Name,
                            globals: seq<Global>)
      requires Valid(start) && f in PendingSet(start)
      requires Follows(Placed(start, f, len, targets), Now(), start.codeEnd) && Reaches(start, Now())
      requires Valid(Now()) && IsCompiling(Now(), f) && depth > 0 && HasPiece(Now(), f, entries[f].address)
      requires Patched(Now(), entries[f].address, |pieces[entries[f].address].targets|)
      requires skipped == start.skipped ==> givenUp == start.givenUp
      requires start.skipped <= skipped && from <= asked
      requires skipped == start.skipped || Excused(Now(), answers, from, asked)
      requires NoData(start) ==> skipped == start.skipped && NoData(Finished(Now(), f)) && NoRelocs(globals)
      modifies this
      ensures Valid(Now()) && Follows(start, Now(), 0) && Reaches(start, Now()) && IsReady(Now(), f)
      ensures from <= asked && (skipped == start.skipped || Excused(Now(), answers, from, asked))
      ensures skipped == start.skipped ==> givenUp == start.givenUp
      ensures NoData(start) ==> skipped == start.skipped
      decreases |PendingSet(Now())|, 7
    {
      assert f in start.entries;
      hide Valid, Follows, Resolve, Patched, Placed, HasPiece, Finished, NoData, NoRelocs, PendingSet, Reaches, Excused;
      ghost var w := Now();
      FinishedFollows(start, len, targets, w, f);
      Publish(f);
      ReachesJoin(start, w, Now());
      ghost var done := Now();
      ghost var a1 := asked;
      ExcusedFinished(w, f, answers, from, a1);
      Rebind(start, f, globals);
      ExcusedJoin(done, Now(), 0, answers, from, a1, asked);
      ReachesJoin(start, done, Now());
    }

    /** The cleanup after a failure. */
    method GiveUp(f: Name)
      requires Valid(Now()) && IsCompiling(Now(), f)
      modifies this
      ensures Valid(Now()) && Now() == Abandoned(old(Now()), f) && givenUp > old(givenUp) && skipped == old(skipped)
      ensures asked == old(asked)
      ensures Reaches(old(Now()), Now())
    {
      hide Valid, Reaches;
      ghost var w := Now();
      AbandonedValid(w, f);
      ReachesOne(w, Move.GiveUp(f));
      givenUp := givenUp + 1;
      loose := if Referred(w, f) then loose + {f} else loose;
      entries := entries[f := entries[f].(state := Pending, address := 0)];
      assert Now() == Abandoned(w, f);
    }

    /** The symbol gets the address, and the function is ready. */
    method Publish(f: Name)
      requires Valid(Now()) && IsCompiling(Now(), f) && depth > 0
      requires HasPiece(Now(), f, entries[f].address)
      requires Patched(Now(), entries[f].address, |pieces[entries[f].address].targets|)
      modifies this
      ensures Valid(Now()) && Now() == Finished(old(Now()), f)
      ensures IsReady(Now(), f) && PendingSet(Now()) == PendingSet(old(Now()))
      ensures givenUp == old(givenUp) && skipped == old(skipped) && asked == old(asked)
      ensures Reaches(old(Now()), Now())
    {
      hide Valid, Reaches;
      ghost var w := Now();
      FinishedValid(w, f);
      ReachesOne(w, Finish(f));
      symbols := symbols[f := entries[f].address];
      entries := entries[f := entries[f].(state := Ready, address := 0)];
      assert Now() == Finished(w, f);
    }

    /** Re-apply data relocations now that f is published. */
    method Rebind(ghost start: World, f: Name, globals: seq<Global>)
      requires Valid(Now()) && Follows(start, Now(), 0) && IsReady(Now(), f)
      modifies this
      ensures Valid(Now()) && Follows(start, Now(), 0) && IsReady(Now(), f) && Follows(old(Now()), Now(), 0)
      ensures old(asked) <= asked
      ensures skipped == old(skipped) || Excused(Now(), answers, old(asked), asked)
      ensures skipped == old(skipped) ==> DataBound(old(Now()), globals, Now())
      ensures skipped == old(skipped) ==> givenUp == old(givenUp)
      ensures old(skipped) <= skipped
      ensures NoData(old(Now())) && NoRelocs(globals) ==> skipped == old(skipped)
      ensures Reaches(old(Now()), Now())
      decreases |PendingSet(Now())|, 6
    {
      hide Valid, Follows, IsReady, Reaches, Excused, DataBound;
      ghost var finished := Now();
      GlobalRelocs(globals);
      ReadyStays(finished, Now(), f);
      Counts(finished, Now(), 0);
      FollowsTransitive(start, finished, Now(), 0);
    }

    /** Patch, materialise what is missing, and patch again until everything is resolved. */
    method PatchAll(f: Name) returns (ok: bool)
      requires Valid(Now()) && IsCompiling(Now(), f)
      modifies this
      ensures Valid(Now()) && IsCompiling(Now(), f) && entries[f] == old(entries[f])
      ensures Follows(old(Now()), Now(), entries[f].address)
      ensures HasPiece(Now(), f, entries[f].address)
      ensures ok ==> Patched(Now(), entries[f].address, |pieces[entries[f].address].targets|)
      ensures old(asked) <= asked
      ensures || (ok && skipped == old(skipped))
              || Excused(Now(), answers, old(asked), asked) || NamesUnknown(Now(), entries[f].address)
      ensures ok && skipped == old(skipped) ==> givenUp == old(givenUp)
      ensures NoData(old(Now())) ==> skipped == old(skipped)
      ensures Reaches(old(Now()), Now())
      decreases |PendingSet(Now())|, 3
    {
      hide Valid, Follows, Patched, Reaches, Excused, NamesUnknown;
      ghost var start := Now();
      var at := entries[f].address;
      FollowsSelf(start, at);
      ReachesSelf(start);
      while true
        invariant Valid(Now()) && IsCompiling(Now(), f) && entries[f] == old(entries[f])
        invariant Follows(start, Now(), at)
        invariant skipped == start.skipped ==> givenUp == start.givenUp
        invariant NoData(start) ==> skipped == start.skipped
        invariant Reaches(start, Now())
        invariant old(asked) <= asked
        invariant skipped == start.skipped || Excused(Now(), answers, old(asked), asked)
        decreases |PendingSet(Now())|
      {
        ghost var w0 := Now();
        ghost var a0 := asked;
        CompilingFacts(w0, f);
        PendingShrinks(start, w0, at);
        var done, missing := ApplyRelocs(f);
        ghost var w1 := Now();
        ghost var a1 := asked;
        ExcusedJoin(w0, w1, at, answers, old(asked), a0, a1);
        CompilingFacts(w1, f);
        FollowsTransitive(start, w0, w1, at);
        ReachesJoin(start, w0, w1);
        if done {
          return true;
        }
        if missing == [] || missing[0] !in entries || entries[missing[0]].state != Pending {
          if missing != [] {
            UnresolvedTarget(w1, at, missing[0]);
          }
          return false;
        }
        if NoData(start) {
          NoDataStays(start, w1, at);
        }
        Counts(start, w1, at);
        var ready := Materialize(missing[0]);
        ghost var w2 := Now();
        ExcusedJoin(w1, w2, 0, answers, old(asked), a1, asked);
        ReachesJoin(start, w1, w2);
        CompilingStays(w1, w2, f);
        FollowsWeaken(w1, w2, at);
        Counts(w1, w2, at);
        FollowsTransitive(start, w1, w2, at);
        CompilingFacts(w2, f);
        if !ready {
          return false;
        }
        PendingShrinks(w1, w2, 0);
        assert missing[0] in PendingSet(w1) && missing[0] !in PendingSet(w2);
        SubsetSize(PendingSet(w2), PendingSet(w1));
      }
      return false;
    }

    /** apply_module_global_relocs: data relocations materialise what they name; a failure is
        passed over. */
    method GlobalRelocs(globals: seq<Global>)
      requires Valid(Now())
      modifies this
      ensures Valid(Now()) && Follows(old(Now()), Now(), 0)
      ensures old(asked) <= asked
      ensures skipped == old(skipped) || Excused(Now(), answers, old(asked), asked)
      ensures skipped == old(skipped) ==> DataBound(old(Now()), globals, Now())
      ensures skipped == old(skipped) ==> givenUp == old(givenUp)
      ensures NoData(old(Now())) && NoRelocs(globals) ==> skipped == old(skipped)
      ensures Reaches(old(Now()), Now())
      decreases |PendingSet(Now())|, 5
    {
      hide Valid, Follows, Reaches, Excused, TargetsBound, Resolve;
      ghost var start := Now();
      FollowsSelf(start, 0);
      ReachesSelf(start);
      for gi := 0 to |globals|
        invariant Valid(Now()) && Follows(start, Now(), 0) && Reaches(start, Now())
        invariant skipped == start.skipped ==> givenUp == start.givenUp
        invariant NoData(start) && NoRelocs(globals) ==> skipped == start.skipped
        invariant start.skipped <= skipped && old(asked) <= asked
        invariant skipped == start.skipped || Excused(Now(), answers, old(asked), asked)
        invariant skipped == start.skipped ==> DataBound(start, globals[..gi], Now())
      {
        var g := globals[gi];
        ghost var w0 := Now();
        assert globals[..gi + 1] == globals[..gi] + [g];
        NoTargets(g.relocs);
        if g.relocs != [] {
          var base := Lookup(g.name);
          ghost var w1 := Now();
          FollowsTransitive(start, w0, w1, 0);
          ReachesJoin(start, w0, w1);
          ExcusedFollows(w0, w1, 0, answers, old(asked), asked, asked);
          Counts(w0, w1, 0);
          ResolveStays(start, w0, g.name);
          FollowsSelf(w1, 0);
          if base != 0 {
            for ri := 0 to |g.relocs|
              invariant Valid(Now()) && Follows(start, Now(), 0) && Reaches(start, Now()) && Follows(w1, Now(), 0)
              invariant skipped == start.skipped ==> givenUp == start.givenUp
              invariant start.skipped <= skipped && old(asked) <= asked && w1.skipped <= skipped
              invariant skipped == start.skipped || Excused(Now(), answers, old(asked), asked)
              invariant skipped == start.skipped ==> TargetsBound(g.relocs[..ri], Now())
            {
              ghost var w2 := Now();
              PendingShrinks(start, w2, 0);
              DataReloc(start, old(asked), g.relocs[ri].target);
              FollowsTransitive(w1, w2, Now(), 0);
              if skipped == w2.skipped {
                MoreTargetsBound(g.relocs, ri, w2, Now());
              }
            }
            assert g.relocs[..|g.relocs|] == g.relocs;
          }
          FollowsTransitive(w0, w1, Now(), 0);
        } else {
          FollowsSelf(w0, 0);
        }
        if skipped == start.skipped {
          MoreDataBound(start, globals[..gi], g, w0, Now());
        }
      }
      assert globals[..|globals|] == globals;
    }

    /** One data relocation: a target that is unknown, or that cannot be materialised, is passed
        over; only the latter counts. */
    method DataReloc(ghost start: World, ghost from: nat, target: Name)
      requires Valid(Now()) && Follows(start, Now(), 0) && Reaches(start, Now())
      requires skipped == start.skipped ==> givenUp == start.givenUp
      requires from <= asked && (skipped == start.skipped || Excused(Now(), answers, from, asked))
      modifies this
      ensures Follows(old(Now()), Now(), 0) && old(skipped) <= skipped && old(asked) <= asked
      ensures skipped == start.skipped || Excused(Now(), answers, from, asked)
      ensures skipped == old(skipped) ==> target !in PendingSet(Now())
      ensures Valid(Now()) && Follows(start, Now(), 0) && Reaches(start, Now())
      ensures skipped == start.skipped ==> givenUp == start.givenUp
      decreases |PendingSet(Now())|, 4
    {
      hide Valid, Follows, Reaches, Excused;
      ghost var w1 := Now();
      ghost var a1 := asked;
      Counts(start, w1, 0);
      ghost var failed;
      var address;
      address, failed := LookupMaterializing(target);
      ghost var w2 := Now();
      Counts(w1, w2, 0);
      FollowsTransitive(start, w1, w2, 0);
      ReachesJoin(start, w1, w2);
      ExcusedJoin(w1, w2, 0, answers, from, a1, asked);
      if failed {
        SkipCounted(start, w2);
        SkipCounted(w1, w2);
        ExcusedSkipped(w2, answers, from, asked);
        ReachesOne(w2, PassOver);
        skipped := skipped + 1;
        ReachesJoin(start, w2, Now());
      }
    }

    /** lookup_symbol_materializing_lazy; failed says that a materialisation did. */
    method LookupMaterializing(n: Name) returns (a: Addr, ghost failed: bool)
      requires Valid(Now())
      modifies this
      ensures Valid(Now()) && Follows(old(Now()), Now(), 0)
      ensures !failed ==> a == Resolve(Now(), n) && n !in PendingSet(Now())
      ensures !failed && n in PendingSet(old(Now())) ==> a != 0
      ensures n !in PendingSet(old(Now())) ==> !failed && a == old(Resolve(Now(), n))
      ensures failed ==> a == 0 && n in PendingSet(old(Now()))
      ensures old(asked) <= asked
      ensures (!failed && skipped == old(skipped)) || Excused(Now(), answers, old(asked), asked)
      ensures !failed && skipped == old(skipped) ==> givenUp == old(givenUp)
      ensures NoData(old(Now())) ==> skipped == old(skipped)
      ensures Reaches(old(Now()), Now())
      decreases |PendingSet(Now())|, 3
    {
      hide Reaches, Excused;
      failed := false;
      ReachesSelf(Now());
      FollowsSelf(Now(), 0);
      if n in entries {
        if entries[n].state == Compiling {
          return entries[n].address, failed;
        }
        if entries[n].state != Ready {
          var ok := Materialize(n);
          if !ok {
            failed := true;
            return 0, failed;
          }
        }
      }
      ghost var w := Now();
      a := Lookup(n);
      ExcusedFollows(w, Now(), 0, answers, old(asked), asked, asked);
      FollowsTransitive(old(Now()), w, Now(), 0);
      ReachesJoin(old(Now()), w, Now());
    }

    /** lr_jit_get_symbol, from outside: on success the name, if lazily registered, is ready. */
    method GetSymbol(n: Name) returns (a: Addr)
      requires Valid(Now()) && depth == 0
      modifies this
      ensures Valid(Now()) && depth == 0 && Follows(old(Now()), Now(), 0)
      ensures n !in PendingSet(old(Now())) ==> a == old(Resolve(Now(), n))
      ensures IsReady(old(Now()), n) ==> n in old(symbols) && a == old(symbols)[n] != 0
      ensures old(asked) <= asked && (a == 0 && n in entries ==> Excused(Now(), answers, old(asked), asked))
      ensures a != 0 ==> a == Resolve(Now(), n) && (n in entries ==> IsReady(Now(), n) && a == symbols[n])
      ensures a != 0 && skipped == old(skipped) ==> loose == old(loose)
      ensures NoData(old(Now())) ==> skipped == old(skipped)
      ensures Reaches(old(Now()), Now())
    {
      hide Valid, Follows, Resolve, Reaches, Excused;
      ghost var start := Now();
      a := Lookup(n);
      LookupFacts(start, Now(), n);
      SettledName(start, Now(), n);
      Counts(start, Now(), 0);
      if a != 0 {
        return a;
      }
      ghost var w0 := Now();
      if NoData(start) {
        NoDataStays(start, w0, 0);
      }
      if n in entries && entries[n].state != Ready {
        var ok := Materialize(n);
        FollowsTransitive(start, w0, Now(), 0);
        Counts(w0, Now(), 0);
        ReachesJoin(start, w0, Now());
        if !ok {
          return 0;
        }
      }
      ghost var w1 := Now();
      a := Lookup(n);
      LookupFacts(w1, Now(), n);
      SettledName(w1, Now(), n);
      Counts(w1, Now(), 0);
      FollowsTransitive(start, w1, Now(), 0);
      ReachesJoin(start, w1, Now());
    }

    /** register_lazy_module_functions; registering a name again starts it over. */
    method Register(names: seq<Name>, globals: seq<Global>)
      requires Valid(Now()) && depth == 0
      modifies this
      ensures Valid(Now()) && Now() == RegisteredAll(old(Now()), names, globals)
      ensures Reaches(old(Now()), Now())
    {
      hide Valid, Reaches;
      ReachesOne(Now(), Move.Register(names, globals));
      for i := 0 to |names|
        invariant Valid(Now()) && depth == 0 && Now() == RegisteredAll(old(Now()), names[..i], globals)
      {
        ghost var w := Now();
        RegisteredValid(w, names[i], globals);
        assert names[..i + 1][..i] == names[..i];
        loose := if Referred(w, names[i]) then loose + {names[i]} else loose;
        entries := entries[names[i] := Entry(globals, Pending, 0)];
        if names[i] !in symbols {
          misses := misses + {names[i]};
        }
        assert Now() == Registered(w, names[i], globals);
      }
      assert names[..|names|] == names;
    }
  }

  /** The target of every data relocation of the globals whose own address was known is no longer
      pending. */
  ghost predicate DataBound(start: World, globals: seq<Global>, w: World) {
    forall gi :: 0 <= gi < |globals| && Resolve(start, globals[gi].name) != 0 ==> TargetsBound(globals[gi].relocs, w)
  }

  ghost predicate TargetsBound(relocs: seq<DataReloc>, w: World) {
    forall ri :: 0 <= ri < |relocs| ==> relocs[ri].target !in PendingSet(w)
  }

  lemma {:induction false} NoTargets(relocs: seq<DataReloc>)
    ensures forall w: World :: TargetsBound(relocs[..0], w) && (relocs == [] ==> TargetsBound(relocs, w))
  {
  }

  lemma {:induction false} MoreTargetsBound(relocs: seq<DataReloc>, ri: nat, w: World, w': World)
    requires ri < |relocs| && Follows(w, w', 0) && relocs[ri].target !in PendingSet(w')
    ensures TargetsBound(relocs[..ri], w) ==> TargetsBound(relocs[..ri + 1], w')
  {
  }

  lemma {:induction false} MoreDataBound(start: World, globals: seq<Global>, g: Global, w: World, w': World)
    requires Follows(w, w', 0) && (Resolve(start, g.name) != 0 ==> TargetsBound(g.relocs, w'))
    ensures DataBound(start, globals, w) ==> DataBound(start, globals + [g], w')
  {
    PendingShrinks(w, w', 0);
    hide Resolve, Follows, PendingSet;
  }

  lemma {:induction false} BadAnswer(w: World, answers: nat -> Answer, a: nat, b: nat)
    requires a < b
    ensures answers(b - 1).Refused? || answers(b - 1).len == 0 ==> Excused(w, answers, a, b)
  {
    assert answers(b - 1).Refused? || answers(b - 1).len == 0 ==> Bad(w, answers(b - 1));
  }

  lemma {:induction false} ExcusedMore(w: World, answers: nat -> Answer, a: nat, b: nat, b': nat)
    requires b <= b'
    ensures Excused(w, answers, a, b) ==> Excused(w, answers, a, b')
  {
  }

  lemma {:induction false} ExcusedEarlier(w: World, answers: nat -> Answer, a: nat, a': nat, b: nat)
    requires a' <= a
    ensures Excused(w, answers, a, b) ==> Excused(w, answers, a', b)
  {
  }

  lemma {:induction false} ExcusedKeeps(w: World, w': World, answers: nat -> Answer, a: nat, b: nat, a': nat, b': nat)
    requires w'.entries.Keys == w.entries.Keys && OthersFollow(w, w') && a' <= a && b <= b'
    ensures Excused(w, answers, a, b) ==> Excused(w', answers, a', b')
  {
    hide Resolve;
    if Excused(w, answers, a, b) {
      var k :| a <= k < b && Bad(w, answers(k));
      assert Bad(w', answers(k));
    }
  }

  lemma {:induction false} ExcusedFollows(w: World, w': World, own: Addr, answers: nat -> Answer, a: nat, b: nat,
                                          b': nat)
    requires Follows(w, w', own) && b <= b'
    ensures Excused(w, answers, a, b) ==> Excused(w', answers, a, b')
  {
    hide Excused;
    ExcusedKeeps(w, w', answers, a, b, a, b');
  }

  /** What excused the part before, and what excuses the part after. */
  lemma {:induction false} ExcusedJoin(w: World, w': World, own: Addr, answers: nat -> Answer, a: nat, b: nat, c: nat)
    requires Follows(w, w', own) && a <= b <= c
    ensures Excused(w, answers, a, b) || Excused(w', answers, b, c) ==> Excused(w', answers, a, c)
  {
    hide Excused;
    ExcusedFollows(w, w', own, answers, a, b, c);
    ExcusedEarlier(w', answers, b, a, c);
  }

  lemma {:induction false} ExcusedAtDepth(w: World, depth: nat, answers: nat -> Answer, a: nat, b: nat, a': nat,
                                          b': nat)
    requires a' <= a && b <= b'
    ensures Excused(w, answers, a, b) ==> Excused(w.(depth := depth), answers, a', b')
  {
    hide Excused;
    ExcusedKeeps(w, w.(depth := depth), answers, a, b, a', b');
  }

  lemma {:induction false} ExcusedSkipped(w: World, answers: nat -> Answer, a: nat, b: nat)
    ensures Excused(w, answers, a, b) ==> Excused(w.(skipped := w.skipped + 1), answers, a, b)
  {
    hide Excused;
    ExcusedKeeps(w, w.(skipped := w.skipped + 1), answers, a, b, a, b);
  }

  lemma {:induction false} ExcusedAbandoned(w: World, f: Name, answers: nat -> Answer, a: nat, b: nat)
    requires f in w.entries
    ensures Excused(w, answers, a, b) ==> Excused(Abandoned(w, f), answers, a, b)
  {
    hide Excused;
    ExcusedKeeps(w, Abandoned(w, f), answers, a, b, a, b);
  }

  lemma {:induction false} ExcusedFinished(w: World, f: Name, answers: nat -> Answer, a: nat, b: nat)
    requires f in w.entries
    ensures Excused(w, answers, a, b) ==> Excused(Finished(w, f), answers, a, b)
  {
    hide Excused;
    ExcusedKeeps(w, Finished(w, f), answers, a, b, a, b);
  }

  /** An unknown name in the code is one the compiler's answer had. */
  lemma {:induction false} PlacedUnknown(start: World, f: Name, len: nat, targets: seq<Name>, w: World,
                                         answers: nat -> Answer, a: nat, a0: nat, b: nat)
    requires f in PendingSet(start) && Follows(Placed(start, f, len, targets), w, start.codeEnd)
    requires a < a0 <= b && answers(a0 - 1) == Granted(len, targets) && HasPiece(w, f, start.codeEnd)
    ensures Excused(w, answers, a0, b) || NamesUnknown(w, start.codeEnd) ==> Excused(w, answers, a, b)
  {
    assert w.pieces[start.codeEnd].targets == targets;
    hide Follows, Placed;
    if NamesUnknown(w, start.codeEnd) {
      assert Bad(w, answers(a0 - 1));
    }
  }

  /** A target that does not resolve is pending or unknown. */
  lemma {:induction false} UnresolvedTarget(w: World, at: Addr, t: Name)
    requires Valid(w) && at in w.pieces
    ensures t in w.pieces[at].targets && Resolve(w, t) == 0 ==> t in PendingSet(w) || NamesUnknown(w, at)
  {
    if t in w.pieces[at].targets && Resolve(w, t) == 0 && t !in w.entries {
      var i :| 0 <= i < |w.pieces[at].targets| && w.pieces[at].targets[i] == t;
      assert Unknown(w, w.pieces[at].targets[i]);
    }
  }

  /** What a name stands for does not change once it stands for something. */
  lemma {:induction false} ResolveStays(w: World, w': World, n: Name)
    requires Follows(w, w', 0)
    ensures Resolve(w, n) != 0 ==> Resolve(w', n) == Resolve(w, n)
  {
  }

  /** Between outermost calls only pending names and unknown ones do not resolve. */
  lemma {:induction false} SettledName(w: World, w': World, n: Name)
    requires Valid(w) && w.depth == 0 && Follows(w, w', 0)
    ensures IsReady(w, n) ==> n in w.symbols && Resolve(w, n) == w.symbols[n] != 0
    ensures n in w.entries && !IsReady(w, n) ==> n in PendingSet(w)
    ensures n !in w.entries ==> n !in w'.entries && Resolve(w', n) == Resolve(w, n)
    ensures n in PendingSet(w) ==> Resolve(w, n) == 0 && n in w.entries
    ensures IsReady(w, n) ==> IsReady(w', n) && Resolve(w', n) == Resolve(w, n)
  {
  }

  lemma {:induction false} SlotMove(w: World, f: Name, i: nat, a: Addr)
    requires IsCompiling(w, f) && HasPiece(w, f, w.entries[f].address) && a != 0
    requires i < |w.pieces[w.entries[f].address].slots| && a == Resolve(w, w.pieces[w.entries[f].address].targets[i])
    ensures Reaches(w, Patch(w, w.entries[f].address, i, a))
  {
    hide Reaches;
    ReachesOne(w, PatchSlot(f, i));
  }

  lemma {:induction false} PlaceMove(w: World, f: Name, len: nat, targets: seq<Name>)
    requires w.depth > 0 && f in PendingSet(w) && len > 0
    ensures Reaches(w, Placed(w, f, len, targets))
  {
    hide Reaches;
    ReachesOne(w, Place(f, len, targets));
  }

  lemma {:induction false} RefuseMove(w: World)
    ensures Reaches(w, w.(givenUp := w.givenUp + 1))
  {
    hide Reaches;
    ReachesOne(w, Refuse);
  }

  lemma {:induction false} EnterMove(w: World)
    ensures Reaches(w, w.(depth := w.depth + 1))
  {
    hide Reaches;
    ReachesOne(w, Enter);
  }

  lemma {:induction false} LeaveMove(start: World, w: World)
    requires Valid(start) && Follows(start.(depth := start.depth + 1), w, 0)
    ensures Reaches(w, w.(depth := start.depth))
  {
    hide Reaches;
    ReachesOne(w, Leave);
  }

  lemma {:induction false} EmitFailed(start: World)
    requires Valid(start)
    ensures var w := start.(givenUp := start.givenUp + 1); Valid(w) && Follows(start, w, 0)
  {
    SameResolve(start, start.(givenUp := start.givenUp + 1));
  }

  lemma {:induction false} SkipCounted(start: World, w: World)
    requires Valid(w) && Follows(start, w, 0)
    ensures var w' := w.(skipped := w.skipped + 1); Valid(w') && Follows(start, w', 0) && w'.skipped > start.skipped
  {
    SameResolve(w, w.(skipped := w.skipped + 1));
  }

  /** Between outermost calls only a ready function resolves. */
  lemma {:induction false} LookupFacts(w: World, w': World, n: Name)
    requires Valid(w) && Valid(w') && w.depth == 0 && Follows(w, w', 0)
    requires forall m: Name :: Resolve(w', m) == Resolve(w, m)
    ensures w'.depth == 0
    ensures Resolve(w', n) != 0 && n in w'.entries ==>
      IsReady(w', n) && n in w'.symbols && Resolve(w', n) == w'.symbols[n]
    ensures Resolve(w', n) == Resolve(w, n)
  {
  }

  lemma {:induction false} Counts(a: World, b: World, own: Addr)
    requires Follows(a, b, own)
    ensures b.depth == a.depth && a.givenUp <= b.givenUp && a.skipped <= b.skipped
    ensures b.givenUp == a.givenUp ==> b.loose == a.loose
  {
  }

  lemma {:induction false} NoDataStays(a: World, b: World, own: Addr)
    requires Follows(a, b, own) && NoData(a)
    ensures NoData(b)
  {
  }

  lemma {:induction false} PlacedShrinks(start: World, f: Name, len: nat, targets: seq<Name>)
    requires Valid(start) && start.depth > 0 && f in PendingSet(start) && len > 0
    ensures |PendingSet(Placed(start, f, len, targets))| < |PendingSet(start)|
  {
    PlacedValid(start, f, len, targets);
    SubsetSize(PendingSet(Placed(start, f, len, targets)), PendingSet(start));
  }

  lemma {:induction false} PlacedShape(start: World, f: Name, len: nat, targets: seq<Name>)
    requires f in PendingSet(start)
    ensures IsCompiling(Placed(start, f, len, targets), f)
    ensures Placed(start, f, len, targets).entries[f].address == start.codeEnd
    ensures Placed(start, f, len, targets).depth == start.depth
    ensures Placed(start, f, len, targets).givenUp == start.givenUp
    ensures Placed(start, f, len, targets).skipped == start.skipped
  {
  }

  lemma {:induction false} DepthUp(w: World)
    requires Valid(w)
    ensures Valid(w.(depth := w.depth + 1))
    ensures PendingSet(w.(depth := w.depth + 1)) == PendingSet(w)
  {
    SameResolve(w, w.(depth := w.depth + 1));
  }

  lemma {:induction false} DepthDown(start: World, w: World)
    requires Valid(start) && Valid(w)
    requires Follows(start.(depth := start.depth + 1), w, 0)
    ensures Valid(w.(depth := start.depth)) && Follows(start, w.(depth := start.depth), 0)
    ensures PendingSet(w.(depth := start.depth)) == PendingSet(w)
  {
    SameResolve(w, w.(depth := start.depth));
  }

  lemma {:induction false} SameDepth(a: World, b: World, own: Addr)
    requires Follows(a, b, own)
    ensures b.depth == a.depth
  {
  }

  lemma {:induction false} PendingHasNoAddress(w: World, f: Name)
    requires Valid(w) && f in PendingSet(w)
    ensures w.entries[f].address == 0
  {
  }

  lemma {:induction false} AbandonedFollows(start: World, len: nat, targets: seq<Name>, w: World, f: Name)
    requires Valid(start) && f in PendingSet(start)
    requires Follows(Placed(start, f, len, targets), w, start.codeEnd)
    ensures Follows(start, Abandoned(w, f), 0)
  {
    NoCodeYet(start);
    PlacedEntries(start, len, targets, w, f);
    PlacedCode(start, len, targets, w, f);
    PlacedLoosens(start, len, targets, w, f);
    PlacedOthers(start, len, targets, w, f);
    PendingState(start, f);
    hide Valid, Follows, Placed, CodeFollows, Referred, EntriesFollow, EntriesButOne, OthersFollow;
    var w' := Abandoned(w, f);
    OtherEntries(start, w, w', f);
    SameCode(start, w, w');
    JoinFollows(start, w');
  }

  lemma {:induction false} FinishedFollows(start: World, len: nat, targets: seq<Name>, w: World, f: Name)
    requires Valid(start) && f in PendingSet(start)
    requires Follows(Placed(start, f, len, targets), w, start.codeEnd)
    ensures Follows(start, Finished(w, f), 0)
  {
    NoCodeYet(start);
    PlacedEntries(start, len, targets, w, f);
    PlacedCode(start, len, targets, w, f);
    PlacedLoosens(start, len, targets, w, f);
    PlacedOthers(start, len, targets, w, f);
    PendingState(start, f);
    hide Valid, Follows, Placed, CodeFollows, EntriesFollow, EntriesButOne, OthersFollow;
    var w' := Finished(w, f);
    OtherEntries(start, w, w', f);
    SameCode(start, w, w');
    JoinFollows(start, w');
  }

  predicate EntriesButOne(a: World, b: World, f: Name) {
    && b.entries.Keys == a.entries.Keys && b.providers == a.providers && b.depth == a.depth
    && (forall g :: g in a.entries && g != f ==> (b.entries[g].state == Compiling <==> a.entries[g].state == Compiling))
    && (forall g :: g in a.entries && g != f && a.entries[g].state == Compiling ==> b.entries[g] == a.entries[g])
    && (forall g :: g in a.entries ==> b.entries[g].globals == a.entries[g].globals)
    && (forall g :: g in a.entries && g != f && a.entries[g].state == Ready ==>
          b.entries[g].state == Ready && g in a.symbols && g in b.symbols && b.symbols[g] == a.symbols[g])
  }

  /** The function that was pending is pending again, or ready. */
  lemma {:induction false} OtherEntries(a: World, b: World, c: World, f: Name)
    requires f in a.entries && a.entries[f].state == Pending && EntriesButOne(a, b, f)
    requires c.entries.Keys == b.entries.Keys && c.providers == b.providers && c.depth == b.depth
    requires c.entries[f].state != Compiling && c.entries[f].globals == b.entries[f].globals
    requires forall g :: g in b.entries && g != f ==> c.entries[g] == b.entries[g]
    requires forall g :: g in b.symbols && g != f ==> g in c.symbols && c.symbols[g] == b.symbols[g]
    ensures EntriesFollow(a, c)
  {
  }

  lemma {:induction false} PendingState(w: World, f: Name)
    requires f in PendingSet(w)
    ensures f in w.entries && w.entries[f].state == Pending
  {
  }

  lemma {:induction false} NoCodeYet(start: World)
    requires Valid(start)
    ensures start.codeEnd !in start.pieces && 0 !in start.pieces
  {
  }

  lemma {:induction false} JoinFollows(a: World, b: World)
    requires EntriesFollow(a, b) && CodeFollows(a, b, 0) && LoosensBy(a, b) && OthersFollow(a, b)
    ensures Follows(a, b, 0)
  {
  }

  lemma {:induction false} SameCode(a: World, b: World, c: World)
    requires CodeFollows(a, b, 0) && c.pieces == b.pieces && c.codeEnd == b.codeEnd
    ensures CodeFollows(a, c, 0)
  {
  }

  lemma {:induction false} PlacedCode(start: World, len: nat, targets: seq<Name>, w: World, f: Name)
    requires f in PendingSet(start) && start.codeEnd !in start.pieces && 0 !in start.pieces
    requires Follows(Placed(start, f, len, targets), w, start.codeEnd)
    ensures CodeFollows(start, w, 0)
  {
    assert CodeFollows(Placed(start, f, len, targets), w, start.codeEnd);
    hide Follows;
  }

  lemma {:induction false} PlacedEntries(start: World, len: nat, targets: seq<Name>, w: World, f: Name)
    requires f in PendingSet(start) && Follows(Placed(start, f, len, targets), w, start.codeEnd)
    ensures EntriesButOne(start, w, f)
  {
    assert EntriesFollow(Placed(start, f, len, targets), w);
    hide Follows;
  }

  lemma {:induction false} PlacedLoosens(start: World, len: nat, targets: seq<Name>, w: World, f: Name)
    requires f in PendingSet(start) && Follows(Placed(start, f, len, targets), w, start.codeEnd)
    ensures LoosensBy(start, w)
  {
    assert LoosensBy(Placed(start, f, len, targets), w);
    hide Follows;
  }

  lemma {:induction false} PlacedOthers(start: World, len: nat, targets: seq<Name>, w: World, f: Name)
    requires f in PendingSet(start) && Follows(Placed(start, f, len, targets), w, start.codeEnd)
    ensures OthersFollow(start, Abandoned(w, f)) && OthersFollow(start, Finished(w, f))
  {
    var placed := Placed(start, f, len, targets);
    assert OthersFollow(placed, w) && EntriesFollow(placed, w);
    hide Follows;
    forall n: Name | n !in start.entries
      ensures Resolve(Abandoned(w, f), n) == Resolve(start, n) == Resolve(Finished(w, f), n)
    {
      assert Resolve(w, n) == Resolve(placed, n);
    }
  }

  lemma {:induction false} PlacedStillNoData(start: World, f: Name, len: nat, targets: seq<Name>)
    requires f in PendingSet(start)
    ensures NoData(start) ==> NoData(Placed(start, f, len, targets))
  {
  }

  /** Compiling and publishing bring no data relocations. */
  lemma {:induction false} PlacedNoData(start: World, len: nat, targets: seq<Name>, w: World, f: Name)
    requires f in PendingSet(start) && Follows(Placed(start, f, len, targets), w, start.codeEnd)
    ensures NoData(start) ==> NoData(Finished(w, f)) && NoRelocs(start.entries[f].globals)
  {
    if NoData(start) {
      NoDataStays(Placed(start, f, len, targets), w, start.codeEnd);
    }
  }

  lemma {:induction false} ReadyStays(w: World, w': World, f: Name)
    requires Follows(w, w', 0) && IsReady(w, f)
    ensures IsReady(w', f)
  {
  }

  lemma {:induction false} CompilingStays(w: World, w': World, f: Name)
    requires Follows(w, w', 0) && IsCompiling(w, f)
    ensures IsCompiling(w', f) && w'.entries[f] == w.entries[f]
  {
  }

  lemma {:induction false} ProviderSilent(ps: seq<Provider>, i: nat, n: Name)
    requires i < |ps| && FromProviders(ps, n) == FromProviders(ps[i..], n) == 0
    ensures FromProviders(ps[i + 1..], n) == 0
  {
    assert ps[i..][1..] == ps[i + 1..];
  }

  lemma {:induction false} CompilingFacts(w: World, f: Name)
    requires Valid(w) && IsCompiling(w, f)
    ensures w.entries[f].address != 0 && HasPiece(w, f, w.entries[f].address)
    ensures 0 !in w.pieces
  {
  }

  lemma {:induction false} FollowsSelf(w: World, own: Addr)
    requires Valid(w)
    ensures Follows(w, w, own)
  {
  }

  lemma {:induction false} ResolveSelf(w: World, f: Name)
    requires IsCompiling(w, f)
    ensures Resolve(w, f) == w.entries[f].address
  {
  }

  lemma {:induction false} LookupKeeps(w: World, w': World, at: Addr, k: nat)
    requires Follows(w, w', 0) && at in w.pieces && 0 !in w.pieces
    requires |w.pieces[at].slots| == |w.pieces[at].targets| && Patched(w, at, k)
    requires forall m: Name :: Resolve(w', m) == Resolve(w, m)
    ensures at in w'.pieces && w'.pieces[at] == w.pieces[at] && Patched(w', at, k)
  {
  }

  lemma {:induction false} PatchedStep(w: World, at: Addr, i: nat, a: Addr)
    requires at in w.pieces && |w.pieces[at].slots| == |w.pieces[at].targets|
    requires i < |w.pieces[at].targets| && Patched(w, at, i)
    requires a != 0 && a == Resolve(w, w.pieces[at].targets[i])
    ensures Patched(Patch(w, at, i, a), at, i + 1)
  {
  }
}
