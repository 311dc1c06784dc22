/** The release of the arena's base.  It can happen with callers that release only what they were handed and
    release it once; it cannot when a shard of the small-block heap sits at the base. */
module ArenaRelease {
  import opened Granules
  import opened Spans
  import opened ArenaModel
  import opened ArenaInvariant
  import opened ArenaSteps
  import opened ArenaTheorems
  import opened LiveSlots
  import opened SlotOwnership
  import opened PoolExhaustion
  import opened RedirectExhaustion

  // ---------------------------------------------------------------- A shard at the base prevents it

  /** The address was handed to the game by a redirect: before the run or in it, before move `k`. */
  ghost predicate HandedOut(ss: seq<System>, ms: seq<Move>, k: nat, ptr: nat)
    requires |ss| == |ms| + 1 && k <= |ms|
  {
    || ptr in ss[0].redirects || (exists x :: x in ss[0].dropped && x.addr == ptr)
    || exists j :: 0 <= j < k && Publishes(ss[j], ms[j], FreeRedirected(ptr), ptr)
  }

  lemma BaseStays(s: System, nodes: nat, t: int, a: Action)
    requires Owned(s, nodes) && Enabled(s, t, a)
    ensures (a.FreeRefused? || a.GiveBack?) ==> s.At(t).slot in s.world.live
    ensures Next(s, t, a).world.arena.base == s.world.arena.base && s.shards <= Next(s, t, a).shards
  {
    hide Invariant, AllocStep, ReleaseStep, Allocate, SlotPages;
    if a.FreeRefused? || a.GiveBack? {
      HandsBackLive(s, t, nodes);
      ReleaseFacts(s.world, s.At(t).slot, nodes);
    }
    if a.Request? { AllocFacts(s.world, a.size, a.fromTop, nodes); }
  }

  lemma {:induction false} BaseStaysAll(ss: seq<System>, ms: seq<Move>, nodes: nat, i: nat)
    requires IsInterleaving(ss, ms) && Owned(ss[0], nodes) && i <= |ms|
    ensures ss[i].world.arena.base == ss[0].world.arena.base && ss[0].shards <= ss[i].shards
  {
    hide Owned, Next, Enabled;
    if i > 0 {
      BaseStaysAll(ss, ms, nodes, i - 1);
      InterleavingOwned(ss, ms, nodes, i - 1);
      BaseStays(ss[i - 1], nodes, ms[i - 1].t, ms[i - 1].a);
    }
  }

  /** Nothing else is ever at the address of a shard. */
  lemma ShardAlone(s: System, nodes: nat, x: Slot)
    requires Owned(s, nodes) && x in s.shards
    ensures x.addr !in s.redirects && (forall y | y in s.dropped :: y.addr != x.addr)
    ensures forall t | !s.At(t).Idle? :: s.At(t).slot.addr != x.addr
  {
    hide Invariant;
    assert Holds(s, ShardHeap, x);
    forall a | a in s.redirects ensures a != x.addr { assert Holds(s, Redirect, Slot(a, s.redirects[a])); }
    forall y | y in s.dropped ensures y.addr != x.addr { assert Holds(s, Nobody, y); }
    forall t | !s.At(t).Idle? ensures s.At(t).slot.addr != x.addr { assert Holds(s, Thread(t), s.At(t).slot); }
  }

  lemma ShardNotHandedOut(ss: seq<System>, ms: seq<Move>, nodes: nat, x: Slot, k: nat, ptr: nat)
    requires IsInterleaving(ss, ms) && Owned(ss[0], nodes) && x in ss[0].shards && k <= |ms|
    requires HandedOut(ss, ms, k, ptr)
    ensures ptr != x.addr
  {
    hide Owned, Next, Enabled;
    ShardAlone(ss[0], nodes, x);
    forall j | 0 <= j < k && Publishes(ss[j], ms[j], FreeRedirected(ptr), ptr) ensures ptr != x.addr {
      InterleavingOwned(ss, ms, nodes, j);
      BaseStaysAll(ss, ms, nodes, j);
      ShardAlone(ss[j], nodes, x);
    }
  }

  /** With a shard at the base, and releases only of addresses that were handed out, however often, no move
      of any run releases the arena, and everybody always has the pages they rely on. */
  lemma ShardGuardsBase(ss: seq<System>, ms: seq<Move>, nodes: nat, x: Slot, i: nat)
    requires IsInterleaving(ss, ms) && Owned(ss[0], nodes) && PagesHeld(ss[0]) && i <= |ms|
    requires x in ss[0].shards && x.addr == ss[0].world.arena.base
    requires forall k | 0 <= k < |ms| && (ms[k].a.FreeRedirected? || ms[k].a.FreeUnseen?) :: HandedOut(ss, ms, k, ms[k].a.ptr)
    ensures forall k | 0 <= k < |ms| :: !Releases(ss[k], ms[k].a)
    ensures ss[i].page > 0 && PagesHeld(ss[i])
  {
    hide Owned, PagesHeld, Next, Enabled, HandedOut;
    forall k | 0 <= k < |ms| ensures !Releases(ss[k], ms[k].a) {
      BaseStaysAll(ss, ms, nodes, k);
      if ms[k].a.FreeRedirected? || ms[k].a.FreeUnseen? { ShardNotHandedOut(ss, ms, nodes, x, k, ms[k].a.ptr); }
    }
    PagesUpTo(ss, ms, nodes, i);
  }

  /** Such a start exists: the first carve of a fresh arena is at its base. */
  lemma ShardedStart(base: nat, size: nat, gran: nat, nodes: nat, page: nat, shard: nat) returns (s: System)
    requires Reservable(base, size, gran, nodes) && page > 0 && gran % page == 0
    requires shard > 0 && AlignUp(shard, gran) == shard && shard + gran <= size
    ensures Reached(Started(FreshWorld(base, size, gran, nodes), page), s, nodes)
    ensures Slot(base, shard) in s.shards && s.world.arena.base == base
  {
    var s0 := Started(FreshWorld(base, size, gran, nodes), page);
    StartRedirecting(base, size, gran, nodes, page);
    hide Owned, PagesHeld, Allocate, AllocStep, Started, FreshWorld, Served;
    ReachedSelf(s0, nodes);
    hide Reached;
    AllocWorld(s0.world, shard);
    CarveBottom(s0.world.arena, base, size, shard);
    s := Serve(s0, s0, nodes, Slot(base, shard), Shard);
  }

  // ---------------------------------------------------------------- Without one it happens

  /** The slot at the base went back to its cache; beside it the arena is one free block. */
  ghost predicate BaseCached(a: Arena, base: nat, size: nat, gran: nat, next: nat, left: nat) {
    && InRange(a, base, size, gran) && BandsSized(a.counters)
    && a.free == [Span(next, left)] && a.classes == [SizeClass(gran, [Span(base, gran)])]
  }

  lemma FirstCached(a: Arena, r: Span)
    requires a.classes == [] && a.spare > 0
    ensures Recycle(a, r) == a.(classes := [SizeClass(r.size, [r])], spare := a.spare - 1, cachedBytes := a.cachedBytes + r.size)
  {
    assert [r] + [] == [r];
    assert ([] + [SizeClass(r.size, [])])[0 := SizeClass(r.size, [r])] == [SizeClass(r.size, [r])];
  }

  lemma BaseGoesBack(w: World, nodes: nat, base: nat, size: nat, gran: nat, next: nat, left: nat)
    requires Invariant(w, nodes) && base > 0 && gran > 0 && InRange(w.arena, base, size, gran)
    requires OneBlock(w.arena, next, left) && w.arena.spare > 0 && Slot(base, gran) in w.live
    ensures BaseCached(ReleaseStep(w, Slot(base, gran)).arena, base, size, gran, next, left)
  {
    Widths(0, gran);
    ReleaseFacts(w, Slot(base, gran), nodes);
    BaseOwned(w, nodes, Slot(base, gran));
    hide Invariant, Recycle, Free, ReleaseStep;
    FirstCached(w.arena, Span(base, gran));
    FreeIsRecycle(w.arena, base, gran);
    assert AlignUp(gran, gran) == gran;
  }

  lemma BaseOwned(w: World, nodes: nat, x: Slot)
    requires Invariant(w, nodes) && x in w.live
    ensures w.arena.Owns(x.addr)
  {
    PositiveSlot(w, x);
    HeldDisjoint(w.arena, LiveSpans(w.live, w.arena.gran), w.lost, IndexOf(w.live, x));
  }

  /** Two granules are not cached, so they are carved. */
  lemma TwoAreCarved(w: World, base: nat, size: nat, gran: nat, next: nat, left: nat)
    requires base > 0 && gran > 0 && BaseCached(w.arena, base, size, gran, next, left) && left >= 3 * gran
    ensures var w' := AllocStep(w, 2 * gran, false);
      && Allocate(w.arena, 2 * gran, false).1 == Some(Span(next, 2 * gran))
      && BaseCached(w'.arena, base, size, gran, next + 2 * gran, left - 2 * gran)
  {
    Widths(0, gran);
    AllocWorld(w, 2 * gran);
    CarveBeside(w.arena, base, size, gran, next, left);
  }

  lemma CarveBeside(a: Arena, base: nat, size: nat, gran: nat, next: nat, left: nat)
    requires base > 0 && gran > 0 && BaseCached(a, base, size, gran, next, left) && left >= 3 * gran
    requires AlignUp(2 * gran, gran) == 2 * gran
    ensures var r := Allocate(a, 2 * gran, false);
      r.1 == Some(Span(next, 2 * gran)) && BaseCached(r.0, base, size, gran, next + 2 * gran, left - 2 * gran)
  {
    var n := 2 * gran;
    assert PopIndex(a.classes, 1, n) == 1;
    assert a.free[0 := Span(next + n, left - n)] == [Span(next + n, left - n)];
    assert TakeFit(a.free, n, gran, false) == Some(Spans.Taken.Taken(Span(next, n), [Span(next + n, left - n)], false));
    assert Fit(CountRequest(a), n, false).1 == Some(Span(next, n));
  }

  /** One granule is: the slot at the base. */
  lemma BaseIsReused(w: World, base: nat, size: nat, gran: nat, next: nat, left: nat)
    requires base > 0 && gran > 0 && BaseCached(w.arena, base, size, gran, next, left)
    ensures var w' := AllocStep(w, gran, false);
      && Allocate(w.arena, gran, false).1 == Some(Span(base, gran))
      && w'.arena.base == base && w'.arena.gran == gran && BandsSized(w'.arena.counters)
  {
    Widths(0, gran);
    AllocWorld(w, gran);
    GrantCounters(CountRequest(w.arena), gran, false);
    assert PopIndex(w.arena.classes, 0, gran) == 0;
  }

  lemma StepTake(s: System, x: Slot)
    requires CanRun(s) && s.At(0).Idle? && x.addr in s.redirects && s.redirects[x.addr] == x.requested
    ensures Enabled(s, 0, FreeRedirected(x.addr)) && !Releases(s, FreeRedirected(x.addr))
    ensures Next(s, 0, FreeRedirected(x.addr)) == s.With(0, Pc.Taken(x)).(redirects := s.redirects - {x.addr})
  {
  }

  lemma StepDecommit(s: System, x: Slot)
    requires CanRun(s) && s.At(0) == Pc.Taken(x)
    ensures Enabled(s, 0, Decommit)
    ensures var s' := Next(s, 0, Decommit); s' == s.With(0, Decommitted(x)).(committed := s'.committed)
  {
    hide SlotPages;
  }

  lemma StepGiveBack(s: System, x: Slot)
    requires CanRun(s) && s.At(0) == Decommitted(x) && x in s.world.live
    ensures Enabled(s, 0, GiveBack) && Next(s, 0, GiveBack) == s.With(0, Idle).(world := ReleaseStep(s.world, x))
  {
    hide ReleaseStep;
  }

  /** Thread 0 releases the redirected reservation `x`. */
  lemma ReleaseTracked(s0: System, s: System, nodes: nat, x: Slot) returns (s': System)
    requires Reached(s0, s, nodes) && CanRun(s) && s.At(0).Idle?
    requires x.addr in s.redirects && s.redirects[x.addr] == x.requested
    ensures x in s.world.live && Reached(s0, s', nodes)
    ensures s' == s.(world := ReleaseStep(s.world, x), threads := s.threads[0 := Idle], redirects := s.redirects - {x.addr}, committed := s'.committed)
  {
    RedirectLive(s0, s, nodes, x);
    hide Reached, ReleaseStep, CanRun;
    var s1 := TakeTracked(s0, s, nodes, x);
    s' := GiveTaken(s0, s1, nodes, x);
    assert s.threads[0 := Pc.Taken(x)][0 := Idle] == s.threads[0 := Idle];
  }

  lemma TakeTracked(s0: System, s: System, nodes: nat, x: Slot) returns (s': System)
    requires Reached(s0, s, nodes) && CanRun(s) && s.At(0).Idle?
    requires x.addr in s.redirects && s.redirects[x.addr] == x.requested
    ensures Reached(s0, s', nodes) && CanRun(s') && s' == s.With(0, Pc.Taken(x)).(redirects := s.redirects - {x.addr})
  {
    StepTake(s, x);
    hide Reached, Next, Enabled, Releases;
    ReachedStep(s0, s, nodes, 0, FreeRedirected(x.addr));
    s' := Next(s, 0, FreeRedirected(x.addr));
  }

  lemma GiveTaken(s0: System, s: System, nodes: nat, x: Slot) returns (s': System)
    requires Reached(s0, s, nodes) && CanRun(s) && s.At(0) == Pc.Taken(x) && x in s.world.live
    ensures Reached(s0, s', nodes)
    ensures s' == s.(world := ReleaseStep(s.world, x), threads := s.threads[0 := Idle], committed := s'.committed)
  {
    hide Reached, ReleaseStep, CanRun;
    var s1 := DecommitTaken(s0, s, nodes, x);
    s' := ReturnTaken(s0, s1, nodes, x);
    assert s.threads[0 := Decommitted(x)][0 := Idle] == s.threads[0 := Idle];
  }

  lemma DecommitTaken(s0: System, s: System, nodes: nat, x: Slot) returns (s': System)
    requires Reached(s0, s, nodes) && CanRun(s) && s.At(0) == Pc.Taken(x)
    ensures Reached(s0, s', nodes) && CanRun(s') && s' == s.With(0, Decommitted(x)).(committed := s'.committed)
  {
    StepDecommit(s, x);
    hide Reached, Next, Enabled;
    ReachedStep(s0, s, nodes, 0, Decommit);
    s' := Next(s, 0, Decommit);
  }

  lemma ReturnTaken(s0: System, s: System, nodes: nat, x: Slot) returns (s': System)
    requires Reached(s0, s, nodes) && CanRun(s) && s.At(0) == Decommitted(x) && x in s.world.live
    ensures Reached(s0, s', nodes) && s' == s.With(0, Idle).(world := ReleaseStep(s.world, x))
  {
    StepGiveBack(s, x);
    hide Reached, Next, Enabled, ReleaseStep;
    ReachedStep(s0, s, nodes, 0, GiveBack);
    s' := Next(s, 0, GiveBack);
  }

  lemma RedirectLive(s0: System, s: System, nodes: nat, x: Slot)
    requires Reached(s0, s, nodes) && x.addr in s.redirects && s.redirects[x.addr] == x.requested
    ensures x in s.world.live && Invariant(s.world, nodes)
  {
    hide Invariant;
    assert Holds(s, Redirect, x);
  }

  /** In an arena of 8197 granules without a shard at its base, callers that release once what they were
      handed can lose every page: the table is full with the base in it, the base is released, another
      reservation takes its place in the table, the base is granted again and forgotten, and released. */
  lemma OrdinaryReleaseTakesArena(base: nat, size: nat, gran: nat, nodes: nat, page: nat) returns (s: System)
    requires Reservable(base, size, gran, nodes) && nodes > 1 && page > 0 && gran % page == 0
    requires 8197 * gran <= size
    ensures Reached(Started(FreshWorld(base, size, gran, nodes), page), s, nodes)
    ensures Slot(base, gran) in s.dropped && Enabled(s, 0, FreeRedirected(base))
    ensures Fatal(s, FreeRedirected(base)) && Owned(Next(s, 0, FreeRedirected(base)), nodes)
    ensures s.page > 0 && !PagesHeld(Next(s, 0, FreeRedirected(base)))
  {
    var s0, k := Started(FreshWorld(base, size, gran, nodes), page), REDIRECT_CAPACITY;
    StartRedirecting(base, size, gran, nodes, page);
    OffsetIsProduct(k + 5, gran);
    hide Started, FreshWorld;
    s := ForgetBase(s0, base, size, gran, nodes, k);
    PagesKeptExactly(s, 0, FreeRedirected(base), nodes);
  }

  /** The table lacks `m` entries to be full, and the base is in its cache. */
  ghost predicate BaseFreed(s: System, base: nat, size: nat, gran: nat, next: nat, left: nat, m: nat) {
    && BaseCached(s.world.arena, base, size, gran, next, left) && CanRun(s) && s.reserved && s.At(0).Idle?
    && |s.redirects| + m == REDIRECT_CAPACITY && base !in s.redirects && s.dropped == {}
    && forall a | a in s.redirects :: a < next
  }

  lemma FreeBase(s0: System, full: System, nodes: nat, base: nat, size: nat, gran: nat, k: nat) returns (u: System)
    requires base > 0 && gran > 0 && k == REDIRECT_CAPACITY && Redirecting(full, base, size, gran, k)
    requires Reached(s0, full, nodes) && full.world.arena.spare > 0
    ensures Reached(s0, u, nodes) && BaseFreed(u, base, size, gran, base + Offset(k, gran), size - Offset(k, gran), 1)
  {
    var x := Slot(base, gran);
    TrackedBase(full, base, size, gran, k);
    hide Redirecting, Reached, Invariant, ReleaseStep, Offset, BaseFreed, CanRun;
    RedirectLive(s0, full, nodes, x);
    u := ReleaseTracked(s0, full, nodes, x);
    FreedBase(full, u, nodes, base, size, gran, k);
  }

  lemma TrackedBase(s: System, base: nat, size: nat, gran: nat, k: nat)
    requires gran > 0 && k > 0 && Redirecting(s, base, size, gran, k)
    ensures base in s.redirects && s.redirects[base] == gran && CanRun(s) && s.At(0).Idle? && Offset(k, gran) < size
  {
  }

  lemma FreedBase(full: System, u: System, nodes: nat, base: nat, size: nat, gran: nat, k: nat)
    requires base > 0 && gran > 0 && k == REDIRECT_CAPACITY && Redirecting(full, base, size, gran, k)
    requires Invariant(full.world, nodes) && full.world.arena.spare > 0 && Slot(base, gran) in full.world.live
    requires full.world.arena.gran > 0
    requires u == full.(world := ReleaseStep(full.world, Slot(base, gran)), threads := full.threads[0 := Idle],
                        redirects := full.redirects - {base}, committed := u.committed)
    ensures BaseFreed(u, base, size, gran, base + Offset(k, gran), size - Offset(k, gran), 1)
  {
    hide Invariant, ReleaseStep, Offset, OneBlock, BaseCached, InRange, BandsSized;
    var next, left := base + Offset(k, gran), size - Offset(k, gran);
    BaseGoesBack(full.world, nodes, base, size, gran, next, left);
    BaseRuns(u, base, size, gran, next, left);
  }

  lemma BaseRuns(s: System, base: nat, size: nat, gran: nat, next: nat, left: nat)
    requires gran > 0 && s.page > 0 && BaseCached(s.world.arena, base, size, gran, next, left)
    ensures CanRun(s)
  {
  }

  lemma FillAgain(s0: System, u: System, nodes: nat, base: nat, size: nat, gran: nat, next: nat, left: nat) returns (v: System)
    requires base > 0 && gran > 0 && left >= 3 * gran && Reached(s0, u, nodes) && BaseFreed(u, base, size, gran, next, left, 1)
    requires base < next
    ensures Reached(s0, v, nodes) && BaseFreed(v, base, size, gran, next + 2 * gran, left - 2 * gran, 0)
  {
    var y := Slot(next, 2 * gran);
    GrantedTwo(u, base, size, gran, next, left);
    hide Reached, Allocate, AllocStep, BaseFreed, Granted, Served;
    v := Serve(s0, u, nodes, y, Redirected);
    FilledAgain(u, v, base, size, gran, next, left);
  }

  lemma GrantedTwo(u: System, base: nat, size: nat, gran: nat, next: nat, left: nat)
    requires base > 0 && gran > 0 && left >= 3 * gran && BaseFreed(u, base, size, gran, next, left, 1)
    ensures Granted(u, Slot(next, 2 * gran))
  {
    TwoAreCarved(u.world, base, size, gran, next, left);
    hide Allocate, AllocStep;
  }

  lemma FilledAgain(u: System, v: System, base: nat, size: nat, gran: nat, next: nat, left: nat)
    requires base > 0 && gran > 0 && left >= 3 * gran && BaseFreed(u, base, size, gran, next, left, 1) && base < next
    requires v.world == AllocStep(u.world, 2 * gran, false) && Served(u, v, Slot(next, 2 * gran), Redirected)
    ensures BaseFreed(v, base, size, gran, next + 2 * gran, left - 2 * gran, 0)
  {
    TwoAreCarved(u.world, base, size, gran, next, left);
    hide Allocate, AllocStep, BaseCached;
    BaseRuns(v, base, size, gran, next + 2 * gran, left - 2 * gran);
    assert next !in u.redirects;
  }

  lemma ForgetReused(s0: System, v: System, nodes: nat, base: nat, size: nat, gran: nat, next: nat, left: nat) returns (s: System)
    requires base > 0 && gran > 0 && Reached(s0, v, nodes) && BaseFreed(v, base, size, gran, next, left, 0)
    ensures Reached(s0, s, nodes) && Slot(base, gran) in s.dropped && s.redirects == v.redirects && s.reserved
    ensures CanRun(s) && s.At(0).Idle? && s.world.arena.base == base
  {
    BaseIsReused(v.world, base, size, gran, next, left);
    hide Reached, Allocate, AllocStep, BaseCached;
    s := Serve(s0, v, nodes, Slot(base, gran), Redirected);
  }

  lemma EntryRelied(s: System, a: nat)
    requires a in s.redirects
    ensures Relied(s)
  {
    assert Holds(s, Redirect, Slot(a, s.redirects[a])) && Relies(s, Redirect);
  }

  lemma ForgetBase(s0: System, base: nat, size: nat, gran: nat, nodes: nat, k: nat) returns (s: System)
    requires base > 0 && gran > 0 && Owned(s0, nodes) && PagesHeld(s0) && Redirecting(s0, base, size, gran, 0)
    requires s0.world.arena.spare > 0 && k == REDIRECT_CAPACITY && Offset(k + 5, gran) <= size
    ensures Reached(s0, s, nodes) && Slot(base, gran) in s.dropped && Enabled(s, 0, FreeRedirected(base))
    ensures Fatal(s, FreeRedirected(base))
  {
    hide Reached, Redirecting, Owned, PagesHeld, Offset, BaseFreed, CanRun, Fatal, Enabled;
    Room(k, size, gran);
    var full := RedirectMany(s0, nodes, base, size, gran, k);
    var u := FreeBase(s0, full, nodes, base, size, gran, k);
    s := ForgetFreed(s0, u, nodes, base, size, gran, base + Offset(k, gran), size - Offset(k, gran));
  }

  lemma ForgetFreed(s0: System, u: System, nodes: nat, base: nat, size: nat, gran: nat, next: nat, left: nat) returns (s: System)
    requires base > 0 && gran > 0 && left >= 3 * gran && Reached(s0, u, nodes) && BaseFreed(u, base, size, gran, next, left, 1)
    requires base < next
    ensures Reached(s0, s, nodes) && Slot(base, gran) in s.dropped && Enabled(s, 0, FreeRedirected(base))
    ensures Fatal(s, FreeRedirected(base))
  {
    hide Reached, BaseFreed, CanRun, Fatal, Enabled;
    var v := FillAgain(s0, u, nodes, base, size, gran, next, left);
    s := ForgetReused(s0, v, nodes, base, size, gran, next + 2 * gran, left - 2 * gran);
    ForgottenFatal(s, v, base, size, gran, next + 2 * gran, left - 2 * gran);
  }

  lemma ForgottenFatal(s: System, v: System, base: nat, size: nat, gran: nat, next: nat, left: nat)
    requires gran > 0 && BaseFreed(v, base, size, gran, next, left, 0) && s.redirects == v.redirects && s.reserved
    requires CanRun(s) && s.At(0).Idle? && s.world.arena.base == base
    ensures Enabled(s, 0, FreeRedirected(base)) && Fatal(s, FreeRedirected(base))
  {
    hide BaseCached;
    var a :| a in v.redirects;
    EntryRelied(s, a);
  }

  lemma Room(k: nat, size: nat, gran: nat)
    requires gran > 0 && k > 0 && Offset(k + 5, gran) <= size
    ensures Offset(k, gran) > 0 && Offset(k, gran) + 5 * gran <= size && Offset(k + 1, gran) <= size
  {
    OffsetAdds(k, 5, gran);
    OffsetIsProduct(5, gran);
    OffsetGrows(0, k, gran);
    OffsetGrows(k + 1, k + 5, gran);
  }
}
