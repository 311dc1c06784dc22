/** What a thread can run into that redirects one reservation after another: the table fills up and forgets
    one, whose release then finds no entry. */
module RedirectExhaustion {
  import opened Granules
  import opened Spans
  import opened ArenaModel
  import opened ArenaInvariant
  import opened ArenaTheorems
  import opened SlotOwnership
  import opened PoolExhaustion

  // ---------------------------------------------------------------- Reachable states

  ghost predicate Interleaves(s0: System, s: System) {
    exists ss: seq<System>, ms: seq<Move> :: |ss| == |ms| + 1 && IsInterleaving(ss, ms) && ss[0] == s0 && ss[|ms|] == s
  }

  /** Moves lead from `s0` to `s`, where everybody has the pages they rely on. */
  ghost predicate Reached(s0: System, s: System, nodes: nat) {
    Interleaves(s0, s) && Owned(s, nodes) && PagesHeld(s)
  }

  lemma ReachedSelf(s: System, nodes: nat)
    requires Owned(s, nodes) && PagesHeld(s)
    ensures Reached(s, s, nodes)
  {
    var ss: seq<System>, ms: seq<Move> := [s], [];
    assert IsInterleaving(ss, ms) && ss[0] == s && ss[|ms|] == s;
  }

  lemma InterleavesStep(s0: System, s: System, t: int, a: Action)
    requires Interleaves(s0, s) && Enabled(s, t, a) && ((a.FreeRefused? || a.GiveBack?) ==> s.At(t).slot in s.world.live)
    ensures Interleaves(s0, Next(s, t, a))
  {
    hide Next, CanRun;
    var ss: seq<System>, ms: seq<Move> :| |ss| == |ms| + 1 && IsInterleaving(ss, ms) && ss[0] == s0 && ss[|ms|] == s;
    hide IsInterleaving;
    OneMove(ss, ms, t, a);
    var ss', ms' := ss + [Next(s, t, a)], ms + [Move(t, a)];
    assert IsInterleaving(ss', ms') && ss'[0] == s0 && ss'[|ms'|] == Next(s, t, a);
  }

  lemma OneMove(ss: seq<System>, ms: seq<Move>, t: int, a: Action)
    requires IsInterleaving(ss, ms) && Enabled(ss[|ms|], t, a)
    requires (a.FreeRefused? || a.GiveBack?) ==> ss[|ms|].At(t).slot in ss[|ms|].world.live
    ensures |ss| == |ms| + 1 && IsInterleaving(ss + [Next(ss[|ms|], t, a)], ms + [Move(t, a)])
  {
    hide Next, CanRun;
    var ss', ms' := ss + [Next(ss[|ms|], t, a)], ms + [Move(t, a)];
    forall i | 0 <= i < |ms'|
      ensures Enabled(ss'[i], ms'[i].t, ms'[i].a)
      ensures (ms'[i].a.FreeRefused? || ms'[i].a.GiveBack?) ==> ss'[i].At(ms'[i].t).slot in ss'[i].world.live
      ensures ss'[i + 1] == Next(ss'[i], ms'[i].t, ms'[i].a)
    {
      if i < |ms| { assert ms'[i] == ms[i] && ss'[i] == ss[i] && ss'[i + 1] == ss[i + 1]; }
    }
  }

  lemma ReachedStep(s0: System, s: System, nodes: nat, t: int, a: Action)
    requires Reached(s0, s, nodes) && Enabled(s, t, a) && !Releases(s, a)
    ensures (a.FreeRefused? || a.GiveBack?) ==> s.At(t).slot in s.world.live
    ensures Reached(s0, Next(s, t, a), nodes)
  {
    OwnershipKept(s, t, a, nodes);
    hide Owned, Interleaves, Next, Releases;
    InterleavesStep(s0, s, t, a);
  }

  // ---------------------------------------------------------------- One allocation by one thread

  /** What a committed slot changes once it is published: it is tracked, forgotten by a full table, or a shard. */
  ghost predicate Served(s: System, s': System, x: Slot, use: Use) {
    && s'.page == s.page && s'.reserved == s.reserved && s'.threads == s.threads[0 := Idle]
    && s'.redirects == (if use.Redirected? && |s.redirects| < REDIRECT_CAPACITY then s.redirects[x.addr := x.requested] else s.redirects)
    && s'.dropped == (if use.Redirected? && |s.redirects| >= REDIRECT_CAPACITY then s.dropped + {x} else s.dropped)
    && s'.shards == if use.Shard? then s.shards + {x} else s.shards
  }

  /** Thread 0 can ask, and is granted `x`. */
  ghost predicate Granted(s: System, x: Slot) {
    && CanRun(s) && s.At(0).Idle? && s.reserved && x.requested > 0
    && (match Allocate(s.world.arena, x.requested, false).1 case None => false case Some(r) => r.addr == x.addr)
    && BandsSized(AllocStep(s.world, x.requested, false).arena.counters) && AllocStep(s.world, x.requested, false).arena.gran > 0
  }

  lemma StepRequest(s: System, x: Slot, use: Use)
    requires Granted(s, x)
    ensures Enabled(s, 0, Request(x.requested, false, use))
    ensures Next(s, 0, Request(x.requested, false, use)) == s.(world := AllocStep(s.world, x.requested, false)).With(0, Carved(x, use))
  {
    hide AllocStep, Allocate;
  }

  lemma StepCommit(s: System, x: Slot, use: Use)
    requires CanRun(s) && s.reserved && s.At(0) == Carved(x, use)
    ensures Enabled(s, 0, Action.Commit(true))
    ensures var s' := Next(s, 0, Action.Commit(true)); s' == s.With(0, Pc.Committed(x, use)).(committed := s'.committed)
  {
    hide SlotPages;
  }

  lemma StepPublish(s: System, x: Slot, use: Use)
    requires CanRun(s) && s.At(0) == Pc.Committed(x, use) && !use.Recorded?
    ensures Enabled(s, 0, Publish(true))
    ensures var s' := Next(s, 0, Publish(true)); Served(s, s', x, use) && s'.world == s.world
  {
  }

  lemma ServeRequest(s0: System, s: System, nodes: nat, x: Slot, use: Use) returns (s': System)
    requires Reached(s0, s, nodes) && Granted(s, x)
    ensures Reached(s0, s', nodes) && CanRun(s')
    ensures s' == s.(world := AllocStep(s.world, x.requested, false)).With(0, Carved(x, use))
  {
    StepRequest(s, x, use);
    assert CanRun(s.(world := AllocStep(s.world, x.requested, false)));
    hide AllocStep, Reached, Next, Granted, Enabled, CanRun;
    s' := Next(s, 0, Request(x.requested, false, use));
    ReachedStep(s0, s, nodes, 0, Request(x.requested, false, use));
  }

  lemma ServeCommit(s0: System, s: System, nodes: nat, x: Slot, use: Use) returns (s': System)
    requires Reached(s0, s, nodes) && CanRun(s) && s.reserved && s.At(0) == Carved(x, use)
    ensures Reached(s0, s', nodes) && CanRun(s') && s' == s.With(0, Pc.Committed(x, use)).(committed := s'.committed)
  {
    StepCommit(s, x, use);
    hide Reached, Next, Enabled;
    s' := Next(s, 0, Action.Commit(true));
    ReachedStep(s0, s, nodes, 0, Action.Commit(true));
  }

  lemma ServePublish(s0: System, s: System, nodes: nat, x: Slot, use: Use) returns (s': System)
    requires Reached(s0, s, nodes) && CanRun(s) && s.At(0) == Pc.Committed(x, use) && !use.Recorded?
    ensures Reached(s0, s', nodes) && Served(s, s', x, use) && s'.world == s.world
  {
    StepPublish(s, x, use);
    hide Reached, Next, Enabled, Served;
    s' := Next(s, 0, Publish(true));
    ReachedStep(s0, s, nodes, 0, Publish(true));
  }

  /** Thread 0 asks for a slot, commits it and publishes it. */
  lemma Serve(s0: System, s: System, nodes: nat, x: Slot, use: Use) returns (s': System)
    requires Reached(s0, s, nodes) && Granted(s, x) && !use.Recorded?
    ensures Reached(s0, s', nodes) && s'.world == AllocStep(s.world, x.requested, false) && Served(s, s', x, use)
  {
    assert s.reserved;
    hide AllocStep, Allocate, Reached, Granted, CanRun, Served;
    var s1 := ServeRequest(s0, s, nodes, x, use);
    var s2 := ServeCommit(s0, s1, nodes, x, use);
    s' := ServePublish(s0, s2, nodes, x, use);
    ServedInAll(s, AllocStep(s.world, x.requested, false), s2.committed, s', x, use);
  }

  lemma ServedInAll(s: System, w: World, committed: iset<int>, s': System, x: Slot, use: Use)
    requires Served(s.(world := w).With(0, Carved(x, use)).With(0, Pc.Committed(x, use)).(committed := committed), s', x, use)
    ensures Served(s, s', x, use)
  {
    assert s.threads[0 := Carved(x, use)][0 := Pc.Committed(x, use)][0 := Idle] == s.threads[0 := Idle];
  }

  // ---------------------------------------------------------------- Filling the table

  /** `k` reservations of one granule are redirected and tracked, the first of them at the base. */
  ghost predicate Redirecting(s: System, base: nat, size: nat, gran: nat, k: nat) {
    && InRange(s.world.arena, base, size, gran) && BandsSized(s.world.arena.counters) && s.page > 0 && s.reserved
    && Offset(k, gran) < size && OneBlock(s.world.arena, base + Offset(k, gran), size - Offset(k, gran))
    && s.threads.Keys <= {0} && s.At(0).Idle? && |s.redirects| == k && s.dropped == {}
    && (k > 0 ==> base in s.redirects && s.redirects[base] == gran)
    && forall a | a in s.redirects :: a < base + Offset(k, gran)
  }

  lemma CarveWorld(w: World, base: nat, size: nat, gran: nat, k: nat)
    requires base > 0 && gran > 0 && InRange(w.arena, base, size, gran) && BandsSized(w.arena.counters)
    requires Offset(k, gran) < size && Offset(k + 2, gran) <= size && OneBlock(w.arena, base + Offset(k, gran), size - Offset(k, gran))
    ensures var w' := AllocStep(w, gran, false);
      && Allocate(w.arena, gran, false).1 == Some(Span(base + Offset(k, gran), gran))
      && InRange(w'.arena, base, size, gran) && BandsSized(w'.arena.counters) && w'.arena.spare == w.arena.spare
      && Offset(k + 1, gran) < size && OneBlock(w'.arena, base + Offset(k + 1, gran), size - Offset(k + 1, gran))
  {
    Widths(0, gran);
    assert Offset(k + 2, gran) == Offset(k + 1, gran) + gran == Offset(k, gran) + 2 * gran;
    AllocWorld(w, gran);
    hide Allocate, AllocStep, AlignUp, Offset;
    CarveBottom(w.arena, base + Offset(k, gran), size - Offset(k, gran), gran);
  }

  lemma AllocWorld(w: World, n: nat)
    requires w.arena.gran > 0 && BandsSized(w.arena.counters)
    ensures AllocStep(w, n, false).arena == Allocate(w.arena, n, false).0 && BandsSized(AllocStep(w, n, false).arena.counters)
  {
    GrantCounters(CountRequest(w.arena), n, false);
  }

  lemma GrantedOne(s: System, base: nat, size: nat, gran: nat, k: nat, x: Slot)
    requires base > 0 && gran > 0 && Redirecting(s, base, size, gran, k) && Offset(k + 2, gran) <= size
    requires x == Slot(base + Offset(k, gran), gran)
    ensures Granted(s, x)
  {
    hide AllocStep, Allocate;
    CarveWorld(s.world, base, size, gran, k);
  }

  /** The next granule is redirected: tracked, or forgotten if the table is full. */
  lemma RedirectOne(s0: System, s: System, nodes: nat, base: nat, size: nat, gran: nat, k: nat) returns (s': System)
    requires base > 0 && gran > 0 && Reached(s0, s, nodes)
    requires Redirecting(s, base, size, gran, k) && Offset(k + 2, gran) <= size
    ensures Reached(s0, s', nodes) && s'.world == AllocStep(s.world, gran, false)
    ensures Served(s, s', Slot(base + Offset(k, gran), gran), Redirected)
  {
    hide Redirecting, AllocStep, Reached, Offset, Allocate, Served, Granted;
    var x := Slot(base + Offset(k, gran), gran);
    GrantedOne(s, base, size, gran, k, x);
    s' := Serve(s0, s, nodes, x, Redirected);
  }

  lemma OneMore(s: System, s': System, base: nat, size: nat, gran: nat, k: nat)
    requires base > 0 && gran > 0 && k < REDIRECT_CAPACITY && Redirecting(s, base, size, gran, k) && Offset(k + 2, gran) <= size
    requires s'.world == AllocStep(s.world, gran, false) && Served(s, s', Slot(base + Offset(k, gran), gran), Redirected)
    ensures Redirecting(s', base, size, gran, k + 1) && s'.world.arena.spare == s.world.arena.spare
  {
    hide AllocStep, Allocate, OneBlock, InRange, BandsSized;
    assert Offset(k + 1, gran) == Offset(k, gran) + gran;
    hide Offset;
    CarveWorld(s.world, base, size, gran, k);
    EntriesGrow(s.redirects, base, Offset(k, gran), gran, k);
  }

  lemma EntriesGrow(m: map<nat, nat>, base: nat, offset: nat, gran: nat, k: nat)
    requires gran > 0 && |m| == k && (k > 0 ==> base in m && m[base] == gran) && (k == 0 ==> offset == 0)
    requires forall a | a in m :: a < base + offset
    ensures var n := m[base + offset := gran];
      |n| == k + 1 && base in n && n[base] == gran && forall a | a in n :: a < base + offset + gran
  {
    assert base + offset !in m;
  }

  lemma {:induction false} RedirectMany(s0: System, nodes: nat, base: nat, size: nat, gran: nat, k: nat) returns (s: System)
    requires base > 0 && gran > 0 && Owned(s0, nodes) && PagesHeld(s0) && Redirecting(s0, base, size, gran, 0)
    requires k <= REDIRECT_CAPACITY && Offset(k + 1, gran) <= size
    ensures Reached(s0, s, nodes) && Redirecting(s, base, size, gran, k) && s.world.arena.spare == s0.world.arena.spare
  {
    hide Reached, Redirecting, Owned, PagesHeld, Served;
    if k == 0 {
      s := s0;
      ReachedSelf(s0, nodes);
    } else {
      assert Offset(k, gran) <= Offset(k + 1, gran);
      var u := RedirectMany(s0, nodes, base, size, gran, k - 1);
      s := RedirectOne(s0, u, nodes, base, size, gran, k - 1);
      OneMore(u, s, base, size, gran, k - 1);
    }
  }

  lemma StartRedirecting(base: nat, size: nat, gran: nat, nodes: nat, page: nat)
    requires Reservable(base, size, gran, nodes) && page > 0 && gran % page == 0
    ensures var s0 := Started(FreshWorld(base, size, gran, nodes), page);
      Redirecting(s0, base, size, gran, 0) && Owned(s0, nodes) && PagesHeld(s0) && s0.world.arena.spare == nodes - 1
  {
    AlignUpLeast(size, size, gran);
    StartedOwned(base, size, gran, nodes, page);
  }

  lemma FillTable(s0: System, nodes: nat, base: nat, size: nat, gran: nat, k: nat) returns (full: System, s: System, x: Slot)
    requires base > 0 && gran > 0 && Owned(s0, nodes) && PagesHeld(s0) && Redirecting(s0, base, size, gran, 0)
    requires k == REDIRECT_CAPACITY && Offset(k + 1, gran) <= size && Offset(k + 2, gran) <= size
    ensures Reached(s0, full, nodes) && |full.redirects| == REDIRECT_CAPACITY
    ensures Reached(s0, s, nodes) && x in s.dropped
  {
    hide Reached, Offset, OneBlock, InRange, BandsSized, Owned, PagesHeld;
    full := RedirectMany(s0, nodes, base, size, gran, k);
    assert |full.redirects| == k;
    hide Redirecting;
    s := RedirectOne(s0, full, nodes, base, size, gran, k);
    x := Slot(base + Offset(k, gran), gran);
  }

  /** In an arena of 8194 granules the table can fill up, and the next reservation that is redirected is
      forgotten: it stays granted and its release takes nothing. */
  lemma TableFillsUp(base: nat, size: nat, gran: nat, nodes: nat, page: nat) returns (full: System, s: System, x: Slot)
    requires Reservable(base, size, gran, nodes) && page > 0 && gran % page == 0 && 8194 * gran <= size
    ensures var s0 := Started(FreshWorld(base, size, gran, nodes), page);
      && Interleaves(s0, full) && |full.redirects| == 8192
      && Interleaves(s0, s) && x in s.dropped && x in s.world.live && !Takes(s, FreeRedirected(x.addr))
  {
    var s0 := Started(FreshWorld(base, size, gran, nodes), page);
    StartRedirecting(base, size, gran, nodes, page);
    OffsetIsProduct(REDIRECT_CAPACITY + 2, gran);
    OffsetGrows(REDIRECT_CAPACITY + 1, REDIRECT_CAPACITY + 2, gran);
    full, s, x := FillTable(s0, nodes, base, size, gran, REDIRECT_CAPACITY);
    hide Interleaves, Owned, Started, FreshWorld;
    ForgottenAlone(s, nodes, x);
  }
}
