/** Whole-run theorems about the arena allocator. */
module ArenaTheorems {
  import opened Granules
  import opened Spans
  import opened ArenaModel
  import opened ArenaInvariant
  import opened ArenaSteps

  // ---------------------------------------------------------------- One step keeps the invariant

  lemma PlacedIgnoresCounters(a: Arena, c: Counters, held: seq<Span>, lost: seq<Span>, nodes: nat)
    requires Placed(a, held, lost, nodes)
    ensures Placed(a.(counters := c), held, lost, nodes)
  {
    forall x ensures Holders(a.(counters := c), held, lost, x) == if a.Owns(x) then 1 else 0 {
      assert Holders(a, held, lost, x) == if a.Owns(x) then 1 else 0;
    }
  }

  /** Losses and grants do not depend on the counters. */
  lemma LossIgnoresCounters(a: Arena, c: Counters, size: nat, fromTop: bool)
    requires a.gran > 0
    ensures LostByAllocate(a.(counters := c), size, fromTop) == LostByAllocate(a, size, fromTop)
  {
    DrainLosesAtMostFirst(a, Cached(a.classes));
    DrainLosesAtMostFirst(a.(counters := c), Cached(a.classes));
  }

  lemma GrantCounters(a: Arena, size: nat, fromTop: bool)
    requires a.gran > 0
    ensures var r := Grant(a, size, fromTop);
      && r.0.base == a.base && r.0.size == a.size && r.0.gran == a.gran
      && (r.0.counters == a.counters
          || (r.1.Some? && r.0.counters == a.counters.(reused := a.counters.reused + r.1.value.size)))
  {
  }

  lemma CountGrantAccounts(c: Counters, size: nat, slot: nat)
    requires BandsSized(c) && size <= slot
    requires Total(c.bandSlot) == c.granted
    requires forall i | 0 <= i < BAND_COUNT :: c.bandReq[i] <= c.bandSlot[i]
    ensures var d := CountGrant(c, size, slot);
      && BandsSized(d) && Total(d.bandSlot) == d.granted
      && forall i | 0 <= i < BAND_COUNT :: d.bandReq[i] <= d.bandSlot[i]
  {
    TotalUpdate(c.bandSlot, Band(size), c.bandSlot[Band(size)] + slot);
  }

  lemma AllocStepKeeps(w: World, size: nat, fromTop: bool, nodes: nat)
    requires Invariant(w, nodes) && size > 0
    ensures Invariant(AllocStep(w, size, fromTop), nodes)
  {
    var a := CountRequest(w.arena);
    var held := LiveSpans(w.live, a.gran);
    PlacedIgnoresCounters(w.arena, a.counters, held, w.lost, nodes);
    GrantKeeps(a, held, w.lost, nodes, size, fromTop);
    LossIgnoresCounters(w.arena, a.counters, size, fromTop);
    GrantCounters(a, size, fromTop);
    var r := Grant(a, size, fromTop);
    if r.1.None? {
      PlacedIgnoresCounters(r.0, CountFailure(r.0).counters, held, w.lost + LostByAllocate(w.arena, size, fromTop), nodes);
    } else {
      SuccessKeeps(w, size, fromTop, nodes);
    }
  }

  lemma SuccessKeeps(w: World, size: nat, fromTop: bool, nodes: nat)
    requires Invariant(w, nodes) && size > 0
    requires var r := Grant(CountRequest(w.arena), size, fromTop);
      && r.1.Some? && r.0.gran == w.arena.gran
      && Placed(r.0, LiveSpans(w.live, r.0.gran) + [r.1.value], w.lost + LostByAllocate(w.arena, size, fromTop), nodes)
      && r.1.value.size == AlignUp(size, r.0.gran) && Whole(r.1.value, r.0.gran)
    ensures Invariant(AllocStep(w, size, fromTop), nodes)
  {
    InvariantParts(w, nodes);
    hide Invariant, Placed, Grant, LostByAllocate, Owed, BandsOk, LiveOk, AlignUp, Whole, CountGrant;
    var r := Grant(CountRequest(w.arena), size, fromTop);
    var w' := AllocStep(w, size, fromTop);
    var s := Slot(r.1.value.addr, size);
    GrantCounters(CountRequest(w.arena), size, fromTop);
    assert LiveSpans(w'.live, r.0.gran) == LiveSpans(w.live, r.0.gran) + [r.1.value];
    PlacedIgnoresCounters(r.0, w'.arena.counters, LiveSpans(w'.live, r.0.gran), w'.lost, nodes);
    GrantAccounts(w.arena.counters, r.0.counters, w.live, s, r.0.gran);
    InvariantAssembled(w', nodes);
  }

  lemma InvariantParts(w: World, nodes: nat)
    requires Invariant(w, nodes)
    ensures w.arena.gran > 0 && LiveOk(w.live, w.arena.gran)
    ensures Owed(w.arena.counters, w.live, w.arena.gran) && BandsOk(w.arena.counters) && BandsSized(w.arena.counters)
    ensures w.arena.counters.reused <= w.arena.counters.granted
  {
  }

  lemma InvariantAssembled(w: World, nodes: nat)
    requires w.arena.gran > 0 && Placed(w.arena, LiveSpans(w.live, w.arena.gran), w.lost, nodes)
    requires LiveOk(w.live, w.arena.gran) && Owed(w.arena.counters, w.live, w.arena.gran)
    requires BandsOk(w.arena.counters) && w.arena.counters.reused <= w.arena.counters.granted
    ensures Invariant(w, nodes)
  {
  }

  /** One more slot in the callers' hands and in the counters. */
  lemma GrantAccounts(c: Counters, d: Counters, live: seq<Slot>, s: Slot, gran: nat)
    requires gran > 0 && LiveOk(live, gran) && Owed(c, live, gran) && BandsOk(c) && c.reused <= c.granted
    requires s.requested > 0 && Whole(SlotSpan(s, gran), gran) && BandsSized(d)
    requires d == c.(requests := d.requests, reused := d.reused) && d.reused <= c.reused + SlotSpan(s, gran).size
    ensures var e := CountGrant(d, s.requested, SlotSpan(s, gran).size);
      && LiveOk(live + [s], gran) && Owed(e, live + [s], gran) && BandsOk(e) && e.reused <= e.granted
  {
    LiveAppend(live, s, gran);
    RequestedAppend(live, s);
    CountGrantAccounts(d, s.requested, SlotSpan(s, gran).size);
  }

  lemma FreeIsRecycle(a: Arena, ptr: nat, size: nat)
    requires a.gran > 0 && ptr > 0 && a.Owns(ptr)
    ensures var r := Span(ptr, AlignUp(size, a.gran));
      && Free(a, ptr, size) == Recycle(a, r).(counters := CountRelease(a.counters, size, r.size))
      && Recycle(a, r).counters == a.counters
      && LostByFree(a, ptr, size) == if Push(a, r).1 || Push(a, r).0.spare > 0 then [] else [r]
  {
  }

  lemma ReleaseStepKeeps(w: World, s: Slot, nodes: nat)
    requires Invariant(w, nodes) && s in w.live
    ensures Invariant(ReleaseStep(w, s), nodes)
  {
    ReleasePlaces(w, s, nodes);
    ReleaseForm(w, s, nodes);
    hide Invariant, Placed, Recycle, Free, Push, LostByFree, CountRelease, AlignUp, LiveSpans, IndexOf, Without;
    ReleaseAssembles(w, s, Recycle(w.arena, SlotSpan(s, w.arena.gran)), w.lost + LostByFree(w.arena, s.addr, s.requested), nodes);
  }

  lemma ReleasePlaces(w: World, s: Slot, nodes: nat)
    requires Invariant(w, nodes) && s in w.live
    ensures w.arena.gran > 0
    ensures var held, k := LiveSpans(w.live, w.arena.gran), IndexOf(w.live, s);
      Placed(Recycle(w.arena, SlotSpan(s, w.arena.gran)), held[..k] + held[k + 1..], w.lost + LostByFree(w.arena, s.addr, s.requested), nodes)
  {
    hide Invariant, Placed, Recycle, Free, Push, LostByFree, SlotSpan, LiveSpans, IndexOf, Whole;
    InvariantPlaced(w, nodes);
    HeldSlot(w, s, nodes);
    RecycleKeeps(w.arena, LiveSpans(w.live, w.arena.gran), w.lost, nodes, IndexOf(w.live, s));
    LossOfRelease(w.arena, s);
  }

  lemma LossOfRelease(a: Arena, s: Slot)
    requires a.gran > 0 && s.addr > 0 && a.Owns(s.addr)
    ensures var p := Push(a, SlotSpan(s, a.gran));
      LostByFree(a, s.addr, s.requested) == if p.1 || p.0.spare > 0 then [] else [SlotSpan(s, a.gran)]
  {
    hide Push, AlignUp;
  }

  lemma ReleaseForm(w: World, s: Slot, nodes: nat)
    requires Invariant(w, nodes) && s in w.live
    ensures w.arena.gran > 0
    ensures var b := Recycle(w.arena, SlotSpan(s, w.arena.gran));
      && b.gran == w.arena.gran
      && ReleaseStep(w, s) == World(b.(counters := CountRelease(b.counters, s.requested, SlotSpan(s, b.gran).size)),
                                    Without(w.live, s), w.lost + LostByFree(w.arena, s.addr, s.requested))
  {
    HeldSlot(w, s, nodes);
    hide Invariant, LostByFree, CountRelease, AlignUp, LiveSpans, IndexOf, Without;
    FreeIsRecycle(w.arena, s.addr, s.requested);
  }

  /** What a release finds: a positive whole number of granules inside the arena. */
  lemma HeldSlot(w: World, s: Slot, nodes: nat)
    requires Invariant(w, nodes) && s in w.live
    ensures w.arena.gran > 0 && s.addr > 0 && w.arena.Owns(s.addr)
    ensures |LiveSpans(w.live, w.arena.gran)| == |w.live|
    ensures var r := LiveSpans(w.live, w.arena.gran)[IndexOf(w.live, s)];
      r == SlotSpan(s, w.arena.gran) && Whole(r, w.arena.gran)
  {
    PositiveSlot(w, s);
    HeldDisjoint(w.arena, LiveSpans(w.live, w.arena.gran), w.lost, IndexOf(w.live, s));
  }

  lemma InvariantPlaced(w: World, nodes: nat)
    requires Invariant(w, nodes)
    ensures w.arena.gran > 0 && Placed(w.arena, LiveSpans(w.live, w.arena.gran), w.lost, nodes)
  {
  }

  lemma ReleaseAssembles(w: World, s: Slot, b: Arena, lost: seq<Span>, nodes: nat)
    requires Invariant(w, nodes) && s in w.live
    requires b.gran == w.arena.gran && b.counters == w.arena.counters
    requires var held, k := LiveSpans(w.live, b.gran), IndexOf(w.live, s);
      Placed(b, held[..k] + held[k + 1..], lost, nodes)
    ensures var c := CountRelease(b.counters, s.requested, SlotSpan(s, b.gran).size);
      Invariant(World(b.(counters := c), Without(w.live, s), lost), nodes)
  {
    var held, k := LiveSpans(w.live, b.gran), IndexOf(w.live, s);
    var c := CountRelease(b.counters, s.requested, SlotSpan(s, b.gran).size);
    WithoutSpans(w.live, s, b.gran);
    PlacedIgnoresCounters(b, c, held[..k] + held[k + 1..], lost, nodes);
    ReleaseAccounts(b, w.live, s);
  }

  lemma WithoutSpans(live: seq<Slot>, s: Slot, gran: nat)
    requires gran > 0 && s in live
    ensures var k, held := IndexOf(live, s), LiveSpans(live, gran);
      LiveSpans(Without(live, s), gran) == held[..k] + held[k + 1..]
    ensures LiveOk(live, gran) ==> LiveOk(Without(live, s), gran)
  {
    var k, held, rest := IndexOf(live, s), LiveSpans(live, gran), Without(live, s);
    forall i | 0 <= i < |rest|
      ensures LiveSpans(rest, gran)[i] == (held[..k] + held[k + 1..])[i]
      ensures rest[i] == live[if i < k then i else i + 1]
    {
      hide IndexOf, Without, SlotSpan, LiveOk;
      assert rest == live[..k] + live[k + 1..];
    }
  }

  lemma ReleaseAccounts(a: Arena, live: seq<Slot>, s: Slot)
    requires a.gran > 0 && s in live && Owed(a.counters, live, a.gran)
    ensures Owed(CountRelease(a.counters, s.requested, SlotSpan(s, a.gran).size), Without(live, s), a.gran)
  {
    LiveWithout(live, s, a.gran);
    RequestedWithout(live, s);
  }

  lemma PositiveSlot(w: World, s: Slot)
    requires w.arena.gran > 0 && LiveOk(w.live, w.arena.gran) && s in w.live
    ensures s.requested > 0 && s.addr % w.arena.gran == 0
    ensures SlotSpan(s, w.arena.gran).size >= s.requested
  {
    assert s == w.live[IndexOf(w.live, s)];
  }

  /** No subtraction a release makes ever saturates. */
  lemma ReleaseNeverSaturates(w: World, s: Slot, nodes: nat)
    requires Invariant(w, nodes) && s in w.live
    ensures var c, slot := w.arena.counters, SlotSpan(s, w.arena.gran).size;
      && c.used >= slot && c.liveRequested >= s.requested && c.active > 0
      && Free(w.arena, s.addr, s.requested).counters
         == c.(used := c.used - slot, liveRequested := c.liveRequested - s.requested,
               active := c.active - 1, freed := c.freed + slot)
  {
    PositiveSlot(w, s);
    HeldDisjoint(w.arena, LiveSpans(w.live, w.arena.gran), w.lost, IndexOf(w.live, s));
    LiveWithout(w.live, s, w.arena.gran);
    RequestedWithout(w.live, s);
  }

  lemma StepKeepsInvariant(w: World, op: Op, nodes: nat)
    requires Invariant(w, nodes) && Legal(w, op)
    ensures Invariant(Step(w, op), nodes)
  {
    match op
    case Alloc(size, fromTop) => AllocStepKeeps(w, size, fromTop, nodes);
    case Release(slot) => ReleaseStepKeeps(w, slot, nodes);
  }

  // ---------------------------------------------------------------- Runs

  function FreshWorld(base: nat, size: nat, gran: nat, nodes: nat): World
    requires gran > 0 && nodes > 0
  {
    World(Fresh(base, size, gran, nodes), [], [])
  }

  lemma FreshInvariant(base: nat, size: nat, gran: nat, nodes: nat)
    requires base > 0 && size > 0 && gran > 0 && nodes > 0 && base % gran == 0
    ensures Invariant(FreshWorld(base, size, gran, nodes), nodes)
  {
    var w := FreshWorld(base, size, gran, nodes);
    SingleSpan(w.arena.free[0]);
    forall x ensures Holders(w.arena, LiveSpans([], gran), [], x) == if w.arena.Owns(x) then 1 else 0 {
      assert Cover(w.arena.free, x) == if w.arena.free[0].Has(x) then 1 else 0;
    }
    assert Total(ZERO_COUNTERS.bandSlot) == 0 by {
      ZeroTotal(ZERO_COUNTERS.bandSlot);
    }
  }

  lemma {:induction false} ZeroTotal(s: seq<nat>)
    requires forall i | 0 <= i < |s| :: s[i] == 0
    ensures Total(s) == 0
  {
    if s != [] {
      ZeroTotal(s[1..]);
    }
  }

  /** The worlds of a run, one per operation performed. */
  ghost predicate IsRun(ws: seq<World>, ops: seq<Op>) {
    && |ws| == |ops| + 1
    && forall i {:trigger ops[i]} | 0 <= i < |ops| ::
         && ws[i].arena.gran > 0 && BandsSized(ws[i].arena.counters)
         && Legal(ws[i], ops[i]) && ws[i + 1] == Step(ws[i], ops[i])
  }

  /** Every world of every legal run is tiled, coalesced, accounted for, and has all its nodes. */
  lemma {:induction false} RunKeepsInvariant(ws: seq<World>, ops: seq<Op>, nodes: nat, i: nat)
    requires IsRun(ws, ops) && Invariant(ws[0], nodes) && i < |ws|
    ensures Invariant(ws[i], nodes)
  {
    if i > 0 {
      RunKeepsInvariant(ws, ops, nodes, i - 1);
      StepKeepsInvariant(ws[i - 1], ops[i - 1], nodes);
    }
  }

  // ---------------------------------------------------------------- What the invariant means to callers

  /** The slots in callers' hands are intervals inside the arena, granule-aligned, and no two overlap. */
  lemma LiveSlotsDisjoint(w: World, nodes: nat, i: nat, j: nat)
    requires Invariant(w, nodes) && i < j < |w.live|
    ensures var r, t := SlotSpan(w.live[i], w.arena.gran), SlotSpan(w.live[j], w.arena.gran);
      && w.arena.base <= r.addr && r.End() <= w.arena.base + w.arena.size
      && (r.End() <= t.addr || t.End() <= r.addr)
  {
    var held := LiveSpans(w.live, w.arena.gran);
    PositiveSlot(w, w.live[i]);
    PositiveSlot(w, w.live[j]);
    var r, t := held[i], held[j];
    HeldInside(w, nodes, i);
    if r.End() > t.addr && t.End() > r.addr {
      var b := if r.addr < t.addr then t.addr else r.addr;
      HeldOnce(w.arena, held, w.lost, b);
      DropHeld(held, i);
      var rest := held[..i] + held[i + 1..];
      assert rest[j - 1] == t;
      CoverAt(rest, j - 1, b);
      assert false;
    }
  }

  lemma HeldOnce(a: Arena, held: seq<Span>, lost: seq<Span>, b: int)
    requires Tiled(a, held, lost)
    ensures Cover(held, b) <= 1
  {
    assert Holders(a, held, lost, b) <= 1;
  }

  lemma HeldInside(w: World, nodes: nat, i: nat)
    requires Invariant(w, nodes) && i < |w.live|
    ensures var r := SlotSpan(w.live[i], w.arena.gran);
      w.arena.base <= r.addr && r.End() <= w.arena.base + w.arena.size
  {
    var held := LiveSpans(w.live, w.arena.gran);
    PositiveSlot(w, w.live[i]);
    SpanInside(w.arena, held, w.lost, held, i);
  }

  lemma SpanInside(a: Arena, held: seq<Span>, lost: seq<Span>, s: seq<Span>, i: nat)
    requires Tiled(a, held, lost) && i < |s| && s[i].size > 0
    requires forall b :: Cover(s, b) <= Holders(a, held, lost, b)
    ensures a.base <= s[i].addr && s[i].End() <= a.base + a.size
  {
    CoverAt(s, i, s[i].addr);
    CoverAt(s, i, s[i].End() - 1);
    assert Holders(a, held, lost, s[i].addr) >= 1;
    assert Holders(a, held, lost, s[i].End() - 1) >= 1;
  }

  /** Byte `b` is neither in a caller's hands nor lost. */
  ghost predicate Open(a: Arena, live: seq<Slot>, lost: seq<Span>, b: int)
    requires a.gran > 0
  {
    a.Owns(b) && Cover(LiveSpans(live, a.gran), b) == 0 && Cover(lost, b) == 0
  }

  ghost predicate OpenRun(a: Arena, live: seq<Slot>, lost: seq<Span>, x: int, n: nat)
    requires a.gran > 0
  {
    forall b | x <= b < x + n :: Open(a, live, lost, b)
  }

  /** With empty caches the open bytes are exactly the free-list bytes. */
  lemma OpenIsFree(a: Arena, live: seq<Slot>, lost: seq<Span>, nodes: nat, x: int, n: nat)
    requires a.gran > 0 && Placed(a, LiveSpans(live, a.gran), lost, nodes) && Cached(a.classes) == []
    ensures OpenRun(a, live, lost, x, n) <==> RunIn(a.free, x, n)
  {
    forall b ensures Open(a, live, lost, b) <==> Cover(a.free, b) >= 1 {
      assert Holders(a, LiveSpans(live, a.gran), lost, b) == if a.Owns(b) then 1 else 0;
    }
  }

  /** Allocation is complete: with a spare node at hand it fails exactly when the arena holds no run of
      bytes, free or cached, as long as the rounded request.  When the pool is dry the same is true of
      the bytes that remain after the one block a drain may drop. */
  lemma AllocateComplete(w: World, size: nat, fromTop: bool, nodes: nat)
    requires Invariant(w, nodes) && size > 0
    ensures var lost' := w.lost + LostByAllocate(w.arena, size, fromTop);
      && (Allocate(w.arena, size, fromTop).1.None?
          <==> forall x :: !OpenRun(w.arena, w.live, lost', x, AlignUp(size, w.arena.gran)))
      && (w.arena.spare > 0 ==> lost' == w.lost)
  {
    var lost' := w.lost + LostByAllocate(w.arena, size, fromTop);
    DrainLosesAtMostFirst(w.arena, Cached(w.arena.classes));
    assert w.lost + [] == w.lost;
    if Allocate(w.arena, size, fromTop).1.None? {
      forall x ensures !OpenRun(w.arena, w.live, lost', x, AlignUp(size, w.arena.gran)) {
        FailureMeansNoRun(w, size, fromTop, nodes, x);
      }
    } else {
      GrantIsOpen(w, size, fromTop, nodes);
    }
  }

  lemma FailureMeansNoRun(w: World, size: nat, fromTop: bool, nodes: nat, x: int)
    requires Invariant(w, nodes) && size > 0 && Allocate(w.arena, size, fromTop).1.None?
    ensures !OpenRun(w.arena, w.live, w.lost + LostByAllocate(w.arena, size, fromTop), x, AlignUp(size, w.arena.gran))
  {
    var a, need := w.arena, AlignUp(size, w.arena.gran);
    var lost' := w.lost + LostByAllocate(a, size, fromTop);
    InvariantPlaced(w, nodes);
    var b := DrainedPlaced(w, size, fromTop, nodes);
    hide Invariant, Placed, Allocate, LostByAllocate, OpenRun, RunIn, TakeFit, AlignUp;
    PlacedGapped(b, LiveSpans(w.live, a.gran), lost', nodes);
    OpenIsFree(b, w.live, lost', nodes, x, need);
    TakeFitComplete(b.free, need, b.gran, fromTop);
    OpenIgnoresLists(a, b, w.live, lost', x, need);
  }

  /** What a failed request leaves: an arena with empty caches, where nothing fits. */
  lemma DrainedPlaced(w: World, size: nat, fromTop: bool, nodes: nat) returns (b: Arena)
    requires Invariant(w, nodes) && size > 0 && Allocate(w.arena, size, fromTop).1.None?
    ensures b.base == w.arena.base && b.size == w.arena.size && b.gran == w.arena.gran && Cached(b.classes) == []
    ensures Placed(b, LiveSpans(w.live, w.arena.gran), w.lost + LostByAllocate(w.arena, size, fromTop), nodes)
    ensures TakeFit(b.free, AlignUp(size, b.gran), b.gran, fromTop).None?
  {
    InvariantPlaced(w, nodes);
    NoCachedBytes(w, nodes);
    hide Invariant, Placed, Allocate, LostByAllocate, Reclaim, TakeFit, AlignUp;
    FailureFits(w.arena, size, fromTop);
    b := w.arena;
    if w.arena.cachedBytes > 0 {
      ReclaimKeeps(w.arena, LiveSpans(w.live, w.arena.gran), w.lost, nodes);
      ReclaimFrame(w.arena);
      b := Reclaim(w.arena);
    } else {
      assert w.lost + [] == w.lost;
    }
  }

  /** A failed request drained the caches, if there was anything in them, and then found no fit. */
  lemma FailureFits(a: Arena, size: nat, fromTop: bool)
    requires a.gran > 0 && a.base > 0 && BandsSized(a.counters) && Allocate(a, size, fromTop).1.None?
    ensures LostByAllocate(a, size, fromTop) == if a.cachedBytes > 0 then DrainLost(a, Cached(a.classes)) else []
    ensures var b := if a.cachedBytes > 0 then Reclaim(a) else a; TakeFit(b.free, AlignUp(size, a.gran), b.gran, fromTop).None?
  {
    hide Reclaim, DrainLost, TakeFit, AlignUp;
    ReclaimIgnoresCounters(a, CountRequest(a).counters);
    ReclaimFrame(a);
  }

  lemma NoCachedBytes(w: World, nodes: nat)
    requires Invariant(w, nodes)
    ensures w.arena.base > 0 && BandsSized(w.arena.counters)
    ensures w.arena.cachedBytes == 0 ==> Cached(w.arena.classes) == []
  {
    CachedOk(w.arena);
    BytesZero(Cached(w.arena.classes));
  }

  lemma PlacedGapped(a: Arena, held: seq<Span>, lost: seq<Span>, nodes: nat)
    requires Placed(a, held, lost, nodes)
    ensures a.gran > 0 && Gapped(a.free)
  {
  }

  lemma OpenIgnoresLists(a: Arena, b: Arena, live: seq<Slot>, lost: seq<Span>, x: int, n: nat)
    requires a.gran > 0 && b.gran == a.gran && b.base == a.base && b.size == a.size
    ensures OpenRun(a, live, lost, x, n) <==> OpenRun(b, live, lost, x, n)
  {
    forall y ensures Open(a, live, lost, y) <==> Open(b, live, lost, y) {
    }
  }

  lemma {:induction false} DrainIgnoresCounters(a: Arena, c: Counters, queue: seq<Span>)
    ensures Drain(a.(counters := c), queue) == Drain(a, queue).(counters := c)
    decreases |queue|
  {
    if queue != [] {
      DrainIgnoresCounters(DrainOne(a, queue[0]), c, queue[1..]);
      assert DrainOne(a.(counters := c), queue[0]) == DrainOne(a, queue[0]).(counters := c);
    }
  }

  lemma ReclaimIgnoresCounters(a: Arena, c: Counters)
    ensures Reclaim(a.(counters := c)) == Reclaim(a).(counters := c)
  {
    DrainIgnoresCounters(a, c, Cached(a.classes));
  }

  lemma GrantIsOpen(w: World, size: nat, fromTop: bool, nodes: nat)
    requires Invariant(w, nodes) && size > 0 && Allocate(w.arena, size, fromTop).1.Some?
    ensures var r := Allocate(w.arena, size, fromTop).1.value;
      && r.size == AlignUp(size, w.arena.gran)
      && OpenRun(w.arena, w.live, w.lost + LostByAllocate(w.arena, size, fromTop), r.addr, r.size)
  {
    GrantCounters(CountRequest(w.arena), size, fromTop);
    var (w', s) := (AllocStep(w, size, fromTop), Slot(Allocate(w.arena, size, fromTop).1.value.addr, size));
    assert w'.live == w.live + [s] && SameBytes(w.arena, w'.arena);
    AllocStepKeeps(w, size, fromTop, nodes);
    ExactGrant(w, size, fromTop, nodes);
    NewSlotWasOpen(w, w', s, nodes);
  }

  predicate SameBytes(a: Arena, b: Arena) { a.base == b.base && a.size == b.size && a.gran == b.gran }

  /** The bytes of the slot that was handed out last were open before. */
  lemma NewSlotWasOpen(w: World, w': World, s: Slot, nodes: nat)
    requires Invariant(w', nodes) && w'.live == w.live + [s] && SameBytes(w.arena, w'.arena)
    ensures OpenRun(w.arena, w.live, w'.lost, s.addr, AlignUp(s.requested, w.arena.gran))
  {
    LiveAppend(w.live, s, w.arena.gran);
    forall b | s.addr <= b < s.addr + AlignUp(s.requested, w.arena.gran) ensures Open(w.arena, w.live, w'.lost, b) {
      assert SlotSpan(s, w.arena.gran).Has(b);
      assert Holders(w'.arena, LiveSpans(w'.live, w.arena.gran), w'.lost, b) == if w'.arena.Owns(b) then 1 else 0;
    }
  }

  /** Every grant has exactly the rounded size and is granule-aligned, so the size that Free recomputes
      from the original request is the size that was granted. */
  lemma ExactGrant(w: World, size: nat, fromTop: bool, nodes: nat)
    requires Invariant(w, nodes) && size > 0 && Allocate(w.arena, size, fromTop).1.Some?
    ensures var r := Allocate(w.arena, size, fromTop).1.value;
      && r.size == AlignUp(size, w.arena.gran) && r.addr % w.arena.gran == 0 && r.addr > 0
      && SlotSpan(Slot(r.addr, size), w.arena.gran) == r
      && Allocate(w.arena, size, fromTop).0.gran == w.arena.gran
  {
    var a := CountRequest(w.arena);
    var held := LiveSpans(w.live, a.gran);
    forall x ensures Holders(a, held, w.lost, x) == if a.Owns(x) then 1 else 0 {
      assert Holders(w.arena, held, w.lost, x) == if w.arena.Owns(x) then 1 else 0;
    }
    GrantKeeps(a, held, w.lost, nodes, size, fromTop);
    GrantCounters(a, size, fromTop);
    var r := Allocate(w.arena, size, fromTop).1.value;
    var lost' := w.lost + LostByAllocate(a, size, fromTop);
    HeldDisjoint(Grant(a, size, fromTop).0, held + [r], lost', |held|);
  }

  /** Placement: a cache miss that the free list can serve gets the lowest run of free bytes that fits,
      or the highest run for a top-down request. */
  lemma PlacementOptimal(w: World, size: nat, fromTop: bool, nodes: nat, x: int)
    requires Invariant(w, nodes) && size > 0
    requires var need := AlignUp(size, w.arena.gran);
      && PopIndex(w.arena.classes, 0, need) == |w.arena.classes|
      && RunIn(w.arena.free, x, need)
    ensures Allocate(w.arena, size, fromTop).1.Some?
    ensures var r := Allocate(w.arena, size, fromTop).1.value;
      && RunIn(w.arena.free, r.addr, r.size)
      && (if fromTop then x <= r.addr else r.addr <= x)
  {
    var a, need := w.arena, AlignUp(size, w.arena.gran);
    TakeFitComplete(a.free, need, a.gran, fromTop);
    TakeFitOptimal(a.free, need, a.gran, fromTop, x);
    TakeFitExact(a.free, need, a.gran, fromTop);
    assert Fit(CountRequest(a), need, fromTop).1 == Fit(a, need, fromTop).1;
  }

  /** After a drain the same holds of all bytes that nobody has: the grant is the lowest run of them that
      fits, or the highest. */
  lemma PlacementAfterDrain(w: World, size: nat, fromTop: bool, nodes: nat, x: int)
    requires Invariant(w, nodes) && size > 0 && Drains(w.arena, AlignUp(size, w.arena.gran), fromTop)
    requires OpenRun(w.arena, w.live, w.lost + LostByAllocate(w.arena, size, fromTop), x, AlignUp(size, w.arena.gran))
    ensures Allocate(w.arena, size, fromTop).1.Some?
    ensures var r := Allocate(w.arena, size, fromTop).1.value;
      && OpenRun(w.arena, w.live, w.lost + LostByAllocate(w.arena, size, fromTop), r.addr, r.size)
      && (if fromTop then x <= r.addr else r.addr <= x)
  {
    var a, b, need := w.arena, Reclaim(w.arena), AlignUp(size, w.arena.gran);
    var lost' := w.lost + LostByAllocate(a, size, fromTop);
    ReclaimKeeps(a, LiveSpans(w.live, a.gran), w.lost, nodes);
    ReclaimIgnoresCounters(a, CountRequest(a).counters);
    OpenIgnoresLists(a, b, w.live, lost', x, need);
    OpenIsFree(b, w.live, lost', nodes, x, need);
    TakeFitComplete(b.free, need, b.gran, fromTop);
    TakeFitOptimal(b.free, need, b.gran, fromTop, x);
    assert Fit(CountRequest(a), need, fromTop).1 == Fit(a, need, fromTop).1;
    GrantIsOpen(w, size, fromTop, nodes);
  }

  // ---------------------------------------------------------------- When a release is cached

  /** How many of the blocks have `n` bytes. */
  function OfSize(s: seq<Span>, n: nat): nat {
    if s == [] then 0 else (if s[0].size == n then 1 else 0) + OfSize(s[1..], n)
  }

  /** There is a node for one more block of `n` bytes, and room for it among the cached ones. */
  predicate Cacheable(a: Arena, n: nat) {
    a.spare > 0 && OfSize(Cached(a.classes), n) < 16 && (HasSize(a.classes, n) || |a.classes| < 256)
  }

  lemma {:induction false} OfSizeConcat(s: seq<Span>, t: seq<Span>, n: nat)
    ensures OfSize(s + t, n) == OfSize(s, n) + OfSize(t, n)
  {
    if s == [] {
      assert s + t == t;
    } else {
      OfSizeConcat(s[1..], t, n);
      assert (s + t)[1..] == s[1..] + t;
    }
  }

  lemma {:induction false} OfOneSize(s: seq<Span>, m: nat, n: nat)
    requires forall i | 0 <= i < |s| :: s[i].size == m
    ensures OfSize(s, n) == if m == n then |s| else 0
  {
    if s != [] { OfOneSize(s[1..], m, n); }
  }

  /** The cached blocks of a size are those of its class. */
  lemma {:induction false} CachedOfSize(cs: seq<SizeClass>, gran: nat, n: nat)
    requires gran > 0 && forall i | 0 <= i < |cs| :: ClassOk(cs[i], gran)
    requires forall i, j | 0 <= i < j < |cs| :: cs[i].classSize != cs[j].classSize
    ensures forall i | 0 <= i < |cs| && cs[i].classSize == n :: OfSize(Cached(cs), n) == |cs[i].blocks|
    ensures !HasSize(cs, n) ==> OfSize(Cached(cs), n) == 0
  {
    if cs != [] {
      var c, rest := cs[0], cs[1..];
      forall i | 0 <= i < |rest| ensures rest[i] == cs[i + 1] {}
      CachedOfSize(rest, gran, n);
      OfSizeConcat(c.blocks, Cached(rest), n);
      assert ClassOk(c, gran);
      OfOneSize(c.blocks, c.classSize, n);
      forall i | 0 <= i < |cs| && cs[i].classSize == n ensures OfSize(Cached(cs), n) == |cs[i].blocks| {
        if i > 0 { assert rest[i - 1] == cs[i]; }
      }
    }
  }

  lemma PushExactly(a: Arena, r: Span)
    requires a.gran > 0 && ClassesOk(a)
    ensures Push(a, r).1 <==> Cacheable(a, r.size)
    ensures Push(a, r).0.spare <= a.spare
  {
    hide ClassOk, Cached, OfSize;
    CachedOfSize(a.classes, a.gran, r.size);
    var i := ClassIndex(a.classes, 0, r.size);
    assert HasSize(a.classes, r.size) <==> i < |a.classes|;
  }

  /** A request hits the caches exactly when a block of its rounded size is cached. */
  lemma HitExactly(a: Arena, n: nat)
    requires a.gran > 0 && ClassesOk(a)
    ensures PopIndex(a.classes, 0, n) < |a.classes| <==> OfSize(Cached(a.classes), n) > 0
  {
    hide ClassOk, Cached, OfSize;
    CachedOfSize(a.classes, a.gran, n);
    var i := PopIndex(a.classes, 0, n);
    assert i < |a.classes| ==> a.classes[i].classSize == n;
  }

  lemma InvariantClasses(w: World, nodes: nat)
    requires Invariant(w, nodes)
    ensures w.arena.gran > 0 && ClassesOk(w.arena)
  {
  }

  /** A released block goes to the cache of its size, and the free list is left alone, exactly when a node is
      spare, fewer than sixteen blocks of that size are cached, and the size has a class or fewer than 256
      sizes do.  Otherwise nothing is cached. */
  lemma CachedExactly(w: World, s: Slot, nodes: nat)
    requires Invariant(w, nodes) && s in w.live
    ensures var a, r, b := w.arena, SlotSpan(s, w.arena.gran), Free(w.arena, s.addr, s.requested);
      && (Cacheable(a, r.size) <==> b.free == a.free && b.cachedBytes == a.cachedBytes + r.size)
      && (!Cacheable(a, r.size) ==> b.cachedBytes == a.cachedBytes)
  {
    HeldSlot(w, s, nodes);
    InvariantClasses(w, nodes);
    hide Invariant, ClassesOk, Push, Cacheable, AlignUp, CountRelease;
    PushExactly(w.arena, SlotSpan(s, w.arena.gran));
    FreeIsRecycle(w.arena, s.addr, s.requested);
  }

  /** Same-size churn never touches the free list: a slot released into its cache is the very slot the
      next request of that rounded size receives, and the free list and node count are as before. */
  lemma ChurnRoundTrip(w: World, s: Slot, size: nat, fromTop: bool, nodes: nat)
    requires Invariant(w, nodes) && s in w.live
    requires AlignUp(size, w.arena.gran) == AlignUp(s.requested, w.arena.gran)
    requires Cacheable(w.arena, AlignUp(size, w.arena.gran))
    ensures var freed := Free(w.arena, s.addr, s.requested);
      && BandsSized(freed.counters) && freed.gran == w.arena.gran
      && var again := Allocate(freed, size, fromTop);
         && again.1 == Some(SlotSpan(s, w.arena.gran))
         && again.0.free == w.arena.free && again.0.spare == w.arena.spare
         && again.0.cachedBytes == w.arena.cachedBytes
         && again.0.counters.used == w.arena.counters.used
  {
    InvariantClasses(w, nodes);
    PushExactly(w.arena, SlotSpan(s, w.arena.gran));
    PushedRoundTrip(w, s, size, fromTop, nodes);
  }

  lemma PushedRoundTrip(w: World, s: Slot, size: nat, fromTop: bool, nodes: nat)
    requires Invariant(w, nodes) && s in w.live
    requires AlignUp(size, w.arena.gran) == AlignUp(s.requested, w.arena.gran)
    requires Push(w.arena, SlotSpan(s, w.arena.gran)).1
    ensures var freed := Free(w.arena, s.addr, s.requested);
      && BandsSized(freed.counters) && freed.gran == w.arena.gran
      && var again := Allocate(freed, size, fromTop);
         && again.1 == Some(SlotSpan(s, w.arena.gran))
         && again.0.free == w.arena.free && again.0.spare == w.arena.spare
         && again.0.cachedBytes == w.arena.cachedBytes
         && again.0.counters.used == w.arena.counters.used
  {
    var a, r := w.arena, SlotSpan(s, w.arena.gran);
    PositiveSlot(w, s);
    HeldDisjoint(a, LiveSpans(w.live, a.gran), w.lost, IndexOf(w.live, s));
    ReleaseNeverSaturates(w, s, nodes);
    var i := ClassIndex(a.classes, 0, r.size);
    var freed := Free(a, s.addr, s.requested);
    assert freed.classes[i].classSize == r.size && freed.classes[i].blocks[0] == r;
    PopFindsClass(freed.classes, 0, i, r.size);
  }

  lemma {:induction false} PopFindsClass(cs: seq<SizeClass>, k: nat, i: nat, n: nat)
    requires k <= i < |cs| && cs[i].classSize == n && cs[i].blocks != []
    requires forall j | k <= j < i :: cs[j].classSize != n
    ensures PopIndex(cs, k, n) == i
    decreases i - k
  {
    if k < i {
      PopFindsClass(cs, k + 1, i, n);
    }
  }
}
