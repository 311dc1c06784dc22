/** What every interleaving of the script arena's critical sections keeps. */
module CorralTheorems {
  import opened Granules
  import opened Spans
  import opened ArenaModel
  import opened ArenaInvariant
  import opened ArenaTheorems
  import opened LiveSlots
  import opened CorralModel
  import opened SpanCount

  // ---------------------------------------------------------------- The invariant

  ghost predicate SegmentOk(g: Segment, st: Setting)
    requires st.Proper()
  {
    && Invariant(g.world, st.nodes) && BandsSized(g.world.arena.counters)
    && g.size > 0 && g.world.arena.base == g.base && g.world.arena.gran == st.gran
    && g.world.arena.size == AlignUp(g.size, st.gran) && g.base + g.world.arena.size <= WORD
  }

  predicate Apart(g: Segment, h: Segment) {
    g.base + g.world.arena.size <= h.base || h.base + h.world.arena.size <= g.base
  }

  ghost predicate SegmentsOk(segs: seq<Segment>, st: Setting)
    requires st.Proper()
  {
    && (forall i | 0 <= i < |segs| :: SegmentOk(segs[i], st))
    && (forall i, j | 0 <= i < j < |segs| :: Apart(segs[i], segs[j]))
  }

  function Zones(segs: seq<Segment>): (r: seq<Span>)
    ensures |r| == |segs| && forall i | 0 <= i < |segs| :: r[i] == Span(segs[i].base, segs[i].size)
  {
    seq(|segs|, i requires 0 <= i < |segs| => Span(segs[i].base, segs[i].size))
  }

  ghost function TotalSize(segs: seq<Segment>): nat { Bytes(Zones(segs)) }

  /** Some segment has granted `s` and not got it back. */
  ghost predicate Out(segs: seq<Segment>, s: Slot) { exists i :: 0 <= i < |segs| && s in segs[i].world.live }

  predicate Listed(sizes: map<nat, nat>, s: Slot) { s.addr in sizes && sizes[s.addr] == s.requested }

  /** The slots that are out are those in the map and those in some thread's hands, never both. */
  ghost predicate Owned(segs: seq<Segment>, sizes: map<nat, nat>, inHand: set<Slot>) {
    && (forall s :: Out(segs, s) <==> Listed(sizes, s) || s in inHand)
    && (forall s | s in inHand :: s.addr !in sizes)
  }

  ghost predicate Kept(c: Corral, st: Setting) {
    && st.Proper() && SegmentsOk(c.segs, st) && |c.segs| <= MAX_SEGMENTS
    && c.total == TotalSize(c.segs) && (c.maxReserved == 0 || c.total <= c.maxReserved)
    && Owned(c.segs, c.sizes, c.inHand)
    && Used(c.segs) <= c.peak
  }

  /** The system hands out aligned zones of whole granules that nobody else has. */
  ghost predicate Fits(segs: seq<Segment>, st: Setting, size: nat, zone: Zone)
    requires st.Proper()
  {
    zone.base != 0 ==>
      && size > 0 && zone.base % st.gran == 0 && zone.base + AlignUp(size, st.gran) <= WORD
      && forall i | 0 <= i < |segs| ::
           zone.base + AlignUp(size, st.gran) <= segs[i].base || segs[i].base + segs[i].world.arena.size <= zone.base
  }

  // ---------------------------------------------------------------- Slots and segments

  lemma SlotInSegment(segs: seq<Segment>, st: Setting, i: nat, s: Slot)
    requires st.Proper() && SegmentsOk(segs, st) && i < |segs| && s in segs[i].world.live
    ensures segs[i].Spans(s.addr) && s.requested > 0 && s.addr > 0
    ensures forall j | 0 <= j < |segs| && j != i :: !segs[j].Spans(s.addr)
  {
    var g := segs[i];
    assert SegmentOk(g, st);
    SlotInArena(g.world, s, st.nodes);
    PositiveMultiple(AlignUp(s.requested, st.gran), st.gran);
    forall j | 0 <= j < |segs| && j != i ensures !segs[j].Spans(s.addr) {
      assert SegmentOk(segs[j], st);
      assert Apart(segs[if i < j then i else j], segs[if i < j then j else i]);
    }
  }

  lemma {:induction false} OwnerIs(segs: seq<Segment>, k: nat, i: nat, addr: nat)
    requires k <= i < |segs| && segs[i].Spans(addr)
    requires forall j | 0 <= j < |segs| && j != i :: !segs[j].Spans(addr)
    ensures OwnerFrom(segs, k, addr) == i
    decreases i - k
  {
    if k < i { OwnerIs(segs, k + 1, i, addr); }
  }

  /** The range search of a free finds exactly the segment that granted the slot. */
  lemma OwnerIsGranter(segs: seq<Segment>, st: Setting, i: nat, s: Slot)
    requires st.Proper() && SegmentsOk(segs, st) && i < |segs| && s in segs[i].world.live
    ensures OwnerFrom(segs, 0, s.addr) == i
  {
    SlotInSegment(segs, st, i, s);
    OwnerIs(segs, 0, i, s.addr);
  }

  lemma OutUnique(segs: seq<Segment>, st: Setting, s: Slot, t: Slot)
    requires st.Proper() && SegmentsOk(segs, st) && Out(segs, s) && Out(segs, t) && s.addr == t.addr
    ensures s == t
  {
    var i :| 0 <= i < |segs| && s in segs[i].world.live;
    var j :| 0 <= j < |segs| && t in segs[j].world.live;
    OwnerIsGranter(segs, st, i, s);
    OwnerIsGranter(segs, st, j, t);
    assert SegmentOk(segs[i], st);
    SameAddressSameSlot(segs[i].world, st.nodes, s, t);
  }

  /** Slots of different segments, or different slots of one, have no byte in common. */
  lemma OutApart(segs: seq<Segment>, st: Setting, s: Slot, t: Slot)
    requires st.Proper() && SegmentsOk(segs, st) && Out(segs, s) && Out(segs, t) && s != t
    ensures var r, q := SlotSpan(s, st.gran), SlotSpan(t, st.gran); r.End() <= q.addr || q.End() <= r.addr
  {
    hide Invariant;
    var i :| 0 <= i < |segs| && s in segs[i].world.live;
    var j :| 0 <= j < |segs| && t in segs[j].world.live;
    assert SegmentOk(segs[i], st) && SegmentOk(segs[j], st);
    if i == j {
      var w := segs[i].world;
      var p, q := IndexOf(w.live, s), IndexOf(w.live, t);
      LiveSlotsDisjoint(w, st.nodes, if p < q then p else q, if p < q then q else p);
    } else {
      SlotInArena(segs[i].world, s, st.nodes);
      SlotInArena(segs[j].world, t, st.nodes);
      assert Apart(segs[if i < j then i else j], segs[if i < j then j else i]);
    }
  }

  // ---------------------------------------------------------------- Changing the worlds of segments

  /** Same zones, other contents. */
  predicate SameZone(g: Segment, h: Segment) {
    g.base == h.base && g.size == h.size && g.world.arena.size == h.world.arena.size
  }

  lemma ZonesKept(segs: seq<Segment>, segs': seq<Segment>, st: Setting)
    requires st.Proper() && SegmentsOk(segs, st) && |segs'| == |segs|
    requires forall i | 0 <= i < |segs| :: SegmentOk(segs'[i], st) && SameZone(segs'[i], segs[i])
    ensures SegmentsOk(segs', st) && TotalSize(segs') == TotalSize(segs)
  {
    forall i, j | 0 <= i < j < |segs'| ensures Apart(segs'[i], segs'[j]) {
      assert Apart(segs[i], segs[j]) && SameZone(segs'[i], segs[i]) && SameZone(segs'[j], segs[j]);
    }
    assert Zones(segs') == Zones(segs);
  }

  /** If segment `i` holds `d` more bytes and the others hold what they held, the sum grows by `d`. */
  lemma {:induction false} UsedShift(segs: seq<Segment>, segs': seq<Segment>, i: nat, d: nat)
    requires |segs'| == |segs|
    requires forall j | 0 <= j < |segs| ::
      segs'[j].world.arena.counters.used == segs[j].world.arena.counters.used + if j == i then d else 0
    ensures Used(segs') == Used(segs) + if i < |segs| then d else 0
  {
    if segs != [] { UsedShift(segs[..|segs| - 1], segs'[..|segs| - 1], i, d); }
  }

  lemma AskedOk(g: Segment, st: Setting, size: nat)
    requires st.Proper() && SegmentOk(g, st) && size > 0
    ensures var (g', got) := (Asked(g, size), GrantOf(g, size));
      && SegmentOk(g', st) && SameZone(g', g)
      && g'.world.live == (if got.None? then g.world.live else g.world.live + [Slot(got.value.addr, size)])
      && g'.world.arena.counters.used == g.world.arena.counters.used + (if got.None? then 0 else AlignUp(size, st.gran))
  {
    hide Invariant, Allocate;
    AllocFacts(g.world, size, false, st.nodes);
  }

  /** A granted slot is a new one: no slot that was out starts where it starts. */
  ghost predicate Adds(segs: seq<Segment>, segs': seq<Segment>, i: nat, slot: Slot) {
    && i < |segs'| && slot in segs'[i].world.live
    && (forall s :: Out(segs', s) <==> Out(segs, s) || s == slot)
    && (forall s | Out(segs, s) :: s.addr != slot.addr)
  }

  ghost predicate SameOut(segs: seq<Segment>, segs': seq<Segment>) {
    forall s :: Out(segs', s) <==> Out(segs, s)
  }

  lemma AppendedAdds(segs: seq<Segment>, segs': seq<Segment>, st: Setting, i: nat, slot: Slot)
    requires st.Proper() && SegmentsOk(segs', st) && |segs'| == |segs| && i < |segs|
    requires forall j | 0 <= j < |segs| && j != i :: segs'[j].world.live == segs[j].world.live
    requires segs'[i].world.live == segs[i].world.live + [slot]
    ensures Adds(segs, segs', i, slot)
  {
    hide SegmentsOk, Invariant;
    forall s ensures Out(segs', s) <==> Out(segs, s) || s == slot {
      if Out(segs, s) { var j :| 0 <= j < |segs| && s in segs[j].world.live; assert s in segs'[j].world.live; }
      if Out(segs', s) && s != slot { var j :| 0 <= j < |segs| && s in segs'[j].world.live; assert s in segs[j].world.live; }
      assert slot in segs'[i].world.live;
    }
    forall s | Out(segs, s) ensures s.addr != slot.addr {
      if s.addr == slot.addr {
        OutUnique(segs', st, s, slot);
        OwnOnce(segs, segs', st, i, slot);
      }
    }
  }

  /** A slot just appended was not out before. */
  lemma OwnOnce(segs: seq<Segment>, segs': seq<Segment>, st: Setting, i: nat, slot: Slot)
    requires st.Proper() && SegmentsOk(segs', st) && |segs'| == |segs| && i < |segs|
    requires forall j | 0 <= j < |segs| && j != i :: segs'[j].world.live == segs[j].world.live
    requires segs'[i].world.live == segs[i].world.live + [slot]
    ensures !Out(segs, slot)
  {
    if Out(segs, slot) {
      var j :| 0 <= j < |segs| && slot in segs[j].world.live;
      OwnerIsGranter(segs', st, i, slot);
      if j != i { OwnerIsGranter(segs', st, j, slot); }
      var k := IndexOf(segs[i].world.live, slot);
      assert SegmentOk(segs'[i], st);
      LiveAddresses(segs'[i].world, st.nodes, k, |segs[i].world.live|);
    }
  }

  lemma SegmentsRun(segs: seq<Segment>, st: Setting)
    requires st.Proper() && SegmentsOk(segs, st)
    ensures CanRun(segs, st)
  {
    hide Invariant;
    forall i | 0 <= i < |segs| ensures segs[i].world.arena.gran > 0 && BandsSized(segs[i].world.arena.counters) {
      assert SegmentOk(segs[i], st);
    }
  }

  lemma TriedAt(segs: seq<Segment>, st: Setting, size: nat, j: nat)
    requires st.Proper() && SegmentsOk(segs, st) && size > 0 && CanRun(segs, st) && j < |segs|
    ensures var r := Try(segs, st, 0, size);
      && (j == r.1 ==> GrantOf(segs[j], size).Some?)
      && SegmentOk(r.0[j], st) && SameZone(r.0[j], segs[j])
      && r.0[j].world.live == segs[j].world.live + (if j == r.1 then [Slot(GrantOf(segs[j], size).value.addr, size)] else [])
      && r.0[j].world.arena.counters.used == segs[j].world.arena.counters.used + (if j == r.1 then AlignUp(size, st.gran) else 0)
  {
    hide Invariant, Allocate, Try;
    TryGrants(segs, st, 0, size);
    assert SegmentOk(segs[j], st);
    AskedOk(segs[j], st, size);
  }

  lemma TryKeeps(segs: seq<Segment>, st: Setting, size: nat)
    requires st.Proper() && SegmentsOk(segs, st) && size > 0
    ensures CanRun(segs, st)
    ensures var r := Try(segs, st, 0, size);
      && SegmentsOk(r.0, st) && |r.0| == |segs| && TotalSize(r.0) == TotalSize(segs)
      && (forall i | 0 <= i < |segs| :: SameZone(r.0[i], segs[i]))
      && (r.1 == |segs| ==> SameOut(segs, r.0) && Used(r.0) == Used(segs))
      && (r.1 < |segs| ==>
            && GrantOf(segs[r.1], size).Some?
            && Adds(segs, r.0, r.1, Slot(GrantOf(segs[r.1], size).value.addr, size))
            && Used(r.0) == Used(segs) + AlignUp(size, st.gran))
  {
    hide Invariant, Allocate, SegmentOk, SegmentsOk, Try, GrantOf, AlignUp, BandsSized;
    SegmentsRun(segs, st);
    var r := Try(segs, st, 0, size);
    forall j | 0 <= j < |segs|
      ensures j == r.1 ==> GrantOf(segs[j], size).Some?
      ensures SegmentOk(r.0[j], st) && SameZone(r.0[j], segs[j])
      ensures r.0[j].world.live == segs[j].world.live + (if j == r.1 then [Slot(GrantOf(segs[j], size).value.addr, size)] else [])
      ensures r.0[j].world.arena.counters.used == segs[j].world.arena.counters.used + (if j == r.1 then AlignUp(size, st.gran) else 0)
    {
      TriedAt(segs, st, size, j);
    }
    ZonesKept(segs, r.0, st);
    UsedShift(segs, r.0, r.1, AlignUp(size, st.gran));
    if r.1 < |segs| {
      assert GrantOf(segs[r.1], size).Some?;
      AppendedAdds(segs, r.0, st, r.1, Slot(GrantOf(segs[r.1], size).value.addr, size));
    }
  }

  lemma ReleaseKeeps(segs: seq<Segment>, st: Setting, i: nat, slot: Slot)
    requires st.Proper() && SegmentsOk(segs, st) && i < |segs| && slot in segs[i].world.live
    ensures segs[i].world.arena.gran > 0
    ensures var segs' := segs[i := segs[i].(world := ReleaseStep(segs[i].world, slot))];
      && SegmentsOk(segs', st) && TotalSize(segs') == TotalSize(segs)
      && (forall j | 0 <= j < |segs| :: SameZone(segs'[j], segs[j]))
      && (forall s :: Out(segs', s) <==> Out(segs, s) && s != slot)
      && Used(segs') + AlignUp(slot.requested, st.gran) == Used(segs)
  {
    hide Invariant, ReleaseStep;
    assert SegmentOk(segs[i], st);
    var w := segs[i].world;
    ReleaseFacts(w, slot, st.nodes);
    var segs' := segs[i := segs[i].(world := ReleaseStep(w, slot))];
    ZonesKept(segs, segs', st);
    UsedShift(segs', segs, i, AlignUp(slot.requested, st.gran));
    forall s ensures Out(segs', s) <==> Out(segs, s) && s != slot {
      WithoutLive(w, st.nodes, slot, s);
      if Out(segs', s) {
        var j :| 0 <= j < |segs| && s in segs'[j].world.live;
        assert s in segs[j].world.live;
        if j != i && s == slot {
          OwnerIsGranter(segs, st, i, slot);
          OwnerIsGranter(segs, st, j, slot);
        }
      }
      if Out(segs, s) && s != slot {
        var j :| 0 <= j < |segs| && s in segs[j].world.live;
        assert s in segs'[j].world.live;
      }
    }
  }

  // ---------------------------------------------------------------- Growing

  /** Zones of the system never add up to a whole address space, so the word sum of the cap check is
      the true sum whenever a zone was found. */
  lemma SumFits(segs: seq<Segment>, st: Setting, size: nat, zone: Zone)
    requires st.Proper() && SegmentsOk(segs, st) && Fits(segs, st, size, zone) && zone.base != 0
    ensures TotalSize(segs) + size < WORD
  {
    hide Invariant, Bytes;
    var s := Zones(segs) + [Span(zone.base, size)];
    forall i | 0 <= i < |segs| ensures 1 <= s[i].addr && s[i].End() <= segs[i].base + segs[i].world.arena.size <= WORD {
      assert SegmentOk(segs[i], st);
      assert s[i] == Span(segs[i].base, segs[i].size);
      BaseNotNull(segs[i], st);
    }
    forall i, j | 0 <= i < j < |s| ensures s[i].End() <= s[j].addr || s[j].End() <= s[i].addr {
      if j < |segs| { assert Apart(segs[i], segs[j]); }
    }
    DisjointBytes(s, 1, WORD - 1);
    BytesConcat(Zones(segs), [Span(zone.base, size)]);
    SingleSpan(Span(zone.base, size));
  }

  lemma BaseNotNull(g: Segment, st: Setting)
    requires st.Proper() && SegmentOk(g, st)
    ensures g.base > 0
  {}

  /** Appending an admissible zone: nothing is out of it yet. */
  lemma GrowKeeps(c: Corral, st: Setting, size: nat, zone: Zone)
    requires Kept(c, st) && Fits(c.segs, st, size, zone)
    ensures var (c', ok) := Grow(c, st, size, zone);
      && Kept(c', st)
      && (ok <==> |c.segs| < 64 && (c.maxReserved == 0 || c.total + size <= c.maxReserved) && zone.base != 0 && zone.pool)
      && (ok ==> c'.segs == c.segs + [Segment(zone.base, size, FreshWorld(zone.base, size, st.gran, st.nodes))])
      && (!ok ==> c' == c)
      && c' == c.(segs := c'.segs, total := c'.total)
  {
    hide Kept, Fits, Grow, FreshWorld;
    GrowOutcome(c, st, size, zone);
    GrownKept(c, st, size, zone);
  }

  lemma GrowOutcome(c: Corral, st: Setting, size: nat, zone: Zone)
    requires Kept(c, st) && Fits(c.segs, st, size, zone)
    ensures var (c', ok) := Grow(c, st, size, zone);
      && (ok <==> |c.segs| < 64 && (c.maxReserved == 0 || c.total + size <= c.maxReserved) && zone.base != 0 && zone.pool)
      && (ok ==> c'.segs == c.segs + [Segment(zone.base, size, FreshWorld(zone.base, size, st.gran, st.nodes))])
      && (ok ==> c'.total == c.total + size)
      && (!ok ==> c' == c)
      && c' == c.(segs := c'.segs, total := c'.total)
  {
    hide TotalSize, Grow, FreshWorld, SegmentsOk, Used, Owned, Fits;
    GrowCases(c, st, size, zone);
    if zone.base != 0 { SumFits(c.segs, st, size, zone); }
  }

  lemma GrownKept(c: Corral, st: Setting, size: nat, zone: Zone)
    requires Kept(c, st) && Fits(c.segs, st, size, zone)
    ensures Kept(Grow(c, st, size, zone).0, st)
  {
    hide TotalSize, Grow, FreshWorld, SegmentsOk, Used, Out, Owned, Fits;
    GrowOutcome(c, st, size, zone);
    var (c', ok) := Grow(c, st, size, zone);
    if ok {
      GrownSegments(c.segs, st, size, zone);
      SameOutOwned(c.segs, c'.segs, c.sizes, c.inHand);
    }
  }

  /** Nothing is out of the new segment, and nobody else's bytes are in it. */
  lemma GrownSegments(segs: seq<Segment>, st: Setting, size: nat, zone: Zone)
    requires st.Proper() && SegmentsOk(segs, st) && Fits(segs, st, size, zone) && zone.base != 0
    ensures var segs' := segs + [Segment(zone.base, size, FreshWorld(zone.base, size, st.gran, st.nodes))];
      SegmentsOk(segs', st) && SameOut(segs, segs') && Used(segs') == Used(segs) && TotalSize(segs') == TotalSize(segs) + size
  {
    hide Invariant, SegmentsOk, SegmentOk, FreshWorld, Out, TotalSize;
    var g := Segment(zone.base, size, FreshWorld(zone.base, size, st.gran, st.nodes));
    FreshSegmentOk(g, st);
    AppendKeeps(segs, g, st);
    UsedAppend(segs, g);
    GrowTotal(segs, g);
  }

  lemma SameOutOwned(segs: seq<Segment>, segs': seq<Segment>, sizes: map<nat, nat>, inHand: set<Slot>)
    requires SameOut(segs, segs') && Owned(segs, sizes, inHand)
    ensures Owned(segs', sizes, inHand)
  {
    hide Out;
  }

  lemma FreshSegmentOk(g: Segment, st: Setting)
    requires st.Proper() && g.base > 0 && g.size > 0 && g.base % st.gran == 0 && g.base + AlignUp(g.size, st.gran) <= WORD
    requires g.world == FreshWorld(g.base, g.size, st.gran, st.nodes)
    ensures SegmentOk(g, st) && g.world.live == [] && g.world.arena.counters.used == 0
    ensures g.world.arena.size == AlignUp(g.size, st.gran)
  {
    FreshInvariant(g.base, g.size, st.gran, st.nodes);
  }

  lemma AppendKeeps(segs: seq<Segment>, g: Segment, st: Setting)
    requires st.Proper() && SegmentsOk(segs, st) && SegmentOk(g, st) && g.world.live == []
    requires forall i | 0 <= i < |segs| :: Apart(segs[i], g)
    ensures SegmentsOk(segs + [g], st) && SameOut(segs, segs + [g])
  {
    hide Invariant, SegmentOk;
    var segs' := segs + [g];
    forall i, j | 0 <= i < j < |segs'| ensures Apart(segs'[i], segs'[j]) {
      if j < |segs| { assert Apart(segs[i], segs[j]); }
    }
    forall s ensures Out(segs', s) <==> Out(segs, s) {
      if Out(segs, s) { var i :| 0 <= i < |segs| && s in segs[i].world.live; assert s in segs'[i].world.live; }
    }
  }

  lemma GrowTotal(segs: seq<Segment>, g: Segment)
    ensures TotalSize(segs + [g]) == TotalSize(segs) + g.size
  {
    var one := [Span(g.base, g.size)];
    assert Zones(segs + [g]) == Zones(segs) + one;
    BytesConcat(Zones(segs), one);
    SingleSpan(one[0]);
  }

  /** Growth is enough: a zone added for a request has room for it, unless doubling the size overflowed a
      word and the floor does not cover the request. */
  lemma GrowthEnough(segs: seq<Segment>, st: Setting, size: nat, floor: nat, zone: Zone)
    requires st.Proper() && SegmentsOk(segs, st) && 0 < size <= WORD - st.gran
    requires Fits(segs, st, GrowSize(size, floor), zone) && zone.base != 0
    ensures var g := Segment(zone.base, GrowSize(size, floor), FreshWorld(zone.base, GrowSize(size, floor), st.gran, st.nodes));
      GrantOf(g, size).Some? <==> size * 2 < WORD || size <= AlignUp(floor, st.gran)
  {
    hide Invariant, SegmentsOk, FreshWorld, GrantOf, AlignUp;
    var grow := GrowSize(size, floor);
    FreshFits(zone.base, grow, st, size);
    AlignUpBelow(size, grow, st.gran);
    PositiveMultiple(zone.base, st.gran);
    DoublingCovers(size, floor, st.gran, zone.base);
  }

  lemma DoublingCovers(size: nat, floor: nat, gran: nat, base: nat)
    requires 0 < size < WORD && 0 < gran <= base && base + AlignUp(GrowSize(size, floor), gran) <= WORD
    ensures size <= AlignUp(GrowSize(size, floor), gran) <==> size * 2 < WORD || size <= AlignUp(floor, gran)
  {
    var grow := GrowSize(size, floor);
    AlignUpBelow(floor, grow, gran);
    assert grow < AlignUp(grow, gran) + 1 <= grow + gran;
    hide AlignUp;
    if size * 2 >= WORD { assert size * 2 % WORD == size * 2 - WORD; }
  }

  lemma AlignUpBelow(v: nat, m: nat, a: nat)
    requires a > 0
    ensures AlignUp(v, a) <= AlignUp(m, a) <==> v <= AlignUp(m, a)
  {
    if v <= AlignUp(m, a) { AlignUpLeast(v, AlignUp(m, a), a); }
  }

  lemma FreshFits(base: nat, bytes: nat, st: Setting, size: nat)
    requires st.Proper() && base > 0
    ensures GrantOf(Segment(base, bytes, FreshWorld(base, bytes, st.gran, st.nodes)), size).Some?
      <==> AlignUp(size, st.gran) <= AlignUp(bytes, st.gran)
  {
    var a := CountRequest(Fresh(base, bytes, st.gran, st.nodes));
    var need := AlignUp(size, st.gran);
    assert PopIndex(a.classes, 0, need) == 0;
    assert FirstFit(a.free, 1, need) == 1;
  }

  // ---------------------------------------------------------------- Steps

  /** The zones of `segs` are still there, and more may follow. */
  predicate Extends(later: seq<Segment>, segs: seq<Segment>) {
    |segs| <= |later| && forall i | 0 <= i < |segs| :: SameZone(later[i], segs[i])
  }

  /** What a reserve did: on success a slot nobody had is in the map and the peak is brought up to date;
      otherwise the map and the peak are as they were. */
  ghost predicate Reserved(c: Corral, c': Corral, size: nat, got: Option<nat>) {
    && c' == c.(segs := c'.segs, total := c'.total, sizes := c'.sizes, peak := c'.peak)
    && Extends(c'.segs, c.segs)
    && match got
       case None => c'.sizes == c.sizes && c'.peak == c.peak && Used(c'.segs) == Used(c.segs)
       case Some(addr) =>
         && addr > 0 && addr !in c.sizes && c'.sizes == c.sizes[addr := size]
         && (forall s | s in c.inHand :: s.addr != addr)
         && c'.peak == if c.peak < Used(c'.segs) then Used(c'.segs) else c.peak
  }

  /** Segments changed, callers and sums did not. */
  lemma QuietKeeps(c: Corral, c': Corral, st: Setting)
    requires Kept(c, st) && c' == c.(segs := c'.segs)
    requires SegmentsOk(c'.segs, st) && |c'.segs| == |c.segs| && TotalSize(c'.segs) == TotalSize(c.segs)
    requires SameOut(c.segs, c'.segs) && Used(c'.segs) == Used(c.segs)
    ensures Kept(c', st)
  {
    hide Invariant, SegmentsOk, Out;
  }

  lemma SettleKeeps(c: Corral, c1: Corral, st: Setting, i: nat, slot: Slot, commit: Commit)
    requires Kept(c, st) && c1 == c.(segs := c1.segs)
    requires SegmentsOk(c1.segs, st) && |c1.segs| == |c.segs| && TotalSize(c1.segs) == TotalSize(c.segs)
    requires forall j | 0 <= j < |c.segs| :: SameZone(c1.segs[j], c.segs[j])
    requires Adds(c.segs, c1.segs, i, slot) && Used(c1.segs) == Used(c.segs) + AlignUp(slot.requested, st.gran)
    ensures i < |c1.segs| && c1.segs[i].world.arena.gran > 0 && slot in c1.segs[i].world.live
    ensures var (c', got) := Settle(c1, i, slot, commit);
      Kept(c', st) && Reserved(c, c', slot.requested, got) && got == (if commit.CommitFailed? then None else Some(slot.addr))
  {
    hide Invariant, SegmentOk, ReleaseStep, TotalSize, Used;
    ReleaseKeeps(c1.segs, st, i, slot);
    SlotInSegment(c1.segs, st, i, slot);
    hide SegmentsOk;
    var (c', got) := Settle(c1, i, slot, commit);
    if commit.CommitFailed? {
      QuietKeeps(c, c', st);
      ZonesChain(c.segs, c1.segs, c'.segs);
    } else {
      MapAdds(c, c1.segs, i, slot);
    }
  }

  lemma ZonesChain(a: seq<Segment>, b: seq<Segment>, c: seq<Segment>)
    requires Extends(b, a) && Extends(c, b)
    ensures Extends(c, a)
  {
    forall i | 0 <= i < |a| ensures SameZone(c[i], a[i]) { assert SameZone(b[i], a[i]) && SameZone(c[i], b[i]); }
  }

  lemma MapAdds(c: Corral, segs: seq<Segment>, i: nat, slot: Slot)
    requires Owned(c.segs, c.sizes, c.inHand) && Adds(c.segs, segs, i, slot)
    ensures slot.addr !in c.sizes && forall s | s in c.inHand :: s.addr != slot.addr
    ensures Owned(segs, c.sizes[slot.addr := slot.requested], c.inHand)
  {
    hide Out;
    forall a | a in c.sizes ensures a != slot.addr {
      assert Listed(c.sizes, Slot(a, c.sizes[a]));
      assert Out(c.segs, Slot(a, c.sizes[a]));
    }
    forall s | s in c.inHand ensures s.addr != slot.addr { assert Out(c.segs, s); }
    var sizes := c.sizes[slot.addr := slot.requested];
    forall s ensures Out(segs, s) <==> Listed(sizes, s) || s in c.inHand {
      assert Out(c.segs, s) <==> Listed(c.sizes, s) || s in c.inHand;
    }
  }

  /** The allocator of a segment just added is asked. */
  lemma AskLastKeeps(c: Corral, st: Setting, size: nat)
    requires Kept(c, st) && c.segs != [] && size > 0
    ensures var i := |c.segs| - 1;
      && c.segs[i].world.arena.gran > 0 && BandsSized(c.segs[i].world.arena.counters)
      && var (segs', got) := (c.segs[i := Asked(c.segs[i], size)], GrantOf(c.segs[i], size));
      && SegmentsOk(segs', st) && TotalSize(segs') == TotalSize(c.segs) && Extends(segs', c.segs)
      && (got.None? ==> Kept(c.(segs := segs'), st) && Used(segs') == Used(c.segs))
      && (got.Some? ==> Adds(c.segs, segs', i, Slot(got.value.addr, size)) && Used(segs') == Used(c.segs) + AlignUp(size, st.gran))
  {
    hide Invariant, Allocate, AlignUp, TotalSize, Asked, GrantOf;
    var i := |c.segs| - 1;
    assert SegmentOk(c.segs[i], st);
    AskedOk(c.segs[i], st, size);
    var (segs', got) := (c.segs[i := Asked(c.segs[i], size)], GrantOf(c.segs[i], size));
    ZonesKept(c.segs, segs', st);
    if got.None? {
      UsedShift(c.segs, segs', i, 0);
      SameLiveSameOut(c.segs, segs');
      QuietKeeps(c, c.(segs := segs'), st);
    } else {
      UsedShift(c.segs, segs', i, AlignUp(size, st.gran));
      AppendedAdds(c.segs, segs', st, i, Slot(got.value.addr, size));
    }
  }

  lemma SameLiveSameOut(segs: seq<Segment>, segs': seq<Segment>)
    requires |segs'| == |segs| && forall j | 0 <= j < |segs| :: segs'[j].world.live == segs[j].world.live
    ensures SameOut(segs, segs')
  {
    forall s ensures Out(segs', s) <==> Out(segs, s) {
      if Out(segs, s) { var j :| 0 <= j < |segs| && s in segs[j].world.live; assert s in segs'[j].world.live; }
      if Out(segs', s) { var j :| 0 <= j < |segs| && s in segs'[j].world.live; assert s in segs[j].world.live; }
    }
  }

  /** The segments after a slot was looked for, and the corral `mid` it is settled in: the one before, or
      the grown one. */
  ghost predicate Secured(c: Corral, mid: Corral, c': Corral, st: Setting, size: nat, addr: nat, i: nat) {
    && Kept(mid, st) && mid == c.(segs := mid.segs, total := mid.total) && c' == mid.(segs := c'.segs)
    && Extends(mid.segs, c.segs) && Used(mid.segs) == Used(c.segs)
    && SegmentsOk(c'.segs, st) && |c'.segs| == |mid.segs| && TotalSize(c'.segs) == TotalSize(mid.segs)
    && Extends(c'.segs, mid.segs)
    && if addr == 0 then Kept(c', st) && Used(c'.segs) == Used(c.segs)
       else Adds(mid.segs, c'.segs, i, Slot(addr, size)) && Used(c'.segs) == Used(mid.segs) + AlignUp(size, st.gran)
  }

  lemma AddsPositive(segs: seq<Segment>, segs': seq<Segment>, st: Setting, i: nat, slot: Slot)
    requires st.Proper() && SegmentsOk(segs', st) && Adds(segs, segs', i, slot)
    ensures slot.addr > 0
  {
    SlotInSegment(segs', st, i, slot);
  }

  lemma SecureKeeps(c: Corral, st: Setting, size: nat, zone: Zone) returns (mid: Corral)
    requires Kept(c, st) && Fits(c.segs, st, GrowSize(size, c.growFloor), zone) && size > 0
    ensures CanRun(c.segs, st)
    ensures var r := Secure(c, st, size, zone); Secured(c, mid, r.0, st, size, r.1, r.2)
  {
    hide Invariant, SegmentOk, TotalSize, Used, Asked, GrantOf, Try, AlignUp, Grow, Adds, Owned, Fits;
    SegmentsRun(c.segs, st);
    TryKeeps(c.segs, st, size);
    var tried := Try(c.segs, st, 0, size);
    var c1 := c.(segs := tried.0);
    if tried.1 < |c.segs| {
      mid := c;
      AddsPositive(c.segs, c1.segs, st, tried.1, Slot(GrantOf(c.segs[tried.1], size).value.addr, size));
    } else {
      QuietKeeps(c, c1, st);
      FitsStill(c.segs, c1.segs, st, GrowSize(size, c.growFloor), zone);
      mid := GrownKeeps(c, c1, st, size, zone);
    }
  }

  lemma FitsStill(segs: seq<Segment>, segs': seq<Segment>, st: Setting, bytes: nat, zone: Zone)
    requires st.Proper() && Fits(segs, st, bytes, zone) && Extends(segs', segs) && |segs'| == |segs|
    ensures Fits(segs', st, bytes, zone)
  {
    forall i | 0 <= i < |segs|
      ensures zone.base == 0 || zone.base + AlignUp(bytes, st.gran) <= segs'[i].base
           || segs'[i].base + segs'[i].world.arena.size <= zone.base
    {
      assert SameZone(segs'[i], segs[i]);
    }
  }

  lemma GrownKeeps(c: Corral, c1: Corral, st: Setting, size: nat, zone: Zone) returns (mid: Corral)
    requires Kept(c, st) && size > 0 && CanRun(c.segs, st)
    requires c1 == c.(segs := Try(c.segs, st, 0, size).0) && Try(c.segs, st, 0, size).1 == |c.segs|
    requires Kept(c1, st) && Used(c1.segs) == Used(c.segs) && Extends(c1.segs, c.segs) && |c1.segs| == |c.segs|
    requires Fits(c1.segs, st, GrowSize(size, c.growFloor), zone)
    ensures var r := Secure(c, st, size, zone); Secured(c, mid, r.0, st, size, r.1, r.2)
  {
    hide Invariant, SegmentOk, TotalSize, Used, Asked, GrantOf, Try, AlignUp, Adds, Owned, Fits;
    var bytes := GrowSize(size, c.growFloor);
    GrowKeeps(c1, st, bytes, zone);
    var (c2, grown) := Grow(c1, st, bytes, zone);
    mid := c1;
    if grown {
      mid := c2;
      AskLastKeeps(c2, st, size);
      var i := |c.segs|;
      var segs' := c2.segs[i := Asked(c2.segs[i], size)];
      UsedAppend(c1.segs, c2.segs[i]);
      ZonesChain(c.segs, c1.segs, c2.segs);
      if GrantOf(c2.segs[i], size).Some? {
        AddsPositive(c2.segs, segs', st, i, Slot(GrantOf(c2.segs[i], size).value.addr, size));
      }
    }
  }

  lemma ReserveKeeps(c: Corral, st: Setting, size: nat, zone: Zone, commit: Commit)
    requires Kept(c, st) && Fits(c.segs, st, GrowSize(size, c.growFloor), zone)
    ensures CanRun(c.segs, st)
    ensures var (c', got) := Reserve(c, st, size, zone, commit); Kept(c', st) && Reserved(c, c', size, got)
  {
    hide Invariant, SegmentsOk, TotalSize, Used, Settle, AlignUp, Adds, Owned, Secure, Fits;
    KeptSegments(c, st);
    SegmentsRun(c.segs, st);
    if c.ready && size > 0 {
      var mid := SecureKeeps(c, st, size, zone);
      var (c1, addr, i) := Secure(c, st, size, zone);
      SecureGrants(c, st, size, zone);
      ZonesChain(c.segs, mid.segs, c1.segs);
      if addr != 0 {
        SettleKeeps(mid, c1, st, i, Slot(addr, size), commit);
        var (c', got) := Settle(c1, i, Slot(addr, size), commit);
        ZonesChain(c.segs, mid.segs, c'.segs);
      }
    }
  }

  lemma UsedAppend(segs: seq<Segment>, g: Segment)
    ensures Used(segs + [g]) == Used(segs) + g.world.arena.counters.used
  {
    assert (segs + [g])[..|segs|] == segs;
  }

  /** Taking an entry: it was the map's, it is now the thread's, and the search has found its segment. */
  lemma TakeKeeps(c: Corral, st: Setting, addr: nat)
    requires Kept(c, st)
    ensures var (c', got) := Take(c, addr);
      && Kept(c', st)
      && c' == c.(sizes := c'.sizes, inHand := c'.inHand)
      && got == (if c.ready && addr in c.sizes then Some(Slot(addr, c.sizes[addr])) else None)
      && match got
         case None => c' == c
         case Some(slot) => c'.sizes == c.sizes - {addr} && c'.inHand == c.inHand + {slot} && slot !in c.inHand
  {
    hide Invariant, SegmentOk;
    if addr in c.sizes {
      var slot := Slot(addr, c.sizes[addr]);
      assert Listed(c.sizes, slot) && Out(c.segs, slot);
      var i :| 0 <= i < |c.segs| && slot in c.segs[i].world.live;
      SlotInSegment(c.segs, st, i, slot);
      OwnerIsGranter(c.segs, st, i, slot);
      hide Out;
      if c.ready {
        var c' := Take(c, addr).0;
        forall s ensures Out(c'.segs, s) <==> Listed(c'.sizes, s) || s in c'.inHand {
          assert Out(c.segs, s) <==> Listed(c.sizes, s) || s in c.inHand;
        }
      }
    }
  }

  /** A slot in a thread's hands is one its segment granted, and handing it back is all that happens. */
  lemma GiveBackKeeps(c: Corral, st: Setting, slot: Slot)
    requires Kept(c, st) && slot in c.inHand
    ensures Returnable(c, slot)
    ensures var c' := GiveBack(c, slot);
      && Kept(c', st) && Extends(c'.segs, c.segs)
      && c' == c.(segs := c'.segs, inHand := c.inHand - {slot})
      && Used(c'.segs) + AlignUp(slot.requested, st.gran) == Used(c.segs)
  {
    hide Invariant, SegmentOk, ReleaseStep;
    assert Out(c.segs, slot);
    var i :| 0 <= i < |c.segs| && slot in c.segs[i].world.live;
    OwnerIsGranter(c.segs, st, i, slot);
    ReleaseKeeps(c.segs, st, i, slot);
    hide SegmentsOk;
    MapDrops(c, GiveBack(c, slot).segs, slot);
  }

  lemma MapDrops(c: Corral, segs: seq<Segment>, slot: Slot)
    requires Owned(c.segs, c.sizes, c.inHand) && slot in c.inHand
    requires forall s :: Out(segs, s) <==> Out(c.segs, s) && s != slot
    ensures Owned(segs, c.sizes, c.inHand - {slot})
  {
    hide Out;
    forall s ensures Out(segs, s) <==> Listed(c.sizes, s) || s in c.inHand - {slot} {
      assert Out(c.segs, s) <==> Listed(c.sizes, s) || s in c.inHand;
    }
  }

  // ---------------------------------------------------------------- Runs

  datatype Op =
    | Open(size: nat, zone: Zone)
    | Request(size: nat, zone: Zone, commit: Commit)
    | Erase(addr: nat)
    | Return(slot: Slot)

  /** Only a corral without segments is opened; a thread hands back what it took. */
  ghost predicate Enabled(c: Corral, st: Setting, op: Op) {
    st.Proper() &&
    match op
    case Open(size, zone) => !c.ready && c.segs == [] && Fits(c.segs, st, size, zone)
    case Request(size, zone, _) => CanRun(c.segs, st) && Fits(c.segs, st, GrowSize(size, c.growFloor), zone)
    case Erase(_) => true
    case Return(slot) => slot in c.inHand && Returnable(c, slot)
  }

  ghost function Next(c: Corral, st: Setting, op: Op): Corral
    requires Enabled(c, st, op)
  {
    match op
    case Open(size, zone) => var (c', ok) := Grow(c, st, size, zone); c'.(ready := ok)
    case Request(size, zone, commit) => Reserve(c, st, size, zone, commit).0
    case Erase(addr) => Take(c, addr).0
    case Return(slot) => GiveBack(c, slot)
  }

  /** The invariant of runs: the corral is open exactly when it has a segment. */
  ghost predicate Safe(c: Corral, st: Setting) { Kept(c, st) && (c.ready <==> c.segs != []) }

  /** Segments are only ever appended and the corral stays open; what is used never exceeds the peak, which
      only a new use raises. */
  lemma StepKeeps(c: Corral, st: Setting, op: Op)
    requires Safe(c, st) && Enabled(c, st, op)
    ensures var c' := Next(c, st, op);
      && Safe(c', st) && Extends(c'.segs, c.segs) && c.peak <= c'.peak && (c.ready ==> c'.ready)
      && (c'.peak == c.peak || c'.peak == Used(c'.segs))
  {
    hide Invariant, SegmentOk, SegmentsOk, TotalSize, Used, Secure, Settle, Out, Owned, ReleaseStep;
    match op
    case Open(size, zone) => GrowKeeps(c, st, size, zone);
    case Request(size, zone, commit) => ReserveKeeps(c, st, size, zone, commit);
    case Erase(addr) => TakeKeeps(c, st, addr);
    case Return(slot) => GiveBackKeeps(c, st, slot);
  }

  function Closed(floor: nat, most: nat): Corral { Corral([], floor, most, 0, map[], {}, 0, false) }

  lemma ClosedSafe(floor: nat, most: nat, st: Setting)
    requires st.Proper()
    ensures Safe(Closed(floor, most), st)
  {}

  ghost predicate IsRun(cs: seq<Corral>, st: Setting, ops: seq<Op>) {
    && |cs| == |ops| + 1
    && forall i {:trigger ops[i]} | 0 <= i < |ops| :: Enabled(cs[i], st, ops[i]) && cs[i + 1] == Next(cs[i], st, ops[i])
  }

  lemma {:induction false} RunKeeps(cs: seq<Corral>, st: Setting, ops: seq<Op>, i: nat, j: nat)
    requires IsRun(cs, st, ops) && Safe(cs[0], st) && i <= j < |cs|
    ensures Safe(cs[j], st) && Extends(cs[j].segs, cs[i].segs) && cs[i].peak <= cs[j].peak && (cs[i].ready ==> cs[j].ready)
    decreases j
  {
    hide Safe, Next, Enabled;
    if j > 0 {
      var n := if i < j then i else j - 1;
      RunKeeps(cs, st, ops, n, j - 1);
      assert ops[j - 1] == ops[j - 1];
      StepKeeps(cs[j - 1], st, ops[j - 1]);
      if i < j { ZonesChain(cs[i].segs, cs[j - 1].segs, cs[j].segs); }
    }
  }

  lemma {:induction false} OwnedExactly(segs: seq<Segment>, k: nat, addr: nat)
    requires k <= |segs|
    ensures OwnerFrom(segs, k, addr) < |segs| <==> exists i :: k <= i < |segs| && segs[i].base <= addr < segs[i].base + segs[i].size
    decreases |segs| - k
  {
    if k < |segs| {
      OwnedExactly(segs, k + 1, addr);
      if segs[k].Spans(addr) { assert segs[k].base <= addr < segs[k].base + segs[k].size; }
    }
  }

  /** A reader takes an address for the script heap's exactly when the corral is open, the address is not null, and
      it lies in one of the zones the reader sees. */
  lemma RecognisedExactly(c: Corral, seen: nat, addr: nat)
    requires seen <= |c.segs|
    ensures Recognises(c, seen, addr) <==>
      c.ready && addr != 0 && exists i :: 0 <= i < seen && c.segs[i].base <= addr < c.segs[i].base + c.segs[i].size
  {
    var segs := c.segs[..seen];
    OwnedExactly(segs, 0, addr);
    if i :| 0 <= i < seen && c.segs[i].base <= addr < c.segs[i].base + c.segs[i].size {
      assert segs[i].base <= addr < segs[i].base + segs[i].size;
    }
  }

  /** A slot that is out is recognised from then on by every reader, whichever later segment count the
      reader happens to see, and as its own segment's. */
  lemma RecognisedForEver(cs: seq<Corral>, st: Setting, ops: seq<Op>, i: nat, j: nat, seen: nat, s: Slot)
    requires IsRun(cs, st, ops) && Safe(cs[0], st) && i <= j < |cs|
    requires Out(cs[i].segs, s) && |cs[i].segs| <= seen <= |cs[j].segs|
    ensures Recognises(cs[j], seen, s.addr)
    ensures OwnerFrom(cs[j].segs[..seen], 0, s.addr) == OwnerFrom(cs[i].segs, 0, s.addr)
  {
    hide Kept, Invariant, SegmentOk, Next;
    RunKeeps(cs, st, ops, 0, i);
    RunKeeps(cs, st, ops, i, j);
    var segs := cs[i].segs;
    var k :| 0 <= k < |segs| && s in segs[k].world.live;
    KeptSegments(cs[i], st);
    KeptSegments(cs[j], st);
    SlotInSegment(segs, st, k, s);
    OwnerIsGranter(segs, st, k, s);
    SpansAlone(cs[j].segs, st, segs, k, s.addr);
    OwnerIs(cs[j].segs[..seen], 0, k, s.addr);
  }

  /** Every run of a corral from its start: the reservation is the sum of disjoint segments within the cap,
      and every slot in the map or in a thread's hands is out of the segment its address leads to. */
  lemma EveryRun(cs: seq<Corral>, st: Setting, ops: seq<Op>, floor: nat, most: nat, j: nat, s: Slot)
    requires IsRun(cs, st, ops) && st.Proper() && cs[0] == Closed(floor, most) && j < |cs|
    ensures cs[j].total == TotalSize(cs[j].segs) && (cs[j].maxReserved == 0 || cs[j].total <= cs[j].maxReserved)
    ensures forall m, n | 0 <= m < n < |cs[j].segs| :: Apart(cs[j].segs[m], cs[j].segs[n])
    ensures Listed(cs[j].sizes, s) || s in cs[j].inHand ==> Recognises(cs[j], |cs[j].segs|, s.addr) && Returnable(cs[j], s)
  {
    hide Invariant, SegmentOk, Next, TotalSize, Used;
    ClosedSafe(floor, most, st);
    RunKeeps(cs, st, ops, 0, j);
    if Listed(cs[j].sizes, s) || s in cs[j].inHand {
      assert Out(cs[j].segs, s);
      RecognisedForEver(cs, st, ops, j, j, |cs[j].segs|, s);
      assert cs[j].segs[..|cs[j].segs|] == cs[j].segs;
      OutReturnable(cs[j], st, s);
    }
  }

  lemma OutReturnable(c: Corral, st: Setting, s: Slot)
    requires Kept(c, st) && Out(c.segs, s)
    ensures Returnable(c, s)
  {
    hide Invariant;
    var i :| 0 <= i < |c.segs| && s in c.segs[i].world.live;
    assert SegmentOk(c.segs[i], st);
    OwnerIsGranter(c.segs, st, i, s);
  }

  lemma SafeProper(c: Corral, st: Setting)
    requires Safe(c, st)
    ensures st.Proper()
  {}

  lemma KeptSegments(c: Corral, st: Setting)
    requires Kept(c, st)
    ensures st.Proper() && SegmentsOk(c.segs, st)
  {}

  lemma SpansAlone(later: seq<Segment>, st: Setting, segs: seq<Segment>, k: nat, addr: nat)
    requires st.Proper() && SegmentsOk(later, st) && Extends(later, segs) && k < |segs| && segs[k].Spans(addr)
    ensures later[k].Spans(addr)
    ensures forall j | 0 <= j < |later| && j != k :: !later[j].Spans(addr)
  {
    hide Invariant;
    assert SameZone(later[k], segs[k]) && SegmentOk(later[k], st);
    forall j | 0 <= j < |later| && j != k ensures !later[j].Spans(addr) {
      assert SegmentOk(later[j], st);
      assert Apart(later[if j < k then j else k], later[if j < k then k else j]);
    }
  }

  /** The recorded peak is the largest number of bytes in use at any moment of the run. */
  lemma {:induction false} PeakIsMaximum(cs: seq<Corral>, st: Setting, ops: seq<Op>, n: nat) returns (top: nat)
    requires IsRun(cs, st, ops) && Safe(cs[0], st) && cs[0].peak == Used(cs[0].segs) && n < |cs|
    ensures top <= n && cs[n].peak == Used(cs[top].segs)
    ensures forall i | 0 <= i <= n :: Used(cs[i].segs) <= cs[n].peak
  {
    hide Next, Enabled, Used, SegmentsOk, Owned, TotalSize;
    top := 0;
    if n > 0 {
      top := PeakIsMaximum(cs, st, ops, n - 1);
      RunKeeps(cs, st, ops, n - 1, n - 1);
      assert ops[n - 1] == ops[n - 1];
      StepKeeps(cs[n - 1], st, ops[n - 1]);
      if cs[n].peak != cs[n - 1].peak { top := n; }
    }
  }

  /** Of two frees of one pointer the second finds no entry, however long the first keeps the slot in
      its hands, and nobody is granted the slot meanwhile. */
  lemma SecondFreeFindsNothing(c: Corral, st: Setting, slot: Slot, size: nat, zone: Zone, commit: Commit)
    requires Kept(c, st) && slot in c.inHand && Fits(c.segs, st, GrowSize(size, c.growFloor), zone)
    ensures Take(c, slot.addr) == (c, None)
    ensures CanRun(c.segs, st) && Reserve(c, st, size, zone, commit).1 != Some(slot.addr)
  {
    hide Invariant, SegmentOk, SegmentsOk, Reserve;
    TakeKeeps(c, st, slot.addr);
    ReserveKeeps(c, st, size, zone, commit);
  }

  // ---------------------------------------------------------------- Adding up while slots come back

  /** Segment by segment no more is in use than before. */
  predicate Lowered(later: seq<Segment>, segs: seq<Segment>) {
    |later| == |segs| && forall i | 0 <= i < |segs| :: later[i].world.arena.counters.used <= segs[i].world.arena.counters.used
  }

  lemma ReturnLowers(c: Corral, st: Setting, slot: Slot)
    requires Kept(c, st) && slot in c.inHand
    ensures Returnable(c, slot) && Lowered(GiveBack(c, slot).segs, c.segs)
  {
    hide Invariant, ReleaseStep;
    GiveBackKeeps(c, st, slot);
    var i := OwnerFrom(c.segs, 0, slot.addr);
    assert SegmentOk(c.segs[i], st);
    ReleaseFacts(c.segs[i].world, slot, st.nodes);
  }

  lemma RunStep(cs: seq<Corral>, st: Setting, ops: seq<Op>, k: nat)
    requires IsRun(cs, st, ops) && k < |ops|
    ensures Enabled(cs[k], st, ops[k]) && cs[k + 1] == Next(cs[k], st, ops[k])
  {
    hide Next, Enabled;
  }

  lemma ReturnStepLowers(c: Corral, st: Setting, op: Op)
    requires Safe(c, st) && Enabled(c, st, op) && op.Return?
    ensures Lowered(Next(c, st, op).segs, c.segs)
  {
    hide Lowered, Kept, GiveBack, Returnable;
    ReturnLowers(c, st, op.slot);
  }

  lemma ReturnStep(cs: seq<Corral>, st: Setting, ops: seq<Op>, k: nat)
    requires IsRun(cs, st, ops) && Safe(cs[0], st) && k < |ops| && ops[k].Return?
    ensures Lowered(cs[k + 1].segs, cs[k].segs)
  {
    RunStep(cs, st, ops, k);
    RunKeeps(cs, st, ops, 0, k);
    hide Safe, Lowered, Next, Enabled, IsRun, Extends;
    ReturnStepLowers(cs[k], st, ops[k]);
  }

  lemma {:induction false} ReturnsLower(cs: seq<Corral>, st: Setting, ops: seq<Op>, i: nat, j: nat)
    requires IsRun(cs, st, ops) && Safe(cs[0], st) && i <= j < |cs| && forall k | 0 <= k < |ops| :: ops[k].Return?
    ensures Lowered(cs[j].segs, cs[i].segs)
  {
    hide Safe, Next, Enabled;
    if i < j {
      hide Lowered;
      ReturnsLower(cs, st, ops, i, j - 1);
      ReturnStep(cs, st, ops, j - 1);
      LoweredChain(cs[i].segs, cs[j - 1].segs, cs[j].segs);
    }
  }

  lemma LoweredChain(a: seq<Segment>, b: seq<Segment>, c: seq<Segment>)
    requires Lowered(b, a) && Lowered(c, b)
    ensures Lowered(c, a)
  {
  }

  /** The sum of the first `n` segments' use, segment `i` read in the state `times[i]`. */
  function SumRead(cs: seq<Corral>, times: seq<nat>, n: nat): nat
    requires n <= |times| && forall i | 0 <= i < n :: times[i] < |cs| && i < |cs[times[i]].segs|
  {
    if n == 0 then 0 else SumRead(cs, times, n - 1) + cs[times[n - 1]].segs[n - 1].world.arena.counters.used
  }

  lemma {:induction false} SumBetween(cs: seq<Corral>, times: seq<nat>, n: nat, segs: seq<Segment>, later: seq<Segment>)
    requires n <= |times| && |segs| == |later| == n
    requires forall i | 0 <= i < n :: times[i] < |cs| && i < |cs[times[i]].segs|
    requires forall i | 0 <= i < n ::
      later[i].world.arena.counters.used <= cs[times[i]].segs[i].world.arena.counters.used <= segs[i].world.arena.counters.used
    ensures Used(later) <= SumRead(cs, times, n) <= Used(segs)
  {
    if n > 0 { SumBetween(cs, times, n - 1, segs[..n - 1], later[..n - 1]); }
  }

  /** A reserve adds up the use of its segments one by one, and meanwhile other threads may hand slots back,
      though nothing else can happen.  Whatever they hand back, and whenever, the sum lies between what was
      in use when the adding began and what is in use when it ends: a recorded peak is never more than was
      in use at some moment, and never less than what is in use when the reserve ends. */
  lemma SumWhileFreeing(cs: seq<Corral>, st: Setting, ops: seq<Op>, times: seq<nat>)
    requires IsRun(cs, st, ops) && Safe(cs[0], st) && forall k | 0 <= k < |ops| :: ops[k].Return?
    requires |times| == |cs[0].segs| && forall i | 0 <= i < |times| :: times[i] < |cs|
    ensures forall i | 0 <= i < |times| :: |cs[times[i]].segs| == |times|
    ensures Used(cs[|ops|].segs) <= SumRead(cs, times, |times|) <= Used(cs[0].segs)
  {
    hide Kept, Next, Enabled, Used;
    ReturnsLower(cs, st, ops, 0, |ops|);
    forall i | 0 <= i < |times|
      ensures |cs[times[i]].segs| == |times|
      ensures cs[|ops|].segs[i].world.arena.counters.used <= cs[times[i]].segs[i].world.arena.counters.used
           <= cs[0].segs[i].world.arena.counters.used
    {
      ReturnsLower(cs, st, ops, 0, times[i]);
      ReturnsLower(cs, st, ops, times[i], |ops|);
    }
    SumBetween(cs, times, |times|, cs[0].segs, cs[|ops|].segs);
  }
}
