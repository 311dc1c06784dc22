/** What the script arena's fixed bounds mean: the cap on its zones keeps their node pools large enough, and
    a reserve fails exactly when no zone has room and none can be added that has. */
module CorralLimits {
  import opened Granules
  import opened Spans
  import opened ArenaModel
  import opened ArenaInvariant
  import opened ArenaTheorems
  import opened CorralModel
  import Theorems = CorralTheorems
  import NodeBudget
  import PoolExhaustion

  // ---------------------------------------------------------------- Zones lose nothing

  /** No zone is larger than the cap, or without a cap than the address space. */
  function Largest(most: nat, gran: nat): nat
    requires gran > 0
  {
    if most == 0 then WORD else AlignUp(most, gran)
  }

  ghost predicate Lossless(segs: seq<Segment>) { forall i | 0 <= i < |segs| :: segs[i].world.lost == [] }

  /** A zone whose node pool cannot run dry. */
  ghost predicate Roomy(g: Segment, st: Setting)
    requires st.Proper()
  {
    Theorems.SegmentOk(g, st) && NodeBudget.Sufficient(g.world.arena.size, st.gran, st.nodes)
  }

  lemma OneOfTotal(segs: seq<Segment>, i: nat)
    requires i < |segs|
    ensures segs[i].size <= Theorems.TotalSize(segs)
  {
    var zones := Theorems.Zones(segs);
    assert zones == zones[..i] + ([zones[i]] + zones[i + 1..]);
    BytesConcat(zones[..i], [zones[i]] + zones[i + 1..]);
    BytesConcat([zones[i]], zones[i + 1..]);
    SingleSpan(zones[i]);
  }

  lemma SegmentRoomy(c: Corral, st: Setting, i: nat)
    requires Theorems.Kept(c, st) && NodeBudget.Sufficient(Largest(c.maxReserved, st.gran), st.gran, st.nodes) && i < |c.segs|
    ensures Roomy(c.segs[i], st)
  {
    hide Invariant, Theorems.TotalSize;
    var g := c.segs[i];
    assert Theorems.SegmentOk(g, st);
    OneOfTotal(c.segs, i);
    if c.maxReserved > 0 { AlignUpLeast(g.size, AlignUp(c.maxReserved, st.gran), st.gran); }
  }

  lemma ReplacedLossless(segs: seq<Segment>, i: nat, g: Segment)
    requires Lossless(segs) && i < |segs| && g.world.lost == []
    ensures Lossless(segs[i := g])
  {
  }

  /** Asking a zone, whatever it answers, or giving a slot back to it loses nothing. */
  lemma AskedLossless(g: Segment, st: Setting, size: nat)
    requires st.Proper() && Roomy(g, st) && g.world.lost == [] && size > 0
    ensures g.world.arena.gran > 0 && BandsSized(g.world.arena.counters) && Asked(g, size).world.lost == []
  {
    hide Invariant, AllocStep;
    NodeBudget.SufficientStepLosesNothing(g.world, Op.Alloc(size, false), st.nodes);
  }

  lemma ReleasedLossless(g: Segment, st: Setting, slot: Slot)
    requires st.Proper() && Roomy(g, st) && g.world.lost == [] && slot in g.world.live
    ensures g.world.arena.gran > 0 && ReleaseStep(g.world, slot).lost == []
  {
    hide Invariant, ReleaseStep;
    NodeBudget.SufficientStepLosesNothing(g.world, Op.Release(slot), st.nodes);
  }

  /** After a search that found nothing the corral is ready to grow. */
  lemma SearchedKept(c: Corral, st: Setting, size: nat, zone: Zone)
    requires Theorems.Kept(c, st) && Theorems.Fits(c.segs, st, GrowSize(size, c.growFloor), zone) && size > 0
    ensures CanRun(c.segs, st)
    ensures var tried := Try(c.segs, st, 0, size);
      tried.1 == |c.segs| ==>
        Theorems.Kept(c.(segs := tried.0), st) && Theorems.Fits(tried.0, st, GrowSize(size, c.growFloor), zone)
  {
    Theorems.KeptSegments(c, st);
    Theorems.TryKeeps(c.segs, st, size);
    var tried := Try(c.segs, st, 0, size);
    hide Invariant, Theorems.SegmentsOk, Theorems.TotalSize, Used, Theorems.Owned, Try, GrowSize, Theorems.Fits, Theorems.SameOut;
    if tried.1 == |c.segs| {
      Theorems.QuietKeeps(c, c.(segs := tried.0), st);
      Theorems.FitsStill(c.segs, tried.0, st, GrowSize(size, c.growFloor), zone);
    }
  }

  lemma SearchedLossless(c: Corral, st: Setting, size: nat)
    requires Theorems.Kept(c, st) && size > 0 && Lossless(c.segs)
    requires NodeBudget.Sufficient(Largest(c.maxReserved, st.gran), st.gran, st.nodes)
    ensures CanRun(c.segs, st) && Lossless(Try(c.segs, st, 0, size).0)
  {
    Theorems.KeptSegments(c, st);
    Theorems.SegmentsRun(c.segs, st);
    TryGrants(c.segs, st, 0, size);
    hide Theorems.Kept, Theorems.SegmentsOk, Roomy, Try, Asked, GrantOf, NodeBudget.Sufficient, Largest;
    forall i | 0 <= i < |c.segs| ensures Try(c.segs, st, 0, size).0[i].world.lost == [] {
      SegmentRoomy(c, st, i);
      AskedLossless(c.segs[i], st, size);
    }
  }

  lemma SecuredLossless(c: Corral, st: Setting, size: nat, zone: Zone)
    requires Theorems.Kept(c, st) && Theorems.Fits(c.segs, st, GrowSize(size, c.growFloor), zone) && size > 0 && Lossless(c.segs)
    requires NodeBudget.Sufficient(Largest(c.maxReserved, st.gran), st.gran, st.nodes)
    ensures CanRun(c.segs, st) && Lossless(Secure(c, st, size, zone).0.segs)
  {
    SearchedKept(c, st, size, zone);
    SearchedLossless(c, st, size);
    hide Theorems.Kept, Theorems.Fits, Try, Asked, GrantOf, Grow, GrowSize, Largest, Lossless;
    var tried := Try(c.segs, st, 0, size);
    if tried.1 == |c.segs| { GrownLossless(c.(segs := tried.0), st, size, GrowSize(size, c.growFloor), zone); }
  }

  /** A zone just added has lost nothing, nor does it when it is asked. */
  lemma GrownLossless(c: Corral, st: Setting, size: nat, bytes: nat, zone: Zone)
    requires Theorems.Kept(c, st) && Theorems.Fits(c.segs, st, bytes, zone) && size > 0 && Lossless(c.segs)
    requires NodeBudget.Sufficient(Largest(c.maxReserved, st.gran), st.gran, st.nodes)
    ensures var (c', ok) := Grow(c, st, bytes, zone); var i := |c.segs|;
      && Lossless(c'.segs)
      && (ok ==>
            && |c'.segs| == i + 1 && c'.segs[i].world.arena.gran > 0 && BandsSized(c'.segs[i].world.arena.counters)
            && Lossless(c'.segs[i := Asked(c'.segs[i], size)]))
  {
    Theorems.KeptSegments(c, st);
    FreshLossless(zone.base, bytes, st);
    hide Theorems.Kept, Theorems.Fits, Theorems.SegmentsOk, Asked, Grow, FreshWorld, NodeBudget.Sufficient;
    Theorems.GrowKeeps(c, st, bytes, zone);
    var (c', ok) := Grow(c, st, bytes, zone);
    assert Lossless(c'.segs);
    hide Lossless;
    if ok { LastLossless(c', st, size); }
  }

  lemma LastLossless(c: Corral, st: Setting, size: nat)
    requires Theorems.Kept(c, st) && c.segs != [] && size > 0 && Lossless(c.segs)
    requires NodeBudget.Sufficient(Largest(c.maxReserved, st.gran), st.gran, st.nodes)
    ensures var i := |c.segs| - 1;
      && c.segs[i].world.arena.gran > 0 && BandsSized(c.segs[i].world.arena.counters)
      && Lossless(c.segs[i := Asked(c.segs[i], size)])
  {
    var i := |c.segs| - 1;
    Theorems.KeptSegments(c, st);
    assert c.segs[i].world.lost == [];
    hide Theorems.Kept, Theorems.SegmentsOk, Asked, Roomy, Lossless, NodeBudget.Sufficient, Largest;
    SegmentRoomy(c, st, i);
    AskedLossless(c.segs[i], st, size);
    ReplacedLossless(c.segs, i, Asked(c.segs[i], size));
  }

  lemma FreshLossless(base: nat, size: nat, st: Setting)
    requires st.Proper()
    ensures FreshWorld(base, size, st.gran, st.nodes).lost == []
  {
  }

  lemma SettledLossless(c: Corral, mid: Corral, c1: Corral, st: Setting, size: nat, addr: nat, i: nat, commit: Commit)
    requires addr != 0 && Theorems.Secured(c, mid, c1, st, size, addr, i) && Lossless(c1.segs)
    requires NodeBudget.Sufficient(Largest(c.maxReserved, st.gran), st.gran, st.nodes)
    ensures i < |c1.segs| && c1.segs[i].world.arena.gran > 0 && Slot(addr, size) in c1.segs[i].world.live
    ensures Lossless(Settle(c1, i, Slot(addr, size), commit).0.segs)
  {
    SecuredParts(c, mid, c1, st, size, addr, i);
    assert c1.segs[i].world.lost == [];
    hide Theorems.Secured, Theorems.Kept, Theorems.SegmentsOk, Theorems.Extends, ReleaseStep, Used, NodeBudget.Sufficient, Roomy, Lossless;
    SegmentRoomy(mid, st, i);
    RoomyStill(mid, c1, st, i);
    ReleasedLossless(c1.segs[i], st, Slot(addr, size));
    ReplacedLossless(c1.segs, i, c1.segs[i].(world := ReleaseStep(c1.segs[i].world, Slot(addr, size))));
  }

  lemma SecuredParts(c: Corral, mid: Corral, c1: Corral, st: Setting, size: nat, addr: nat, i: nat)
    requires addr != 0 && Theorems.Secured(c, mid, c1, st, size, addr, i)
    ensures st.Proper() && Theorems.Kept(mid, st) && mid.maxReserved == c.maxReserved
    ensures Theorems.SegmentsOk(c1.segs, st) && |c1.segs| == |mid.segs| && Theorems.Extends(c1.segs, mid.segs)
    ensures i < |c1.segs| && Slot(addr, size) in c1.segs[i].world.live
  {
    hide Theorems.SegmentsOk, Theorems.Extends, Theorems.Owned, Used, Theorems.TotalSize;
  }

  lemma RoomyStill(mid: Corral, c1: Corral, st: Setting, i: nat)
    requires st.Proper() && Theorems.SegmentsOk(c1.segs, st) && i < |c1.segs| == |mid.segs| && Theorems.Extends(c1.segs, mid.segs)
    requires Roomy(mid.segs[i], st)
    ensures Roomy(c1.segs[i], st)
  {
    hide Invariant;
    assert Theorems.SegmentOk(c1.segs[i], st) && Theorems.SameZone(c1.segs[i], mid.segs[i]);
  }

  lemma ReserveLossless(c: Corral, st: Setting, size: nat, zone: Zone, commit: Commit)
    requires Theorems.Kept(c, st) && Theorems.Fits(c.segs, st, GrowSize(size, c.growFloor), zone) && Lossless(c.segs)
    requires NodeBudget.Sufficient(Largest(c.maxReserved, st.gran), st.gran, st.nodes)
    ensures CanRun(c.segs, st) && Lossless(Reserve(c, st, size, zone, commit).0.segs)
  {
    Theorems.KeptSegments(c, st);
    Theorems.SegmentsRun(c.segs, st);
    hide Theorems.Kept, Theorems.Fits, Theorems.SegmentsOk, Theorems.Secured, Secure, Settle, Lossless, GrowSize, Largest;
    if c.ready && size > 0 {
      SecuredLossless(c, st, size, zone);
      var mid := Theorems.SecureKeeps(c, st, size, zone);
      var (c1, addr, i) := Secure(c, st, size, zone);
      if addr != 0 { SettledLossless(c, mid, c1, st, size, addr, i, commit); }
    }
  }

  lemma ReturnLossless(c: Corral, st: Setting, slot: Slot)
    requires Theorems.Kept(c, st) && slot in c.inHand && Lossless(c.segs)
    requires NodeBudget.Sufficient(Largest(c.maxReserved, st.gran), st.gran, st.nodes)
    ensures Returnable(c, slot) && Lossless(GiveBack(c, slot).segs)
  {
    Theorems.KeptSegments(c, st);
    hide Theorems.Kept, Theorems.SegmentsOk, Theorems.Extends, ReleaseStep, Roomy, Used, AlignUp;
    Theorems.GiveBackKeeps(c, st, slot);
    var i := OwnerFrom(c.segs, 0, slot.addr);
    assert c.segs[i].world.lost == [];
    hide Lossless;
    SegmentRoomy(c, st, i);
    ReleasedLossless(c.segs[i], st, slot);
    ReplacedLossless(c.segs, i, c.segs[i].(world := ReleaseStep(c.segs[i].world, slot)));
  }

  lemma StepLossless(c: Corral, st: Setting, op: Theorems.Op)
    requires Theorems.Safe(c, st) && Theorems.Enabled(c, st, op) && Lossless(c.segs)
    requires NodeBudget.Sufficient(Largest(c.maxReserved, st.gran), st.gran, st.nodes)
    ensures Lossless(Theorems.Next(c, st, op).segs) && Theorems.Next(c, st, op).maxReserved == c.maxReserved
  {
    hide Theorems.Kept, Theorems.Fits, Lossless, Reserve, Take, GiveBack, Grow, Returnable, CanRun, NodeBudget.Sufficient, Largest, GrowSize, Used;
    match op
    case Open(size, zone) =>
      Theorems.GrowKeeps(c, st, size, zone);
      GrownLossless(c, st, 1, size, zone);
    case Request(size, zone, commit) =>
      Theorems.ReserveKeeps(c, st, size, zone, commit);
      ReserveLossless(c, st, size, zone, commit);
    case Erase(addr) => Theorems.TakeKeeps(c, st, addr);
    case Return(slot) =>
      Theorems.GiveBackKeeps(c, st, slot);
      ReturnLossless(c, st, slot);
  }

  lemma {:induction false} RunLossless(cs: seq<Corral>, st: Setting, ops: seq<Theorems.Op>, j: nat)
    requires Theorems.IsRun(cs, st, ops) && Theorems.Safe(cs[0], st) && Lossless(cs[0].segs) && j < |cs|
    requires NodeBudget.Sufficient(Largest(cs[0].maxReserved, st.gran), st.gran, st.nodes)
    ensures Lossless(cs[j].segs) && cs[j].maxReserved == cs[0].maxReserved
  {
    Theorems.SafeProper(cs[0], st);
    assert |cs| == |ops| + 1;
    hide Theorems.IsRun, Theorems.Safe, Theorems.Next, Theorems.Enabled, Theorems.Extends, NodeBudget.Sufficient, Largest, Lossless;
    if j > 0 {
      RunLossless(cs, st, ops, j - 1);
      Theorems.RunKeeps(cs, st, ops, 0, j - 1);
      Theorems.RunStep(cs, st, ops, j - 1);
      StepLossless(cs[j - 1], st, ops[j - 1]);
    }
  }

  /** In every run of a script arena whose cap, rounded up to granules, a node pool suffices for, no zone ever
      loses a byte.  Without a cap the pool has to suffice for the whole address space. */
  lemma ZonesLoseNothing(cs: seq<Corral>, st: Setting, ops: seq<Theorems.Op>, floor: nat, most: nat, j: nat, i: nat)
    requires Theorems.IsRun(cs, st, ops) && st.Proper() && cs[0] == Theorems.Closed(floor, most) && j < |cs| && i < |cs[j].segs|
    requires NodeBudget.Sufficient(Largest(most, st.gran), st.gran, st.nodes)
    ensures cs[j].segs[i].world.lost == []
  {
    Theorems.ClosedSafe(floor, most, st);
    RunLossless(cs, st, ops, j);
  }

  /** The default cap of 512 megabytes is within the bound at every granularity; without a cap the bound
      needs granules of 32 KB. */
  lemma DefaultCapSuffices(gran: nat)
    requires gran == 4096 || gran == 8192 || gran == 16384 || gran == 32768 || gran == 65536
    ensures NodeBudget.Sufficient(Largest(512 * 1024 * 1024, gran), gran, NODE_POOL_CAPACITY)
    ensures NodeBudget.Sufficient(Largest(0, gran), gran, NODE_POOL_CAPACITY) <==> gran >= 32768
  {
    AlignUpLeast(512 * 1024 * 1024, 512 * 1024 * 1024, gran);
  }

  // ---------------------------------------------------------------- When a reserve fails

  /** Some run of bytes in the zone that nobody has is as long as the rounded request. */
  ghost predicate HasRoom(g: Segment, size: nat)
    requires g.world.arena.gran > 0
  {
    var a := g.world.arena;
    exists x :: OpenRun(a, g.world.live, g.world.lost + LostByAllocate(a, size, false), x, AlignUp(size, a.gran))
  }

  ghost predicate AnyRoom(segs: seq<Segment>, st: Setting, size: nat)
    requires CanRun(segs, st)
  {
    exists i :: 0 <= i < |segs| && HasRoom(segs[i], size)
  }

  /** A zone may be added, the system has one, and it is large enough. */
  predicate Grows(c: Corral, st: Setting, size: nat, zone: Zone)
    requires st.Proper()
  {
    && |c.segs| < 64 && (c.maxReserved == 0 || c.total + GrowSize(size, c.growFloor) <= c.maxReserved)
    && zone.base != 0 && zone.pool
    && (size * 2 < WORD || size <= AlignUp(c.growFloor, st.gran))
  }

  lemma GrantsExactly(g: Segment, st: Setting, size: nat)
    requires st.Proper() && Theorems.SegmentOk(g, st) && size > 0
    ensures g.world.arena.gran > 0 && BandsSized(g.world.arena.counters)
    ensures GrantOf(g, size).Some? <==> HasRoom(g, size)
    ensures AddressOf(GrantOf(g, size)) != 0 <==> GrantOf(g, size).Some?
  {
    hide Invariant, Allocate, OpenRun;
    AllocateComplete(g.world, size, false, st.nodes);
    if GrantOf(g, size).Some? { ExactGrant(g.world, size, false, st.nodes); }
  }

  lemma RoomExactly(segs: seq<Segment>, st: Setting, size: nat)
    requires st.Proper() && Theorems.SegmentsOk(segs, st) && size > 0
    ensures CanRun(segs, st)
    ensures var (_, i) := Try(segs, st, 0, size);
      && (i < |segs| <==> AnyRoom(segs, st, size))
      && (i < |segs| ==> AddressOf(GrantOf(segs[i], size)) != 0)
  {
    Theorems.SegmentsRun(segs, st);
    TryGrants(segs, st, 0, size);
    hide Invariant, Try, GrantOf, HasRoom, AddressOf;
    forall i | 0 <= i < |segs|
      ensures GrantOf(segs[i], size).Some? <==> HasRoom(segs[i], size)
      ensures AddressOf(GrantOf(segs[i], size)) != 0 <==> GrantOf(segs[i], size).Some?
    {
      assert Theorems.SegmentOk(segs[i], st);
      hide Theorems.SegmentOk;
      GrantsExactly(segs[i], st, size);
    }
  }

  lemma GrowsExactly(c: Corral, st: Setting, size: nat, zone: Zone)
    requires Theorems.Kept(c, st) && Theorems.Fits(c.segs, st, GrowSize(size, c.growFloor), zone)
    requires 0 < size <= WORD - st.gran
    ensures var (c', ok) := Grow(c, st, GrowSize(size, c.growFloor), zone); var i := |c.segs|;
      && (ok ==> |c'.segs| == i + 1 && c'.segs[i].world.arena.gran > 0 && BandsSized(c'.segs[i].world.arena.counters))
      && (Grows(c, st, size, zone) <==> ok && AddressOf(GrantOf(c'.segs[i], size)) != 0)
  {
    var bytes := GrowSize(size, c.growFloor);
    Theorems.KeptSegments(c, st);
    hide Invariant, Theorems.Kept, Theorems.Fits, Theorems.SegmentsOk, GrowSize, Grow, FreshWorld, GrantOf, AddressOf;
    Theorems.GrowKeeps(c, st, bytes, zone);
    var (c', ok) := Grow(c, st, bytes, zone);
    if ok {
      Theorems.GrowthEnough(c.segs, st, size, c.growFloor, zone);
      LastGrants(c', st, size);
    }
  }

  lemma LastGrants(c: Corral, st: Setting, size: nat)
    requires Theorems.Kept(c, st) && c.segs != [] && size > 0
    ensures var g := c.segs[|c.segs| - 1];
      && g.world.arena.gran > 0 && BandsSized(g.world.arena.counters)
      && (AddressOf(GrantOf(g, size)) != 0 <==> GrantOf(g, size).Some?)
  {
    Theorems.KeptSegments(c, st);
    assert Theorems.SegmentOk(c.segs[|c.segs| - 1], st);
    hide Invariant, Theorems.SegmentOk, Theorems.Kept, GrantOf, AddressOf, HasRoom;
    GrantsExactly(c.segs[|c.segs| - 1], st, size);
  }

  lemma SecuresExactly(c: Corral, st: Setting, size: nat, zone: Zone)
    requires Theorems.Kept(c, st) && Theorems.Fits(c.segs, st, GrowSize(size, c.growFloor), zone)
    requires 0 < size <= WORD - st.gran
    ensures CanRun(c.segs, st)
    ensures Secure(c, st, size, zone).1 != 0 <==> AnyRoom(c.segs, st, size) || Grows(c, st, size, zone)
  {
    Theorems.KeptSegments(c, st);
    hide Theorems.Kept, Theorems.Fits, Theorems.SegmentsOk, Try, GrantOf, Grow, GrowSize, AnyRoom, Grows, AddressOf, Asked;
    RoomExactly(c.segs, st, size);
    if Try(c.segs, st, 0, size).1 == |c.segs| { SearchedGrows(c, st, size, zone); }
  }

  lemma SearchedGrows(c: Corral, st: Setting, size: nat, zone: Zone)
    requires Theorems.Kept(c, st) && Theorems.Fits(c.segs, st, GrowSize(size, c.growFloor), zone)
    requires 0 < size <= WORD - st.gran && CanRun(c.segs, st) && Try(c.segs, st, 0, size).1 == |c.segs|
    ensures var (c', ok) := Grow(c.(segs := Try(c.segs, st, 0, size).0), st, GrowSize(size, c.growFloor), zone); var i := |c.segs|;
      && (ok ==> |c'.segs| == i + 1 && c'.segs[i].world.arena.gran > 0 && BandsSized(c'.segs[i].world.arena.counters))
      && (Grows(c, st, size, zone) <==> ok && AddressOf(GrantOf(c'.segs[i], size)) != 0)
  {
    hide Theorems.Kept, Theorems.Fits, Theorems.SegmentsOk, Try, GrantOf, Grow, GrowSize, AddressOf, AlignUp;
    SearchedKept(c, st, size, zone);
    GrowsExactly(c.(segs := Try(c.segs, st, 0, size).0), st, size, zone);
  }

  /** A reserve fails exactly when the corral is closed, nothing is asked for, the commit fails, or no zone
      has room and none can be added that has. */
  lemma ReserveFailsExactly(c: Corral, st: Setting, size: nat, zone: Zone, commit: Commit)
    requires Theorems.Kept(c, st) && Theorems.Fits(c.segs, st, GrowSize(size, c.growFloor), zone) && size <= WORD - st.gran
    ensures CanRun(c.segs, st)
    ensures Reserve(c, st, size, zone, commit).1.None? <==>
      !c.ready || size == 0 || commit.CommitFailed? || !(AnyRoom(c.segs, st, size) || Grows(c, st, size, zone))
  {
    Theorems.KeptSegments(c, st);
    Theorems.SegmentsRun(c.segs, st);
    hide Theorems.Kept, Theorems.Fits, Theorems.SegmentsOk, Secure, AnyRoom, Grows, GrowSize, Used, ReleaseStep;
    if c.ready && size > 0 {
      SecureGrants(c, st, size, zone);
      SecuresExactly(c, st, size, zone);
    }
  }

  // ---------------------------------------------------------------- How large a zone is added

  /** The zone a reserve added has the larger of the floor and twice the size, in 32-bit words. */
  predicate RightZone(c: Corral, size: nat, bytes: nat) {
    var twice: int := if size < 0x8000_0000 then 2 * size else 2 * size - 0x1_0000_0000;
    bytes >= c.growFloor && bytes >= twice && (bytes == c.growFloor || bytes == twice)
  }

  lemma GrowSizeRight(c: Corral, size: nat)
    requires size < WORD
    ensures RightZone(c, size, GrowSize(size, c.growFloor))
  {
    if size * 2 >= WORD { assert size * 2 % WORD == size * 2 - WORD; }
  }

  /** The segments after a slot was looked for: one more exactly if it was not found and a zone could be added. */
  lemma SecureZones(c: Corral, st: Setting, size: nat, zone: Zone)
    requires Theorems.Kept(c, st) && Theorems.Fits(c.segs, st, GrowSize(size, c.growFloor), zone) && size > 0
    ensures CanRun(c.segs, st)
    ensures var c', bytes, n := Secure(c, st, size, zone).0, GrowSize(size, c.growFloor), |c.segs|;
      var added := Segment(zone.base, bytes, FreshWorld(zone.base, bytes, st.gran, st.nodes));
      || (|c'.segs| == n && c'.total == c.total)
      || (|c'.segs| == n + 1 && c'.total == c.total + bytes && zone.base > 0 && !AnyRoom(c.segs, st, size)
          && Secure(c, st, size, zone).2 == n
          && added.world.arena.gran > 0 && BandsSized(added.world.arena.counters) && c'.segs[n] == Asked(added, size))
  {
    Theorems.KeptSegments(c, st);
    hide Theorems.Kept, Theorems.Fits, Theorems.SegmentsOk, Try, GrantOf, Grow, GrowSize, AnyRoom, Asked, AddressOf, FreshWorld;
    RoomExactly(c.segs, st, size);
    SearchedKept(c, st, size, zone);
    var (segs, i) := Try(c.segs, st, 0, size);
    if i == |c.segs| {
      Theorems.GrowOutcome(c.(segs := segs), st, GrowSize(size, c.growFloor), zone);
    }
  }

  /** A reserve adds a zone only when none has room, and then one of the right size; the total says so. */
  lemma ReserveAddsRightZone(c: Corral, st: Setting, size: nat, zone: Zone, commit: Commit)
    requires Theorems.Kept(c, st) && Theorems.Fits(c.segs, st, GrowSize(size, c.growFloor), zone) && size < WORD
    ensures CanRun(c.segs, st)
    ensures var c', n := Reserve(c, st, size, zone, commit).0, |c.segs|;
      || (|c'.segs| == n && c'.total == c.total)
      || (|c'.segs| == n + 1 && c'.total == c.total + c'.segs[n].size && c'.segs[n].base == zone.base
          && RightZone(c, size, c'.segs[n].size) && !AnyRoom(c.segs, st, size))
  {
    hide Theorems.Kept, Theorems.Fits, Secure, AnyRoom, GrowSize, Used, ReleaseStep, RightZone, FreshWorld;
    KeptRuns(c, st);
    GrowSizeRight(c, size);
    if c.ready && size > 0 {
      SecureZones(c, st, size, zone);
      SecureGrants(c, st, size, zone);
    }
  }

  ghost predicate Unfilled(a: Arena, next: nat, left: nat) {
    a.base > 0 && a.gran > 0 && BandsSized(a.counters) && PoolExhaustion.OneBlock(a, next, left)
  }

  lemma BlockServes(a: Arena, next: nat, left: nat, size: nat)
    requires Unfilled(a, next, left) && AlignUp(size, a.gran) == size && 0 < size <= left
    ensures var (b, got) := Allocate(a, size, false);
      got.Some? && (left >= size + a.gran ==> b.gran == a.gran && Unfilled(b, next + size, left - size))
  {
    hide AlignUp, CountGrant;
    assert FirstFit(a.free, 1, size) == 1;
    assert a.free[0 := Span(next + size, left - size)] == [Span(next + size, left - size)];
    CountsSized(CountRequest(a).counters, size, size);
  }

  lemma CountsSized(c: Counters, size: nat, slot: nat)
    requires BandsSized(c)
    ensures BandsSized(CountGrant(c, size, slot))
  {
  }

  /** In a zone of twice the size a second slot fits after the first. */
  lemma SecondFits(base: nat, bytes: nat, st: Setting, size: nat)
    requires st.Proper() && base > 0 && size > 0 && size % st.gran == 0 && 2 * size <= bytes
    ensures var g := Segment(base, bytes, FreshWorld(base, bytes, st.gran, st.nodes));
      && g.world.arena.gran > 0 && BandsSized(g.world.arena.counters)
      && var h := Asked(g, size);
         h.world.arena.gran > 0 && BandsSized(h.world.arena.counters) && GrantOf(h, size).Some?
  {
    AlignUpLeast(size, size, st.gran);
    PositiveMultiple(size, st.gran);
    var a, n := Fresh(base, bytes, st.gran, st.nodes), AlignUp(bytes, st.gran);
    assert Unfilled(a, base, n) && n >= bytes;
    hide AlignUp, Allocate, Fresh;
    BlockServes(a, base, n, size);
    var b := Allocate(a, size, false).0;
    BlockServes(b, base + size, n - size, size);
  }

  /** After a reserve that added a zone a second one of the same size, in whole granules, needs no new zone. */
  lemma SecondNeedsNoZone(c: Corral, st: Setting, size: nat, zone: Zone, commit: Commit, zone2: Zone, commit2: Commit)
    requires Theorems.Kept(c, st) && Theorems.Fits(c.segs, st, GrowSize(size, c.growFloor), zone)
    requires size < 0x8000_0000 && size % st.gran == 0
    requires CanRun(c.segs, st) && Reserve(c, st, size, zone, commit).1.Some?
    requires |Reserve(c, st, size, zone, commit).0.segs| > |c.segs|
    ensures var c' := Reserve(c, st, size, zone, commit).0;
      && CanRun(c'.segs, st)
      && var (c2, got) := Reserve(c', st, size, zone2, commit2);
         |c2.segs| == |c'.segs| && c2.total == c'.total && (got.Some? <==> !commit2.CommitFailed?)
  {
    hide Theorems.Kept, Theorems.Fits, Theorems.Reserved, Reserve, GrowSize, CanRun, GrantOf;
    var c' := Reserve(c, st, size, zone, commit).0;
    Theorems.ReserveKeeps(c, st, size, zone, commit);
    LastFits(c, st, size, zone, commit);
    ReadyStays(c, st, size, zone, commit);
    RoomServes(c', st, size, zone2, commit2);
  }

  lemma ReadyStays(c: Corral, st: Setting, size: nat, zone: Zone, commit: Commit)
    requires CanRun(c.segs, st) && Reserve(c, st, size, zone, commit).1.Some?
    ensures size > 0 && c.ready && Reserve(c, st, size, zone, commit).0.ready
  {
    hide Try, Asked, GrantOf, GrowSize, Used, ReleaseStep, FreshWorld;
    SecureGrants(c, st, size, zone);
  }

  lemma LastFits(c: Corral, st: Setting, size: nat, zone: Zone, commit: Commit)
    requires Theorems.Kept(c, st) && Theorems.Fits(c.segs, st, GrowSize(size, c.growFloor), zone)
    requires size < 0x8000_0000 && size % st.gran == 0
    requires CanRun(c.segs, st) && Reserve(c, st, size, zone, commit).1.Some?
    requires |Reserve(c, st, size, zone, commit).0.segs| > |c.segs|
    ensures var segs := Reserve(c, st, size, zone, commit).0.segs;
      CanRun(segs, st) && GrantOf(segs[|segs| - 1], size).Some?
  {
    hide Theorems.Kept, Theorems.Fits, Theorems.Reserved, Reserve, GrowSize, GrantOf, Asked, FreshWorld, CanRun;
    var c' := Reserve(c, st, size, zone, commit).0;
    LastIsAsked(c, st, size, zone, commit);
    GrowSizeRight(c, size);
    SecondFits(zone.base, GrowSize(size, c.growFloor), st, size);
    Theorems.ReserveKeeps(c, st, size, zone, commit);
    KeptRuns(c', st);
  }

  lemma KeptRuns(c: Corral, st: Setting)
    requires Theorems.Kept(c, st)
    ensures CanRun(c.segs, st)
  {
    Theorems.KeptSegments(c, st);
    hide Theorems.SegmentsOk;
    Theorems.SegmentsRun(c.segs, st);
  }

  lemma LastIsAsked(c: Corral, st: Setting, size: nat, zone: Zone, commit: Commit)
    requires Theorems.Kept(c, st) && Theorems.Fits(c.segs, st, GrowSize(size, c.growFloor), zone)
    requires CanRun(c.segs, st) && Reserve(c, st, size, zone, commit).1.Some?
    requires |Reserve(c, st, size, zone, commit).0.segs| > |c.segs|
    ensures st.Proper() && zone.base > 0 && size > 0 && |Reserve(c, st, size, zone, commit).0.segs| == |c.segs| + 1
    ensures var bytes := GrowSize(size, c.growFloor);
      var added := Segment(zone.base, bytes, FreshWorld(zone.base, bytes, st.gran, st.nodes));
      && added.world.arena.gran > 0 && BandsSized(added.world.arena.counters)
      && Reserve(c, st, size, zone, commit).0.segs[|c.segs|] == Asked(added, size)
  {
    hide Theorems.Kept, Theorems.Fits, Secure, AnyRoom, GrowSize, Used, Asked, ReleaseStep, FreshWorld;
    ReadyStays(c, st, size, zone, commit);
    SecureZones(c, st, size, zone);
    SecureGrants(c, st, size, zone);
  }

  /** A reserve that some segment can serve adds none. */
  lemma RoomServes(c: Corral, st: Setting, size: nat, zone: Zone, commit: Commit)
    requires Theorems.Kept(c, st) && CanRun(c.segs, st) && c.ready && size > 0 && c.segs != []
    requires GrantOf(c.segs[|c.segs| - 1], size).Some?
    ensures var (c', got) := Reserve(c, st, size, zone, commit);
      |c'.segs| == |c.segs| && c'.total == c.total && (got.Some? <==> !commit.CommitFailed?)
  {
    Theorems.KeptSegments(c, st);
    hide Theorems.Kept, Theorems.SegmentsOk, Try, Asked, GrantOf, AddressOf, AnyRoom, Used, ReleaseStep, Grow, GrowSize;
    RoomExactly(c.segs, st, size);
    TryGrants(c.segs, st, 0, size);
    SecureGrants(c, st, size, zone);
  }
}
