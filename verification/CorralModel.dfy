/** The script arena: reserved zones, appended on demand, each cut up by an arena allocator of its own.
    The functions are what the critical sections compute; a free is two of them, first taking the
    slot's entry out of the size map and later, outside the lock, handing the slot back. */
module CorralModel {
  import opened Spans
  import opened ArenaModel
  import opened ArenaInvariant
  import opened ArenaTheorems

  const MAX_SEGMENTS := 64

  /** Sizes and sums are 32-bit words. */
  const WORD: nat := 0x1_0000_0000

  /** A zone and the world of its allocator. */
  datatype Segment = Segment(base: nat, size: nat, world: World)
  {
    predicate Spans(addr: nat) { base <= addr < base + size }
  }

  /** `inHand` are the slots whose entry is gone but which are not handed back yet. */
  datatype Corral = Corral(
    segs: seq<Segment>, growFloor: nat, maxReserved: nat, total: nat,
    sizes: map<nat, nat>, inHand: set<Slot>, peak: nat, ready: bool)

  /** What the system answers when asked for a zone: its base, zero for none, and whether the new
      allocator finds memory for its node pool. */
  datatype Zone = Zone(base: nat, pool: bool)

  datatype Commit = NotAsked | Committed | CommitFailed

  /** A corral under settings that do not change: the granularity and the size of a node pool. */
  datatype Setting = Setting(gran: nat, nodes: nat)
  {
    predicate Proper() { gran > 0 && nodes > 0 }
  }

  // ---------------------------------------------------------------- Searches

  /** The first segment at or after `k` that spans `addr`. */
  function OwnerFrom(segs: seq<Segment>, k: nat, addr: nat): (i: nat)
    requires k <= |segs|
    ensures k <= i <= |segs|
    decreases |segs| - k
  {
    if k == |segs| || segs[k].Spans(addr) then k else OwnerFrom(segs, k + 1, addr)
  }

  predicate IsCorralAddress(segs: seq<Segment>, addr: nat) { OwnerFrom(segs, 0, addr) < |segs| }

  /** What a reader answers that sees the first `seen` segments. */
  predicate Recognises(c: Corral, seen: nat, addr: nat)
    requires seen <= |c.segs|
  {
    c.ready && addr != 0 && IsCorralAddress(c.segs[..seen], addr)
  }

  predicate CanRun(segs: seq<Segment>, st: Setting) {
    st.Proper() && forall i | 0 <= i < |segs| :: segs[i].world.arena.gran > 0 && BandsSized(segs[i].world.arena.counters)
  }

  function Asked(g: Segment, size: nat): Segment
    requires g.world.arena.gran > 0 && BandsSized(g.world.arena.counters)
  {
    g.(world := AllocStep(g.world, size, false))
  }

  function GrantOf(g: Segment, size: nat): Option<Span>
    requires g.world.arena.gran > 0 && BandsSized(g.world.arena.counters)
  {
    Allocate(g.world.arena, size, false).1
  }

  /** Ask the segments one by one, from `k` on, until one grants; also say which did. */
  function Try(segs: seq<Segment>, st: Setting, k: nat, size: nat): (r: (seq<Segment>, nat))
    requires CanRun(segs, st) && k <= |segs|
    ensures k <= r.1 <= |segs| == |r.0|
    decreases |segs| - k
  {
    if k == |segs| then (segs, k)
    else
      var asked := segs[k := Asked(segs[k], size)];
      if GrantOf(segs[k], size).Some? then (asked, k)
      else
        var rest := Try(segs[k + 1..], st, 0, size);
        (asked[..k + 1] + rest.0, k + 1 + rest.1)
  }

  // ---------------------------------------------------------------- Critical sections

  /** How large a zone to add for a request that found no room. */
  function GrowSize(size: nat, floor: nat): nat {
    var twice := size * 2 % WORD;
    if twice < floor then floor else twice
  }

  /** Whether a zone of `size` bytes may be added, as the code checks it in words. */
  predicate MayGrow(c: Corral, size: nat) {
    |c.segs| < MAX_SEGMENTS && (c.maxReserved == 0 || (c.total + size) % WORD <= c.maxReserved)
  }

  function Grow(c: Corral, st: Setting, size: nat, zone: Zone): (Corral, bool)
    requires st.Proper()
  {
    if !MayGrow(c, size) || zone.base == 0 || !zone.pool then (c, false)
    else
      (c.(segs := c.segs + [Segment(zone.base, size, FreshWorld(zone.base, size, st.gran, st.nodes))],
          total := (c.total + size) % WORD),
       true)
  }

  lemma GrowCases(c: Corral, st: Setting, size: nat, zone: Zone)
    requires st.Proper()
    ensures var r := Grow(c, st, size, zone);
      && r.1 == (MayGrow(c, size) && zone.base != 0 && zone.pool)
      && r.0 == c.(segs := r.0.segs, total := r.0.total) && (!r.1 ==> r.0 == c)
      && r.0.total == (if r.1 then (c.total + size) % WORD else c.total)
      && r.0.segs == c.segs + if r.1 then [Segment(zone.base, size, FreshWorld(zone.base, size, st.gran, st.nodes))] else []
  {}

  function Used(segs: seq<Segment>): nat {
    if segs == [] then 0 else Used(segs[..|segs| - 1]) + segs[|segs| - 1].world.arena.counters.used
  }

  /** The slot was granted by segment `i`: commit it and write down its size, or give it back. */
  function Settle(c: Corral, i: nat, slot: Slot, commit: Commit): (Corral, Option<nat>)
    requires i < |c.segs| && c.segs[i].world.arena.gran > 0 && slot in c.segs[i].world.live
  {
    if commit.CommitFailed? then
      (c.(segs := c.segs[i := c.segs[i].(world := ReleaseStep(c.segs[i].world, slot))]), None)
    else
      var used := Used(c.segs);
      (c.(sizes := c.sizes[slot.addr := slot.requested], peak := if used <= c.peak then c.peak else used), Some(slot.addr))
  }

  function AddressOf(grant: Option<Span>): nat { match grant case None => 0 case Some(r) => r.addr }

  /** A slot in the first segment with room, or else in a new segment: its address, zero for none, and
      the segment it is in. */
  function Secure(c: Corral, st: Setting, size: nat, zone: Zone): (Corral, nat, nat)
    requires CanRun(c.segs, st)
  {
    var tried := Try(c.segs, st, 0, size);
    var c1 := c.(segs := tried.0);
    if tried.1 < |c.segs| then (c1, AddressOf(GrantOf(c.segs[tried.1], size)), tried.1)
    else
      var grown := Grow(c1, st, GrowSize(size, c.growFloor), zone);
      if !grown.1 then (c1, 0, |c.segs|)
      else
        var i := |c.segs|;
        var g := grown.0.segs[i];
        (grown.0.(segs := grown.0.segs[i := Asked(g, size)]), AddressOf(GrantOf(g, size)), i)
  }

  lemma SecureGrants(c: Corral, st: Setting, size: nat, zone: Zone)
    requires CanRun(c.segs, st)
    ensures var r := Secure(c, st, size, zone);
      r.1 != 0 ==> r.2 < |r.0.segs| && r.0.segs[r.2].world.arena.gran > 0 && Slot(r.1, size) in r.0.segs[r.2].world.live
  {
    hide Asked, GrantOf, Try, Grow;
    TryGrants(c.segs, st, 0, size);
    var tried := Try(c.segs, st, 0, size);
    if tried.1 < |c.segs| {
      AskedLive(c.segs[tried.1], size);
    } else {
      var c1 := c.(segs := tried.0);
      var grown := Grow(c1, st, GrowSize(size, c.growFloor), zone);
      GrowCases(c1, st, GrowSize(size, c.growFloor), zone);
      if grown.1 { AskedLive(grown.0.segs[|c.segs|], size); }
    }
  }

  lemma AskedLive(g: Segment, size: nat)
    requires g.world.arena.gran > 0 && BandsSized(g.world.arena.counters)
    ensures var (g', got) := (Asked(g, size), GrantOf(g, size));
      && g'.world.arena.gran > 0
      && (got.Some? ==> Slot(got.value.addr, size) in g'.world.live)
  {
    GrantCounters(CountRequest(g.world.arena), size, false);
  }

  function Reserve(c: Corral, st: Setting, size: nat, zone: Zone, commit: Commit): (Corral, Option<nat>)
    requires CanRun(c.segs, st)
  {
    if !c.ready || size == 0 then (c, None)
    else
      var (c', addr, i) := Secure(c, st, size, zone);
      SecureGrants(c, st, size, zone);
      if addr == 0 then (c', None) else Settle(c', i, Slot(addr, size), commit)
  }

  /** Take the entry for `addr` out of the map; also find the segment it came from. */
  function Take(c: Corral, addr: nat): (Corral, Option<Slot>)
  {
    if !c.ready || addr == 0 || addr !in c.sizes then (c, None)
    else
      var slot := Slot(addr, c.sizes[addr]);
      var erased := c.(sizes := c.sizes - {addr});
      if slot.requested == 0 || !IsCorralAddress(c.segs, addr) then (erased, None)
      else (erased.(inHand := c.inHand + {slot}), Some(slot))
  }

  /** The segment that the search finds for the slot has granted it. */
  predicate Returnable(c: Corral, slot: Slot) {
    && IsCorralAddress(c.segs, slot.addr)
    && var g := c.segs[OwnerFrom(c.segs, 0, slot.addr)]; g.world.arena.gran > 0 && slot in g.world.live
  }

  /** Hand a taken slot back to the segment that the search found for it. */
  function GiveBack(c: Corral, slot: Slot): Corral
    requires Returnable(c, slot)
  {
    var i := OwnerFrom(c.segs, 0, slot.addr);
    c.(segs := c.segs[i := c.segs[i].(world := ReleaseStep(c.segs[i].world, slot))], inHand := c.inHand - {slot})
  }

  lemma {:induction false} TryGrants(segs: seq<Segment>, st: Setting, k: nat, size: nat)
    requires CanRun(segs, st) && k <= |segs|
    ensures var r := Try(segs, st, k, size);
      && (forall j | 0 <= j < |segs| :: r.0[j] == if k <= j <= r.1 then Asked(segs[j], size) else segs[j])
      && (forall j | k <= j < r.1 :: GrantOf(segs[j], size).None?)
      && (r.1 < |segs| ==> GrantOf(segs[r.1], size).Some?)
    decreases |segs| - k
  {
    hide Asked, GrantOf, BandsSized;
    if k < |segs| && GrantOf(segs[k], size).None? {
      var tail := segs[k + 1..];
      TryGrants(tail, st, 0, size);
      var r, t := Try(segs, st, k, size), Try(tail, st, 0, size);
      forall j | 0 <= j < |segs| ensures r.0[j] == if k <= j <= r.1 then Asked(segs[j], size) else segs[j] {
        if j > k { assert r.0[j] == t.0[j - k - 1]; }
      }
      forall j | k <= j < r.1 ensures GrantOf(segs[j], size).None? {
        if j > k { assert segs[j] == tail[j - k - 1]; }
      }
    }
  }
}
