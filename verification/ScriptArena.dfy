/** The script arena as an object: zones in append-only lists, one arena allocator for each, and the map
    from slot to size.  Each method is one critical section and computes the function of CorralModel it
    is named after. */
module ScriptArena {
  import opened Spans
  import opened ArenaModel
  import opened ArenaInvariant
  import opened ArenaTheorems
  import opened CorralModel
  import opened CorralTheorems
  import ProxyAllocator

  class ScriptArena {
    const granularity: nat
    var segBase: seq<nat>
    var segSize: seq<nat>
    var segAlloc: seq<ProxyAllocator.ProxyAllocator>
    var startBytes: nat
    var growFloor: nat
    var maxReserved: nat
    var totalReserved: nat
    var sizes: map<nat, nat>
    var peakBytes: nat
    var ready: bool

    /** The slots and losses of each segment, and the slots threads have taken to free. */
    ghost var slots: seq<seq<Slot>>
    ghost var lost: seq<seq<Span>>
    ghost var inHand: set<Slot>

    /** What each segment's allocator writes, and all of it together. */
    ghost var reprs: seq<set<object>>
    ghost var repr: set<object>

    ghost predicate Valid()
      reads this`segBase, this`segSize, this`segAlloc, this`slots, this`lost, this`reprs, this`repr, repr
    {
      && |segBase| == |segSize| == |segAlloc| == |slots| == |lost| == |reprs| && granularity > 0 && this !in repr
      && (forall i | 0 <= i < |segAlloc| :: SegmentValid(i))
      && (forall i, j | 0 <= i < j < |reprs| :: reprs[i] !! reprs[j])
    }

    ghost predicate SegmentValid(i: nat)
      reads this`segAlloc, this`reprs, this`repr, repr
      requires i < |segAlloc| == |reprs|
    {
      var a := segAlloc[i];
      a in repr && reprs[i] <= repr && a.Repr() == reprs[i] && a.Valid() && a.granularity == granularity
    }

    ghost function SegmentAt(i: nat): Segment
      reads this`segBase, this`segSize, this`segAlloc, this`slots, this`lost, this`reprs, this`repr, repr
      requires Valid() && i < |segAlloc|
    {
      assert SegmentValid(i);
      Segment(segBase[i], segSize[i], World(segAlloc[i].Abs(), slots[i], lost[i]))
    }

    ghost function Segments(): (r: seq<Segment>)
      reads this`segBase, this`segSize, this`segAlloc, this`slots, this`lost, this`reprs, this`repr, repr
      requires Valid()
      ensures |r| == |segAlloc| && forall i | 0 <= i < |r| :: r[i] == SegmentAt(i)
    {
      FirstSegments(|segAlloc|)
    }

    ghost function FirstSegments(n: nat): (r: seq<Segment>)
      reads this`segBase, this`segSize, this`segAlloc, this`slots, this`lost, this`reprs, this`repr, repr
      requires Valid() && n <= |segAlloc|
      ensures |r| == n && forall i | 0 <= i < n :: r[i] == SegmentAt(i)
    {
      if n == 0 then [] else FirstSegments(n - 1) + [SegmentAt(n - 1)]
    }

    lemma SegmentsCanRun()
      requires Valid()
      ensures CanRun(Segments(), Set())
    {
      forall i | 0 <= i < |segAlloc| ensures Segments()[i].world.arena.gran > 0 && BandsSized(Segments()[i].world.arena.counters) {
        assert SegmentValid(i);
      }
    }

    ghost function Abs(): Corral
      reads this, repr
      requires Valid()
    {
      Corral(Segments(), growFloor, maxReserved, totalReserved, sizes, inHand, peakBytes, ready)
    }

    ghost function Set(): Setting { Setting(granularity, NODE_POOL_CAPACITY) }

    /** Ask one segment's allocator. */
    method AskSegment(i: nat, size: nat) returns (addr: nat)
      requires Valid() && i < |segAlloc|
      modifies reprs[i], this`slots, this`lost
      ensures Valid() && CanRun(old(Segments()), Set())
      ensures Segments() == old(Segments())[i := Asked(old(Segments())[i], size)]
      ensures segBase == old(segBase) && segSize == old(segSize) && segAlloc == old(segAlloc)
      ensures repr == old(repr) && reprs == old(reprs)
      ensures match GrantOf(old(Segments())[i], size) case None => addr == 0 case Some(r) => addr == r.addr > 0
    {
      hide ArenaModel.Allocate, LostByAllocate;
      SegmentsCanRun();
      assert SegmentValid(i);
      ghost var w := SegmentAt(i).world;
      addr := segAlloc[i].Allocate(size, false);
      slots := slots[i := AllocStep(w, size, false).live];
      lost := lost[i := AllocStep(w, size, false).lost];
      OthersKept(i);
      assert SegmentAt(i) == Asked(old(Segments())[i], size);
    }

    /** Segment `i` changed, within its own objects. */
    twostate lemma OthersKept(i: nat)
      requires old(Valid()) && i < |old(segAlloc)|
      requires segBase == old(segBase) && segSize == old(segSize) && segAlloc == old(segAlloc)
      requires repr == old(repr) && reprs == old(reprs)
      requires |slots| == |old(slots)| && |lost| == |old(lost)|
      requires slots == old(slots)[i := slots[i]] && lost == old(lost)[i := lost[i]]
      requires segAlloc[i].Valid() && segAlloc[i].nodes == old(segAlloc[i].nodes)
      requires unchanged(repr - reprs[i])
      ensures Valid() && Segments() == old(Segments())[i := SegmentAt(i)]
    {
      forall j: nat | j < |segAlloc|
        ensures SegmentValid(j) && (j != i ==> segAlloc[j].Abs() == old(segAlloc[j].Abs()))
      {
        assert old(SegmentValid(j)) && old(SegmentValid(i));
        assert reprs[if i < j then i else j] !! reprs[if i < j then j else i] || i == j;
      }
    }
  
    /** Give a slot back to the allocator of segment `i`. */
    method ReturnSlot(i: nat, slot: Slot)
      requires Valid() && i < |segAlloc| && slot in slots[i]
      modifies reprs[i], this`slots, this`lost
      ensures Valid() && segBase == old(segBase) && segSize == old(segSize) && segAlloc == old(segAlloc)
      ensures repr == old(repr) && reprs == old(reprs)
      ensures old(Segments())[i].world.arena.gran > 0
      ensures var g := old(Segments())[i]; Segments() == old(Segments())[i := g.(world := ReleaseStep(g.world, slot))]
    {
      hide ArenaModel.Free, LostByFree;
      SegmentsCanRun();
      assert SegmentValid(i);
      ghost var w := SegmentAt(i).world;
      segAlloc[i].Free(slot.addr, slot.requested);
      slots := slots[i := ReleaseStep(w, slot).live];
      lost := lost[i := ReleaseStep(w, slot).lost];
      OthersKept(i);
      assert SegmentAt(i) == old(Segments())[i].(world := ReleaseStep(w, slot));
    }

    /** Append a zone and an allocator for it, unless a limit, the system or the pool stands against it. */
    method AddCorralSegment(size: nat, zone: Zone) returns (ok: bool)
      requires Valid()
      modifies this`segBase, this`segSize, this`segAlloc, this`totalReserved, this`slots, this`lost, this`reprs, this`repr
      ensures Valid() && fresh(repr - old(repr)) && old(repr) <= repr
      ensures var r := Grow(old(Abs()), Set(), size, zone); Abs() == r.0 && ok == r.1
    {
      hide Valid, SegmentAt, FreshWorld, Grow, Fresh, Segments;
      ReprKnown();
      GrowCases(Abs(), Set(), size, zone);
      if |segAlloc| >= MAX_SEGMENTS {
        return false;
      }
      if maxReserved != 0 && (totalReserved + size) % WORD > maxReserved {
        return false;
      }
      if zone.base == 0 {
        return false;
      }
      ok := AttachSegment(size, zone);
    }

    method AttachSegment(size: nat, zone: Zone) returns (ok: bool)
      requires Valid() && zone.base > 0
      modifies this`segBase, this`segSize, this`segAlloc, this`totalReserved, this`slots, this`lost, this`reprs, this`repr
      ensures Valid() && fresh(repr - old(repr)) && old(repr) <= repr && granularity > 0 && ok == zone.pool
      ensures totalReserved == if ok then (old(totalReserved) + size) % WORD else old(totalReserved)
      ensures Segments() == old(Segments()) +
        if ok then [Segment(zone.base, size, FreshWorld(zone.base, size, granularity, NODE_POOL_CAPACITY))] else []
    {
      hide Valid, SegmentAt, FreshWorld, Fresh, Segments;
      ReprKnown();
      ghost var before := Segments();
      var a := NewAllocator(zone, size);
      assert Valid() && Segments() == before;
      if a == null {
        return false;
      }
      Publish(a, zone.base, size);
      ok := true;
    }

    /** An allocator over the zone, or null if there is no memory for its node pool. */
    method NewAllocator(zone: Zone, size: nat) returns (a: ProxyAllocator.ProxyAllocator?)
      requires granularity > 0 && zone.base > 0
      ensures a == null <==> !zone.pool
      ensures a != null ==>
        && fresh(a.Repr()) && a.Valid() && a.granularity == granularity
        && a.Abs() == Fresh(zone.base, size, granularity, NODE_POOL_CAPACITY)
    {
      hide ProxyAllocator.ProxyAllocator.Valid;
      a := new ProxyAllocator.ProxyAllocator(granularity);
      var attached := a.InitFromShared(zone.base, size, zone.pool);
      if !attached {
        a := null;
      }
    }

    lemma ReprKnown()
      requires Valid()
      ensures this !in repr && granularity > 0
    {
    }

    /** Append a fresh allocator that was given the zone. */
    method Publish(a: ProxyAllocator.ProxyAllocator, base: nat, size: nat)
      requires Valid() && a.Valid() && a.granularity == granularity && a.Repr() !! repr && this !in a.Repr()
      requires a.Abs() == Fresh(base, size, granularity, NODE_POOL_CAPACITY)
      modifies this`segBase, this`segSize, this`segAlloc, this`totalReserved, this`slots, this`lost, this`reprs, this`repr
      ensures Valid() && repr == old(repr) + a.Repr()
      ensures totalReserved == (old(totalReserved) + size) % WORD
      ensures Segments() == old(Segments()) + [Segment(base, size, FreshWorld(base, size, granularity, NODE_POOL_CAPACITY))]
    {
      hide Fresh, ProxyAllocator.ProxyAllocator.Valid, ProxyAllocator.ProxyAllocator.Abs;
      segBase, segSize, segAlloc := segBase + [base], segSize + [size], segAlloc + [a];
      totalReserved := (totalReserved + size) % WORD;
      slots, lost, reprs, repr := slots + [[]], lost + [[]], reprs + [a.Repr()], repr + a.Repr();
      forall j: nat | j < |segAlloc| ensures SegmentValid(j) {
        assert j < |segAlloc| - 1 ==> old(SegmentValid(j));
      }
      forall j: nat | j < |segAlloc| - 1 ensures reprs[j] !! a.Repr() {
        assert old(SegmentValid(j));
      }
      assert Valid();
      forall j: nat | j < |segAlloc| - 1 ensures SegmentAt(j) == old(SegmentAt(j)) {
        assert old(SegmentValid(j));
      }
      assert SegmentAt(|segAlloc| - 1) == Segment(base, size, FreshWorld(base, size, granularity, NODE_POOL_CAPACITY));
    }
  
    // ---------------------------------------------------------------- Reserving

    /** Ask the segments in order until one grants.  The last one asked is `i`. */
    method TrySegments(size: nat) returns (addr: nat, i: nat)
      requires Valid()
      modifies repr, this`slots, this`lost
      ensures Valid() && segBase == old(segBase) && segSize == old(segSize) && segAlloc == old(segAlloc) && repr == old(repr)
      ensures CanRun(old(Segments()), Set())
      ensures (Segments(), i) == Try(old(Segments()), Set(), 0, size)
      ensures addr == 0 <==> i == |segAlloc|
      ensures i < |segAlloc| ==> addr == AddressOf(GrantOf(old(Segments())[i], size))
    {
      hide Asked, GrantOf, Valid, SegmentAt, BandsSized;
      SegmentsCanRun();
      ghost var segs := Segments();
      addr, i := 0, 0;
      while i < |segAlloc|
        invariant Valid() && segBase == old(segBase) && segSize == old(segSize) && segAlloc == old(segAlloc) && repr == old(repr) && reprs == old(reprs)
        invariant i <= |segAlloc| == |segs| == |Segments()| && addr == 0
        invariant forall j | 0 <= j < |segs| :: Segments()[j] == if j < i then Asked(segs[j], size) else segs[j]
        invariant forall j | 0 <= j < i :: GrantOf(segs[j], size).None?
      {
        assert Segments()[i] == segs[i];
        InRepr(i);
        addr := AskSegment(i, size);
        if addr != 0 {
          break;
        }
        i := i + 1;
      }
      TryGrants(segs, Set(), 0, size);
      assert Try(segs, Set(), 0, size).1 == i;
      assert Segments() == Try(segs, Set(), 0, size).0;
    }

    lemma InRepr(i: nat)
      requires Valid() && i < |segAlloc|
      ensures |reprs| == |segAlloc| && reprs[i] <= repr
    {
      assert SegmentValid(i);
    }

    /** Bytes in use in all segments. */
    method UsedBytes() returns (used: nat)
      requires Valid()
      ensures used == Used(Segments())
    {
      hide ProxyAllocator.ProxyAllocator.Valid;
      used := 0;
      var i := 0;
      while i < |segAlloc|
        invariant i <= |segAlloc| && used == Used(Segments()[..i])
      {
        assert SegmentValid(i);
        assert Segments()[..i + 1][..i] == Segments()[..i];
        used := used + segAlloc[i].usedBytes;
        i := i + 1;
      }
      assert Segments()[..i] == Segments();
    }
  
    /** Commit the granted slot, or give it back if that fails; then write its size down. */
    method Settle(i: nat, addr: nat, size: nat, commit: Commit) returns (got: nat)
      requires Valid() && i < |segAlloc| && Slot(addr, size) in slots[i]
      modifies repr, this`slots, this`lost, this`sizes, this`peakBytes
      ensures Valid() && segBase == old(segBase) && segSize == old(segSize) && segAlloc == old(segAlloc)
      ensures repr == old(repr) && Settleable(old(Abs()), i, Slot(addr, size))
      ensures var r := CorralModel.Settle(old(Abs()), i, Slot(addr, size), commit);
        Abs() == r.0 && match r.1 case None => got == 0 case Some(a) => got == a
    {
      hide Valid, SegmentAt, ReleaseStep, Used;
      LiveHere(i, Slot(addr, size));
      if commit.CommitFailed? {
        ReturnSlot(i, Slot(addr, size));
        return 0;
      }
      sizes := sizes[addr := size];
      var usedTotal := UsedBytes();
      if usedTotal > peakBytes {
        peakBytes := usedTotal;
      }
      got := addr;
    }

    ghost predicate Settleable(c: Corral, i: nat, slot: Slot) {
      i < |c.segs| && c.segs[i].world.arena.gran > 0 && slot in c.segs[i].world.live
    }

    lemma LiveHere(i: nat, slot: Slot)
      requires Valid() && i < |segAlloc| && slot in slots[i]
      ensures reprs[i] <= repr && this !in repr && i < |Segments()| && Segments()[i].world.live == slots[i]
      ensures Segments()[i].world.arena.gran > 0
    {
      assert SegmentValid(i);
    }

    /** Find a slot in the first segment with room, or else in a new one. */
    method SecureSlot(size: nat, zone: Zone) returns (slot: nat, segIdx: nat)
      requires Valid()
      modifies repr, this`segBase, this`segSize, this`segAlloc, this`totalReserved, this`slots, this`lost, this`reprs, this`repr
      ensures Valid() && fresh(repr - old(repr)) && CanRun(old(Segments()), Set())
      ensures Secure(old(Abs()), Set(), size, zone) == (Abs(), slot, segIdx)
    {
      hide Valid, SegmentAt, Asked, GrantOf, Grow, Try, FreshWorld, BandsSized;
      SegmentsCanRun();
      ReprKnown();
      slot, segIdx := TrySegments(size);
      TryGrants(old(Segments()), Set(), 0, size);
      ghost var tried := Abs();
      if slot == 0 {
        var segSz := size * 2 % WORD;
        if segSz < growFloor {
          segSz := growFloor;
        }
        GrowCases(tried, Set(), segSz, zone);
        var grown := AddCorralSegment(segSz, zone);
        ghost var c2 := Grow(tried, Set(), segSz, zone).0;
        assert Abs() == c2;
        if grown {
          segIdx := |segAlloc| - 1;
          InRepr(segIdx);
          slot := AskSegment(segIdx, size);
          assert Segments() == c2.segs[segIdx := Asked(c2.segs[segIdx], size)];
        }
      }
    }

    /** Reserve a slot.  `zone` and `commit` are the system's answers. */
    method CorralReserve(size: nat, zone: Zone, commit: Commit) returns (got: nat)
      requires Valid()
      modifies this, repr
      ensures Valid() && fresh(repr - old(repr)) && CanRun(old(Segments()), Set())
      ensures var r := Reserve(old(Abs()), Set(), size, zone, commit);
        Abs() == r.0 && match r.1 case None => got == 0 case Some(a) => got == a
    {
      hide Valid, SegmentAt, Asked, GrantOf, CorralModel.Settle, Grow, Try, Secure;
      SegmentsCanRun();
      if !ready || size == 0 {
        return 0;
      }
      SecureGrants(Abs(), Set(), size, zone);
      var slot, segIdx := SecureSlot(size, zone);
      if slot == 0 {
        return 0;
      }
      SlotsHere(segIdx);
      got := Settle(segIdx, slot, size, commit);
    }

    lemma SlotsHere(i: nat)
      requires Valid() && i < |Segments()|
      ensures i < |segAlloc| && i < |slots| && slots[i] == Segments()[i].world.live
    {
    }
  
    // ---------------------------------------------------------------- Freeing

    /** The index of the first segment that spans `addr`, or the number of segments. */
    method FindOwner(addr: nat) returns (i: nat)
      requires Valid()
      ensures i == OwnerFrom(Segments(), 0, addr) && |Segments()| == |segAlloc|
    {
      i := 0;
      while i < |segAlloc|
        invariant i <= |segAlloc| && OwnerFrom(Segments(), 0, addr) == OwnerFrom(Segments(), i, addr)
      {
        if segBase[i] <= addr < segBase[i] + segSize[i] {
          break;
        }
        i := i + 1;
      }
    }

    method IsCorralAddress(addr: nat) returns (b: bool)
      requires Valid()
      ensures b == Recognises(Abs(), |Segments()|, addr)
    {
      assert Segments()[..|Segments()|] == Segments();
      if !ready || addr == 0 {
        return false;
      }
      var i := FindOwner(addr);
      b := i < |segAlloc|;
    }

    /** The critical section of a free: erase the entry, and find the segment it came from. */
    method TakeEntry(addr: nat) returns (size: nat, owner: nat)
      requires Valid()
      modifies this`sizes, this`inHand
      ensures Valid() && Segments() == old(Segments())
      ensures var r := Take(old(Abs()), addr);
        && Abs() == r.0
        && match r.1 case None => size == 0 || owner == |segAlloc|
                     case Some(slot) => size == slot.requested > 0 && owner == OwnerFrom(Segments(), 0, addr) < |segAlloc|
    {
      hide Valid, SegmentAt;
      ReprKnown();
      size, owner := 0, |segAlloc|;
      if !ready || addr == 0 {
        return;
      }
      if addr in sizes {
        size := sizes[addr];
        sizes := sizes - {addr};
        owner := FindOwner(addr);
        if size != 0 && owner < |segAlloc| {
          inHand := inHand + {Slot(addr, size)};
        }
      }
    }

    /** The end of a free: the slot goes back to the segment that was found. */
    method GiveBackTo(owner: nat, addr: nat, size: nat)
      requires Valid() && Kept(Abs(), Set()) && Slot(addr, size) in inHand
      requires owner == OwnerFrom(Segments(), 0, addr)
      modifies repr, this`slots, this`lost, this`inHand
      ensures Valid() && Kept(Abs(), Set())
      ensures Returnable(old(Abs()), Slot(addr, size))
      ensures Abs() == GiveBack(old(Abs()), Slot(addr, size))
    {
      hide Valid, SegmentAt, ReleaseStep, Kept, Invariant, OwnerFrom, Used, Extends, Segments;
      ReprKnown();
      GiveBackKeeps(Abs(), Set(), Slot(addr, size));
      assert owner == OwnerFrom(Abs().segs, 0, addr) < |Segments()|;
      SlotsHere(owner);
      InRepr(owner);
      ReturnSlot(owner, Slot(addr, size));
      inHand := inHand - {Slot(addr, size)};
    }

    /** Free a slot, with no other thread's step in between.  The decommit happens between the two. */
    method CorralFree(addr: nat) returns (ok: bool)
      requires Valid() && Kept(Abs(), Set())
      modifies repr, this`slots, this`lost, this`sizes, this`inHand
      ensures Valid() && Kept(Abs(), Set())
      ensures ok == (ready && addr in old(sizes))
      ensures sizes == (if ok then old(sizes) - {addr} else old(sizes)) && inHand == old(inHand)
      ensures !ok ==> Abs() == old(Abs())
    {
      hide Valid, SegmentAt, Kept;
      ReprKnown();
      TakeKeeps(Abs(), Set(), addr);
      var size, owner := TakeEntry(addr);
      if size == 0 || owner == |segAlloc| {
        return false;
      }
      GiveBackTo(owner, addr, size);
      ok := true;
    }

    // ---------------------------------------------------------------- Starting

    constructor (granularity: nat)
      requires granularity > 0
      ensures Valid() && fresh(repr) && Abs() == Closed(0, 0) && this.granularity == granularity
    {
      this.granularity := granularity;
      segBase, segSize, segAlloc, slots, lost, reprs := [], [], [], [], [], [];
      repr := {};
      startBytes, growFloor, maxReserved, totalReserved, sizes, peakBytes, ready := 0, 0, 0, 0, map[], 0, false;
      inHand := {};
    }

    /** Read the limits and open the first segment; without it the corral stays closed. */
    method InitScriptArena(start: nat, floor: nat, most: nat, zone: Zone) returns (ok: bool)
      requires Valid()
      modifies this, repr
      ensures Valid() && fresh(repr - old(repr))
      ensures var r := Grow(old(Abs()).(growFloor := floor, maxReserved := most), Set(), start, zone);
        Abs() == r.0.(ready := ok) && ok == r.1
    {
      hide Valid, SegmentAt, Grow, Segments, FreshWorld, MayGrow;
      ReprKnown();
      GrowCases(old(Abs()).(growFloor := floor, maxReserved := most), Set(), start, zone);
      startBytes, growFloor, maxReserved := start, floor, most;
      ok := AddCorralSegment(startBytes, zone);
      ready := ok;
    }
  }
}
