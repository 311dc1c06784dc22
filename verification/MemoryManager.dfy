/** The memory manager as an object: the arena allocator, the record map, and the bytes of the process.
    The methods compute the functions of ManagerModel, taken one after another; what interleaving them
    can do to the ownership of slots is in SlotOwnership. */
module MemoryManager {
  import opened Spans
  import opened ArenaModel
  import opened ArenaInvariant
  import opened LiveSlots
  import opened ManagerModel
  import ProxyAllocator

  class MemoryManager {
    const allocator: ProxyAllocator.ProxyAllocator
    const limits: Limits
    var allocations: map<nat, nat>
    var memory: Memory

    ghost var live: seq<Slot>
    ghost var lost: seq<Span>
    ghost const nodes: nat

    ghost predicate Valid()
      reads allocator, allocator.Repr()
    {
      limits.page > 0 && allocator.Valid()
    }

    ghost function World(): World
      reads this`live, this`lost, allocator, allocator.bandReqBytes, allocator.bandSlotBytes
    {
      ArenaInvariant.World(allocator.Abs(), live, lost)
    }

    ghost function Abs(): Manager
      reads this, allocator, allocator.bandReqBytes, allocator.bandSlotBytes
    {
      Manager(World(), allocations, memory)
    }

    /** Take over an allocator that was just attached to its arena. */
    constructor (allocator: ProxyAllocator.ProxyAllocator, limits: Limits, ghost nodes: nat, memory: Memory)
      requires allocator.Valid() && limits.page > 0 && Invariant(ArenaInvariant.World(allocator.Abs(), [], []), nodes)
      ensures Valid() && this.allocator == allocator && this.limits == limits && this.nodes == nodes
      ensures Abs() == Manager(ArenaInvariant.World(allocator.Abs(), [], []), map[], memory)
    {
      this.allocator, this.limits, this.nodes, this.memory := allocator, limits, nodes, memory;
      allocations, live, lost := map[], [], [];
    }

    /** Take a slot from the arena, or null. */
    method Carve(size: nat, fromTop: bool) returns (p: nat)
      requires Valid() && Invariant(World(), nodes) && size > 0
      modifies allocator.Repr(), this`live, this`lost
      ensures Valid() && allocator.nodes == old(allocator.nodes) && old(World()).arena.gran > 0 && BandsSized(old(World()).arena.counters)
      ensures World() == AllocStep(old(World()), size, fromTop)
      ensures match ArenaModel.Allocate(old(World()).arena, size, fromTop).1 case None => p == 0 case Some(r) => p == r.addr > 0
    {
      hide ArenaModel.Allocate, LostByAllocate, Invariant;
      ghost var w := World();
      CanAllocate(w, nodes);
      p := allocator.Allocate(size, fromTop);
      live, lost := AllocStep(w, size, fromTop).live, AllocStep(w, size, fromTop).lost;
    }

    /** Give a slot back to the arena. */
    method HandBack(p: nat, size: nat)
      requires Valid() && Invariant(World(), nodes) && Slot(p, size) in live
      modifies allocator.Repr(), this`live, this`lost
      ensures Valid() && allocator.nodes == old(allocator.nodes) && old(World()).arena.gran > 0 && World() == ReleaseStep(old(World()), Slot(p, size))
    {
      hide ArenaModel.Free, LostByFree, Invariant;
      ghost var w := World();
      CanAllocate(w, nodes);
      allocator.Free(p, size);
      live, lost := ReleaseStep(w, Slot(p, size)).live, ReleaseStep(w, Slot(p, size)).lost;
    }

    /** A recorded block of `size` bytes, or null.  `skip` is whether the caller or the size rules it out;
        `commitOk` whether the system commits its pages. */
    method CreateProxyAllocation(size: nat, skip: bool, commitOk: bool) returns (p: nat)
      requires Valid() && Kept(Abs(), nodes) && (skip || size > 0)
      modifies this, allocator.Repr()
      ensures Valid() && Kept(Abs(), nodes) && allocator.nodes == old(allocator.nodes)
      ensures (Abs(), p) == Attempt(old(Abs()), limits, nodes, size, !skip, commitOk)
    {
      hide Kept, Invariant, ArenaModel.Allocate, AllocStep, ReleaseStep;
      if skip {
        return 0;
      }
      KeptWorld(Abs(), nodes);
      CreateCases(Abs(), limits, nodes, size, commitOk);
      hide Create, Attempt, Commit;
      var fromTop := size >= limits.topDown;
      SlotFacts(World(), nodes, size, fromTop);
      p := Carve(size, fromTop);
      if p == 0 {
        return 0;
      }
      var mine := allocator.IsProxyAddress(p);
      if !mine || p % limits.page != 0 || !commitOk {
        HandBack(p, size);
        return 0;
      }
      memory := Commit(memory, p, size);
      allocations := allocations[p := size];
    }

    /** Free a recorded block by its base. */
    method FreeProxyAllocation(ptr: nat) returns (ok: bool)
      requires Valid() && Kept(Abs(), nodes)
      modifies this, allocator.Repr()
      ensures Valid() && Kept(Abs(), nodes)
      ensures (Abs(), ok) == FreeRecorded(old(Abs()), nodes, ptr)
    {
      hide Kept, Invariant, ReleaseStep;
      FreeKeeps(Abs(), nodes, ptr);
      KeptWorld(Abs(), nodes);
      var mine := allocator.IsProxyAddress(ptr);
      if !mine || ptr !in allocations {
        return false;
      }
      var size := allocations[ptr];
      KeptRecord(Abs(), nodes, ptr);
      allocations := allocations - {ptr};
      memory := Decommit(memory, ptr, size);
      HandBack(ptr, size);
      ok := true;
    }

    lemma KeptWorld(m: Manager, nodes: nat)
      requires Kept(m, nodes)
      ensures Invariant(m.world, nodes)
    {
    }

    /** The three ways in which a creation can go. */
    lemma CreateCases(m: Manager, lim: Limits, nodes: nat, size: nat, commitOk: bool)
      requires Kept(m, nodes) && size > 0 && lim.page > 0
      ensures m.world.arena.gran > 0 && BandsSized(m.world.arena.counters)
      ensures var r, got, w := Attempt(m, lim, nodes, size, true, commitOk),
                ArenaModel.Allocate(m.world.arena, size, size >= lim.topDown).1, AllocStep(m.world, size, size >= lim.topDown);
        && Kept(r.0, nodes)
        && match got
           case None => r == (m.(world := w), 0)
           case Some(span) =>
             var slot := Slot(span.addr, size);
             if w.arena.Owns(slot.addr) && slot.addr % lim.page == 0 && commitOk then
               r == (Manager(w, m.records[slot.addr := size], Commit(m.memory, slot.addr, size)), slot.addr)
             else w.arena.gran > 0 && slot in w.live && r == (m.(world := ReleaseStep(w, slot)), 0)
    {
      hide Invariant, Kept, ArenaModel.Allocate, AllocStep, ReleaseStep, Commit;
      CreateKeeps(m, lim, nodes, size, commitOk);
      KeptWorld(m, nodes);
      SlotFacts(m.world, nodes, size, size >= lim.topDown);
    }

    lemma KeptRecord(m: Manager, nodes: nat, a: nat)
      requires Kept(m, nodes) && a in m.records
      ensures Slot(a, m.records[a]) in m.world.live && CommittedRange(m.memory, a, m.records[a])
    {
    }

    lemma SlotFacts(w: World, nodes: nat, size: nat, fromTop: bool)
      requires Invariant(w, nodes) && size > 0
      ensures w.arena.gran > 0 && BandsSized(w.arena.counters)
      ensures var (w', got) := (AllocStep(w, size, fromTop), ArenaModel.Allocate(w.arena, size, fromTop).1);
        Invariant(w', nodes) && w'.arena.gran > 0 && (got.Some? ==> Slot(got.value.addr, size) in w'.live)
    {
      hide Invariant, ArenaModel.Allocate, AllocStep;
      CanAllocate(w, nodes);
      AllocFacts(w, size, fromTop, nodes);
      CanAllocate(AllocStep(w, size, fromTop), nodes);
      if ArenaModel.Allocate(w.arena, size, fromTop).1.Some? { assert AllocStep(w, size, fromTop).live[|w.live|].requested == size; }
    }

    lemma CopyNothing(memory: Memory, to: nat, from: nat)
      ensures CommittedRange(memory, from, 0) && Copy(memory, to, from, 0) == memory
    {
    }

    /** Copy bytes; both ranges are committed, and they are apart or the same. */
    method CopyMemory(to: nat, from: nat, n: nat)
      requires CommittedRange(memory, from, n) && CommittedRange(memory, to, n)
      requires to + n <= from || from + n <= to || to == from
      modifies this`memory
      ensures memory == Copy(old(memory), to, from, n)
    {
      hide Copy;
      var k := 0;
      ghost var was := memory;
      CopyNothing(memory, to, from);
      while k < n
        invariant k <= n && CommittedRange(was, from, k) && memory == Copy(was, to, from, k)
      {
        SubRange(was, from, n, k + 1);
        SubRange(was, to, n, k + 1);
        CopyStep(was, to, from, k);
        memory := memory[to + k := memory[from + k]];
        k := k + 1;
      }
    }

    /** The base of the block that contains `address`, whatever order the records are visited in. */
    method FindRecordByAddress(address: nat) returns (found: bool, base: nat)
      requires Valid() && Kept(Abs(), nodes)
      ensures FindBase(Abs(), address) == if found then Some(base) else None
    {
      hide Kept, Invariant;
      var left := allocations.Keys;
      while left != {}
        invariant left <= allocations.Keys
        invariant forall b | b in allocations && b !in left :: !Contains(Abs(), b, address)
        decreases left
      {
        var b :| b in left;
        if b <= address < b + allocations[b] {
          LookupUnambiguous(Abs(), nodes, b, address);
          return true, b;
        }
        left := left - {b};
      }
      found, base := false, 0;
    }

    /** A block from the arena, or else from the system heap. */
    method ObtainBlock(size: nat, routed: bool, commitOk: bool, heap: nat) returns (p: nat)
      requires Valid() && Kept(Abs(), nodes) && (routed ==> size > 0)
      modifies this, allocator.Repr()
      ensures Valid() && Kept(Abs(), nodes) && allocator.nodes == old(allocator.nodes)
      ensures (Abs(), p) == Obtain(old(Abs()), limits, nodes, size, routed, commitOk, heap)
    {
      hide Kept, Invariant, Attempt, Commit;
      p := CreateProxyAllocation(size, !routed, commitOk);
      if p == 0 && heap != 0 {
        CommitKeeps(Abs(), nodes, heap, size);
        p := heap;
        memory := Commit(memory, heap, size);
      }
    }

    /** Copy what fits of the block around `ptr`, if there is one. */
    method CopyOver(ptr: nat, p: nat, size: nat)
      requires Valid() && Kept(Abs(), nodes) && CommittedRange(memory, p, size)
      requires match FindBase(Abs(), ptr)
        case None => true
        case Some(base) => p + size <= base || base + allocations[base] <= p || p == base
      modifies this`memory
      ensures Valid()
      ensures match FindBase(old(Abs()), ptr)
        case None => memory == old(memory)
        case Some(base) =>
          && CommittedRange(old(memory), base, Min(allocations[base], size))
          && memory == if size > 0 then Copy(old(memory), p, base, Min(allocations[base], size)) else old(memory)
    {
      hide Kept, Invariant, Copy;
      var found, base := FindRecordByAddress(ptr);
      if found {
        KeptRecord(Abs(), nodes, base);
        SubRange(memory, base, allocations[base], Min(allocations[base], size));
        SubRange(memory, p, size, Min(allocations[base], size));
        if size > 0 {
          CopyMemory(p, base, Min(allocations[base], size));
        }
      }
    }

    /** Reallocate any pointer.  `heap` is what the system heap returns. */
    method ReallocateProxy(ptr: nat, size: nat, routed: bool, commitOk: bool, heap: nat) returns (p: nat)
      requires Valid() && Kept(Abs(), nodes) && (routed ==> size > 0) && HeapFits(Abs(), heap, size)
      modifies this, allocator.Repr()
      ensures Valid() && Kept(Abs(), nodes)
      ensures (Abs(), p) == Reallocate(old(Abs()), limits, nodes, ptr, size, routed, commitOk, heap)
      ensures Reallocated(old(Abs()), Abs(), ptr, p, size, IsCarved(old(Abs()), limits, nodes, size, routed, commitOk))
    {
      hide Kept, Invariant, Obtain, FreeRecorded, Reallocated, IsCarved, HeapFits, CommittedRange, Copy, FindBase, Contains;
      ReallocCorrect(Abs(), limits, nodes, ptr, size, routed, commitOk, heap);
      ObtainReady(Abs(), limits, nodes, ptr, size, routed, commitOk, heap);
      p := ObtainBlock(size, routed, commitOk, heap);
      if p != 0 {
        CopyKeeps(Abs(), nodes, ptr, p, size);
        CopyOver(ptr, p, size);
      }
      var _ := FreeProxyAllocation(ptr);
    }

    lemma CopyKeeps(m: Manager, nodes: nat, ptr: nat, p: nat, size: nat)
      requires Kept(m, nodes)
      ensures match FindBase(m, ptr)
        case None => true
        case Some(base) =>
          && base in m.records && CommittedRange(m.memory, base, Min(m.records[base], size))
          && Kept(m.(memory := Copy(m.memory, p, base, Min(m.records[base], size))), nodes)
    {
      hide Invariant;
      if FindBase(m, ptr).Some? {
        var base := FindBase(m, ptr).value;
        SubRange(m.memory, base, m.records[base], Min(m.records[base], size));
      }
    }
  }
}
