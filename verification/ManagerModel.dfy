/** The record map beside the arena: recorded blocks, their bytes, and reallocation. */
module ManagerModel {
  import opened Granules
  import opened Spans
  import opened ArenaModel
  import opened ArenaInvariant
  import opened ArenaTheorems
  import opened LiveSlots

  type Memory = map<int, bv8>

  /** `memory` holds the committed bytes of the process. */
  datatype Manager = Manager(world: World, records: map<nat, nat>, memory: Memory)

  /** The page size, and the request size from which slots are carved from the high end. */
  datatype Limits = Limits(page: nat, topDown: nat)

  // ---------------------------------------------------------------- Memory

  predicate InRange(b: int, addr: int, n: nat) { addr <= b < addr + n }

  /** Fresh bytes read as zero; bytes committed already keep what they hold. */
  function Commit(memory: Memory, addr: nat, n: nat): Memory {
    memory + (map b: int | addr <= b < addr + n && b !in memory :: 0)
  }

  function Decommit(memory: Memory, addr: nat, n: nat): Memory {
    map b | b in memory && !InRange(b, addr, n) :: memory[b]
  }

  /** The bytes of the range are there, zero unless they were there before; all others are as they were. */
  ghost predicate Opened(before: Memory, after: Memory, addr: nat, n: nat) {
    && (forall b {:trigger InRange(b, addr, n)} | InRange(b, addr, n) ::
          b in after && after[b] == if b in before then before[b] else 0)
    && (forall b {:trigger b in after} | !InRange(b, addr, n) :: b in after <==> b in before)
    && (forall b | b in before && !InRange(b, addr, n) :: after[b] == before[b])
  }

  /** The bytes of the range are gone; all others are as they were. */
  ghost predicate Cleared(before: Memory, after: Memory, addr: nat, n: nat) {
    && (forall b {:trigger InRange(b, addr, n)} | InRange(b, addr, n) :: b !in after)
    && (forall b {:trigger b in after} | !InRange(b, addr, n) :: b in after <==> b in before)
    && (forall b | b in before && !InRange(b, addr, n) :: after[b] == before[b])
  }

  lemma CommitOpens(memory: Memory, addr: nat, n: nat)
    ensures Opened(memory, Commit(memory, addr, n), addr, n)
  {}

  lemma OpenedIsCommit(before: Memory, after: Memory, addr: nat, n: nat)
    requires Opened(before, after, addr, n)
    ensures after == Commit(before, addr, n)
  {
    var c := Commit(before, addr, n);
    forall b ensures b in after <==> b in c { assert InRange(b, addr, n) || !InRange(b, addr, n); }
    forall b | b in after ensures after[b] == c[b] { assert InRange(b, addr, n) || !InRange(b, addr, n); }
  }

  lemma DecommitClears(memory: Memory, addr: nat, n: nat)
    ensures Cleared(memory, Decommit(memory, addr, n), addr, n)
  {}

  ghost predicate CommittedRange(memory: Memory, addr: nat, n: nat) {
    forall b | InRange(b, addr, n) :: b in memory
  }

  ghost function Copy(memory: Memory, to: nat, from: nat, n: nat): Memory
    requires CommittedRange(memory, from, n)
  {
    memory + (map b: int | to <= b < to + n && InRange(b, to, n) :: assert InRange(b - to + from, from, n); memory[b - to + from])
  }

  lemma SubRange(memory: Memory, addr: nat, n: nat, k: nat)
    requires CommittedRange(memory, addr, n) && k <= n
    ensures CommittedRange(memory, addr, k)
  {
    forall b | InRange(b, addr, k) ensures b in memory { assert InRange(b, addr, n); }
  }

  /** Copying one byte more, when the copy so far has not touched it. */
  lemma CopyStep(memory: Memory, to: nat, from: nat, n: nat)
    requires CommittedRange(memory, from, n + 1) && CommittedRange(memory, to, n + 1)
    requires to + n < from || from + n < to || to == from
    ensures CommittedRange(memory, from, n) && from + n in memory
    ensures from + n in Copy(memory, to, from, n) && Copy(memory, to, from, n)[from + n] == memory[from + n]
    ensures Copy(memory, to, from, n + 1) == Copy(memory, to, from, n)[to + n := memory[from + n]]
  {
    SubRange(memory, from, n + 1, n);
    assert InRange(from + n, from, n + 1);
  }

  function Min(a: nat, b: nat): nat { if a < b then a else b }

  // ---------------------------------------------------------------- Operations

  ghost predicate Kept(m: Manager, nodes: nat) {
    && Invariant(m.world, nodes)
    && forall a | a in m.records :: Slot(a, m.records[a]) in m.world.live && CommittedRange(m.memory, a, m.records[a])
  }

  /** Carve a slot, commit it and record it; any failure gives the slot back. */
  ghost function Create(m: Manager, lim: Limits, nodes: nat, size: nat, commitOk: bool): (Manager, nat)
    requires Kept(m, nodes) && size > 0 && lim.page > 0
  {
    CanAllocate(m.world, nodes);
    var fromTop := size >= lim.topDown;
    var got := Allocate(m.world.arena, size, fromTop).1;
    AllocFacts(m.world, size, fromTop, nodes);
    var w := AllocStep(m.world, size, fromTop);
    if got.None? then (m.(world := w), 0)
    else
      var addr := got.value.addr;
      if w.arena.Owns(addr) && addr % lim.page == 0 && commitOk then
        (Manager(w, m.records[addr := size], Commit(m.memory, addr, size)), addr)
      else
        CanAllocate(w, nodes);
        (m.(world := ReleaseStep(w, Slot(addr, size))), 0)
  }

  /** Erase the record, decommit the block, hand the slot back. */
  ghost function FreeRecorded(m: Manager, nodes: nat, ptr: nat): (Manager, bool)
    requires Kept(m, nodes)
  {
    if !m.world.arena.Owns(ptr) || ptr !in m.records then (m, false)
    else
      CanAllocate(m.world, nodes);
      var size := m.records[ptr];
      (Manager(ReleaseStep(m.world, Slot(ptr, size)), m.records - {ptr}, Decommit(m.memory, ptr, size)), true)
  }

  /** The block recorded at `base` contains `address`. */
  predicate Contains(m: Manager, base: nat, address: nat) {
    base in m.records && InRange(address, base, m.records[base])
  }

  ghost function FindBase(m: Manager, address: nat): (r: Option<nat>)
    ensures r.Some? ==> Contains(m, r.value, address)
    ensures r.None? ==> forall base :: !Contains(m, base, address)
  {
    if base :| Contains(m, base, address) then Some(base) else None
  }

  // ---------------------------------------------------------------- What the operations keep

  lemma BlockInSlot(m: Manager, nodes: nat, a: nat)
    requires Kept(m, nodes) && a in m.records
    ensures m.world.arena.gran > 0 && 0 < m.records[a] <= SlotSpan(Slot(a, m.records[a]), m.world.arena.gran).size
    ensures m.world.arena.base <= a && a + m.records[a] <= m.world.arena.base + m.world.arena.size
    ensures forall b | InRange(b, a, m.records[a]) :: m.world.arena.Owns(b)
  {
    CanAllocate(m.world, nodes);
    SlotInArena(m.world, Slot(a, m.records[a]), nodes);
    hide Invariant;
    Based(m.world, nodes);
  }

  lemma Based(w: World, nodes: nat)
    requires Invariant(w, nodes)
    ensures w.arena.base > 0
  {}

  /** Recorded blocks share no byte, so a lookup by address has at most one answer. */
  lemma BlocksApart(m: Manager, nodes: nat, a: nat, c: nat)
    requires Kept(m, nodes) && a in m.records && c in m.records && a != c
    ensures a + m.records[a] <= c || c + m.records[c] <= a
  {
    hide Invariant;
    var (s, t) := (Slot(a, m.records[a]), Slot(c, m.records[c]));
    var i, j := IndexOf(m.world.live, s), IndexOf(m.world.live, t);
    CanAllocate(m.world, nodes);
    LiveSlotsDisjoint(m.world, nodes, if i < j then i else j, if i < j then j else i);
    BlockInSlot(m, nodes, a);
    BlockInSlot(m, nodes, c);
  }

  lemma LookupUnambiguous(m: Manager, nodes: nat, base: nat, address: nat)
    requires Kept(m, nodes) && Contains(m, base, address)
    ensures FindBase(m, address) == Some(base)
  {
    var found := FindBase(m, address).value;
    if found != base { BlocksApart(m, nodes, found, base); }
  }

  /** With granules of whole pages the two sanity checks on a granted slot never fail. */
  lemma GuardsNeverFire(m: Manager, nodes: nat, lim: Limits, size: nat, fromTop: bool)
    requires Invariant(m.world, nodes) && size > 0 && lim.page > 0 && m.world.arena.gran % lim.page == 0
    requires Allocate(m.world.arena, size, fromTop).1.Some?
    ensures var addr := Allocate(m.world.arena, size, fromTop).1.value.addr;
      AllocStep(m.world, size, fromTop).arena.Owns(addr) && addr % lim.page == 0
  {
    ExactGrant(m.world, size, fromTop, nodes);
    AllocFacts(m.world, size, fromTop, nodes);
    var w := AllocStep(m.world, size, fromTop);
    var addr := Allocate(m.world.arena, size, fromTop).1.value.addr;
    hide Invariant, Allocate;
    Based(w, nodes);
    SlotInArena(w, Slot(addr, size), nodes);
    PageMultiple(addr, m.world.arena.gran, lim.page);
  }

  /** What a creation did. */
  ghost predicate Created(m: Manager, m': Manager, size: nat, p: nat) {
    && SameRange(m'.world.arena, m.world.arena) && m.world.arena.gran > 0
    && if p == 0 then
         m'.records == m.records && m'.memory == m.memory && forall s :: s in m'.world.live <==> s in m.world.live
       else
         && p !in m.records && m'.records == m.records[p := size]
         && Opened(m.memory, m'.memory, p, size)
         && m.world.arena.Owns(p) && Slot(p, size) !in m.world.live
         && (forall s :: s in m'.world.live <==> s in m.world.live || s == Slot(p, size))
         && (forall s | s in m.world.live :: s.addr + s.requested <= p || p + size <= s.addr)
  }

  lemma CreateKeeps(m: Manager, lim: Limits, nodes: nat, size: nat, commitOk: bool)
    requires Kept(m, nodes) && size > 0 && lim.page > 0
    ensures var (m', p) := Create(m, lim, nodes, size, commitOk); Kept(m', nodes) && Created(m, m', size, p)
    ensures m.world.arena.gran > 0 && BandsSized(m.world.arena.counters)
    ensures m.world.arena.gran % lim.page == 0 ==>
      (Create(m, lim, nodes, size, commitOk).1 != 0 <==> commitOk && Allocate(m.world.arena, size, size >= lim.topDown).1.Some?)
  {
    hide Invariant, Allocate, ReleaseStep, AllocStep, Commit, Opened;
    CanAllocate(m.world, nodes);
    var fromTop := size >= lim.topDown;
    AllocFacts(m.world, size, fromTop, nodes);
    var got := Allocate(m.world.arena, size, fromTop).1;
    if got.Some? {
      SlotCarved(m.world, nodes, size, fromTop);
      if m.world.arena.gran % lim.page == 0 { GuardsNeverFire(m, nodes, lim, size, fromTop); }
      RecordAdded(m, nodes, AllocStep(m.world, size, fromTop), got.value.addr, size);
      CommitOpens(m.memory, got.value.addr, size);
    }
  }

  /** A slot carved is new, and giving it straight back restores the held slots. */
  lemma SlotCarved(w: World, nodes: nat, size: nat, fromTop: bool)
    requires Invariant(w, nodes) && size > 0
    requires w.arena.gran > 0 && BandsSized(w.arena.counters) && Allocate(w.arena, size, fromTop).1.Some?
    ensures var (w', slot) := (AllocStep(w, size, fromTop), Slot(Allocate(w.arena, size, fromTop).1.value.addr, size));
      && slot.addr > 0 && slot !in w.live && slot in w'.live && w.arena.Owns(slot.addr) && w'.arena.gran > 0
      && (forall s :: s in w'.live <==> s in w.live || s == slot)
      && (forall s | s in w.live :: s.addr != slot.addr && (s.addr + s.requested <= slot.addr || slot.addr + size <= s.addr))
      && Invariant(ReleaseStep(w', slot), nodes) && SameRange(ReleaseStep(w', slot).arena, w.arena)
      && (forall s :: s in ReleaseStep(w', slot).live <==> s in w.live)
  {
    hide Invariant, Allocate, ReleaseStep, AllocStep;
    AllocFacts(w, size, fromTop, nodes);
    var (w', slot) := (AllocStep(w, size, fromTop), Slot(Allocate(w.arena, size, fromTop).1.value.addr, size));
    assert w'.live[|w.live|] == slot;
    CanAllocate(w', nodes);
    forall s | s in w.live ensures s.addr != slot.addr && (s.addr + s.requested <= slot.addr || slot.addr + size <= s.addr) {
      GrantIsNew(w, size, fromTop, nodes, s);
    }
    ReleaseFacts(w', slot, nodes);
    forall s ensures s in ReleaseStep(w', slot).live <==> s in w.live { WithoutLive(w', nodes, slot, s); }
    Based(w', nodes);
    SlotInArena(w', slot, nodes);
  }

  lemma RecordAdded(m: Manager, nodes: nat, w: World, addr: nat, size: nat)
    requires Kept(m, nodes) && Invariant(w, nodes) && Slot(addr, size) in w.live
    requires forall s | s in m.world.live :: s in w.live && s.addr != addr
    ensures addr !in m.records && Kept(Manager(w, m.records[addr := size], Commit(m.memory, addr, size)), nodes)
  {
    hide Invariant;
    forall a | a in m.records ensures a != addr { assert Slot(a, m.records[a]) in m.world.live; }
  }

  /** A recorded block is freed by its base, once: its slot goes, its bytes go, nothing else does. */
  lemma FreeKeeps(m: Manager, nodes: nat, ptr: nat)
    requires Kept(m, nodes)
    ensures var (m', ok) := FreeRecorded(m, nodes, ptr);
      && Kept(m', nodes) && SameRange(m'.world.arena, m.world.arena)
      && (ok <==> ptr in m.records)
      && m'.records == m.records - {ptr}
      && (if ok then Cleared(m.memory, m'.memory, ptr, m.records[ptr]) else m' == m)
      && forall s :: s in m'.world.live <==> s in m.world.live && !(ok && s == Slot(ptr, m.records[ptr]))
  {
    hide Invariant, ReleaseStep;
    if ptr in m.records {
      BlockInSlot(m, nodes, ptr);
      assert InRange(ptr, ptr, m.records[ptr]);
      var slot := Slot(ptr, m.records[ptr]);
      var m' := FreeRecorded(m, nodes, ptr).0;
      ReleaseFacts(m.world, slot, nodes);
      DecommitClears(m.memory, ptr, m.records[ptr]);
      forall s ensures s in m'.world.live <==> s in m.world.live && s != slot { WithoutLive(m.world, nodes, slot, s); }
      forall a | a in m'.records ensures CommittedRange(m'.memory, a, m.records[a]) { BlocksApart(m, nodes, a, ptr); }
    }
  }

  /** Whatever was in a block when it was freed, a block created over it reads zero there. */
  lemma FreedReadsZero(m: Manager, lim: Limits, nodes: nat, ptr: nat, size: nat, commitOk: bool)
    requires Kept(m, nodes) && ptr in m.records && size > 0 && lim.page > 0
    ensures var freed := FreeRecorded(m, nodes, ptr).0;
      && Kept(freed, nodes)
      && var (m', p) := Create(freed, lim, nodes, size, commitOk);
         p != 0 ==> forall b {:trigger InRange(b, p, size)} | InRange(b, p, size) && InRange(b, ptr, m.records[ptr]) ::
           b in m'.memory && m'.memory[b] == 0
  {
    hide Invariant, Create, FreeRecorded;
    FreeKeeps(m, nodes, ptr);
    CreateKeeps(FreeRecorded(m, nodes, ptr).0, lim, nodes, size, commitOk);
  }

  /** A block is created at the top end of the free memory if it is large, else at the bottom: with no block of
      its rounded size cached, no free run of bytes that fits lies beyond it. */
  lemma LargeAtTop(m: Manager, lim: Limits, nodes: nat, size: nat, commitOk: bool, x: int)
    requires Kept(m, nodes) && size > 0 && lim.page > 0 && m.world.arena.gran > 0
    requires var need := AlignUp(size, m.world.arena.gran);
      OfSize(Cached(m.world.arena.classes), need) == 0 && RunIn(m.world.arena.free, x, need)
    ensures var p := Create(m, lim, nodes, size, commitOk).1;
      p != 0 ==> RunIn(m.world.arena.free, p, AlignUp(size, m.world.arena.gran)) && if size >= lim.topDown then x <= p else p <= x
  {
    hide Invariant, Allocate, OfSize, Cached, RunIn, ReleaseStep, AllocStep, AlignUp;
    CanAllocate(m.world, nodes);
    InvariantClasses(m.world, nodes);
    HitExactly(m.world.arena, AlignUp(size, m.world.arena.gran));
    PlacementOptimal(m.world, size, size >= lim.topDown, nodes, x);
    ExactGrant(m.world, size, size >= lim.topDown, nodes);
  }

  // ---------------------------------------------------------------- Reallocation

  /** Copy what fits of the block around `ptr` to `p`, then free `ptr`. */
  ghost function MoveTo(m: Manager, nodes: nat, ptr: nat, p: nat, size: nat): (Manager, nat)
    requires Kept(m, nodes)
  {
    var found := FindBase(m, ptr);
    if found.Some? && size > 0 then
      var n := Min(m.records[found.value], size);
      var copied := m.(memory := Copy(m.memory, p, found.value, n));
      (FreeRecorded(copied, nodes, ptr).0, p)
    else (FreeRecorded(m, nodes, ptr).0, p)
  }

  ghost function Attempt(m: Manager, lim: Limits, nodes: nat, size: nat, routed: bool, commitOk: bool): (r: (Manager, nat))
    requires Kept(m, nodes) && lim.page > 0 && (routed ==> size > 0)
    ensures Kept(r.0, nodes)
  {
    if !routed then (m, 0)
    else
      CreateKeeps(m, lim, nodes, size, commitOk);
      Create(m, lim, nodes, size, commitOk)
  }

  /** A new block, from the arena if `routed`, or else what the system heap returns: zero for nothing. */
  ghost function Obtain(m: Manager, lim: Limits, nodes: nat, size: nat, routed: bool, commitOk: bool, heap: nat): (r: (Manager, nat))
    requires Kept(m, nodes) && lim.page > 0 && (routed ==> size > 0)
    ensures Kept(r.0, nodes)
  {
    var (m1, p) := Attempt(m, lim, nodes, size, routed, commitOk);
    if p != 0 || heap == 0 then (m1, p)
    else
      CommitKeeps(m1, nodes, heap, size);
      (m1.(memory := Commit(m1.memory, heap, size)), heap)
  }

  /** Reallocation of a pointer into the arena.  Without a new block the old one is freed all the same. */
  ghost function Reallocate(m: Manager, lim: Limits, nodes: nat, ptr: nat, size: nat, routed: bool, commitOk: bool, heap: nat): (Manager, nat)
    requires Kept(m, nodes) && lim.page > 0 && (routed ==> size > 0)
  {
    var (mid, p) := Obtain(m, lim, nodes, size, routed, commitOk, heap);
    if p != 0 then MoveTo(mid, nodes, ptr, p, size) else (FreeRecorded(mid, nodes, ptr).0, 0)
  }

  /** The system heap returns bytes that are in no recorded block.  They may be the arena's all the same, in
      a slot that was redirected to the heap when it grew. */
  ghost predicate HeapFits(m: Manager, heap: nat, size: nat) {
    heap != 0 ==> forall a | a in m.records :: heap + size <= a || a + m.records[a] <= heap
  }

  /** The new block is a slot carved for it. */
  ghost predicate IsCarved(m: Manager, lim: Limits, nodes: nat, size: nat, routed: bool, commitOk: bool)
    requires Kept(m, nodes) && lim.page > 0 && (routed ==> size > 0)
  {
    Attempt(m, lim, nodes, size, routed, commitOk).1 != 0
  }

  /** The block at `p` holds what it can of the old block, and after that what was there or zeros; the bytes of
      the old block are gone if the pointer is its base; and no other byte came, went or changed its value. */
  ghost predicate ContentsMoved(m: Manager, m': Manager, base: nat, ptr: nat, p: nat, size: nat)
    requires base in m.records
  {
    var n := m.records[base];
    && (p != 0 ==> (p + size <= base || base + n <= p))
    && (p != 0 ==> forall b {:trigger InRange(b, p, size)} | InRange(b, p, size) ::
          && b in m'.memory
          && (b - p < n ==> base + b - p in m.memory && m'.memory[b] == m.memory[base + b - p])
          && (b - p >= n ==> m'.memory[b] == if b in m.memory then m.memory[b] else 0))
    && (forall b | b in m.memory && !(p != 0 && InRange(b, p, size)) && !(ptr == base && InRange(b, base, n)) ::
          b in m'.memory && m'.memory[b] == m.memory[b])
    && (forall b | b in m'.memory :: b in m.memory || (p != 0 && InRange(b, p, size)))
    && (ptr == base ==> forall b {:trigger InRange(b, base, n)} | InRange(b, base, n) :: b !in m'.memory)
  }

  /** Exactly the block at `ptr` is released, and exactly the block at `p` is new. */
  ghost predicate SlotsMoved(m: Manager, m': Manager, base: nat, ptr: nat, p: nat, size: nat, carved: bool)
    requires base in m.records
  {
    && m'.records == (if carved then m.records[p := size] else m.records) - {ptr}
    && (ptr in m.records <==> ptr == base)
    && (carved ==> Slot(p, size) !in m.world.live)
    && (forall s :: s in m'.world.live <==>
          (s in m.world.live && !(ptr == base && s == Slot(base, m.records[base]))) || (carved && s == Slot(p, size)))
  }

  /** From `mid`, where the new block at `p` exists, to the end. */
  lemma MoveKeeps(mid: Manager, nodes: nat, base: nat, ptr: nat, p: nat, size: nat)
    requires Kept(mid, nodes) && Contains(mid, base, ptr) && CommittedRange(mid.memory, p, size) && p != 0
    requires p + size <= base || base + mid.records[base] <= p
    ensures var (m', q) := MoveTo(mid, nodes, ptr, p, size);
      && q == p && Kept(m', nodes) && ContentsMoved(mid, m', base, ptr, p, size)
      && m'.records == mid.records - {ptr} && (ptr in mid.records <==> ptr == base)
      && (forall s :: s in m'.world.live <==> s in mid.world.live && !(ptr == base && s == Slot(base, mid.records[base])))
  {
    hide Invariant;
    LookupUnambiguous(mid, nodes, base, ptr);
    if ptr in mid.records && ptr != base { BlocksApart(mid, nodes, ptr, base); BlockInSlot(mid, nodes, ptr); }
    var n := Min(mid.records[base], size);
    var copied := if size > 0 then mid.(memory := Copy(mid.memory, p, base, n)) else mid;
    FreeKeeps(copied, nodes, ptr);
    hide Kept;
    MovedBytes(mid, FreeRecorded(copied, nodes, ptr).0, base, ptr, p, size);
  }

  lemma MovedBytes(mid: Manager, m': Manager, base: nat, ptr: nat, p: nat, size: nat)
    requires base in mid.records && CommittedRange(mid.memory, base, mid.records[base]) && CommittedRange(mid.memory, p, size)
    requires p != 0 && (p + size <= base || base + mid.records[base] <= p)
    requires var copied := if size > 0 then Copy(mid.memory, p, base, Min(mid.records[base], size)) else mid.memory;
      m'.memory == if ptr == base then Decommit(copied, base, mid.records[base]) else copied
    ensures ContentsMoved(mid, m', base, ptr, p, size)
  {
    forall b {:trigger InRange(b, p, size)} | InRange(b, p, size) && b - p < mid.records[base]
      ensures base + b - p in mid.memory && m'.memory[b] == mid.memory[base + b - p]
    {
      assert InRange(base + b - p, base, mid.records[base]) && InRange(b, p, Min(mid.records[base], size));
    }
  }

  /** The bytes of the block are where they were before the new block was committed. */
  lemma ContentsSince(m: Manager, mid: Manager, m': Manager, base: nat, ptr: nat, p: nat, size: nat)
    requires base in m.records && base in mid.records && mid.records[base] == m.records[base]
    requires mid.memory == Commit(m.memory, p, size) && CommittedRange(m.memory, base, m.records[base])
    requires p != 0 && ContentsMoved(mid, m', base, ptr, p, size)
    ensures ContentsMoved(m, m', base, ptr, p, size)
  {
    forall b {:trigger InRange(b, p, size)} | InRange(b, p, size) && b - p < m.records[base]
      ensures base + b - p in m.memory && mid.memory[base + b - p] == m.memory[base + b - p]
    {
      assert InRange(base + b - p, base, m.records[base]);
    }
  }

  lemma CommitKeeps(m: Manager, nodes: nat, p: nat, size: nat)
    requires Kept(m, nodes)
    ensures Kept(m.(memory := Commit(m.memory, p, size)), nodes)
  {
    hide Invariant;
  }

  /** A pointer into no block: nothing is copied or released, and a new block is all there is.  But if the
      pointer is where the arena puts the new block, that block is freed again at once. */
  ghost predicate NothingMoved(m: Manager, m': Manager, ptr: nat, p: nat, size: nat, carved: bool) {
    if carved && ptr == p then
      && m'.records == m.records && Cleared(m.memory, m'.memory, p, size)
      && forall s :: s in m'.world.live <==> s in m.world.live
    else
      && m'.records == (if carved then m.records[p := size] else m.records)
      && (if p != 0 then Opened(m.memory, m'.memory, p, size) else m'.memory == m.memory)
      && forall s :: s in m'.world.live <==> s in m.world.live || (carved && s == Slot(p, size))
  }

  ghost predicate Reallocated(m: Manager, m': Manager, ptr: nat, p: nat, size: nat, carved: bool) {
    match FindBase(m, ptr)
    case Some(base) => ContentsMoved(m, m', base, ptr, p, size) && SlotsMoved(m, m', base, ptr, p, size, carved)
    case None => NothingMoved(m, m', ptr, p, size, carved)
  }

  /** Reallocating any pointer.  For one into a recorded block the first bytes, as many as both blocks have,
      are preserved on success; old and new block do not overlap; nothing else moves; and the old slot is
      released once if the pointer is the block's base, and only then. */
  lemma ReallocCorrect(m: Manager, lim: Limits, nodes: nat, ptr: nat, size: nat, routed: bool, commitOk: bool, heap: nat)
    requires Kept(m, nodes) && lim.page > 0 && (routed ==> size > 0) && HeapFits(m, heap, size)
    ensures var (m', p) := Reallocate(m, lim, nodes, ptr, size, routed, commitOk, heap);
      Kept(m', nodes) && (p == 0 ==> heap == 0) && Reallocated(m, m', ptr, p, size, IsCarved(m, lim, nodes, size, routed, commitOk))
  {
    hide Invariant, Reallocate, ContentsMoved, SlotsMoved, NothingMoved;
    if FindBase(m, ptr).Some? {
      ReallocOfBlock(m, lim, nodes, FindBase(m, ptr).value, ptr, size, routed, commitOk, heap);
    } else {
      ReallocOfNone(m, lim, nodes, ptr, size, routed, commitOk, heap);
    }
  }

  lemma ReallocOfBlock(m: Manager, lim: Limits, nodes: nat, base: nat, ptr: nat, size: nat, routed: bool, commitOk: bool, heap: nat)
    requires Kept(m, nodes) && lim.page > 0 && (routed ==> size > 0)
    requires Contains(m, base, ptr) && HeapFits(m, heap, size)
    ensures var (m', p) := Reallocate(m, lim, nodes, ptr, size, routed, commitOk, heap);
      && Kept(m', nodes) && ContentsMoved(m, m', base, ptr, p, size)
      && SlotsMoved(m, m', base, ptr, p, size, IsCarved(m, lim, nodes, size, routed, commitOk))
      && (p == 0 ==> heap == 0)
  {
    hide Invariant, Obtain, MoveTo, FreeRecorded, ContentsMoved, CommittedRange, Kept, Commit, IsCarved;
    ObtainFacts(m, lim, nodes, size, routed, commitOk, heap);
    ObtainKeeps(m, lim, nodes, base, size, routed, commitOk, heap);
    var (mid, p) := Obtain(m, lim, nodes, size, routed, commitOk, heap);
    BlockCommitted(m, nodes, base);
    if p != 0 {
      MoveKeeps(mid, nodes, base, ptr, p, size);
      ContentsSince(m, mid, MoveTo(mid, nodes, ptr, p, size).0, base, ptr, p, size);
    } else {
      FreeKeeps(mid, nodes, ptr);
      FreedContents(m, mid, nodes, base, ptr, size);
    }
  }

  lemma ReallocOfNone(m: Manager, lim: Limits, nodes: nat, ptr: nat, size: nat, routed: bool, commitOk: bool, heap: nat)
    requires Kept(m, nodes) && lim.page > 0 && (routed ==> size > 0) && FindBase(m, ptr).None? && HeapFits(m, heap, size)
    ensures var (m', p) := Reallocate(m, lim, nodes, ptr, size, routed, commitOk, heap);
      Kept(m', nodes) && NothingMoved(m, m', ptr, p, size, IsCarved(m, lim, nodes, size, routed, commitOk)) && (p == 0 ==> heap == 0)
  {
    var (mid, p) := Obtain(m, lim, nodes, size, routed, commitOk, heap);
    StrayObtained(m, lim, nodes, ptr, size, routed, commitOk, heap);
    ObtainFacts(m, lim, nodes, size, routed, commitOk, heap);
    hide Kept, Commit, Decommit, FreeRecorded, MoveTo, Obtain, IsCarved, HeapFits, InRange, FindBase, NothingMoved;
    if p != 0 { MoveStray(mid, nodes, ptr, p, size); }
    FreeKeeps(mid, nodes, ptr);
    StrayFreed(m, mid, FreeRecorded(mid, nodes, ptr).0, ptr, p, size, IsCarved(m, lim, nodes, size, routed, commitOk));
  }

  /** The only block the pointer can be in now is the new one. */
  lemma StrayObtained(m: Manager, lim: Limits, nodes: nat, ptr: nat, size: nat, routed: bool, commitOk: bool, heap: nat)
    requires Kept(m, nodes) && lim.page > 0 && (routed ==> size > 0) && FindBase(m, ptr).None? && HeapFits(m, heap, size)
    ensures ptr !in m.records
    ensures var (mid, p) := Obtain(m, lim, nodes, size, routed, commitOk, heap);
      && (forall base | base in mid.records && base != p :: !InRange(ptr, base, mid.records[base]))
      && (p != 0 && p in mid.records && size > 0 ==> mid.records[p] == size)
  {
    NoBlock(m, nodes, ptr);
    ObtainFacts(m, lim, nodes, size, routed, commitOk, heap);
    hide Obtain, IsCarved, Kept, Commit, FindBase, HeapFits;
    var (mid, p) := Obtain(m, lim, nodes, size, routed, commitOk, heap);
    StrayRecords(m, mid.records, ptr, p, size, IsCarved(m, lim, nodes, size, routed, commitOk), heap);
  }

  lemma StrayRecords(m: Manager, records: map<nat, nat>, ptr: nat, p: nat, size: nat, carved: bool, heap: nat)
    requires forall base | base in m.records :: !InRange(ptr, base, m.records[base]) && m.records[base] > 0
    requires HeapFits(m, heap, size) && records == (if carved then m.records[p := size] else m.records)
    requires p != 0 && !carved ==> p == heap
    ensures forall base | base in records && base != p :: !InRange(ptr, base, records[base])
    ensures p != 0 && p in records && size > 0 ==> records[p] == size
  {
  }

  lemma StrayFreed(m: Manager, mid: Manager, m': Manager, ptr: nat, p: nat, size: nat, carved: bool)
    requires ptr !in m.records && (carved ==> p !in m.records && p != 0 && Slot(p, size) !in m.world.live)
    requires mid.records == (if carved then m.records[p := size] else m.records)
    requires mid.memory == (if p != 0 then Commit(m.memory, p, size) else m.memory)
    requires forall s :: s in mid.world.live <==> s in m.world.live || (carved && s == Slot(p, size))
    requires m'.records == mid.records - {ptr}
    requires if ptr in mid.records then Cleared(mid.memory, m'.memory, ptr, mid.records[ptr]) else m' == mid
    requires forall s :: s in m'.world.live <==> s in mid.world.live && !(ptr in mid.records && s == Slot(ptr, mid.records[ptr]))
    ensures NothingMoved(m, m', ptr, p, size, carved)
  {
    if p != 0 { CommitOpens(m.memory, p, size); }
    hide Commit, Decommit;
    if carved && ptr == p { assert m'.records == m.records; }
  }

  /** With no block around the pointer, or only the new one, moving is freeing. */
  lemma MoveStray(mid: Manager, nodes: nat, ptr: nat, p: nat, size: nat)
    requires Kept(mid, nodes)
    requires forall base | base in mid.records && base != p :: !InRange(ptr, base, mid.records[base])
    requires p in mid.records && size > 0 ==> mid.records[p] == size
    ensures MoveTo(mid, nodes, ptr, p, size) == (FreeRecorded(mid, nodes, ptr).0, p)
  {
    hide Invariant, FreeRecorded;
    if FindBase(mid, ptr).Some? && size > 0 { CopyOnto(mid.memory, p, size, mid, nodes); }
  }

  lemma NoBlock(m: Manager, nodes: nat, ptr: nat)
    requires Kept(m, nodes) && FindBase(m, ptr).None?
    ensures ptr !in m.records
    ensures forall base | base in m.records :: !InRange(ptr, base, m.records[base]) && m.records[base] > 0
  {
    forall base | base in m.records
      ensures !InRange(ptr, base, m.records[base]) && base != ptr && m.records[base] > 0
    {
      assert !Contains(m, base, ptr);
      BlockInSlot(m, nodes, base);
      assert InRange(base, base, m.records[base]);
    }
  }

  /** Copying a block onto itself changes nothing. */
  lemma CopyOnto(memory: Memory, p: nat, n: nat, m: Manager, nodes: nat)
    requires Kept(m, nodes) && memory == m.memory && p in m.records && m.records[p] == n
    ensures CommittedRange(memory, p, n) && Copy(memory, p, p, n) == memory
  {
    hide Invariant;
    forall b | InRange(b, p, n) ensures b in memory {}
  }

  /** The case does occur: a block is freed into its cache and the stale pointer is reallocated to a size of
      the same rounding; the arena grants the same slot, which is then freed. */
  lemma StalePointerLosesNewBlock(m: Manager, lim: Limits, nodes: nat, ptr: nat, size: nat, heap: nat)
    requires Kept(m, nodes) && lim.page > 0 && ptr in m.records && size > 0 && m.world.arena.gran > 0
    requires m.world.arena.gran % lim.page == 0 && AlignUp(size, m.world.arena.gran) == AlignUp(m.records[ptr], m.world.arena.gran)
    requires Cacheable(m.world.arena, AlignUp(size, m.world.arena.gran))
    ensures var freed := FreeRecorded(m, nodes, ptr).0;
      && Kept(freed, nodes)
      && var (m', p) := Reallocate(freed, lim, nodes, ptr, size, true, true, heap); p == ptr && ptr !in m'.records
  {
    hide Invariant, Cacheable, ReleaseStep, Create, MoveTo;
    BlockInSlot(m, nodes, ptr);
    FreeKeeps(m, nodes, ptr);
    var s := Slot(ptr, m.records[ptr]);
    var freed := FreeRecorded(m, nodes, ptr).0;
    assert InRange(ptr, ptr, m.records[ptr]);
    ReleaseFacts(m.world, s, nodes);
    ChurnRoundTrip(m.world, s, size, size >= lim.topDown, nodes);
    CreateKeeps(freed, lim, nodes, size, true);
    CreateGrants(freed, lim, nodes, size);
    var (mid, p) := Create(freed, lim, nodes, size, true);
    MoveFrees(mid, nodes, ptr, p, size);
  }

  lemma CreateGrants(m: Manager, lim: Limits, nodes: nat, size: nat)
    requires Kept(m, nodes) && size > 0 && lim.page > 0
    ensures m.world.arena.gran > 0 && BandsSized(m.world.arena.counters)
    ensures var p := Create(m, lim, nodes, size, true).1;
      p != 0 ==> Allocate(m.world.arena, size, size >= lim.topDown).1 == Some(Span(p, Allocate(m.world.arena, size, size >= lim.topDown).1.value.size))
  {
    hide Invariant, Allocate, AllocStep, ReleaseStep;
    CanAllocate(m.world, nodes);
  }

  lemma MoveFrees(mid: Manager, nodes: nat, ptr: nat, p: nat, size: nat)
    requires Kept(mid, nodes)
    ensures MoveTo(mid, nodes, ptr, p, size).1 == p && ptr !in MoveTo(mid, nodes, ptr, p, size).0.records
  {
    hide Invariant;
    FreeKeeps(mid, nodes, ptr);
    var found := FindBase(mid, ptr);
    if found.Some? && size > 0 {
      var n := Min(mid.records[found.value], size);
      SubRange(mid.memory, found.value, mid.records[found.value], n);
      FreeKeeps(mid.(memory := Copy(mid.memory, p, found.value, n)), nodes, ptr);
    }
  }

  /** The new block is recorded if it is the arena's, and committed, and nothing else is changed. */
  lemma ObtainFacts(m: Manager, lim: Limits, nodes: nat, size: nat, routed: bool, commitOk: bool, heap: nat)
    requires Kept(m, nodes) && lim.page > 0 && (routed ==> size > 0)
    ensures var (mid, p) := Obtain(m, lim, nodes, size, routed, commitOk, heap);
      var carved := IsCarved(m, lim, nodes, size, routed, commitOk);
      && Kept(mid, nodes) && (p == 0 ==> heap == 0 && !carved) && (p != 0 && !carved ==> p == heap)
      && SameRange(mid.world.arena, m.world.arena)
      && mid.records == (if carved then m.records[p := size] else m.records)
      && mid.memory == (if p != 0 then Commit(m.memory, p, size) else m.memory)
      && (carved ==> p !in m.records && size > 0 && Slot(p, size) !in m.world.live)
      && (forall s :: s in mid.world.live <==> s in m.world.live || (carved && s == Slot(p, size)))
  {
    hide Invariant, Create, Kept, Commit, CommittedRange, Opened;
    if routed {
      CreateKeeps(m, lim, nodes, size, commitOk);
      var (m1, p) := Attempt(m, lim, nodes, size, routed, commitOk);
      if p != 0 { OpenedIsCommit(m.memory, m1.memory, p, size); }
    }
  }

  /** And it is apart from the block at `base`. */
  lemma ObtainKeeps(m: Manager, lim: Limits, nodes: nat, base: nat, size: nat, routed: bool, commitOk: bool, heap: nat)
    requires Kept(m, nodes) && lim.page > 0 && (routed ==> size > 0) && base in m.records && HeapFits(m, heap, size)
    ensures var (mid, p) := Obtain(m, lim, nodes, size, routed, commitOk, heap);
      && base in mid.records && mid.records[base] == m.records[base]
      && (p != 0 ==> CommittedRange(mid.memory, p, size) && (p + size <= base || base + m.records[base] <= p))
  {
    hide Kept, Commit, CommittedRange, Attempt;
    AttemptApart(m, lim, nodes, base, size, routed, commitOk);
    assert IsCarved(m, lim, nodes, size, routed, commitOk) <==> Attempt(m, lim, nodes, size, routed, commitOk).1 != 0;
    assert var p := Obtain(m, lim, nodes, size, routed, commitOk, heap).1; p == Attempt(m, lim, nodes, size, routed, commitOk).1 || p == heap;
    hide Obtain, IsCarved;
    ObtainFacts(m, lim, nodes, size, routed, commitOk, heap);
    CommitCovers(m.memory, Obtain(m, lim, nodes, size, routed, commitOk, heap).1, size);
  }

  lemma AttemptApart(m: Manager, lim: Limits, nodes: nat, base: nat, size: nat, routed: bool, commitOk: bool)
    requires Kept(m, nodes) && lim.page > 0 && (routed ==> size > 0) && base in m.records
    ensures var p := Attempt(m, lim, nodes, size, routed, commitOk).1;
      p != 0 ==> p != base && (p + size <= base || base + m.records[base] <= p)
  {
    hide Invariant, Create, Kept, CommittedRange, Opened;
    if routed { CreateKeeps(m, lim, nodes, size, commitOk); }
    BlockCommitted(m, nodes, base);
  }

  lemma BlockCommitted(m: Manager, nodes: nat, base: nat)
    requires Kept(m, nodes) && base in m.records
    ensures CommittedRange(m.memory, base, m.records[base]) && Slot(base, m.records[base]) in m.world.live
  {}

  lemma CommitCovers(memory: Memory, p: nat, size: nat)
    ensures CommittedRange(Commit(memory, p, size), p, size)
  {}

  lemma FreedContents(m: Manager, m1: Manager, nodes: nat, base: nat, ptr: nat, size: nat)
    requires Kept(m1, nodes) && m1.records == m.records && m1.memory == m.memory && Contains(m, base, ptr)
    ensures ContentsMoved(m, FreeRecorded(m1, nodes, ptr).0, base, ptr, 0, size)
    ensures ptr in m.records <==> ptr == base
  {
    hide Invariant;
    FreeKeeps(m1, nodes, ptr);
    if ptr in m.records && ptr != base { BlocksApart(m1, nodes, ptr, base); BlockInSlot(m1, nodes, ptr); }
  }

  /** What the copy of a reallocation may rely on: the new block is committed, and apart from the block that
      is copied, unless it is that block. */
  lemma ObtainReady(m: Manager, lim: Limits, nodes: nat, ptr: nat, size: nat, routed: bool, commitOk: bool, heap: nat)
    requires Kept(m, nodes) && lim.page > 0 && (routed ==> size > 0) && HeapFits(m, heap, size)
    ensures var (mid, p) := Obtain(m, lim, nodes, size, routed, commitOk, heap);
      p != 0 ==>
        && CommittedRange(mid.memory, p, size)
        && match FindBase(mid, ptr)
           case None => true
           case Some(base) => base in mid.records && (p + size <= base || base + mid.records[base] <= p || p == base)
  {
    ObtainFacts(m, lim, nodes, size, routed, commitOk, heap);
    hide Invariant, Kept, Create, Commit, CommittedRange;
    var (mid, p) := Obtain(m, lim, nodes, size, routed, commitOk, heap);
    CommitCovers(m.memory, p, size);
    if p != 0 && FindBase(mid, ptr).Some? && FindBase(mid, ptr).value != p {
      ObtainKeeps(m, lim, nodes, FindBase(mid, ptr).value, size, routed, commitOk, heap);
    }
  }
}
