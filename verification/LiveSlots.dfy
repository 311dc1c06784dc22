/** What callers see of the arena: the slots they hold and how one step changes them. */
module LiveSlots {
  import opened Granules
  import opened ArenaModel
  import opened ArenaInvariant
  import opened ArenaTheorems

  /** No two live slots share an address, so none is listed twice. */
  lemma LiveAddresses(w: World, nodes: nat, i: nat, j: nat)
    requires Invariant(w, nodes) && i < j < |w.live|
    ensures w.live[i].addr != w.live[j].addr
  {
    PositiveSlot(w, w.live[i]);
    PositiveSlot(w, w.live[j]);
    LiveSlotsDisjoint(w, nodes, i, j);
  }

  lemma SameAddressSameSlot(w: World, nodes: nat, x: Slot, y: Slot)
    requires Invariant(w, nodes) && x in w.live && y in w.live && x.addr == y.addr
    ensures x == y
  {
    var i, j := IndexOf(w.live, x), IndexOf(w.live, y);
    if i < j {
      LiveAddresses(w, nodes, i, j);
    } else if j < i {
      LiveAddresses(w, nodes, j, i);
    }
  }

  lemma WithoutLive(w: World, nodes: nat, x: Slot, y: Slot)
    requires Invariant(w, nodes) && x in w.live
    ensures y in ArenaInvariant.Without(w.live, x) <==> y in w.live && y != x
  {
    hide Invariant;
    var i, rest := IndexOf(w.live, x), ArenaInvariant.Without(w.live, x);
    if y in rest {
      var k :| 0 <= k < |rest| && rest[k] == y;
      var m := if k < i then k else k + 1;
      assert w.live[m] == y;
      if m < i {
        LiveAddresses(w, nodes, m, i);
      } else {
        LiveAddresses(w, nodes, i, m);
      }
    }
    if y in w.live && y != x {
      var m := IndexOf(w.live, y);
      assert rest[if m < i then m else m - 1] == y;
    }
  }

  /** Both arenas are the same range, cut into the same granules. */
  predicate SameRange(a: Arena, b: Arena) {
    a.base == b.base && a.size == b.size && a.gran == b.gran
  }

  /** A request adds the granted slot to what the callers hold, or changes nothing they can see. */
  lemma AllocFacts(w: World, size: nat, fromTop: bool, nodes: nat)
    requires Invariant(w, nodes) && size > 0
    ensures var (w', got) := (AllocStep(w, size, fromTop), Allocate(w.arena, size, fromTop).1);
      && Invariant(w', nodes) && SameRange(w'.arena, w.arena) && BandsSized(w'.arena.counters)
      && w'.arena == Allocate(w.arena, size, fromTop).0
      && w'.live == (if got.None? then w.live else w.live + [Slot(got.value.addr, size)])
      && w'.arena.counters.used == w.arena.counters.used + (if got.None? then 0 else AlignUp(size, w.arena.gran))
  {
    AllocStepKeeps(w, size, fromTop, nodes);
    GrantCounters(CountRequest(w.arena), size, fromTop);
    if Allocate(w.arena, size, fromTop).1.Some? { ExactGrant(w, size, fromTop, nodes); }
  }

  lemma CanAllocate(w: World, nodes: nat)
    requires Invariant(w, nodes)
    ensures w.arena.gran > 0 && BandsSized(w.arena.counters)
  {}

  /** A new slot has no byte of a held one. */
  lemma GrantIsNew(w: World, size: nat, fromTop: bool, nodes: nat, s: Slot)
    requires Invariant(w, nodes) && size > 0 && s in w.live
    requires Allocate(w.arena, size, fromTop).1.Some?
    ensures var r := SlotSpan(Slot(Allocate(w.arena, size, fromTop).1.value.addr, size), w.arena.gran);
      && s.addr != r.addr
      && (SlotSpan(s, w.arena.gran).End() <= r.addr || r.End() <= s.addr)
  {
    AllocFacts(w, size, fromTop, nodes);
    hide Invariant, Allocate;
    CanAllocate(w, nodes);
    var w' := AllocStep(w, size, fromTop);
    assert w'.live[IndexOf(w.live, s)] == s;
    LiveAddresses(w', nodes, IndexOf(w.live, s), |w.live|);
    LiveSlotsDisjoint(w', nodes, IndexOf(w.live, s), |w.live|);
  }

  /** A release removes the slot and gives its bytes back. */
  lemma ReleaseFacts(w: World, s: Slot, nodes: nat)
    requires Invariant(w, nodes) && s in w.live
    ensures var w' := ReleaseStep(w, s);
      && Invariant(w', nodes) && SameRange(w'.arena, w.arena) && BandsSized(w'.arena.counters)
      && w'.arena == Free(w.arena, s.addr, s.requested)
      && w'.live == Without(w.live, s)
      && w'.arena.counters.used + AlignUp(s.requested, w.arena.gran) == w.arena.counters.used
  {
    ReleaseStepKeeps(w, s, nodes);
    ReleaseNeverSaturates(w, s, nodes);
  }

  /** A slot starts inside its arena, and its bytes end there. */
  lemma SlotInArena(w: World, s: Slot, nodes: nat)
    requires Invariant(w, nodes) && s in w.live
    ensures s.requested > 0 && w.arena.base <= s.addr && s.addr % w.arena.gran == 0
    ensures s.addr + AlignUp(s.requested, w.arena.gran) <= w.arena.base + w.arena.size
  {
    PositiveSlot(w, s);
    HeldInside(w, nodes, IndexOf(w.live, s));
  }
}
