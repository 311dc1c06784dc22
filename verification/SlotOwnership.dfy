/** Who owns an arena slot while many threads allocate, publish and free through the hooks.

    A state machine: every critical section of the allocator, of the record map and of the redirect
    table is one step, and so is every commit and decommit; threads take their steps in any order and
    call the free hooks with any pointer they like, as often as they like.  A release that finds no entry
    goes on to the system, where it fails, except at the base of the arena's reservation: there it
    releases the arena and all pages in it. */
module SlotOwnership {
  import opened Granules
  import opened Spans
  import opened ArenaModel
  import opened ArenaInvariant
  import opened ArenaTheorems
  import opened LiveSlots
  import RedirectTable

  const REDIRECT_CAPACITY := RedirectTable.CAPACITY

  /** What an allocation is for: a heap block with a record, a redirected reserve, a shard of the
      small-block heap. */
  datatype Use = Recorded | Redirected | Shard

  /** Where a thread is in a hook.  The slot it carries belongs to it alone. */
  datatype Pc =
    | Idle
    | Carved(slot: Slot, use: Use)     // granted, not yet committed
    | Committed(slot: Slot, use: Use)  // committed, not yet published
    | Refused(slot: Slot)              // to be freed as it is
    | Taken(slot: Slot)                // its record or table entry is gone, its pages are still committed
    | Decommitted(slot: Slot)          // to be freed

  /** `committed` is the set of committed bytes; `dropped` are slots the full redirect table forgot;
      `reserved` is whether the system still keeps the arena's range for it. */
  datatype System = System(
    world: World, page: nat,
    records: map<nat, nat>, redirects: map<nat, nat>, shards: set<Slot>, dropped: set<Slot>,
    threads: map<int, Pc>,
    committed: iset<int>, reserved: bool)
  {
    function Gran(): nat { world.arena.gran }

    function At(t: int): Pc { if t in threads then threads[t] else Idle }

    function With(t: int, pc: Pc): System { this.(threads := threads[t := pc]) }
  }

  datatype Action =
    | Request(size: nat, fromTop: bool, use: Use)
    | Commit(ok: bool)
    | Publish(ok: bool)
    | FreeRefused
    | FreeRecorded(ptr: nat)
    | FreeRedirected(ptr: nat)
    | FreeUnseen(ptr: nat)             // a release that no hook looks up
    | Decommit
    | GiveBack

  ghost function SlotBytes(s: Slot, gran: nat): iset<int>
    requires gran > 0
  {
    iset b | SlotSpan(s, gran).Has(b)
  }

  /** The pages that a commit or decommit of the requested bytes touches. */
  ghost function SlotPages(s: Slot, page: nat): iset<int>
    requires page > 0
  {
    iset b | Span(s.addr, AlignUp(s.requested, page)).Has(b)
  }

  predicate CanRun(s: System) {
    s.Gran() > 0 && s.page > 0 && BandsSized(s.world.arena.counters)
  }

  /** What thread `t` may do next; requests are for a positive size, pages can be committed only while the
      range is reserved, and a slot handed back is one the arena has granted (which OwnershipKept shows
      never to fail). */
  predicate Enabled(s: System, t: int, a: Action) {
    CanRun(s) &&
    match a
    case Request(size, _, _) => s.At(t).Idle? && size > 0
    case Commit(ok) => s.At(t).Carved? && (ok ==> s.reserved)
    case Publish(_) => s.At(t).Committed?
    case FreeRefused => s.At(t).Refused?
    case FreeRecorded(_) => s.At(t).Idle?
    case FreeRedirected(_) => s.At(t).Idle?
    case FreeUnseen(_) => true
    case Decommit => s.At(t).Taken?
    case GiveBack => s.At(t).Decommitted?
  }

  function Requested(s: System, t: int, size: nat, fromTop: bool, use: Use): System
    requires CanRun(s)
  {
    var grant := Allocate(s.world.arena, size, fromTop).1;
    var s' := s.(world := AllocStep(s.world, size, fromTop));
    if grant.None? then s' else s'.With(t, Carved(Slot(grant.value.addr, size), use))
  }

  /** Put a committed slot where its next owner will find it. */
  function Published(s: System, t: int, ok: bool): System
    requires s.At(t).Committed?
  {
    var slot := s.At(t).slot;
    var s' := s.With(t, Idle);
    match s.At(t).use
    case Recorded => s'.(records := s.records[slot.addr := slot.requested])
    case Redirected =>
      if |s.redirects| < REDIRECT_CAPACITY then s'.(redirects := s.redirects[slot.addr := slot.requested])
      else s'.(dropped := s.dropped + {slot})
    case Shard => if ok then s'.(shards := s.shards + {slot}) else s.With(t, Refused(slot))
  }

  /** The system is asked to release a range: the arena, if it starts there and is still reserved. */
  ghost function Released(s: System, ptr: nat): System {
    if ptr == s.world.arena.base && s.reserved then s.(committed := iset{}, reserved := false) else s
  }

  function Without<K, V>(m: map<K, V>, k: K): map<K, V> { m - {k} }

  ghost function Next(s: System, t: int, a: Action): System
    requires Enabled(s, t, a)
    requires (a.FreeRefused? || a.GiveBack?) ==> s.At(t).slot in s.world.live
  {
    match a
    case Request(size, fromTop, use) => Requested(s, t, size, fromTop, use)
    case Commit(ok) =>
      var slot := s.At(t).slot;
      if ok then s.With(t, Pc.Committed(slot, s.At(t).use)).(committed := s.committed + SlotPages(slot, s.page))
      else s.With(t, Refused(slot))
    case Publish(ok) => Published(s, t, ok)
    case FreeRefused => s.With(t, Idle).(world := ReleaseStep(s.world, s.At(t).slot))
    case FreeRecorded(ptr) =>
      if s.world.arena.Owns(ptr) && ptr in s.records then
        s.With(t, Pc.Taken(Slot(ptr, s.records[ptr]))).(records := Without(s.records, ptr))
      else s
    case FreeRedirected(ptr) =>
      if ptr in s.redirects then
        s.With(t, Pc.Taken(Slot(ptr, s.redirects[ptr]))).(redirects := Without(s.redirects, ptr))
      else Released(s, ptr)
    case FreeUnseen(ptr) => Released(s, ptr)
    case Decommit =>
      var slot := s.At(t).slot;
      s.With(t, Decommitted(slot)).(committed := s.committed - SlotPages(slot, s.page))
    case GiveBack => s.With(t, Idle).(world := ReleaseStep(s.world, s.At(t).slot))
  }

  // ---------------------------------------------------------------- Ownership

  datatype Owner = Record | Redirect | ShardHeap | Nobody | Thread(id: int)

  /** `o` is answerable for the slot `x`. */
  ghost predicate Holds(s: System, o: Owner, x: Slot) {
    match o
    case Record => x.addr in s.records && s.records[x.addr] == x.requested
    case Redirect => x.addr in s.redirects && s.redirects[x.addr] == x.requested
    case ShardHeap => x in s.shards
    case Nobody => x in s.dropped
    case Thread(t) => !s.At(t).Idle? && s.At(t).slot == x
  }

  /** Only the arena's slots are held, each by somebody, none by two. */
  ghost predicate SingleOwner(s: System) {
    && (forall o, x :: Holds(s, o, x) ==> x in s.world.live)
    && (forall x | x in s.world.live :: exists o :: Holds(s, o, x))
    && (forall o, p, x, y :: Holds(s, o, x) && Holds(s, p, y) && x.addr == y.addr ==> o == p && x == y)
  }

  /** Owners that expect to find their slot's pages committed. */
  ghost predicate Relies(s: System, o: Owner) {
    match o
    case Thread(t) => s.At(t).Committed? || s.At(t).Taken?
    case _ => true
  }

  ghost predicate PagesHeld(s: System)
    requires s.page > 0
  {
    forall o, x :: Holds(s, o, x) && Relies(s, o) ==> SlotPages(x, s.page) <= s.committed
  }

  /** Granules are whole pages. */
  ghost predicate Owned(s: System, nodes: nat) {
    Invariant(s.world, nodes) && SingleOwner(s) && s.page > 0 && s.Gran() > 0 && s.Gran() % s.page == 0
  }

  /** The release `a` takes the arena from under its slots. */
  predicate Releases(s: System, a: Action) {
    && s.reserved && (a.FreeRedirected? || a.FreeUnseen?) && a.ptr == s.world.arena.base
    && (a.FreeRedirected? ==> a.ptr !in s.redirects)
  }

  /** Somebody expects to find pages. */
  ghost predicate Relied(s: System) { exists o, x :: Holds(s, o, x) && Relies(s, o) }

  /** The release `a` takes pages that somebody relies on. */
  ghost predicate Fatal(s: System, a: Action) { Releases(s, a) && Relied(s) }

  // ---------------------------------------------------------------- Facts about live slots

  /** Different slots have no byte in common. */
  lemma SlotsApart(w: World, nodes: nat, x: Slot, y: Slot)
    requires Invariant(w, nodes) && x in w.live && y in w.live && x != y
    ensures SlotBytes(x, w.arena.gran) !! SlotBytes(y, w.arena.gran)
  {
    var i, j := IndexOf(w.live, x), IndexOf(w.live, y);
    if i < j {
      LiveSlotsDisjoint(w, nodes, i, j);
    } else {
      LiveSlotsDisjoint(w, nodes, j, i);
    }
  }

  /** The pages of a slot are its own, so those of different slots are apart too. */
  lemma PagesInSlot(w: World, nodes: nat, x: Slot, page: nat)
    requires Invariant(w, nodes) && x in w.live && page > 0 && w.arena.gran > 0 && w.arena.gran % page == 0
    ensures SlotPages(x, page) <= SlotBytes(x, w.arena.gran)
  {
    var r := AlignUp(x.requested, w.arena.gran);
    PageMultiple(r, w.arena.gran, page);
    AlignUpLeast(x.requested, r, page);
  }

  // ---------------------------------------------------------------- Each step keeps ownership

  /** A step that moves one slot from one owner to another, or leaves all where they are. */
  ghost predicate HandsOver(s: System, s': System, x: Slot, o: Owner, p: Owner) {
    && s'.world == s.world && Holds(s, o, x)
    && forall q, y :: Holds(s', q, y) <==> if y == x then q == p else Holds(s, q, y)
  }

  lemma HandOverKeeps(s: System, s': System, x: Slot, o: Owner, p: Owner)
    requires SingleOwner(s) && HandsOver(s, s', x, o, p)
    ensures SingleOwner(s')
  {
    forall y | y in s'.world.live ensures exists q :: Holds(s', q, y) {
      if y == x {
        assert Holds(s', p, y);
      } else {
        var q :| Holds(s, q, y);
        assert Holds(s', q, y);
      }
    }
    forall q, r, y, z | Holds(s', q, y) && Holds(s', r, z) && y.addr == z.addr ensures q == r && y == z {
      assert Holds(s, if y == x then o else q, y);
      assert Holds(s, if z == x then o else r, z);
    }
  }

  /** When a slot changes hands its pages go with it. */
  lemma HandOverPages(s: System, s': System, x: Slot, o: Owner, p: Owner)
    requires s.page > 0 && s'.page == s.page && PagesHeld(s) && HandsOver(s, s', x, o, p)
    requires s'.committed == s.committed && Relies(s, o)
    requires forall q, y :: Holds(s, q, y) && y != x && Relies(s', q) ==> Relies(s, q)
    ensures PagesHeld(s')
  {
    forall q, y | Holds(s', q, y) && Relies(s', q) ensures SlotPages(y, s'.page) <= s'.committed {
      if y == x {
        assert Holds(s, o, x);
      } else {
        assert Holds(s, q, y);
      }
    }
  }

  lemma RequestKeeps(s: System, t: int, size: nat, fromTop: bool, use: Use, nodes: nat)
    requires Owned(s, nodes) && Enabled(s, t, Request(size, fromTop, use))
    ensures Owned(Requested(s, t, size, fromTop, use), nodes)
    ensures PagesHeld(s) ==> PagesHeld(Requested(s, t, size, fromTop, use))
  {
    hide Invariant, Allocate;
    var s' := Requested(s, t, size, fromTop, use);
    AllocStepKeeps(s.world, size, fromTop, nodes);
    StepGran(s.world, size, fromTop, nodes);
    var grant := Allocate(s.world.arena, size, fromTop).1;
    if grant.None? {
      forall o, x ensures Holds(s', o, x) <==> Holds(s, o, x) {
      }
      SameHolders(s, s');
    } else {
      GrantHolders(s, t, size, fromTop, use, nodes);
    }
  }

  lemma ReleaseGran(w: World, x: Slot)
    requires w.arena.gran > 0 && x in w.live
    ensures ReleaseStep(w, x).arena.gran == w.arena.gran
    ensures ReleaseStep(w, x).live == ArenaInvariant.Without(w.live, x)
  {
  }

  lemma StepGran(w: World, size: nat, fromTop: bool, nodes: nat)
    requires Invariant(w, nodes) && size > 0
    ensures AllocStep(w, size, fromTop).arena.gran == w.arena.gran
  {
    GrantCounters(CountRequest(w.arena), size, fromTop);
  }

  lemma SameHolders(s: System, s': System)
    requires s.page > 0 && SingleOwner(s) && s'.world.live == s.world.live && s'.page == s.page
    requires forall o, x :: Holds(s', o, x) <==> Holds(s, o, x)
    ensures SingleOwner(s')
    ensures && PagesHeld(s) && s.committed <= s'.committed
            && (forall o, x :: Holds(s, o, x) && Relies(s', o) ==> Relies(s, o) || SlotPages(x, s.page) <= s'.committed)
            ==> PagesHeld(s')
  {
    forall x | x in s'.world.live ensures exists o :: Holds(s', o, x) {
      var o :| Holds(s, o, x);
      assert Holds(s', o, x);
    }
    forall o, p, x, y | Holds(s', o, x) && Holds(s', p, y) && x.addr == y.addr ensures o == p && x == y {
      assert Holds(s, o, x) && Holds(s, p, y);
    }
  }

  lemma GrantHolders(s: System, t: int, size: nat, fromTop: bool, use: Use, nodes: nat)
    requires Owned(s, nodes) && Enabled(s, t, Request(size, fromTop, use))
    requires Allocate(s.world.arena, size, fromTop).1.Some?
    requires Invariant(AllocStep(s.world, size, fromTop), nodes)
    requires AllocStep(s.world, size, fromTop).arena.gran == s.Gran()
    ensures Owned(Requested(s, t, size, fromTop, use), nodes)
    ensures PagesHeld(s) ==> PagesHeld(Requested(s, t, size, fromTop, use))
  {
    hide Invariant, Allocate;
    var s' := Requested(s, t, size, fromTop, use);
    var x := Slot(Allocate(s.world.arena, size, fromTop).1.value.addr, size);
    assert s'.world.live == s.world.live + [x];
    forall y | y in s.world.live ensures y.addr != x.addr {
      LiveAddresses(s'.world, nodes, IndexOf(s.world.live, y), |s.world.live|);
      assert s'.world.live[IndexOf(s.world.live, y)] == y;
    }
    forall o, y ensures Holds(s', o, y) <==> (Holds(s, o, y) || (o == Thread(t) && y == x)) {
    }
    Arrives(s, s', x, Thread(t));
  }

  /** A new slot has come to the owner `p`, who held nothing. */
  lemma Arrives(s: System, s': System, x: Slot, p: Owner)
    requires s.page > 0 && SingleOwner(s)
    requires s'.world.live == s.world.live + [x] && s'.page == s.page && s'.committed == s.committed
    requires forall y | y in s.world.live :: y.addr != x.addr
    requires forall o, y :: Holds(s', o, y) <==> (Holds(s, o, y) || (o == p && y == x))
    requires !Relies(s', p) && forall o :: o != p ==> (Relies(s', o) <==> Relies(s, o))
    ensures SingleOwner(s') && (PagesHeld(s) ==> PagesHeld(s'))
  {
    forall y | y in s'.world.live ensures exists o :: Holds(s', o, y) {
      if y in s.world.live {
        var o :| Holds(s, o, y);
        assert Holds(s', o, y);
      } else {
        assert Holds(s', p, y);
      }
    }
    forall o, q, y, z | Holds(s', o, y) && Holds(s', q, z) && y.addr == z.addr ensures o == q && y == z {
      assert Holds(s, o, y) ==> y in s.world.live;
      assert Holds(s, q, z) ==> z in s.world.live;
    }
    forall o, y | Holds(s', o, y) && Relies(s', o) && PagesHeld(s) ensures SlotPages(y, s'.page) <= s'.committed {
      assert Holds(s, o, y);
    }
  }

  lemma CommitKeeps(s: System, t: int, ok: bool, nodes: nat)
    requires Owned(s, nodes) && Enabled(s, t, Commit(ok))
    ensures Owned(Next(s, t, Commit(ok)), nodes) && (PagesHeld(s) ==> PagesHeld(Next(s, t, Commit(ok))))
  {
    var s' := Next(s, t, Commit(ok));
    forall o, x ensures Holds(s', o, x) <==> Holds(s, o, x) {
    }
    SameHolders(s, s');
  }

  /** A table has no entry yet at the address of a slot that a thread carries. */
  lemma FreshEntry(s: System, t: int, o: Owner)
    requires SingleOwner(s) && !s.At(t).Idle? && (o.Record? || o.Redirect?)
    ensures s.At(t).slot.addr !in if o.Record? then s.records else s.redirects
  {
    var table, x := if o.Record? then s.records else s.redirects, s.At(t).slot;
    assert Holds(s, Thread(t), x);
    if x.addr in table {
      var y := Slot(x.addr, table[x.addr]);
      assert Holds(s, o, y);
      assert false;
    }
  }

  function PublishedTo(s: System, t: int, ok: bool): Owner
    requires s.At(t).Committed?
  {
    match s.At(t).use
    case Recorded => Record
    case Redirected => if |s.redirects| < REDIRECT_CAPACITY then Redirect else Nobody
    case Shard => if ok then ShardHeap else Thread(t)
  }

  lemma PublishHandsOver(s: System, t: int, ok: bool)
    requires SingleOwner(s) && s.At(t).Committed?
    ensures HandsOver(s, Published(s, t, ok), s.At(t).slot, Thread(t), PublishedTo(s, t, ok))
  {
    var s', x, p := Published(s, t, ok), s.At(t).slot, PublishedTo(s, t, ok);
    if p.Record? || p.Redirect? {
      FreshEntry(s, t, p);
    }
    PublishHolders(s, t, ok);
    assert Holds(s, Thread(t), x);
    forall q, y ensures Holds(s', q, y) <==> if y == x then q == p else Holds(s, q, y) {
      hide Published, PublishedTo;
      if y == x && Holds(s, q, y) {
        assert q == Thread(t);
      }
    }
  }

  lemma PublishHolders(s: System, t: int, ok: bool)
    requires s.At(t).Committed?
    requires PublishedTo(s, t, ok).Record? ==> s.At(t).slot.addr !in s.records
    requires PublishedTo(s, t, ok).Redirect? ==> s.At(t).slot.addr !in s.redirects
    ensures forall q, y :: Holds(Published(s, t, ok), q, y) <==>
                           (y == s.At(t).slot && q == PublishedTo(s, t, ok)) || (q != Thread(t) && Holds(s, q, y))
  {
    forall q, y
      ensures Holds(Published(s, t, ok), q, y) <==>
              (y == s.At(t).slot && q == PublishedTo(s, t, ok)) || (q != Thread(t) && Holds(s, q, y))
    {
      match q {
        case Record =>
        case Redirect =>
        case ShardHeap =>
        case Nobody =>
        case Thread(u) =>
      }
    }
  }

  lemma PublishKeeps(s: System, t: int, ok: bool, nodes: nat)
    requires Owned(s, nodes) && Enabled(s, t, Publish(ok))
    ensures Owned(Published(s, t, ok), nodes) && (PagesHeld(s) ==> PagesHeld(Published(s, t, ok)))
  {
    hide Invariant, SingleOwner, PagesHeld, PublishedTo;
    PublishHandsOver(s, t, ok);
    HandOverKeeps(s, Published(s, t, ok), s.At(t).slot, Thread(t), PublishedTo(s, t, ok));
    if PagesHeld(s) { HandOverPages(s, Published(s, t, ok), s.At(t).slot, Thread(t), PublishedTo(s, t, ok)); }
  }

  /** The free finds an entry to take. */
  predicate Takes(s: System, a: Action) {
    || (a.FreeRecorded? && s.world.arena.Owns(a.ptr) && a.ptr in s.records)
    || (a.FreeRedirected? && a.ptr in s.redirects)
  }

  lemma TakeHandsOver(s: System, t: int, a: Action)
    requires SingleOwner(s) && Enabled(s, t, a)
    requires Takes(s, a)
    ensures var table := if a.FreeRecorded? then s.records else s.redirects;
      HandsOver(s, Next(s, t, a), Slot(a.ptr, table[a.ptr]), if a.FreeRecorded? then Record else Redirect, Thread(t))
  {
    var s', o := Next(s, t, a), if a.FreeRecorded? then Record else Redirect;
    var x := Slot(a.ptr, (if a.FreeRecorded? then s.records else s.redirects)[a.ptr]);
    assert Holds(s, o, x);
    forall q, y ensures Holds(s', q, y) <==> if y == x then q == Thread(t) else Holds(s, q, y) {
      if Holds(s, q, y) && y.addr == x.addr {
        assert q == o && y == x;
      }
    }
  }

  lemma TakeKeeps(s: System, t: int, a: Action, nodes: nat)
    requires Owned(s, nodes) && Enabled(s, t, a) && Takes(s, a)
    ensures Owned(Next(s, t, a), nodes) && (PagesHeld(s) ==> PagesHeld(Next(s, t, a)))
  {
    var table, o := if a.FreeRecorded? then s.records else s.redirects, if a.FreeRecorded? then Record else Redirect;
    TakeHandsOver(s, t, a);
    HandOverKeeps(s, Next(s, t, a), Slot(a.ptr, table[a.ptr]), o, Thread(t));
    if PagesHeld(s) { HandOverPages(s, Next(s, t, a), Slot(a.ptr, table[a.ptr]), o, Thread(t)); }
  }

  /** A free that finds no entry changes no owner, and no page unless it releases the arena. */
  lemma FallThrough(s: System, t: int, a: Action, nodes: nat)
    requires Owned(s, nodes) && Enabled(s, t, a) && !Takes(s, a) && (a.FreeRecorded? || a.FreeRedirected? || a.FreeUnseen?)
    ensures Owned(Next(s, t, a), nodes)
    ensures Next(s, t, a) == if Releases(s, a) then s.(committed := iset{}, reserved := false) else s
  {
    hide Invariant;
    var s' := Next(s, t, a);
    forall o, x ensures Holds(s', o, x) <==> Holds(s, o, x) {
    }
    hide SingleOwner, Holds;
    SameHolders(s, s');
  }

  /** A decommit touches no byte of any slot but the one in the thread's hands. */
  lemma DecommitKeeps(s: System, t: int, nodes: nat)
    requires Owned(s, nodes) && Enabled(s, t, Decommit)
    ensures Owned(Next(s, t, Decommit), nodes) && (PagesHeld(s) ==> PagesHeld(Next(s, t, Decommit)))
  {
    var s', x := Next(s, t, Decommit), s.At(t).slot;
    assert Holds(s, Thread(t), x);
    forall o, y ensures Holds(s', o, y) <==> Holds(s, o, y) {
    }
    forall o, y | Holds(s', o, y) && Relies(s', o) && PagesHeld(s) ensures SlotPages(y, s.page) <= s'.committed {
      assert Holds(s, o, y) && Relies(s, o);
      assert o != Thread(t);
      SlotsApart(s.world, nodes, x, y);
      PagesInSlot(s.world, nodes, x, s.page);
      PagesInSlot(s.world, nodes, y, s.page);
    }
    forall y | y in s'.world.live ensures exists q :: Holds(s', q, y) {
      var q :| Holds(s, q, y);
      assert Holds(s', q, y);
    }
  }

  /** What a thread hands back is a live slot with the size it was granted for: the arena's terms are kept. */
  lemma HandsBackLive(s: System, t: int, nodes: nat)
    requires Owned(s, nodes) && !s.At(t).Idle?
    ensures s.At(t).slot in s.world.live && Legal(s.world, Release(s.At(t).slot))
  {
    assert Holds(s, Thread(t), s.At(t).slot);
  }

  lemma GiveBackKeeps(s: System, t: int, a: Action, nodes: nat)
    requires Owned(s, nodes) && Enabled(s, t, a) && (a.FreeRefused? || a.GiveBack?)
    ensures s.At(t).slot in s.world.live && Owned(Next(s, t, a), nodes) && (PagesHeld(s) ==> PagesHeld(Next(s, t, a)))
  {
    hide Invariant, ReleaseStep;
    HandsBackLive(s, t, nodes);
    var s', x := Next(s, t, a), s.At(t).slot;
    ReleaseStepKeeps(s.world, x, nodes);
    ReleaseGran(s.world, x);
    assert Holds(s, Thread(t), x);
    forall o, y ensures Holds(s', o, y) <==> Holds(s, o, y) && y != x {
      if Holds(s, o, y) && y == x {
        assert o == Thread(t);
      }
    }
    forall y ensures y in s'.world.live <==> y in s.world.live && y != x {
      WithoutLive(s.world, nodes, x, y);
    }
    Departs(s, s', x);
  }

  lemma Departs(s: System, s': System, x: Slot)
    requires s.page > 0 && SingleOwner(s) && s'.page == s.page && s'.committed == s.committed
    requires forall y :: y in s'.world.live <==> y in s.world.live && y != x
    requires forall o, y :: Holds(s', o, y) <==> Holds(s, o, y) && y != x
    requires forall o, y :: Holds(s', o, y) && Relies(s', o) ==> Relies(s, o)
    ensures SingleOwner(s') && (PagesHeld(s) ==> PagesHeld(s'))
  {
    forall y | y in s'.world.live ensures exists o :: Holds(s', o, y) {
      var o :| Holds(s, o, y);
      assert Holds(s', o, y);
    }
    forall o, p, y, z | Holds(s', o, y) && Holds(s', p, z) && y.addr == z.addr ensures o == p && y == z {
      assert Holds(s, o, y) && Holds(s, p, z);
    }
    forall o, y | Holds(s', o, y) && Relies(s', o) && PagesHeld(s) ensures SlotPages(y, s'.page) <= s'.committed {
      assert Holds(s, o, y);
    }
  }

  /** Every step of every thread keeps each live slot with exactly one owner, whatever is released; and it
      keeps the pages committed that owners rely on, unless it releases the arena. */
  lemma OwnershipKept(s: System, t: int, a: Action, nodes: nat)
    requires Owned(s, nodes) && Enabled(s, t, a)
    ensures (a.FreeRefused? || a.GiveBack?) ==> s.At(t).slot in s.world.live
    ensures Owned(Next(s, t, a), nodes)
    ensures PagesHeld(s) && !Releases(s, a) ==> PagesHeld(Next(s, t, a))
  {
    match a
    case Request(size, fromTop, use) => RequestKeeps(s, t, size, fromTop, use, nodes);
    case Commit(ok) => CommitKeeps(s, t, ok, nodes);
    case Publish(ok) => PublishKeeps(s, t, ok, nodes);
    case FreeRefused => GiveBackKeeps(s, t, a, nodes);
    case FreeRecorded(_) => FreeKeeps(s, t, a, nodes);
    case FreeRedirected(_) => FreeKeeps(s, t, a, nodes);
    case FreeUnseen(_) => FreeKeeps(s, t, a, nodes);
    case Decommit => DecommitKeeps(s, t, nodes);
    case GiveBack => GiveBackKeeps(s, t, a, nodes);
  }

  lemma FreeKeeps(s: System, t: int, a: Action, nodes: nat)
    requires Owned(s, nodes) && Enabled(s, t, a) && (a.FreeRecorded? || a.FreeRedirected? || a.FreeUnseen?)
    ensures Owned(Next(s, t, a), nodes) && (PagesHeld(s) && !Releases(s, a) ==> PagesHeld(Next(s, t, a)))
  {
    if Takes(s, a) { TakeKeeps(s, t, a, nodes); } else { FallThrough(s, t, a, nodes); }
  }

  /** A step leaves everybody the pages they rely on if and only if it is not a release of the arena, found
      in no table, while somebody relies on pages. */
  lemma PagesKeptExactly(s: System, t: int, a: Action, nodes: nat)
    requires Owned(s, nodes) && PagesHeld(s) && Enabled(s, t, a)
    ensures (a.FreeRefused? || a.GiveBack?) ==> s.At(t).slot in s.world.live
    ensures Owned(Next(s, t, a), nodes) && (PagesHeld(Next(s, t, a)) <==> !Fatal(s, a))
  {
    OwnershipKept(s, t, a, nodes);
    if Releases(s, a) {
      FallThrough(s, t, a, nodes);
      ArenaGone(s, Next(s, t, a), nodes);
    }
  }

  lemma ArenaGone(s: System, s': System, nodes: nat)
    requires Owned(s, nodes) && s' == s.(committed := iset{}, reserved := false)
    ensures PagesHeld(s') <==> !Relied(s)
  {
    hide Invariant;
    forall o, x ensures Holds(s', o, x) <==> Holds(s, o, x) {
    }
    forall o ensures Relies(s', o) <==> Relies(s, o) {
    }
    if Relied(s) {
      var o, x :| Holds(s, o, x) && Relies(s, o);
      PositiveLive(s.world, nodes, x);
      assert x.addr in SlotPages(x, s.page);
      assert Holds(s', o, x) && Relies(s', o);
    }
  }

  lemma PositiveLive(w: World, nodes: nat, x: Slot)
    requires Invariant(w, nodes) && x in w.live
    ensures x.requested > 0
  {
    assert x == w.live[IndexOf(w.live, x)];
  }

  // ---------------------------------------------------------------- Runs

  function Started(w: World, page: nat): System {
    System(w, page, map[], map[], {}, {}, map[], iset{}, true)
  }

  lemma StartedOwned(base: nat, size: nat, gran: nat, nodes: nat, page: nat)
    requires base > 0 && size > 0 && gran > 0 && nodes > 0 && base % gran == 0 && page > 0 && gran % page == 0
    ensures Owned(Started(FreshWorld(base, size, gran, nodes), page), nodes)
    ensures PagesHeld(Started(FreshWorld(base, size, gran, nodes), page))
  {
    FreshInvariant(base, size, gran, nodes);
  }

  datatype Move = Move(t: int, a: Action)

  /** An interleaving: which thread moves next, and what it does. */
  ghost predicate IsInterleaving(ss: seq<System>, ms: seq<Move>) {
    && |ss| == |ms| + 1
    && forall i {:trigger ms[i]} | 0 <= i < |ms| ::
         && Enabled(ss[i], ms[i].t, ms[i].a)
         && ((ms[i].a.FreeRefused? || ms[i].a.GiveBack?) ==> ss[i].At(ms[i].t).slot in ss[i].world.live)
         && ss[i + 1] == Next(ss[i], ms[i].t, ms[i].a)
  }

  /** Safety over every interleaving of any number of threads. */
  lemma {:induction false} InterleavingOwned(ss: seq<System>, ms: seq<Move>, nodes: nat, i: nat)
    requires IsInterleaving(ss, ms) && Owned(ss[0], nodes) && i < |ss|
    ensures Owned(ss[i], nodes)
  {
    hide Owned;
    if i > 0 {
      InterleavingOwned(ss, ms, nodes, i - 1);
      OwnershipKept(ss[i - 1], ms[i - 1].t, ms[i - 1].a, nodes);
    }
  }

  /** In a run everybody always finds the pages they rely on if and only if no move ever releases the arena
      while somebody relies on pages. */
  lemma PagesThroughout(ss: seq<System>, ms: seq<Move>, nodes: nat)
    requires IsInterleaving(ss, ms) && Owned(ss[0], nodes) && PagesHeld(ss[0])
    ensures (forall i | 0 <= i <= |ms| :: ss[i].page > 0)
    ensures (forall i | 0 <= i <= |ms| :: PagesHeld(ss[i])) <==> (forall k | 0 <= k < |ms| :: !Fatal(ss[k], ms[k].a))
  {
    hide Invariant, SingleOwner, PagesHeld, Fatal, Next, Enabled;
    forall i | 0 <= i <= |ms| ensures ss[i].page > 0 { InterleavingOwned(ss, ms, nodes, i); }
    if forall k | 0 <= k < |ms| :: !Fatal(ss[k], ms[k].a) {
      forall i | 0 <= i <= |ms| ensures PagesHeld(ss[i]) { PagesUpTo(ss, ms, nodes, i); }
    }
    forall k | 0 <= k < |ms| && PagesHeld(ss[k]) && Fatal(ss[k], ms[k].a) ensures !PagesHeld(ss[k + 1]) {
      InterleavingOwned(ss, ms, nodes, k);
      PagesKeptExactly(ss[k], ms[k].t, ms[k].a, nodes);
    }
  }

  lemma {:induction false} PagesUpTo(ss: seq<System>, ms: seq<Move>, nodes: nat, i: nat)
    requires IsInterleaving(ss, ms) && Owned(ss[0], nodes) && PagesHeld(ss[0]) && i <= |ms|
    requires forall k | 0 <= k < i :: !Fatal(ss[k], ms[k].a)
    ensures ss[i].page > 0 && PagesHeld(ss[i])
  {
    hide Invariant, SingleOwner, PagesHeld, Fatal, Next, Enabled;
    InterleavingOwned(ss, ms, nodes, i);
    if i > 0 {
      PagesUpTo(ss, ms, nodes, i - 1);
      InterleavingOwned(ss, ms, nodes, i - 1);
      PagesKeptExactly(ss[i - 1], ms[i - 1].t, ms[i - 1].a, nodes);
    }
  }

  // ---------------------------------------------------------------- What ownership means

  /** Two threads never carry slots with a byte in common, so no two frees hand back the same memory. */
  lemma ThreadsApart(s: System, nodes: nat, t: int, u: int)
    requires Owned(s, nodes) && t != u && !s.At(t).Idle? && !s.At(u).Idle?
    ensures s.At(t).slot.addr != s.At(u).slot.addr
    ensures SlotBytes(s.At(t).slot, s.Gran()) !! SlotBytes(s.At(u).slot, s.Gran())
  {
    assert Holds(s, Thread(t), s.At(t).slot) && Holds(s, Thread(u), s.At(u).slot);
    SlotsApart(s.world, nodes, s.At(t).slot, s.At(u).slot);
  }

  /** The table a free looks its pointer up in. */
  function Table(s: System, a: Action): map<nat, nat>
    requires a.FreeRecorded? || a.FreeRedirected?
  {
    if a.FreeRecorded? then s.records else s.redirects
  }

  /** The move publishes a slot at `ptr` where the free `a` will find it. */
  predicate Publishes(s: System, m: Move, a: Action, ptr: nat) {
    && m.a.Publish? && s.At(m.t).Committed? && s.At(m.t).slot.addr == ptr
    && (if a.FreeRecorded? then s.At(m.t).use.Recorded? else s.At(m.t).use.Redirected?)
  }

  /** A pointer that was in no entry gets into one only by being published. */
  lemma {:induction false} EntryPublished(ss: seq<System>, ms: seq<Move>, a: Action, i: nat, j: nat) returns (k: nat)
    requires IsInterleaving(ss, ms) && i <= j <= |ms| && (a.FreeRecorded? || a.FreeRedirected?)
    requires a.ptr !in Table(ss[i], a) && a.ptr in Table(ss[j], a)
    ensures i <= k < j && Publishes(ss[k], ms[k], a, a.ptr)
  {
    hide Next, Enabled, Table, Publishes;
    if a.ptr in Table(ss[j - 1], a) {
      k := EntryPublished(ss, ms, a, i, j - 1);
    } else {
      k := j - 1;
      StepPublishes(ss[k], ms[k], a);
    }
  }

  lemma StepPublishes(s: System, m: Move, a: Action)
    requires Enabled(s, m.t, m.a) && ((m.a.FreeRefused? || m.a.GiveBack?) ==> s.At(m.t).slot in s.world.live)
    requires (a.FreeRecorded? || a.FreeRedirected?) && a.ptr !in Table(s, a) && a.ptr in Table(Next(s, m.t, m.a), a)
    ensures Publishes(s, m, a, a.ptr)
  {
    hide AllocStep, ReleaseStep, Allocate, SlotPages;
  }

  /** The thread has taken the slot `x` and not given it back. */
  predicate HasTaken(s: System, t: int, x: Slot) { s.At(t) == Pc.Taken(x) || s.At(t) == Decommitted(x) }

  lemma StepKeepsHands(s: System, u: int, a: Action, t: int, x: Slot)
    requires Enabled(s, u, a) && ((a.FreeRefused? || a.GiveBack?) ==> s.At(u).slot in s.world.live)
    requires HasTaken(s, t, x)
    ensures HasTaken(Next(s, u, a), t, x) || (u == t && a.GiveBack? && s.At(t).slot == x)
  {
    hide AllocStep, ReleaseStep, Allocate, SlotPages;
  }

  /** A thread keeps what it took until it gives it back. */
  lemma {:induction false} HandsKeep(ss: seq<System>, ms: seq<Move>, t: int, x: Slot, i: nat, j: nat) returns (g: nat)
    requires IsInterleaving(ss, ms) && i <= j <= |ms| && HasTaken(ss[i], t, x) && !HasTaken(ss[j], t, x)
    ensures i <= g < j && ms[g] == Move(t, GiveBack) && ss[g].At(t).slot == x
  {
    hide Next, HasTaken;
    if HasTaken(ss[j - 1], t, x) {
      g := j - 1;
      StepKeepsHands(ss[g], ms[g].t, ms[g].a, t, x);
    } else {
      g := HandsKeep(ss, ms, t, x, i, j - 1);
    }
  }

  /** Of racing frees of one pointer exactly one takes its entry, be it a record or a redirect: under any
      interleaving, before a second free finds the pointer again, the thread that took it first has given
      the slot back, and after that a slot at the same address has been granted and published anew. */
  lemma OneFreeTakes(ss: seq<System>, ms: seq<Move>, nodes: nat, i: nat, j: nat) returns (g: nat, k: nat)
    requires IsInterleaving(ss, ms) && Owned(ss[0], nodes) && i < j < |ms|
    requires Takes(ss[i], ms[i].a) && Takes(ss[j], ms[j].a) && ms[i].a.ptr == ms[j].a.ptr
    ensures i < g < k < j && Publishes(ss[k], ms[k], ms[j].a, ms[j].a.ptr)
    ensures ms[g] == Move(ms[i].t, GiveBack) && ss[g].At(ms[i].t).slot.addr == ms[i].a.ptr
  {
    hide Owned, Invariant;
    var a, t := ms[i].a, ms[i].t;
    assert ss[i + 1] == Next(ss[i], t, a);
    InterleavingOwned(ss, ms, nodes, i + 1);
    CarriedUntabled(ss[i + 1], nodes, t);
    k := EntryPublished(ss, ms, ms[j].a, i + 1, j);
    var x := ss[i + 1].At(t).slot;
    InterleavingOwned(ss, ms, nodes, k);
    if HasTaken(ss[k], t, x) { CarriedOnce(ss[k], nodes, t, ms[k].t); }
    g := HandsKeep(ss, ms, t, x, i + 1, k);
  }

  lemma CarriedUntabled(s: System, nodes: nat, t: int)
    requires Owned(s, nodes) && !s.At(t).Idle?
    ensures s.At(t).slot.addr !in s.records && s.At(t).slot.addr !in s.redirects
  {
    hide Invariant;
    FreshEntry(s, t, Record);
    FreshEntry(s, t, Redirect);
  }

  lemma CarriedOnce(s: System, nodes: nat, t: int, u: int)
    requires Owned(s, nodes) && !s.At(t).Idle? && !s.At(u).Idle? && s.At(t).slot.addr == s.At(u).slot.addr
    ensures t == u
  {
    hide Invariant;
    assert Holds(s, Thread(t), s.At(t).slot) && Holds(s, Thread(u), s.At(u).slot);
  }

  /** A thread that decommits leaves the pages of every published slot alone. */
  lemma DecommitSparesOthers(s: System, nodes: nat, t: int, o: Owner, x: Slot)
    requires Owned(s, nodes) && Enabled(s, t, Decommit) && Holds(s, o, x) && o != Thread(t)
    ensures Next(s, t, Decommit).committed * SlotBytes(x, s.Gran()) == s.committed * SlotBytes(x, s.Gran())
  {
    assert Holds(s, Thread(t), s.At(t).slot);
    SlotsApart(s.world, nodes, s.At(t).slot, x);
    PagesInSlot(s.world, nodes, s.At(t).slot, s.page);
  }

  /** A thread about to give a slot back has left no page of it committed, and nobody commits one meanwhile. */
  ghost predicate PagesGone(s: System)
    requires s.page > 0
  {
    forall t | s.At(t).Decommitted? :: SlotPages(s.At(t).slot, s.page) !! s.committed
  }

  lemma PagesStayGone(s: System, t: int, a: Action, nodes: nat)
    requires Owned(s, nodes) && PagesGone(s) && Enabled(s, t, a)
    ensures (a.FreeRefused? || a.GiveBack?) ==> s.At(t).slot in s.world.live
    ensures Next(s, t, a).page > 0 && PagesGone(Next(s, t, a))
  {
    hide Invariant, AllocStep, ReleaseStep, Allocate, SingleOwner, SlotPages;
    if a.FreeRefused? || a.GiveBack? { HandsBackLive(s, t, nodes); }
    var s' := Next(s, t, a);
    forall u | s'.At(u).Decommitted? ensures SlotPages(s'.At(u).slot, s'.page) !! s'.committed {
      if u == t {
        assert a.Decommit? || a.FreeUnseen?;
      } else {
        assert s'.At(u) == s.At(u);
        assert SlotPages(s.At(u).slot, s.page) !! s.committed;
        if a.Commit? { ApartPages(s, nodes, t, u); }
      }
    }
  }

  lemma ApartPages(s: System, nodes: nat, t: int, u: int)
    requires Owned(s, nodes) && t != u && !s.At(t).Idle? && !s.At(u).Idle?
    ensures SlotPages(s.At(t).slot, s.page) !! SlotPages(s.At(u).slot, s.page)
  {
    ThreadsApart(s, nodes, t, u);
    assert Holds(s, Thread(t), s.At(t).slot) && Holds(s, Thread(u), s.At(u).slot);
    hide Invariant, SlotPages, SlotBytes;
    PagesInSlot(s.world, nodes, s.At(t).slot, s.page);
    PagesInSlot(s.world, nodes, s.At(u).slot, s.page);
  }

  /** In every state of every interleaving from a start with idle threads, whoever gives a slot back next has
      decommitted all of it. */
  lemma {:induction false} GoneThroughout(ss: seq<System>, ms: seq<Move>, nodes: nat, i: nat)
    requires IsInterleaving(ss, ms) && Owned(ss[0], nodes) && (forall t :: ss[0].At(t).Idle?) && i < |ss|
    ensures ss[i].page > 0 && PagesGone(ss[i])
  {
    hide Next, Enabled;
    InterleavingOwned(ss, ms, nodes, i);
    if i > 0 {
      GoneThroughout(ss, ms, nodes, i - 1);
      InterleavingOwned(ss, ms, nodes, i - 1);
      hide Owned, PagesGone;
      PagesStayGone(ss[i - 1], ms[i - 1].t, ms[i - 1].a, nodes);
    }
  }

  /** Whenever a slot that was published is handed back to the arena, none of its pages is committed any more. */
  lemma GivesBackClean(ss: seq<System>, ms: seq<Move>, nodes: nat, k: nat)
    requires IsInterleaving(ss, ms) && Owned(ss[0], nodes) && (forall t :: ss[0].At(t).Idle?)
    requires k < |ms| && ms[k].a.GiveBack?
    ensures !ss[k].At(ms[k].t).Idle? && ss[k].page > 0
    ensures SlotPages(ss[k].At(ms[k].t).slot, ss[k].page) !! ss[k].committed
  {
    hide Next;
    GoneThroughout(ss, ms, nodes, k);
    assert ms[k] == ms[k];
  }

  /** The pages of a slot are decommitted before the arena can grant them again: while a thread is
      between taking an entry and giving the slot back, no request overlaps it. */
  lemma GrantAvoidsHands(s: System, nodes: nat, t: int, size: nat, fromTop: bool, use: Use, u: int)
    requires Owned(s, nodes) && Enabled(s, t, Request(size, fromTop, use)) && !s.At(u).Idle?
    requires !Requested(s, t, size, fromTop, use).At(t).Idle?
    ensures SlotBytes(Requested(s, t, size, fromTop, use).At(t).slot, s.Gran()) !! SlotBytes(s.At(u).slot, s.Gran())
  {
    var s' := Requested(s, t, size, fromTop, use);
    RequestKeeps(s, t, size, fromTop, use, nodes);
    StepGran(s.world, size, fromTop, nodes);
    ThreadsApart(s', nodes, t, u);
  }

  /** With every thread idle, each live slot is in exactly one of the tables. */
  lemma QuiescentTables(s: System, nodes: nat, x: Slot)
    requires Owned(s, nodes) && (forall t :: s.At(t).Idle?) && x in s.world.live
    ensures (x.addr in s.records && s.records[x.addr] == x.requested)
         || (x.addr in s.redirects && s.redirects[x.addr] == x.requested) || x in s.shards || x in s.dropped
    ensures x.addr in s.records ==> x.addr !in s.redirects && x !in s.shards && x !in s.dropped
    ensures x.addr in s.redirects ==> x !in s.shards && x !in s.dropped
    ensures x in s.shards ==> x !in s.dropped
  {
    var o :| Holds(s, o, x);
    if x.addr in s.records {
      assert Holds(s, Record, Slot(x.addr, s.records[x.addr]));
    }
    if x.addr in s.redirects {
      assert Holds(s, Redirect, Slot(x.addr, s.redirects[x.addr]));
    }
    if x in s.shards {
      assert Holds(s, ShardHeap, x);
    }
    if x in s.dropped {
      assert Holds(s, Nobody, x);
    }
  }

  /** The move publishes the redirected slot `x` to a full table. */
  predicate Drops(s: System, m: Move, x: Slot) {
    m.a.Publish? && s.At(m.t) == Pc.Committed(x, Redirected) && |s.redirects| >= REDIRECT_CAPACITY
  }

  lemma DropStep(s: System, m: Move, x: Slot)
    requires Enabled(s, m.t, m.a) && ((m.a.FreeRefused? || m.a.GiveBack?) ==> s.At(m.t).slot in s.world.live)
    ensures x in Next(s, m.t, m.a).dropped <==> x in s.dropped || Drops(s, m, x)
  {
    hide AllocStep, ReleaseStep, Allocate, SlotPages, AlignUp;
    match m.a {
      case Publish(ok) => assert Next(s, m.t, m.a) == Published(s, m.t, ok);
      case Request(_, _, _) =>
      case Commit(_) =>
      case FreeRefused =>
      case FreeRecorded(_) =>
      case FreeRedirected(_) =>
      case FreeUnseen(_) =>
      case Decommit =>
      case GiveBack =>
    }
  }

  /** The slots the redirect table forgot are those published to it when it was full, and no others; each
      stays granted for ever, and no free of its address ever takes it: a release of it is left to the
      system, which at the base of the arena releases all of it. */
  lemma {:induction false} ForgottenForEver(ss: seq<System>, ms: seq<Move>, nodes: nat, n: nat, x: Slot)
    requires IsInterleaving(ss, ms) && Owned(ss[0], nodes) && ss[0].dropped == {} && n <= |ms|
    ensures x in ss[n].dropped <==> exists i :: 0 <= i < n && Drops(ss[i], ms[i], x)
    ensures x in ss[n].dropped ==>
      && x in ss[n].world.live && x.addr !in ss[n].records && x.addr !in ss[n].redirects
      && (Releases(ss[n], FreeRedirected(x.addr)) <==> ss[n].reserved && x.addr == ss[n].world.arena.base)
  {
    hide Owned, Next, Drops;
    if n > 0 {
      ForgottenForEver(ss, ms, nodes, n - 1, x);
      DropStep(ss[n - 1], ms[n - 1], x);
    }
    InterleavingOwned(ss, ms, nodes, n);
    if x in ss[n].dropped { ForgottenAlone(ss[n], nodes, x); }
  }

  lemma ForgottenAlone(s: System, nodes: nat, x: Slot)
    requires Owned(s, nodes) && x in s.dropped
    ensures x in s.world.live && x.addr !in s.records && x.addr !in s.redirects
  {
    hide Invariant;
    assert Holds(s, Nobody, x);
    forall a | a in s.records ensures a != x.addr { assert Holds(s, Record, Slot(a, s.records[a])); }
    forall a | a in s.redirects ensures a != x.addr { assert Holds(s, Redirect, Slot(a, s.redirects[a])); }
  }
}
