/** What the allocator's operations do to the node pool, composed from single pointer manipulations,
    and the proof that they are the operations of ArenaModel on what the lists hold. */
module HeapOps {
  import opened Spans
  import opened ArenaModel
  import opened NodeLists
  import opened NodeHeap

  /** Exactly the nodes of `s` are in hand. */
  ghost predicate Hands(h: Heap, s: set<int>) {
    forall j {:trigger h.place[j].list} | 0 <= j < |h.place| :: h.place[j].list == LOOSE <==> j in s
  }

  function Classes(cs: seq<Cache>): (r: seq<SizeClass>)
    ensures |r| == |cs|
    ensures forall i | 0 <= i < |cs| :: r[i] == SizeClass(cs[i].classSize, cs[i].blocks)
  {
    seq(|cs|, i requires 0 <= i < |cs| => SizeClass(cs[i].classSize, cs[i].blocks))
  }

  // ---------------------------------------------------------------- Coalescing

  function Joint(h: Heap, k: nat): Span
    requires k + 1 < |h.spans|
  {
    Span(h.spans[k].addr, h.spans[k].size + h.spans[k + 1].size)
  }

  /** The block at `k` absorbs its successor, whose node comes to hand. */
  function Absorbed(h: Heap, k: nat): Heap
    requires FreeIndexed(h, k) && FreeIndexed(h, k + 1)
  {
    Bypassed(Resized(h, k, Joint(h, k)), k + 1)
  }

  lemma CanAbsorb(h: Heap, k: nat)
    requires FreeGood(h) && k + 1 < |h.free|
    ensures FreeIndexed(h, k) && FreeIndexed(h, k + 1)
  {
    FreeIndex(h, k);
    FreeIndex(h, k + 1);
  }

  lemma JointAddress(h: Heap, k: nat)
    requires Good(h) && k + 1 < |h.free|
    ensures k + 1 < |h.spans| && Joint(h, k).addr > 0
  {
    FreeIndex(h, k);
  }

  lemma AbsorbedGood(h: Heap, k: nat)
    requires Good(h) && FreeIndexed(h, k) && FreeIndexed(h, k + 1)
    ensures Good(Absorbed(h, k)) && InHand(Absorbed(h, k), h.free[k + 1])
  {
    hide Good;
    JointAddress(h, k);
    ResizedGood(h, k, Joint(h, k));
    BypassedGood(Resized(h, k, Joint(h, k)), k + 1);
  }

  predicate CanMerge(h: Heap, k: nat) {
    FreeIndexed(h, k) && FreeIndexed(h, k + 1) && InHand(Absorbed(h, k), h.free[k + 1])
  }

  /** ... and becomes spare. */
  function Merged(h: Heap, k: nat): Heap
    requires CanMerge(h, k)
  {
    Pushed(Absorbed(h, k), h.free[k + 1])
  }

  lemma MergeReady(h: Heap, k: nat)
    requires Good(h) && k + 1 < |h.free|
    ensures CanMerge(h, k)
  {
    CanAbsorb(h, k);
    AbsorbedGood(h, k);
  }

  lemma MergedGood(h: Heap, k: nat)
    requires Good(h) && CanMerge(h, k)
    ensures Good(Merged(h, k))
  {
    AbsorbedGood(h, k);
    PushedGood(Absorbed(h, k), h.free[k + 1]);
  }

  lemma MergedEffect(h: Heap, k: nat)
    requires CanMerge(h, k)
    ensures var h' := Merged(h, k);
      && h'.spans == h.spans[..k] + [Joint(h, k)] + h.spans[k + 2..]
      && |h'.free| == |h.free| - 1 && |h'.spare| == |h.spare| + 1
      && h'.caches == h.caches && |h'.mem| == |h.mem|
  {
  }

  lemma MergedPlace(h: Heap, k: nat, j: nat)
    requires CanMerge(h, k) && j < |h.place| && h.place[h.free[k + 1]].list == FREE
    ensures Merged(h, k).place[j].list == LOOSE <==> h.place[j].list == LOOSE
  {
  }

  lemma AbsorbedNode(h: Heap, k: nat)
    requires Good(h) && k + 1 < |h.free|
    ensures 0 <= h.free[k + 1] < |h.place| && h.place[h.free[k + 1]].list == FREE
  {
    FreeIndex(h, k + 1);
  }

  lemma MergedHands(h: Heap, k: nat, s: set<int>)
    requires Good(h) && CanMerge(h, k) && Hands(h, s)
    ensures Hands(Merged(h, k), s)
  {
    hide Good;
    AbsorbedNode(h, k);
    forall j | 0 <= j < |h.place| ensures Merged(h, k).place[j].list == LOOSE <==> j in s {
      MergedPlace(h, k, j);
      assert h.place[j].list == LOOSE <==> j in s;
    }
  }

  ghost function CoalescedFrom(h: Heap, k: nat): (r: Heap)
    requires Good(h)
    ensures Good(r)
    decreases |h.free| - k
  {
    if k + 1 >= |h.free| || |h.spans| != |h.free| then h
    else if h.spans[k].End() == h.spans[k + 1].addr then
      MergeReady(h, k);
      MergedGood(h, k);
      MergedEffect(h, k);
      CoalescedFrom(Merged(h, k), k)
    else CoalescedFrom(h, k + 1)
  }

  ghost predicate SameNodes(h: Heap, h': Heap) {
    |h'.spare| + |h'.spans| == |h.spare| + |h.spans| && h'.caches == h.caches && |h'.mem| == |h.mem|
  }

  lemma MergeStep(h: Heap, k: nat)
    requires Good(h) && k + 1 < |h.spans| && h.spans[k].End() == h.spans[k + 1].addr
    ensures CanMerge(h, k) && Good(Merged(h, k))
    ensures CoalescedFrom(h, k) == CoalescedFrom(Merged(h, k), k)
    ensures |Merged(h, k).spans| == |h.spans| - 1
  {
    SpansMatch(h);
    MergeReady(h, k);
    MergedGood(h, k);
    SpansMatch(Merged(h, k));
    MergedEffect(h, k);
  }

  lemma {:induction false} CoalescedSpans(h: Heap, k: nat)
    requires Good(h) && k <= |h.spans|
    ensures CoalescedFrom(h, k).spans == h.spans[..k] + Coalesce(h.spans[k..])
    decreases |h.spans| - k
  {
    hide Good;
    SpansMatch(h);
    if k + 1 >= |h.spans| {
    } else if h.spans[k].End() == h.spans[k + 1].addr {
      MergeStep(h, k);
      MergedEffect(h, k);
      CoalescedSpans(Merged(h, k), k);
      CoalesceMerge(h.spans, Merged(h, k).spans, k, Joint(h, k));
    } else {
      CoalescedSpans(h, k + 1);
      CoalesceSkip(h.spans, k);
    }
  }

  lemma {:induction false} CoalescedNodes(h: Heap, k: nat, s: set<int>)
    requires Good(h) && Hands(h, s) && k <= |h.spans|
    ensures SameNodes(h, CoalescedFrom(h, k)) && Hands(CoalescedFrom(h, k), s)
    decreases |h.spans| - k
  {
    hide Good;
    SpansMatch(h);
    if k + 1 >= |h.spans| {
    } else if h.spans[k].End() == h.spans[k + 1].addr {
      MergeStep(h, k);
      MergedEffect(h, k);
      MergedHands(h, k, s);
      CoalescedNodes(Merged(h, k), k, s);
    } else {
      CoalescedNodes(h, k + 1, s);
    }
  }

  lemma SpansMatch(h: Heap)
    requires Good(h)
    ensures |h.spans| == |h.free|
  {
  }

  lemma CoalesceMerge(s: seq<Span>, t: seq<Span>, k: nat, m: Span)
    requires k + 1 < |s| && s[k].End() == s[k + 1].addr && m == Span(s[k].addr, s[k].size + s[k + 1].size)
    requires t == s[..k] + [m] + s[k + 2..]
    ensures t[..k] + Coalesce(t[k..]) == s[..k] + Coalesce(s[k..])
  {
    assert t[k..] == [m] + s[k..][2..];
    assert t[..k] == s[..k];
  }

  lemma CoalesceSkip(s: seq<Span>, k: nat)
    requires k + 1 < |s| && s[k].End() != s[k + 1].addr
    ensures s[..k + 1] + Coalesce(s[k + 1..]) == s[..k] + Coalesce(s[k..])
  {
    assert s[k..][1..] == s[k + 1..];
    assert s[..k + 1] == s[..k] + [s[k]];
  }

  // ---------------------------------------------------------------- Insertion

  ghost function Inserted(h: Heap, addr: nat, size: nat): (r: Heap)
    requires Good(h) && addr > 0
    ensures Good(r)
  {
    if h.spare == [] then h
    else
      PoppedGood(h);
      FilledGood(Popped(h), h.spareHead, addr, size);
      LinkedSortedGood(Filled(Popped(h), h.spareHead, addr, size), h.spareHead);
      CoalescedFrom(LinkedSorted(Filled(Popped(h), h.spareHead, addr, size), h.spareHead), 0)
  }

  lemma LinkedEffect(h: Heap, n: int, s: set<int>)
    requires Good(h) && InHand(h, n) && h.mem[n].address > 0 && Hands(h, s)
    ensures Linkable(h, n)
    ensures var h' := LinkedSorted(h, n);
      && h'.spans == InsertAt(h.spans, Span(h.mem[n].address, h.mem[n].size))
      && h'.spare == h.spare && h'.caches == h.caches && |h'.mem| == |h.mem| && Hands(h', s - {n})
  {
    CanLink(h, n);
  }

  lemma PoppedHands(h: Heap, addr: nat, size: nat, s: set<int>)
    requires Good(h) && h.spare != [] && Hands(h, s)
    ensures 0 <= h.spareHead < |h.mem| == |h.place| && h.spareHead !in s
    ensures Hands(Filled(Popped(h), h.spareHead, addr, size), s + {h.spareHead})
  {
    SpareHead(h);
    assert h.place[h.spareHead].list == LOOSE <==> h.spareHead in s;
  }

  /** A pointer-level insertion is the model's insertion. */
  lemma InsertedEffect(h: Heap, addr: nat, size: nat, s: set<int>)
    requires Good(h) && addr > 0 && Hands(h, s)
    ensures var r := Inserted(h, addr, size);
      && SameNodes(h, r) && Hands(r, s)
      && (h.spare == [] ==> r == h)
      && (h.spare != [] ==> r.spans == InsertAndCoalesce(h.spans, Span(addr, size)))
  {
    hide Good;
    if h.spare != [] {
      var n := h.spareHead;
      PoppedGood(h);
      var filled := Filled(Popped(h), n, addr, size);
      FilledGood(Popped(h), n, addr, size);
      PoppedHands(h, addr, size, s);
      LinkedSortedGood(filled, n);
      LinkedEffect(filled, n, s + {n});
      assert s + {n} - {n} == s;
      var linked := LinkedSorted(filled, n);
      CoalescedSpans(linked, 0);
      CoalescedNodes(linked, 0, s);
      assert linked.spans[..0] == [] && linked.spans[0..] == linked.spans;
    }
  }

  // ---------------------------------------------------------------- Taking

  /** What is left of a block after `need` bytes have been carved from its end or its start. */
  function Remainder(r: Span, need: nat, fromTop: bool): Span
    requires need <= r.size
  {
    if fromTop then Span(r.addr, r.size - need) else Span(r.addr + need, r.size - need)
  }

  lemma AddressPositive(h: Heap, k: nat)
    requires Good(h) && k < |h.spans|
    ensures h.spans[k].addr > 0 && |h.spans| == |h.free|
  {
    FreeIndex(h, k);
  }

  ghost function TakenHeap(h: Heap, need: nat, gran: nat, fromTop: bool): (r: Heap)
    requires Good(h)
    ensures Good(r)
  {
    var k := FitIndex(h.spans, need, fromTop);
    if k == |h.spans| then h
    else
      AddressPositive(h, k);
      if h.spans[k].size - need < gran then
        BypassedGood(h, k);
        DetachedGood(Bypassed(h, k), h.free[k]);
        Detached(Bypassed(h, k), h.free[k])
      else
        ResizedGood(h, k, Remainder(h.spans[k], need, fromTop));
        Resized(h, k, Remainder(h.spans[k], need, fromTop))
  }

  lemma BypassedEffect(h: Heap, k: nat, s: set<int>)
    requires Good(h) && k < |h.free| && Hands(h, s)
    ensures FreeIndexed(h, k) && (k > 0 ==> FreeIndexed(h, k - 1)) && h.free[k] !in s
    ensures var r := Detached(Bypassed(h, k), h.free[k]);
      && InHand(r, h.free[k]) && Hands(r, s + {h.free[k]})
  {
    CanBypass(h, k);
    FreeIndex(h, k);
    assert h.place[h.free[k]].list == LOOSE <==> h.free[k] in s;
  }

  /** A pointer-level fit search takes what the model's takes, and leaves a whole node in hand. */
  lemma TakenEffect(h: Heap, need: nat, gran: nat, fromTop: bool, s: set<int>)
    requires Good(h) && Hands(h, s)
    ensures var r, t, k := TakenHeap(h, need, gran, fromTop), TakeFit(h.spans, need, gran, fromTop), FitIndex(h.spans, need, fromTop);
      && |h.free| == |h.spans|
      && r.caches == h.caches && r.spare == h.spare && |r.mem| == |h.mem|
      && (t.None? ==> r == h)
      && (t.Some? ==>
            && r.spans == t.value.rest
            && (if t.value.whole then InHand(r, h.free[k]) && h.free[k] !in s && Hands(r, s + {h.free[k]}) else Hands(r, s)))
  {
    hide Good;
    var k := FitIndex(h.spans, need, fromTop);
    SpansMatch(h);
    if k < |h.spans| {
      AddressPositive(h, k);
      if h.spans[k].size - need < gran {
        BypassedEffect(h, k, s);
      } else {
        ResizedReady(h, k);
      }
    }
  }

  lemma ResizedReady(h: Heap, k: nat)
    requires Good(h) && k < |h.free|
    ensures FreeIndexed(h, k)
  {
    FreeIndex(h, k);
  }

  // ---------------------------------------------------------------- Caches

  predicate CanDrop(h: Heap, i: nat) {
    && i < |h.caches| && h.caches[i].nodes != [] && h.caches[i].blocks != []
    && 0 <= h.caches[i].head < |h.mem| == |h.place|
  }

  lemma DropReady(h: Heap, i: nat)
    requires Good(h) && i < |h.caches|
    ensures |h.caches[i].nodes| == |h.caches[i].blocks|
    ensures h.caches[i].head == NULL <==> h.caches[i].nodes == []
    ensures h.caches[i].nodes != [] ==> CanDrop(h, i) && h.place[h.caches[i].head].list == i
    ensures h.caches[i].nodes != [] ==>
      && h.mem[h.caches[i].head].address == h.caches[i].blocks[0].addr > 0
      && h.mem[h.caches[i].head].size == h.caches[i].blocks[0].size
  {
    CacheTop(h, i);
  }

  lemma DroppedEffect(h: Heap, i: nat, s: set<int>)
    requires Good(h) && i < |h.caches| && h.caches[i].nodes != [] && Hands(h, s)
    ensures CanDrop(h, i)
    ensures var r, c := Dropped(h, i), h.caches[i];
      && Good(r) && InHand(r, c.head) && c.head !in s && Hands(r, s + {c.head})
      && Classes(r.caches) == Classes(h.caches)[i := SizeClass(c.classSize, c.blocks[1..])]
  {
    hide Good;
    DropReady(h, i);
    DroppedGood(h, i);
    assert h.place[h.caches[i].head].list == LOOSE <==> h.caches[i].head in s;
  }

  /** Put a block into cache `i`, with the top spare node. */
  ghost function StoredBlock(h: Heap, i: nat, addr: nat, size: nat): (r: Heap)
    requires Good(h) && h.spare != [] && i < |h.caches| && addr > 0
    ensures Good(r)
  {
    PoppedGood(h);
    FilledGood(Popped(h), h.spareHead, addr, size);
    StoredGood(Filled(Popped(h), h.spareHead, addr, size), i, h.spareHead);
    Stored(Filled(Popped(h), h.spareHead, addr, size), i, h.spareHead)
  }

  lemma StoredEffect(h: Heap, i: nat, addr: nat, size: nat, s: set<int>)
    requires Good(h) && h.spare != [] && i < |h.caches| && addr > 0 && Hands(h, s)
    ensures var r, c := StoredBlock(h, i, addr, size), h.caches[i];
      && Hands(r, s) && r.spans == h.spans && |r.spare| == |h.spare| - 1 && |r.mem| == |h.mem|
      && Classes(r.caches) == Classes(h.caches)[i := SizeClass(c.classSize, [Span(addr, size)] + c.blocks)]
  {
    hide Good;
    PoppedGood(h);
    PoppedHands(h, addr, size, s);
    FilledGood(Popped(h), h.spareHead, addr, size);
  }

  lemma OpenedEffect(h: Heap, size: nat)
    ensures Classes(Opened(h, size).caches) == Classes(h.caches) + [SizeClass(size, [])]
  {
  }

  // ---------------------------------------------------------------- Reclaiming

  /** Move the top block of cache `i` to the free list and its node to the spare list. */
  ghost function DrainedOnce(h: Heap, i: nat): (r: Heap)
    requires Good(h) && i < |h.caches| && h.caches[i].nodes != []
    ensures Good(r)
  {
    DropReady(h, i);
    var b, n := h.caches[i].blocks[0], h.caches[i].head;
    var f := Inserted(h, b.addr, b.size);
    InsertedCaches(h, b.addr, b.size);
    DroppedGood(f, i);
    PushedGood(Dropped(f, i), n);
    Pushed(Dropped(f, i), n)
  }

  lemma InsertedCaches(h: Heap, addr: nat, size: nat)
    requires Good(h) && addr > 0
    ensures Inserted(h, addr, size).caches == h.caches
  {
    InsertedEffect(h, addr, size, set j | 0 <= j < |h.place| && h.place[j].list == LOOSE);
  }

  lemma DrainedOnceEffect(h: Heap, i: nat, s: set<int>)
    requires Good(h) && i < |h.caches| && h.caches[i].nodes != [] && Hands(h, s)
    ensures |h.caches[i].nodes| == |h.caches[i].blocks| && h.caches[i].blocks[0].addr > 0
    ensures var r, c := DrainedOnce(h, i), h.caches[i];
      var f := Inserted(h, c.blocks[0].addr, c.blocks[0].size);
      && r.spans == f.spans && |r.spare| == |f.spare| + 1 && |r.mem| == |h.mem| && Hands(r, s)
      && |r.caches| == |h.caches| && r.caches[i].nodes == c.nodes[1..]
      && Classes(r.caches) == Classes(h.caches)[i := SizeClass(c.classSize, c.blocks[1..])]
  {
    hide Good;
    DropReady(h, i);
    var b, n := h.caches[i].blocks[0], h.caches[i].head;
    var f := Inserted(h, b.addr, b.size);
    InsertedEffect(h, b.addr, b.size, s);
    DroppedEffect(f, i, s);
    PushedHands(Dropped(f, i), n, s);
  }

  lemma PushedHands(h: Heap, n: int, s: set<int>)
    requires InHand(h, n) && n !in s && Hands(h, s + {n})
    ensures Hands(Pushed(h, n), s)
  {
    forall j | 0 <= j < |h.place| ensures Pushed(h, n).place[j].list == LOOSE <==> j in s {
      assert h.place[j].list == LOOSE <==> j in s + {n};
    }
  }

  ghost function Drained(h: Heap, i: nat): (r: Heap)
    requires Good(h) && i < |h.caches|
    ensures Good(r)
    decreases |h.caches[i].nodes|
  {
    if h.caches[i].nodes == [] then h
    else
      DrainedOnceEffect(h, i, set j | 0 <= j < |h.place| && h.place[j].list == LOOSE);
      Drained(DrainedOnce(h, i), i)
  }

  ghost function ReclaimedFrom(h: Heap, i: nat): (r: Heap)
    requires Good(h) && i <= |h.caches|
    ensures Good(r)
    decreases |h.caches| - i
  {
    if i == |h.caches| then h
    else
      DrainedCount(h, i);
      ReclaimedFrom(Drained(h, i), i + 1)
  }

  lemma {:induction false} DrainedCount(h: Heap, i: nat)
    requires Good(h) && i < |h.caches|
    ensures |Drained(h, i).caches| == |h.caches|
    decreases |h.caches[i].nodes|
  {
    hide Good;
    if h.caches[i].nodes != [] {
      DrainedOnceEffect(h, i, set j | 0 <= j < |h.place| && h.place[j].list == LOOSE);
      DrainedCount(DrainedOnce(h, i), i);
    }
  }

  /** The arena `a` has the free list and the spare nodes of `h`. */
  ghost predicate Shows(a: Arena, h: Heap) {
    a.free == h.spans && a.spare == |h.spare|
  }

  lemma ShowsDrainOne(a: Arena, h: Heap, b: Span)
    requires Good(h) && Shows(a, h) && b.addr > 0
    ensures var f, d := Inserted(h, b.addr, b.size), DrainOne(a, b);
      d.free == f.spans && d.spare == |f.spare| + 1
  {
    hide Good;
    InsertedEffect(h, b.addr, b.size, set j | 0 <= j < |h.place| && h.place[j].list == LOOSE);
  }

  /** Draining a cache node by node is the model's drain of its blocks. */
  lemma {:induction false} DrainedEffect(h: Heap, i: nat, a: Arena, s: set<int>)
    requires Good(h) && i < |h.caches| && Shows(a, h) && Hands(h, s)
    ensures var r := Drained(h, i);
      && Shows(Drain(a, h.caches[i].blocks), r) && Hands(r, s) && |r.mem| == |h.mem|
      && Classes(r.caches) == Classes(h.caches)[i := SizeClass(h.caches[i].classSize, [])]
    decreases |h.caches[i].nodes|
  {
    hide Good;
    DropReady(h, i);
    if h.caches[i].nodes == [] {
      assert Classes(h.caches)[i] == SizeClass(h.caches[i].classSize, []);
    } else {
      var b := h.caches[i].blocks[0];
      DrainedOnceEffect(h, i, s);
      InsertedEffect(h, b.addr, b.size, s);
      var once := DrainedOnce(h, i);
      ShowsDrainOne(a, h, b);
      assert Classes(once.caches)[i] == SizeClass(h.caches[i].classSize, h.caches[i].blocks[1..]);
      DrainedEffect(once, i, DrainOne(a, b), s);
    }
  }

  lemma {:induction false} DrainConcat(a: Arena, q: seq<Span>, r: seq<Span>)
    ensures Drain(a, q + r) == Drain(Drain(a, q), r)
    decreases |q|
  {
    hide DrainOne;
    if q == [] {
      assert q + r == r;
    } else {
      assert (q + r)[1..] == q[1..] + r;
      DrainConcat(DrainOne(a, q[0]), q[1..], r);
    }
  }

  /** The cached bytes a drain leaves on the books. */
  function DrainBytes(cached: nat, q: seq<Span>): nat {
    if q == [] then cached else DrainBytes(Less(cached, q[0].size), q[1..])
  }

  lemma {:induction false} DrainBytesIsDrain(a: Arena, q: seq<Span>)
    ensures Drain(a, q).cachedBytes == DrainBytes(a.cachedBytes, q)
    decreases |q|
  {
    if q != [] {
      DrainBytesIsDrain(DrainOne(a, q[0]), q[1..]);
    }
  }

  /** The classes with those from `i` on emptied. */
  function EmptiedFrom(cs: seq<SizeClass>, i: nat): (r: seq<SizeClass>)
    ensures |r| == |cs|
  {
    seq(|cs|, j requires 0 <= j < |cs| => if j < i then cs[j] else SizeClass(cs[j].classSize, []))
  }

  /** Reclaiming class by class is the model's drain of all cached blocks. */
  lemma {:induction false} ReclaimedEffect(h: Heap, i: nat, a: Arena, s: set<int>)
    requires Good(h) && i <= |h.caches| && Shows(a, h) && Hands(h, s)
    ensures var r := ReclaimedFrom(h, i);
      && Shows(Drain(a, Cached(Classes(h.caches)[i..])), r) && Hands(r, s) && |r.mem| == |h.mem|
      && Classes(r.caches) == EmptiedFrom(Classes(h.caches), i)
    decreases |h.caches| - i
  {
    hide Good;
    var cs := Classes(h.caches);
    if i == |h.caches| {
      assert EmptiedFrom(cs, i) == cs;
    } else {
      var blocks := h.caches[i].blocks;
      DrainedCount(h, i);
      DrainedEffect(h, i, a, s);
      var d := Drained(h, i);
      ReclaimedEffect(d, i + 1, Drain(a, blocks), s);
      assert cs[i..][0] == cs[i] && cs[i..][1..] == cs[i + 1..] && Classes(d.caches)[i + 1..] == cs[i + 1..];
      DrainConcat(a, blocks, Cached(cs[i + 1..]));
      assert EmptiedFrom(Classes(d.caches), i + 1) == EmptiedFrom(cs, i);
    }
  }

  lemma {:induction false} DrainBytesConcat(c: nat, q: seq<Span>, r: seq<Span>)
    ensures DrainBytes(c, q + r) == DrainBytes(DrainBytes(c, q), r)
    decreases |q|
  {
    if q == [] {
      assert q + r == r;
    } else {
      assert (q + r)[1..] == q[1..] + r;
      DrainBytesConcat(Less(c, q[0].size), q[1..], r);
    }
  }

  // ---------------------------------------------------------------- The arena a pool amounts to

  /** `a` with the lists of `h`. */
  function Over(a: Arena, h: Heap): Arena {
    a.(free := h.spans, classes := Classes(h.caches), spare := |h.spare|)
  }

  /** Well linked, and no node in hand. */
  ghost predicate Settled(h: Heap) {
    Good(h) && Hands(h, {})
  }

  lemma InsertedModel(h: Heap, a: Arena, addr: nat, size: nat)
    requires Settled(h) && addr > 0
    ensures Settled(Inserted(h, addr, size))
    ensures Over(a, Inserted(h, addr, size)) == ArenaModel.Insert(Over(a, h), Span(addr, size))
  {
    hide Good;
    InsertedEffect(h, addr, size, {});
  }

  /** A fit search, once the node it took has been given back. */
  ghost function Fitted(h: Heap, need: nat, gran: nat, fromTop: bool): Heap
    requires Settled(h)
  {
    TakenEffect(h, need, gran, fromTop, {});
    var k, r := FitIndex(h.spans, need, fromTop), TakenHeap(h, need, gran, fromTop);
    match TakeFit(h.spans, need, gran, fromTop)
    case None => r
    case Some(t) => if t.whole then Pushed(r, h.free[k]) else r
  }

  lemma FittedModel(h: Heap, a: Arena, need: nat, fromTop: bool)
    requires Settled(h)
    ensures var r := Fitted(h, need, a.gran, fromTop);
      && Settled(r)
      && ArenaModel.Fit(Over(a, h), need, fromTop).0 == Over(a, r)
  {
    hide Good;
    TakenEffect(h, need, a.gran, fromTop, {});
    var k, r := FitIndex(h.spans, need, fromTop), TakenHeap(h, need, a.gran, fromTop);
    var t := TakeFit(h.spans, need, a.gran, fromTop);
    if t.Some? && t.value.whole {
      PushedGood(r, h.free[k]);
      assert {} + {h.free[k]} == {h.free[k]};
      PushedHands(r, h.free[k], {});
    }
  }

  /** The top of cache `i` reused and its node given back. */
  ghost function Reused(h: Heap, i: nat): Heap
    requires CanDrop(h, i)
  {
    Pushed(Detached(Dropped(h, i), h.caches[i].head), h.caches[i].head)
  }

  lemma ReusedModel(h: Heap, a: Arena, i: nat)
    requires Settled(h) && i < |h.caches| && h.caches[i].nodes != []
    ensures CanDrop(h, i) && Classes(h.caches)[i].blocks != []
    ensures Settled(Reused(h, i))
    ensures var r := Reuse(Over(a, h), i).0; Over(r, Reused(h, i)) == r
  {
    hide Good;
    DropReady(h, i);
    var n := h.caches[i].head;
    DroppedEffect(h, i, {});
    assert {} + {n} == {n};
    DetachedGood(Dropped(h, i), n);
    PushedGood(Detached(Dropped(h, i), n), n);
    PushedHands(Detached(Dropped(h, i), n), n, {});
  }

  lemma ReclaimedModel(h: Heap, a: Arena)
    requires Settled(h)
    ensures var r := ReclaimedFrom(h, 0);
      && Settled(r)
      && Over(a, r).(cachedBytes := DrainBytes(a.cachedBytes, Cached(Classes(h.caches)))) == Reclaim(Over(a, h))
  {
    hide Good;
    var cs := Classes(h.caches);
    ReclaimedEffect(h, 0, Over(a, h), {});
    assert cs[0..] == cs;
    DrainBytesIsDrain(Over(a, h), Cached(cs));
    assert EmptiedFrom(cs, 0) == Emptied(cs);
  }

  // ---------------------------------------------------------------- Caching a block

  /** The caches in which a block of this size is looked for, after a class may have been opened for it. */
  function WithClass(h: Heap, size: nat): Heap {
    var k := ClassIndex(Classes(h.caches), 0, size);
    if k == |h.caches| && k < MAX_SIZE_CLASSES then Opened(h, size) else h
  }

  predicate PushesBlock(h: Heap, size: nat) {
    var k, o := ClassIndex(Classes(h.caches), 0, size), WithClass(h, size);
    k < |o.caches| && |o.caches[k].nodes| < MAX_CACHED_PER_CLASS && h.spare != []
  }

  /** What offering a freed block to its cache does to the pool. */
  ghost function PushedBlock(h: Heap, addr: nat, size: nat): (r: Heap)
    requires Good(h) && addr > 0
    ensures Good(r)
  {
    OpenedGood(h, size);
    if PushesBlock(h, size) then StoredBlock(WithClass(h, size), ClassIndex(Classes(h.caches), 0, size), addr, size)
    else WithClass(h, size)
  }

  lemma WithClassEffect(h: Heap, size: nat)
    requires Settled(h)
    ensures var k, o := ClassIndex(Classes(h.caches), 0, size), WithClass(h, size);
      && Settled(o) && o.spans == h.spans && o.spare == h.spare
      && Classes(o.caches) == (if k == |h.caches| && k < MAX_SIZE_CLASSES then Classes(h.caches) + [SizeClass(size, [])] else Classes(h.caches))
      && (k < |o.caches| ==> o.caches[k].classSize == size && |o.caches[k].nodes| == |o.caches[k].blocks|)
  {
    hide Good;
    var k := ClassIndex(Classes(h.caches), 0, size);
    OpenedGood(h, size);
    OpenedEffect(h, size);
    var o := WithClass(h, size);
    if k < |o.caches| {
      DropReady(o, k);
    }
  }

  lemma PushedBlockModel(h: Heap, a: Arena, addr: nat, size: nat)
    requires Settled(h) && addr > 0
    ensures Settled(PushedBlock(h, addr, size))
    ensures Push(Over(a, h), Span(addr, size)) == (Over(a, PushedBlock(h, addr, size)), PushesBlock(h, size))
  {
    hide Good;
    WithClassEffect(h, size);
    var k, o := ClassIndex(Classes(h.caches), 0, size), WithClass(h, size);
    if PushesBlock(h, size) {
      StoredEffect(o, k, addr, size, {});
    }
  }
}
