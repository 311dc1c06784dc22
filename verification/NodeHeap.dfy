/** The node pool with all lists threaded through it, and what each pointer manipulation of the
    allocator does to it.  `Good` says that the lists are well linked, hold what they should, and that
    every node is on the one list its place names. */
module NodeHeap {
  import opened Spans
  import opened NodeLists

  /** A size-class cache: its nodes from the head down, and the blocks they hold. */
  datatype Cache = Cache(classSize: nat, head: int, nodes: seq<int>, blocks: seq<Span>)

  datatype Heap = Heap(
    mem: seq<Node>, place: seq<Place>,
    spareHead: int, spare: seq<int>,
    freeHead: int, free: seq<int>, spans: seq<Span>,
    caches: seq<Cache>)

  ghost predicate CacheGood(h: Heap, k: int)
    requires 0 <= k < |h.caches|
  {
    var c := h.caches[k];
    List(h.mem, h.place, k, c.head, c.nodes) && Holds(h.mem, c.nodes, c.blocks)
  }

  ghost predicate FreeGood(h: Heap) {
    List(h.mem, h.place, FREE, h.freeHead, h.free) && Holds(h.mem, h.free, h.spans)
  }

  ghost predicate SpareGood(h: Heap) {
    List(h.mem, h.place, SPARE, h.spareHead, h.spare)
  }

  ghost predicate CachesGood(h: Heap) {
    && |h.place| == |h.mem|
    && (forall k | 0 <= k < |h.caches| :: CacheGood(h, k))
    && forall j {:trigger h.place[j].list} | 0 <= j < |h.place| :: LOOSE <= h.place[j].list < |h.caches|
  }

  ghost predicate Good(h: Heap) {
    SpareGood(h) && FreeGood(h) && CachesGood(h)
  }

  predicate InHand(h: Heap, n: int) {
    0 <= n < |h.mem| && |h.place| == |h.mem| && h.place[n].list == LOOSE
  }

  /** Only the nodes of the given lists, and nodes in hand, have changed or moved. */
  ghost predicate Untouched(h: Heap, h': Heap, list: int) {
    && |h'.mem| == |h.mem| && |h'.place| == |h.place| == |h.mem|
    && forall j | 0 <= j < |h.mem| && (h.place[j].list == list || h'.place[j].list == list) ::
         h'.mem[j] == h.mem[j] && h'.place[j] == h.place[j]
  }

  lemma SpareStays(h: Heap, h': Heap)
    requires SpareGood(h) && Untouched(h, h', SPARE) && h'.spareHead == h.spareHead && h'.spare == h.spare
    ensures SpareGood(h')
  {
    LinksFrame(h.mem, h'.mem, h.place, h'.place, SPARE, h.spareHead, h.spare);
  }

  lemma FreeStays(h: Heap, h': Heap)
    requires FreeGood(h) && Untouched(h, h', FREE)
    requires h'.freeHead == h.freeHead && h'.free == h.free && h'.spans == h.spans
    ensures FreeGood(h')
  {
    ListFrame(h.mem, h'.mem, h.place, h'.place, FREE, h.freeHead, h.free, h.spans);
  }

  lemma CacheStays(h: Heap, h': Heap, k: nat)
    requires k < |h.caches| && k < |h'.caches| && CacheGood(h, k) && Untouched(h, h', k) && h'.caches[k] == h.caches[k]
    ensures CacheGood(h', k)
  {
    var c := h.caches[k];
    ListFrame(h.mem, h'.mem, h.place, h'.place, k, c.head, c.nodes, c.blocks);
  }

  /** Nodes move between the spare list, the free list and the hand only. */
  ghost predicate NoNewNames(h: Heap, h': Heap) {
    && |h'.place| == |h.place| == |h.mem| == |h'.mem|
    && forall j {:trigger h'.place[j]} | 0 <= j < |h.place| ::
         LOOSE <= h'.place[j].list && (h'.place[j].list >= 0 ==> h'.place[j].list == h.place[j].list)
  }

  lemma CachesStay(h: Heap, h': Heap)
    requires CachesGood(h) && h'.caches == h.caches && NoNewNames(h, h')
    requires forall k | 0 <= k < |h.caches| :: Untouched(h, h', k)
    ensures CachesGood(h')
  {
    forall k | 0 <= k < |h'.caches| ensures CacheGood(h', k) {
      CacheStays(h, h', k);
    }
    forall j | 0 <= j < |h'.place| ensures LOOSE <= h'.place[j].list < |h'.caches| {
      assert h.place[j].list < |h.caches|;
    }
  }

  // ---------------------------------------------------------------- Spare nodes

  function Popped(h: Heap): Heap
    requires 0 <= h.spareHead < |h.mem| == |h.place| && h.spare != []
  {
    var n := h.spareHead;
    h.(mem := h.mem[n := Node(0, 0, NULL)], place := h.place[n := NOWHERE],
       spareHead := h.mem[n].next, spare := h.spare[1..])
  }

  function Pushed(h: Heap, n: int): Heap
    requires InHand(h, n)
  {
    h.(mem := h.mem[n := h.mem[n].(next := h.spareHead)], place := h.place[n := Place(SPARE, |h.spare|)],
       spareHead := n, spare := [n] + h.spare)
  }

  lemma SpareHead(h: Heap)
    requires SpareGood(h)
    ensures h.spareHead == NULL <==> h.spare == []
    ensures h.spare != [] ==> 0 <= h.spareHead < |h.mem| == |h.place| && h.place[h.spareHead].list == SPARE
  {
    if h.spare != [] {
      StackAt(h.mem, h.place, SPARE, h.spareHead, h.spare, 0);
    }
  }

  lemma PoppedSpare(h: Heap)
    requires SpareGood(h) && h.spare != [] && 0 <= h.spareHead < |h.mem| == |h.place|
    ensures SpareGood(Popped(h))
  {
    PopNode(h.mem, h.place, SPARE, h.spareHead, h.spare, Node(0, 0, NULL));
  }

  lemma PoppedGood(h: Heap)
    requires Good(h) && h.spare != []
    ensures 0 <= h.spareHead < |h.mem| == |h.place|
    ensures Good(Popped(h)) && InHand(Popped(h), h.spareHead)
  {
    hide SpareGood, FreeGood, CacheGood;
    SpareHead(h);
    PoppedSpare(h);
    FreeStays(h, Popped(h));
    CachesStay(h, Popped(h));
  }

  lemma PushedGood(h: Heap, n: int)
    requires Good(h) && InHand(h, n)
    ensures Good(Pushed(h, n))
  {
    var h' := Pushed(h, n);
    PushNode(h.mem, h.place, SPARE, h.spareHead, h.spare, n, h.mem[n].(next := h.spareHead));
    FreeStays(h, h');
    CachesStay(h, h');
  }

  /** Fill in the block of a node in hand. */
  function Filled(h: Heap, n: int, addr: nat, size: nat): Heap
    requires 0 <= n < |h.mem|
  {
    h.(mem := h.mem[n := h.mem[n].(address := addr, size := size)])
  }

  lemma FilledGood(h: Heap, n: int, addr: nat, size: nat)
    requires Good(h) && InHand(h, n)
    ensures Good(Filled(h, n, addr, size)) && InHand(Filled(h, n, addr, size), n)
  {
    var h' := Filled(h, n, addr, size);
    SpareStays(h, h');
    FreeStays(h, h');
    CachesStay(h, h');
  }

  // ---------------------------------------------------------------- Free list

  /** The link writes of an insertion before position `p`. */
  function LinkIn(mem: seq<Node>, head: int, ns: seq<int>, n: int, p: nat): (mem': seq<Node>)
    requires 0 <= n < |mem| && p <= |ns| && (p > 0 ==> 0 <= ns[p - 1] < |mem|)
    ensures |mem'| == |mem|
  {
    if p == 0 then mem[n := mem[n].(next := head)]
    else
      var prev := ns[p - 1];
      mem[n := mem[n].(next := mem[prev].next)][prev := mem[prev].(next := n)]
  }

  predicate Linkable(h: Heap, n: int) {
    && InHand(h, n) && h.mem[n].address > 0 && |h.free| == |h.spans|
    && var p := InsertPos(h.spans, h.mem[n].address);
       p > 0 ==> 0 <= h.free[p - 1] < |h.mem| && h.free[p - 1] != n
  }

  /** A node in hand joins the sorted free list. */
  function LinkedSorted(h: Heap, n: int): Heap
    requires Linkable(h, n)
  {
    var p := InsertPos(h.spans, h.mem[n].address);
    h.(mem := LinkIn(h.mem, h.freeHead, h.free, n, p), place := Joined(h.place, n, p),
       freeHead := if p == 0 then n else h.freeHead, free := InsertNode(h.free, n, p),
       spans := InsertAt(h.spans, Span(h.mem[n].address, h.mem[n].size)))
  }

  lemma CanLink(h: Heap, n: int)
    requires FreeGood(h) && InHand(h, n) && h.mem[n].address > 0
    ensures Linkable(h, n)
  {
    var p := InsertPos(h.spans, h.mem[n].address);
    if p > 0 {
      FreeAt(h.mem, h.place, h.freeHead, h.free, p - 1);
    }
  }

  lemma LinkSpans(mem: seq<Node>, mem': seq<Node>, ns: seq<int>, s: seq<Span>, n: int, p: nat)
    requires Holds(mem, ns, s) && (forall i | 0 <= i < |ns| :: 0 <= ns[i] < |mem|)
    requires p <= |ns| && 0 <= n < |mem| == |mem'| && mem[n].address > 0
    requires forall j | 0 <= j < |mem| :: mem'[j].address == mem[j].address && mem'[j].size == mem[j].size
    ensures Holds(mem', InsertNode(ns, n, p), s[..p] + [Span(mem[n].address, mem[n].size)] + s[p..])
  {
  }

  lemma LinkedSortedLinks(h: Heap, n: int)
    requires FreeGood(h) && Linkable(h, n)
    ensures LinkedIn(h.mem, LinkedSorted(h, n).mem, h.free, n, InsertPos(h.spans, h.mem[n].address))
  {
  }

  lemma LinkedSortedFree(h: Heap, n: int)
    requires FreeGood(h) && Linkable(h, n)
    ensures FreeGood(LinkedSorted(h, n))
  {
    var p, h' := InsertPos(h.spans, h.mem[n].address), LinkedSorted(h, n);
    LinkedSortedLinks(h, n);
    JoinFree(h.mem, h'.mem, h.place, h.freeHead, h.free, n, p);
    LinkSpans(h.mem, h'.mem, h.free, h.spans, n, p);
  }

  /** The writes touch the node in hand and at most one free node. */
  lemma LinkedSortedElsewhere(h: Heap, n: int, list: int)
    requires FreeGood(h) && Linkable(h, n) && list != FREE && list != LOOSE
    ensures Untouched(h, LinkedSorted(h, n), list)
  {
    var p := InsertPos(h.spans, h.mem[n].address);
    if p > 0 {
      FreeAt(h.mem, h.place, h.freeHead, h.free, p - 1);
    }
  }

  lemma LinkedSortedGood(h: Heap, n: int)
    requires Good(h) && InHand(h, n) && h.mem[n].address > 0
    ensures Linkable(h, n) && Good(LinkedSorted(h, n))
  {
    CanLink(h, n);
    var h' := LinkedSorted(h, n);
    LinkedSortedFree(h, n);
    LinkedSortedElsewhere(h, n, SPARE);
    SpareStays(h, h');
    forall k | 0 <= k < |h.caches| ensures Untouched(h, h', k) {
      LinkedSortedElsewhere(h, n, k);
    }
    CachesStay(h, h');
  }

  /** What the free list says of its nodes at `k` and before. */
  predicate FreeIndexed(h: Heap, k: int) {
    && |h.free| == |h.spans| && |h.place| == |h.mem| && 0 <= k < |h.free|
    && 0 <= h.free[k] < |h.mem|
  }

  lemma FreeIndex(h: Heap, k: nat)
    requires FreeGood(h) && k < |h.free|
    ensures FreeIndexed(h, k) && h.place[h.free[k]] == Place(FREE, k)
    ensures h.mem[h.free[k]].next == if k + 1 < |h.free| then h.free[k + 1] else NULL
    ensures h.mem[h.free[k]].address == h.spans[k].addr > 0 && h.mem[h.free[k]].size == h.spans[k].size
  {
    FreeAt(h.mem, h.place, h.freeHead, h.free, k);
    assert h.mem[h.free[k]].address == h.spans[k].addr;
  }

  /** The block at `k` changes its extent and keeps its node. */
  function Resized(h: Heap, k: nat, r: Span): Heap
    requires FreeIndexed(h, k)
  {
    var c := h.free[k];
    h.(mem := h.mem[c := h.mem[c].(address := r.addr, size := r.size)], spans := h.spans[k := r])
  }

  lemma ResizedElsewhere(h: Heap, k: nat, r: Span, list: int)
    requires FreeGood(h) && FreeIndexed(h, k) && list != FREE && list != LOOSE
    ensures Untouched(h, Resized(h, k, r), list)
  {
    FreeIndex(h, k);
  }

  lemma ResizedGood(h: Heap, k: nat, r: Span)
    requires Good(h) && k < |h.free| && r.addr > 0
    ensures FreeIndexed(h, k) && Good(Resized(h, k, r))
  {
    FreeIndex(h, k);
    var h' := Resized(h, k, r);
    ResizedFree(h, k, r);
    ResizedElsewhere(h, k, r, SPARE);
    SpareStays(h, h');
    forall i | 0 <= i < |h.caches| ensures Untouched(h, h', i) {
      ResizedElsewhere(h, k, r, i);
    }
    CachesStay(h, h');
  }

  lemma ResizedFree(h: Heap, k: nat, r: Span)
    requires FreeGood(h) && FreeIndexed(h, k) && r.addr > 0
    ensures FreeGood(Resized(h, k, r))
  {
    var h' := Resized(h, k, r);
    forall i | 0 <= i < |h.free|
      ensures 0 <= h.free[i] < |h.mem| && h'.mem[h.free[i]].next == h.mem[h.free[i]].next
      ensures h'.mem[h.free[i]].address == h'.spans[i].addr > 0 && h'.mem[h.free[i]].size == h'.spans[i].size
    {
      FreeIndex(h, i);
      FreeIndex(h, k);
    }
    LinksKept(h, h');
  }

  lemma LinksKept(h: Heap, h': Heap)
    requires FreeGood(h) && |h'.mem| == |h.mem| && h'.place == h.place && h'.freeHead == h.freeHead && h'.free == h.free
    requires forall i | 0 <= i < |h.free| :: 0 <= h.free[i] < |h.mem| && h'.mem[h.free[i]].next == h.mem[h.free[i]].next
    ensures List(h'.mem, h'.place, FREE, h'.freeHead, h'.free)
  {
    forall i | 0 <= i < |h.free| ensures h'.mem[h.free[i]].next == Succ(h.free, i) {
      FreeIndex(h, i);
    }
  }

  /** The node at `k` leaves the list for the hand; its predecessor, or the list head, skips it. */
  function Bypassed(h: Heap, k: nat): Heap
    requires FreeIndexed(h, k) && (k > 0 ==> FreeIndexed(h, k - 1))
  {
    var c := h.free[k];
    h.(mem := if k == 0 then h.mem else h.mem[h.free[k - 1] := h.mem[h.free[k - 1]].(next := h.mem[c].next)],
       place := Departed(h.place, c, k),
       freeHead := if k == 0 then h.mem[c].next else h.freeHead,
       free := RemoveNode(h.free, k),
       spans := h.spans[..k] + h.spans[k + 1..])
  }

  lemma CanBypass(h: Heap, k: nat)
    requires FreeGood(h) && k < |h.free|
    ensures FreeIndexed(h, k) && (k > 0 ==> FreeIndexed(h, k - 1))
  {
    FreeIndex(h, k);
    if k > 0 {
      FreeIndex(h, k - 1);
    }
  }

  lemma BypassedHolds(h: Heap, k: nat)
    requires FreeGood(h) && FreeIndexed(h, k) && (k > 0 ==> FreeIndexed(h, k - 1))
    ensures Holds(Bypassed(h, k).mem, Bypassed(h, k).free, Bypassed(h, k).spans)
  {
    var h' := Bypassed(h, k);
    forall i | 0 <= i < |h'.free|
      ensures 0 <= h'.free[i] < |h'.mem|
      ensures h'.mem[h'.free[i]].address == h'.spans[i].addr > 0 && h'.mem[h'.free[i]].size == h'.spans[i].size
    {
      var m := if i < k then i else i + 1;
      FreeIndex(h, m);
      assert h'.free[i] == h.free[m] && h'.spans[i] == h.spans[m];
    }
  }

  lemma BypassedFree(h: Heap, k: nat)
    requires FreeGood(h) && FreeIndexed(h, k) && (k > 0 ==> FreeIndexed(h, k - 1))
    ensures FreeGood(Bypassed(h, k))
  {
    FreeIndex(h, k);
    if k > 0 {
      FreeIndex(h, k - 1);
    }
    BypassedHolds(h, k);
    BypassedLinks(h, k);
    LeaveFree(h.mem, Bypassed(h, k).mem, h.place, h.freeHead, h.free, k);
  }

  lemma BypassedLinks(h: Heap, k: nat)
    requires FreeGood(h) && FreeIndexed(h, k) && (k > 0 ==> FreeIndexed(h, k - 1))
    ensures LinkedOut(h.mem, Bypassed(h, k).mem, h.free, k)
    ensures Bypassed(h, k).freeHead == Succ(RemoveNode(h.free, k), -1)
  {
    FreeIndex(h, k);
    if k > 0 {
      FreeIndex(h, k - 1);
    }
  }

  lemma BypassedElsewhere(h: Heap, k: nat, list: int)
    requires FreeGood(h) && FreeIndexed(h, k) && (k > 0 ==> FreeIndexed(h, k - 1)) && list != FREE && list != LOOSE
    ensures Untouched(h, Bypassed(h, k), list)
  {
    FreeIndex(h, k);
    if k > 0 {
      FreeIndex(h, k - 1);
    }
  }

  lemma BypassedCaches(h: Heap, k: nat)
    requires Good(h) && FreeIndexed(h, k) && (k > 0 ==> FreeIndexed(h, k - 1))
    ensures CachesGood(Bypassed(h, k))
  {
    var h' := Bypassed(h, k);
    forall i | 0 <= i < |h.caches| ensures Untouched(h, h', i) {
      BypassedElsewhere(h, k, i);
    }
    CachesStay(h, h');
  }

  lemma BypassedGood(h: Heap, k: nat)
    requires Good(h) && k < |h.free|
    ensures FreeIndexed(h, k) && (k > 0 ==> FreeIndexed(h, k - 1))
    ensures Good(Bypassed(h, k)) && InHand(Bypassed(h, k), h.free[k])
  {
    CanBypass(h, k);
    BypassedFree(h, k);
    BypassedElsewhere(h, k, SPARE);
    SpareStays(h, Bypassed(h, k));
    BypassedCaches(h, k);
  }

  /** A node in hand forgets its successor. */
  function Detached(h: Heap, n: int): Heap
    requires 0 <= n < |h.mem|
  {
    h.(mem := h.mem[n := h.mem[n].(next := NULL)])
  }

  lemma DetachedGood(h: Heap, n: int)
    requires Good(h) && InHand(h, n)
    ensures Good(Detached(h, n)) && InHand(Detached(h, n), n)
  {
    var h' := Detached(h, n);
    SpareStays(h, h');
    FreeStays(h, h');
    CachesStay(h, h');
  }

  // ---------------------------------------------------------------- Caches

  /** A new, empty cache. */
  function Opened(h: Heap, classSize: nat): Heap {
    h.(caches := h.caches + [Cache(classSize, NULL, [], [])])
  }

  lemma OpenedGood(h: Heap, classSize: nat)
    requires Good(h)
    ensures Good(Opened(h, classSize))
  {
    var h' := Opened(h, classSize);
    forall k | 0 <= k < |h'.caches| ensures CacheGood(h', k) {
      if k < |h.caches| {
        assert CacheGood(h, k);
      } else {
        forall j | 0 <= j < |h.place| ensures h.place[j].list != k {
          assert h.place[j].list < |h.caches|;
        }
      }
    }
    forall j | 0 <= j < |h'.place| ensures LOOSE <= h'.place[j].list < |h'.caches| {
      assert h.place[j].list < |h.caches|;
    }
  }

  /** A node in hand goes on top of cache `k`. */
  function Stored(h: Heap, k: nat, n: int): Heap
    requires k < |h.caches| && InHand(h, n)
  {
    var c := h.caches[k];
    h.(mem := h.mem[n := h.mem[n].(next := c.head)], place := h.place[n := Place(k, |c.nodes|)],
       caches := h.caches[k := Cache(c.classSize, n, [n] + c.nodes, [Span(h.mem[n].address, h.mem[n].size)] + c.blocks)])
  }

  lemma StoredCache(h: Heap, k: nat, n: int)
    requires CachesGood(h) && k < |h.caches| && InHand(h, n) && h.mem[n].address > 0
    ensures CacheGood(Stored(h, k, n), k)
  {
    var c, h' := h.caches[k], Stored(h, k, n);
    assert CacheGood(h, k);
    PushNode(h.mem, h.place, k, c.head, c.nodes, n, h.mem[n].(next := c.head));
    forall i | 0 <= i < |c.nodes|
      ensures 0 <= c.nodes[i] < |h.mem| && c.nodes[i] != n
    {
      StackAt(h.mem, h.place, k, c.head, c.nodes, i);
    }
    StoredHolds(h.mem, h'.mem, c.nodes, c.blocks, n);
  }

  lemma StoredHolds(mem: seq<Node>, mem': seq<Node>, ns: seq<int>, s: seq<Span>, n: int)
    requires Holds(mem, ns, s) && 0 <= n < |mem| == |mem'| && mem[n].address > 0
    requires forall i | 0 <= i < |ns| :: 0 <= ns[i] < |mem| && ns[i] != n
    requires mem' == mem[n := mem[n].(next := mem'[n].next)]
    ensures Holds(mem', [n] + ns, [Span(mem[n].address, mem[n].size)] + s)
  {
    var ns', s' := [n] + ns, [Span(mem[n].address, mem[n].size)] + s;
    forall i | 0 <= i < |ns'|
      ensures 0 <= ns'[i] < |mem'|
      ensures mem'[ns'[i]].address == s'[i].addr && mem'[ns'[i]].size == s'[i].size && s'[i].addr > 0
    {
      if i > 0 {
        assert mem[ns[i - 1]].address == s[i - 1].addr;
      }
    }
  }

  /** Only cache `k` may have changed among the caches. */
  lemma OtherCachesStay(h: Heap, h': Heap, k: nat)
    requires CachesGood(h) && k < |h.caches| == |h'.caches| && CacheGood(h', k)
    requires |h'.place| == |h.place| == |h.mem| == |h'.mem|
    requires forall i | 0 <= i < |h.caches| && i != k :: h'.caches[i] == h.caches[i] && Untouched(h, h', i)
    requires forall j {:trigger h'.place[j]} | 0 <= j < |h.place| ::
               h'.place[j].list == k || h'.place[j].list == LOOSE || h'.place[j] == h.place[j]
    ensures CachesGood(h')
  {
    forall i | 0 <= i < |h'.caches| ensures CacheGood(h', i) {
      if i != k {
        CacheStays(h, h', i);
      }
    }
    forall j | 0 <= j < |h'.place| ensures LOOSE <= h'.place[j].list < |h'.caches| {
      assert LOOSE <= h.place[j].list < |h.caches|;
    }
  }

  lemma StoredGood(h: Heap, k: nat, n: int)
    requires Good(h) && k < |h.caches| && InHand(h, n) && h.mem[n].address > 0
    ensures Good(Stored(h, k, n))
  {
    var h' := Stored(h, k, n);
    StoredCache(h, k, n);
    OtherCachesStay(h, h', k);
    SpareStays(h, h');
    FreeStays(h, h');
  }

  /** The top node of cache `k` comes to hand; no link is written. */
  function Dropped(h: Heap, k: nat): Heap
    requires k < |h.caches| && h.caches[k].nodes != [] && h.caches[k].blocks != []
    requires 0 <= h.caches[k].head < |h.mem| == |h.place|
  {
    var c := h.caches[k];
    h.(place := h.place[c.head := NOWHERE],
       caches := h.caches[k := Cache(c.classSize, h.mem[c.head].next, c.nodes[1..], c.blocks[1..])])
  }

  lemma CacheTop(h: Heap, k: nat)
    requires CachesGood(h) && k < |h.caches|
    ensures var c := h.caches[k];
      && |c.nodes| == |c.blocks| && (c.head == NULL <==> c.nodes == [])
      && (c.nodes != [] ==>
            && 0 <= c.head < |h.mem| == |h.place| && h.place[c.head].list == k
            && h.mem[c.head].address == c.blocks[0].addr > 0 && h.mem[c.head].size == c.blocks[0].size)
  {
    var c := h.caches[k];
    assert CacheGood(h, k);
    if c.nodes != [] {
      StackAt(h.mem, h.place, k, c.head, c.nodes, 0);
      assert h.mem[c.nodes[0]].address == c.blocks[0].addr;
    }
  }

  lemma DroppedCache(h: Heap, k: nat)
    requires CachesGood(h) && k < |h.caches| && h.caches[k].nodes != [] && h.caches[k].blocks != []
    requires 0 <= h.caches[k].head < |h.mem| == |h.place|
    ensures CacheGood(Dropped(h, k), k)
  {
    var c, h' := h.caches[k], Dropped(h, k);
    assert CacheGood(h, k);
    PopNode(h.mem, h.place, k, c.head, c.nodes, h.mem[c.head]);
    assert h.mem[c.head := h.mem[c.head]] == h.mem;
    forall i | 0 <= i < |c.nodes[1..]|
      ensures 0 <= c.nodes[1..][i] < |h.mem|
      ensures h.mem[c.nodes[1..][i]].address == c.blocks[1..][i].addr > 0 && h.mem[c.nodes[1..][i]].size == c.blocks[1..][i].size
    {
      StackAt(h.mem, h.place, k, c.head, c.nodes, i + 1);
      assert h.mem[c.nodes[i + 1]].address == c.blocks[i + 1].addr;
    }
  }

  lemma DroppedGood(h: Heap, k: nat)
    requires Good(h) && k < |h.caches| && h.caches[k].nodes != []
    ensures h.caches[k].blocks != [] && 0 <= h.caches[k].head < |h.mem| == |h.place|
    ensures Good(Dropped(h, k)) && InHand(Dropped(h, k), h.caches[k].head)
  {
    CacheTop(h, k);
    var h' := Dropped(h, k);
    DroppedCache(h, k);
    OtherCachesStay(h, h', k);
    SpareStays(h, h');
    FreeStays(h, h');
  }
}
