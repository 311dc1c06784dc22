/** The arena allocator with its linked nodes: an address-sorted free list, per-size reuse caches and a
    fixed pool of nodes that all lists share.  A node pointer is an index into the pool.  Every method is
    proved to do to the pool what HeapOps says, and so to compute the function of ArenaModel it is
    named after; the theorems of the Arena* files are about those functions. */
module ProxyAllocator {
  import opened Granules
  import opened Spans
  import opened ArenaModel
  import opened NodeLists
  import opened NodeHeap
  import opened HeapOps

  datatype SizeClassList = SizeClassList(classSize: nat, head: int, count: nat)

  function Listed(c: Cache): SizeClassList { SizeClassList(c.classSize, c.head, |c.nodes|) }

  class ProxyAllocator {
    const granularity: nat
    var arenaBase: nat
    var arenaSize: nat
    var nodes: array<Node>
    var nodeFreeList: int
    var freeListHead: int
    const sizeClasses: array<SizeClassList>
    var sizeClassCount: nat
    var classCachedBytes: nat
    var usedBytes: nat
    var liveRequestedBytes: nat
    var activeAllocations: nat
    var totalAllocationRequests: nat
    var totalAllocationFailures: nat
    var totalGrantedBytes: nat
    var totalFreedBytes: nat
    var totalReusedBytes: nat
    const bandReqBytes: array<nat>
    const bandSlotBytes: array<nat>

    /** What the linked structure amounts to. */
    ghost var h: Heap

    ghost predicate Valid()
      reads this`nodes, this`h, this`nodeFreeList, this`freeListHead, this`sizeClassCount, nodes, sizeClasses
    {
      && Rep() && ClassesRep() && Settled(h) && granularity > 0
      && bandReqBytes != bandSlotBytes && bandReqBytes.Length == bandSlotBytes.Length == BAND_COUNT
    }

    ghost function Tally(): Counters
      reads this, bandReqBytes, bandSlotBytes
    {
      Counters(usedBytes, liveRequestedBytes, activeAllocations, totalAllocationRequests, totalAllocationFailures,
               totalGrantedBytes, totalFreedBytes, totalReusedBytes, bandReqBytes[..], bandSlotBytes[..])
    }

    /** The objects this allocator writes. */
    ghost function Repr(): set<object>
      reads this`nodes
    {
      {this, nodes, sizeClasses, bandReqBytes, bandSlotBytes}
    }

    /** The arena this allocator is, as a value. */
    ghost function Abs(): Arena
      reads this, bandReqBytes, bandSlotBytes
    {
      Arena(arenaBase, arenaSize, granularity, h.spans, Classes(h.caches), |h.spare|, classCachedBytes, Tally())
    }

    /** The fields are the heads of the lists of `h`, and the pool is its memory. */
    ghost predicate Rep()
      reads this`nodes, this`h, this`nodeFreeList, this`freeListHead, nodes
    {
      nodes[..] == h.mem && nodeFreeList == h.spareHead && freeListHead == h.freeHead
    }

    /** The class array lists the caches of `h`. */
    ghost predicate ClassesRep()
      reads this`h, this`sizeClassCount, sizeClasses
    {
      && sizeClasses.Length == MAX_SIZE_CLASSES && sizeClassCount == |h.caches| <= MAX_SIZE_CLASSES
      && forall k | 0 <= k < sizeClassCount :: sizeClasses[k] == Listed(h.caches[k])
    }

    // ---------------------------------------------------------------- Nodes

    method AllocNode() returns (n: int)
      requires Rep() && Good(h)
      modifies this`nodeFreeList, this`h, nodes
      ensures Rep()
      ensures old(h).spare == [] ==> n == NULL && h == old(h)
      ensures old(h).spare != [] ==>
        && n == old(h).spareHead && 0 <= n < |old(h).mem| == |old(h).place| && h == Popped(old(h))
    {
      SpareHead(h);
      if nodeFreeList == NULL {
        return NULL;
      }
      n := nodeFreeList;
      nodeFreeList := nodes[nodeFreeList].next;
      nodes[n] := Node(0, 0, NULL);
      h := Popped(h);
    }

    method FreeNode(n: int)
      requires Rep() && InHand(h, n)
      modifies this`nodeFreeList, this`h, nodes
      ensures Rep() && h == Pushed(old(h), n)
    {
      nodes[n] := nodes[n].(next := nodeFreeList);
      nodeFreeList := n;
      h := Pushed(h, n);
    }

    // ---------------------------------------------------------------- Free list

    /** The node that a block at `addr` goes behind in the sorted list, or null if it goes first. */
    method FindInsertPoint(addr: nat) returns (prev: int)
      requires Rep() && FreeGood(h)
      ensures |h.free| == |h.spans|
      ensures var p := InsertPos(h.spans, addr); prev == if p == 0 then NULL else h.free[p - 1]
    {
      if freeListHead == NULL || nodes[freeListHead].address > addr {
        return NULL;
      }
      prev := freeListHead;
      ghost var k := 0;
      while nodes[prev].next != NULL && nodes[nodes[prev].next].address < addr
        invariant k < |h.free| && prev == h.free[k]
        invariant WalkPast(h.spans, k, addr) == WalkPast(h.spans, 0, addr)
        decreases |h.free| - k
      {
        FreeIndex(h, k);
        prev := nodes[prev].next;
        k := k + 1;
      }
      FreeIndex(h, k);
    }

    /** Link a node in hand into the sorted list. */
    method LinkSorted(n: int, prev: int)
      requires Rep() && Linkable(h, n)
      requires var p := InsertPos(h.spans, h.mem[n].address); prev == if p == 0 then NULL else h.free[p - 1]
      modifies this`freeListHead, this`h, nodes
      ensures Rep() && h == LinkedSorted(old(h), n)
    {
      if prev == NULL {
        nodes[n] := nodes[n].(next := freeListHead);
        freeListHead := n;
      } else {
        nodes[n] := nodes[n].(next := nodes[prev].next);
        nodes[prev] := nodes[prev].(next := n);
      }
      h := LinkedSorted(h, n);
    }

    /** One forward pass that merges every block with the successor it touches. */
    method CoalesceFreeList()
      requires Rep() && Good(h)
      modifies this`nodeFreeList, this`h, nodes
      ensures Rep() && h == CoalescedFrom(old(h), 0)
    {
      hide Good;
      var cur := freeListHead;
      ghost var k := 0;
      FreeStart(h);
      while cur != NULL && nodes[cur].next != NULL
        invariant Rep() && Good(h) && freeListHead == old(freeListHead)
        invariant cur == NodeOf(h, k) && (h.free != [] ==> k < |h.free| && 0 <= cur < |h.mem|)
        invariant CoalescedFrom(h, k) == CoalescedFrom(old(h), 0)
        decreases |h.free| - k
      {
        FreeNodeAt(h, k);
        FreeNodeAt(h, k + 1);
        SpansMatch(h);
        var nxt := nodes[cur].next;
        if nodes[cur].address + nodes[cur].size == nodes[nxt].address {
          MergeStep(h, k);
          FreeNeighbours(h, k + 1);
          MergedEffect(h, k);
          AbsorbSuccessor(k, cur, nxt);
          FreeNode(nxt);
        } else {
          cur := nxt;
          k := k + 1;
        }
      }
      if h.free != [] {
        FreeNodeAt(h, k);
        NodeNotNull(h, k + 1);
        NodeNotNull(h, k);
      }
    }

    method AbsorbSuccessor(ghost k: nat, cur: int, nxt: int)
      requires Rep() && CanMerge(h, k) && cur == h.free[k] && nxt == h.free[k + 1] && cur != nxt
      requires h.mem[cur].address == h.spans[k].addr && h.mem[cur].size == h.spans[k].size
      requires h.mem[nxt].size == h.spans[k + 1].size
      modifies this`h, nodes
      ensures Rep() && h == Absorbed(old(h), k)
    {
      nodes[cur] := Node(nodes[cur].address, nodes[cur].size + nodes[nxt].size, nodes[nxt].next);
      h := Absorbed(h, k);
    }

    method InsertFreeSortedAndCoalesce(addr: nat, size: nat) returns (ok: bool)
      requires Rep() && Good(h) && addr > 0
      modifies this`nodeFreeList, this`freeListHead, this`h, nodes
      ensures Rep() && h == Inserted(old(h), addr, size)
      ensures ok == (old(h).spare != [])
    {
      hide Good;
      var n := AllocNode();
      if n == NULL {
        HeadIsNode(old(h));
        return false;
      }
      HeadIsNode(old(h));
      PoppedGood(old(h));
      FilledGood(h, n, addr, size);
      nodes[n] := nodes[n].(address := addr, size := size);
      h := Filled(h, n, addr, size);
      LinkedSortedGood(h, n);
      var prev := FindInsertPoint(addr);
      LinkSorted(n, prev);
      CoalesceFreeList();
      ok := true;
    }

    /** The first block that holds `need` bytes and the node before it. */
    method FindFirstFit(need: nat) returns (prev: int, cur: int)
      requires Rep() && Good(h)
      ensures |h.free| == |h.spans|
      ensures var k := FirstFit(h.spans, 0, need);
        cur == NodeOf(h, k) && (k < |h.free| ==> prev == NodeOf(h, k - 1))
    {
      hide Good;
      prev, cur := NULL, freeListHead;
      ghost var k := 0;
      FreeStart(h);
      while cur != NULL
        invariant k <= |h.free| && cur == NodeOf(h, k) && prev == NodeOf(h, k - 1)
        invariant FirstFit(h.spans, k, need) == FirstFit(h.spans, 0, need)
        decreases |h.free| - k
      {
        FreeNodeAt(h, k);
        if nodes[cur].size >= need {
          return;
        }
        prev, cur := cur, nodes[cur].next;
        k := k + 1;
      }
      NodeNotNull(h, k);
    }

    /** The last block that holds `need` bytes and the node before it. */
    method FindLastFit(need: nat) returns (bestPrev: int, best: int)
      requires Rep() && Good(h)
      ensures |h.free| == |h.spans|
      ensures var k := LastFit(h.spans, |h.spans|, need);
        best == NodeOf(h, k) && (k < |h.free| ==> bestPrev == NodeOf(h, k - 1))
    {
      hide Good, LastFit, Rep;
      RepReads();
      var prev, cur := NULL, freeListHead;
      bestPrev, best := NULL, NULL;
      ghost var k, b := 0, |h.spans|;
      FreeStart(h);
      LastFitStart(h.spans, need);
      while cur != NULL
        invariant k <= |h.free| && cur == NodeOf(h, k) && prev == NodeOf(h, k - 1)
        invariant b == LastFit(h.spans, k, need)
        invariant best == NodeOf(h, b) && (b < |h.free| ==> bestPrev == NodeOf(h, b - 1))
        decreases |h.free| - k
      {
        FreeNodeAt(h, k);
        LastFitStep(h.spans, k, need);
        RepReads();
        if nodes[cur].size >= need {
          bestPrev, best, b := prev, cur, k;
        }
        prev, cur := cur, nodes[cur].next;
        k := k + 1;
      }
      NodeNotNull(h, k);
    }

    lemma RepReads()
      requires Rep()
      ensures nodes[..] == h.mem && freeListHead == h.freeHead
    {
    }

    /** Take a whole node off the free list. */
    method UnlinkFree(ghost k: nat, prev: int, cur: int)
      requires Rep() && FreeIndexed(h, k) && (k > 0 ==> FreeIndexed(h, k - 1)) && cur == h.free[k]
      requires prev == if k == 0 then NULL else h.free[k - 1]
      requires k > 0 ==> h.free[k - 1] != h.free[k]
      modifies this`freeListHead, this`h, nodes
      ensures Rep() && h == Detached(Bypassed(old(h), k), cur)
    {
      if prev != NULL {
        nodes[prev] := nodes[prev].(next := nodes[cur].next);
      } else {
        freeListHead := nodes[cur].next;
      }
      nodes[cur] := nodes[cur].(next := NULL);
      h := Detached(Bypassed(h, k), cur);
    }

    method TakeFreeFit(size: nat, fromTop: bool) returns (removed: int, grantedSize: nat, grantedAddr: nat)
      requires Rep() && Good(h) && granularity > 0
      modifies this`freeListHead, this`h, nodes
      ensures Rep()
      ensures var need := AlignUp(size, granularity);
        && h == TakenHeap(old(h), need, granularity, fromTop)
        && match TakeFit(old(h).spans, need, granularity, fromTop)
           case None => removed == NULL && grantedSize == 0 && grantedAddr == 0
           case Some(t) =>
             && grantedSize == t.span.size && grantedAddr == t.span.addr > 0
             && |old(h).free| == |old(h).spans|
             && removed == if t.whole then old(h).free[FitIndex(old(h).spans, need, fromTop)] else NULL
    {
      hide Good;
      var need := AlignUp(size, granularity);
      var prev, cur;
      if fromTop {
        prev, cur := FindLastFit(need);
      } else {
        prev, cur := FindFirstFit(need);
      }
      ghost var k := FitIndex(h.spans, need, fromTop);
      if cur == NULL {
        NodeNotNull(h, k);
        return NULL, 0, 0;
      }
      FreeNodeAt(h, k);
      if nodes[cur].size - need >= granularity {
        grantedAddr := CarveFree(k, cur, need, fromTop);
        return NULL, need, grantedAddr;
      }
      removed, grantedSize, grantedAddr := cur, nodes[cur].size, nodes[cur].address;
      FreeNeighbours(h, k);
      UnlinkFree(k, prev, cur);
    }

    /** Carve `need` bytes off a block, from its end for a top-down request. */
    method CarveFree(ghost k: nat, cur: int, need: nat, fromTop: bool) returns (addr: nat)
      requires Rep() && FreeIndexed(h, k) && cur == h.free[k]
      requires h.mem[cur].address == h.spans[k].addr && h.mem[cur].size == h.spans[k].size >= need
      modifies this`h, nodes
      ensures Rep() && h == Resized(old(h), k, Remainder(old(h).spans[k], need, fromTop))
      ensures addr == if fromTop then old(h).spans[k].addr + old(h).spans[k].size - need else old(h).spans[k].addr
    {
      var v := nodes[cur];
      var remain := v.size - need;
      addr := if fromTop then v.address + remain else v.address;
      nodes[cur] := Node(if fromTop then v.address else v.address + need, remain, v.next);
      h := Resized(h, k, Remainder(h.spans[k], need, fromTop));
    }

    // ---------------------------------------------------------------- Size-class caches

    method PopSizeClass(classSize: nat) returns (n: int, ghost i: nat)
      requires Rep() && ClassesRep() && Good(h)
      modifies this`h, nodes, sizeClasses
      ensures Rep() && ClassesRep()
      ensures i == PopIndex(Classes(old(h).caches), 0, classSize) <= |old(h).caches|
      ensures i == |old(h).caches| ==> n == NULL && h == old(h)
      ensures i < |old(h).caches| ==>
        && CanDrop(old(h), i) && n == old(h).caches[i].head >= 0
        && h == Detached(Dropped(old(h), i), n)
    {
      hide Good;
      var k := 0;
      while k < sizeClassCount
        invariant k <= sizeClassCount && h == old(h) && Rep() && ClassesRep()
        invariant PopIndex(Classes(h.caches), k, classSize) == PopIndex(Classes(h.caches), 0, classSize)
      {
        DropReady(h, k);
        if sizeClasses[k].classSize == classSize && sizeClasses[k].head != NULL {
          n, i := sizeClasses[k].head, k;
          sizeClasses[k] := SizeClassList(classSize, nodes[n].next, sizeClasses[k].count - 1);
          nodes[n] := nodes[n].(next := NULL);
          h := Detached(Dropped(h, k), n);
          return;
        }
        k := k + 1;
      }
      n, i := NULL, k;
    }

    /** The class of this size, newly opened if need be; the class limit when there is no room for it. */
    method FindOrOpenClass(classSize: nat) returns (i: nat)
      requires Rep() && ClassesRep() && Good(h)
      modifies this`h, this`sizeClassCount, sizeClasses
      ensures Rep() && ClassesRep()
      ensures var k := ClassIndex(Classes(old(h).caches), 0, classSize);
        if k == |old(h).caches| && k >= MAX_SIZE_CLASSES then i == MAX_SIZE_CLASSES && h == old(h)
        else i == k < |h.caches| && h == if k == |old(h).caches| then Opened(old(h), classSize) else old(h)
    {
      hide Good;
      i := 0;
      while i < sizeClassCount
        invariant i <= sizeClassCount
        invariant ClassIndex(Classes(h.caches), i, classSize) == ClassIndex(Classes(h.caches), 0, classSize)
      {
        if sizeClasses[i].classSize == classSize {
          return;
        }
        i := i + 1;
      }
      if sizeClassCount < MAX_SIZE_CLASSES {
        sizeClasses[i] := SizeClassList(classSize, NULL, 0);
        sizeClassCount := sizeClassCount + 1;
        h := Opened(h, classSize);
      }
    }

    /** Cache a freed block; false when its class is full, cannot be opened, or no node is spare. */
    method PushSizeClass(addr: nat, classSize: nat) returns (ok: bool)
      requires Rep() && ClassesRep() && Good(h) && addr > 0
      modifies this`h, this`nodeFreeList, this`sizeClassCount, nodes, sizeClasses
      ensures Rep() && ClassesRep()
      ensures h == PushedBlock(old(h), addr, classSize) && ok == PushesBlock(old(h), classSize)
    {
      hide Good;
      var i := FindOrOpenClass(classSize);
      if i == MAX_SIZE_CLASSES {
        return false;
      }
      OpenedGood(old(h), classSize);
      DropReady(h, i);
      if sizeClasses[i].count >= MAX_CACHED_PER_CLASS {
        return false;
      }
      ok := CacheBlock(i, addr, classSize);
    }

    /** Put a block on top of class `i`, unless no node is spare. */
    method CacheBlock(i: nat, addr: nat, classSize: nat) returns (ok: bool)
      requires Rep() && ClassesRep() && Good(h) && addr > 0 && i < sizeClassCount && sizeClasses[i].classSize == classSize
      modifies this`h, this`nodeFreeList, nodes, sizeClasses
      ensures Rep() && ClassesRep() && ok == (old(h).spare != [])
      ensures h == if ok then StoredBlock(old(h), i, addr, classSize) else old(h)
    {
      hide Good;
      HeadIsNode(h);
      ghost var before := h;
      var n := AllocNode();
      if n == NULL {
        return false;
      }
      PoppedGood(before);
      nodes[n] := Node(addr, classSize, sizeClasses[i].head);
      sizeClasses[i] := SizeClassList(classSize, n, sizeClasses[i].count + 1);
      h := StoredBlock(before, i, addr, classSize);
      ok := true;
    }

    /** Move the block of node `n`, the top of class `i`, to the free list. */
    method DrainTop(ghost i: nat, n: int) returns (next: int)
      requires Rep() && Good(h) && i < |h.caches| && h.caches[i].nodes != [] && n == h.caches[i].head
      requires |h.caches[i].blocks| > 0
      modifies this`h, this`nodeFreeList, this`freeListHead, this`classCachedBytes, nodes
      ensures Rep() && h == DrainedOnce(old(h), i)
      ensures classCachedBytes == Less(old(classCachedBytes), old(h).caches[i].blocks[0].size)
      ensures i < |h.caches| && next == h.caches[i].head
    {
      hide Good;
      DropReady(h, i);
      ghost var before, b := h, h.caches[i].blocks[0];
      next := nodes[n].next;
      var size := nodes[n].size;
      var _ := InsertFreeSortedAndCoalesce(nodes[n].address, size);
      InsertedCaches(before, b.addr, b.size);
      if classCachedBytes >= size {
        classCachedBytes := classCachedBytes - size;
      }
      DropReady(h, i);
      TopNext(before, h, i);
      DroppedGood(h, i);
      h := Dropped(h, i);
      FreeNode(n);
    }

    /** Move every block of class `i` to the free list. */
    method DrainClass(i: nat)
      requires Rep() && ClassesRep() && Good(h) && i < sizeClassCount
      modifies this`h, this`nodeFreeList, this`freeListHead, this`classCachedBytes, nodes, sizeClasses
      ensures Rep() && ClassesRep() && h == Drained(old(h), i) && |h.caches| == |old(h).caches|
      ensures classCachedBytes == DrainBytes(old(classCachedBytes), old(h).caches[i].blocks)
    {
      hide Good;
      var n := sizeClasses[i].head;
      DropReady(h, i);
      while n != NULL
        invariant Rep() && Good(h) && |h.caches| == |old(h).caches| && n == h.caches[i].head
        invariant sizeClasses[..] == old(sizeClasses[..])
        invariant |h.caches[i].nodes| == |h.caches[i].blocks| && (n == NULL <==> h.caches[i].nodes == [])
        invariant h.caches[i].classSize == old(h).caches[i].classSize
        invariant forall k | 0 <= k < |h.caches| && k != i :: h.caches[k] == old(h).caches[k]
        invariant Drained(h, i) == Drained(old(h), i)
        invariant DrainBytes(classCachedBytes, h.caches[i].blocks) == DrainBytes(old(classCachedBytes), old(h).caches[i].blocks)
        decreases |h.caches[i].nodes|
      {
        DrainedOnceCaches(h, i);
        n := DrainTop(i, n);
        DropReady(h, i);
      }
      assert forall k | 0 <= k < sizeClassCount :: sizeClasses[k] == old(sizeClasses[..])[k];
      sizeClasses[i] := SizeClassList(sizeClasses[i].classSize, NULL, 0);
    }

    // ---------------------------------------------------------------- Setting up

    constructor (granularity: nat)
      requires granularity > 0
      ensures Valid() && Unused() && this.granularity == granularity && arenaBase == 0 && nodes.Length == 0
      ensures fresh(nodes) && fresh(sizeClasses) && fresh(bandReqBytes) && fresh(bandSlotBytes)
      ensures Tally() == ZERO_COUNTERS
    {
      this.granularity := granularity;
      nodes := new Node[0];
      sizeClasses := new SizeClassList[MAX_SIZE_CLASSES](_ => SizeClassList(0, NULL, 0));
      bandReqBytes := new nat[BAND_COUNT](_ => 0);
      bandSlotBytes := new nat[BAND_COUNT](_ => 0);
      arenaBase, arenaSize, nodeFreeList, freeListHead, sizeClassCount := 0, 0, NULL, NULL, 0;
      classCachedBytes, usedBytes, liveRequestedBytes, activeAllocations := 0, 0, 0, 0;
      totalAllocationRequests, totalAllocationFailures := 0, 0;
      totalGrantedBytes, totalFreedBytes, totalReusedBytes := 0, 0, 0;
      h := Heap([], [], NULL, [], NULL, [], [], []);
    }

    /** Nothing is listed yet, as before the arena is reserved. */
    ghost predicate Unused()
      reads this`h, this`classCachedBytes
    {
      h.free == [] && h.spans == [] && h.caches == [] && classCachedBytes == 0
    }

    /** Build the pool, all nodes spare.  `available` is whether the system has the memory for it. */
    method InitNodePool(available: bool) returns (ok: bool)
      requires Valid() && Unused() && (nodes.Length > 0 ==> |h.spare| == nodes.Length)
      modifies this`nodes, this`nodeFreeList, this`h
      ensures Valid() && Unused() && ok == (old(nodes.Length) > 0 || available)
      ensures ok ==> |h.spare| == nodes.Length
      ensures old(nodes.Length) > 0 ==> nodes == old(nodes)
      ensures old(nodes.Length) == 0 && ok ==> nodes.Length == 87381 && fresh(nodes)
      ensures !ok ==> nodes == old(nodes)
      ensures nodes == old(nodes) || fresh(nodes)
    {
      if nodes.Length > 0 {
        return true;
      }
      if !available {
        return false;
      }
      nodes := new Node[NODE_POOL_CAPACITY](_ => Node(0, 0, NULL));
      nodeFreeList := NULL;
      h := EmptyPool(NODE_POOL_CAPACITY);
      assert nodes[..] == h.mem;
      EmptyPoolGood(NODE_POOL_CAPACITY);
      var i := 0;
      hide Good;
      while i < nodes.Length
        invariant i <= nodes.Length == NODE_POOL_CAPACITY && fresh(nodes)
        invariant Rep() && Good(h) && freeListHead == old(freeListHead)
        invariant |h.spare| == i && h.free == [] && h.spans == [] && h.caches == []
        invariant |h.place| == |h.mem| && forall j {:trigger h.place[j].list} | 0 <= j < |h.place| :: h.place[j].list == LOOSE <==> j >= i
      {
        assert h.place[i].list == LOOSE;
        PushedGood(h, i);
        FreeNode(i);
        i := i + 1;
      }
      ok := true;
    }

    /** Take over `size` bytes at `base`, rounded up, as one free block. */
    method AttachArena(base: nat, size: nat) returns (ok: bool)
      requires Valid() && Unused() && base > 0 && arenaBase == 0 && h.spare != []
      modifies this`arenaBase, this`arenaSize, this`h, this`nodeFreeList, this`freeListHead, nodes
      ensures Valid() && ok
      ensures Abs() == Fresh(base, size, granularity, |old(h.spare)|).(counters := old(Tally()))
    {
      hide Good, Rep, ClassesRep, Inserted;
      arenaBase, arenaSize := base, AlignUp(size, granularity);
      InsertedModel(h, Abs(), base, arenaSize);
      InsertedCaches(h, base, arenaSize);
      assert Over(Abs(), h) == Abs();
      assert InsertAt([], Span(base, arenaSize)) == [Span(base, arenaSize)];
      ok := InsertFreeSortedAndCoalesce(base, arenaSize);
      ClassesFollow(old(h));
    }

    /** The class array follows the caches, whatever else happens to the pool. */
    twostate lemma ClassesFollow(before: Heap)
      requires old(ClassesRep()) && old(h) == before && h.caches == before.caches
      requires sizeClassCount == old(sizeClassCount) && sizeClasses[..] == old(sizeClasses[..])
      ensures ClassesRep()
    {
      forall k | 0 <= k < sizeClassCount ensures sizeClasses[k] == Listed(h.caches[k]) {
        assert sizeClasses[..][k] == old(sizeClasses[..])[k];
      }
    }

    /** Reserve the arena.  `reserved` is the address range the system found, zero for none. */
    method Initialize(size: nat, poolAvailable: bool, reserved: nat) returns (ok: bool)
      requires Valid() && (arenaBase == 0 ==> Unused() && (nodes.Length > 0 ==> |h.spare| == nodes.Length))
      modifies this, nodes
      ensures Valid()
      ensures ok == (old(arenaBase) != 0 || ((old(nodes.Length) > 0 || poolAvailable) && reserved != 0))
      ensures old(arenaBase) != 0 ==> Abs() == old(Abs())
      ensures old(arenaBase) == 0 && ok ==>
        && nodes.Length > 0 && (old(nodes.Length) == 0 ==> nodes.Length == NODE_POOL_CAPACITY)
        && Abs() == Fresh(reserved, size, granularity, nodes.Length).(counters := old(Tally()))
      ensures !ok ==> arenaBase == 0 && Unused() && (nodes.Length > 0 ==> |h.spare| == nodes.Length)
    {
      hide Good, Rep, ClassesRep, Hands;
      if arenaBase != 0 {
        return true;
      }
      ok := InitNodePool(poolAvailable);
      if !ok || reserved == 0 {
        return false;
      }
      ok := AttachArena(reserved, size);
    }

    /** Take over a range the caller owns. */
    method InitFromShared(base: nat, size: nat, poolAvailable: bool) returns (ok: bool)
      requires Valid() && base > 0 && (arenaBase == 0 ==> Unused() && (nodes.Length > 0 ==> |h.spare| == nodes.Length))
      modifies this, nodes
      ensures Valid() && ok == (old(arenaBase) != 0 || old(nodes.Length) > 0 || poolAvailable)
      ensures !ok ==> arenaBase == 0 && Unused() && (nodes.Length > 0 ==> |h.spare| == nodes.Length)
      ensures nodes == old(nodes) || fresh(nodes)
      ensures old(arenaBase) != 0 ==> Abs() == old(Abs())
      ensures old(arenaBase) == 0 && ok ==>
        && nodes.Length > 0 && (old(nodes.Length) == 0 ==> nodes.Length == NODE_POOL_CAPACITY)
        && Abs() == Fresh(base, size, granularity, nodes.Length).(counters := old(Tally()))
    {
      hide Good, Rep, ClassesRep, Hands;
      if arenaBase != 0 {
        return true;
      }
      ok := InitNodePool(poolAvailable);
      if ok {
        ok := AttachArena(base, size);
      }
    }

    /** Flush all caches back into the free list. */
    method ReclaimCache()
      requires Valid()
      modifies this`h, this`nodeFreeList, this`freeListHead, this`classCachedBytes, nodes, sizeClasses
      ensures Valid() && Abs() == Reclaim(old(Abs()))
    {
      hide Good, Reclaim, DrainBytes, Cached, ReclaimedFrom, Rep, ClassesRep, Listed;
      var i := 0;
      assert Classes(h.caches)[0..] == Classes(h.caches);
      ClassCount();
      while i < sizeClassCount
        invariant Rep() && ClassesRep() && Good(h) && i <= sizeClassCount == |h.caches| == |old(h).caches|
        invariant ReclaimedFrom(h, i) == ReclaimedFrom(old(h), 0)
        invariant Classes(h.caches)[i..] == Classes(old(h).caches)[i..]
        invariant DrainBytes(classCachedBytes, Cached(Classes(h.caches)[i..]))
               == DrainBytes(old(classCachedBytes), Cached(Classes(old(h).caches)))
      {
        ReclaimStep(h, i, classCachedBytes);
        DrainClass(i);
        i := i + 1;
      }
      ReclaimEnd(h, classCachedBytes);
      ReclaimedModel(old(h), old(Abs()));
    }

    lemma ClassCount()
      requires ClassesRep()
      ensures sizeClassCount == |h.caches|
    {
    }

    // ---------------------------------------------------------------- Allocate

    /** Reuse a cached block of exactly this size, if there is one. */
    method ReuseCached(need: nat) returns (found: bool, grantedSize: nat, grantedAddr: nat)
      requires Valid()
      modifies this`h, this`nodeFreeList, this`classCachedBytes, this`totalReusedBytes, nodes, sizeClasses
      ensures Valid()
      ensures var a := old(Abs()); var i := PopIndex(a.classes, 0, need);
        && found == (i < |a.classes|)
        && (!found ==> Abs() == a)
        && (found ==> (Abs(), Span(grantedAddr, grantedSize)) == Reuse(a, i) && grantedAddr > 0)
    {
      hide Good, Dropped, Detached, Reused, Rep, ClassesRep;
      ghost var before := h;
      var n; ghost var i;
      n, i := PopSizeClass(need);
      found, grantedSize, grantedAddr := n != NULL, 0, 0;
      if found {
        ReusedModel(before, old(Abs()), i);
        grantedSize, grantedAddr := UncacheBlock(before, i, n);
      }
    }

    /** Give back the node of a cached block in hand and take the block off the books. */
    method UncacheBlock(ghost before: Heap, ghost i: nat, n: int) returns (grantedSize: nat, grantedAddr: nat)
      requires Rep() && ClassesRep() && Settled(before) && CanDrop(before, i)
      requires n == before.caches[i].head && h == Detached(Dropped(before, i), n)
      modifies this`h, this`nodeFreeList, this`classCachedBytes, this`totalReusedBytes, nodes
      ensures Rep() && ClassesRep() && h == Reused(before, i)
      ensures grantedAddr == before.caches[i].blocks[0].addr > 0 && grantedSize == before.caches[i].blocks[0].size
      ensures classCachedBytes == Less(old(classCachedBytes), grantedSize)
      ensures totalReusedBytes == old(totalReusedBytes) + grantedSize
    {
      hide Good, Dropped, Detached, Pushed, Reused, InHand;
      ReuseReady(before, i);
      grantedAddr, grantedSize := nodes[n].address, nodes[n].size;
      FreeNode(n);
      if classCachedBytes >= grantedSize {
        classCachedBytes := classCachedBytes - grantedSize;
      }
      totalReusedBytes := totalReusedBytes + grantedSize;
    }

    /** A fit search that gives back the node of a block taken whole. */
    method FitFree(size: nat, fromTop: bool) returns (grantedSize: nat, grantedAddr: nat)
      requires Valid()
      modifies this`h, this`nodeFreeList, this`freeListHead, nodes
      ensures Valid()
      ensures var r := Fit(old(Abs()), AlignUp(size, granularity), fromTop);
        && Abs() == r.0
        && match r.1 case None => grantedAddr == 0 && grantedSize == 0
                     case Some(s) => grantedAddr == s.addr > 0 && grantedSize == s.size
    {
      hide Good;
      ghost var need := AlignUp(size, granularity);
      TakenEffect(h, need, granularity, fromTop, {});
      FittedModel(h, Abs(), need, fromTop);
      ghost var before := h;
      var removed;
      removed, grantedSize, grantedAddr := TakeFreeFit(size, fromTop);
      if removed != NULL {
        FreeNode(removed);
      } else {
        NodeNotNull(before, FitIndex(before.spans, need, fromTop));
      }
    }

    method TakeOrReclaim(size: nat, fromTop: bool) returns (grantedSize: nat, grantedAddr: nat)
      requires Valid()
      modifies this`h, this`nodeFreeList, this`freeListHead, this`classCachedBytes, nodes, sizeClasses
      ensures Valid()
      ensures var r := FitOrReclaim(old(Abs()), AlignUp(size, granularity), fromTop);
        && Abs() == r.0
        && match r.1 case None => grantedAddr == 0 && grantedSize == 0
                     case Some(s) => grantedAddr == s.addr > 0 && grantedSize == s.size
    {
      hide Good;
      grantedSize, grantedAddr := FitFree(size, fromTop);
      if grantedAddr == 0 && classCachedBytes > 0 {
        ReclaimCache();
        grantedSize, grantedAddr := FitFree(size, fromTop);
      }
    }

    method RecordGrant(size: nat, slot: nat)
      requires bandReqBytes != bandSlotBytes && bandReqBytes.Length == bandSlotBytes.Length == BAND_COUNT
      modifies this`usedBytes, this`liveRequestedBytes, this`activeAllocations, this`totalGrantedBytes, bandReqBytes, bandSlotBytes
      ensures Tally() == CountGrant(old(Tally()), size, slot)
    {
      usedBytes := usedBytes + slot;
      liveRequestedBytes := liveRequestedBytes + size;
      var b := Band(size);
      bandReqBytes[b] := bandReqBytes[b] + size;
      bandSlotBytes[b] := bandSlotBytes[b] + slot;
      activeAllocations := activeAllocations + 1;
      totalGrantedBytes := totalGrantedBytes + slot;
    }

    /** Reuse a cached block, or take one from the free list, draining the caches if need be. */
    method GrantSlot(size: nat, fromTop: bool) returns (grantedSize: nat, grantedAddr: nat)
      requires Valid()
      modifies this`h, this`nodeFreeList, this`freeListHead, this`classCachedBytes, this`totalReusedBytes, nodes, sizeClasses
      ensures Valid()
      ensures var r := Grant(old(Abs()), size, fromTop);
        && Abs() == r.0
        && match r.1 case None => grantedAddr == 0 && grantedSize == 0
                     case Some(s) => grantedAddr == s.addr > 0 && grantedSize == s.size
    {
      hide Good, Rep, ClassesRep, Settled, FitOrReclaim, Reuse, Tally;
      var found;
      found, grantedSize, grantedAddr := ReuseCached(AlignUp(size, granularity));
      if !found {
        grantedSize, grantedAddr := TakeOrReclaim(size, fromTop);
      }
      GrantUnfolds(old(Abs()), size, fromTop);
    }

    /** Hand out a slot of the rounded size, or null.  This is the model's Allocate, on every input. */
    method Allocate(size: nat, fromTop: bool) returns (addr: nat)
      requires Valid()
      modifies this, nodes, sizeClasses, bandReqBytes, bandSlotBytes
      ensures Valid() && nodes == old(nodes) && arenaBase == old(arenaBase)
      ensures var r := ArenaModel.Allocate(old(Abs()), size, fromTop);
        Abs() == r.0 && match r.1 case None => addr == 0 case Some(s) => addr == s.addr > 0
    {
      hide Good, Grant, CountGrant, Rep, ClassesRep, Settled;
      totalAllocationRequests := totalAllocationRequests + 1;
      if arenaBase == 0 {
        totalAllocationFailures := totalAllocationFailures + 1;
        return 0;
      }
      assert Abs() == CountRequest(old(Abs()));
      var grantedSize, grantedAddr := GrantSlot(size, fromTop);
      if grantedAddr == 0 {
        totalAllocationFailures := totalAllocationFailures + 1;
        return 0;
      }
      RecordGrant(size, grantedSize);
      return grantedAddr;
    }

    // ---------------------------------------------------------------- Free

    method IsProxyAddress(address: nat) returns (b: bool)
      ensures b == Abs().Owns(address)
    {
      b := arenaBase != 0 && address >= arenaBase && address < arenaBase + arenaSize;
    }

    method RecordRelease(size: nat, slot: nat)
      modifies this`usedBytes, this`liveRequestedBytes, this`activeAllocations, this`totalFreedBytes
      ensures Tally() == CountRelease(old(Tally()), size, slot)
    {
      usedBytes := if usedBytes >= slot then usedBytes - slot else 0;
      liveRequestedBytes := if liveRequestedBytes >= size then liveRequestedBytes - size else 0;
      if activeAllocations > 0 {
        activeAllocations := activeAllocations - 1;
      }
      totalFreedBytes := totalFreedBytes + slot;
    }

    /** Take a slot back.  This is the model's Free, on every input. */
    method Free(ptr: nat, size: nat)
      requires Valid()
      modifies this, nodes, sizeClasses, bandReqBytes, bandSlotBytes
      ensures Valid() && nodes == old(nodes) && arenaBase == old(arenaBase)
      ensures Abs() == ArenaModel.Free(old(Abs()), ptr, size)
    {
      hide Good;
      if ptr == 0 {
        return;
      }
      var mine := IsProxyAddress(ptr);
      if !mine {
        return;
      }
      var slot := AlignUp(size, granularity);
      RecycleBlock(ptr, slot);
      RecordRelease(size, slot);
    }

    /** Cache the block, or coalesce it into the free list. */
    method RecycleBlock(ptr: nat, slot: nat)
      requires Valid() && ptr > 0
      modifies this`h, this`nodeFreeList, this`freeListHead, this`sizeClassCount, this`classCachedBytes, nodes, sizeClasses
      ensures Valid() && Abs() == Recycle(old(Abs()), Span(ptr, slot))
    {
      hide Good, Push, Insert, Inserted, PushedBlock, PushesBlock, Classes;
      PushedBlockModel(h, Abs(), ptr, slot);
      assert Over(Abs(), h) == Abs();
      var cached := PushSizeClass(ptr, slot);
      assert Over(old(Abs()), h) == Abs();
      if cached {
        classCachedBytes := classCachedBytes + slot;
      } else {
        assert Over(Abs(), h) == Abs();
        InsertedModel(h, Abs(), ptr, slot);
        InsertedCaches(h, ptr, slot);
        var _ := InsertFreeSortedAndCoalesce(ptr, slot);
      }
    }

    // ---------------------------------------------------------------- Reporting

    /** Total and largest free block, by walking the free list. */
    method GetFreeStats() returns (freeBytes: nat, largestFreeSpan: nat)
      requires Valid()
      ensures freeBytes == Bytes(Abs().free)
      ensures forall r | r in Abs().free :: r.size <= largestFreeSpan
      ensures largestFreeSpan > 0 ==> exists r | r in Abs().free :: r.size == largestFreeSpan
    {
      hide Good, Rep;
      RepReads();
      freeBytes, largestFreeSpan := 0, 0;
      var cur := freeListHead;
      ghost var k := 0;
      FreeStart(h);
      while cur != NULL
        invariant k <= |h.free| == |h.spans| && cur == NodeOf(h, k)
        invariant freeBytes == Bytes(h.spans[..k])
        invariant forall i | 0 <= i < k :: h.spans[i].size <= largestFreeSpan
        invariant largestFreeSpan > 0 ==> exists i :: 0 <= i < k && h.spans[i].size == largestFreeSpan
        decreases |h.free| - k
      {
        FreeNodeAt(h, k);
        BytesPrefix(h.spans, k);
        freeBytes := freeBytes + nodes[cur].size;
        if nodes[cur].size > largestFreeSpan {
          largestFreeSpan := nodes[cur].size;
        }
        cur := nodes[cur].next;
        k := k + 1;
      }
      NodeNotNull(h, k);
      assert h.spans[..k] == h.spans;
    }
  }

  /** A pool of loose nodes. */
  function EmptyPool(n: nat): Heap {
    Heap(seq(n, _ => Node(0, 0, NULL)), seq(n, _ => NOWHERE), NULL, [], NULL, [], [], [])
  }

  lemma EmptyPoolGood(n: nat)
    ensures Good(EmptyPool(n))
  {
  }

  lemma BytesPrefix(s: seq<Span>, k: nat)
    requires k < |s|
    ensures Bytes(s[..k + 1]) == Bytes(s[..k]) + s[k].size
  {
    BytesSplit(s[..k + 1], k);
    assert s[..k + 1][..k] == s[..k];
  }

  /** The free node at position `k`, null off either end. */
  function NodeOf(h: Heap, k: int): int {
    if 0 <= k < |h.free| then h.free[k] else NULL
  }

  lemma ReuseReady(h: Heap, i: nat)
    requires Settled(h) && i < |h.caches| && CanDrop(h, i)
    ensures var n, b := h.caches[i].head, h.caches[i].blocks[0]; var d := Detached(Dropped(h, i), n);
      && InHand(d, n) && n < |d.mem| && d.mem[n].address == b.addr > 0 && d.mem[n].size == b.size
      && Pushed(d, n) == Reused(h, i) && Reused(h, i).caches == d.caches
    ensures Classes(h.caches)[i].blocks == h.caches[i].blocks
  {
    hide Good;
    DropReady(h, i);
    DroppedGood(h, i);
  }

  lemma LastFitStart(s: seq<Span>, need: nat)
    ensures LastFit(s, 0, need) == |s|
  {
  }

  lemma LastFitStep(s: seq<Span>, k: nat, need: nat)
    requires k < |s|
    ensures LastFit(s, k + 1, need) == if s[k].size >= need then k else LastFit(s, k, need)
  {
  }

  lemma GrantUnfolds(a: Arena, size: nat, fromTop: bool)
    requires a.gran > 0
    ensures var need := AlignUp(size, a.gran); var i := PopIndex(a.classes, 0, need);
      Grant(a, size, fromTop) == if i < |a.classes| then var r := Reuse(a, i); (r.0, Some(r.1)) else FitOrReclaim(a, need, fromTop)
  {
  }

  lemma FreeStart(h: Heap)
    requires Good(h)
    ensures |h.free| == |h.spans| && h.freeHead == if h.free == [] then NULL else h.free[0]
    ensures h.free != [] ==> 0 <= h.freeHead < |h.mem|
  {
    SpansMatch(h);
  }

  lemma FreeNodeAt(h: Heap, k: nat)
    requires Good(h) && k < |h.free|
    ensures FreeIndexed(h, k)
    ensures h.mem[h.free[k]].next == if k + 1 < |h.free| then h.free[k + 1] else NULL
    ensures h.mem[h.free[k]].address == h.spans[k].addr > 0 && h.mem[h.free[k]].size == h.spans[k].size
  {
    FreeIndex(h, k);
  }

  lemma ReclaimStep(h: Heap, i: nat, cached: nat)
    requires Good(h) && i < |h.caches|
    ensures var d, cs := Drained(h, i), Classes(h.caches);
      && |d.caches| == |h.caches| && ReclaimedFrom(h, i) == ReclaimedFrom(d, i + 1)
      && Classes(d.caches)[i + 1..] == cs[i + 1..] == cs[i..][1..]
      && DrainBytes(cached, Cached(cs[i..])) == DrainBytes(DrainBytes(cached, h.caches[i].blocks), Cached(cs[i + 1..]))
  {
    hide Good;
    var cs := Classes(h.caches);
    DrainedRest(h, i);
    assert cs[i..][0] == cs[i] && cs[i..][1..] == cs[i + 1..];
    DrainBytesConcat(cached, cs[i].blocks, Cached(cs[i + 1..]));
  }

  lemma ReclaimEnd(h: Heap, cached: nat)
    requires Good(h)
    ensures ReclaimedFrom(h, |h.caches|) == h
    ensures DrainBytes(cached, Cached(Classes(h.caches)[|h.caches|..])) == cached
  {
  }

  /** Draining class `i` leaves the other caches as they are. */
  lemma {:induction false} DrainedRest(h: Heap, i: nat)
    requires Good(h) && i < |h.caches|
    ensures |Drained(h, i).caches| == |h.caches|
    ensures Classes(Drained(h, i).caches)[i + 1..] == Classes(h.caches)[i + 1..]
    decreases |h.caches[i].nodes|
  {
    hide Good;
    if h.caches[i].nodes != [] {
      DrainedOnceCaches(h, i);
      DrainedRest(DrainedOnce(h, i), i);
    }
  }

  lemma DrainedOnceCaches(h: Heap, i: nat)
    requires Good(h) && i < |h.caches| && h.caches[i].nodes != []
    ensures |h.caches[i].nodes| == |h.caches[i].blocks|
    ensures var r, c := DrainedOnce(h, i), h.caches[i];
      && |r.caches| == |h.caches| && r.caches[i].nodes == c.nodes[1..] && r.caches[i].blocks == c.blocks[1..]
      && r.caches[i].classSize == c.classSize
      && forall k | 0 <= k < |h.caches| && k != i :: r.caches[k] == h.caches[k]
  {
    hide Good;
    DropReady(h, i);
    InsertedCaches(h, h.caches[i].blocks[0].addr, h.caches[i].blocks[0].size);
  }

  /** An insertion elsewhere leaves the link from the top of a cache to its second node. */
  lemma TopNext(h: Heap, h': Heap, i: nat)
    requires Good(h) && Good(h') && i < |h.caches| && h'.caches == h.caches && CanDrop(h, i) && CanDrop(h', i)
    ensures h.mem[h.caches[i].head].next == h'.mem[h'.caches[i].head].next
  {
    var c := h.caches[i];
    assert CacheGood(h, i) && CacheGood(h', i);
    StackAt(h.mem, h.place, i, c.head, c.nodes, 0);
    StackAt(h'.mem, h'.place, i, c.head, c.nodes, 0);
  }

  lemma HeadIsNode(h: Heap)
    requires Good(h)
    ensures h.spareHead == NULL <==> h.spare == []
  {
    SpareHead(h);
  }

  lemma NodeNotNull(h: Heap, k: nat)
    requires Good(h)
    ensures k < |h.free| ==> h.free[k] >= 0
  {
    if k < |h.free| {
      FreeIndex(h, k);
    }
  }

  lemma FreeNeighbours(h: Heap, k: nat)
    requires Good(h) && k < |h.free|
    ensures FreeIndexed(h, k) && (k > 0 ==> FreeIndexed(h, k - 1) && h.free[k - 1] != h.free[k])
  {
    CanBypass(h, k);
    if k > 0 {
      FreeIndex(h, k - 1);
      FreeIndex(h, k);
    }
  }
}
