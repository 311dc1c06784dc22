/** Every critical section of the allocator keeps the tiling, byte for byte and node for node. */
module ArenaSteps {
  import opened Granules
  import opened Spans
  import opened ArenaModel
  import opened ArenaInvariant

  /** Where the bytes and the nodes are; `held` are the spans in callers' hands. */
  ghost predicate Placed(a: Arena, held: seq<Span>, lost: seq<Span>, nodes: nat) {
    && Params(a) && FreeOk(a) && ClassesOk(a)
    && Tiled(a, held, lost)
    && a.cachedBytes == Bytes(Cached(a.classes))
    && Bytes(held) + Bytes(a.free) + a.cachedBytes + Bytes(lost) == a.size
    && NodesKept(a, nodes)
  }

  lemma AppendSpan(s: seq<Span>, r: Span)
    ensures Bytes(s + [r]) == Bytes(s) + r.size
    ensures forall b :: Cover(s + [r], b) == Cover(s, b) + if r.Has(b) then 1 else 0
  {
    SingleSpan(r);
    BytesConcat(s, [r]);
    forall b ensures Cover(s + [r], b) == Cover(s, b) + if r.Has(b) then 1 else 0 {
      CoverConcat(s, [r], b);
    }
  }

  // ---------------------------------------------------------------- Insertion and reclaim

  /** An insertion keeps the list gapped; a span that finds no spare node is the only thing that can vanish. */
  lemma InsertKeeps(a: Arena, r: Span)
    requires a.gran > 0 && FreeOk(a) && r.size > 0 && Disjoint(a.free, r)
    requires r.addr % a.gran == 0 && r.size % a.gran == 0
    ensures var b := Insert(a, r);
      && FreeOk(b) && b.spare + |b.free| == a.spare + |a.free|
      && (a.spare == 0 ==> b == a)
      && (a.spare > 0 ==> Bytes(b.free) == Bytes(a.free) + r.size)
      && (a.spare > 0 ==> forall x :: Cover(b.free, x) == Cover(a.free, x) + if r.Has(x) then 1 else 0)
  {
    if a.spare > 0 {
      InsertAndCoalesceCorrect(a.free, r);
      InsertAndCoalesceGranular(a.free, r, a.gran);
    }
  }

  /** A drain needs a spare node only for its first block: every block gives back the node it came in.
      Started on an empty pool it loses exactly that block, otherwise nothing. */
  lemma {:induction false} DrainLosesAtMostFirst(a: Arena, queue: seq<Span>)
    ensures DrainLost(a, queue) == if queue != [] && a.spare == 0 then [queue[0]] else []
    decreases |queue|
  {
    if queue != [] {
      DrainLosesAtMostFirst(DrainOne(a, queue[0]), queue[1..]);
    }
  }

  ghost predicate Drainable(a: Arena, queue: seq<Span>)
    requires a.gran > 0
  {
    && FreeOk(a) && NonEmpty(queue) && Granular(queue, a.gran)
    && (forall x :: Cover(a.free, x) + Cover(queue, x) <= 1)
    && a.cachedBytes == Bytes(queue)
  }

  ghost predicate Drained(a: Arena, queue: seq<Span>, d: Arena, dropped: seq<Span>)
    requires a.gran > 0 && d.gran > 0
  {
    && FreeOk(d)
    && (forall x :: Cover(d.free, x) + Cover(dropped, x) == Cover(a.free, x) + Cover(queue, x))
    && Bytes(d.free) + Bytes(dropped) == Bytes(a.free) + Bytes(queue)
    && d.spare + |d.free| == a.spare + |a.free| + |queue|
    && d.cachedBytes == 0
  }

  lemma {:induction false} DrainKeeps(a: Arena, queue: seq<Span>)
    requires a.gran > 0 && Drainable(a, queue)
    ensures Drained(a, queue, Drain(a, queue), DrainLost(a, queue))
    decreases |queue|
  {
    if queue != [] {
      var r := queue[0];
      var next := DrainFirst(a, queue);
      DrainKeeps(next, queue[1..]);
      var head := if a.spare == 0 then [r] else [];
      var rest := DrainLost(next, queue[1..]);
      assert DrainLost(a, queue) == head + rest;
      SingleSpan(r);
      BytesConcat(head, rest);
      forall x
        ensures Cover(Drain(a, queue).free, x) + Cover(DrainLost(a, queue), x) == Cover(a.free, x) + Cover(queue, x)
      {
        CoverConcat(head, rest, x);
        DrainFirstCover(a, queue, x);
      }
    }
  }

  lemma DrainFirstCover(a: Arena, queue: seq<Span>, x: int)
    requires a.gran > 0 && Drainable(a, queue) && queue != []
    ensures Cover(DrainOne(a, queue[0]).free, x) + Cover(queue[1..], x) + (if a.spare == 0 && queue[0].Has(x) then 1 else 0)
         == Cover(a.free, x) + Cover(queue, x)
  {
    FirstDisjoint(a, queue);
    InsertKeeps(a, queue[0]);
  }

  lemma FirstDisjoint(a: Arena, queue: seq<Span>)
    requires a.gran > 0 && Drainable(a, queue) && queue != []
    ensures Disjoint(a.free, queue[0])
  {
    forall x | queue[0].Has(x) ensures Cover(a.free, x) == 0 {
      CoverAt(queue, 0, x);
      assert Cover(a.free, x) + Cover(queue, x) <= 1;
    }
  }

  lemma DrainFirst(a: Arena, queue: seq<Span>) returns (next: Arena)
    requires a.gran > 0 && Drainable(a, queue) && queue != []
    ensures next == DrainOne(a, queue[0]) && Drainable(next, queue[1..])
    ensures next.spare + |next.free| == a.spare + |a.free| + 1
    ensures Bytes(next.free) + (if a.spare == 0 then queue[0].size else 0) == Bytes(a.free) + queue[0].size
  {
    FirstDisjoint(a, queue);
    InsertKeeps(a, queue[0]);
    next := DrainOne(a, queue[0]);
    forall x ensures Cover(next.free, x) + Cover(queue[1..], x) <= 1 {
      DrainFirstCover(a, queue, x);
      assert Cover(a.free, x) + Cover(queue, x) <= 1;
    }
  }

  lemma CachedDrainable(a: Arena, held: seq<Span>, lost: seq<Span>, nodes: nat)
    requires Placed(a, held, lost, nodes)
    ensures Drainable(a, Cached(a.classes))
  {
    CachedOk(a);
    forall x ensures Cover(a.free, x) + Cover(Cached(a.classes), x) <= 1 {
      assert Holders(a, held, lost, x) <= 1;
    }
  }

  lemma ReclaimTiled(a: Arena, held: seq<Span>, lost: seq<Span>, nodes: nat)
    requires Placed(a, held, lost, nodes)
    ensures Tiled(Reclaim(a), held, lost + DrainLost(a, Cached(a.classes)))
  {
    var queue, b := Cached(a.classes), Reclaim(a);
    var dropped := DrainLost(a, queue);
    CachedDrainable(a, held, lost, nodes);
    DrainKeeps(a, queue);
    CachedEmptied(a.classes);
    forall x ensures Holders(b, held, lost + dropped, x) == if b.Owns(x) then 1 else 0 {
      assert Holders(a, held, lost, x) == if a.Owns(x) then 1 else 0;
      CoverConcat(lost, dropped, x);
    }
  }

  /** Reclaiming empties every cache into the free list and keeps the tiling. */
  lemma ReclaimKeeps(a: Arena, held: seq<Span>, lost: seq<Span>, nodes: nat)
    requires Placed(a, held, lost, nodes)
    ensures Placed(Reclaim(a), held, lost + DrainLost(a, Cached(a.classes)), nodes)
    ensures Cached(Reclaim(a).classes) == []
  {
    ReclaimTiled(a, held, lost, nodes);
    ReclaimCounts(a, held, lost, nodes);
    ReclaimFrame(a);
    EmptiedOk(a);
    hide Tiled, FreeOk, ClassesOk, Reclaim, DrainLost, Cached, Bytes, Emptied;
  }

  lemma ReclaimFrame(a: Arena)
    ensures var b := Reclaim(a);
      b == a.(free := b.free, spare := b.spare, cachedBytes := b.cachedBytes, classes := Emptied(a.classes))
  {
  }

  lemma ReclaimCounts(a: Arena, held: seq<Span>, lost: seq<Span>, nodes: nat)
    requires Placed(a, held, lost, nodes)
    ensures var b, dropped := Reclaim(a), DrainLost(a, Cached(a.classes));
      && a.gran > 0 && b.gran == a.gran && FreeOk(b) && ClassesOk(a)
      && Cached(b.classes) == [] && b.cachedBytes == 0
      && Bytes(held) + Bytes(b.free) + Bytes(lost + dropped) == a.size
      && b.spare + |b.free| == nodes
  {
    CachedDrainable(a, held, lost, nodes);
    DrainKeeps(a, Cached(a.classes));
    CachedEmptied(a.classes);
    BytesConcat(lost, DrainLost(a, Cached(a.classes)));
  }

  lemma EmptiedOk(a: Arena)
    requires a.gran > 0 && ClassesOk(a)
    ensures ClassesOk(a.(classes := Emptied(a.classes)))
  {
    forall i | 0 <= i < |a.classes| ensures ClassOk(Emptied(a.classes)[i], a.gran) {
      assert ClassOk(a.classes[i], a.gran);
    }
  }

  // ---------------------------------------------------------------- Granting

  lemma FitKeeps(a: Arena, held: seq<Span>, lost: seq<Span>, nodes: nat, need: nat, fromTop: bool)
    requires Placed(a, held, lost, nodes) && need % a.gran == 0
    ensures var r := Fit(a, need, fromTop);
      && (r.1.None? ==> r.0 == a)
      && (r.1.Some? ==>
            && Placed(r.0, held + [r.1.value], lost, nodes)
            && r.1.value.size == need && r.1.value.addr % a.gran == 0)
  {
    var r := Fit(a, need, fromTop);
    if r.1.Some? {
      TakeFitExact(a.free, need, a.gran, fromTop);
      TakeFitConserves(a.free, need, a.gran, fromTop);
      TakeFitGapped(a.free, need, a.gran, fromTop);
      AppendSpan(held, r.1.value);
      forall x ensures Holders(r.0, held + [r.1.value], lost, x) == if r.0.Owns(x) then 1 else 0 {
        assert Holders(a, held, lost, x) == if a.Owns(x) then 1 else 0;
      }
    }
  }

  lemma ReuseKeeps(a: Arena, held: seq<Span>, lost: seq<Span>, nodes: nat, i: nat)
    requires Placed(a, held, lost, nodes) && i < |a.classes| && a.classes[i].blocks != []
    ensures var r := Reuse(a, i);
      && Placed(r.0, held + [r.1], lost, nodes)
      && r.1.size == a.classes[i].classSize && r.1.addr % a.gran == 0
  {
    var c := a.classes[i];
    var r := Reuse(a, i);
    assert ClassOk(c, a.gran);
    CachedUpdate(a.classes, i, SizeClass(c.classSize, c.blocks[1..]));
    AppendSpan(held, r.1);
    forall x ensures Holders(r.0, held + [r.1], lost, x) == if r.0.Owns(x) then 1 else 0 {
      assert Holders(a, held, lost, x) == if a.Owns(x) then 1 else 0;
    }
  }

  lemma PlacedGran(a: Arena, held: seq<Span>, lost: seq<Span>, nodes: nat)
    requires Placed(a, held, lost, nodes)
    ensures a.gran > 0
  {
  }

  /** A grant is a block of exactly the rounded size, taken from bytes nobody held. */
  lemma GrantKeeps(a: Arena, held: seq<Span>, lost: seq<Span>, nodes: nat, size: nat, fromTop: bool)
    requires Placed(a, held, lost, nodes) && size > 0
    ensures var r := Grant(a, size, fromTop);
      var lost' := lost + LostByAllocate(a, size, fromTop);
      && (r.1.None? ==> Placed(r.0, held, lost', nodes))
      && (r.1.Some? ==>
            && Placed(r.0, held + [r.1.value], lost', nodes)
            && r.1.value.size == AlignUp(size, a.gran) && r.1.value.addr % a.gran == 0)
  {
    PlacedGran(a, held, lost, nodes);
    hide Placed, FitOrReclaim, AlignUp, Drains, DrainLost;
    var need := AlignUp(size, a.gran);
    var i := PopIndex(a.classes, 0, need);
    if i < |a.classes| {
      ReuseKeeps(a, held, lost, nodes, i);
      HitLosesNothing(a, size, fromTop);
      assert lost + [] == lost;
    } else {
      ArenaAttached(a, held, lost, nodes);
      MissKeeps(a, held, lost, nodes, need, fromTop);
    }
  }

  lemma HitLosesNothing(a: Arena, size: nat, fromTop: bool)
    requires a.gran > 0 && PopIndex(a.classes, 0, AlignUp(size, a.gran)) < |a.classes|
    ensures LostByAllocate(a, size, fromTop) == []
  {
  }

  /** The free list, or the free list after a drain, grants exactly what is needed. */
  lemma MissKeeps(a: Arena, held: seq<Span>, lost: seq<Span>, nodes: nat, need: nat, fromTop: bool)
    requires Placed(a, held, lost, nodes) && a.gran > 0 && need % a.gran == 0 && PopIndex(a.classes, 0, need) == |a.classes|
    ensures var r := FitOrReclaim(a, need, fromTop);
      var lost' := lost + if Drains(a, need, fromTop) then DrainLost(a, Cached(a.classes)) else [];
      && (r.1.None? ==> Placed(r.0, held, lost', nodes))
      && (r.1.Some? ==>
            && Placed(r.0, held + [r.1.value], lost', nodes)
            && r.1.value.size == need && r.1.value.addr % a.gran == 0)
  {
    hide Placed, Drain, DrainLost, Fit, Cached;
    FitKeeps(a, held, lost, nodes, need, fromTop);
    if Fit(a, need, fromTop).1.None? && a.cachedBytes > 0 {
      ReclaimKeeps(a, held, lost, nodes);
      FitKeeps(Reclaim(a), held, lost + DrainLost(a, Cached(a.classes)), nodes, need, fromTop);
    } else {
      assert lost + [] == lost;
    }
  }

  lemma ArenaAttached(a: Arena, held: seq<Span>, lost: seq<Span>, nodes: nat)
    requires Placed(a, held, lost, nodes)
    ensures a.base > 0
  {
  }

  // ---------------------------------------------------------------- Releasing

  lemma HeldDisjoint(a: Arena, held: seq<Span>, lost: seq<Span>, i: nat)
    requires Tiled(a, held, lost) && i < |held|
    ensures Disjoint(a.free, held[i])
    ensures held[i].size > 0 ==> a.Owns(held[i].addr)
  {
    forall x | held[i].Has(x) ensures Cover(a.free, x) == 0 && a.Owns(x) {
      CoverAt(held, i, x);
      assert Holders(a, held, lost, x) <= 1;
    }
    if held[i].size > 0 {
      assert held[i].Has(held[i].addr);
    }
  }

  lemma DropHeld(held: seq<Span>, i: nat)
    requires i < |held|
    ensures Bytes(held[..i] + held[i + 1..]) + held[i].size == Bytes(held)
    ensures forall b :: Cover(held[..i] + held[i + 1..], b) + (if held[i].Has(b) then 1 else 0) == Cover(held, b)
  {
    assert held[..i] + [] + held[i + 1..] == held[..i] + held[i + 1..];
    BytesUpdate(held, i, []);
    forall b
      ensures Cover(held[..i] + held[i + 1..], b) + (if held[i].Has(b) then 1 else 0) == Cover(held, b)
    {
      CoverUpdate(held, i, [], b);
    }
  }

  lemma NewClassKeeps(a: Arena, held: seq<Span>, lost: seq<Span>, nodes: nat, n: nat)
    requires Placed(a, held, lost, nodes)
    requires n > 0 && |a.classes| < MAX_SIZE_CLASSES && ClassIndex(a.classes, 0, n) == |a.classes|
    ensures Placed(a.(classes := a.classes + [SizeClass(n, [])]), held, lost, nodes)
  {
    var b := a.(classes := a.classes + [SizeClass(n, [])]);
    CachedAppendEmpty(a.classes, n);
    forall i | 0 <= i < |b.classes| ensures ClassOk(b.classes[i], b.gran) {
      if i < |a.classes| {
        assert ClassOk(a.classes[i], a.gran);
      }
    }
    forall x ensures Holders(b, held, lost, x) == if b.Owns(x) then 1 else 0 {
      assert Holders(a, held, lost, x) == if a.Owns(x) then 1 else 0;
    }
  }

  lemma CacheClassOk(a: Arena, r: Span, i: nat)
    requires a.gran > 0 && ClassesOk(a) && i < |a.classes|
    requires r.size == a.classes[i].classSize && |a.classes[i].blocks| < MAX_CACHED_PER_CLASS
    requires r.addr % a.gran == 0 && r.size % a.gran == 0
    ensures ClassesOk(a.(classes := a.classes[i := SizeClass(r.size, [r] + a.classes[i].blocks)]))
  {
    var c := a.classes[i];
    var b := a.(classes := a.classes[i := SizeClass(r.size, [r] + c.blocks)]);
    assert ClassOk(c, a.gran);
    assert ClassOk(SizeClass(r.size, [r] + c.blocks), a.gran);
    forall j | 0 <= j < |b.classes| ensures ClassOk(b.classes[j], b.gran) {
      assert ClassOk(a.classes[j], a.gran);
    }
  }

  /** Put `r` in front of class `i` and take it out of the held spans. */
  lemma CacheKeeps(a: Arena, held: seq<Span>, lost: seq<Span>, nodes: nat, k: nat, i: nat)
    requires Placed(a, held, lost, nodes) && k < |held| && i < |a.classes| && a.spare > 0
    requires held[k].size == a.classes[i].classSize && |a.classes[i].blocks| < MAX_CACHED_PER_CLASS
    requires held[k].addr % a.gran == 0 && held[k].size % a.gran == 0
    ensures var r, c := held[k], a.classes[i];
      Placed(a.(classes := a.classes[i := SizeClass(r.size, [r] + c.blocks)], spare := a.spare - 1,
                cachedBytes := a.cachedBytes + r.size),
             held[..k] + held[k + 1..], lost, nodes)
  {
    hide Placed, Params, ClassesOk, FreeOk, Tiled, Cached, Bytes;
    PlacedParts(a, held, lost, nodes);
    var r, c := held[k], a.classes[i];
    CacheClassOk(a, r, i);
    CacheCounts(a, held, k, i);
    var b := a.(classes := a.classes[i := SizeClass(r.size, [r] + c.blocks)], spare := a.spare - 1, cachedBytes := a.cachedBytes + r.size);
    CacheTiled(a, b, held, lost, k, i);
    SameShape(a, b);
    SameClasses(a.(classes := b.classes), b);
    Assembled(b, held[..k] + held[k + 1..], lost, nodes);
  }

  lemma SameShape(a: Arena, b: Arena)
    requires Params(a) && b.base == a.base && b.size == a.size && b.gran == a.gran
    ensures Params(b) && (FreeOk(a) && b.free == a.free ==> FreeOk(b))
  {
  }

  lemma SameClasses(a: Arena, b: Arena)
    requires a.gran > 0 && ClassesOk(a) && b.gran == a.gran && b.classes == a.classes
    ensures ClassesOk(b)
  {
  }

  lemma PlacedParts(a: Arena, held: seq<Span>, lost: seq<Span>, nodes: nat)
    requires Placed(a, held, lost, nodes)
    ensures Params(a) && a.gran > 0 && FreeOk(a) && ClassesOk(a) && Tiled(a, held, lost)
    ensures a.cachedBytes == Bytes(Cached(a.classes)) && NodesKept(a, nodes)
    ensures Bytes(held) + Bytes(a.free) + a.cachedBytes + Bytes(lost) == a.size
  {
  }

  lemma Assembled(a: Arena, held: seq<Span>, lost: seq<Span>, nodes: nat)
    requires Params(a) && a.gran > 0 && FreeOk(a) && ClassesOk(a) && Tiled(a, held, lost)
    requires a.cachedBytes == Bytes(Cached(a.classes)) && NodesKept(a, nodes)
    requires Bytes(held) + Bytes(a.free) + a.cachedBytes + Bytes(lost) == a.size
    ensures Placed(a, held, lost, nodes)
  {
  }

  lemma CacheCounts(a: Arena, held: seq<Span>, k: nat, i: nat)
    requires k < |held| && i < |a.classes|
    ensures var r, rest := held[k], held[..k] + held[k + 1..];
      var cs := a.classes[i := SizeClass(r.size, [r] + a.classes[i].blocks)];
      && Bytes(Cached(cs)) == Bytes(Cached(a.classes)) + r.size
      && |Cached(cs)| == |Cached(a.classes)| + 1
      && Bytes(rest) + r.size == Bytes(held)
  {
    var r, c := held[k], a.classes[i];
    CachedUpdate(a.classes, i, SizeClass(r.size, [r] + c.blocks));
    DropHeld(held, k);
    SingleSpan(r);
    BytesConcat([r], c.blocks);
  }

  lemma CacheTiled(a: Arena, b: Arena, held: seq<Span>, lost: seq<Span>, k: nat, i: nat)
    requires Tiled(a, held, lost) && k < |held| && i < |a.classes|
    requires b.classes == a.classes[i := SizeClass(held[k].size, [held[k]] + a.classes[i].blocks)]
    requires b.free == a.free && b.base == a.base && b.size == a.size
    ensures Tiled(b, held[..k] + held[k + 1..], lost)
  {
    var r, c, rest := held[k], a.classes[i], held[..k] + held[k + 1..];
    CachedUpdate(a.classes, i, SizeClass(r.size, [r] + c.blocks));
    DropHeld(held, k);
    SingleSpan(r);
    hide Cached, Bytes, Cover;
    forall x ensures Holders(b, rest, lost, x) == if b.Owns(x) then 1 else 0 {
      assert Holders(a, held, lost, x) == if a.Owns(x) then 1 else 0;
      CoverConcat([r], c.blocks, x);
    }
  }

  lemma InsertHeldKeeps(a: Arena, held: seq<Span>, lost: seq<Span>, nodes: nat, k: nat)
    requires Placed(a, held, lost, nodes) && k < |held| && held[k].size > 0
    requires held[k].addr % a.gran == 0 && held[k].size % a.gran == 0
    ensures Placed(Insert(a, held[k]), held[..k] + held[k + 1..], lost + (if a.spare > 0 then [] else [held[k]]), nodes)
  {
    hide Placed, Params, ClassesOk, FreeOk, Tiled, Cached, Bytes, Cover, Insert;
    PlacedParts(a, held, lost, nodes);
    var r := held[k];
    HeldDisjoint(a, held, lost, k);
    InsertKeeps(a, r);
    InsertTiled(a, held, lost, k);
    DropHeld(held, k);
    AppendSpan(lost, r);
    assert lost + [] == lost;
    SameShape(a, Insert(a, r));
    SameClasses(a, Insert(a, r));
    Assembled(Insert(a, r), held[..k] + held[k + 1..], lost + (if a.spare > 0 then [] else [r]), nodes);
  }

  lemma InsertTiled(a: Arena, held: seq<Span>, lost: seq<Span>, k: nat)
    requires Tiled(a, held, lost) && k < |held| && a.gran > 0 && FreeOk(a) && held[k].size > 0
    requires held[k].addr % a.gran == 0 && held[k].size % a.gran == 0 && Disjoint(a.free, held[k])
    ensures Tiled(Insert(a, held[k]), held[..k] + held[k + 1..], lost + (if a.spare > 0 then [] else [held[k]]))
  {
    var r, b := held[k], Insert(a, held[k]);
    var lost' := lost + (if a.spare > 0 then [] else [r]);
    InsertKeeps(a, r);
    DropHeld(held, k);
    AppendSpan(lost, r);
    assert lost + [] == lost;
    hide FreeOk, InsertAndCoalesce, Cached, Bytes, Cover;
    forall x ensures Holders(b, held[..k] + held[k + 1..], lost', x) == if b.Owns(x) then 1 else 0 {
      assert Holders(a, held, lost, x) == if a.Owns(x) then 1 else 0;
    }
  }

  lemma RecycleKeeps(a: Arena, held: seq<Span>, lost: seq<Span>, nodes: nat, k: nat)
    requires Placed(a, held, lost, nodes) && k < |held| && Whole(held[k], a.gran)
    ensures var r := held[k]; var p := Push(a, r);
      Placed(Recycle(a, r), held[..k] + held[k + 1..], lost + (if p.1 || p.0.spare > 0 then [] else [r]), nodes)
  {
    hide Placed, InsertAndCoalesce;
    var r := held[k];
    var i := ClassIndex(a.classes, 0, r.size);
    if i == |a.classes| && |a.classes| >= MAX_SIZE_CLASSES {
      InsertHeldKeeps(a, held, lost, nodes, k);
    } else {
      var b := a;
      if i == |a.classes| {
        NewClassKeeps(a, held, lost, nodes, r.size);
        b := a.(classes := a.classes + [SizeClass(r.size, [])]);
      }
      if |b.classes[i].blocks| >= MAX_CACHED_PER_CLASS || b.spare == 0 {
        InsertHeldKeeps(b, held, lost, nodes, k);
      } else {
        CacheKeeps(b, held, lost, nodes, k, i);
        assert lost + [] == lost;
      }
    }
  }
}
