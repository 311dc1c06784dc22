/** When the fixed pool of list nodes is large enough, and what happens when it is not. */
module NodeBudget {
  import opened Granules
  import opened Spans
  import opened ArenaModel
  import opened ArenaInvariant
  import opened ArenaSteps
  import opened ArenaTheorems

  const MAX_CACHED := MAX_SIZE_CLASSES * MAX_CACHED_PER_CLASS

  // ---------------------------------------------------------------- Free blocks and granules

  lemma FreeInside(w: World, nodes: nat, i: nat)
    requires Invariant(w, nodes) && i < |w.arena.free|
    ensures w.arena.base <= w.arena.free[i].addr && w.arena.free[i].End() <= w.arena.base + w.arena.size
  {
    SpanInside(w.arena, LiveSpans(w.live, w.arena.gran), w.lost, w.arena.free, i);
  }

  /** At most half the granules, rounded up, can be the start of a free block. */
  lemma FreeBlocksByGranules(w: World, nodes: nat)
    requires Invariant(w, nodes)
    ensures 2 * |w.arena.free| * w.arena.gran <= w.arena.size + w.arena.gran
  {
    var a := w.arena;
    AddMultiples(a.base, a.size, a.gran);
    forall i | 0 <= i < |a.free| ensures a.base <= a.free[i].addr && a.free[i].End() <= a.base + a.size {
      FreeInside(w, nodes, i);
    }
    GappedCount(a.free, a.gran, a.base, a.base + a.size);
  }

  // ---------------------------------------------------------------- Free blocks are kept apart by others

  function Ends(s: seq<Span>, n: nat): (points: seq<int>)
    requires n <= |s|
    ensures |points| == n
    ensures forall i | 0 <= i < n :: points[i] == s[i].End()
  {
    seq(n, i requires 0 <= i < n => s[i].End())
  }

  lemma EndIsOutside(s: seq<Span>, i: nat, j: nat)
    requires Gapped(s) && i < |s| && j < |s|
    ensures !s[j].Has(s[i].End())
  {
    if j < i {
      assert s[j].End() < s[i].addr;
    } else if i < j {
      assert s[i].End() < s[j].addr;
    }
  }

  lemma GapIsHeld(a: Arena, others: seq<Span>, i: nat)
    requires a.gran > 0 && Gapped(a.free) && i + 1 < |a.free|
    requires forall b :: Cover(a.free, b) + Cover(others, b) == if a.Owns(b) then 1 else 0
    ensures Cover(others, a.free[i].End()) >= 1
  {
    var p := a.free[i].End();
    CoverAt(a.free, i, p - 1);
    CoverAt(a.free, i + 1, a.free[i + 1].addr);
    assert a.Owns(p - 1) && a.Owns(a.free[i + 1].addr);
    if Cover(a.free, p) >= 1 {
      var j := CoverWitness(a.free, p);
      EndIsOutside(a.free, i, j);
      assert false;
    }
  }

  lemma OneGapPerHolder(a: Arena, others: seq<Span>, r: Span, i: nat, j: nat)
    requires Gapped(a.free) && r in others && i < j < |a.free|
    requires forall b :: Cover(a.free, b) + Cover(others, b) == if a.Owns(b) then 1 else 0
    ensures !(r.Has(a.free[i].End()) && r.Has(a.free[j].End()))
  {
    if r.Has(a.free[i].End()) && r.Has(a.free[j].End()) {
      var b := a.free[j].addr;
      AtMostOne(a, others, b);
      CoverAt(a.free, j, b);
      var k :| 0 <= k < |others| && others[k] == r;
      CoverAt(others, k, b);
      assert false;
    }
  }

  lemma AtMostOne(a: Arena, others: seq<Span>, b: int)
    requires forall x :: Cover(a.free, x) + Cover(others, x) == if a.Owns(x) then 1 else 0
    ensures Cover(a.free, b) + Cover(others, b) <= 1
  {
  }

  /** Between any two free blocks lies a slot, a cached block or a lost one. */
  lemma FreeBlocksByOccupancy(w: World, nodes: nat)
    requires Invariant(w, nodes)
    ensures |w.arena.free| <= |w.live| + |Cached(w.arena.classes)| + |w.lost| + 1
  {
    var a, held := w.arena, LiveSpans(w.live, w.arena.gran);
    var cached := Cached(a.classes);
    var others := cached + held + w.lost;
    forall b ensures Cover(a.free, b) + Cover(others, b) == if a.Owns(b) then 1 else 0 {
      CoverConcat(cached + held, w.lost, b);
      CoverConcat(cached, held, b);
      assert Holders(a, held, w.lost, b) == if a.Owns(b) then 1 else 0;
    }
    if |a.free| > 0 {
      var points := Ends(a.free, |a.free| - 1);
      forall i | 0 <= i < |points| ensures Cover(others, points[i]) >= 1 {
        GapIsHeld(a, others, i);
      }
      forall r, i, j | r in others && 0 <= i < j < |points| ensures !(r.Has(points[i]) && r.Has(points[j])) {
        OneGapPerHolder(a, others, r, i, j);
      }
      PigeonHole(points, others);
    }
  }

  // ---------------------------------------------------------------- What a cached block pays for

  /** Blocks that are at least a granule each. */
  lemma {:induction false} BytesAtLeast(s: seq<Span>, gran: nat)
    requires forall i | 0 <= i < |s| :: s[i].size >= gran
    ensures Bytes(s) >= |s| * gran
  {
    if s != [] {
      BytesAtLeast(s[1..], gran);
      assert |s| * gran == (|s| - 1) * gran + gran;
    }
  }

  lemma {:induction false} BytesEqual(s: seq<Span>, n: nat)
    requires forall i | 0 <= i < |s| :: s[i].size == n
    ensures Bytes(s) == |s| * n
  {
    if s != [] {
      BytesEqual(s[1..], n);
      assert |s| * n == (|s| - 1) * n + n;
    }
  }

  /** Only the blocks of one and of two granules cost more nodes than the gaps between them save. */
  function Surplus(cs: seq<SizeClass>, gran: nat): nat {
    (if HasSize(cs, gran) then 2 * MAX_CACHED_PER_CLASS * gran else 0)
    + if HasSize(cs, 2 * gran) then MAX_CACHED_PER_CLASS * gran else 0
  }

  /** What one class adds to the surplus. */
  function Own(n: nat, gran: nat): nat {
    (if n == gran then 2 * MAX_CACHED_PER_CLASS * gran else 0) + if n == 2 * gran then MAX_CACHED_PER_CLASS * gran else 0
  }

  lemma ClassSurplus(c: SizeClass, gran: nat)
    requires gran > 0 && ClassOk(c, gran) && c.classSize % gran == 0
    ensures 3 * |c.blocks| * gran <= Bytes(c.blocks) + Own(c.classSize, gran)
  {
    BytesEqual(c.blocks, c.classSize);
    var k := ModParts(c.classSize, gran);
    GranuleSurplus(|c.blocks|, k, gran);
  }

  lemma GranuleSurplus(n: nat, k: nat, gran: nat)
    requires n <= MAX_CACHED_PER_CLASS && k > 0 && gran > 0
    ensures 3 * n * gran <= n * (k * gran) + Own(k * gran, gran)
  {
    assert n * (k * gran) == (n * k) * gran;
    if k >= 3 {
      assert 3 * n <= n * k;
      MulAtMost(3 * n, n * k, gran);
    } else if k == 2 {
      MulAtMost(3 * n, n * 2 + MAX_CACHED_PER_CLASS, gran);
    } else {
      MulAtMost(3 * n, n + 2 * MAX_CACHED_PER_CLASS, gran);
    }
  }

  lemma MulAtMost(x: nat, y: nat, gran: nat)
    requires x <= y
    ensures x * gran <= y * gran
  {
    assert y * gran == x * gran + (y - x) * gran;
  }

  lemma {:induction false} CacheSurplus(cs: seq<SizeClass>, gran: nat)
    requires gran > 0
    requires forall i, j | 0 <= i < j < |cs| :: cs[i].classSize != cs[j].classSize
    requires forall i | 0 <= i < |cs| :: ClassOk(cs[i], gran) && (cs[i].blocks != [] ==> cs[i].classSize % gran == 0)
    ensures 3 * |Cached(cs)| * gran <= Bytes(Cached(cs)) + Surplus(cs, gran)
  {
    if cs != [] {
      var c, rest := cs[0], cs[1..];
      assert forall i | 0 <= i < |rest| :: rest[i] == cs[i + 1];
      CacheSurplus(rest, gran);
      SurplusSplits(cs, gran);
      if c.blocks != [] { ClassSurplus(c, gran); }
      hide ClassOk, Surplus, Own;
      BytesConcat(c.blocks, Cached(rest));
      Distribute3(|c.blocks|, |Cached(rest)|, gran);
    }
  }

  lemma Distribute3(x: nat, y: nat, gran: nat)
    ensures 3 * (x + y) * gran == 3 * x * gran + 3 * y * gran
  {
  }

  lemma SurplusSplits(cs: seq<SizeClass>, gran: nat)
    requires cs != [] && gran > 0 && forall i, j | 0 <= i < j < |cs| :: cs[i].classSize != cs[j].classSize
    ensures Surplus(cs, gran) == Surplus(cs[1..], gran) + Own(cs[0].classSize, gran)
  {
    HeadSize(cs, gran);
    HeadSize(cs, 2 * gran);
    forall i | 0 <= i < |cs[1..]| ensures cs[1..][i].classSize != cs[0].classSize { assert cs[1..][i] == cs[i + 1]; }
  }

  lemma HeadSize(cs: seq<SizeClass>, n: nat)
    requires cs != []
    ensures HasSize(cs, n) <==> cs[0].classSize == n || HasSize(cs[1..], n)
  {
    if HasSize(cs[1..], n) {
      var i :| 0 <= i < |cs[1..]| && cs[1..][i].classSize == n;
      assert cs[i + 1].classSize == n;
    }
    if HasSize(cs, n) && cs[0].classSize != n {
      var i :| 0 <= i < |cs| && cs[i].classSize == n;
      assert cs[1..][i - 1].classSize == n;
    }
  }

  // ---------------------------------------------------------------- Enough nodes

  /** What was dropped were whole blocks. */
  ghost predicate LostWhole(w: World) {
    forall i | 0 <= i < |w.lost| :: w.lost[i].size >= w.arena.gran
  }

  /** The nodes that free list and caches together can ever need: half the granules, rounded up, and 24
      more for sixteen cached blocks of one granule and sixteen of two. */
  lemma NodesInUse(w: World, nodes: nat)
    requires Invariant(w, nodes) && LostWhole(w)
    ensures 2 * (|w.arena.free| + |Cached(w.arena.classes)|) * w.arena.gran <= w.arena.size + 49 * w.arena.gran
  {
    var a, g, cached := w.arena, w.arena.gran, Cached(w.arena.classes);
    var held := LiveSpans(w.live, g);
    FreeBlocksByOccupancy(w, nodes);
    WholeBlocks(w, nodes);
    BytesAtLeast(a.free, g);
    BytesAtLeast(held, g);
    BytesAtLeast(w.lost, g);
    ClassSizes(a);
    CacheSurplus(a.classes, g);
    Balance(|a.free|, |cached|, |held|, |w.lost|, g, Bytes(a.free), Bytes(cached), Bytes(held), Bytes(w.lost), a.size);
  }

  lemma WholeBlocks(w: World, nodes: nat)
    requires Invariant(w, nodes)
    ensures forall i | 0 <= i < |w.arena.free| :: w.arena.free[i].size >= w.arena.gran
    ensures forall i | 0 <= i < |w.live| :: LiveSpans(w.live, w.arena.gran)[i].size >= w.arena.gran
    ensures Bytes(w.arena.free) + Bytes(Cached(w.arena.classes)) + Bytes(LiveSpans(w.live, w.arena.gran)) + Bytes(w.lost) == w.arena.size
  {
    forall i | 0 <= i < |w.arena.free| ensures w.arena.free[i].size >= w.arena.gran {
      PositiveMultiple(w.arena.free[i].size, w.arena.gran);
    }
    forall i | 0 <= i < |w.live| ensures LiveSpans(w.live, w.arena.gran)[i].size >= w.arena.gran {
      PositiveSlot(w, w.live[i]);
      PositiveMultiple(AlignUp(w.live[i].requested, w.arena.gran), w.arena.gran);
    }
  }

  lemma ClassSizes(a: Arena)
    requires a.gran > 0 && ClassesOk(a)
    ensures forall i | 0 <= i < |a.classes| ::
      ClassOk(a.classes[i], a.gran) && (a.classes[i].blocks != [] ==> a.classes[i].classSize % a.gran == 0)
  {
    forall i | 0 <= i < |a.classes| && a.classes[i].blocks != [] ensures a.classes[i].classSize % a.gran == 0 {
      assert ClassOk(a.classes[i], a.gran);
      assert a.classes[i].blocks[0].size == a.classes[i].classSize;
    }
  }

  lemma Balance(f: nat, n: nat, l: nat, d: nat, g: nat, free: nat, cached: nat, held: nat, lost: nat, size: nat)
    requires f <= l + n + d + 1 && free + cached + held + lost == size
    requires free >= f * g && held >= l * g && lost >= d * g && 3 * n * g <= cached + 48 * g
    ensures 2 * (f + n) * g <= size + 49 * g
  {
    MulAtMost(f, l + n + d + 1, g);
    assert (l + n + d + 1) * g == l * g + n * g + d * g + g;
    assert 2 * (f + n) * g == 2 * (f * g) + 2 * (n * g) && 3 * n * g == 3 * (n * g);
  }

  /** More nodes than that. */
  predicate Sufficient(size: nat, gran: nat, nodes: nat) {
    size + 49 * gran < 2 * nodes * gran
  }

  lemma MulOrder(x: nat, y: nat, gran: nat)
    requires gran > 0
    ensures x * gran <= y * gran ==> x <= y
  {
    if x > y {
      MulMore(x - y, gran);
      assert x * gran == (x - y) * gran + y * gran;
    }
  }

  lemma MulMore(x: nat, gran: nat)
    requires x > 0 && gran > 0
    ensures x * gran > 0
  {
  }

  /** With a sufficient pool no insertion and no cache push ever finds it empty. */
  lemma SufficientMeansSpare(w: World, nodes: nat)
    requires Invariant(w, nodes) && LostWhole(w) && Sufficient(w.arena.size, w.arena.gran, nodes)
    ensures w.arena.spare > 0
  {
    NodesInUse(w, nodes);
    PoolSplits(w, nodes);
    MulOrder(2 * nodes, 2 * (|w.arena.free| + |Cached(w.arena.classes)|), w.arena.gran);
  }

  lemma PoolSplits(w: World, nodes: nat)
    requires Invariant(w, nodes)
    ensures w.arena.gran > 0 && w.arena.spare + |w.arena.free| + |Cached(w.arena.classes)| == nodes
  {
  }

  lemma StepKeepsRange(w: World, op: Op, nodes: nat)
    requires Invariant(w, nodes) && Legal(w, op)
    ensures var w' := Step(w, op);
      w'.arena.base == w.arena.base && w'.arena.size == w.arena.size && w'.arena.gran == w.arena.gran
  {
    if op.Alloc? {
      GrantCounters(CountRequest(w.arena), op.size, op.fromTop);
    }
  }

  /** A release drops its block exactly when no node is spare. */
  lemma ReleaseLosesExactly(w: World, s: Slot, nodes: nat)
    requires Invariant(w, nodes) && s in w.live
    ensures ReleaseStep(w, s).lost == w.lost + (if w.arena.spare > 0 then [] else [SlotSpan(s, w.arena.gran)])
  {
    PositiveSlot(w, s);
    HeldDisjoint(w.arena, LiveSpans(w.live, w.arena.gran), w.lost, IndexOf(w.live, s));
  }

  /** A request drops a block exactly when it has to drain the caches and no node is spare. */
  lemma AllocLosesExactly(w: World, size: nat, fromTop: bool, nodes: nat)
    requires Invariant(w, nodes) && size > 0
    ensures var a := w.arena;
      AllocStep(w, size, fromTop).lost
      == w.lost + (if Drains(a, AlignUp(size, a.gran), fromTop) && a.spare == 0 then [Cached(a.classes)[0]] else [])
  {
    DrainLosesAtMostFirst(w.arena, Cached(w.arena.classes));
    CachedOk(w.arena);
    BytesZero(Cached(w.arena.classes));
  }

  /** Whatever is ever dropped is a whole block, so LostWhole holds in every run from a fresh arena. */
  lemma LostStaysWhole(w: World, op: Op, nodes: nat)
    requires Invariant(w, nodes) && LostWhole(w) && Legal(w, op)
    ensures LostWhole(Step(w, op))
  {
    StepKeepsRange(w, op, nodes);
    match op
    case Alloc(size, fromTop) =>
      AllocLosesExactly(w, size, fromTop, nodes);
      CachedOk(w.arena);
      if Cached(w.arena.classes) != [] { PositiveMultiple(Cached(w.arena.classes)[0].size, w.arena.gran); }
      BytesZero(Cached(w.arena.classes));
    case Release(slot) =>
      ReleaseLosesExactly(w, slot, nodes);
      PositiveSlot(w, slot);
      PositiveMultiple(SlotSpan(slot, w.arena.gran).size, w.arena.gran);
  }

  lemma StepLosesNothing(w: World, op: Op, nodes: nat)
    requires Invariant(w, nodes) && Legal(w, op) && w.arena.spare > 0
    ensures Step(w, op).lost == w.lost
  {
    match op
    case Alloc(size, fromTop) => AllocLosesExactly(w, size, fromTop, nodes);
    case Release(slot) => ReleaseLosesExactly(w, slot, nodes);
  }

  ghost predicate NothingLostSince(w: World, w': World) {
    w'.lost == w.lost && w'.arena.size == w.arena.size && w'.arena.gran == w.arena.gran
  }

  lemma SufficientStepLosesNothing(w: World, op: Op, nodes: nat)
    requires Invariant(w, nodes) && LostWhole(w) && Legal(w, op) && Sufficient(w.arena.size, w.arena.gran, nodes)
    ensures NothingLostSince(w, Step(w, op))
  {
    SufficientMeansSpare(w, nodes);
    StepLosesNothing(w, op, nodes);
    StepKeepsRange(w, op, nodes);
  }

  /** With a sufficient pool no legal run ever loses a byte. */
  lemma {:induction false} SufficientRunLosesNothing(ws: seq<World>, ops: seq<Op>, nodes: nat, i: nat)
    requires IsRun(ws, ops) && Invariant(ws[0], nodes) && i < |ws|
    requires LostWhole(ws[0]) && Sufficient(ws[0].arena.size, ws[0].arena.gran, nodes)
    ensures NothingLostSince(ws[0], ws[i])
  {
    hide Invariant, Step, Legal;
    if i > 0 {
      SufficientRunLosesNothing(ws, ops, nodes, i - 1);
      RunKeepsInvariant(ws, ops, nodes, i - 1);
      SufficientStepLosesNothing(ws[i - 1], ops[i - 1], nodes);
    }
  }

  /** The one-gigabyte arena is covered from 8 KB slots upward; 4 KB slots are outside the bound. */
  lemma GigabyteArena(gran: nat)
    requires gran == 4096 || gran == 8192 || gran == 16384 || gran == 32768 || gran == 65536
    ensures Sufficient(1024 * 1024 * 1024, gran, NODE_POOL_CAPACITY) <==> gran >= 8192
  {
  }

  // ---------------------------------------------------------------- The bound by occupancy

  /** At any granularity nothing is lost while the live slots leave room for the caches twice over. */
  lemma FewSlotsMeanSpare(w: World, nodes: nat)
    requires Invariant(w, nodes) && |w.live| + |w.lost| + 2 * MAX_CACHED + 2 <= nodes
    ensures w.arena.spare > 0
  {
    FreeBlocksByOccupancy(w, nodes);
    CachedOk(w.arena);
  }
}
