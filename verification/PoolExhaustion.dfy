/** The node budget is exact: when the pool is no larger than the bound, a legal run drops memory.

    The run fills the arena from the bottom with a comb of slots, teeth of one granule and gaps between
    them.  It first releases sixteen gaps of one granule and sixteen of two, which go to the caches, and
    then tooth after tooth.  No released slot touches free space, so each release keeps a node for good. */
module PoolExhaustion {
  import opened Granules
  import opened Spans
  import opened ArenaModel
  import opened ArenaInvariant
  import opened ArenaSteps
  import opened ArenaTheorems
  import opened NodeBudget

  // ---------------------------------------------------------------- An isolated release costs a node

  lemma InsertAtGapped(s: seq<Span>, r: Span)
    requires Gapped(s) && r.size > 0 && Disjoint(s, r)
    requires forall i | 0 <= i < |s| :: s[i].End() != r.addr && r.End() != s[i].addr
    ensures Gapped(InsertAt(s, r))
  {
    var p, t := InsertPos(s, r.addr), InsertAt(s, r);
    InsertAtSorted(s, r);
    forall i, j | 0 <= i < j < |t| ensures t[i].End() < t[j].addr {
      InsertAtIndex(s, r, i);
      InsertAtIndex(s, r, j);
    }
  }

  /** Releasing a slot with no free byte on either side takes one node out of circulation. */
  lemma IsolatedRelease(w: World, nodes: nat, s: Slot)
    requires Invariant(w, nodes) && s in w.live && w.arena.spare > 0
    requires Cover(w.arena.free, s.addr - 1) == 0 && Cover(w.arena.free, SlotSpan(s, w.arena.gran).End()) == 0
    ensures ReleaseStep(w, s).arena.spare == w.arena.spare - 1
  {
    var a, r := w.arena, SlotSpan(s, w.arena.gran);
    PositiveSlot(w, s);
    HeldDisjoint(a, LiveSpans(w.live, a.gran), w.lost, IndexOf(w.live, s));
    FreeIsRecycle(a, s.addr, s.requested);
    if !Push(a, r).1 {
      forall i | 0 <= i < |a.free| ensures a.free[i].End() != r.addr && r.End() != a.free[i].addr {
        if a.free[i].End() == r.addr { CoverAt(a.free, i, r.addr - 1); }
        if r.End() == a.free[i].addr { CoverAt(a.free, i, r.End()); }
      }
      InsertAtGapped(a.free, r);
      CoalesceFixpoint(InsertAt(a.free, r));
    }
  }

  /** Bytes outside the arena, of held slots and of cached blocks are not free. */
  lemma NotFree(w: World, nodes: nat, b: int)
    requires Invariant(w, nodes)
    requires !w.arena.Owns(b) || Cover(LiveSpans(w.live, w.arena.gran), b) > 0 || Cover(Cached(w.arena.classes), b) > 0
    ensures Cover(w.arena.free, b) == 0
  {
    assert Holders(w.arena, LiveSpans(w.live, w.arena.gran), w.lost, b) == if w.arena.Owns(b) then 1 else 0;
  }

  lemma LiveNotFree(w: World, nodes: nat, s: Slot, b: int)
    requires Invariant(w, nodes) && s in w.live && SlotSpan(s, w.arena.gran).Has(b)
    ensures Cover(w.arena.free, b) == 0
  {
    CoverAt(LiveSpans(w.live, w.arena.gran), IndexOf(w.live, s), b);
    NotFree(w, nodes, b);
  }

  lemma CachedNotFree(w: World, nodes: nat, r: Span, b: int)
    requires Invariant(w, nodes) && r in Cached(w.arena.classes) && r.Has(b)
    ensures Cover(w.arena.free, b) == 0
  {
    var k :| 0 <= k < |Cached(w.arena.classes)| && Cached(w.arena.classes)[k] == r;
    CoverAt(Cached(w.arena.classes), k, b);
    NotFree(w, nodes, b);
  }

  // ---------------------------------------------------------------- Runs

  ghost predicate Reaches(w0: World, w: World) {
    exists ws: seq<World>, ops: seq<Op> :: IsRun(ws, ops) && ws[0] == w0 && ws[|ops|] == w
  }

  lemma ReachesSelf(w: World)
    ensures Reaches(w, w)
  {
    var ws: seq<World>, ops: seq<Op> := [w], [];
    assert IsRun(ws, ops) && ws[0] == w && ws[|ops|] == w;
  }

  lemma ExtendRun(ws: seq<World>, ops: seq<Op>, op: Op)
    requires IsRun(ws, ops)
    requires var w := ws[|ops|]; w.arena.gran > 0 && BandsSized(w.arena.counters) && Legal(w, op)
    ensures IsRun(ws + [Step(ws[|ops|], op)], ops + [op])
  {
    var ws', ops' := ws + [Step(ws[|ops|], op)], ops + [op];
    forall i | 0 <= i < |ops'|
      ensures ws'[i].arena.gran > 0 && BandsSized(ws'[i].arena.counters)
      ensures Legal(ws'[i], ops'[i]) && ws'[i + 1] == Step(ws'[i], ops'[i])
    {
      assert ws'[i] == ws[i];
      if i < |ops| {
        assert ops'[i] == ops[i] && ws'[i + 1] == ws[i + 1];
      } else {
        assert ops'[i] == op;
      }
    }
  }

  lemma ReachesStep(w0: World, w: World, op: Op)
    requires Reaches(w0, w) && w.arena.gran > 0 && BandsSized(w.arena.counters) && Legal(w, op)
    ensures Reaches(w0, Step(w, op))
  {
    var ws: seq<World>, ops: seq<Op> :| IsRun(ws, ops) && ws[0] == w0 && ws[|ops|] == w;
    ExtendRun(ws, ops, op);
    var ws', ops' := ws + [Step(w, op)], ops + [op];
    assert IsRun(ws', ops') && ws'[0] == w0 && ws'[|ops'|] == Step(w, op);
  }

  lemma ReachableInvariant(w0: World, w: World, nodes: nat)
    requires Reaches(w0, w) && Invariant(w0, nodes)
    ensures Invariant(w, nodes)
  {
    var ws: seq<World>, ops: seq<Op> :| IsRun(ws, ops) && ws[0] == w0 && ws[|ops|] == w;
    RunKeepsInvariant(ws, ops, nodes, |ops|);
  }

  /** Parameters an arena can be reserved with. */
  predicate Reservable(base: nat, size: nat, gran: nat, nodes: nat) {
    base > 0 && gran > 0 && base % gran == 0 && size % gran == 0 && nodes > 0 && gran <= size
  }

  ghost predicate Reachable(base: nat, size: nat, gran: nat, nodes: nat, w: World) {
    Reservable(base, size, gran, nodes) && Reaches(FreshWorld(base, size, gran, nodes), w)
  }

  lemma ReachableKeeps(base: nat, size: nat, gran: nat, nodes: nat, w: World)
    requires Reachable(base, size, gran, nodes, w)
    ensures Invariant(w, nodes)
  {
    FreshInvariant(base, size, gran, nodes);
    ReachableInvariant(FreshWorld(base, size, gran, nodes), w, nodes);
  }

  lemma ReachableBands(base: nat, size: nat, gran: nat, nodes: nat, w: World)
    requires Reachable(base, size, gran, nodes, w)
    ensures BandsSized(w.arena.counters)
  {
    ReachableKeeps(base, size, gran, nodes, w);
  }

  /** `k` granules, by repeated addition. */
  function Offset(k: nat, gran: nat): nat {
    if k == 0 then 0 else Offset(k - 1, gran) + gran
  }

  lemma {:induction false} OffsetIsProduct(k: nat, gran: nat)
    ensures Offset(k, gran) == k * gran
  {
    if k > 0 {
      OffsetIsProduct(k - 1, gran);
      assert k * gran == (k - 1) * gran + gran;
    }
  }

  lemma {:induction false} OffsetAdds(k: nat, n: nat, gran: nat)
    ensures Offset(k + n, gran) == Offset(k, gran) + Offset(n, gran)
  {
    if n > 0 { OffsetAdds(k, n - 1, gran); }
  }

  // ---------------------------------------------------------------- The comb

  const CACHED_GAPS := 2 * MAX_CACHED_PER_CLASS

  /** How many granules lie below place `t`.  Even places are teeth, odd ones gaps; the gaps at places 33
      to 63 are two granules wide, all else is one. */
  function Below(t: nat): nat {
    t + if t < 32 then 0 else if t >= 64 then 16 else (t - 32) / 2
  }

  predicate Wide(t: nat) { t % 2 == 1 && 33 <= t < 64 }

  function SlotAt(base: nat, gran: nat, t: nat): Slot {
    Slot(base + Offset(Below(t), gran), if Wide(t) then 2 * gran else gran)
  }

  lemma Widths(t: nat, gran: nat)
    requires gran > 0
    ensures Offset(Below(t + 1), gran) == Offset(Below(t), gran) + (if Wide(t) then 2 * gran else gran)
    ensures AlignUp(gran, gran) == gran && AlignUp(2 * gran, gran) == 2 * gran
  {
    assert Below(t + 1) == Below(t) + if Wide(t) then 2 else 1;
    assert Offset(2, gran) == Offset(1, gran) + gran == 2 * gran;
    OffsetAdds(Below(t), 2, gran);
    AlignUpLeast(gran, gran, gran);
    MultipleOf(2, gran);
    AlignUpLeast(2 * gran, 2 * gran, gran);
  }

  /** The order in which places are released: first the gaps to be cached, then the teeth, then the rest. */
  function Rank(m: nat, t: nat): nat {
    if t % 2 == 0 then CACHED_GAPS + t / 2
    else if t / 2 < CACHED_GAPS then t / 2
    else m + t / 2
  }

  function PlaceAt(m: nat, r: nat): nat {
    if r < CACHED_GAPS then 2 * r + 1
    else if r < CACHED_GAPS + m then 2 * (r - CACHED_GAPS)
    else 2 * (r - m) + 1
  }

  lemma RankOfPlace(m: nat, r: nat, t: nat)
    requires CACHED_GAPS < m && r < 2 * m && t < 2 * m
    ensures PlaceAt(m, r) < 2 * m && Rank(m, PlaceAt(m, r)) == r
    ensures t != PlaceAt(m, r) ==> Rank(m, t) != r
  {
  }

  lemma {:induction false} OffsetGrows(j: nat, k: nat, gran: nat)
    requires j < k && gran > 0
    ensures Offset(j, gran) < Offset(k, gran)
  {
    if j + 1 < k { OffsetGrows(j, k - 1, gran); }
  }

  lemma SlotsDiffer(base: nat, gran: nat, t: nat, u: nat)
    requires gran > 0 && t != u
    ensures SlotAt(base, gran, t) != SlotAt(base, gran, u)
  {
    var (lo, hi) := if t < u then (t, u) else (u, t);
    assert Below(lo) < Below(hi);
    OffsetGrows(Below(lo), Below(hi), gran);
  }

  lemma StaysLive(live: seq<Slot>, s: Slot, t: Slot)
    requires s in live && t in live && s != t
    ensures t in Without(live, s)
  {
    var k :| 0 <= k < |live| && live[k] == t;
    var i := IndexOf(live, s);
    assert Without(live, s)[if k < i then k else k - 1] == t;
  }

  // ---------------------------------------------------------------- Filling the arena

  ghost predicate InRange(a: Arena, base: nat, size: nat, gran: nat) {
    a.base == base && a.size == size && a.gran == gran
  }

  /** The arena from `next` on is one free block of `left` bytes and nothing is cached. */
  ghost predicate OneBlock(a: Arena, next: nat, left: nat) {
    a.free == [Span(next, left)] && a.classes == [] && a.cachedBytes == 0
  }

  lemma CarveBottom(a: Arena, next: nat, left: nat, n: nat)
    requires a.base > 0 && a.gran > 0 && BandsSized(a.counters) && OneBlock(a, next, left)
    requires AlignUp(n, a.gran) == n && left >= n + a.gran
    ensures var r := Allocate(a, n, false);
      && r.1 == Some(Span(next, n))
      && OneBlock(r.0, next + n, left - n) && r.0.spare == a.spare
      && InRange(r.0, a.base, a.size, a.gran)
    ensures LostByAllocate(a, n, false) == []
  {
    var g := a.gran;
    assert a.free[0 := Span(next + n, left - n)] == [Span(next + n, left - n)];
    assert TakeFit(a.free, n, g, false) == Some(Taken(Span(next, n), [Span(next + n, left - n)], false));
    assert Fit(CountRequest(a), n, false).1 == Some(Span(next, n));
    assert Fit(a, n, false).1 == Some(Span(next, n));
  }

  lemma CarveStep(w: World, next: nat, left: nat, n: nat)
    requires var a := w.arena;
      && a.base > 0 && a.gran > 0 && BandsSized(a.counters) && OneBlock(a, next, left)
      && AlignUp(n, a.gran) == n && left >= n + a.gran
    ensures var a := w.arena; var w' := AllocStep(w, n, false);
      && w'.live == w.live + [Slot(next, n)] && w'.lost == w.lost
      && OneBlock(w'.arena, next + n, left - n) && w'.arena.spare == a.spare
      && InRange(w'.arena, a.base, a.size, a.gran)
  {
    CarveBottom(w.arena, next, left, n);
    assert w.lost + [] == w.lost;
  }

  /** The first `k` places are carved, the rest of the arena is one free block. */
  ghost predicate Filled(w: World, nodes: nat, base: nat, size: nat, gran: nat, k: nat) {
    && InRange(w.arena, base, size, gran)
    && Offset(Below(k), gran) < size && OneBlock(w.arena, base + Offset(Below(k), gran), size - Offset(Below(k), gran))
    && w.arena.spare == nodes - 1 && w.lost == []
    && forall t | 0 <= t < k :: SlotAt(base, gran, t) in w.live
  }

  lemma FillOne(base: nat, size: nat, gran: nat, nodes: nat, w: World, k: nat) returns (w': World)
    requires Reachable(base, size, gran, nodes, w)
    requires Filled(w, nodes, base, size, gran, k) && Offset(Below(k + 1) + 1, gran) <= size
    ensures Reachable(base, size, gran, nodes, w') && Filled(w', nodes, base, size, gran, k + 1)
  {
    var s := SlotAt(base, gran, k);
    ReachableKeeps(base, size, gran, nodes, w);
    ReachableBands(base, size, gran, nodes, w);
    FilledStep(w, nodes, base, size, gran, k);
    hide Filled, Invariant, Reaches, AllocStep;
    ReachesStep(FreshWorld(base, size, gran, nodes), w, Alloc(s.requested, false));
    w' := AllocStep(w, s.requested, false);
  }

  lemma FilledStep(w: World, nodes: nat, base: nat, size: nat, gran: nat, k: nat)
    requires base > 0 && gran > 0 && BandsSized(w.arena.counters)
    requires Filled(w, nodes, base, size, gran, k) && Offset(Below(k + 1) + 1, gran) <= size
    ensures Filled(AllocStep(w, SlotAt(base, gran, k).requested, false), nodes, base, size, gran, k + 1)
  {
    hide Below, AllocStep;
    var s := SlotAt(base, gran, k);
    Widths(k, gran);
    CarveStep(w, base + Offset(Below(k), gran), size - Offset(Below(k), gran), s.requested);
    FillLive(w.live, AllocStep(w, s.requested, false).live, base, gran, k);
  }

  lemma FillLive(live: seq<Slot>, live': seq<Slot>, base: nat, gran: nat, k: nat)
    requires live' == live + [SlotAt(base, gran, k)]
    requires forall t | 0 <= t < k :: SlotAt(base, gran, t) in live
    ensures forall t | 0 <= t < k + 1 :: SlotAt(base, gran, t) in live'
  {
  }

  lemma FillNone(base: nat, size: nat, gran: nat, nodes: nat) returns (w: World)
    requires Reservable(base, size, gran, nodes)
    ensures Reachable(base, size, gran, nodes, w) && Filled(w, nodes, base, size, gran, 0)
  {
    AlignUpLeast(size, size, gran);
    w := FreshWorld(base, size, gran, nodes);
    ReachesSelf(w);
  }

  lemma {:induction false} FillMany(base: nat, size: nat, gran: nat, nodes: nat, k: nat) returns (w: World)
    requires Reservable(base, size, gran, nodes) && Offset(Below(k) + 1, gran) <= size
    ensures Reachable(base, size, gran, nodes, w) && Filled(w, nodes, base, size, gran, k)
  {
    if k == 0 {
      w := FillNone(base, size, gran, nodes);
    } else {
      OffsetGrows(Below(k - 1) + 1, Below(k) + 1, gran);
      var u := FillMany(base, size, gran, nodes, k - 1);
      w := FillOne(base, size, gran, nodes, u, k - 1);
    }
  }

  // ---------------------------------------------------------------- The caches fill up

  /** After `i` gaps went to the caches: up to sixteen blocks of one granule, then up to sixteen of two. */
  predicate Cachier(cs: seq<SizeClass>, gran: nat, i: nat) {
    if i == 0 then cs == []
    else if i <= 16 then |cs| == 1 && cs[0].classSize == gran && |cs[0].blocks| == i
    else
      && |cs| == 2 && cs[0].classSize == gran && |cs[0].blocks| == 16
      && cs[1].classSize == 2 * gran && |cs[1].blocks| == i - 16
  }

  lemma CachedOne(c: SizeClass)
    ensures Cached([c]) == c.blocks
  {
    assert [c][1..] == [];
  }

  lemma CachedTwo(c: SizeClass, d: SizeClass)
    ensures Cached([c, d]) == c.blocks + d.blocks
  {
    assert [c, d][1..] == [d];
    CachedOne(d);
  }

  /** The next gap finds its class with room, or opens it. */
  lemma PushCaches(a: Arena, r: Span, i: nat)
    requires a.gran > 0 && Cachier(a.classes, a.gran, i) && i < CACHED_GAPS && a.spare > 0
    requires r.size == if i < 16 then a.gran else 2 * a.gran
    ensures var (b, ok) := Push(a, r);
      && ok && Cachier(b.classes, a.gran, i + 1) && r in Cached(b.classes)
      && (forall x | x in Cached(a.classes) :: x in Cached(b.classes))
  {
    var b := Push(a, r).0;
    if i < 16 {
      assert a.classes != [] ==> a.classes == [a.classes[0]];
      if a.classes != [] { CachedOne(a.classes[0]); }
      assert b.classes == [b.classes[0]];
      CachedOne(b.classes[0]);
    } else {
      if i == 16 { assert a.classes == [a.classes[0]]; CachedOne(a.classes[0]); }
      else { assert a.classes == [a.classes[0], a.classes[1]]; CachedTwo(a.classes[0], a.classes[1]); }
      assert b.classes == [b.classes[0], b.classes[1]];
      CachedTwo(b.classes[0], b.classes[1]);
    }
  }

  /** A tooth finds its class full. */
  lemma PushRefuses(a: Arena, r: Span)
    requires a.gran > 0 && Cachier(a.classes, a.gran, CACHED_GAPS) && r.size == a.gran
    ensures Push(a, r) == (a, false)
  {
  }

  // ---------------------------------------------------------------- Releasing

  function MinNat(i: nat, j: nat): nat { if i < j then i else j }

  /** `r` releases were made, one node each; the gaps among them are cached, the other places held. */
  ghost predicate Combed(w: World, nodes: nat, base: nat, gran: nat, m: nat, r: nat)
    requires gran > 0
  {
    && w.arena.base == base && w.arena.gran == gran
    && r < nodes && w.arena.spare == nodes - 1 - r && w.lost == []
    && Cachier(w.arena.classes, gran, MinNat(r, CACHED_GAPS))
    && (forall t | 0 <= t < 2 * m && Rank(m, t) >= r :: SlotAt(base, gran, t) in w.live)
    && (forall t | 0 <= t < 2 * m && Rank(m, t) < MinNat(r, CACHED_GAPS) ::
          SlotSpan(SlotAt(base, gran, t), gran) in Cached(w.arena.classes))
  }

  /** The bytes of a place that is held or cached are not free. */
  lemma PlaceNotFree(w: World, nodes: nat, base: nat, gran: nat, m: nat, r: nat, t: nat, b: int)
    requires Invariant(w, nodes) && gran > 0 && Combed(w, nodes, base, gran, m, r) && t < 2 * m
    requires Rank(m, t) >= r || Rank(m, t) < CACHED_GAPS
    requires SlotSpan(SlotAt(base, gran, t), gran).Has(b)
    ensures Cover(w.arena.free, b) == 0
  {
    if Rank(m, t) >= r {
      LiveNotFree(w, nodes, SlotAt(base, gran, t), b);
    } else {
      CachedNotFree(w, nodes, SlotSpan(SlotAt(base, gran, t), gran), b);
    }
  }

  /** Next to the place released `r`-th nothing is free. */
  lemma PlaceIsolated(w: World, nodes: nat, base: nat, gran: nat, m: nat, r: nat)
    requires Invariant(w, nodes) && gran > 0 && Combed(w, nodes, base, gran, m, r)
    requires CACHED_GAPS < m && r < CACHED_GAPS + m
    ensures var s := SlotAt(base, gran, PlaceAt(m, r));
      Cover(w.arena.free, s.addr - 1) == 0 && Cover(w.arena.free, SlotSpan(s, gran).End()) == 0
  {
    NextToPlace(m, r);
    hide Combed, Invariant, Rank, PlaceAt, SlotAt, Cover, AlignUp;
    RightNotFree(w, nodes, base, gran, m, r, PlaceAt(m, r));
    if PlaceAt(m, r) > 0 {
      LeftNotFree(w, nodes, base, gran, m, r, PlaceAt(m, r));
    } else {
      FirstPlace(w, nodes, base, gran, m, r);
    }
  }

  lemma RightNotFree(w: World, nodes: nat, base: nat, gran: nat, m: nat, r: nat, t: nat)
    requires Invariant(w, nodes) && gran > 0 && Combed(w, nodes, base, gran, m, r) && t + 1 < 2 * m
    requires Rank(m, t + 1) >= r || Rank(m, t + 1) < CACHED_GAPS
    ensures Cover(w.arena.free, SlotSpan(SlotAt(base, gran, t), gran).End()) == 0
  {
    Touching(base, gran, t);
    Touching(base, gran, t + 1);
    hide Combed, Invariant, Rank, SlotAt, Cover, AlignUp;
    PlaceNotFree(w, nodes, base, gran, m, r, t + 1, SlotAt(base, gran, t + 1).addr);
  }

  lemma LeftNotFree(w: World, nodes: nat, base: nat, gran: nat, m: nat, r: nat, t: nat)
    requires Invariant(w, nodes) && gran > 0 && Combed(w, nodes, base, gran, m, r) && 0 < t < 2 * m
    requires Rank(m, t - 1) >= r || Rank(m, t - 1) < CACHED_GAPS
    ensures Cover(w.arena.free, SlotAt(base, gran, t).addr - 1) == 0
  {
    Touching(base, gran, t - 1);
    hide Combed, Invariant, Rank, SlotAt, Cover, AlignUp;
    PlaceNotFree(w, nodes, base, gran, m, r, t - 1, SlotAt(base, gran, t).addr - 1);
  }

  /** The neighbours of a place are held or cached when its turn comes. */
  lemma NextToPlace(m: nat, r: nat)
    requires CACHED_GAPS < m && r < CACHED_GAPS + m
    ensures var t := PlaceAt(m, r);
      && t + 1 < 2 * m && (Rank(m, t + 1) >= r || Rank(m, t + 1) < CACHED_GAPS)
      && (t > 0 ==> Rank(m, t - 1) >= r || Rank(m, t - 1) < CACHED_GAPS)
  {
  }

  /** Where a place ends the next one begins. */
  lemma Touching(base: nat, gran: nat, t: nat)
    requires gran > 0
    ensures SlotSpan(SlotAt(base, gran, t), gran).End() == SlotAt(base, gran, t + 1).addr
    ensures SlotSpan(SlotAt(base, gran, t), gran).size > 0
  {
    Widths(t, gran);
  }

  lemma FirstPlace(w: World, nodes: nat, base: nat, gran: nat, m: nat, r: nat)
    requires Invariant(w, nodes) && gran > 0 && Combed(w, nodes, base, gran, m, r)
    ensures Cover(w.arena.free, SlotAt(base, gran, 0).addr - 1) == 0
  {
    assert SlotAt(base, gran, 0).addr == base;
    NotFree(w, nodes, base - 1);
  }

  lemma LiveAfter(live: seq<Slot>, base: nat, gran: nat, m: nat, r: nat)
    requires gran > 0 && CACHED_GAPS < m && r < 2 * m
    requires forall t | 0 <= t < 2 * m && Rank(m, t) >= r :: SlotAt(base, gran, t) in live
    ensures SlotAt(base, gran, PlaceAt(m, r)) in live
    ensures forall t | 0 <= t < 2 * m && Rank(m, t) >= r + 1 ::
              SlotAt(base, gran, t) in Without(live, SlotAt(base, gran, PlaceAt(m, r)))
  {
    RankOfPlace(m, r, PlaceAt(m, r));
    forall t | 0 <= t < 2 * m && Rank(m, t) >= r + 1
      ensures SlotAt(base, gran, t) in Without(live, SlotAt(base, gran, PlaceAt(m, r)))
    {
      SlotsDiffer(base, gran, t, PlaceAt(m, r));
      StaysLive(live, SlotAt(base, gran, PlaceAt(m, r)), SlotAt(base, gran, t));
    }
  }

  /** What one release of the comb does to the caches. */
  lemma CachesAfter(w: World, nodes: nat, base: nat, gran: nat, m: nat, r: nat)
    requires Invariant(w, nodes) && gran > 0 && Combed(w, nodes, base, gran, m, r) && r + 1 < nodes
    requires CACHED_GAPS < m && r < CACHED_GAPS + m && SlotAt(base, gran, PlaceAt(m, r)) in w.live
    ensures var s := SlotAt(base, gran, PlaceAt(m, r)); var cs := ReleaseStep(w, s).arena.classes;
      && Cachier(cs, gran, MinNat(r + 1, CACHED_GAPS))
      && (forall x | x in Cached(w.arena.classes) :: x in Cached(cs))
      && (r < CACHED_GAPS ==> SlotSpan(s, gran) in Cached(cs))
  {
    var s := SlotAt(base, gran, PlaceAt(m, r));
    ReleaseClasses(w, nodes, s);
    PlaceSize(base, gran, m, r);
    hide Invariant, Push, ReleaseStep, Rank, PlaceAt, SlotAt, AlignUp;
    if r < CACHED_GAPS {
      PushCaches(w.arena, SlotSpan(s, gran), r);
    } else {
      PushRefuses(w.arena, SlotSpan(s, gran));
    }
  }

  lemma ReleaseClasses(w: World, nodes: nat, s: Slot)
    requires Invariant(w, nodes) && s in w.live
    ensures ReleaseStep(w, s).arena.classes == Push(w.arena, SlotSpan(s, w.arena.gran)).0.classes
  {
    PositiveSlot(w, s);
    HeldDisjoint(w.arena, LiveSpans(w.live, w.arena.gran), w.lost, IndexOf(w.live, s));
    hide Push;
    FreeIsRecycle(w.arena, s.addr, s.requested);
  }

  lemma PlaceSize(base: nat, gran: nat, m: nat, r: nat)
    requires gran > 0 && CACHED_GAPS < m && r < CACHED_GAPS + m
    ensures SlotSpan(SlotAt(base, gran, PlaceAt(m, r)), gran).size == if 16 <= r < CACHED_GAPS then 2 * gran else gran
  {
    Widths(PlaceAt(m, r), gran);
  }

  lemma CombOne(base: nat, size: nat, gran: nat, nodes: nat, w: World, m: nat, r: nat) returns (w': World)
    requires gran > 0 && Reachable(base, size, gran, nodes, w) && Combed(w, nodes, base, gran, m, r)
    requires CACHED_GAPS < m && r < CACHED_GAPS + m && r + 1 < nodes
    ensures Reachable(base, size, gran, nodes, w') && Combed(w', nodes, base, gran, m, r + 1)
  {
    hide Invariant, ReleaseStep, Reaches;
    var s := SlotAt(base, gran, PlaceAt(m, r));
    ReachableKeeps(base, size, gran, nodes, w);
    LiveAfter(w.live, base, gran, m, r);
    ReachableBands(base, size, gran, nodes, w);
    ReachesStep(FreshWorld(base, size, gran, nodes), w, Release(s));
    w' := ReleaseStep(w, s);
    ReleaseCombed(w, nodes, base, gran, m, r);
  }

  lemma ReleaseCombed(w: World, nodes: nat, base: nat, gran: nat, m: nat, r: nat)
    requires Invariant(w, nodes) && gran > 0 && Combed(w, nodes, base, gran, m, r)
    requires CACHED_GAPS < m && r < CACHED_GAPS + m && r + 1 < nodes
    requires SlotAt(base, gran, PlaceAt(m, r)) in w.live
    ensures Combed(ReleaseStep(w, SlotAt(base, gran, PlaceAt(m, r))), nodes, base, gran, m, r + 1)
  {
    var s := SlotAt(base, gran, PlaceAt(m, r));
    CombedSpares(w, nodes, base, gran, m, r);
    CachesAfter(w, nodes, base, gran, m, r);
    hide Invariant, ReleaseStep, Cachier, SlotAt, Rank, PlaceAt;
    LiveAfter(w.live, base, gran, m, r);
    var w' := ReleaseStep(w, s);
    forall t | 0 <= t < 2 * m && Rank(m, t) < MinNat(r + 1, CACHED_GAPS)
      ensures SlotSpan(SlotAt(base, gran, t), gran) in Cached(w'.arena.classes)
    {
      RankOfPlace(m, r, t);
    }
  }

  /** The release of an isolated place costs one node and loses nothing. */
  lemma CombedSpares(w: World, nodes: nat, base: nat, gran: nat, m: nat, r: nat)
    requires Invariant(w, nodes) && gran > 0 && Combed(w, nodes, base, gran, m, r)
    requires CACHED_GAPS < m && r < CACHED_GAPS + m && r + 1 < nodes
    requires SlotAt(base, gran, PlaceAt(m, r)) in w.live
    ensures var s := SlotAt(base, gran, PlaceAt(m, r)); var w' := ReleaseStep(w, s);
      && w'.arena.base == base && w'.arena.gran == gran && w'.live == Without(w.live, s)
      && w'.arena.spare == nodes - 2 - r && w'.lost == []
  {
    var s := SlotAt(base, gran, PlaceAt(m, r));
    PlaceIsolated(w, nodes, base, gran, m, r);
    hide Invariant, Cachier, SlotAt, Rank, PlaceAt, Cover, AlignUp;
    IsolatedRelease(w, nodes, s);
    ReleaseLosesExactly(w, s, nodes);
    StepKeepsRange(w, Release(s), nodes);
  }

  lemma {:induction false} CombMany(base: nat, size: nat, gran: nat, nodes: nat, w: World, m: nat, r: nat) returns (u: World)
    requires gran > 0 && Reachable(base, size, gran, nodes, w) && Combed(w, nodes, base, gran, m, 0)
    requires CACHED_GAPS < m && r <= CACHED_GAPS + m && r < nodes
    ensures Reachable(base, size, gran, nodes, u) && Combed(u, nodes, base, gran, m, r)
  {
    hide Combed, Reachable;
    if r == 0 {
      u := w;
    } else {
      var v := CombMany(base, size, gran, nodes, w, m, r - 1);
      u := CombOne(base, size, gran, nodes, v, m, r - 1);
    }
  }

  // ---------------------------------------------------------------- The bound is exact

  /** The smallest arena, in granules, that has room for the comb with full caches. */
  const COMB_GRANULES := 83

  lemma CombFits(size: nat, gran: nat, nodes: nat, m: nat)
    requires gran > 0 && COMB_GRANULES * gran <= size && 2 * nodes * gran <= size + 49 * gran
    requires m == if nodes < 66 then 33 else nodes - 33
    ensures Offset(Below(2 * m) + 1, gran) <= size
  {
    assert Below(2 * m) + 1 == 2 * m + 17;
    OffsetIsProduct(2 * m + 17, gran);
    if nodes >= 66 {
      assert (2 * m + 17) * gran == (2 * nodes - 49) * gran == 2 * nodes * gran - 49 * gran;
    }
  }

  lemma LastRelease(base: nat, size: nat, gran: nat, nodes: nat, u: World, s: Slot) returns (w: World)
    requires gran > 0 && Reservable(base, size, gran, nodes) && Reachable(base, size, gran, nodes, u)
    requires s in u.live && u.arena.spare == 0
    ensures Reachable(base, size, gran, nodes, w) && w.lost != []
  {
    ReachableKeeps(base, size, gran, nodes, u);
    ReachableBands(base, size, gran, nodes, u);
    hide Invariant, ReleaseStep;
    ReachesStep(FreshWorld(base, size, gran, nodes), u, Release(s));
    ReleaseLosesExactly(u, s, nodes);
    w := ReleaseStep(u, s);
  }

  /** A pool no larger than the bound can run dry: a legal run from a fresh arena ends in a release whose
      block is dropped for good. */
  lemma SmallPoolLoses(base: nat, size: nat, gran: nat, nodes: nat) returns (w: World)
    requires Reservable(base, size, gran, nodes) && COMB_GRANULES * gran <= size
    requires 2 * nodes * gran <= size + 49 * gran
    ensures Reachable(base, size, gran, nodes, w) && w.lost != []
  {
    var m: nat := if nodes < 66 then 33 else nodes - 33;
    CombFits(size, gran, nodes, m);
    var filled := FillMany(base, size, gran, nodes, 2 * m);
    var u := CombMany(base, size, gran, nodes, filled, m, nodes - 1);
    hide Filled, Invariant, Reachable, SlotAt, Rank, PlaceAt, Cachier;
    LiveAfter(u.live, base, gran, m, nodes - 1);
    w := LastRelease(base, size, gran, nodes, u, SlotAt(base, gran, PlaceAt(m, nodes - 1)));
  }

  lemma LargePoolKeeps(base: nat, size: nat, gran: nat, nodes: nat, w: World)
    requires Reachable(base, size, gran, nodes, w) && Sufficient(size, gran, nodes)
    ensures w.lost == []
  {
    var w0 := FreshWorld(base, size, gran, nodes);
    FreshInvariant(base, size, gran, nodes);
    AlignUpLeast(size, size, gran);
    var ws: seq<World>, ops: seq<Op> :| IsRun(ws, ops) && ws[0] == w0 && ws[|ops|] == w;
    SufficientRunLosesNothing(ws, ops, nodes, |ops|);
  }

  /** The exact size of the pool: some legal run of an arena loses memory if and only if twice the nodes are
      at most its granules and 49. */
  lemma LosesExactlyWhenSmall(base: nat, size: nat, gran: nat, nodes: nat)
    requires Reservable(base, size, gran, nodes) && COMB_GRANULES * gran <= size
    ensures (exists w :: Reachable(base, size, gran, nodes, w) && w.lost != []) <==> 2 * nodes * gran <= size + 49 * gran
  {
    hide Reachable;
    if 2 * nodes * gran <= size + 49 * gran {
      var w := SmallPoolLoses(base, size, gran, nodes);
    }
    forall w | Reachable(base, size, gran, nodes, w) && Sufficient(size, gran, nodes) ensures w.lost == [] {
      LargePoolKeeps(base, size, gran, nodes, w);
    }
  }

  /** At the default 4 KB granularity the one-gigabyte arena can outgrow its pool; at the others it cannot. */
  lemma DefaultArenaCanLose(base: nat, gran: nat)
    requires gran == 4096 || gran == 8192 || gran == 16384 || gran == 32768 || gran == 65536
    requires base > 0 && base % gran == 0
    ensures (exists w :: Reachable(base, 1024 * 1024 * 1024, gran, NODE_POOL_CAPACITY, w) && w.lost != []) <==> gran == 4096
  {
    LosesExactlyWhenSmall(base, 1024 * 1024 * 1024, gran, NODE_POOL_CAPACITY);
  }
}
