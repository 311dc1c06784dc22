/** The arena allocator as a state machine on values: what each critical section of the allocator
    computes, written as functions.  The class in ProxyAllocator.dfy refines these functions with
    linked nodes; the invariants and whole-run theorems about them are in ArenaInvariant.dfy. */
module ArenaModel {
  import opened Granules
  import opened Spans

  const MAX_SIZE_CLASSES := 256
  const MAX_CACHED_PER_CLASS := 16
  const BAND_COUNT := 8

  /** The nodes of a one-megabyte pool, twelve bytes each. */
  const NODE_POOL_CAPACITY := 1024 * 1024 / 12

  /** One size-class reuse cache, most recently freed block first. */
  datatype SizeClass = SizeClass(classSize: nat, blocks: seq<Span>)

  datatype Counters = Counters(
    used: nat, liveRequested: nat, active: nat,
    requests: nat, failures: nat,
    granted: nat, freed: nat, reused: nat,
    bandReq: seq<nat>, bandSlot: seq<nat>)

  const ZERO_COUNTERS := Counters(0, 0, 0, 0, 0, 0, 0, 0, [0, 0, 0, 0, 0, 0, 0, 0], [0, 0, 0, 0, 0, 0, 0, 0])

  /** `base` is zero until the arena is reserved; `spare` counts the unused nodes of the pool. */
  datatype Arena = Arena(
    base: nat, size: nat, gran: nat,
    free: seq<Span>, classes: seq<SizeClass>, spare: nat, cachedBytes: nat,
    counters: Counters)
  {
    predicate Owns(p: int) { base != 0 && base <= p < base + size }
  }

  function Band(size: nat): (b: nat)
    ensures b < BAND_COUNT
  {
    if size < 4 * 1024 then 0
    else if size < 64 * 1024 then 1
    else if size < 256 * 1024 then 2
    else if size < 512 * 1024 then 3
    else if size < 1024 * 1024 then 4
    else if size < 4 * 1024 * 1024 then 5
    else if size < 16 * 1024 * 1024 then 6
    else 7
  }

  /** A subtraction that stops at its operand instead of going below zero. */
  function Less(total: nat, n: nat): nat { if total >= n then total - n else total }

  function Floor(total: nat, n: nat): nat { if total >= n then total - n else 0 }

  // ---------------------------------------------------------------- Free list

  /** Sorted insertion with coalescing.  It takes one node and gives back one per merge;
      with no spare node it fails and changes nothing. */
  function Insert(a: Arena, r: Span): (b: Arena)
    ensures b == a.(free := b.free, spare := b.spare)
  {
    if a.spare == 0 then a
    else
      var f := InsertAndCoalesce(a.free, r);
      a.(free := f, spare := a.spare + |a.free| - |f|)
  }

  function Fit(a: Arena, need: nat, fromTop: bool): (r: (Arena, Option<Span>))
    ensures r.0 == a.(free := r.0.free, spare := r.0.spare)
  {
    match TakeFit(a.free, need, a.gran, fromTop)
    case None => (a, None)
    case Some(t) => (a.(free := t.rest, spare := a.spare + (if t.whole then 1 else 0)), Some(t.span))
  }

  // ---------------------------------------------------------------- Size-class caches

  /** All cached blocks, in the order in which a reclaim visits them. */
  function Cached(cs: seq<SizeClass>): seq<Span> {
    if cs == [] then [] else cs[0].blocks + Cached(cs[1..])
  }

  function Emptied(cs: seq<SizeClass>): (r: seq<SizeClass>)
    ensures |r| == |cs|
    ensures forall i | 0 <= i < |cs| :: r[i] == SizeClass(cs[i].classSize, [])
  {
    seq(|cs|, i requires 0 <= i < |cs| => SizeClass(cs[i].classSize, []))
  }

  /** First class at or after `k` of size `n` that holds a block. */
  function PopIndex(cs: seq<SizeClass>, k: nat, n: nat): (r: nat)
    requires k <= |cs|
    ensures k <= r <= |cs|
    ensures r < |cs| ==> cs[r].classSize == n && cs[r].blocks != []
    ensures forall i | k <= i < r :: !(cs[i].classSize == n && cs[i].blocks != [])
    decreases |cs| - k
  {
    if k == |cs| || (cs[k].classSize == n && cs[k].blocks != []) then k else PopIndex(cs, k + 1, n)
  }

  /** A class for blocks of `n` bytes was opened. */
  predicate HasSize(cs: seq<SizeClass>, n: nat) { exists i :: 0 <= i < |cs| && cs[i].classSize == n }

  /** First class at or after `k` of size `n`. */
  function ClassIndex(cs: seq<SizeClass>, k: nat, n: nat): (r: nat)
    requires k <= |cs|
    ensures k <= r <= |cs|
    ensures r < |cs| ==> cs[r].classSize == n
    ensures forall i | k <= i < r :: cs[i].classSize != n
    decreases |cs| - k
  {
    if k == |cs| || cs[k].classSize == n then k else ClassIndex(cs, k + 1, n)
  }

  /** Cache a freed block in the class of its size; false when the caller must coalesce it instead. */
  function Push(a: Arena, r: Span): (p: (Arena, bool))
    ensures p.0 == a.(classes := p.0.classes, spare := p.0.spare)
  {
    var i := ClassIndex(a.classes, 0, r.size);
    if i == |a.classes| && |a.classes| >= MAX_SIZE_CLASSES then (a, false)
    else
      var cs := if i == |a.classes| then a.classes + [SizeClass(r.size, [])] else a.classes;
      if |cs[i].blocks| >= MAX_CACHED_PER_CLASS || a.spare == 0 then (a.(classes := cs), false)
      else (a.(classes := cs[i := SizeClass(r.size, [r] + cs[i].blocks)], spare := a.spare - 1), true)
  }

  /** Move one cached block to the free list.  The block is inserted first and its own cache node is
      given back afterwards, so the insertion can find the pool empty. */
  function DrainOne(a: Arena, r: Span): (b: Arena)
    ensures b == a.(free := b.free, spare := b.spare, cachedBytes := b.cachedBytes)
  {
    var inserted := Insert(a, r);
    inserted.(spare := inserted.spare + 1, cachedBytes := Less(a.cachedBytes, r.size))
  }

  function Drain(a: Arena, queue: seq<Span>): (b: Arena)
    ensures b == a.(free := b.free, spare := b.spare, cachedBytes := b.cachedBytes)
    decreases |queue|
  {
    if queue == [] then a else Drain(DrainOne(a, queue[0]), queue[1..])
  }

  function Reclaim(a: Arena): Arena {
    Drain(a, Cached(a.classes)).(classes := Emptied(a.classes))
  }

  // ---------------------------------------------------------------- Allocate and Free

  function FitOrReclaim(a: Arena, need: nat, fromTop: bool): (Arena, Option<Span>) {
    var r := Fit(a, need, fromTop);
    if r.1.None? && a.cachedBytes > 0 then Fit(Reclaim(a), need, fromTop) else r
  }

  /** Reuse a cached block of exactly this size. */
  function Reuse(a: Arena, i: nat): (Arena, Span)
    requires i < |a.classes| && a.classes[i].blocks != []
  {
    var c := a.classes[i];
    var r := c.blocks[0];
    (a.(classes := a.classes[i := SizeClass(c.classSize, c.blocks[1..])],
        spare := a.spare + 1,
        cachedBytes := Less(a.cachedBytes, r.size),
        counters := a.counters.(reused := a.counters.reused + r.size)),
     r)
  }

  function Grant(a: Arena, size: nat, fromTop: bool): (Arena, Option<Span>)
    requires a.gran > 0
  {
    var need := AlignUp(size, a.gran);
    var i := PopIndex(a.classes, 0, need);
    if i < |a.classes| then
      var r := Reuse(a, i);
      (r.0, Some(r.1))
    else FitOrReclaim(a, need, fromTop)
  }

  predicate BandsSized(c: Counters) { |c.bandReq| == |c.bandSlot| == BAND_COUNT }

  function CountGrant(c: Counters, size: nat, slot: nat): Counters
    requires BandsSized(c)
  {
    var b := Band(size);
    c.(used := c.used + slot, liveRequested := c.liveRequested + size, active := c.active + 1,
       granted := c.granted + slot,
       bandReq := c.bandReq[b := c.bandReq[b] + size],
       bandSlot := c.bandSlot[b := c.bandSlot[b] + slot])
  }

  function CountRelease(c: Counters, size: nat, slot: nat): Counters {
    c.(used := Floor(c.used, slot), liveRequested := Floor(c.liveRequested, size),
       active := if c.active > 0 then c.active - 1 else 0, freed := c.freed + slot)
  }

  function CountRequest(a: Arena): Arena {
    a.(counters := a.counters.(requests := a.counters.requests + 1))
  }

  function CountFailure(a: Arena): Arena {
    a.(counters := a.counters.(failures := a.counters.failures + 1))
  }

  function Allocate(a: Arena, size: nat, fromTop: bool): (Arena, Option<Span>)
    requires a.gran > 0 && BandsSized(a.counters)
  {
    var asked := CountRequest(a);
    if a.base == 0 then (CountFailure(asked), None)
    else
      var r := Grant(asked, size, fromTop);
      if r.1.None? then (CountFailure(r.0), None)
      else (r.0.(counters := CountGrant(r.0.counters, size, r.1.value.size)), r.1)
  }

  /** Everything a release does except the counters: cache the block, or else coalesce it. */
  function Recycle(a: Arena, r: Span): (b: Arena)
    ensures b.counters == a.counters
  {
    var p := Push(a, r);
    if p.1 then p.0.(cachedBytes := p.0.cachedBytes + r.size) else Insert(p.0, r)
  }

  function Free(a: Arena, ptr: nat, size: nat): Arena
    requires a.gran > 0
  {
    if ptr == 0 || !a.Owns(ptr) then a
    else
      var slot := AlignUp(size, a.gran);
      Recycle(a, Span(ptr, slot)).(counters := CountRelease(a.counters, size, slot))
  }

  /** A freshly reserved arena: one free block over the whole range, all other nodes spare. */
  function Fresh(base: nat, size: nat, gran: nat, nodes: nat): Arena
    requires gran > 0 && nodes > 0
  {
    var bytes := AlignUp(size, gran);
    Arena(base, bytes, gran, [Span(base, bytes)], [], nodes - 1, 0, ZERO_COUNTERS)
  }
}
