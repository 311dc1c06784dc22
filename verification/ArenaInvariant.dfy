/** What every run of the arena allocator keeps.

    A world is an arena together with the slots its callers hold and the spans that were dropped
    because the node pool ran dry.  The callers' side of the bargain is `Legal`: request a positive
    size, and release a held slot with the size it was requested with. */
module ArenaInvariant {
  import opened Granules
  import opened Spans
  import opened ArenaModel

  /** A slot in a caller's hands: where it starts and how many bytes were asked for. */
  datatype Slot = Slot(addr: nat, requested: nat)

  datatype World = World(arena: Arena, live: seq<Slot>, lost: seq<Span>)

  datatype Op = Alloc(size: nat, fromTop: bool) | Release(slot: Slot)

  function SlotSpan(s: Slot, gran: nat): Span
    requires gran > 0
  {
    Span(s.addr, AlignUp(s.requested, gran))
  }

  function LiveSpans(live: seq<Slot>, gran: nat): (r: seq<Span>)
    requires gran > 0
    ensures |r| == |live|
    ensures forall i | 0 <= i < |live| :: r[i] == SlotSpan(live[i], gran)
  {
    seq(|live|, i requires 0 <= i < |live| => SlotSpan(live[i], gran))
  }

  function Requested(live: seq<Slot>): nat {
    if live == [] then 0 else live[0].requested + Requested(live[1..])
  }

  function Total(s: seq<nat>): nat {
    if s == [] then 0 else s[0] + Total(s[1..])
  }

  // ---------------------------------------------------------------- The invariant

  ghost predicate Params(a: Arena) {
    && a.base > 0 && a.gran > 0
    && a.base % a.gran == 0 && a.size % a.gran == 0
  }

  ghost predicate FreeOk(a: Arena)
    requires a.gran > 0
  {
    Gapped(a.free) && Granular(a.free, a.gran)
  }

  ghost predicate ClassOk(c: SizeClass, gran: nat)
    requires gran > 0
  {
    && |c.blocks| <= MAX_CACHED_PER_CLASS
    && c.classSize > 0
    && Granular(c.blocks, gran)
    && forall i | 0 <= i < |c.blocks| :: c.blocks[i].size == c.classSize
  }

  ghost predicate ClassesOk(a: Arena)
    requires a.gran > 0
  {
    && |a.classes| <= MAX_SIZE_CLASSES
    && (forall i, j | 0 <= i < j < |a.classes| :: a.classes[i].classSize != a.classes[j].classSize)
    && forall i | 0 <= i < |a.classes| :: ClassOk(a.classes[i], a.gran)
  }

  /** How many of the free list, the caches, the callers and the losses hold byte `b`. */
  ghost function Holders(a: Arena, held: seq<Span>, lost: seq<Span>, b: int): nat {
    Cover(a.free, b) + Cover(Cached(a.classes), b) + Cover(held, b) + Cover(lost, b)
  }

  /** Every byte of the arena has exactly one holder, and nothing outside has any. */
  ghost predicate Tiled(a: Arena, held: seq<Span>, lost: seq<Span>) {
    forall b :: Holders(a, held, lost, b) == if a.Owns(b) then 1 else 0
  }

  ghost predicate LiveOk(live: seq<Slot>, gran: nat)
    requires gran > 0
  {
    forall i | 0 <= i < |live| :: live[i].requested > 0 && live[i].addr % gran == 0
  }

  /** What the counters say the callers hold is what they hold. */
  ghost predicate Owed(c: Counters, live: seq<Slot>, gran: nat)
    requires gran > 0
  {
    && c.used == Bytes(LiveSpans(live, gran))
    && c.liveRequested == Requested(live)
    && c.active == |live|
    && c.granted == c.freed + c.used
  }

  ghost predicate BandsOk(c: Counters) {
    && BandsSized(c)
    && Total(c.bandSlot) == c.granted
    && forall i | 0 <= i < BAND_COUNT :: c.bandReq[i] <= c.bandSlot[i]
  }

  ghost predicate Accounted(a: Arena, live: seq<Slot>, lost: seq<Span>)
    requires a.gran > 0
  {
    && Owed(a.counters, live, a.gran)
    && BandsOk(a.counters)
    && a.counters.reused <= a.counters.granted
    && a.cachedBytes == Bytes(Cached(a.classes))
    && a.counters.used + Bytes(a.free) + a.cachedBytes + Bytes(lost) == a.size
  }

  /** Every node of the pool is spare, on the free list, or in a cache. */
  ghost predicate NodesKept(a: Arena, nodes: nat) {
    a.spare + |a.free| + |Cached(a.classes)| == nodes
  }

  ghost predicate Invariant(w: World, nodes: nat) {
    && Params(w.arena) && FreeOk(w.arena) && ClassesOk(w.arena)
    && LiveOk(w.live, w.arena.gran)
    && Tiled(w.arena, LiveSpans(w.live, w.arena.gran), w.lost)
    && Accounted(w.arena, w.live, w.lost)
    && NodesKept(w.arena, nodes)
  }

  // ---------------------------------------------------------------- Steps and runs

  predicate Legal(w: World, op: Op) {
    match op
    case Alloc(size, _) => size > 0
    case Release(slot) => slot in w.live
  }

  function IndexOf(live: seq<Slot>, s: Slot): (i: nat)
    requires s in live
    ensures i < |live| && live[i] == s
  {
    if live[0] == s then 0 else 1 + IndexOf(live[1..], s)
  }

  function Without(live: seq<Slot>, s: Slot): seq<Slot>
    requires s in live
  {
    var i := IndexOf(live, s);
    live[..i] + live[i + 1..]
  }

  /** What a drain drops: every block that finds no spare node. */
  function DrainLost(a: Arena, queue: seq<Span>): seq<Span>
    decreases |queue|
  {
    if queue == [] then []
    else (if a.spare == 0 then [queue[0]] else []) + DrainLost(DrainOne(a, queue[0]), queue[1..])
  }

  predicate Drains(a: Arena, need: nat, fromTop: bool) {
    && PopIndex(a.classes, 0, need) == |a.classes|
    && Fit(a, need, fromTop).1.None?
    && a.cachedBytes > 0
  }

  function LostByAllocate(a: Arena, size: nat, fromTop: bool): seq<Span>
    requires a.gran > 0
  {
    if a.base != 0 && Drains(a, AlignUp(size, a.gran), fromTop) then DrainLost(a, Cached(a.classes)) else []
  }

  function LostByFree(a: Arena, ptr: nat, size: nat): seq<Span>
    requires a.gran > 0
  {
    if ptr == 0 || !a.Owns(ptr) then []
    else
      var r := Span(ptr, AlignUp(size, a.gran));
      var p := Push(a, r);
      if p.1 || p.0.spare > 0 then [] else [r]
  }

  function AllocStep(w: World, size: nat, fromTop: bool): World
    requires w.arena.gran > 0 && BandsSized(w.arena.counters)
  {
    var r := Allocate(w.arena, size, fromTop);
    World(r.0,
          if r.1.None? then w.live else w.live + [Slot(r.1.value.addr, size)],
          w.lost + LostByAllocate(w.arena, size, fromTop))
  }

  function ReleaseStep(w: World, s: Slot): World
    requires w.arena.gran > 0 && s in w.live
  {
    World(Free(w.arena, s.addr, s.requested),
          Without(w.live, s),
          w.lost + LostByFree(w.arena, s.addr, s.requested))
  }

  function Step(w: World, op: Op): World
    requires w.arena.gran > 0 && BandsSized(w.arena.counters) && Legal(w, op)
  {
    match op
    case Alloc(size, fromTop) => AllocStep(w, size, fromTop)
    case Release(slot) => ReleaseStep(w, slot)
  }

  // ---------------------------------------------------------------- Sequence facts

  lemma {:induction false} CachedSplit(cs: seq<SizeClass>, i: nat)
    requires i < |cs|
    ensures Cached(cs) == Cached(cs[..i]) + cs[i].blocks + Cached(cs[i + 1..])
  {
    if i > 0 {
      CachedSplit(cs[1..], i - 1);
      assert cs[..i][1..] == cs[1..][..i - 1];
      assert cs[1..][i..] == cs[i + 1..];
    }
  }

  /** Swapping the blocks of one class moves exactly those blocks in and out of the caches. */
  lemma CachedUpdate(cs: seq<SizeClass>, i: nat, c: SizeClass)
    requires i < |cs|
    ensures forall b :: Cover(Cached(cs[i := c]), b) + Cover(cs[i].blocks, b) == Cover(Cached(cs), b) + Cover(c.blocks, b)
    ensures Bytes(Cached(cs[i := c])) + Bytes(cs[i].blocks) == Bytes(Cached(cs)) + Bytes(c.blocks)
    ensures |Cached(cs[i := c])| + |cs[i].blocks| == |Cached(cs)| + |c.blocks|
  {
    var left, right := Cached(cs[..i]), Cached(cs[i + 1..]);
    CachedSplit(cs, i);
    CachedSplit(cs[i := c], i);
    assert cs[i := c][..i] == cs[..i] && cs[i := c][i + 1..] == cs[i + 1..];
    BytesConcat(left + cs[i].blocks, right);
    BytesConcat(left, cs[i].blocks);
    BytesConcat(left + c.blocks, right);
    BytesConcat(left, c.blocks);
    forall b
      ensures Cover(Cached(cs[i := c]), b) + Cover(cs[i].blocks, b) == Cover(Cached(cs), b) + Cover(c.blocks, b)
    {
      CoverConcat(left + cs[i].blocks, right, b);
      CoverConcat(left, cs[i].blocks, b);
      CoverConcat(left + c.blocks, right, b);
      CoverConcat(left, c.blocks, b);
    }
  }

  lemma {:induction false} CachedAppendEmpty(cs: seq<SizeClass>, n: nat)
    ensures Cached(cs + [SizeClass(n, [])]) == Cached(cs)
  {
    if cs == [] {
      assert cs + [SizeClass(n, [])] == [SizeClass(n, [])];
      assert Cached([SizeClass(n, [])][1..]) == [];
    } else {
      CachedAppendEmpty(cs[1..], n);
      assert (cs + [SizeClass(n, [])])[1..] == cs[1..] + [SizeClass(n, [])];
    }
  }

  lemma {:induction false} CachedEmptied(cs: seq<SizeClass>)
    ensures Cached(Emptied(cs)) == []
  {
    if cs != [] {
      CachedEmptied(cs[1..]);
      assert Emptied(cs)[1..] == Emptied(cs[1..]);
    }
  }

  lemma {:induction false} CachedMembers(cs: seq<SizeClass>, k: nat) returns (i: nat, j: nat)
    requires k < |Cached(cs)|
    ensures i < |cs| && j < |cs[i].blocks| && cs[i].blocks[j] == Cached(cs)[k]
  {
    if k < |cs[0].blocks| {
      i, j := 0, k;
    } else {
      i, j := CachedMembers(cs[1..], k - |cs[0].blocks|);
      i := i + 1;
    }
  }

  lemma {:induction false} CachedCount(cs: seq<SizeClass>)
    requires forall i | 0 <= i < |cs| :: |cs[i].blocks| <= MAX_CACHED_PER_CLASS
    ensures |Cached(cs)| <= |cs| * MAX_CACHED_PER_CLASS
  {
    if cs != [] {
      CachedCount(cs[1..]);
    }
  }

  lemma CachedOk(a: Arena)
    requires a.gran > 0 && ClassesOk(a)
    ensures NonEmpty(Cached(a.classes)) && Granular(Cached(a.classes), a.gran)
    ensures |Cached(a.classes)| <= MAX_SIZE_CLASSES * MAX_CACHED_PER_CLASS
  {
    forall k | 0 <= k < |Cached(a.classes)|
      ensures var r := Cached(a.classes)[k]; r.size > 0 && r.addr % a.gran == 0 && r.size % a.gran == 0
    {
      var i, j := CachedMembers(a.classes, k);
      assert ClassOk(a.classes[i], a.gran);
    }
    forall i | 0 <= i < |a.classes| ensures |a.classes[i].blocks| <= MAX_CACHED_PER_CLASS {
      assert ClassOk(a.classes[i], a.gran);
    }
    CachedCount(a.classes);
  }

  lemma BytesZero(s: seq<Span>)
    requires NonEmpty(s)
    ensures Bytes(s) == 0 <==> s == []
  {
  }

  lemma LiveAppend(live: seq<Slot>, s: Slot, gran: nat)
    requires gran > 0
    ensures forall b :: Cover(LiveSpans(live + [s], gran), b)
                     == Cover(LiveSpans(live, gran), b) + (if SlotSpan(s, gran).Has(b) then 1 else 0)
    ensures Bytes(LiveSpans(live + [s], gran)) == Bytes(LiveSpans(live, gran)) + SlotSpan(s, gran).size
  {
    var r := [SlotSpan(s, gran)];
    assert LiveSpans(live + [s], gran) == LiveSpans(live, gran) + r;
    BytesConcat(LiveSpans(live, gran), r);
    assert Bytes(r) == r[0].size + Bytes(r[1..]);
    forall b ensures Cover(LiveSpans(live, gran) + r, b) == Cover(LiveSpans(live, gran), b) + (if r[0].Has(b) then 1 else 0) {
      CoverConcat(LiveSpans(live, gran), r, b);
      assert Cover(r, b) == (if r[0].Has(b) then 1 else 0) + Cover(r[1..], b);
    }
  }

  lemma LiveWithout(live: seq<Slot>, s: Slot, gran: nat)
    requires gran > 0 && s in live
    ensures forall b :: Cover(LiveSpans(Without(live, s), gran), b) + (if SlotSpan(s, gran).Has(b) then 1 else 0)
                     == Cover(LiveSpans(live, gran), b)
    ensures Bytes(LiveSpans(Without(live, s), gran)) + SlotSpan(s, gran).size == Bytes(LiveSpans(live, gran))
  {
    var i := IndexOf(live, s);
    var all := LiveSpans(live, gran);
    assert LiveSpans(Without(live, s), gran) == all[..i] + all[i + 1..];
    assert all[..i] + [] + all[i + 1..] == all[..i] + all[i + 1..];
    BytesUpdate(all, i, []);
    forall b
      ensures Cover(all[..i] + all[i + 1..], b) + (if all[i].Has(b) then 1 else 0) == Cover(all, b)
    {
      CoverUpdate(all, i, [], b);
    }
  }

  lemma {:induction false} RequestedAppend(live: seq<Slot>, s: Slot)
    ensures Requested(live + [s]) == Requested(live) + s.requested
  {
    if live == [] {
      assert live + [s] == [s];
    } else {
      RequestedAppend(live[1..], s);
      assert (live + [s])[1..] == live[1..] + [s];
    }
  }

  lemma {:induction false} RequestedWithout(live: seq<Slot>, s: Slot)
    requires s in live
    ensures Requested(Without(live, s)) + s.requested == Requested(live)
  {
    if live[0] == s {
      assert Without(live, s) == live[1..];
    } else {
      RequestedWithout(live[1..], s);
      assert Without(live, s) == [live[0]] + Without(live[1..], s);
    }
  }

  lemma {:induction false} TotalUpdate(s: seq<nat>, i: nat, n: nat)
    requires i < |s|
    ensures Total(s[i := n]) + s[i] == Total(s) + n
  {
    if i > 0 {
      TotalUpdate(s[1..], i - 1, n);
      assert s[i := n][1..] == s[1..][i - 1 := n];
    } else {
      assert s[i := n][1..] == s[1..];
    }
  }
}
