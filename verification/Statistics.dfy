/** What the allocator's counters say about a whole run, told from the operations and the slots that callers
    held before and after each of them. */
module Statistics {
  import opened Granules
  import opened ArenaModel
  import opened ArenaInvariant
  import opened ArenaTheorems

  // ---------------------------------------------------------------- What happened in a run

  /** Operation `i` was a request that got a slot. */
  predicate Served(ws: seq<World>, ops: seq<Op>, i: nat)
    requires |ws| == |ops| + 1 && i < |ops|
  {
    ops[i].Alloc? && |ws[i + 1].live| > |ws[i].live|
  }

  /** The least size in each of the eight bands. */
  const BAND_FLOORS: seq<nat> := [0, 4096, 65536, 262144, 524288, 1048576, 4194304, 16777216]

  predicate InBand(size: nat, k: nat) {
    k < 8 && BAND_FLOORS[k] <= size && (k < 7 ==> size < BAND_FLOORS[k + 1])
  }

  function Requests(ops: seq<Op>, n: nat): nat
    requires n <= |ops|
  {
    if n == 0 then 0 else Requests(ops, n - 1) + if ops[n - 1].Alloc? then 1 else 0
  }

  function Failures(ws: seq<World>, ops: seq<Op>, n: nat): nat
    requires |ws| == |ops| + 1 && n <= |ops|
  {
    if n == 0 then 0
    else Failures(ws, ops, n - 1) + if ops[n - 1].Alloc? && !Served(ws, ops, n - 1) then 1 else 0
  }

  /** The bytes that requests of band `k` asked for and got a slot for. */
  function Asked(ws: seq<World>, ops: seq<Op>, n: nat, k: nat): nat
    requires |ws| == |ops| + 1 && n <= |ops|
  {
    if n == 0 then 0
    else Asked(ws, ops, n - 1, k) + if Served(ws, ops, n - 1) && InBand(ops[n - 1].size, k) then ops[n - 1].size else 0
  }

  /** The bytes of those slots. */
  function Given(ws: seq<World>, ops: seq<Op>, n: nat, k: nat, gran: nat): nat
    requires |ws| == |ops| + 1 && n <= |ops| && gran > 0
  {
    if n == 0 then 0
    else
      Given(ws, ops, n - 1, k, gran)
      + if Served(ws, ops, n - 1) && InBand(ops[n - 1].size, k) then AlignUp(ops[n - 1].size, gran) else 0
  }

  /** The bytes of slots requested while a block of that rounded size was cached. */
  function Reused(ws: seq<World>, ops: seq<Op>, n: nat, gran: nat): nat
    requires |ws| == |ops| + 1 && n <= |ops| && gran > 0
  {
    if n == 0 then 0
    else
      Reused(ws, ops, n - 1, gran)
      + if ops[n - 1].Alloc? && OfSize(Cached(ws[n - 1].arena.classes), AlignUp(ops[n - 1].size, gran)) > 0
        then AlignUp(ops[n - 1].size, gran) else 0
  }

  function Freed(ops: seq<Op>, n: nat, gran: nat): nat
    requires n <= |ops| && gran > 0
  {
    if n == 0 then 0
    else Freed(ops, n - 1, gran) + if ops[n - 1].Release? then AlignUp(ops[n - 1].slot.requested, gran) else 0
  }

  // ---------------------------------------------------------------- One step

  /** What a grant and a failure add to the counters. */
  predicate AllocCounted(c: Counters, d: Counters, size: nat, slot: nat, served: bool, hit: bool) {
    && BandsSized(c) && BandsSized(d)
    && d.requests == c.requests + 1 && d.failures == c.failures + (if served then 0 else 1)
    && d.freed == c.freed && d.reused == c.reused + (if hit then slot else 0)
    && (hit ==> served)
    && forall k | 0 <= k < 8 ::
         && d.bandReq[k] == c.bandReq[k] + (if served && InBand(size, k) then size else 0)
         && d.bandSlot[k] == c.bandSlot[k] + (if served && InBand(size, k) then slot else 0)
  }

  lemma BandExactly(size: nat, k: nat)
    ensures InBand(size, k) <==> Band(size) == k
  {
  }

  lemma GrantReuses(a: Arena, size: nat, fromTop: bool)
    requires a.gran > 0 && ClassesOk(a)
    ensures var r, need := Grant(CountRequest(a), size, fromTop), AlignUp(size, a.gran);
      var hit := OfSize(Cached(a.classes), need) > 0;
      && r.0.counters == CountRequest(a).counters.(reused := a.counters.reused + (if hit then need else 0))
      && (hit ==> r.1.Some?)
  {
    hide AlignUp, Cached, OfSize;
    var i := PopIndex(a.classes, 0, AlignUp(size, a.gran));
    HitExactly(a, AlignUp(size, a.gran));
    if i < |a.classes| { assert ClassOk(a.classes[i], a.gran); }
  }

  lemma GrantedSize(w: World, size: nat, fromTop: bool, nodes: nat)
    requires Invariant(w, nodes) && size > 0
    ensures w.arena.gran > 0 && BandsSized(w.arena.counters)
    ensures var got := Allocate(w.arena, size, fromTop).1; got.Some? ==> got.value.size == AlignUp(size, w.arena.gran)
  {
    InvariantParts(w, nodes);
    hide Invariant, Allocate, AlignUp;
    if Allocate(w.arena, size, fromTop).1.Some? { ExactGrant(w, size, fromTop, nodes); }
  }

  lemma RequestCounts(w: World, size: nat, fromTop: bool, nodes: nat)
    requires Invariant(w, nodes) && size > 0
    ensures var w', need := AllocStep(w, size, fromTop), AlignUp(size, w.arena.gran);
      AllocCounted(w.arena.counters, w'.arena.counters, size, need, |w'.live| > |w.live|, OfSize(Cached(w.arena.classes), need) > 0)
  {
    hide Invariant, Grant, Cached, OfSize, AlignUp, Band, ClassesOk, InBand, LostByAllocate, ClassOk;
    InvariantClasses(w, nodes);
    NoCachedBytes(w, nodes);
    GrantedSize(w, size, fromTop, nodes);
    GrantReuses(w.arena, size, fromTop);
    forall k: nat | k < 8 ensures InBand(size, k) <==> Band(size) == k { BandExactly(size, k); }
  }

  lemma ReleaseCounts(w: World, s: Slot, nodes: nat)
    requires Invariant(w, nodes) && s in w.live
    ensures ReleaseStep(w, s).arena.counters.freed == w.arena.counters.freed + AlignUp(s.requested, w.arena.gran)
    ensures var c, d := w.arena.counters, ReleaseStep(w, s).arena.counters;
      d == c.(used := d.used, liveRequested := d.liveRequested, active := d.active, freed := d.freed)
  {
    ReleaseNeverSaturates(w, s, nodes);
  }

  // ---------------------------------------------------------------- Runs

  ghost predicate Reported(ws: seq<World>, ops: seq<Op>, n: nat)
    requires |ws| == |ops| + 1 && n <= |ops| && ws[0].arena.gran > 0
  {
    var c, gran := ws[n].arena.counters, ws[0].arena.gran;
    && BandsSized(c)
    && c.requests == Requests(ops, n) && c.failures == Failures(ws, ops, n)
    && c.freed == Freed(ops, n, gran) && c.reused == Reused(ws, ops, n, gran)
    && forall k | 0 <= k < 8 :: c.bandReq[k] == Asked(ws, ops, n, k) && c.bandSlot[k] == Given(ws, ops, n, k, gran)
  }

  /** In every run from a fresh arena the counters are what happened: the requests, those that got nothing, the
      bytes given back and the bytes reused, and for each band the bytes asked for and given. */
  lemma {:induction false} CountersExact(ws: seq<World>, ops: seq<Op>, nodes: nat, n: nat)
    requires IsRun(ws, ops) && Invariant(ws[0], nodes) && ws[0].arena.counters == ZERO_COUNTERS && n <= |ops| == |ws| - 1
    ensures ws[n].arena.gran == ws[0].arena.gran && Reported(ws, ops, n)
  {
    hide IsRun, Invariant, Reported;
    InvariantParts(ws[0], nodes);
    if n == 0 {
      ReportedAtStart(ws, ops);
    } else {
      CountersExact(ws, ops, nodes, n - 1);
      RunKeepsInvariant(ws, ops, nodes, n - 1);
      CountStep(ws, ops, nodes, n - 1);
    }
  }

  lemma ReportedAtStart(ws: seq<World>, ops: seq<Op>)
    requires |ws| == |ops| + 1 && ws[0].arena.gran > 0 && ws[0].arena.counters == ZERO_COUNTERS
    ensures Reported(ws, ops, 0)
  {
  }

  lemma CountStep(ws: seq<World>, ops: seq<Op>, nodes: nat, n: nat)
    requires IsRun(ws, ops) && n < |ops| && Invariant(ws[n], nodes)
    requires ws[0].arena.gran == ws[n].arena.gran > 0 && Reported(ws, ops, n)
    ensures ws[n + 1].arena.gran == ws[0].arena.gran && Reported(ws, ops, n + 1)
  {
    hide Invariant, AllocStep, ReleaseStep, InBand, AlignUp, Cached, OfSize;
    var w := ws[n];
    assert ws[n + 1] == Step(w, ops[n]);
    match ops[n]
    case Alloc(size, fromTop) =>
      RequestCounts(w, size, fromTop, nodes);
      StepGran(w, ops[n], nodes);
    case Release(slot) =>
      ReleaseCounts(w, slot, nodes);
      StepGran(w, ops[n], nodes);
  }

  lemma StepGran(w: World, op: Op, nodes: nat)
    requires Invariant(w, nodes) && Legal(w, op)
    ensures w.arena.gran > 0 && BandsSized(w.arena.counters) && Step(w, op).arena.gran == w.arena.gran
  {
    if op.Alloc? { GrantCounters(CountRequest(w.arena), op.size, op.fromTop); }
  }
}
