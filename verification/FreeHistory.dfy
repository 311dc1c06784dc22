/** The heartbeat's rolling history of free memory: a ring of eighty samples at least half a minute
    apart, read back as an average over ten minutes. */
module FreeHistory {
  const RING := 80
  const SPACING_MS := 30000
  const WINDOW_MS := 600000

  datatype Sample = Sample(t: nat, largest: int, total: int)

  /** Each sample was taken half a minute or more after the one before. */
  predicate Spaced(hist: seq<Sample>) {
    forall i, j | 0 <= i < j < |hist| :: hist[j].t - hist[i].t >= SPACING_MS * (j - i)
  }

  /** How many of all samples ever taken, the latest ones, are in the window that ends `now`. */
  function Recent(hist: seq<Sample>, now: nat): (n: nat)
    ensures n <= |hist|
  {
    if hist == [] || now - hist[|hist| - 1].t > WINDOW_MS then 0
    else 1 + Recent(hist[..|hist| - 1], now)
  }

  /** They are all the samples in the window, and there are at most 21 of them. */
  lemma {:induction false} RecentIsWindow(hist: seq<Sample>, now: nat)
    requires Spaced(hist) && (hist != [] ==> hist[|hist| - 1].t <= now)
    ensures var f := |hist| - Recent(hist, now);
      forall i | 0 <= i < |hist| :: now - hist[i].t <= 600000 <==> i >= f
    ensures Recent(hist, now) <= 21
  {
    if hist != [] && now - hist[|hist| - 1].t <= WINDOW_MS {
      var rest := hist[..|hist| - 1];
      RecentIsWindow(rest, now);
      var n := Recent(hist, now);
      var f := |hist| - n;
      assert hist[f] == if n == 1 then hist[|hist| - 1] else rest[f];
      assert now - hist[f].t <= WINDOW_MS;
      assert hist[|hist| - 1].t - hist[f].t >= SPACING_MS * (n - 1) || n == 1;
    }
  }

  /** The changes from each sample to the next, and from the last one to `current`, added up. */
  function Changes(hist: seq<Sample>, from: nat, current: int): int
    requires from < |hist|
    decreases |hist| - from
  {
    if from == |hist| - 1 then current - hist[from].total
    else hist[from + 1].total - hist[from].total + Changes(hist, from + 1, current)
  }

  lemma {:induction false} ChangesTelescope(hist: seq<Sample>, from: nat, current: int)
    requires from < |hist|
    ensures Changes(hist, from, current) == current - hist[from].total
    decreases |hist| - from
  {
    if from < |hist| - 1 { ChangesTelescope(hist, from + 1, current); }
  }

  /** The place of the `k`-th of the samples held, counted from the head of a full ring. */
  lemma SamePlace(n: nat, k: nat)
    ensures n >= RING ==> (n % RING + k) % RING == (n - RING + k) % RING
  {}

  /** Sample `i` is at place `i % RING`, unless eighty newer ones were taken. */
  ghost predicate Holds(ring: seq<Sample>, hist: seq<Sample>) {
    |ring| == RING && forall i: nat | |hist| - RING <= i < |hist| :: ring[i % RING] == hist[i]
  }

  lemma PushHolds(ring: seq<Sample>, hist: seq<Sample>, s: Sample)
    requires Holds(ring, hist)
    ensures Holds(ring[|hist| % RING := s], hist + [s])
  {
    var later := ring[|hist| % RING := s];
    forall i: nat | |hist| + 1 - RING <= i < |hist| + 1 ensures later[i % RING] == (hist + [s])[i] {
      if i < |hist| { PlacesApart(i, |hist|); }
    }
  }

  lemma PushSpaced(hist: seq<Sample>, s: Sample)
    requires Spaced(hist) && (hist == [] || s.t - hist[|hist| - 1].t >= SPACING_MS)
    ensures Spaced(hist + [s])
  {
    var later := hist + [s];
    forall i, j | 0 <= i < j < |later| ensures later[j].t - later[i].t >= SPACING_MS * (j - i) {
      if j == |hist| && i < j - 1 { assert hist[j - 1].t - hist[i].t >= SPACING_MS * (j - 1 - i); }
    }
  }

  lemma PlacesApart(i: nat, n: nat)
    requires i < n < i + RING
    ensures i % RING != n % RING
  {}

  class FreeHistory {
    const startTick: nat
    const warmupMs: nat
    const ring: array<Sample>
    var head: nat
    var count: nat
    var lastTick: nat

    /** Every sample taken so far. */
    ghost var hist: seq<Sample>

    /** The ring holds the latest samples, each where its number says. */
    ghost predicate Valid()
      reads this, ring
    {
      && ring.Length == RING && head == |hist| % RING && count == (if |hist| < RING then |hist| else RING)
      && Spaced(hist)
      && (if hist == [] then lastTick == 0 else lastTick == hist[|hist| - 1].t > 0)
      && Holds(ring[..], hist)
    }

    constructor (startTick: nat, warmupMs: nat)
      ensures Valid() && hist == [] && ring.Length == 80 && this.startTick == startTick && this.warmupMs == warmupMs
    {
      this.startTick, this.warmupMs := startTick, warmupMs;
      ring := new Sample[RING](_ => Sample(0, 0, 0));
      head, count, lastTick, hist := 0, 0, 0, [];
    }

    /** Take a sample, unless the process is still warming up or the last sample is too fresh. */
    method Record(now: nat, largest: int, total: int)
      requires Valid() && 0 < now && lastTick <= now && startTick <= now
      modifies this, ring
      ensures Valid()
      ensures hist == if now - startTick >= warmupMs && (old(hist) == [] || now - old(hist)[|old(hist)| - 1].t >= 30000)
                      then old(hist) + [Sample(now, largest, total)] else old(hist)
    {
      hide Holds, Spaced;
      if now - startTick >= warmupMs && (lastTick == 0 || now - lastTick >= SPACING_MS) {
        lastTick := now;
        ring[head] := Sample(now, largest, total);
        head := (head + 1) % RING;
        if count < RING {
          count := count + 1;
        }
        PushHolds(old(ring[..]), hist, Sample(now, largest, total));
        PushSpaced(hist, Sample(now, largest, total));
        assert ring[..] == old(ring[..])[|hist| % RING := Sample(now, largest, total)];
        hist := hist + [Sample(now, largest, total)];
      }
    }

    /** The samples of the last ten minutes: how many there are, the oldest of them, and the change of free
        memory since then.  No sample of the window was overwritten. */
    method TenMinutes(now: nat, current: int) returns (n: nat, first: Sample, net: int)
      requires Valid() && lastTick <= now
      ensures n == Recent(hist, now) <= 21
      ensures forall i | 0 <= i < |hist| :: now - hist[i].t <= 600000 <==> i >= |hist| - n
      ensures n > 0 ==> first == hist[|hist| - n] && net == Changes(hist, |hist| - n, current)
    {
      hide Spaced, Recent;
      RecentIsWindow(hist, now);
      n, first, net := 0, Sample(0, 0, 0), 0;
      ghost var f := |hist| - Recent(hist, now);
      ghost var lost := |hist| - count;
      var start := if count < RING then 0 else head;
      var k := 0;
      while k < count
        invariant k <= count
        invariant n == (if lost + k <= f then 0 else lost + k - f)
        invariant n > 0 ==> first == hist[f]
      {
        var idx := (start + k) % RING;
        SamePlace(|hist|, k);
        assert ring[..][(lost + k) % RING] == hist[lost + k];
        if now - ring[idx].t <= WINDOW_MS {
          if n == 0 {
            first := ring[idx];
          }
          n := n + 1;
        }
        k := k + 1;
      }
      if n > 0 {
        net := current - first.total;
        ChangesTelescope(hist, f, current);
      }
    }
  }
}
