/** The table of redirected reservations: two flat arrays and a count, so that the hooks never allocate.
    Removal moves the last entry into the gap. */
module RedirectTable {
  import opened ArenaModel
  import opened ArenaInvariant
  import opened LiveSlots

  const CAPACITY := 8192

  datatype Entry = Entry(addr: nat, size: nat)

  /** The first entry at or after `k` for `addr`. */
  function Find(es: seq<Entry>, k: nat, addr: nat): (i: nat)
    requires k <= |es|
    ensures k <= i <= |es|
    ensures i < |es| ==> es[i].addr == addr
    ensures forall j | k <= j < i :: es[j].addr != addr
    decreases |es| - k
  {
    if k == |es| || es[k].addr == addr then k else Find(es, k + 1, addr)
  }

  /** A full table silently forgets what it is asked to track. */
  function Tracked(es: seq<Entry>, e: Entry): seq<Entry> {
    if |es| < CAPACITY then es + [e] else es
  }

  function Untracked(es: seq<Entry>, addr: nat): seq<Entry> {
    var i, last := Find(es, 0, addr), |es| - 1;
    if i == |es| then es else es[i := es[last]][..last]
  }

  predicate Distinct(es: seq<Entry>) {
    forall i, j | 0 <= i < j < |es| :: es[i].addr != es[j].addr
  }

  // ---------------------------------------------------------------- The finite map it refines

  function AsMap(es: seq<Entry>): map<nat, nat> {
    if es == [] then map[] else AsMap(es[..|es| - 1])[es[|es| - 1].addr := es[|es| - 1].size]
  }

  lemma {:induction false} MapHas(es: seq<Entry>, addr: nat)
    requires Distinct(es)
    ensures addr in AsMap(es) <==> Find(es, 0, addr) < |es|
    ensures addr in AsMap(es) ==> AsMap(es)[addr] == es[Find(es, 0, addr)].size
    ensures |AsMap(es)| == |es|
  {
    if es != [] {
      var last := |es| - 1;
      MapHas(es[..last], addr);
      MapHas(es[..last], es[last].addr);
    }
  }

  lemma SameMap(es: seq<Entry>, m: map<nat, nat>)
    requires Distinct(es)
    requires forall a :: a in m <==> Find(es, 0, a) < |es|
    requires forall a | a in m :: m[a] == es[Find(es, 0, a)].size
    ensures AsMap(es) == m
  {
    forall a ensures a in AsMap(es) <==> a in m { MapHas(es, a); }
    forall a | a in m ensures AsMap(es)[a] == m[a] { MapHas(es, a); }
  }

  /** Tracking a new address is insertion, until the table is full; then it is nothing at all. */
  lemma TrackRefines(es: seq<Entry>, e: Entry)
    requires Distinct(es) && e.addr !in AsMap(es)
    ensures Distinct(Tracked(es, e))
    ensures AsMap(Tracked(es, e)) == if |AsMap(es)| < 8192 then AsMap(es)[e.addr := e.size] else AsMap(es)
  {
    MapHas(es, e.addr);
    assert (es + [e])[..|es|] == es;
  }

  /** Removal by swapping with the last entry is removal of that one address. */
  lemma UntrackRefines(es: seq<Entry>, addr: nat)
    requires Distinct(es)
    ensures Distinct(Untracked(es, addr)) && AsMap(Untracked(es, addr)) == AsMap(es) - {addr}
    ensures Find(es, 0, addr) < |es| <==> addr in AsMap(es)
    ensures addr in AsMap(es) ==> es[Find(es, 0, addr)].size == AsMap(es)[addr]
  {
    UntrackDistinct(es, addr);
    var es' := Untracked(es, addr);
    hide Distinct, Untracked;
    MapHas(es, addr);
    forall a ensures a in AsMap(es) - {addr} <==> Find(es', 0, a) < |es'| {
      MapHas(es, a);
      if a in AsMap(es) && a != addr { Moved(es, addr, a); }
      if Find(es', 0, a) < |es'| { MovedBack(es, addr, a); }
    }
    forall a | a in AsMap(es) - {addr} ensures (AsMap(es) - {addr})[a] == es'[Find(es', 0, a)].size {
      MapHas(es, a);
      Moved(es, addr, a);
    }
    SameMap(es', AsMap(es) - {addr});
  }

  lemma UntrackDistinct(es: seq<Entry>, addr: nat)
    requires Distinct(es)
    ensures Distinct(Untracked(es, addr))
  {}

  lemma Moved(es: seq<Entry>, addr: nat, a: nat)
    requires Distinct(es) && Find(es, 0, a) < |es| && a != addr && Distinct(Untracked(es, addr))
    ensures var es' := Untracked(es, addr); Find(es', 0, a) < |es'| && es'[Find(es', 0, a)] == es[Find(es, 0, a)]
  {
    var es', i, last, k := Untracked(es, addr), Find(es, 0, addr), |es| - 1, Find(es, 0, a);
    var k' := if i < |es| && k == last then i else k;
    assert es'[k'] == es[k];
  }

  lemma MovedBack(es: seq<Entry>, addr: nat, a: nat)
    requires Distinct(es) && Find(Untracked(es, addr), 0, a) < |Untracked(es, addr)|
    ensures Find(es, 0, a) < |es| && a != addr
  {
    var es', i, last := Untracked(es, addr), Find(es, 0, addr), |es| - 1;
    var k' := Find(es', 0, a);
    var k := if i < |es| && k' == i then last else k';
    assert es[k].addr == a;
  }

  /** Even with an address listed twice, removal drops one entry, for that address, and keeps the rest. */
  lemma UntrackDropsOne(es: seq<Entry>, addr: nat)
    requires Find(es, 0, addr) < |es|
    ensures multiset(Untracked(es, addr)) == multiset(es) - multiset{es[Find(es, 0, addr)]}
  {
    var i, last := Find(es, 0, addr), |es| - 1;
    var swapped := es[i := es[last]];
    assert swapped == swapped[..last] + [swapped[last]];
    assert multiset(swapped) == multiset(es) - multiset{es[i]} + multiset{es[last]};
    assert Untracked(es, addr) == swapped[..last] && swapped[last] == es[last];
    assert multiset(swapped) == multiset(swapped[..last]) + multiset{es[last]};
    assert multiset(swapped[..last]) == multiset(swapped) - multiset{es[last]};
    assert es[i] in multiset(es);
  }

  // ---------------------------------------------------------------- Redirect, then release

  /** The tracked addresses are slots the arena has granted. */
  ghost predicate Backed(w: World, es: seq<Entry>) {
    forall i | 0 <= i < |es| :: Slot(es[i].addr, es[i].size) in w.live
  }

  /** A reservation redirected to the arena and then released: if the table had room, the release finds
      it, learns the size, and leaves table and arena holding what they held; if not, and only then,
      the slot stays granted with nobody to free it. */
  lemma RedirectThenRelease(w: World, nodes: nat, es: seq<Entry>, size: nat, fromTop: bool)
    requires Invariant(w, nodes) && size > 0 && Distinct(es) && Backed(w, es)
    requires Allocate(w.arena, size, fromTop).1.Some?
    ensures var addr := Allocate(w.arena, size, fromTop).1.value.addr;
            var (w1, es1) := (AllocStep(w, size, fromTop), Tracked(es, Entry(addr, size)));
            var i := Find(es1, 0, addr);
            && Slot(addr, size) in w1.live
            && (i < |es1| <==> |es| < 8192)
            && (i < |es1| ==>
                 && es1[i].size == size && AsMap(Untracked(es1, addr)) == AsMap(es)
                 && w1.arena.gran > 0
                 && multiset(ReleaseStep(w1, Slot(addr, size)).live) == multiset(w.live)
                 && Invariant(ReleaseStep(w1, Slot(addr, size)), nodes))
  {
    hide Invariant, Allocate, ReleaseStep, Distinct, Untracked;
    CanAllocate(w, nodes);
    AllocFacts(w, size, fromTop, nodes);
    var addr := Allocate(w.arena, size, fromTop).1.value.addr;
    var (w1, e) := (AllocStep(w, size, fromTop), Entry(addr, size));
    forall i | 0 <= i < |es| ensures es[i].addr != addr {
      GrantIsNew(w, size, fromTop, nodes, Slot(es[i].addr, es[i].size));
    }
    TrackThenUntrack(es, e);
    if |es| < CAPACITY { GrantThenRelease(w, w1, Slot(addr, size), nodes); }
  }

  lemma TrackThenUntrack(es: seq<Entry>, e: Entry)
    requires Distinct(es) && Find(es, 0, e.addr) == |es|
    ensures var es1 := Tracked(es, e); var i := Find(es1, 0, e.addr);
            && (i < |es1| <==> |es| < CAPACITY)
            && (i < |es1| ==> es1[i].size == e.size && AsMap(Untracked(es1, e.addr)) == AsMap(es))
  {
    MapHas(es, e.addr);
    TrackRefines(es, e);
    var es1 := Tracked(es, e);
    if |es| < CAPACITY {
      UntrackRefines(es1, e.addr);
      assert es1[|es|].addr == e.addr;
      assert AsMap(es)[e.addr := e.size] - {e.addr} == AsMap(es);
    }
  }

  lemma GrantThenRelease(w: World, w1: World, slot: Slot, nodes: nat)
    requires Invariant(w1, nodes) && w1.live == w.live + [slot]
    ensures w1.arena.gran > 0
    ensures var w2 := ReleaseStep(w1, slot); Invariant(w2, nodes) && multiset(w2.live) == multiset(w.live)
  {
    hide Invariant, ReleaseStep;
    CanAllocate(w1, nodes);
    assert w1.live[|w.live|] == slot;
    ReleaseFacts(w1, slot, nodes);
    WithoutMultiset(w1.live, slot);
  }

  lemma WithoutMultiset(live: seq<Slot>, s: Slot)
    requires s in live
    ensures multiset(Without(live, s)) == multiset(live) - multiset{s}
  {
    var i := IndexOf(live, s);
    assert live == live[..i] + [s] + live[i + 1..];
  }

  // ---------------------------------------------------------------- The arrays

  class RedirectTable {
    const addrs: array<nat>
    const sizes: array<nat>
    var count: nat

    ghost predicate Valid()
      reads this, addrs, sizes
    {
      addrs.Length == sizes.Length == CAPACITY && addrs != sizes && count <= CAPACITY
    }

    ghost function Entries(): (es: seq<Entry>)
      reads this, addrs, sizes
      requires Valid()
      ensures |es| == count && forall i | 0 <= i < count :: es[i] == Entry(addrs[i], sizes[i])
    {
      seq(count, i requires 0 <= i < count && Valid() reads this, addrs, sizes => Entry(addrs[i], sizes[i]))
    }

    constructor ()
      ensures Valid() && Entries() == [] && addrs.Length == sizes.Length == 8192 && fresh(addrs) && fresh(sizes)
    {
      addrs, sizes, count := new nat[CAPACITY](_ => 0), new nat[CAPACITY](_ => 0), 0;
    }

    method Track(addr: nat, size: nat)
      requires Valid()
      modifies this, addrs, sizes
      ensures Valid() && Entries() == Tracked(old(Entries()), Entry(addr, size))
    {
      if count < CAPACITY {
        addrs[count] := addr;
        sizes[count] := size;
        count := count + 1;
      }
    }

    /** Remove the entry for `addr` and tell its size. */
    method Untrack(addr: nat) returns (found: bool, size: nat)
      requires Valid()
      modifies this, addrs, sizes
      ensures Valid() && Entries() == Untracked(old(Entries()), addr)
      ensures var i := Find(old(Entries()), 0, addr);
        if i < old(count) then found && size == old(Entries())[i].size else !found && size == 0
    {
      ghost var es := Entries();
      var i := 0;
      while i < count && addrs[i] != addr
        invariant Valid() && i <= count == old(count) && Entries() == es
        invariant Find(es, i, addr) == Find(es, 0, addr)
      {
        i := i + 1;
      }
      if i == count {
        return false, 0;
      }
      found, size := true, sizes[i];
      var last := count - 1;
      if i != last {
        addrs[i], sizes[i] := addrs[last], sizes[last];
      }
      addrs[last], sizes[last] := 0, 0;
      count := last;
      assert Entries() == es[i := es[last]][..last];
    }
  }
}
