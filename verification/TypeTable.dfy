/** The running totals by resource type: an open-addressing table that accumulates the histograms of any
    number of mapped views. */
module TypeTable {
  import opened DbpfIndex
  import opened Sets

  const CAPACITY := 256

  datatype Total = Total(entries: nat, bytes: nat, views: nat)

  /** A place of the table; type zero marks it empty. */
  datatype TypeSlot = TypeSlot(typeId: nat, total: Total)

  type Table = s: seq<TypeSlot> | |s| == CAPACITY witness seq(CAPACITY, _ => TypeSlot(0, Total(0, 0, 0)))

  /** The low byte of the type folded with its upper half. */
  function Home(t: nat): (i: nat)
    ensures i < CAPACITY
  {
    ((t % 256) as bv8 ^ (t / 0x1_0000 % 256) as bv8) as nat
  }

  /** The `p`-th place where type `t` is looked for. */
  function Place(t: nat, p: nat): (i: nat)
    ensures i < CAPACITY
  {
    (Home(t) + p) % CAPACITY
  }

  /** The probe, at or after `p`, that meets type `t` or an empty place. */
  function Probe(s: Table, t: nat, p: nat): (q: nat)
    requires p <= CAPACITY
    ensures p <= q <= CAPACITY
    ensures forall r | p <= r < q :: s[Place(t, r)].typeId != t && s[Place(t, r)].typeId != 0
    ensures q < CAPACITY ==> s[Place(t, q)].typeId == t || s[Place(t, q)].typeId == 0
    decreases CAPACITY - p
  {
    if p == CAPACITY || s[Place(t, p)].typeId == t || s[Place(t, p)].typeId == 0 then p else Probe(s, t, p + 1)
  }

  function Plus(a: Total, st: TypeStats): Total {
    Total(a.entries + st.entryCount, a.bytes + st.totalMemBytes, a.views + 1)
  }

  /** Add the stats of one type; type zero, and a new type when the table is full, go uncounted. */
  function Add(s: Table, st: TypeStats): Table {
    var p := Probe(s, st.typeId, 0);
    if st.typeId == 0 || p == CAPACITY then s
    else
      var i := Place(st.typeId, p);
      var before := if s[i].typeId == 0 then Total(0, 0, 0) else s[i].total;
      s[i := TypeSlot(st.typeId, Plus(before, st))]
  }

  function AddAll(s: Table, stats: seq<TypeStats>): Table
    decreases |stats|
  {
    if stats == [] then s else AddAll(Add(s, stats[0]), stats[1..])
  }

  // ---------------------------------------------------------------- The map it accumulates

  /** Every type sits where a search for it ends. */
  predicate SitsAt(s: Table, t: nat, p: nat) {
    p < CAPACITY && s[Place(t, p)].typeId == t && forall q | 0 <= q < p :: s[Place(t, q)].typeId != t && s[Place(t, q)].typeId != 0
  }

  ghost predicate Probed(s: Table) {
    forall i | 0 <= i < CAPACITY && s[i].typeId != 0 :: exists p :: SitsAt(s, s[i].typeId, p) && Place(s[i].typeId, p) == i
  }

  lemma PlacesApart(t: nat, p: nat, q: nat)
    requires p < q < CAPACITY
    ensures Place(t, p) != Place(t, q)
  {
    hide Home;
  }

  /** Every place is reached by some probe. */
  lemma PlaceReached(t: nat, i: nat) returns (p: nat)
    requires i < CAPACITY
    ensures p < CAPACITY && Place(t, p) == i
  {
    hide Home;
    p := (i + CAPACITY - Home(t)) % CAPACITY;
  }

  lemma TypeOnce(s: Table, i: nat, j: nat)
    requires Probed(s) && i < CAPACITY && j < CAPACITY && s[i].typeId == s[j].typeId != 0
    ensures i == j
  {
    hide Place;
    var t := s[i].typeId;
    var p: nat :| SitsAt(s, t, p) && Place(t, p) == i;
    var q: nat :| SitsAt(s, t, q) && Place(t, q) == j;
    assert p == q;
  }

  /** The types in the first `n` places and their totals. */
  function Totals(s: Table, n: nat): map<nat, Total>
    requires n <= CAPACITY
  {
    if n == 0 then map[]
    else if s[n - 1].typeId == 0 then Totals(s, n - 1)
    else Totals(s, n - 1)[s[n - 1].typeId := s[n - 1].total]
  }

  function Occupied(s: Table, n: nat): nat
    requires n <= CAPACITY
  {
    if n == 0 then 0 else Occupied(s, n - 1) + if s[n - 1].typeId == 0 then 0 else 1
  }

  lemma {:induction false} TotalsHas(s: Table, n: nat, t: nat)
    requires Probed(s) && n <= CAPACITY
    ensures t in Totals(s, n) <==> t != 0 && exists i :: 0 <= i < n && s[i].typeId == t
    ensures forall i | 0 <= i < n && s[i].typeId == t && t != 0 :: Totals(s, n)[t] == s[i].total
  {
    hide Probed;
    if n > 0 {
      TotalsHas(s, n - 1, t);
      forall i: nat | i < n - 1 && s[i].typeId == t && t != 0 ensures s[n - 1].typeId != t {
        if s[n - 1].typeId == t { TypeOnce(s, i, n - 1); }
      }
      if t != 0 && s[n - 1].typeId == t { assert exists i :: 0 <= i < n && s[i].typeId == t; }
    }
  }

  lemma {:induction false} TotalsSize(s: Table, n: nat)
    requires Probed(s) && n <= CAPACITY
    ensures |Totals(s, n)| == Occupied(s, n) <= n
    ensures Occupied(s, n) == n <==> forall i | 0 <= i < n :: s[i].typeId != 0
  {
    hide Probed;
    if n > 0 {
      TotalsSize(s, n - 1);
      TotalsHas(s, n - 1, s[n - 1].typeId);
      if s[n - 1].typeId in Totals(s, n - 1) {
        var i :| 0 <= i < n - 1 && s[i].typeId == s[n - 1].typeId;
        TypeOnce(s, i, n - 1);
      }
    }
  }

  function AsMap(s: Table): map<nat, Total> { Totals(s, CAPACITY) }

  /** What adding means for the map. */
  function Accumulated(m: map<nat, Total>, st: TypeStats): map<nat, Total> {
    if st.typeId == 0 then m
    else if st.typeId in m then m[st.typeId := Plus(m[st.typeId], st)]
    else if |m| < CAPACITY then m[st.typeId := Plus(Total(0, 0, 0), st)]
    else m
  }

  function AccumulatedAll(m: map<nat, Total>, stats: seq<TypeStats>): map<nat, Total>
    decreases |stats|
  {
    if stats == [] then m else AccumulatedAll(Accumulated(m, stats[0]), stats[1..])
  }

  /** A search ends at the type exactly if the table has it, and fails exactly if the table is full of others. */
  lemma ProbeFinds(s: Table, t: nat)
    requires Probed(s) && t != 0
    ensures var p := Probe(s, t, 0);
      && (p < CAPACITY && s[Place(t, p)].typeId == t <==> t in AsMap(s))
      && (p < CAPACITY && s[Place(t, p)].typeId == t ==> AsMap(s)[t] == s[Place(t, p)].total)
      && (p == CAPACITY <==> t !in AsMap(s) && |AsMap(s)| == CAPACITY)
  {
    hide Place;
    var p := Probe(s, t, 0);
    TotalsHas(s, CAPACITY, t);
    TotalsSize(s, CAPACITY);
    if t in AsMap(s) {
      var i :| 0 <= i < CAPACITY && s[i].typeId == t;
      var q: nat :| SitsAt(s, t, q) && Place(t, q) == i;
      assert p == q;
    }
    if p == CAPACITY {
      forall i: nat | i < CAPACITY ensures s[i].typeId != 0 { var q := PlaceReached(t, i); }
    }
  }

  lemma AddKeeps(s: Table, st: TypeStats)
    requires Probed(s)
    ensures Probed(Add(s, st))
  {
    hide Home;
    var t, p := st.typeId, Probe(s, st.typeId, 0);
    if t != 0 && p < CAPACITY {
      var i, s' := Place(t, p), Add(s, st);
      forall q | 0 <= q < p ensures Place(t, q) != i { PlacesApart(t, q, p); }
      assert SitsAt(s', t, p);
      forall j | 0 <= j < CAPACITY && s'[j].typeId != 0
        ensures exists q :: SitsAt(s', s'[j].typeId, q) && Place(s'[j].typeId, q) == j
      {
        if j != i {
          var q: nat :| SitsAt(s, s[j].typeId, q) && Place(s[j].typeId, q) == j;
          assert SitsAt(s', s[j].typeId, q);
        }
      }
    }
  }

  /** The table does to its map what adding means, on every input. */
  lemma AddRefines(s: Table, st: TypeStats)
    requires Probed(s)
    ensures Probed(Add(s, st)) && AsMap(Add(s, st)) == Accumulated(AsMap(s), st)
  {
    AddKeeps(s, st);
    hide Probed, Place;
    if st.typeId != 0 {
      ProbeFinds(s, st.typeId);
      var s', m := Add(s, st), Accumulated(AsMap(s), st);
      TotalsSize(s, CAPACITY);
      forall t ensures t in AsMap(s') <==> t in m {
        AddedAt(s, st, t);
      }
      forall t | t in m ensures AsMap(s')[t] == m[t] {
        AddedAt(s, st, t);
      }
    }
  }

  lemma AddedAt(s: Table, st: TypeStats, t: nat)
    requires Probed(s) && Probed(Add(s, st)) && st.typeId != 0
    ensures var (s', m) := (Add(s, st), Accumulated(AsMap(s), st));
      (t in AsMap(s') <==> t in m) && (t in m ==> AsMap(s')[t] == m[t])
  {
    hide Probed, Place;
    var s' := Add(s, st);
    ProbeFinds(s, st.typeId);
    TotalsHas(s, CAPACITY, t);
    TotalsHas(s', CAPACITY, t);
    TotalsSize(s, CAPACITY);
    var p := Probe(s, st.typeId, 0);
    if p < CAPACITY {
      var i := Place(st.typeId, p);
      assert s'[i].typeId == st.typeId;
      forall j | 0 <= j < CAPACITY && j != i ensures s'[j] == s[j] {}
    }
  }

  lemma {:induction false} AddAllRefines(s: Table, stats: seq<TypeStats>)
    requires Probed(s)
    ensures Probed(AddAll(s, stats)) && AsMap(AddAll(s, stats)) == AccumulatedAll(AsMap(s), stats)
    decreases |stats|
  {
    hide Probed, Add, AsMap;
    if stats != [] {
      AddRefines(s, stats[0]);
      AddAllRefines(Add(s, stats[0]), stats[1..]);
    }
  }

  // ---------------------------------------------------------------- Whole sessions

  /** The types that count: all but zero. */
  function Types(stats: seq<TypeStats>): set<nat> {
    if stats == [] then {} else Types(stats[1..]) + if stats[0].typeId == 0 then {} else {stats[0].typeId}
  }

  /** The entries of type `t` in all the views. */
  function Entries(stats: seq<TypeStats>, t: nat): nat {
    if stats == [] then 0 else (if stats[0].typeId == t then stats[0].entryCount else 0) + Entries(stats[1..], t)
  }

  /** Their bytes. */
  function MemBytes(stats: seq<TypeStats>, t: nat): nat {
    if stats == [] then 0 else (if stats[0].typeId == t then stats[0].totalMemBytes else 0) + MemBytes(stats[1..], t)
  }

  /** The views that had the type. */
  function Views(stats: seq<TypeStats>, t: nat): nat {
    if stats == [] then 0 else (if stats[0].typeId == t then 1 else 0) + Views(stats[1..], t)
  }

  function Known(m: map<nat, Total>, t: nat): Total { if t in m then m[t] else Total(0, 0, 0) }

  /** If the types fit in the table, every one of them has exactly its three sums. */
  lemma {:induction false} SumsExact(m: map<nat, Total>, stats: seq<TypeStats>, t: nat)
    requires |m.Keys + Types(stats)| <= CAPACITY && t != 0
    ensures var n := AccumulatedAll(m, stats);
      && (t in n <==> t in m || t in Types(stats))
      && (t in n ==>
            && n[t].entries == Known(m, t).entries + Entries(stats, t)
            && n[t].bytes == Known(m, t).bytes + MemBytes(stats, t)
            && n[t].views == Known(m, t).views + Views(stats, t))
    decreases |stats|
  {
    if stats != [] {
      AccumulatesOne(m, stats[0], m.Keys + Types(stats));
      var n := Accumulated(m, stats[0]);
      hide Accumulated;
      assert n.Keys + Types(stats[1..]) == m.Keys + Types(stats);
      SumsExact(n, stats[1..], t);
    } else {
      assert m.Keys + Types(stats) == m.Keys;
    }
  }

  lemma AccumulatesOne(m: map<nat, Total>, st: TypeStats, room: set<nat>)
    requires m.Keys <= room && (st.typeId != 0 ==> st.typeId in room) && |room| <= CAPACITY
    ensures var n := Accumulated(m, st);
      && n.Keys == m.Keys + (if st.typeId == 0 then {} else {st.typeId})
      && forall t | t != 0 :: Known(n, t) == if st.typeId == t then Plus(Known(m, t), st) else Known(m, t)
  {
    if st.typeId != 0 && st.typeId !in m {
      SubsetSize(m.Keys + {st.typeId}, room);
      assert |m.Keys + {st.typeId}| == |m.Keys| + 1 && |m| == |m.Keys|;
    }
  }

  lemma {:induction false} NeverOverfull(m: map<nat, Total>, stats: seq<TypeStats>)
    requires |m| <= CAPACITY
    ensures var n := AccumulatedAll(m, stats); |n| <= CAPACITY && n.Keys <= m.Keys + Types(stats)
    decreases |stats|
  {
    if stats != [] {
      NeverOverfull(Accumulated(m, stats[0]), stats[1..]);
    }
  }

  function EmptyTable(): Table { seq(CAPACITY, _ => TypeSlot(0, Total(0, 0, 0))) }

  lemma EmptyIsEmpty()
    ensures Probed(EmptyTable()) && AsMap(EmptyTable()) == map[]
  {
    TotalsSize(EmptyTable(), CAPACITY);
    forall t ensures t !in AsMap(EmptyTable()) { TotalsHasInt(EmptyTable(), t); }
  }

  lemma TotalsHasInt(s: Table, t: nat)
    requires Probed(s) && forall i | 0 <= i < CAPACITY :: s[i].typeId == 0
    ensures t !in AsMap(s)
  {
    TotalsHas(s, CAPACITY, t);
  }

  /** Over any session, the stats of whatever views came: every type is counted, and counted exactly, if
      and only if no more than 256 types came. */
  lemma CountedExactlyWhenFew(stats: seq<TypeStats>)
    ensures var m := AsMap(AddAll(EmptyTable(), stats));
      (forall t | t in Types(stats) :: t in m && m[t] == Total(Entries(stats, t), MemBytes(stats, t), Views(stats, t)))
      <==> |Types(stats)| <= 256
  {
    hide Entries, MemBytes, Views, AsMap, AddAll;
    EmptyIsEmpty();
    AddAllRefines(EmptyTable(), stats);
    var none: map<nat, Total> := map[];
    var m := AccumulatedAll(none, stats);
    assert none.Keys + Types(stats) == Types(stats);
    if |Types(stats)| <= CAPACITY {
      forall t | t in Types(stats)
        ensures t in m && m[t] == Total(Entries(stats, t), MemBytes(stats, t), Views(stats, t))
      {
        NotZero(stats, t);
        SumsExact(none, stats, t);
      }
    } else {
      NeverOverfull(none, stats);
      if Types(stats) <= m.Keys { SubsetSize(Types(stats), m.Keys); }
    }
  }

  lemma {:induction false} NotZero(stats: seq<TypeStats>, t: nat)
    requires t in Types(stats)
    ensures t != 0
  {
    if t in Types(stats[1..]) { NotZero(stats[1..], t); }
  }

  // ---------------------------------------------------------------- More types than places

  /** The types in the order in which they first come, after those in `seen`. */
  function Arrivals(seen: seq<nat>, stats: seq<TypeStats>): seq<nat>
    decreases |stats|
  {
    if stats == [] then seen
    else
      var t := stats[0].typeId;
      Arrivals(if t == 0 || t in seen then seen else seen + [t], stats[1..])
  }

  function First256(types: seq<nat>): seq<nat> { if |types| <= 256 then types else types[..256] }

  ghost predicate Arrived(m: map<nat, Total>, seen: seq<nat>) {
    && |m| == |First256(seen)|
    && forall t :: t in m <==> t in First256(seen)
  }

  lemma OneArrives(m: map<nat, Total>, seen: seq<nat>, st: TypeStats)
    requires Arrived(m, seen)
    ensures Arrived(Accumulated(m, st), if st.typeId == 0 || st.typeId in seen then seen else seen + [st.typeId])
  {
    var t := st.typeId;
    if t != 0 && t !in seen {
      assert First256(seen + [t]) == if |seen| < 256 then seen + [t] else First256(seen);
      assert t !in m;
    }
  }

  lemma {:induction false} CountedArrived(m: map<nat, Total>, seen: seq<nat>, stats: seq<TypeStats>)
    requires Arrived(m, seen)
    ensures Arrived(AccumulatedAll(m, stats), Arrivals(seen, stats))
    decreases |stats|
  {
    if stats != [] {
      OneArrives(m, seen, stats[0]);
      hide Accumulated, Arrived;
      var t := stats[0].typeId;
      CountedArrived(Accumulated(m, stats[0]), if t == 0 || t in seen then seen else seen + [t], stats[1..]);
    }
  }

  lemma {:induction false} FullStays(m: map<nat, Total>, stats: seq<TypeStats>, t: nat)
    requires |m| >= 256 && t !in m
    ensures t !in AccumulatedAll(m, stats)
    decreases |stats|
  {
    if stats != [] { FullStays(Accumulated(m, stats[0]), stats[1..], t); }
  }

  /** What is counted at all is counted exactly. */
  lemma {:induction false} CountedExact(m: map<nat, Total>, stats: seq<TypeStats>, t: nat)
    requires t != 0
    ensures var n := AccumulatedAll(m, stats);
      t in n ==>
        && n[t].entries == Known(m, t).entries + Entries(stats, t)
        && n[t].bytes == Known(m, t).bytes + MemBytes(stats, t)
        && n[t].views == Known(m, t).views + Views(stats, t)
    decreases |stats|
  {
    if stats != [] {
      var n := Accumulated(m, stats[0]);
      CountedExact(n, stats[1..], t);
      if stats[0].typeId == t && t !in n { FullStays(n, stats[1..], t); }
    }
  }

  /** Over any session the types counted are the first 256 that came, and each is counted exactly. */
  lemma FirstTypesCounted(stats: seq<TypeStats>)
    ensures var m := AsMap(AddAll(EmptyTable(), stats));
      && (forall t :: t in m <==> t in First256(Arrivals([], stats)))
      && (forall t | t in m :: m[t] == Total(Entries(stats, t), MemBytes(stats, t), Views(stats, t)))
  {
    hide Entries, MemBytes, Views, AddAll, First256;
    EmptyIsEmpty();
    AddAllRefines(EmptyTable(), stats);
    var none: map<nat, Total> := map[];
    assert First256([]) == [] by { NoneFirst(); }
    CountedArrived(none, [], stats);
    var m := AsMap(AddAll(EmptyTable(), stats));
    forall t | t in m ensures m[t] == Total(Entries(stats, t), MemBytes(stats, t), Views(stats, t)) {
      TotalsHas(AddAll(EmptyTable(), stats), CAPACITY, t);
      CountedExact(none, stats, t);
    }
  }

  lemma NoneFirst()
    ensures First256([]) == []
  {
  }

  // ---------------------------------------------------------------- The tracker

  class TypeTracker {
    const typeTable: array<TypeSlot>

    ghost predicate Valid()
      reads this
    {
      typeTable.Length == CAPACITY
    }

    constructor ()
      ensures Valid() && typeTable.Length == 256 && typeTable[..] == EmptyTable() && fresh(typeTable)
    {
      typeTable := new TypeSlot[CAPACITY](_ => TypeSlot(0, Total(0, 0, 0)));
    }

    /** The place of a type, made for it if need be. */
    method FindOrInsertType(typeId: nat) returns (found: bool, slot: nat)
      requires Valid()
      modifies typeTable
      ensures var was: Table := old(typeTable[..]);
        var p := Probe(was, typeId, 0);
        if typeId == 0 || p == CAPACITY then !found && typeTable[..] == was
        else
          && found && slot == Place(typeId, p)
          && typeTable[..] == was[slot := if was[slot].typeId == 0 then TypeSlot(typeId, Total(0, 0, 0)) else was[slot]]
    {
      found, slot := false, 0;
      if typeId == 0 {
        return;
      }
      ghost var was: Table := typeTable[..];
      var idx := Home(typeId);
      var probe := 0;
      while probe < CAPACITY
        invariant probe <= CAPACITY && typeTable[..] == was && Probe(was, typeId, probe) == Probe(was, typeId, 0)
      {
        slot := (idx + probe) % CAPACITY;
        assert slot == Place(typeId, probe);
        if typeTable[slot].typeId == typeId {
          return true, slot;
        }
        if typeTable[slot].typeId == 0 {
          typeTable[slot] := TypeSlot(typeId, Total(0, 0, 0));
          return true, slot;
        }
        probe := probe + 1;
      }
    }

    method RecordDbpfTypes(stats: seq<TypeStats>)
      requires Valid()
      modifies typeTable
      ensures typeTable[..] == AddAll(old(typeTable[..]), stats)
    {
      ghost var was: Table := typeTable[..];
      var i := 0;
      assert stats[0..] == stats;
      while i < |stats|
        invariant i <= |stats|
        invariant AddAll(typeTable[..], stats[i..]) == AddAll(was, stats)
      {
        RecordOne(stats[i]);
        assert stats[i..][1..] == stats[i + 1..];
        i := i + 1;
      }
    }

    method RecordOne(st: TypeStats)
      requires Valid()
      modifies typeTable
      ensures typeTable[..] == Add(old(typeTable[..]), st)
    {
      var found, slot := FindOrInsertType(st.typeId);
      if found {
        typeTable[slot] := typeTable[slot].(total := Plus(typeTable[slot].total, st));
      }
    }
  }
}
