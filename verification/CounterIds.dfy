/** Counter names and their ids: an append-only table searched without a lock, a lock for appending, and a
    small cache in every thread.  Threads interleave at the points where they touch the table. */
module CounterIds {
  const MAX_ITEMS := 512
  const CACHE_SLOTS := 64
  const MAX_NAME := 63

  /** A name that fits its place in the table. */
  type Name = s: string | |s| <= MAX_NAME witness ""

  /** The FNV-1a hash of a name's bytes, in 32-bit words. */
  function Hash(s: string): nat {
    if s == "" then 2166136261
    else
      var h := Hash(s[..|s| - 1]);
      var low := ((h % 256) as bv8 ^ (s[|s| - 1] as int % 256) as bv8) as nat;
      (h - h % 256 + low) * 16777619 % 0x1_0000_0000
  }

  // ---------------------------------------------------------------- Table and cache

  /** The id of `name`: the first place it has at or after `k`, or none. */
  function Find(names: seq<Name>, k: nat, name: Name): (i: nat)
    requires k <= |names|
    ensures k <= i <= |names|
    ensures i < |names| ==> names[i] == name
    ensures forall j | k <= j < i :: names[j] != name
    decreases |names| - k
  {
    if k == |names| || names[k] == name then k else Find(names, k + 1, name)
  }

  predicate Distinct(names: seq<Name>) {
    forall i, j | 0 <= i < j < |names| :: names[i] != names[j]
  }

  datatype Entry = Empty | Entry(name: Name, hash: nat, id: nat)
  {
    predicate Matches(s: Name, h: nat) { this.Entry? && hash == h && name == s }
  }

  datatype Cache = Cache(entries: seq<Entry>, cursor: nat)
  {
    predicate Shaped() { |entries| == CACHE_SLOTS && cursor < CACHE_SLOTS }

    function Store(s: Name, id: nat): (c: Cache)
      requires Shaped()
      ensures c.Shaped()
    {
      if s == "" then this
      else Cache(entries[cursor := Entry(s, Hash(s), id)], (cursor + 1) % CACHE_SLOTS)
    }

    /** The first entry at or after `k` for `s`. */
    function Search(k: nat, s: Name, h: nat): (i: nat)
      requires k <= |entries|
      ensures k <= i <= |entries|
      ensures i < |entries| ==> entries[i].Matches(s, h)
      ensures forall j | k <= j < i :: !entries[j].Matches(s, h)
      decreases |entries| - k
    {
      if k == |entries| || entries[k].Matches(s, h) then k else Search(k + 1, s, h)
    }
  }

  function FreshCache(): Cache { Cache(seq(CACHE_SLOTS, _ => Empty), 0) }

  /** What a call returns: an id, or minus one. */
  datatype Answer = Id(id: nat) | NoId

  // ---------------------------------------------------------------- Threads

  /** A call about to search the table, or to take the lock. */
  datatype Pc = Idle | Searching(name: Name) | Locking(name: Name)

  /** `tls` is whether a thread has storage of its own; without it the cache is left alone. */
  datatype Thread = Thread(pc: Pc, cache: Cache, tls: bool)

  datatype Reply = Reply(name: Name, answer: Answer)

  datatype System = System(names: seq<Name>, threads: map<int, Thread>, log: seq<Reply>)
  {
    function At(t: int): Thread { if t in threads then threads[t] else Thread(Idle, FreshCache(), true) }

    function With(t: int, th: Thread): System { this.(threads := threads[t := th]) }

    function Goto(t: int, pc: Pc): System { With(t, At(t).(pc := pc)) }

    function Answered(t: int, name: Name, answer: Answer): System
      requires At(t).cache.Shaped()
    {
      var th := At(t).(pc := Idle);
      var stored := if answer.Id? && th.tls then th.(cache := th.cache.Store(name, answer.id)) else th;
      With(t, stored).(log := log + [Reply(name, answer)])
    }
  }

  datatype Action = Call(name: Name) | Go

  predicate Enabled(s: System, t: int, a: Action) {
    (a.Call? <==> s.At(t).pc.Idle?) && s.At(t).cache.Shaped()
  }

  /** The cache is the first thing a call looks at. */
  function Called(s: System, t: int, name: Name): System
    requires s.At(t).cache.Shaped()
  {
    var th := s.At(t);
    var i := th.cache.Search(0, name, Hash(name));
    if name == "" then s.(log := s.log + [Reply(name, NoId)])
    else if th.tls && i < CACHE_SLOTS then s.(log := s.log + [Reply(name, Id(th.cache.entries[i].id))])
    else s.Goto(t, Searching(name))
  }

  function Next(s: System, t: int, a: Action): System
    requires Enabled(s, t, a)
  {
    match s.At(t).pc
    case Idle => Called(s, t, a.name)
    case Searching(name) =>
      var i := Find(s.names, 0, name);
      if i < |s.names| then s.Answered(t, name, Id(i)) else s.Goto(t, Locking(name))
    case Locking(name) =>
      var i := Find(s.names, 0, name);
      if i < |s.names| then s.Answered(t, name, Id(i))
      else if |s.names| >= MAX_ITEMS then s.Answered(t, name, NoId)
      else s.(names := s.names + [name]).Answered(t, name, Id(i))
  }

  // ---------------------------------------------------------------- What every step keeps

  /** An entry names the id that the table gives the name, and its hash is the name's. */
  predicate EntryOk(names: seq<Name>, e: Entry) {
    e.Entry? ==> e.name != "" && e.hash == Hash(e.name) && e.id < |names| && names[e.id] == e.name
  }

  predicate CacheOk(names: seq<Name>, c: Cache) {
    c.Shaped() && forall i | 0 <= i < CACHE_SLOTS :: EntryOk(names, c.entries[i])
  }

  predicate ThreadOk(names: seq<Name>, th: Thread) {
    CacheOk(names, th.cache) && (!th.pc.Idle? ==> th.pc.name != "")
  }

  /** What a search of the table would answer, now and for ever after. */
  predicate Settled(names: seq<Name>, r: Reply) {
    match r.answer
    case Id(i) => i < |names| && names[i] == r.name
    case NoId => r.name == "" || (|names| == MAX_ITEMS && Find(names, 0, r.name) == MAX_ITEMS)
  }

  ghost predicate Invariant(s: System) {
    && Distinct(s.names) && |s.names| <= MAX_ITEMS && "" !in s.names
    && (forall t :: ThreadOk(s.names, s.At(t)))
    && (forall i | 0 <= i < |s.log| :: Settled(s.names, s.log[i]))
  }

  lemma EntryStays(names: seq<Name>, later: seq<Name>, c: Cache)
    requires names <= later && CacheOk(names, c)
    ensures CacheOk(later, c)
  {
    forall i | 0 <= i < CACHE_SLOTS ensures EntryOk(later, c.entries[i]) {
      assert EntryOk(names, c.entries[i]);
    }
  }

  lemma StoreKeeps(names: seq<Name>, c: Cache, name: Name, id: nat)
    requires CacheOk(names, c) && id < |names| && names[id] == name
    ensures CacheOk(names, c.Store(name, id))
  {
    var d := c.Store(name, id);
    forall i | 0 <= i < CACHE_SLOTS ensures EntryOk(names, d.entries[i]) {
      assert EntryOk(names, c.entries[i]);
    }
  }

  /** A valid cache finds what a search of the table finds; only a miss leaves the question open. */
  lemma CacheAgrees(names: seq<Name>, c: Cache, name: Name)
    requires Distinct(names) && CacheOk(names, c)
    ensures var i := c.Search(0, name, Hash(name));
      && (i < CACHE_SLOTS ==> c.entries[i].id == Find(names, 0, name) < |names|)
      && (i == CACHE_SLOTS ==> forall k | 0 <= k < CACHE_SLOTS && c.entries[k].Entry? :: c.entries[k].name != name)
  {
    var i := c.Search(0, name, Hash(name));
    if i < CACHE_SLOTS {
      assert EntryOk(names, c.entries[i]);
    } else {
      forall k | 0 <= k < CACHE_SLOTS && c.entries[k].Entry? ensures c.entries[k].name != name {
        assert EntryOk(names, c.entries[k]) && !c.entries[k].Matches(name, Hash(name));
      }
    }
  }

  lemma SettledStays(names: seq<Name>, later: seq<Name>, r: Reply)
    requires names <= later && |later| <= MAX_ITEMS && Settled(names, r)
    ensures Settled(later, r)
  {
    if |names| == MAX_ITEMS { assert later == names; }
  }

  lemma AnsweredKeeps(s: System, later: seq<Name>, t: int, name: Name, answer: Answer)
    requires Invariant(s) && s.names <= later && Distinct(later) && |later| <= MAX_ITEMS && "" !in later
    requires Settled(later, Reply(name, answer)) && s.At(t).cache.Shaped()
    ensures Invariant(s.(names := later).Answered(t, name, answer))
  {
    var s' := s.(names := later).Answered(t, name, answer);
    forall u ensures ThreadOk(later, s'.At(u)) {
      assert ThreadOk(s.names, s.At(u));
      EntryStays(s.names, later, s.At(u).cache);
      if u == t && answer.Id? { StoreKeeps(later, s.At(t).cache, name, answer.id); }
    }
    forall i | 0 <= i < |s'.log| ensures Settled(later, s'.log[i]) {
      if i < |s.log| { SettledStays(s.names, later, s.log[i]); }
    }
  }

  lemma StepKeeps(s: System, t: int, a: Action)
    requires Invariant(s) && Enabled(s, t, a)
    ensures Invariant(Next(s, t, a)) && s.names <= Next(s, t, a).names && s.log <= Next(s, t, a).log
  {
    assert ThreadOk(s.names, s.At(t));
    hide Hash, CacheOk, Invariant, Cache.Search;
    TableOk(s);
    match s.At(t).pc {
      case Idle => CalledKeeps(s, t, a.name);
      case Searching(name) =>
        var i := Find(s.names, 0, name);
        if i < |s.names| { AnsweredKeeps(s, s.names, t, name, Id(i)); } else { GotoKeeps(s, t, Locking(name)); }
      case Locking(name) =>
        var i := Find(s.names, 0, name);
        if i < |s.names| { AnsweredKeeps(s, s.names, t, name, Id(i)); }
        else if |s.names| >= MAX_ITEMS { AnsweredKeeps(s, s.names, t, name, NoId); }
        else { AnsweredKeeps(s, s.names + [name], t, name, Id(i)); }
    }
  }

  lemma TableOk(s: System)
    requires Invariant(s)
    ensures Distinct(s.names) && |s.names| <= MAX_ITEMS && "" !in s.names && forall t :: ThreadOk(s.names, s.At(t))
  {}

  lemma GotoKeeps(s: System, t: int, pc: Pc)
    requires Invariant(s) && pc != Idle && pc.name != ""
    ensures Invariant(s.Goto(t, pc))
  {
    var s' := s.Goto(t, pc);
    forall u ensures ThreadOk(s.names, s'.At(u)) { assert ThreadOk(s.names, s.At(u)); }
  }

  lemma CalledKeeps(s: System, t: int, name: Name)
    requires Invariant(s) && s.At(t).cache.Shaped()
    ensures Invariant(Called(s, t, name)) && s.log <= Called(s, t, name).log
    ensures Called(s, t, name).names == s.names
  {
    hide Hash;
    var th := s.At(t);
    assert ThreadOk(s.names, th);
    CacheAgrees(s.names, th.cache, name);
    var s' := Called(s, t, name);
    if name != "" && !(th.tls && th.cache.Search(0, name, Hash(name)) < CACHE_SLOTS) {
      GotoKeeps(s, t, Searching(name));
    } else {
      forall u ensures ThreadOk(s.names, s'.At(u)) { assert ThreadOk(s.names, s.At(u)); }
    }
  }

  // ---------------------------------------------------------------- Every interleaving

  predicate Start(s: System) { s.names == [] && s.log == [] && s.threads == map[] }

  ghost predicate IsRun(ss: seq<System>, ts: seq<int>, acts: seq<Action>) {
    && |ss| == |ts| + 1 && |acts| == |ts|
    && forall i {:trigger acts[i]} | 0 <= i < |acts| :: Enabled(ss[i], ts[i], acts[i]) && ss[i + 1] == Next(ss[i], ts[i], acts[i])
  }

  lemma {:induction false} RunKeeps(ss: seq<System>, ts: seq<int>, acts: seq<Action>, i: nat, j: nat)
    requires IsRun(ss, ts, acts) && Start(ss[0]) && i <= j < |ss|
    ensures Invariant(ss[j]) && ss[i].names <= ss[j].names && ss[i].log <= ss[j].log
    decreases j
  {
    hide Next, Enabled, Invariant;
    if j == 0 {
      StartOk(ss[0]);
    } else {
      RunKeeps(ss, ts, acts, if i < j then i else j - 1, j - 1);
      assert acts[j - 1] == acts[j - 1];
      StepKeeps(ss[j - 1], ts[j - 1], acts[j - 1]);
    }
  }

  lemma StartOk(s: System)
    requires Start(s)
    ensures Invariant(s)
  {
    forall t ensures ThreadOk(s.names, s.At(t)) {}
  }

  /** One name, one id: whatever threads call, in whatever order, from cache or table, two answers about
      a name are the same, and an id answered is where the name stands in the table ever after. */
  lemma OneNameOneId(ss: seq<System>, ts: seq<int>, acts: seq<Action>, n: nat, i: nat, j: nat)
    requires IsRun(ss, ts, acts) && Start(ss[0]) && n < |ss|
    requires i < |ss[n].log| && j < |ss[n].log| && ss[n].log[i].name == ss[n].log[j].name
    ensures ss[n].log[i].answer == ss[n].log[j].answer
    ensures ss[n].log[i].answer.Id? ==> Find(ss[n].names, 0, ss[n].log[i].name) == ss[n].log[i].answer.id
  {
    RunKeeps(ss, ts, acts, n, n);
    var (a, b) := (ss[n].log[i], ss[n].log[j]);
    assert Settled(ss[n].names, a) && Settled(ss[n].names, b);
  }

  // ---------------------------------------------------------------- Replies and calls

  /** The call a thread is in is about the name it called with. */
  lemma {:induction false} CallOf(ss: seq<System>, ts: seq<int>, acts: seq<Action>, t: int, k: nat) returns (c: nat)
    requires IsRun(ss, ts, acts) && Start(ss[0]) && k < |ss| && !ss[k].At(t).pc.Idle?
    ensures c < k && ts[c] == t && acts[c] == Call(ss[k].At(t).pc.name)
    ensures forall m | c < m < k && ts[m] == t :: acts[m].Go?
  {
    hide Hash, Cache.Store, Cache.Search, Find;
    assert k > 0;
    assert acts[k - 1] == acts[k - 1];
    if ts[k - 1] == t && acts[k - 1].Call? {
      c := k - 1;
    } else {
      c := CallOf(ss, ts, acts, t, k - 1);
    }
  }

  /** Every reply is to the latest call of its thread, and about the name of that call. */
  lemma RepliesOwnCall(ss: seq<System>, ts: seq<int>, acts: seq<Action>, k: nat) returns (c: nat)
    requires IsRun(ss, ts, acts) && Start(ss[0]) && k < |ts| && |ss[k].log| < |ss[k + 1].log|
    ensures c <= k && ts[c] == ts[k] && |ss[k + 1].log| == |ss[k].log| + 1
    ensures acts[c] == Call(ss[k + 1].log[|ss[k].log|].name)
    ensures forall m | c < m <= k && ts[m] == ts[k] :: acts[m].Go?
  {
    hide Hash, Cache.Store, Cache.Search, Find;
    assert acts[k] == acts[k];
    if acts[k].Call? { c := k; } else { c := CallOf(ss, ts, acts, ts[k], k); }
  }

  // ---------------------------------------------------------------- What a cache remembers

  function Filled(items: seq<(Name, nat)>): (c: Cache)
    ensures c.Shaped()
  {
    if items == [] then FreshCache()
    else
      var last := items[|items| - 1];
      Filled(items[..|items| - 1]).Store(last.0, last.1)
  }

  /** Entry `i` of all stored is at place `i % 64`, unless 64 newer ones came; places not reached yet are empty. */
  ghost predicate HoldsLatest(c: Cache, items: seq<(Name, nat)>) {
    && |c.entries| == 64 && c.cursor == |items| % 64
    && (forall i: nat | |items| - 64 <= i < |items| :: c.entries[i % 64] == Entry(items[i].0, Hash(items[i].0), items[i].1))
    && (forall k | |items| <= k < 64 :: c.entries[k] == Empty)
  }

  lemma PlacesApart(i: nat, n: nat)
    requires i < n < i + 64
    ensures i % 64 != n % 64
  {
  }

  lemma StoreHolds(c: Cache, items: seq<(Name, nat)>, name: Name, id: nat)
    requires c.Shaped() && HoldsLatest(c, items) && name != ""
    ensures HoldsLatest(c.Store(name, id), items + [(name, id)])
  {
    hide Hash;
    var later, d := items + [(name, id)], c.Store(name, id);
    forall i: nat | |later| - 64 <= i < |later| ensures d.entries[i % 64] == Entry(later[i].0, Hash(later[i].0), later[i].1) {
      if i < |items| { PlacesApart(i, |items|); }
    }
  }

  /** A cache holds the latest 64 names stored in it, and nothing else. */
  lemma {:induction false} CacheHoldsLatest(items: seq<(Name, nat)>)
    requires forall i | 0 <= i < |items| :: items[i].0 != ""
    ensures HoldsLatest(Filled(items), items)
  {
    hide Cache.Store, Hash;
    if items != [] {
      var n := |items| - 1;
      CacheHoldsLatest(items[..n]);
      hide HoldsLatest;
      StoreHolds(Filled(items[..n]), items[..n], items[n].0, items[n].1);
      assert items[..n] + [(items[n].0, items[n].1)] == items;
    } else {
      NothingHeld();
    }
  }

  lemma NothingHeld()
    ensures HoldsLatest(FreshCache(), [])
  {
  }

  // ---------------------------------------------------------------- One thread's view

  class Analytics {
    var counterNames: seq<Name>

    method FindCounterIdNoLock(name: Name) returns (id: int)
      ensures id == if Find(counterNames, 0, name) < |counterNames| then Find(counterNames, 0, name) else -1
    {
      var i := 0;
      while i < |counterNames|
        invariant i <= |counterNames| && Find(counterNames, i, name) == Find(counterNames, 0, name)
      {
        if counterNames[i] == name {
          return i;
        }
        i := i + 1;
      }
      id := -1;
    }

    /** A whole call with no other thread's step in between. */
    method GetCounterId(name: Name, cache: NameCache) returns (id: int)
      requires cache.Valid() && Distinct(counterNames) && |counterNames| <= MAX_ITEMS && CacheOk(counterNames, cache.Abs())
      modifies this, cache, cache.entries
      ensures cache.Valid() && Distinct(counterNames) && CacheOk(counterNames, cache.Abs())
      ensures var i := Find(old(counterNames), 0, name);
        if name == "" || (i == |old(counterNames)| && i == 512) then id == -1 && counterNames == old(counterNames)
        else id == i && counterNames == if i < |old(counterNames)| then old(counterNames) else old(counterNames) + [name]
    {
      hide Hash, Cache.Store, Cache.Search;
      if name == "" {
        return -1;
      }
      CacheAgrees(counterNames, cache.Abs(), name);
      id := cache.Lookup(name);
      if id >= 0 {
        return;
      }
      id := FindCounterIdNoLock(name);
      if id < 0 {
        if |counterNames| >= MAX_ITEMS {
          return -1;
        }
        id := |counterNames|;
        EntryStays(counterNames, counterNames + [name], cache.Abs());
        counterNames := counterNames + [name];
      }
      StoreKeeps(counterNames, cache.Abs(), name, id);
      cache.Store(name, id);
    }
  }

  class NameCache {
    const entries: array<Entry>
    var cursor: nat

    predicate Valid()
      reads this
    {
      entries.Length == CACHE_SLOTS && cursor < CACHE_SLOTS
    }

    function Abs(): Cache
      reads this, entries
    {
      Cache(entries[..], cursor)
    }

    constructor ()
      ensures Valid() && Abs() == FreshCache() && fresh(entries)
    {
      entries, cursor := new Entry[CACHE_SLOTS](_ => Empty), 0;
    }

    method Lookup(name: Name) returns (id: int)
      requires Valid()
      ensures var i := Abs().Search(0, name, Hash(name));
        id == if name != "" && i < CACHE_SLOTS then Abs().entries[i].id else -1
    {
      if name == "" {
        return -1;
      }
      var hash := Hash(name);
      var i := 0;
      while i < CACHE_SLOTS
        invariant i <= CACHE_SLOTS && Abs().Search(i, name, hash) == Abs().Search(0, name, hash)
      {
        if entries[i].Entry? && entries[i].hash == hash && entries[i].name == name {
          return entries[i].id;
        }
        i := i + 1;
      }
      id := -1;
    }

    method Store(name: Name, id: nat)
      requires Valid()
      modifies this, entries
      ensures Valid() && Abs() == old(Abs()).Store(name, id)
    {
      if name != "" {
        entries[cursor] := Entry(name, Hash(name), id);
        cursor := (cursor + 1) % CACHE_SLOTS;
      }
    }
  }
}
