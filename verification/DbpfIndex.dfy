/** A histogram of the resource types in a mapped package file, read straight from the mapped bytes. */
module DbpfIndex {
  const HEADER_BYTES := 64
  const ENTRY_BYTES := 32
  const COUNT_AT := 36
  const OFFSET_AT := 60
  const SIZE_IN_ENTRY := 24

  type Byte = b: nat | b < 256

  datatype Resource = Resource(typeId: nat, memSize: nat)

  datatype TypeStats = TypeStats(typeId: nat, entryCount: nat, totalMemBytes: nat)

  // ---------------------------------------------------------------- The index in the bytes

  /** The little-endian word at `at`; asking for one outside the view is not possible. */
  function Word(view: seq<Byte>, at: nat): nat
    requires at + 4 <= |view|
  {
    view[at] as nat + 0x100 * view[at + 1] as nat + 0x1_0000 * view[at + 2] as nat + 0x100_0000 * view[at + 3] as nat
  }

  /** "DBPF", version two. */
  predicate HasHeader(view: seq<Byte>) {
    && |view| >= HEADER_BYTES
    && view[0] == 'D' as nat && view[1] == 'B' as nat && view[2] == 'P' as nat && view[3] == 'F' as nat
    && Word(view, 4) == 2
    && 0 < Word(view, OFFSET_AT) < |view| && Word(view, COUNT_AT) > 0
  }

  /** As many entries as the header says, or as fit. */
  function EntryCount(view: seq<Byte>): (n: nat)
    requires HasHeader(view)
    ensures Word(view, OFFSET_AT) + n * ENTRY_BYTES <= |view|
  {
    var room := (|view| - Word(view, OFFSET_AT)) / ENTRY_BYTES;
    if Word(view, COUNT_AT) > room then room else Word(view, COUNT_AT)
  }

  function ResourceAt(view: seq<Byte>, i: nat): Resource
    requires HasHeader(view) && i < EntryCount(view)
  {
    var at := Word(view, OFFSET_AT) + i * ENTRY_BYTES;
    Resource(Word(view, at), Word(view, at + SIZE_IN_ENTRY))
  }

  function Index(view: seq<Byte>): seq<Resource> {
    if HasHeader(view) then seq(EntryCount(view), i requires 0 <= i < EntryCount(view) => ResourceAt(view, i)) else []
  }

  // ---------------------------------------------------------------- What the bytes describe

  /** The four bytes at `at` are the digits of `n`, the lowest first. */
  predicate IsWord(view: seq<Byte>, at: nat, n: nat) {
    && at + 4 <= |view| && n < 0x1_0000_0000
    && view[at] == n % 256 && view[at + 1] == n / 0x100 % 256 && view[at + 2] == n / 0x1_0000 % 256 && view[at + 3] == n / 0x100_0000
  }

  /** The entry at `at`: the type in its first four bytes, the size in memory in bytes 24 to 27. */
  predicate IsEntry(view: seq<Byte>, at: nat, r: Resource) { IsWord(view, at, r.typeId) && IsWord(view, at + 24, r.memSize) }

  /** The view is a package whose header names `count` entries from `offset` on; as many of them as the view
      has bytes for are `rs`. */
  predicate Describes(view: seq<Byte>, offset: nat, count: nat, rs: seq<Resource>) {
    && |view| >= 64 && view[0] == 0x44 && view[1] == 0x42 && view[2] == 0x50 && view[3] == 0x46
    && IsWord(view, 4, 2) && IsWord(view, 36, count) && IsWord(view, 60, offset)
    && 0 < offset < |view| && count > 0
    && |rs| <= count && offset + 32 * |rs| <= |view| && (|rs| < count ==> |view| < offset + 32 * (|rs| + 1))
    && forall i | 0 <= i < |rs| :: IsEntry(view, offset + 32 * i, rs[i])
  }

  lemma WordRead(view: seq<Byte>, at: nat, n: nat)
    requires IsWord(view, at, n)
    ensures Word(view, at) == n
  {
    Undigits(n);
  }

  lemma Undigits(n: nat)
    ensures n % 256 + 0x100 * (n / 0x100 % 256) + 0x1_0000 * (n / 0x1_0000 % 256) + 0x100_0000 * (n / 0x100_0000) == n
  {
    var q1, q2, q3 := n / 0x100, n / 0x1_0000, n / 0x100_0000;
    assert q2 == q1 / 0x100 && q3 == q2 / 0x100;
    assert n == 0x100 * q1 + n % 0x100 && q1 == 0x100 * q2 + q1 % 0x100 && q2 == 0x100 * q3 + q2 % 0x100;
  }

  lemma WordDigits(view: seq<Byte>, at: nat)
    requires at + 4 <= |view|
    ensures IsWord(view, at, Word(view, at))
  {
    var d0: nat, d1: nat, d2: nat, d3: nat := view[at], view[at + 1], view[at + 2], view[at + 3];
    Digits(d0, d1, d2, d3);
  }

  lemma Digits(d0: nat, d1: nat, d2: nat, d3: nat)
    requires d0 < 256 && d1 < 256 && d2 < 256 && d3 < 256
    ensures var n := d0 + 0x100 * d1 + 0x1_0000 * d2 + 0x100_0000 * d3;
      n < 0x1_0000_0000 && n % 256 == d0 && n / 0x100 % 256 == d1 && n / 0x1_0000 % 256 == d2 && n / 0x100_0000 == d3
  {
    var n := d0 + 0x100 * d1 + 0x1_0000 * d2 + 0x100_0000 * d3;
    assert n / 0x100 == d1 + 0x100 * d2 + 0x1_0000 * d3;
    assert n / 0x1_0000 == d2 + 0x100 * d3;
  }

  lemma EntriesThatFit(size: nat, offset: nat, count: nat, n: nat)
    requires offset < size && n <= count && offset + 32 * n <= size && (n < count ==> size < offset + 32 * (n + 1))
    ensures n == if count > (size - offset) / 32 then (size - offset) / 32 else count
  {
  }

  /** Whatever list of entries a view describes is its index. */
  lemma DescribedIsIndex(view: seq<Byte>, offset: nat, count: nat, rs: seq<Resource>)
    requires Describes(view, offset, count, rs)
    ensures Index(view) == rs
  {
    WordRead(view, 4, 2);
    WordRead(view, 36, count);
    WordRead(view, 60, offset);
    EntriesThatFit(|view|, offset, count, |rs|);
    hide Word;
    assert HasHeader(view) && EntryCount(view) == |rs|;
    forall i | 0 <= i < |rs| ensures ResourceAt(view, i) == rs[i] {
      assert IsEntry(view, offset + 32 * i, rs[i]);
      WordRead(view, offset + 32 * i, rs[i].typeId);
      WordRead(view, offset + 32 * i + 24, rs[i].memSize);
    }
  }

  /** And a view that describes no list has no index. */
  lemma IndexIsDescribed(view: seq<Byte>) returns (offset: nat, count: nat)
    ensures Index(view) != [] ==> Describes(view, offset, count, Index(view))
  {
    offset, count := 0, 0;
    if HasHeader(view) {
      offset, count := Word(view, 60), Word(view, 36);
      WordDigits(view, 4);
      WordDigits(view, 36);
      WordDigits(view, 60);
      hide Word;
      forall i | 0 <= i < |Index(view)| ensures IsEntry(view, offset + 32 * i, Index(view)[i]) {
        WordDigits(view, offset + 32 * i);
        WordDigits(view, offset + 32 * i + 24);
      }
    }
  }

  // ---------------------------------------------------------------- Laying out an index

  function Digit4(n: nat): seq<Byte>
    requires n < 0x1_0000_0000
  {
    [n % 256, n / 0x100 % 256, n / 0x1_0000 % 256, n / 0x100_0000]
  }

  function Zeros(n: nat): seq<Byte> { seq(n, _ => 0) }

  /** The thirty-two bytes of an entry, with everything but type and size left zero. */
  function LaidOut(r: Resource): (b: seq<Byte>)
    requires r.typeId < 0x1_0000_0000 && r.memSize < 0x1_0000_0000
    ensures |b| == 32
  {
    Digit4(r.typeId) + Zeros(20) + Digit4(r.memSize) + Zeros(4)
  }

  predicate Words(rs: seq<Resource>) {
    forall i | 0 <= i < |rs| :: rs[i].typeId < 0x1_0000_0000 && rs[i].memSize < 0x1_0000_0000
  }

  function AllLaidOut(rs: seq<Resource>): (b: seq<Byte>)
    requires Words(rs)
    ensures |b| == 32 * |rs|
  {
    if rs == [] then [] else AllLaidOut(rs[..|rs| - 1]) + LaidOut(rs[|rs| - 1])
  }

  /** A package of nothing but a header and an index. */
  function Package(rs: seq<Resource>): seq<Byte>
    requires Words(rs) && |rs| < 0x1_0000_0000
  {
    [0x44, 0x42, 0x50, 0x46] + Digit4(2) + Zeros(28) + Digit4(|rs|) + Zeros(20) + Digit4(64) + AllLaidOut(rs)
  }

  lemma {:induction false} LaidOutAt(rs: seq<Resource>, i: nat)
    requires Words(rs) && i < |rs|
    ensures AllLaidOut(rs)[32 * i..32 * i + 32] == LaidOut(rs[i])
  {
    if i < |rs| - 1 { LaidOutAt(rs[..|rs| - 1], i); }
  }

  /** Writing entries as a package and reading the index of the package gives the entries back. */
  lemma RoundTrip(rs: seq<Resource>)
    requires Words(rs) && 0 < |rs| < 0x1_0000_0000
    ensures Index(Package(rs)) == rs
  {
    var view := Package(rs);
    assert view[64..] == AllLaidOut(rs);
    HeaderOf(rs);
    hide Package, IsWord, AllLaidOut, LaidOut;
    forall i | 0 <= i < |rs| ensures IsEntry(view, 64 + 32 * i, rs[i]) {
      LaidOutAt(rs, i);
      assert view[64 + 32 * i..64 + 32 * i + 32] == LaidOut(rs[i]);
      EntryAt(view, 64 + 32 * i, rs[i]);
    }
    DescribedIsIndex(view, 64, |rs|, rs);
  }

  lemma HeaderOf(rs: seq<Resource>)
    requires Words(rs) && |rs| < 0x1_0000_0000
    ensures var view := Package(rs);
      && |view| == 64 + 32 * |rs| && view[0] == 0x44 && view[1] == 0x42 && view[2] == 0x50 && view[3] == 0x46
      && IsWord(view, 4, 2) && IsWord(view, 36, |rs|) && IsWord(view, 60, 64)
  {
    hide AllLaidOut;
  }

  lemma EntryAt(view: seq<Byte>, at: nat, r: Resource)
    requires r.typeId < 0x1_0000_0000 && r.memSize < 0x1_0000_0000
    requires at + 32 <= |view| && view[at..at + 32] == LaidOut(r)
    ensures IsEntry(view, at, r)
  {
    forall k | 0 <= k < 32 ensures view[at + k] == LaidOut(r)[k] { assert view[at..at + 32][k] == view[at + k]; }
  }

  // ---------------------------------------------------------------- What the histogram means

  /** The distinct types, in the order in which they first appear. */
  function Firsts(rs: seq<Resource>): seq<nat> {
    if rs == [] then []
    else
      var before, t := Firsts(rs[..|rs| - 1]), rs[|rs| - 1].typeId;
      if t in before then before else before + [t]
  }

  function Count(rs: seq<Resource>, t: nat): nat {
    if rs == [] then 0 else Count(rs[..|rs| - 1], t) + if rs[|rs| - 1].typeId == t then 1 else 0
  }

  function Size(rs: seq<Resource>, t: nat): nat {
    if rs == [] then 0 else Size(rs[..|rs| - 1], t) + if rs[|rs| - 1].typeId == t then rs[|rs| - 1].memSize else 0
  }

  function StatsOf(rs: seq<Resource>, t: nat): TypeStats { TypeStats(t, Count(rs, t), Size(rs, t)) }

  /** The first `cap` types, each with its exact number of entries and bytes. */
  predicate Tallied(rs: seq<Resource>, cap: nat, stats: seq<TypeStats>) {
    var ts := Firsts(rs);
    && |stats| == (if |ts| < cap then |ts| else cap)
    && forall k | 0 <= k < |stats| :: stats[k] == StatsOf(rs, ts[k])
  }

  lemma {:induction false} FirstsAre(rs: seq<Resource>, t: nat)
    ensures t in Firsts(rs) <==> Count(rs, t) > 0
    ensures Count(rs, t) == 0 ==> Size(rs, t) == 0
  {
    if rs != [] { FirstsAre(rs[..|rs| - 1], t); }
  }

  lemma {:induction false} FirstsDistinct(rs: seq<Resource>)
    ensures forall i, j | 0 <= i < j < |Firsts(rs)| :: Firsts(rs)[i] != Firsts(rs)[j]
  {
    if rs != [] { FirstsDistinct(rs[..|rs| - 1]); }
  }

  /** Where the tally of one more resource differs from the tally before. */
  lemma StatsStep(rs: seq<Resource>, r: Resource, t: nat)
    ensures StatsOf(rs + [r], t) == if r.typeId == t then TypeStats(t, Count(rs, t) + 1, Size(rs, t) + r.memSize) else StatsOf(rs, t)
    ensures Firsts(rs + [r]) == if r.typeId in Firsts(rs) then Firsts(rs) else Firsts(rs) + [r.typeId]
  {
    assert (rs + [r])[..|rs|] == rs;
  }

  /** The effect of one entry on the table of stats. */
  function Tally(stats: seq<TypeStats>, cap: nat, slot: nat, r: Resource): seq<TypeStats>
    requires slot <= |stats|
  {
    if slot < |stats| then
      stats[slot := TypeStats(stats[slot].typeId, stats[slot].entryCount + 1, stats[slot].totalMemBytes + r.memSize)]
    else if |stats| >= cap then stats
    else stats + [TypeStats(r.typeId, 1, r.memSize)]
  }

  predicate IsSlotOf(stats: seq<TypeStats>, t: nat, slot: nat) {
    && slot <= |stats| && (slot < |stats| ==> stats[slot].typeId == t)
    && forall k | 0 <= k < slot :: stats[k].typeId != t
  }

  lemma TallyStep(rs: seq<Resource>, r: Resource, cap: nat, stats: seq<TypeStats>, slot: nat)
    requires Tallied(rs, cap, stats) && IsSlotOf(stats, r.typeId, slot)
    ensures Tallied(rs + [r], cap, Tally(stats, cap, slot, r))
  {
    var ts, later := Firsts(rs), Tally(stats, cap, slot, r);
    StatsStep(rs, r, r.typeId);
    FirstsAre(rs, r.typeId);
    FirstsDistinct(rs);
    forall k | 0 <= k < |later| ensures later[k] == StatsOf(rs + [r], Firsts(rs + [r])[k]) {
      if k < |ts| { StatsStep(rs, r, ts[k]); }
    }
  }

  // ---------------------------------------------------------------- The scan

  /** Fill `outStats` and say how many of its places were used.  Every byte it reads is in the view. */
  method ScanDbpfIndex(view: seq<Byte>, outStats: array<TypeStats>, outCap: nat) returns (used: nat)
    requires outCap <= outStats.Length
    modifies outStats
    ensures used <= outCap && Tallied(Index(view), outCap, outStats[..used])
    ensures outStats[used..] == old(outStats[used..])
  {
    hide Tallied, HasHeader, Word, EntryCount;
    used := 0;
    var entryCount := 0;
    if outCap > 0 {
      entryCount := CountEntries(view);
    }
    ghost var rs := Index(view);
    var i := 0;
    NothingTallied(rs, outCap);
    while i < entryCount
      invariant i <= entryCount <= |rs| && used <= outCap
      invariant Tallied(rs[..i], outCap, outStats[..used])
      invariant outStats[used..] == old(outStats[..])[used..]
    {
      var r := ResourceAt(view, i);
      used := AddEntry(outStats, outCap, used, r, rs[..i]);
      assert rs[..i + 1] == rs[..i] + [r];
      i := i + 1;
    }
    assert rs[..|rs|] == rs;
  }

  /** Nothing is in the table before the first entry, or ever in a table of no places. */
  lemma NothingTallied(rs: seq<Resource>, cap: nat)
    ensures Tallied([], cap, []) && rs[..0] == [] && (cap == 0 ==> Tallied(rs, cap, []))
  {}

  /** The number of entries in the view, zero if it is no index at all. */
  method CountEntries(view: seq<Byte>) returns (entryCount: nat)
    ensures entryCount == |Index(view)| && (entryCount > 0 ==> HasHeader(view))
    ensures forall i | 0 <= i < entryCount :: HasHeader(view) && i < EntryCount(view) && ResourceAt(view, i) == Index(view)[i]
  {
    hide Word;
    if |view| < HEADER_BYTES {
      return 0;
    }
    if !(view[0] == 'D' as nat && view[1] == 'B' as nat && view[2] == 'P' as nat && view[3] == 'F' as nat) || Word(view, 4) != 2 {
      return 0;
    }
    var indexOffset := Word(view, OFFSET_AT);
    entryCount := Word(view, COUNT_AT);
    if indexOffset == 0 || entryCount == 0 || indexOffset >= |view| {
      return 0;
    }
    var maxEntries := (|view| - indexOffset) / ENTRY_BYTES;
    if entryCount > maxEntries {
      entryCount := maxEntries;
    }
  }

  /** Count one entry: in the place of its type, or a new one if there is room. */
  method AddEntry(outStats: array<TypeStats>, outCap: nat, used0: nat, r: Resource, ghost rs: seq<Resource>) returns (used: nat)
    requires used0 <= outCap <= outStats.Length && Tallied(rs, outCap, outStats[..used0])
    modifies outStats
    ensures used0 <= used <= outCap && Tallied(rs + [r], outCap, outStats[..used])
    ensures outStats[used..] == old(outStats[..])[used..]
  {
    hide Tallied;
    used := used0;
    ghost var was := outStats[..used];
    var slot := 0;
    while slot < used && outStats[slot].typeId != r.typeId
      invariant slot <= used && forall k | 0 <= k < slot :: outStats[k].typeId != r.typeId
    {
      slot := slot + 1;
    }
    TallyStep(rs, r, outCap, was, slot);
    if slot == used {
      if used >= outCap {
        return;
      }
      outStats[slot] := TypeStats(r.typeId, 0, 0);
      used := used + 1;
    }
    var s := outStats[slot];
    outStats[slot] := TypeStats(s.typeId, s.entryCount + 1, s.totalMemBytes + r.memSize);
    assert outStats[..used] == Tally(was, outCap, slot, r);
  }
}
