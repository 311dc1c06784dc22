/** Spans of address space and the address-sorted free list, as values.
    The functions follow the list walks of the arena allocator step for step; the lemmas say what
    those walks achieve in terms of the bytes they cover. */
module Spans {
  import opened Granules

  datatype Option<+T> = None | Some(value: T)

  datatype Span = Span(addr: nat, size: nat) {
    function End(): nat { addr + size }

    predicate Has(a: int) { addr <= a < addr + size }
  }

  /** How many spans of `s` hold byte `a`. */
  ghost function Cover(s: seq<Span>, a: int): nat {
    if s == [] then 0 else (if s[0].Has(a) then 1 else 0) + Cover(s[1..], a)
  }

  ghost function Bytes(s: seq<Span>): nat {
    if s == [] then 0 else s[0].size + Bytes(s[1..])
  }

  ghost predicate NonEmpty(s: seq<Span>) {
    forall i | 0 <= i < |s| :: s[i].size > 0
  }

  /** Ascending and disjoint; neighbours may touch. */
  ghost predicate Sorted(s: seq<Span>) {
    && NonEmpty(s)
    && forall i, j | 0 <= i < j < |s| :: s[i].End() <= s[j].addr
  }

  /** Ascending with a gap between any two spans: a fully coalesced free list. */
  ghost predicate Gapped(s: seq<Span>) {
    && NonEmpty(s)
    && forall i, j | 0 <= i < j < |s| :: s[i].End() < s[j].addr
  }

  ghost predicate Disjoint(s: seq<Span>, r: Span) {
    forall a | r.Has(a) :: Cover(s, a) == 0
  }

  /** Every byte of [x, x + n) lies in some span of `s`. */
  ghost predicate RunIn(s: seq<Span>, x: int, n: nat) {
    forall a | x <= a < x + n :: Cover(s, a) >= 1
  }

  // ---------------------------------------------------------------- Cover and Bytes

  lemma {:induction false} CoverConcat(s: seq<Span>, t: seq<Span>, a: int)
    ensures Cover(s + t, a) == Cover(s, a) + Cover(t, a)
  {
    if s == [] {
      assert s + t == t;
    } else {
      CoverConcat(s[1..], t, a);
      assert (s + t)[1..] == s[1..] + t;
    }
  }

  lemma {:induction false} BytesConcat(s: seq<Span>, t: seq<Span>)
    ensures Bytes(s + t) == Bytes(s) + Bytes(t)
  {
    if s == [] {
      assert s + t == t;
    } else {
      BytesConcat(s[1..], t);
      assert (s + t)[1..] == s[1..] + t;
    }
  }

  lemma {:induction false} CoverSplit(s: seq<Span>, k: nat, a: int)
    requires k < |s|
    ensures Cover(s, a) == Cover(s[..k], a) + (if s[k].Has(a) then 1 else 0) + Cover(s[k + 1..], a)
  {
    if k > 0 {
      CoverSplit(s[1..], k - 1, a);
      assert s[..k][1..] == s[1..][..k - 1];
      assert s[k + 1..] == s[1..][k..];
    }
  }

  lemma {:induction false} BytesSplit(s: seq<Span>, k: nat)
    requires k < |s|
    ensures Bytes(s) == Bytes(s[..k]) + s[k].size + Bytes(s[k + 1..])
  {
    if k > 0 {
      BytesSplit(s[1..], k - 1);
      assert s[..k][1..] == s[1..][..k - 1];
      assert s[k + 1..] == s[1..][k..];
    }
  }

  lemma SingleSpan(r: Span)
    ensures Bytes([r]) == r.size
    ensures forall b :: Cover([r], b) == if r.Has(b) then 1 else 0
  {
    assert Bytes([r]) == r.size + Bytes([r][1..]);
    forall b ensures Cover([r], b) == if r.Has(b) then 1 else 0 {
      assert Cover([r], b) == (if r.Has(b) then 1 else 0) + Cover([r][1..], b);
    }
  }

  lemma CoverAt(s: seq<Span>, k: nat, a: int)
    requires k < |s| && s[k].Has(a)
    ensures Cover(s, a) >= 1
  {
    CoverSplit(s, k, a);
  }

  lemma {:induction false} CoverWitness(s: seq<Span>, a: int) returns (k: nat)
    requires Cover(s, a) >= 1
    ensures k < |s| && s[k].Has(a)
  {
    if s[0].Has(a) {
      k := 0;
    } else {
      var j := CoverWitness(s[1..], a);
      k := j + 1;
    }
  }

  /** Replacing one span by others of the same footprint changes no coverage. */
  lemma CoverUpdate(s: seq<Span>, k: nat, mid: seq<Span>, a: int)
    requires k < |s|
    ensures Cover(s[..k] + mid + s[k + 1..], a) + (if s[k].Has(a) then 1 else 0)
         == Cover(s, a) + Cover(mid, a)
  {
    CoverSplit(s, k, a);
    CoverConcat(s[..k] + mid, s[k + 1..], a);
    CoverConcat(s[..k], mid, a);
  }

  lemma BytesUpdate(s: seq<Span>, k: nat, mid: seq<Span>)
    requires k < |s|
    ensures Bytes(s[..k] + mid + s[k + 1..]) + s[k].size == Bytes(s) + Bytes(mid)
  {
    BytesSplit(s, k);
    BytesConcat(s[..k] + mid, s[k + 1..]);
    BytesConcat(s[..k], mid);
  }

  lemma DisjointSpan(s: seq<Span>, r: Span, k: nat)
    requires Disjoint(s, r) && r.size > 0 && k < |s| && s[k].size > 0
    ensures s[k].End() <= r.addr || r.End() <= s[k].addr
  {
    if s[k].End() > r.addr && r.End() > s[k].addr {
      var a := if s[k].addr < r.addr then r.addr else s[k].addr;
      CoverAt(s, k, a);
      assert r.Has(a);
      assert false;
    }
  }

  /** A run of covered bytes never straddles two spans of a gapped list. */
  lemma RunInOneSpan(s: seq<Span>, x: int, n: nat) returns (k: nat)
    requires Gapped(s) && n > 0 && RunIn(s, x, n)
    ensures k < |s| && s[k].addr <= x && x + n <= s[k].End()
  {
    k := CoverWitness(s, x);
    if x + n > s[k].End() {
      assert Cover(s, s[k].End()) >= 1;
      var j := CoverWitness(s, s[k].End());
      assert false;
    }
  }

  lemma SpanIsRun(s: seq<Span>, k: nat, x: int, n: nat)
    requires k < |s| && s[k].addr <= x && x + n <= s[k].End()
    ensures RunIn(s, x, n)
  {
    forall a | x <= a < x + n ensures Cover(s, a) >= 1 {
      CoverAt(s, k, a);
    }
  }

  // ---------------------------------------------------------------- Insertion

  /** Index of the node the insertion walk stops on: the walk moves on while the successor lies below `a`. */
  function WalkPast(s: seq<Span>, k: nat, a: nat): (r: nat)
    requires k < |s|
    ensures k <= r < |s|
    ensures forall i | k < i <= r :: s[i].addr < a
    ensures r + 1 < |s| ==> s[r + 1].addr >= a
    decreases |s| - k
  {
    if k + 1 < |s| && s[k + 1].addr < a then WalkPast(s, k + 1, a) else k
  }

  function InsertPos(s: seq<Span>, a: nat): (p: nat)
    ensures p <= |s|
  {
    if s == [] || s[0].addr > a then 0 else WalkPast(s, 0, a) + 1
  }

  function InsertAt(s: seq<Span>, r: Span): (t: seq<Span>)
    ensures |t| == |s| + 1
  {
    var p := InsertPos(s, r.addr);
    s[..p] + [r] + s[p..]
  }

  lemma InsertAtCover(s: seq<Span>, r: Span, a: int)
    ensures Cover(InsertAt(s, r), a) == Cover(s, a) + (if r.Has(a) then 1 else 0)
  {
    var p := InsertPos(s, r.addr);
    CoverConcat(s[..p] + [r], s[p..], a);
    CoverConcat(s[..p], [r], a);
    CoverConcat(s[..p], s[p..], a);
    assert s == s[..p] + s[p..];
  }

  lemma InsertAtBytes(s: seq<Span>, r: Span)
    ensures Bytes(InsertAt(s, r)) == Bytes(s) + r.size
  {
    var p := InsertPos(s, r.addr);
    BytesConcat(s[..p] + [r], s[p..]);
    BytesConcat(s[..p], [r]);
    BytesConcat(s[..p], s[p..]);
    assert s == s[..p] + s[p..];
  }

  lemma InsertPosSplits(s: seq<Span>, r: Span, i: nat)
    requires Sorted(s) && r.size > 0 && Disjoint(s, r) && i < |s|
    ensures i < InsertPos(s, r.addr) ==> s[i].End() <= r.addr
    ensures i >= InsertPos(s, r.addr) ==> r.End() <= s[i].addr
  {
    var p := InsertPos(s, r.addr);
    DisjointSpan(s, r, i);
    if p < i {
      assert s[p].End() <= s[i].addr;
    }
  }

  lemma InsertAtSorted(s: seq<Span>, r: Span)
    requires Sorted(s) && r.size > 0 && Disjoint(s, r)
    ensures Sorted(InsertAt(s, r))
  {
    var p, t := InsertPos(s, r.addr), InsertAt(s, r);
    forall i, j | 0 <= i < j < |t| ensures t[i].End() <= t[j].addr {
      InsertAtIndex(s, r, i);
      InsertAtIndex(s, r, j);
      if i == p {
        InsertPosSplits(s, r, j - 1);
      } else if j == p {
        InsertPosSplits(s, r, i);
      }
    }
    forall i | 0 <= i < |t| ensures t[i].size > 0 {
      InsertAtIndex(s, r, i);
    }
  }

  lemma InsertAtIndex(s: seq<Span>, r: Span, i: nat)
    requires i <= |s|
    ensures var p := InsertPos(s, r.addr);
      InsertAt(s, r)[i] == if i < p then s[i] else if i == p then r else s[i - 1]
  {
  }

  // ---------------------------------------------------------------- Coalescing

  /** The single forward pass: absorb the successor while it starts where the current span ends. */
  function Coalesce(s: seq<Span>): (t: seq<Span>)
    ensures |t| <= |s|
    ensures s == [] <==> t == []
    decreases |s|
  {
    if |s| < 2 then s
    else if s[0].End() == s[1].addr then
      Coalesce([Span(s[0].addr, s[0].size + s[1].size)] + s[2..])
    else [s[0]] + Coalesce(s[1..])
  }

  lemma {:induction false} CoalesceCover(s: seq<Span>, a: int)
    ensures Cover(Coalesce(s), a) == Cover(s, a)
    decreases |s|
  {
    if |s| < 2 {
    } else if s[0].End() == s[1].addr {
      var m := Span(s[0].addr, s[0].size + s[1].size);
      CoalesceCover([m] + s[2..], a);
      CoverConcat([m], s[2..], a);
      assert s[1..][1..] == s[2..];
    } else {
      CoalesceCover(s[1..], a);
      CoverConcat([s[0]], Coalesce(s[1..]), a);
    }
  }

  lemma {:induction false} CoalesceBytes(s: seq<Span>)
    ensures Bytes(Coalesce(s)) == Bytes(s)
    decreases |s|
  {
    if |s| < 2 {
    } else if s[0].End() == s[1].addr {
      var m := Span(s[0].addr, s[0].size + s[1].size);
      CoalesceBytes([m] + s[2..]);
      BytesConcat([m], s[2..]);
      assert s[1..][1..] == s[2..];
    } else {
      CoalesceBytes(s[1..]);
      BytesConcat([s[0]], Coalesce(s[1..]));
    }
  }

  /** One pass is enough: on a sorted list the result has a gap between any two spans. */
  lemma {:induction false} CoalesceGapped(s: seq<Span>)
    requires Sorted(s)
    ensures Gapped(Coalesce(s))
    ensures s != [] ==> Coalesce(s)[0].addr == s[0].addr
    decreases |s|
  {
    if |s| < 2 {
    } else if s[0].End() == s[1].addr {
      CoalesceGapped([Span(s[0].addr, s[0].size + s[1].size)] + s[2..]);
    } else {
      CoalesceGapped(s[1..]);
    }
  }

  /** A list that already has gaps is left as it is, so coalescing is idempotent. */
  lemma {:induction false} CoalesceFixpoint(s: seq<Span>)
    requires Gapped(s)
    ensures Coalesce(s) == s
  {
    if |s| >= 2 {
      CoalesceFixpoint(s[1..]);
    }
  }

  function InsertAndCoalesce(s: seq<Span>, r: Span): (t: seq<Span>)
    ensures |t| <= |s| + 1
  {
    Coalesce(InsertAt(s, r))
  }

  lemma InsertAndCoalesceCorrect(s: seq<Span>, r: Span)
    requires Gapped(s) && r.size > 0 && Disjoint(s, r)
    ensures Gapped(InsertAndCoalesce(s, r))
    ensures Bytes(InsertAndCoalesce(s, r)) == Bytes(s) + r.size
    ensures forall a :: Cover(InsertAndCoalesce(s, r), a) == Cover(s, a) + (if r.Has(a) then 1 else 0)
  {
    InsertAtSorted(s, r);
    CoalesceGapped(InsertAt(s, r));
    InsertAtBytes(s, r);
    CoalesceBytes(InsertAt(s, r));
    forall a ensures Cover(InsertAndCoalesce(s, r), a) == Cover(s, a) + (if r.Has(a) then 1 else 0) {
      InsertAtCover(s, r, a);
      CoalesceCover(InsertAt(s, r), a);
    }
  }

  /** A gapped list is determined by the bytes it covers: insertion order can never show. */
  lemma {:induction false} GappedUnique(s: seq<Span>, t: seq<Span>)
    requires Gapped(s) && Gapped(t)
    requires forall a :: Cover(s, a) == Cover(t, a)
    ensures s == t
  {
    if s == [] {
      if t != [] {
        CoverAt(t, 0, t[0].addr);
        assert false;
      }
    } else if t == [] {
      CoverAt(s, 0, s[0].addr);
      assert false;
    } else {
      SameHead(s, t);
      forall a ensures Cover(s[1..], a) == Cover(t[1..], a) {
        assert Cover(s, a) == Cover(t, a);
      }
      GappedUnique(s[1..], t[1..]);
    }
  }

  lemma SameHead(s: seq<Span>, t: seq<Span>)
    requires Gapped(s) && Gapped(t) && s != [] && t != []
    requires forall a :: Cover(s, a) == Cover(t, a)
    ensures s[0] == t[0]
  {
    HeadInside(s, t);
    HeadInside(t, s);
  }

  lemma HeadInside(s: seq<Span>, t: seq<Span>)
    requires Gapped(s) && Gapped(t) && s != [] && t != []
    requires forall a :: Cover(s, a) == Cover(t, a)
    ensures t[0].addr <= s[0].addr
    ensures s[0].addr == t[0].addr ==> s[0].size <= t[0].size
  {
    forall a | s[0].Has(a) ensures Cover(t, a) >= 1 {
      CoverAt(s, 0, a);
      assert Cover(s, a) == Cover(t, a);
    }
    var k := RunInOneSpan(t, s[0].addr, s[0].size);
  }

  // ---------------------------------------------------------------- Placement

  /** First index at or after `k` whose span holds `need` bytes; the length of `s` if none does. */
  function FirstFit(s: seq<Span>, k: nat, need: nat): (r: nat)
    requires k <= |s|
    ensures k <= r <= |s|
    ensures forall i | k <= i < r :: s[i].size < need
    ensures r < |s| ==> s[r].size >= need
    decreases |s| - k
  {
    if k == |s| || s[k].size >= need then k else FirstFit(s, k + 1, need)
  }

  /** Last index below `k` whose span holds `need` bytes; the length of `s` if none does. */
  function LastFit(s: seq<Span>, k: nat, need: nat): (r: nat)
    requires k <= |s|
    ensures r < k || r == |s|
    ensures forall i | (if r == |s| then 0 else r + 1) <= i < k :: s[i].size < need
    ensures r < |s| ==> s[r].size >= need
  {
    if k == 0 then |s| else if s[k - 1].size >= need then k - 1 else LastFit(s, k - 1, need)
  }

  function FitIndex(s: seq<Span>, need: nat, fromTop: bool): (k: nat)
    ensures k <= |s|
  {
    if fromTop then LastFit(s, |s|, need) else FirstFit(s, 0, need)
  }

  /** What a fit search grants: the span handed out, the list left behind, whether a whole node left it. */
  datatype Taken = Taken(span: Span, rest: seq<Span>, whole: bool)

  function TakeFit(s: seq<Span>, need: nat, gran: nat, fromTop: bool): Option<Taken> {
    var k := FitIndex(s, need, fromTop);
    if k == |s| then None
    else
      var remain := s[k].size - need;
      if remain < gran then Some(Taken(s[k], s[..k] + s[k + 1..], true))
      else if fromTop then
        Some(Taken(Span(s[k].addr + remain, need), s[k := Span(s[k].addr, remain)], false))
      else
        Some(Taken(Span(s[k].addr, need), s[k := Span(s[k].addr + need, remain)], false))
  }

  predicate Whole(r: Span, gran: nat)
    requires gran > 0
  {
    r.size > 0 && r.addr % gran == 0 && r.size % gran == 0
  }

  ghost predicate Granular(s: seq<Span>, gran: nat)
    requires gran > 0
  {
    forall i | 0 <= i < |s| :: s[i].addr % gran == 0 && s[i].size % gran == 0
  }

  /** A whole node is taken exactly when it fits to the byte; every grant has exactly the rounded size. */
  lemma TakeFitExact(s: seq<Span>, need: nat, gran: nat, fromTop: bool)
    requires gran > 0 && Granular(s, gran) && need % gran == 0
    requires TakeFit(s, need, gran, fromTop).Some?
    ensures var t := TakeFit(s, need, gran, fromTop).value;
      && t.span.size == need && t.span.addr % gran == 0
      && (t.whole <==> s[FitIndex(s, need, fromTop)].size == need)
      && Granular(t.rest, gran)
  {
    var k := FitIndex(s, need, fromTop);
    AddMultiples(s[k].size, need, gran);
    AddMultiples(s[k].addr, need, gran);
    if s[k].size > need {
      PositiveMultiple(s[k].size - need, gran);
      AddMultiples(s[k].addr, s[k].size - need, gran);
    }
  }

  lemma TakeFitShape(s: seq<Span>, need: nat, gran: nat, fromTop: bool) returns (mid: seq<Span>)
    requires TakeFit(s, need, gran, fromTop).Some?
    ensures var t, k := TakeFit(s, need, gran, fromTop).value, FitIndex(s, need, fromTop);
      && k < |s| && t.rest == s[..k] + mid + s[k + 1..]
      && (t.whole <==> mid == [])
      && (mid == [] ==> t.span == s[k])
      && (mid != [] ==>
            && |mid| == 1 && mid[0].size + t.span.size == s[k].size
            && (if fromTop then mid[0].addr == s[k].addr && t.span.addr == mid[0].End()
                else t.span.addr == s[k].addr && mid[0].addr == t.span.End()))
  {
    var t, k := TakeFit(s, need, gran, fromTop).value, FitIndex(s, need, fromTop);
    mid := if t.whole then [] else [t.rest[k]];
  }

  /** Taking moves bytes from the list to the grant and loses none. */
  lemma TakeFitConserves(s: seq<Span>, need: nat, gran: nat, fromTop: bool)
    requires TakeFit(s, need, gran, fromTop).Some?
    ensures var t := TakeFit(s, need, gran, fromTop).value;
      && Bytes(t.rest) + t.span.size == Bytes(s)
      && (forall a :: Cover(t.rest, a) + (if t.span.Has(a) then 1 else 0) == Cover(s, a))
      && |t.rest| + (if t.whole then 1 else 0) == |s|
  {
    var t, k := TakeFit(s, need, gran, fromTop).value, FitIndex(s, need, fromTop);
    var mid := TakeFitShape(s, need, gran, fromTop);
    BytesUpdate(s, k, mid);
    forall a ensures Cover(t.rest, a) + (if t.span.Has(a) then 1 else 0) == Cover(s, a) {
      CoverUpdate(s, k, mid, a);
    }
  }

  lemma TakeFitGapped(s: seq<Span>, need: nat, gran: nat, fromTop: bool)
    requires Gapped(s) && gran > 0 && TakeFit(s, need, gran, fromTop).Some?
    ensures Gapped(TakeFit(s, need, gran, fromTop).value.rest)
  {
    var t, k := TakeFit(s, need, gran, fromTop).value, FitIndex(s, need, fromTop);
    if !t.whole {
      forall i, j | 0 <= i < j < |s| ensures t.rest[i].End() < t.rest[j].addr {
        assert s[i].End() < s[j].addr;
      }
    }
  }

  /** The search is complete: it fails exactly when no run of `need` free bytes exists. */
  lemma TakeFitComplete(s: seq<Span>, need: nat, gran: nat, fromTop: bool)
    requires Gapped(s) && need > 0
    ensures TakeFit(s, need, gran, fromTop).None? <==> forall x :: !RunIn(s, x, need)
  {
    var k := FitIndex(s, need, fromTop);
    if k < |s| {
      SpanIsRun(s, k, s[k].addr, need);
    } else {
      forall x | RunIn(s, x, need) ensures false {
        var j := RunInOneSpan(s, x, need);
      }
    }
  }

  /** Placement: the grant is the lowest run of free bytes that fits, or the highest for a top-down request. */
  lemma TakeFitOptimal(s: seq<Span>, need: nat, gran: nat, fromTop: bool, x: int)
    requires gran > 0 && Granular(s, gran) && need % gran == 0
    requires Gapped(s) && need > 0 && TakeFit(s, need, gran, fromTop).Some?
    requires RunIn(s, x, need)
    ensures var t := TakeFit(s, need, gran, fromTop).value;
      && RunIn(s, t.span.addr, need)
      && (if fromTop then x <= t.span.addr else t.span.addr <= x)
  {
    var t, k := TakeFit(s, need, gran, fromTop).value, FitIndex(s, need, fromTop);
    TakeFitExact(s, need, gran, fromTop);
    SpanIsRun(s, k, t.span.addr, need);
    var j := RunInOneSpan(s, x, need);
    if j < k {
      assert s[j].End() < s[k].addr;
    } else if j > k {
      assert s[k].End() < s[j].addr;
    }
  }

  lemma {:induction false} CoalesceGranular(s: seq<Span>, gran: nat)
    requires gran > 0 && Granular(s, gran)
    ensures Granular(Coalesce(s), gran)
    decreases |s|
  {
    if |s| < 2 {
    } else if s[0].End() == s[1].addr {
      AddMultiples(s[0].size, s[1].size, gran);
      CoalesceGranular([Span(s[0].addr, s[0].size + s[1].size)] + s[2..], gran);
    } else {
      CoalesceGranular(s[1..], gran);
    }
  }

  lemma InsertAndCoalesceGranular(s: seq<Span>, r: Span, gran: nat)
    requires gran > 0 && Granular(s, gran) && r.addr % gran == 0 && r.size % gran == 0
    ensures Granular(InsertAndCoalesce(s, r), gran)
  {
    CoalesceGranular(InsertAt(s, r), gran);
  }

  /** A gapped list of granule multiples needs a granule per span and a granule per gap. */
  lemma {:induction false} GappedCount(s: seq<Span>, gran: nat, lo: nat, hi: nat)
    requires gran > 0 && Gapped(s) && Granular(s, gran) && lo % gran == 0 && hi % gran == 0 && lo <= hi
    requires forall i | 0 <= i < |s| :: lo <= s[i].addr && s[i].End() <= hi
    ensures 2 * |s| * gran <= hi - lo + gran
  {
    if |s| == 1 {
      PositiveMultiple(s[0].size, gran);
    } else if |s| > 1 {
      TwoGranules(s[0], s[1], gran);
      GappedCount(s[1..], gran, s[1].addr, hi);
      Distribute(|s| - 1, gran);
    }
  }

  lemma TwoGranules(r: Span, t: Span, gran: nat)
    requires gran > 0 && r.size > 0 && r.End() < t.addr
    requires r.addr % gran == 0 && r.size % gran == 0 && t.addr % gran == 0
    ensures r.addr + 2 * gran <= t.addr
  {
    PositiveMultiple(r.size, gran);
    AddMultiples(r.addr, r.size, gran);
    AddMultiples(t.addr, r.End(), gran);
    PositiveMultiple(t.addr - r.End(), gran);
  }

  lemma Distribute(n: nat, gran: nat)
    ensures 2 * (n + 1) * gran == 2 * n * gran + 2 * gran
  {
  }

  /** Points covered by `s`, no two of them by the same span, are at most as many as the spans. */
  lemma {:induction false} PigeonHole(points: seq<int>, s: seq<Span>)
    requires forall i | 0 <= i < |points| :: Cover(s, points[i]) >= 1
    requires forall r, i, j | r in s && 0 <= i < j < |points| :: !(r.Has(points[i]) && r.Has(points[j]))
    ensures |points| <= |s|
    decreases |points|
  {
    if points != [] {
      var k := CoverWitness(s, points[0]);
      var others := s[..k] + [] + s[k + 1..];
      forall i | 0 <= i < |points[1..]| ensures Cover(others, points[1..][i]) >= 1 {
        assert s[k] in s && points[1..][i] == points[i + 1];
        CoverUpdate(s, k, [], points[i + 1]);
      }
      assert forall r | r in others :: r in s;
      PigeonHole(points[1..], others);
    }
  }
}
