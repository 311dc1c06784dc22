/** Disjoint spans inside a range hold no more bytes than the range. */
module SpanCount {
  import opened Spans

  /** The covers of `n` bytes from `lo` up, added up. */
  ghost function Counted(s: seq<Span>, lo: nat, n: nat): nat {
    if n == 0 then 0 else Counted(s, lo, n - 1) + Cover(s, lo + n - 1)
  }

  lemma {:induction false} OneSpanCount(r: Span, lo: nat, n: nat)
    ensures Counted([r], lo, n) == (if lo + n <= r.addr then 0 else if lo + n <= r.End() then lo + n - r.addr else r.size)
                                  - (if lo <= r.addr then 0 else if lo <= r.End() then lo - r.addr else r.size)
  {
    if n > 0 {
      OneSpanCount(r, lo, n - 1);
      assert Cover([r], lo + n - 1) == (if r.Has(lo + n - 1) then 1 else 0) + Cover([r][1..], lo + n - 1);
    }
  }

  lemma {:induction false} CountedSplit(s: seq<Span>, lo: nat, n: nat)
    requires s != []
    ensures Counted(s, lo, n) == Counted([s[0]], lo, n) + Counted(s[1..], lo, n)
  {
    if n > 0 {
      CountedSplit(s, lo, n - 1);
      var b := lo + n - 1;
      assert Cover([s[0]], b) == (if s[0].Has(b) then 1 else 0) + Cover([s[0]][1..], b);
    }
  }

  lemma {:induction false} CountedBytes(s: seq<Span>, lo: nat, n: nat)
    requires forall i | 0 <= i < |s| :: lo <= s[i].addr && s[i].End() <= lo + n
    ensures Counted(s, lo, n) == Bytes(s)
  {
    if s == [] {
      CountedZero(lo, n);
    } else {
      CountedSplit(s, lo, n);
      OneSpanCount(s[0], lo, n);
      CountedBytes(s[1..], lo, n);
    }
  }

  lemma {:induction false} CountedZero(lo: nat, n: nat)
    ensures Counted([], lo, n) == 0
  {
    if n > 0 { CountedZero(lo, n - 1); }
  }

  lemma {:induction false} CountedAtMost(s: seq<Span>, lo: nat, n: nat)
    requires forall b :: Cover(s, b) <= 1
    ensures Counted(s, lo, n) <= n
  {
    if n > 0 { CountedAtMost(s, lo, n - 1); }
  }

  lemma {:induction false} PairwiseCover(s: seq<Span>, b: int)
    requires forall i, j | 0 <= i < j < |s| :: s[i].End() <= s[j].addr || s[j].End() <= s[i].addr
    ensures Cover(s, b) <= 1
  {
    if s != [] {
      PairwiseCover(s[1..], b);
      if Cover(s[1..], b) > 0 {
        var k := CoverWitness(s[1..], b);
        assert s[k + 1] == s[1..][k];
      }
    }
  }

  lemma DisjointBytes(s: seq<Span>, lo: nat, n: nat)
    requires forall i, j | 0 <= i < j < |s| :: s[i].End() <= s[j].addr || s[j].End() <= s[i].addr
    requires forall i | 0 <= i < |s| :: lo <= s[i].addr && s[i].End() <= lo + n
    ensures Bytes(s) <= n
  {
    forall b ensures Cover(s, b) <= 1 { PairwiseCover(s, b); }
    CountedBytes(s, lo, n);
    CountedAtMost(s, lo, n);
  }
}
