/** Rounding to the slot granularity. */
module Granules {

  /** Round `v` up to a multiple of `a`. */
  function AlignUp(v: nat, a: nat): (r: nat)
    requires a > 0
    ensures v <= r < v + a
    ensures r % a == 0
  {
    MultipleOf((v + a - 1) / a, a);
    (v + a - 1) / a * a
  }

  lemma AwayFromZero(k: int, a: nat)
    ensures k >= 1 ==> k * a >= a
    ensures k <= -1 ==> k * a <= -(a as int)
  {
  }

  /** Quotient and remainder are determined by the division equation. */
  lemma DivModUnique(x: nat, a: nat, q: nat, r: nat)
    requires x == q * a + r && r < a
    ensures x / a == q && x % a == r
  {
    assert (q - x / a) * a == x % a - r;
    AwayFromZero(q - x / a, a);
  }

  lemma MultipleOf(k: nat, a: nat)
    requires a > 0
    ensures k * a % a == 0
  {
    DivModUnique(k * a, a, k, 0);
  }

  lemma ModParts(x: nat, a: nat) returns (k: nat)
    requires a > 0 && x % a == 0
    ensures x == k * a
  {
    k := x / a;
  }

  lemma NonNegativeFactor(k: int, a: nat)
    requires a > 0 && k * a >= 0
    ensures k >= 0
  {
  }

  lemma AddMultiples(x: nat, y: nat, a: nat)
    requires a > 0 && x % a == 0 && y % a == 0
    ensures (x + y) % a == 0
    ensures x >= y ==> (x - y) % a == 0
  {
    var j := ModParts(x, a);
    var k := ModParts(y, a);
    assert x + y == (j + k) * a;
    MultipleOf(j + k, a);
    if x >= y {
      assert x - y == (j - k) * a;
      NonNegativeFactor(j - k, a);
      MultipleOf(j - k, a);
    }
  }

  /** A whole number of granules of whole pages is a whole number of pages. */
  lemma PageMultiple(addr: nat, gran: nat, page: nat)
    requires gran > 0 && page > 0 && addr % gran == 0 && gran % page == 0
    ensures addr % page == 0
  {
    var j := ModParts(addr, gran);
    var k := ModParts(gran, page);
    assert addr == (j * k) * page;
    MultipleOf(j * k, page);
  }

  /** A positive multiple is at least one granule. */
  lemma PositiveMultiple(x: nat, a: nat)
    requires a > 0 && x % a == 0 && x > 0
    ensures x >= a
  {
  }

  /** Rounding is the least multiple: idempotent, and never larger than any multiple above `v`. */
  lemma AlignUpLeast(v: nat, m: nat, a: nat)
    requires a > 0 && m % a == 0 && v <= m
    ensures AlignUp(v, a) <= m
  {
    var r := AlignUp(v, a);
    if m < r {
      AddMultiples(r, m, a);
      PositiveMultiple(r - m, a);
      assert false;
    }
  }

  // ---------------------------------------------------------------- The mask formula on numbers

  const WORD_BITS := 32

  function Pow2(k: nat): (p: nat)
    ensures p > 0
  {
    if k == 0 then 1 else 2 * Pow2(k - 1)
  }

  /** Bitwise "and", digit by binary digit. */
  function And(x: nat, y: nat): nat
    decreases x
  {
    if x == 0 then 0 else 2 * And(x / 2, y / 2) + (if x % 2 == 1 && y % 2 == 1 then 1 else 0)
  }

  /** Bitwise complement of a word. */
  function Not(x: nat): nat
    requires x < Pow2(WORD_BITS)
  {
    Pow2(WORD_BITS) - 1 - x
  }

  lemma {:induction false} PowGrows(j: nat, k: nat)
    requires j <= k
    ensures Pow2(j) <= Pow2(k)
  {
    if j < k { PowGrows(j, k - 1); }
  }

  lemma AndOdd(x: nat, p: nat)
    requires p > 0
    ensures And(x, 2 * p - 1) == 2 * And(x / 2, p - 1) + x % 2
  {
    assert (2 * p - 1) / 2 == p - 1 && (2 * p - 1) % 2 == 1;
  }

  lemma {:induction false} AndAll(x: nat, w: nat)
    requires x < Pow2(w)
    ensures And(x, Pow2(w) - 1) == x
  {
    if x > 0 {
      var p := Pow2(w - 1);
      AndAll(x / 2, w - 1);
      AndOdd(x, p);
      hide Pow2, And;
    }
  }

  /** The lowest digit and the rest of a remainder. */
  lemma ModHalves(x: nat, p: nat)
    requires p > 0
    ensures x % (2 * p) == x % 2 + 2 * (x / 2 % p)
  {
    var q, r := x / 2 / p, x / 2 % p;
    DivModUnique(x / 2, p, q, r);
    assert x / 2 == q * p + r;
    assert q * (2 * p) == 2 * (q * p);
    DivModUnique(x, 2 * p, q, x % 2 + 2 * r);
  }

  lemma ClearHalves(x: nat, q: nat)
    requires q > 0
    ensures 2 * (x / 2 - x / 2 % q) == x - x % (2 * q)
  {
    ModHalves(x, q);
  }

  lemma EvenMask(p: nat, q: nat)
    requires q <= p
    ensures (2 * p - 2 * q) / 2 == p - q && (2 * p - 2 * q) % 2 == 0
  {
  }

  lemma AndEven(x: nat, y: nat)
    requires y % 2 == 0
    ensures And(x, y) == 2 * And(x / 2, y / 2)
  {
  }

  /** One more digit, of which the mask has a zero. */
  lemma AndShifted(x: nat, p: nat, q: nat)
    requires q <= p
    ensures And(x, 2 * p - 2 * q) == 2 * And(x / 2, p - q)
  {
    EvenMask(p, q);
    AndEven(x, 2 * p - 2 * q);
  }

  /** A mask of ones above `k` zeros clears the remainder by the `k`-th power of two. */
  lemma {:induction false} AndHigh(x: nat, w: nat, k: nat)
    requires x < Pow2(w) && k <= w
    ensures Pow2(k) <= Pow2(w) && And(x, Pow2(w) - Pow2(k)) == x - x % Pow2(k)
  {
    hide And;
    PowGrows(k, w);
    if k == 0 {
      AndAll(x, w);
    } else {
      AndHigh(x / 2, w - 1, k - 1);
      hide Pow2;
      AndShifted(x, Pow2(w - 1), Pow2(k - 1));
      ClearHalves(x, Pow2(k - 1));
      PowDoubles(w);
      PowDoubles(k);
    }
  }

  lemma PowDoubles(k: nat)
    requires k > 0
    ensures Pow2(k) == 2 * Pow2(k - 1)
  {
  }

  /** The word formula of the allocator is AlignUp for every power of two and every word, except that what
      does not fit in a word becomes zero. */
  lemma MaskIsAlignUp(v: nat, k: nat)
    requires k < WORD_BITS && v < Pow2(WORD_BITS)
    ensures Pow2(k) <= Pow2(WORD_BITS)
    ensures var a, word := Pow2(k), Pow2(WORD_BITS);
      And((v + (a - 1)) % word, Not(a - 1)) == if v + (a - 1) < word then AlignUp(v, a) else 0
  {
    hide Pow2, And;
    MaskOfBits(v, k, WORD_BITS);
  }

  lemma MaskOfBits(v: nat, k: nat, w: nat)
    requires k < w && v < Pow2(w)
    ensures Pow2(k) <= Pow2(w)
    ensures var a, word := Pow2(k), Pow2(w);
      And((v + (a - 1)) % word, word - a) == if v + (a - 1) < word then AlignUp(v, a) else 0
  {
    PowGrows(k, w);
    hide Pow2, And;
    var a, word, x := Pow2(k), Pow2(w), v + (Pow2(k) - 1);
    WrapOnce(x, word);
    AndHigh(x % word, w, k);
    if x < word { QuotientForm(x, a); } else { BelowOne(x - word, a); }
  }

  lemma WrapOnce(x: nat, word: nat)
    requires word > 0 && x < 2 * word
    ensures x % word == if x < word then x else x - word
  {
    DivModUnique(x, word, if x < word then 0 else 1, if x < word then x else x - word);
  }

  lemma QuotientForm(x: nat, a: nat)
    requires a > 0
    ensures x / a * a == x - x % a
  {
  }

  lemma BelowOne(x: nat, a: nat)
    requires x < a
    ensures x - x % a == 0
  {
    DivModUnique(x, a, 0, x);
  }
}
