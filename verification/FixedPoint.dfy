/**
 * The fixed-point multiply with n fractional bits, src/apps/sem9/main.c:6-27.
 *
 * Up to n = 31 it rounds to nearest with ties to even (roundTiesToEven, section 4.3.1 of
 * IEEE 754-2008) and saturates; for n = 32 it truncates.
 */
module FixedPoint {
  import opened Arithmetic
  import opened Powers

  const MAX32: nat := WORD32 - 1

  /** An integer stored in an unsigned word: the value modulo `word`. */
  function Wrap(x: int, word: nat): nat
    requires word > 0
    decreases if x < 0 then word - x else x
  {
    if x < 0 then Wrap(x + word, word) else if x >= word then Wrap(x - word, word) else x
  }

  /** `t >> n`: n bits dropped one after the other. */
  function Shr(t: nat, n: nat): nat {
    if n == 0 then t else Shr(t, n - 1) / 2
  }

  /** The lines behind the product `t`, for n other than 32, on 64-bit words. */
  function Round(t: nat, n: nat): nat
    requires 1 <= n
  {
    var r := Wrap(Pow2(n - 1) - (1 - Shr(t, n) % 2), WORD64);
    var ans := Shr(Wrap(t + r, WORD64), n);
    if ans > MAX32 then MAX32 else ans
  }

  /** The shifts are undefined in the source for other n than 1 to 32. */
  function FixedMul(a: nat, b: nat, n: nat): nat
    requires a < WORD32 && b < WORD32 && 1 <= n <= 32
  {
    var t := Wrap(a * b, WORD64);
    if n == 32 then Wrap(Shr(t, 32), WORD32) else Round(t, n)
  }

  // ----- what rounding means

  /** r differs from t/p by at most one half. */
  predicate WithinHalf(t: nat, p: nat, r: nat) {
    -(p as int) <= 2 * (r * p - t) <= p
  }

  /** q is t/p rounded to nearest, and the even one of two equally near integers. */
  predicate IsNearestEven(t: nat, p: nat, q: nat) {
    && WithinHalf(t, p, q)
    && (2 * (q * p - t) == p || 2 * (t - q * p) == p ==> q % 2 == 0)
  }

  /** A larger dividend is never rounded to a smaller quotient; in particular q is unique. */
  lemma NearestEvenMonotone(t: nat, t': nat, p: nat, q: nat, q': nat)
    requires p > 0 && t <= t' && IsNearestEven(t, p, q) && IsNearestEven(t', p, q')
    ensures q <= q'
  {
    if q > q' {
      var d := q - q';
      assert q * p == q' * p + d * p;
      Scale(d, p);
    }
  }

  // ----- arithmetic

  lemma HalveQuotient(t: nat, p: nat, q: nat)
    requires q * p <= t < q * p + p
    ensures (q / 2) * (2 * p) <= t < (q / 2) * (2 * p) + 2 * p
  {
    var k := q / 2;
    assert q == 2 * k || q == 2 * k + 1;
    assert (2 * k) * p == k * (2 * p) && (2 * k + 1) * p == k * (2 * p) + p;
  }

  /** A shift is a division rounded down. */
  lemma {:induction false} ShrIsQuotient(t: nat, n: nat)
    ensures Shr(t, n) * Pow2(n) <= t < Shr(t, n) * Pow2(n) + Pow2(n)
  {
    if n > 0 {
      ShrIsQuotient(t, n - 1);
      HalveQuotient(t, Pow2(n - 1), Shr(t, n - 1));
    }
  }

  /** The product of two 32-bit numbers does not wrap in 64 bits. */
  lemma ProductFits(a: nat, b: nat)
    requires a < WORD32 && b < WORD32
    ensures a * b <= MAX32 * MAX32
  {
    MulMonotone(a, MAX32, b);
  }

  lemma FixedMulOfProduct(a: nat, b: nat, n: nat)
    requires a < WORD32 && b < WORD32 && 1 <= n <= 31
    ensures FixedMul(a, b, n) == Round(a * b, n)
  {
    ProductFits(a, b);
  }

  /** The addend is just under or just at one half, depending on the bit that would become the last. */
  lemma AddendRounds(t: nat, h: nat, q: nat, r: nat, ans: nat)
    requires q * (2 * h) <= t < q * (2 * h) + 2 * h && r == h - (1 - q % 2)
    requires ans * (2 * h) <= t + r < ans * (2 * h) + 2 * h
    ensures IsNearestEven(t, 2 * h, ans)
  {
    var p := 2 * h;
    assert (q + 1) * p == q * p + p;
    if t + r < q * p + p {
      QuotientUnique(t + r, p, ans, q);
    } else {
      QuotientUnique(t + r, p, ans, q + 1);
    }
  }

  /** No wrap-around in the sum with the addend either. */
  lemma RoundIsNearestEven(t: nat, n: nat) returns (q: nat)
    requires 1 <= n <= 31 && t <= MAX32 * MAX32
    ensures IsNearestEven(t, Pow2(n), q)
    ensures Round(t, n) == if q > MAX32 then MAX32 else q
  {
    var h := Pow2(n - 1);
    var r := h - (1 - Shr(t, n) % 2);
    Pow2Monotone(n - 1, 30);
    WordSizes();
    q := Shr(t + r, n);
    assert Round(t, n) == if q > MAX32 then MAX32 else q;
    assert IsNearestEven(t, Pow2(n), q) by {
      ShrIsQuotient(t, n);
      ShrIsQuotient(t + r, n);
      AddendRounds(t, h, Shr(t, n), r, q);
    }
  }

  /** Rounding to nearest has one result, so `Round` delivers it. */
  lemma RoundDetermined(t: nat, n: nat, q: nat)
    requires 1 <= n <= 31 && t <= MAX32 * MAX32 && IsNearestEven(t, Pow2(n), q)
    ensures Round(t, n) == if q > MAX32 then MAX32 else q
  {
    var q' := RoundIsNearestEven(t, n);
    NearestEvenMonotone(t, t, Pow2(n), q, q');
    NearestEvenMonotone(t, t, Pow2(n), q', q);
  }

  lemma RoundMonotone(t: nat, t': nat, n: nat)
    requires 1 <= n <= 31 && t <= t' <= MAX32 * MAX32
    ensures Round(t, n) <= Round(t', n)
  {
    var q := RoundIsNearestEven(t, n);
    var q' := RoundIsNearestEven(t', n);
    NearestEvenMonotone(t, t', Pow2(n), q, q');
  }

  // ----- results

  /** For n up to 31: the product rounded to nearest with ties to even, cut off at 2^32 - 1. */
  lemma RoundsToNearestEven(a: nat, b: nat, n: nat, q: nat)
    requires a < WORD32 && b < WORD32 && 1 <= n <= 31 && IsNearestEven(a * b, Pow2(n), q)
    ensures FixedMul(a, b, n) == if q > 0xFFFF_FFFF then 0xFFFF_FFFF else q
  {
    ProductFits(a, b);
    FixedMulOfProduct(a, b, n);
    RoundDetermined(a * b, n, q);
  }

  /** There always is such a rounded product. */
  lemma NearestEvenExists(a: nat, b: nat, n: nat) returns (q: nat)
    requires a < WORD32 && b < WORD32 && 1 <= n <= 31
    ensures IsNearestEven(a * b, Pow2(n), q)
  {
    ProductFits(a, b);
    q := RoundIsNearestEven(a * b, n);
  }

  lemma SaturationError(t: nat, p: nat, q: nat, max: nat, r: nat)
    requires IsNearestEven(t, p, q) && r == if q > max then max else q
    ensures WithinHalf(t, p, r) <==> 2 * t <= 2 * (max * p) + p
  {
    if q > max {
      MulMonotone(max + 1, q, p);
      assert (max + 1) * p == max * p + p;
    } else {
      MulMonotone(q, max, p);
    }
  }

  /** The three products that `main` checks. */
  lemma SourceExamples()
    ensures FixedMul(3, 3, 1) == 0x04
    ensures FixedMul(0x26, 0x42, 4) == 0x9d
    ensures FixedMul(0x28, 0x41, 4) == 0xa2
  {
    assert Pow2(1) == 2 && Pow2(4) == 16;
    RoundsToNearestEven(3, 3, 1, 0x04);
    RoundsToNearestEven(0x26, 0x42, 4, 0x9d);
    RoundsToNearestEven(0x28, 0x41, 4, 0xa2);
  }

  lemma RoundError(t: nat, n: nat)
    requires 1 <= n <= 31 && t <= MAX32 * MAX32
    ensures WithinHalf(t, Pow2(n), Round(t, n)) <==> 2 * t <= 2 * (MAX32 * Pow2(n)) + Pow2(n)
  {
    var q := RoundIsNearestEven(t, n);
    SaturationError(t, Pow2(n), q, MAX32, Round(t, n));
  }

  /** The error is at most half a unit in the last place, exactly up to half a unit above the largest result. */
  lemma ErrorAtMostHalf(a: nat, b: nat, n: nat)
    requires a < WORD32 && b < WORD32 && 1 <= n <= 31
    ensures WithinHalf(a * b, Pow2(n), FixedMul(a, b, n)) <==> 2 * (a * b) <= 2 * (0xFFFF_FFFF * Pow2(n)) + Pow2(n)
  {
    ProductFits(a, b);
    FixedMulOfProduct(a, b, n);
    RoundError(a * b, n);
  }

  /** A product that is a multiple of 2^n is delivered exactly, if it fits. */
  lemma ExactWhenRepresentable(a: nat, b: nat, n: nat, q: nat)
    requires a < WORD32 && b < WORD32 && 1 <= n <= 31 && a * b == q * Pow2(n)
    ensures FixedMul(a, b, n) == if q > 0xFFFF_FFFF then 0xFFFF_FFFF else q
  {
    RoundsToNearestEven(a, b, n, q);
  }

  /** For n = 32: the product divided by 2^32 and rounded down. */
  lemma TruncatesAt32(a: nat, b: nat)
    requires a < WORD32 && b < WORD32
    ensures FixedMul(a, b, 32) * WORD32 <= a * b < FixedMul(a, b, 32) * WORD32 + WORD32
  {
    ProductFits(a, b);
    ShrIsQuotient(a * b, 32);
    WordSizes();
  }

  /**
   * With 32 fractional bits the result is the upper half of the product.  It is the rounded one
   * exactly if the lower half is below one half, or a tie at an even result.
   */
  lemma WhenTruncationRounds(a: nat, b: nat, high: nat, low: nat)
    requires a < WORD32 && b < WORD32 && a * b == high * WORD32 + low && low < WORD32
    ensures FixedMul(a, b, 32) == high
    ensures IsNearestEven(a * b, WORD32, high) <==>
            (low < WORD32 / 2 || (low == WORD32 / 2 && high % 2 == 0))
  {
    TruncatesAt32(a, b);
  }

  /** With n = 32 a quotient just below 1 becomes 0, though 1 is nearest. */
  lemma TruncationCanMiss()
    ensures FixedMul(1, WORD32 - 1, 32) == 0
    ensures IsNearestEven(WORD32 - 1, WORD32, 1) && !IsNearestEven(WORD32 - 1, WORD32, 0)
  {
    WhenTruncationRounds(1, WORD32 - 1, 0, WORD32 - 1);
  }

  lemma ProductMonotone(a: nat, a': nat, b: nat, b': nat)
    requires a <= a' && b <= b'
    ensures a * b <= a' * b'
  {
    MulMonotone(a, a', b);
    MulMonotone(b, b', a');
  }

  /** The multiplication is monotone in both operands, for every n, saturated or not. */
  lemma Monotone(a: nat, a': nat, b: nat, b': nat, n: nat)
    requires a <= a' < WORD32 && b <= b' < WORD32 && 1 <= n <= 32
    ensures FixedMul(a, b, n) <= FixedMul(a', b', n)
  {
    ProductMonotone(a, a', b, b');
    if n <= 31 {
      ProductFits(a', b');
      FixedMulOfProduct(a, b, n);
      FixedMulOfProduct(a', b', n);
      RoundMonotone(a * b, a' * b', n);
    } else {
      TruncatesAt32(a, b);
      TruncatesAt32(a', b');
    }
  }
}
