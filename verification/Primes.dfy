/**
 * Trial division over 64-bit words, src/apps/sem23/task22_2.c:68-81.
 *
 * The square of the trial divisor is taken modulo 2^64, exactly as the source
 * computes it.  Nothing bounds the argument except its type: the proof covers the
 * words whose square root does not fit in 32 bits, where `i * i` really wraps.
 */
module Primes {
  import opened Arithmetic
  import opened Powers

  ghost predicate Divides(d: nat, x: nat)
    requires d > 0
  {
    x % d == 0
  }

  /** The mathematical notion the loop is compared with. */
  ghost predicate Prime(x: nat) {
    x >= 2 && forall d :: 2 <= d < x ==> !Divides(d, x)
  }

  /** The product `i * i` of two uint64_t operands. */
  function SquareWord(i: nat): nat {
    (i * i) % WORD64
  }

  // An odd word whose wrapped square is 2^64 - 7, the largest wrapped square an odd word
  // can have (odd squares are 1 modulo 8).
  const ROOT: nat := 1852311383259529397

  /** An odd trial divisor at which the loop is certain to stop. */
  ghost function Stop(x: nat): nat {
    if x < WORD64 - 7 then ROOT
    else if x == WORD64 - 3 then 13
    else if x == WORD64 - 5 then 11
    else 3
  }

  lemma SquareMonotone(i: nat, j: nat)
    requires i <= j
    ensures i * i <= j * j
  {
    MulMonotone(i, j, i);
    MulMonotone(i, j, j);
  }

  lemma SmallSquare(i: nat)
    requires i < WORD32
    ensures SquareWord(i) == i * i
  {
    SquareMonotone(i, WORD32 - 1);
    var square := i * i;
    assert square < WORD64;
    assert square % WORD64 == square;
  }

  /** The odd numbers from 3 up to i passed the guard and do not divide x. */
  ghost predicate Tried(x: nat, i: nat) {
    forall j :: 3 <= j < i && j % 2 == 1 ==> SquareWord(j) <= x && !Divides(j, x)
  }

  /** The loop leaves at `Stop(x)` if it gets that far: by its guard or by a divisor. */
  lemma LoopStops(x: nat)
    requires 2 <= x < WORD64 && (x % 2 == 1 || x == 2)
    ensures SquareWord(Stop(x)) > x || Divides(Stop(x), x)
  {
    assert ROOT * ROOT == 185997997632698875 * WORD64 + (WORD64 - 7);
  }

  /** A divisor found by the loop is proper, also when the guard compared a wrapped square. */
  lemma FoundDivisor(x: nat, i: nat)
    requires 2 <= x < WORD64 && 3 <= i <= Stop(x)
    requires SquareWord(i) <= x && Tried(x, i) && x % i == 0
    ensures !Prime(x)
  {
    assert i < x by {
      if i < WORD32 {
        SmallSquare(i);
        Scale(i - 1, i);
        assert i * i == (i - 1) * i + i;
      } else {
        SmallSquare(WORD32 - 1);
        assert SquareWord(WORD32 - 1) <= x;
      }
    }
    assert Divides(i, x);
  }

  lemma EvenIsComposite(x: nat)
    requires x > 2 && x % 2 == 0
    ensures !Prime(x)
  {
    assert Divides(2, x);
  }

  /** A trial that neither left the loop nor found a divisor was not the last possible one. */
  lemma Advance(x: nat, i: nat)
    requires 2 <= x < WORD64 && (x % 2 == 1 || x == 2)
    requires 3 <= i <= Stop(x) && i % 2 == 1
    requires SquareWord(i) <= x && Tried(x, i) && x % i != 0
    ensures (i + 2) % WORD64 == i + 2 <= Stop(x)
    ensures Tried(x, i + 2)
  {
    LoopStops(x);
  }

  /** Every odd number whose true square is at most x has been tried when the guard fails. */
  lemma AllCandidatesTried(x: nat, i: nat, j: nat)
    requires x < WORD64 && SquareWord(i) > x
    requires j * j <= x
    ensures j < i
  {
    if j >= i {
      if i < WORD32 {
        SmallSquare(i);
        SquareMonotone(i, j);
      } else {
        SquareMonotone(WORD32, j);
      }
    }
  }

  lemma EvenFactor(d: nat, e: nat)
    ensures d % 2 == 0 ==> (d * e) % 2 == 0
  {
    if d % 2 == 0 {
      assert d * e == 2 * ((d / 2) * e);
    }
  }

  /** The smaller of two factors has a square no larger than the product. */
  lemma LesserFactor(d: nat, e: nat)
    ensures d <= e ==> d * d <= d * e
    ensures e <= d ==> e * e <= d * e
  {
  }

  lemma Multiple(d: nat, e: nat)
    requires e > 0
    ensures Divides(e, d * e)
  {
    var q, r := (d * e) / e, (d * e) % e;
    QuotientUnique(d * e, e, d, q);
  }

  /** An odd number without odd divisors up to its square root is prime. */
  lemma NoSmallDivisorMeansPrime(x: nat)
    requires x == 2 || (x >= 3 && x % 2 == 1)
    requires forall j :: 3 <= j && j % 2 == 1 && j * j <= x ==> !Divides(j, x)
    ensures Prime(x)
  {
    forall d | 2 <= d < x ensures !Divides(d, x) {
      if Divides(d, x) {
        var e := x / d;
        EvenFactor(d, e);
        EvenFactor(e, d);
        Multiple(d, e);
        LesserFactor(d, e);
      }
    }
  }

  /** When the guard fails after trying in vain, x is prime. */
  lemma AllTriedMeansPrime(x: nat, i: nat)
    requires x < WORD64 && (x == 2 || (x >= 3 && x % 2 == 1))
    requires Tried(x, i) && SquareWord(i) > x
    ensures Prime(x)
  {
    forall j | 3 <= j && j % 2 == 1 && j * j <= x ensures !Divides(j, x) {
      AllCandidatesTried(x, i, j);
    }
    NoSmallDivisorMeansPrime(x);
  }

  /** `is_prime`: terminates and answers correctly on every 64-bit word. */
  method IsPrime(x: nat) returns (r: nat)
    requires x < WORD64
    ensures r == if Prime(x) then 1 else 0
  {
    if x < 2 {
      return 0;
    }
    if x % 2 == 0 && x != 2 {
      EvenIsComposite(x);
      return 0;
    }
    var i := 3;
    while SquareWord(i) <= x
      invariant 3 <= i <= Stop(x) && i % 2 == 1
      invariant Tried(x, i)
      decreases Stop(x) - i
    {
      if x % i == 0 {
        FoundDivisor(x, i);
        return 0;
      }
      Advance(x, i);
      i := (i + 2) % WORD64;
    }
    AllTriedMeansPrime(x, i);
    return 1;
  }
}
