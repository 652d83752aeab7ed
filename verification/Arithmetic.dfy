/** Products and quotients. */
module Arithmetic {

  lemma Scale(d: int, p: nat)
    ensures d >= 1 ==> d * p >= p
    ensures d >= 2 ==> d * p >= 2 * p
    ensures d <= -1 ==> d * p <= -(p as int)
  {
    if d >= 2 {
      assert d * p == 2 * p + (d - 2) * p;
    }
  }

  lemma MulMonotone(a: nat, b: nat, c: nat)
    requires a <= b
    ensures a * c <= b * c && c * a <= c * b
  {
    assert b * c == a * c + (b - a) * c;
  }

  lemma QuotientUnique(x: int, p: nat, q: int, q': int)
    requires q * p <= x < q * p + p && q' * p <= x < q' * p + p
    ensures q == q'
  {
    assert (q - q') * p == q * p - q' * p;
    Scale(q - q', p);
  }
}
