/**
  Integer facts shared by the grid and stride models: multiples of a positive
  number are spaced by that number, and Euclidean division is determined by
  `n == q * d + r` with `0 <= r < d`.
*/
module Arith {

  /** `q * d` grows with `q` by whole multiples of `d`. */
  lemma MulStep(p: int, q: int, d: int)
    requires d > 0
    ensures p < q ==> p * d + d <= q * d
  {
    if p < q {
      var k := q - p;
      assert q * d == p * d + k * d;
      assert k * d == (k - 1) * d + d;
      assert (k - 1) * d >= 0;
    }
  }

  /** Quotient and remainder are determined by `n == q * d + r` with `0 <= r < d`. */
  lemma DivUnique(n: int, d: int, q: int, r: int)
    requires d > 0 && 0 <= r < d && n == q * d + r
    ensures n / d == q && n % d == r
  {
    assert n == (n / d) * d + n % d;
    MulStep(n / d, q, d);
    MulStep(q, n / d, d);
  }
}
