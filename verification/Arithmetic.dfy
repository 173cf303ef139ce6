/** Division of whole numbers. */
module Arithmetic {
  /** Quotient and remainder are the one pair that adds up. */
  lemma Quotient(w: int, m: int, q: int, r: int)
    requires 0 <= r < m && w == m * q + r
    ensures w / m == q && w % m == r
  {
    var d := q - w / m;
    assert m * d == w % m - r;
    assert (d > 0 ==> m * d >= m) && (d < 0 ==> m * d <= -m);
  }
}
