/** Quotients and remainders by a number that is not a literal. */
module Arithmetic {

  lemma {:induction false} PositiveMultiple(m: nat, d: nat)
    requires d > 0
    ensures m * d >= m
    decreases d
  {
    if d > 1 {
      PositiveMultiple(m, d - 1);
      assert m * d == m * (d - 1) + m;
    }
  }

  /** A quotient and a remainder in range are the quotient and the remainder. */
  lemma DivModUnique(a: int, m: nat, q: int, r: nat)
    requires m > 0 && a == m * q + r && r < m
    ensures a / m == q && a % m == r
  {
    var q', r' := a / m, a % m;
    assert m * (q - q') == r' - r;
    if q > q' {
      PositiveMultiple(m, q - q');
    } else if q < q' {
      PositiveMultiple(m, q' - q);
    }
  }
}
