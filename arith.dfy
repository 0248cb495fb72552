/** Facts about Euclidean division on naturals that the other modules lean on. */
module Arith {

  /** A positive multiple of a positive number is at least that number. */
  lemma {:induction false} MulAtLeast(d: int, x: int)
    requires 0 < d && 1 <= x
    ensures d <= d * x
    decreases x
  {
    if x > 1 {
      MulAtLeast(d, x - 1);
      assert d * x == d * (x - 1) + d;
    }
  }

  /** Euclidean division is unique: a quotient and remainder in range are the ones `/` and `%` give. */
  lemma DivModUnique(k: int, d: int, q: int, m: int)
    requires 0 <= m < d && k == d * q + m
    ensures k / d == q && k % d == m
  {
    var x := q - k / d;
    assert d * x == k % d - m;
    if x >= 1 {
      MulAtLeast(d, x);
    } else if x <= -1 {
      MulAtLeast(d, -x);
    }
  }
}
