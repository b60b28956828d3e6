// Facts about quotients and remainders that several modules need.
module Arithmetic {

  lemma Commutes(x: int, y: int)
    ensures x * y == y * x
  {
  }

  lemma SmallMultiple(m: int, d: int)
    requires m >= 1 && -m < m * d < m
    ensures d == 0
  {
  }

  lemma AddMultiple(x: int, q: int, m: int)
    requires m >= 1
    ensures (x + q * m) % m == x % m
  {
    var d := (x + q * m) / m - x / m - q;
    assert (x + q * m) % m - x % m == -(m * d) by {
      assert m * ((x + q * m) / m) + (x + q * m) % m == x + q * m;
      assert m * (x / m) + x % m == x;
      assert m * d == m * ((x + q * m) / m) - m * (x / m) - m * q;
    }
    SmallMultiple(m, d);
  }

  lemma QuotientIs(x: int, q: int, r: int, d: int)
    requires d >= 1 && 0 <= r < d && x == q * d + r
    ensures x / d == q && x % d == r
  {
    var e := x / d - q;
    assert (x / d) * d - q * d == e * d;
    assert x == (x / d) * d + x % d;
    SmallMultiple(d, e);
  }
}
