/** Facts about products, quotients and remainders that the other modules share. */
module Arith {

  lemma MulAssoc(x: int, y: int, z: int)
    ensures x * y * z == x * (y * z)
  {
  }

  lemma MulDist(x: int, y: int, z: int)
    ensures x * (y + z) == x * y + x * z
    ensures (y + z) * x == y * x + z * x
  {
  }

  /** A nonzero multiple of a positive m is at least m away from zero. */
  lemma MulSign(m: int, z: int)
    requires 0 < m
    ensures 1 <= z ==> m <= m * z
    ensures z <= -1 ==> m * z <= -m
  {
    if 1 <= z {
      assert m * (z - 1) >= 0;
    } else if z <= -1 {
      assert m * (-1 - z) >= 0;
    }
  }

  lemma MulNonNegative(x: int, y: int)
    ensures 0 <= x && 0 <= y ==> 0 <= x * y
  {
  }

  lemma DivModUnique(x: int, m: int, q: int, r: int)
    requires 0 < m && x == m * q + r && 0 <= r < m
    ensures x / m == q && x % m == r
  {
    var q', r' := x / m, x % m;
    assert m * (q - q') == r' - r by { assert m * (q - q') == m * q - m * q'; }
    MulSign(m, q - q');
  }

  lemma ModAdd(x: int, y: int, m: int)
    requires 0 < m
    ensures (x + y * m) % m == x % m
  {
    var q, r := x / m, x % m;
    assert x + y * m == m * (q + y) + r by { assert m * (q + y) == m * q + m * y; }
    DivModUnique(x + y * m, m, q + y, r);
  }

  lemma SameQuotient(x: int, y: int, m: int)
    requires 0 < m && x / m == y / m && x % m == y % m
    ensures x == y
  {
  }

  lemma DivMod(x: int, m: int)
    requires 0 < m
    ensures x == m * (x / m) + x % m && 0 <= x % m < m
  {
  }
}
