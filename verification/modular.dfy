/**
  Facts about Euclidean `%` with a positive, non-constant modulus that the
  solver does not find by itself. The circle method's closed form is stated
  with `%`, and these lemmas turn it back into linear arithmetic.
 */
module Modular {

  lemma MulAtLeast(d: int, m: int)
    requires d >= 1 && m > 0
    ensures d * m >= m
  {
    assert d * m == (d - 1) * m + m;
    assert (d - 1) * m >= 0;
  }

  lemma MulMonotone(a: int, b: int, m: int)
    requires a <= b && m >= 0
    ensures a * m <= b * m
  {
    assert b * m - a * m == (b - a) * m;
    assert (b - a) * m >= 0;
  }

  lemma MulSucc(total: int, rest: int, c: int)
    requires total == rest + 1
    ensures total * c == rest * c + c
  {
  }

  /** Euclidean division is unique: any decomposition with a remainder in range is the one. */
  lemma ModUnique(x: int, q: int, r: int, m: int)
    requires m > 0 && 0 <= r < m
    requires x == q * m + r
    ensures x % m == r
  {
    var q0 := x / m;
    var r0 := x % m;
    assert x == q0 * m + r0;
    assert (q - q0) * m == r0 - r;
    if q > q0 {
      MulAtLeast(q - q0, m);
    } else if q < q0 {
      MulAtLeast(q0 - q, m);
    }
  }

  /** Euclidean division is unique: the quotient of any decomposition with a remainder in range is the one. */
  lemma DivUnique(x: int, q: int, r: int, m: int)
    requires m > 0 && 0 <= r < m
    requires x == q * m + r
    ensures x / m == q
  {
    ModUnique(x, q, r, m);
    var q0 := x / m;
    assert x == q0 * m + x % m;
    assert (q - q0) * m == 0;
    if q > q0 {
      MulAtLeast(q - q0, m);
    } else if q < q0 {
      MulAtLeast(q0 - q, m);
    }
  }

  /** Adding a multiple of the modulus does not change the remainder. */
  lemma ModShift(x: int, k: int, m: int)
    requires m > 0
    ensures (x + k * m) % m == x % m
  {
    var q := x / m;
    assert x == q * m + x % m;
    assert x + k * m == (q + k) * m + x % m;
    ModUnique(x + k * m, q + k, x % m, m);
  }

  /** `%` on a value within one modulus either side of the range `[0, m)`. */
  lemma ModNear(a: int, m: int)
    requires m > 0 && -m <= a < 2 * m
    ensures a % m == (if a < 0 then a + m else if a < m then a else a - m)
  {
    if a < 0 {
      ModUnique(a, -1, a + m, m);
    } else if a < m {
      ModUnique(a, 0, a, m);
    } else {
      ModUnique(a, 1, a - m, m);
    }
  }
}
