/** Division with remainder by a variable divisor. */
module Arith {

  lemma MulAtLeast(q: int, m: int)
    requires q >= 1 && m >= 0
    ensures q * m >= m
  {
  }

  lemma MulAtMost(q: int, m: int)
    requires q <= -1 && m >= 0
    ensures q * m <= -m
  {
    MulAtLeast(-q, m);
    assert (-q) * m == -(q * m);
  }

  /** Quotient and remainder are determined by their defining equation. */
  lemma DivModUnique(x: int, m: int, q: int, r: int)
    requires m > 0 && 0 <= r < m && x == q * m + r
    ensures x / m == q && x % m == r
  {
    var d := q - x / m;
    assert x == x / m * m + x % m;
    assert d * m == x % m - r;
    if d >= 1 {
      MulAtLeast(d, m);
    } else if d <= -1 {
      MulAtMost(d, m);
    }
  }

  /** Numbers less than `m` apart with the same remainder are equal. */
  lemma SameRemainder(a: int, b: int, m: int)
    requires m > 0 && a % m == b % m && -m < b - a < m
    ensures a == b
  {
    var d := b / m - a / m;
    assert a == a / m * m + a % m && b == b / m * m + b % m;
    assert d * m == b - a;
    if d >= 1 {
      MulAtLeast(d, m);
    } else if d <= -1 {
      MulAtMost(d, m);
    }
  }

  /** A positive factor keeps order. */
  lemma MulOrder(a: int, b: int, m: int)
    requires m > 0
    ensures a * m <= b * m <==> a <= b
  {
    var d := a - b;
    assert d * m == a * m - b * m;
    if d >= 1 {
      MulAtLeast(d, m);
    } else if d <= -1 {
      MulAtMost(d, m);
    }
  }

  lemma MulNonNegative(a: int, b: int)
    requires a >= 0 && b >= 0
    ensures a * b >= 0
  {
  }

  /** The remainder by half a modulus follows from the remainder by the whole. */
  lemma HalfRemainder(x: nat, m: nat)
    requires m > 0
    ensures var r := x % (2 * m); x % m == if r >= m then r - m else r
  {
    var q, r := x / (2 * m), x % (2 * m);
    assert x == q * (2 * m) + r;
    assert q * (2 * m) == 2 * q * m && (2 * q + 1) * m == 2 * q * m + m;
    if r >= m {
      DivModUnique(x, m, 2 * q + 1, r - m);
    } else {
      DivModUnique(x, m, 2 * q, r);
    }
  }
}
