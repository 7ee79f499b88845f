/** Facts about integer and real arithmetic that the size computations need:
    monotonicity of scaling, uniqueness of the quotient, and the bounds of an
    exact real quotient. */
module Arithmetic {

  /** A real quotient lies between k and k + 1 when the dividend does
      between k and k + 1 times the divisor. */
  lemma RealDivisionBounds(k: real, n: real, d: real)
    requires d > 0.0 && k * d <= n < (k + 1.0) * d
    ensures k <= n / d < k + 1.0
  {
    var q := n / d;
    assert q * d == n;
    if q < k {
      RealScaleMonotone(d, q, k);
      assert false;
    }
    if q >= k + 1.0 {
      RealScaleMonotone(d, k + 1.0, q);
      assert false;
    }
  }

  /** Multiplying by a non-negative real keeps the order. */
  lemma RealScaleMonotone(d: real, a: real, b: real)
    requires d >= 0.0 && a <= b
    ensures a * d <= b * d
  {
  }

  /** Scaling dividend and divisor by the same factor keeps the quotient. */
  lemma CancelCommonFactor(c: nat, a: nat, b: nat)
    requires c > 0 && b > 0
    ensures (c * a) / (c * b) == a / b
  {
    var q, r := a / b, a % b;
    assert a == b * q + r && 0 <= r < b;
    assert c * a == (c * b) * q + c * r by {
      assert c * a == c * (b * q + r);
    }
    assert 0 <= c * r < c * b;
    DivisionUnique(c * a, c * b, q, c * r);
  }

  /** The quotient is the only q with n == d * q + r and 0 <= r < d. */
  lemma DivisionUnique(n: nat, d: nat, q: nat, r: nat)
    requires d > 0 && n == d * q + r && r < d
    ensures n / d == q
  {
    var q', r' := n / d, n % d;
    assert n == d * q' + r' && r' < d;
    if q' < q {
      ScaleMonotone(d, q' + 1, q);
      assert false;
    } else if q' > q {
      ScaleMonotone(d, q + 1, q');
      assert false;
    }
  }

  /** Multiplying by a natural number keeps the order. */
  lemma ScaleMonotone(d: nat, a: nat, b: nat)
    requires a <= b
    ensures d * a <= d * b
  {
  }

  /** Peeling one copy of b off a product. */
  lemma MultiplyPredecessor(a: nat, b: nat)
    requires a > 0
    ensures a * b == (a - 1) * b + b
  {
  }

  /** In a grid of rows of length w, position x of row y comes before the
      start of row r whenever y < r. */
  lemma OffsetBeforeRow(w: nat, x: nat, y: nat, r: nat)
    requires x < w && y < r
    ensures y * w + x < r * w
  {
    MultiplyPredecessor(y + 1, w);
    ScaleMonotone(w, y + 1, r);
    assert w * (y + 1) == (y + 1) * w && w * r == r * w;
  }
}
