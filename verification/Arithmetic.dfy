/** Products and quotients of integers: the nonlinear steps that the numeric modules share. */
module Arithmetic {

  lemma Positive(x: int, y: int)
    requires x > 0 && y > 0
    ensures x * y > 0
  {
  }

  lemma NonNegative(x: int, y: int)
    requires (x >= 0 && y >= 0) || x == y
    ensures x * y >= 0
  {
  }

  lemma Between(x: int, y: int, z: int)
    requires x >= 0 && y <= z
    ensures x * y <= x * z
  {
  }

  lemma Distribute(m: int, u: int, v: int)
    ensures m * (u + v) == m * u + m * v
    ensures m * (u - v) == m * u - m * v
  {
  }

  lemma Regroup(a: int, u: int, w: int)
    ensures a * u * w == a * (u * w)
  {
  }

  /** |a * b| <= m * k when |a| <= m and |b| <= k. */
  lemma AbsProduct(a: int, b: int, m: int, k: int)
    requires -m <= a <= m && -k <= b <= k
    ensures -m * k <= a * b <= m * k
  {
    if a >= 0 {
      assert a * (k - b) >= 0 && a * (k + b) >= 0 && (m - a) * k >= 0;
    } else {
      assert (-a) * (k - b) >= 0 && (-a) * (k + b) >= 0 && (m + a) * k >= 0;
    }
  }

  /** A weighted sum of two values lies between the weighted extremes. */
  lemma TwoWeights(a: int, b: int, u: int, v: int, low: int, high: int)
    requires u >= 0 && v >= 0 && low <= a <= high && low <= b <= high
    ensures low * (u + v) <= a * u + b * v <= high * (u + v)
  {
    assert (a - low) * u >= 0 && (b - low) * v >= 0;
    assert (high - a) * u >= 0 && (high - b) * v >= 0;
  }

  lemma Cancel(n: int, a: int, b: int)
    requires n > 0 && n * a <= n * b
    ensures a <= b
  {
    if b < a {
      Between(n, b + 1, a);
      Distribute(n, b, 1);
    }
  }

  lemma QuotientBetween(x: int, w: int)
    requires w > 0 && -(w * w) <= x < w * w
    ensures -w <= x / w < w
  {
    var q := x / w;
    assert x == w * q + x % w;
    if q >= w {
      Between(w, w, q);
    } else if q < -w {
      Between(w, q, -w - 1);
      Distribute(w, -w, 1);
    }
  }

  lemma QuotientMonotone(a: int, d: int, e: int)
    requires a >= 0 && 0 < d <= e
    ensures a / e <= a / d
  {
    var q, p := a / e, a / d;
    assert a == q * e + a % e && a == p * d + a % d;
    assert q >= 0;
    if q > p {
      Between(q, d, e);
      Between(d, p + 1, q);
    }
  }
}
