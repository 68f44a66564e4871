/** The Q31 Clarke and Park transforms of arm_math.h and their inverses. */
module Transforms {
  import opened Arithmetic
  import opened FixedPoint

  const ONE_OVER_SQRT3: int := 0x24F3_4E8B
  const TWO_OVER_SQRT3: int := 0x49E6_9D16
  const SQRT3_OVER_2: int := 0x6ED9_EBA1
  const HALF: int := 0x4000_0000

  /** A pair of output pointers. */
  datatype Pair = Pair(first: int, second: int)

  // ---------- Clarke ----------

  function Clarke(ia: int, ib: int): Pair {
    var product1 := ToQ31(ia * ONE_OVER_SQRT3 / 0x4000_0000);
    var product2 := ToQ31(ib * TWO_OVER_SQRT3 / 0x4000_0000);
    Pair(ia, Qadd(product1, product2))
  }

  function InverseClarke(alpha: int, beta: int): Pair {
    var product1 := ToQ31(alpha * HALF / TWO_31);
    var product2 := ToQ31(beta * SQRT3_OVER_2 / TWO_31);
    Pair(alpha, Qsub(product2, product1))
  }

  /** The beta coordinate before any cast or saturation. */
  function BetaSum(ia: int, ib: int): int {
    ia * ONE_OVER_SQRT3 / 0x4000_0000 + ib * TWO_OVER_SQRT3 / 0x4000_0000
  }

  /** The largest |Ib| whose scaled value still fits in 32 bits. */
  const IB_LIMIT: int := 1859775393

  /** The documented saturation of beta is exact when |Ib| is at most IB_LIMIT, and only then: beyond it the cast
      of the second product wraps and beta comes out with the opposite sign. */
  lemma ClarkeSaturates(ia: int, ib: int)
    requires IsQ31(ia) && IsQ31(ib)
    ensures Clarke(ia, ib).second == Clamp(BetaSum(ia, ib), Q31_MIN, Q31_MAX) <==> -IB_LIMIT <= ib <= IB_LIMIT
  {
    hide ClipQ63ToQ31;
    var p1, p2 := ia * ONE_OVER_SQRT3 / 0x4000_0000, ib * TWO_OVER_SQRT3 / 0x4000_0000;
    SaturatingSums(ToQ31(p1), ToQ31(p2));
    assert IsQ31(p1);
    assert IsQ31(p2) <==> -IB_LIMIT <= ib <= IB_LIMIT;
  }

  /** y * sqrt(3) < x, by comparing squares. */
  predicate Below(y: int, x: int) {
    if x >= 0 then y < 0 || 3 * (y * y) < x * x else y < 0 && 3 * (y * y) > x * x
  }

  lemma Squares(u: int, v: int)
    requires 0 <= u < v
    ensures u * u < v * v
  {
    Between(u, u, v);
    assert (v - u) * v > 0 by { Positive(v - u, v); }
    Distribute(v, v, u);
  }

  lemma SquareOfProduct(y: int, p: int)
    ensures (y * p) * (y * p) == (y * y) * (p * p)
  {
    Regroup(y, p, y * p);
    Regroup(p, y, p);
    assert y * (y * (p * p)) == (y * y) * (p * p);
  }

  lemma CancelStrict(n: int, a: int, b: int)
    requires n > 0 && a * n < b * n
    ensures a < b
  {
    if b <= a { Between(n, b, a); }
  }

  /** Through a fraction p / q above sqrt(3) for values that are not negative. */
  lemma BelowFromAbove(y: int, x: int, p: int, q: int)
    requires y >= 0 && x >= 0 && p > 0 && q > 0 && 3 * (q * q) <= p * p && y * p < x * q
    ensures 3 * (y * y) < x * x
  {
    NonNegative(y, p);
    Squares(y * p, x * q);
    SquareOfProduct(y, p);
    SquareOfProduct(x, q);
    NonNegative(y, y);
    Between(y * y, 3 * (q * q), p * p);
    assert (y * y) * (3 * (q * q)) == (3 * (y * y)) * (q * q);
    Positive(q, q);
    CancelStrict(q * q, 3 * (y * y), x * x);
  }

  /** Through a fraction below sqrt(3) for negative ones. */
  lemma BelowFromBelow(y: int, x: int, p: int, q: int)
    requires y < 0 && x < 0 && p > 0 && q > 0 && p * p <= 3 * (q * q) && y * p < x * q
    ensures 3 * (y * y) > x * x
  {
    assert (-x) * q < (-y) * p;
    NonNegative(-x, q);
    Squares((-x) * q, (-y) * p);
    SquareOfProduct(-x, q);
    SquareOfProduct(-y, p);
    NonNegative(y, y);
    Between(y * y, p * p, 3 * (q * q));
    assert (-y) * (-y) == y * y && (-x) * (-x) == x * x;
    assert (y * y) * (3 * (q * q)) == (3 * (y * y)) * (q * q);
    Positive(q, q);
    CancelStrict(q * q, x * x, 3 * (y * y));
  }

  /** Two convergents of sqrt(3), one from each side. */
  const ABOVE_P: int := 978122
  const ABOVE_Q: int := 564719
  const BELOW_P: int := 716035
  const BELOW_Q: int := 413403

  lemma BelowByConvergents(y: int, x: int)
    requires y * ABOVE_P < x * ABOVE_Q && y * BELOW_P < x * BELOW_Q
    ensures Below(y, x)
  {
    if y >= 0 {
      BelowFromAbove(y, x, ABOVE_P, ABOVE_Q);
    } else if x < 0 {
      BelowFromBelow(y, x, BELOW_P, BELOW_Q);
    }
  }

  /** When neither the cast of the second product nor the sum overflows, (Ia + 2 Ib) / sqrt(3) exceeds beta by more
      than -1/2 and less than 5/2. */
  lemma ClarkeAccuracy(ia: int, ib: int)
    requires IsQ31(ia) && -IB_LIMIT <= ib <= IB_LIMIT && IsQ31(BetaSum(ia, ib))
    ensures var beta := Clarke(ia, ib).second;
      && Below(2 * beta - 1, 2 * (ia + 2 * ib)) && Below(-(2 * beta + 5), -2 * (ia + 2 * ib))
      && 0 <= (ia + 2 * ib) * ONE_OVER_SQRT3 - 0x4000_0000 * beta < 2 * 0x4000_0000
  {
    hide ClipQ63ToQ31, Below;
    ClarkeSaturates(ia, ib);
    var x, beta := ia + 2 * ib, Clarke(ia, ib).second;
    assert 0 <= x * ONE_OVER_SQRT3 - 0x4000_0000 * beta < 2 * 0x4000_0000;
    BelowByConvergents(2 * beta - 1, 2 * x);
    BelowByConvergents(-(2 * beta + 5), -2 * x);
  }

  /** When neither that cast nor the sum overflows, the inverse returns Ia exactly and Ib within 3 below, 1 above. */
  lemma ClarkeRoundTrip(ia: int, ib: int)
    requires IsQ31(ia) && -IB_LIMIT <= ib <= IB_LIMIT && IsQ31(BetaSum(ia, ib))
    ensures var c := Clarke(ia, ib); var r := InverseClarke(c.first, c.second);
      r.first == ia && -3 <= r.second - ib <= 1
  {
    hide ClipQ63ToQ31;
    var p1, p2 := ia * ONE_OVER_SQRT3 / 0x4000_0000, ib * TWO_OVER_SQRT3 / 0x4000_0000;
    ClarkeSaturates(ia, ib);
    var beta := p1 + p2;
    var q1, q2 := ia * HALF / TWO_31, beta * SQRT3_OVER_2 / TWO_31;
    BackError(ia, ib, p1, p2, q1, q2);
    SaturatingSums(q2, q1);
  }

  lemma BackError(ia: int, ib: int, p1: int, p2: int, q1: int, q2: int)
    requires IsQ31(ia) && -IB_LIMIT <= ib <= IB_LIMIT && IsQ31(p1 + p2)
    requires p1 == ia * ONE_OVER_SQRT3 / 0x4000_0000 && p2 == ib * TWO_OVER_SQRT3 / 0x4000_0000
    requires q1 == ia * HALF / TWO_31 && q2 == (p1 + p2) * SQRT3_OVER_2 / TWO_31
    ensures IsQ31(q1) && IsQ31(q2) && -3 <= q2 - q1 - ib <= 1
  {
  }

  /** The inverse Clarke transform keeps the documented promise: on all inputs its output is the saturated difference. */
  lemma InverseClarkeSaturates(alpha: int, beta: int)
    requires IsQ31(alpha) && IsQ31(beta)
    ensures InverseClarke(alpha, beta).second ==
      Clamp(beta * SQRT3_OVER_2 / TWO_31 - alpha * HALF / TWO_31, Q31_MIN, Q31_MAX)
  {
    hide ClipQ63ToQ31;
    var p1, p2 := alpha * HALF / TWO_31, beta * SQRT3_OVER_2 / TWO_31;
    assert IsQ31(p1) && IsQ31(p2);
    SaturatingSums(p2, p1);
  }

  // ---------- Park ----------

  function Product(x: int, y: int): (p: int)
    ensures IsQ31(p)
  {
    ToQ31(x * y / TWO_31)
  }

  function Park(alpha: int, beta: int, sinVal: int, cosVal: int): Pair {
    var product1 := Product(alpha, cosVal);
    var product2 := Product(beta, sinVal);
    var product3 := Product(alpha, sinVal);
    var product4 := Product(beta, cosVal);
    Pair(Qadd(product1, product2), Qsub(product4, product3))
  }

  function InversePark(d: int, q: int, sinVal: int, cosVal: int): Pair {
    var product1 := Product(d, cosVal);
    var product2 := Product(q, sinVal);
    var product3 := Product(d, sinVal);
    var product4 := Product(q, cosVal);
    Pair(Qsub(product1, product2), Qadd(product4, product3))
  }

  predicate BothMin(x: int, y: int) { x == Q31_MIN && y == Q31_MIN }

  lemma ProductBelow(x: int, y: int)
    requires IsQ31(x) && IsQ31(y) && !BothMin(x, y)
    ensures -(TWO_31 * TWO_31) <= x * y < TWO_31 * TWO_31
  {
    if y == Q31_MIN {
      AbsProduct(x, y, Q31_MAX, TWO_31);
    } else {
      AbsProduct(x, y, TWO_31, Q31_MAX);
    }
  }

  /** The cast of a product is exact unless both factors are -1.0. */
  lemma ProductExact(x: int, y: int)
    requires IsQ31(x) && IsQ31(y)
    ensures Product(x, y) == x * y / TWO_31 <==> !BothMin(x, y)
  {
    if !BothMin(x, y) {
      ProductBelow(x, y);
    }
  }

  lemma ProductOfBothMin(x: int, y: int)
    requires IsQ31(x) && IsQ31(y)
    ensures -TWO_31 <= x * y / TWO_31 <= TWO_31
    ensures BothMin(x, y) <==> x * y / TWO_31 == TWO_31
    ensures Product(x, y) == if BothMin(x, y) then Q31_MIN else x * y / TWO_31
  {
    AbsProduct(x, y, TWO_31, TWO_31);
    ProductExact(x, y);
    if !BothMin(x, y) { ProductBelow(x, y); }
  }

  /** The saturated sum and difference of two products, as the four outputs below use them. */
  lemma ProductsSaturate(x: int, u: int, y: int, v: int)
    requires IsQ31(x) && IsQ31(u) && IsQ31(y) && IsQ31(v)
    ensures Qadd(Product(x, u), Product(y, v)) == Clamp(x * u / TWO_31 + y * v / TWO_31, Q31_MIN, Q31_MAX)
      <==> !BothMin(x, u) && !BothMin(y, v)
    ensures Qsub(Product(x, u), Product(y, v)) == Clamp(x * u / TWO_31 - y * v / TWO_31, Q31_MIN, Q31_MAX)
      <==> (BothMin(x, u) <==> BothMin(y, v))
  {
    hide Product, Qadd, Qsub, BothMin;
    ProductOfBothMin(x, u);
    ProductOfBothMin(y, v);
    SaturatingSums(Product(x, u), Product(y, v));
  }

  /** The documented saturation of d and q: d is exact when neither of its products is of two -1.0, q also when both
      of its products are; otherwise a wrapped product changes the result. */
  lemma ParkSaturates(alpha: int, beta: int, sinVal: int, cosVal: int)
    requires IsQ31(alpha) && IsQ31(beta) && IsQ31(sinVal) && IsQ31(cosVal)
    ensures var p := Park(alpha, beta, sinVal, cosVal);
      && (p.first == Clamp(alpha * cosVal / TWO_31 + beta * sinVal / TWO_31, Q31_MIN, Q31_MAX)
          <==> !BothMin(alpha, cosVal) && !BothMin(beta, sinVal))
      && (p.second == Clamp(beta * cosVal / TWO_31 - alpha * sinVal / TWO_31, Q31_MIN, Q31_MAX)
          <==> (BothMin(beta, cosVal) <==> BothMin(alpha, sinVal)))
  {
    hide Product, Qadd, Qsub, BothMin, Clamp;
    ProductsSaturate(alpha, cosVal, beta, sinVal);
    ProductsSaturate(beta, cosVal, alpha, sinVal);
  }

  /** The same for the inverse transform. */
  lemma InverseParkSaturates(d: int, q: int, sinVal: int, cosVal: int)
    requires IsQ31(d) && IsQ31(q) && IsQ31(sinVal) && IsQ31(cosVal)
    ensures var r := InversePark(d, q, sinVal, cosVal);
      && (r.first == Clamp(d * cosVal / TWO_31 - q * sinVal / TWO_31, Q31_MIN, Q31_MAX)
          <==> (BothMin(d, cosVal) <==> BothMin(q, sinVal)))
      && (r.second == Clamp(q * cosVal / TWO_31 + d * sinVal / TWO_31, Q31_MIN, Q31_MAX)
          <==> !BothMin(q, cosVal) && !BothMin(d, sinVal))
  {
    hide Product, Qadd, Qsub, BothMin, Clamp;
    ProductsSaturate(d, cosVal, q, sinVal);
    ProductsSaturate(q, cosVal, d, sinVal);
  }

  /** Neither a product cast nor a saturation of the forward transform changes a value, and the products of the
      inverse are exact. */
  predicate ParkExact(alpha: int, beta: int, sinVal: int, cosVal: int) {
    var d, q := alpha * cosVal / TWO_31 + beta * sinVal / TWO_31, beta * cosVal / TWO_31 - alpha * sinVal / TWO_31;
    && !BothMin(alpha, cosVal) && !BothMin(beta, sinVal) && !BothMin(alpha, sinVal) && !BothMin(beta, cosVal)
    && IsQ31(d) && IsQ31(q)
    && !BothMin(d, cosVal) && !BothMin(q, sinVal) && !BothMin(d, sinVal) && !BothMin(q, cosVal)
  }

  function Abs(x: int): int { if x < 0 then -x else x }

  /** 2^62 times the distance of c^2 + s^2 from one, in units of 2^-62. */
  function NormError(sinVal: int, cosVal: int): int {
    Abs(cosVal * cosVal + sinVal * sinVal - TWO_31 * TWO_31)
  }

  lemma DivisionError(x: int) returns (r: int)
    ensures x == x / TWO_31 * TWO_31 + r && 0 <= r < TWO_31
  {
    r := x % TWO_31;
  }

  lemma AbsTimes(a: int, b: int)
    ensures -(Abs(a) * Abs(b)) <= a * b <= Abs(a) * Abs(b)
  {
    assert Abs(a) * Abs(b) == a * b || Abs(a) * Abs(b) == -(a * b);
    AbsProduct(a, b, Abs(a), Abs(b));
  }

  /** Rotating forth and back: the algebra, with the truncations `rd`, `rq` of the forward step and `t` of the backward step. */
  lemma RotateBack(a: int, b: int, s: int, c: int, d: int, q: int, rd: int, rq: int, out: int, t: int, w: int)
    requires d * w == a * c + b * s - rd && q * w == b * c - a * s - rq && out * w == d * c - q * s - t
    ensures (out - a) * (w * w) == a * (c * c + s * s - w * w) - c * rd + s * rq - t * w
  {
    assert out * w * w == (d * w) * c - (q * w) * s - t * w;
    assert (a * c + b * s - rd) * c == a * (c * c) + b * s * c - c * rd;
    assert (b * c - a * s - rq) * s == b * s * c - a * (s * s) - s * rq;
    assert a * (c * c + s * s - w * w) == a * (c * c) + a * (s * s) - a * (w * w);
    assert (out - a) * (w * w) == out * w * w - a * (w * w);
  }

  /** The second coordinate is the first one rotated by a quarter turn. */
  lemma RotateBackBeta(a: int, b: int, s: int, c: int, d: int, q: int, rd: int, rq: int, out: int, t: int, w: int)
    requires d * w == a * c + b * s - rd && q * w == b * c - a * s - rq && out * w == q * c + d * s - t
    ensures (out - b) * (w * w) == b * (c * c + s * s - w * w) - c * rq - s * rd - t * w
  {
    RotateBack(b, -a, s, c, q, -d, rq, -rd, out, t, w);
  }

  /** 2^62 (x - y) lies within `lsb` units of 2^62 plus |y| times the norm error. */
  predicate Within(x: int, y: int, lsb: int, norm: int) {
    Abs(x - y) * (TWO_31 * TWO_31) <= lsb * (TWO_31 * TWO_31) + Abs(y) * norm
  }

  /** Saturating to the 32-bit range never makes a coordinate worse. */
  lemma ClampWithin(x: int, y: int, lsb: int, norm: int)
    requires IsQ31(y) && Within(x, y, lsb, norm)
    ensures Within(Clamp(x, Q31_MIN, Q31_MAX), y, lsb, norm)
  {
    var z := Clamp(x, Q31_MIN, Q31_MAX);
    assert Abs(z - y) <= Abs(x - y);
  }

  lemma QuotientSum(x: int, y: int) returns (t: int)
    ensures (x / TWO_31 + y / TWO_31) * TWO_31 == x + y - t && 0 <= t <= 2 * TWO_31
  {
    var r := DivisionError(x);
    var r' := DivisionError(y);
    t := r + r';
  }

  lemma QuotientDifference(x: int, y: int) returns (t: int)
    ensures (x / TWO_31 - y / TWO_31) * TWO_31 == x - y - t && -TWO_31 <= t <= TWO_31
  {
    var r := DivisionError(x);
    var r' := DivisionError(y);
    t := r - r';
  }

  lemma AlphaWithin(a: int, b: int, s: int, c: int, d: int, q: int)
    requires IsQ31(a) && IsQ31(b) && IsQ31(s) && IsQ31(c)
    requires d == a * c / TWO_31 + b * s / TWO_31 && q == b * c / TWO_31 - a * s / TWO_31
    ensures Within(d * c / TWO_31 - q * s / TWO_31, a, 4, NormError(s, c))
  {
    hide NormError;
    var rd := QuotientSum(a * c, b * s);
    var rq := QuotientDifference(b * c, a * s);
    var t := QuotientDifference(d * c, q * s);
    var out := d * c / TWO_31 - q * s / TWO_31;
    RotateBack(a, b, s, c, d, q, rd, rq, out, t, TWO_31);
    TruncationBound(a, s, c, rd, rq, t, (out - a) * (TWO_31 * TWO_31));
  }

  lemma TruncationBound(a: int, s: int, c: int, rd: int, rq: int, t: int, e: int)
    requires IsQ31(s) && IsQ31(c)
    requires -2 * TWO_31 <= rd <= 2 * TWO_31 && -TWO_31 <= rq <= TWO_31 && -2 * TWO_31 <= t <= 2 * TWO_31
    requires e == a * (c * c + s * s - TWO_31 * TWO_31) - c * rd + s * rq - t * TWO_31
    ensures Abs(e) <= 3 * (TWO_31 * TWO_31) + Abs(t) * TWO_31 + Abs(a) * NormError(s, c)
  {
    AbsTimes(a, c * c + s * s - TWO_31 * TWO_31);
    AbsProduct(c, rd, TWO_31, 2 * TWO_31);
    AbsProduct(s, rq, TWO_31, TWO_31);
  }

  lemma BetaWithin(a: int, b: int, s: int, c: int, d: int, q: int)
    requires IsQ31(a) && IsQ31(b) && IsQ31(s) && IsQ31(c)
    requires d == a * c / TWO_31 + b * s / TWO_31 && q == b * c / TWO_31 - a * s / TWO_31
    ensures Within(q * c / TWO_31 + d * s / TWO_31, b, 5, NormError(s, c))
  {
    hide NormError;
    var rd := QuotientSum(a * c, b * s);
    var rq := QuotientDifference(b * c, a * s);
    var t := QuotientSum(q * c, d * s);
    var out := q * c / TWO_31 + d * s / TWO_31;
    RotateBackBeta(a, b, s, c, d, q, rd, rq, out, t, TWO_31);
    NormSwap(s, c);
    SignOut(c, rq);
    TruncationBound(b, c, s, rd, -rq, t, (out - b) * (TWO_31 * TWO_31));
  }

  lemma SignOut(c: int, r: int)
    ensures c * -r == -(c * r)
  {
  }

  lemma NormSwap(s: int, c: int)
    ensures NormError(s, c) == NormError(c, s)
    ensures s * s + c * c == c * c + s * s
  {
  }

  lemma ParkValue(alpha: int, beta: int, sinVal: int, cosVal: int)
    requires IsQ31(alpha) && IsQ31(beta) && IsQ31(sinVal) && IsQ31(cosVal)
    requires ParkExact(alpha, beta, sinVal, cosVal)
    ensures Park(alpha, beta, sinVal, cosVal) ==
      Pair(alpha * cosVal / TWO_31 + beta * sinVal / TWO_31, beta * cosVal / TWO_31 - alpha * sinVal / TWO_31)
  {
    hide Product, Qadd, Qsub;
    ProductExact(alpha, cosVal);
    ProductExact(beta, sinVal);
    ProductExact(alpha, sinVal);
    ProductExact(beta, cosVal);
    SaturatingSums(Product(alpha, cosVal), Product(beta, sinVal));
    SaturatingSums(Product(beta, cosVal), Product(alpha, sinVal));
  }

  /** Without overflow the outputs are the rotated coordinates to within two units and one unit. */
  lemma ParkAccuracy(alpha: int, beta: int, sinVal: int, cosVal: int)
    requires IsQ31(alpha) && IsQ31(beta) && IsQ31(sinVal) && IsQ31(cosVal)
    requires ParkExact(alpha, beta, sinVal, cosVal)
    ensures var p := Park(alpha, beta, sinVal, cosVal);
      && 0 <= alpha * cosVal + beta * sinVal - TWO_31 * p.first < 2 * TWO_31
      && -TWO_31 < beta * cosVal - alpha * sinVal - TWO_31 * p.second < TWO_31
  {
    hide Park, ParkExact;
    ParkValue(alpha, beta, sinVal, cosVal);
    var r1 := DivisionError(alpha * cosVal);
    var r2 := DivisionError(beta * sinVal);
    var r3 := DivisionError(beta * cosVal);
    var r4 := DivisionError(alpha * sinVal);
  }

  lemma InverseParkValue(d: int, q: int, sinVal: int, cosVal: int)
    requires IsQ31(d) && IsQ31(q) && IsQ31(sinVal) && IsQ31(cosVal)
    requires !BothMin(d, cosVal) && !BothMin(q, sinVal) && !BothMin(d, sinVal) && !BothMin(q, cosVal)
    ensures InversePark(d, q, sinVal, cosVal) ==
      Pair(Clamp(d * cosVal / TWO_31 - q * sinVal / TWO_31, Q31_MIN, Q31_MAX),
           Clamp(q * cosVal / TWO_31 + d * sinVal / TWO_31, Q31_MIN, Q31_MAX))
  {
    hide Product, Qadd, Qsub, Clamp;
    ProductExact(d, cosVal);
    ProductExact(q, sinVal);
    ProductExact(d, sinVal);
    ProductExact(q, cosVal);
    SaturatingSums(Product(d, cosVal), Product(q, sinVal));
    SaturatingSums(Product(q, cosVal), Product(d, sinVal));
  }

  /** Inverse Park after Park with the same sine and cosine: alpha comes back within 4 LSB and beta within 5,
      plus the coordinate's size times the error of sin^2 + cos^2. */
  lemma ParkRoundTrip(alpha: int, beta: int, sinVal: int, cosVal: int)
    requires IsQ31(alpha) && IsQ31(beta) && IsQ31(sinVal) && IsQ31(cosVal)
    requires ParkExact(alpha, beta, sinVal, cosVal)
    ensures var p := Park(alpha, beta, sinVal, cosVal);
      var r := InversePark(p.first, p.second, sinVal, cosVal);
      Within(r.first, alpha, 4, NormError(sinVal, cosVal)) && Within(r.second, beta, 5, NormError(sinVal, cosVal))
  {
    hide Park, InversePark, Within, NormError, Clamp;
    var d, q := alpha * cosVal / TWO_31 + beta * sinVal / TWO_31, beta * cosVal / TWO_31 - alpha * sinVal / TWO_31;
    ParkValue(alpha, beta, sinVal, cosVal);
    InverseParkValue(d, q, sinVal, cosVal);
    AlphaWithin(alpha, beta, sinVal, cosVal, d, q);
    BetaWithin(alpha, beta, sinVal, cosVal, d, q);
    ClampWithin(d * cosVal / TWO_31 - q * sinVal / TWO_31, alpha, 4, NormError(sinVal, cosVal));
    ClampWithin(q * cosVal / TWO_31 + d * sinVal / TWO_31, beta, 5, NormError(sinVal, cosVal));
  }
}
