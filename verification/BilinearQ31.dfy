/** arm_bilinear_interp_q31 of arm_math.h: four products cut twice, summed in 32 bits and shifted left by two, and the
    tables on which that shift wraps. */
module BilinearQ31 {
  import opened Arithmetic
  import opened Bits
  import opened FixedPoint
  import opened Interpolation
  import opened Bilinear

  /** The largest fraction in 31 bits, used by the source as "one". */
  const TOP31: int := 0x7FFF_FFFF

  /** The upper word of a product. */
  function Cut(a: int, w: int): int { a * w / TWO_32 }

  /** The Q31 arithmetic, with fractions `m` and `n` of 20 bits. */
  function MixQ31(x1: int, x2: int, y1: int, y2: int, m: int, n: int): int {
    var xf, yf := m * 0x800, n * 0x800;
    var acc := ToQ31(Cut(ToQ31(Cut(x1, TOP31 - xf)), TOP31 - yf));
    var acc := ToQ31(acc + ToQ31(Cut(ToQ31(Cut(x2, TOP31 - yf)), xf)));
    var acc := ToQ31(acc + ToQ31(Cut(ToQ31(Cut(y1, TOP31 - xf)), yf)));
    var acc := ToQ31(acc + ToQ31(Cut(ToQ31(Cut(y2, xf)), yf)));
    ToQ31(acc * 4)
  }

  /** The sum without any cast. */
  function Sum(x1: int, x2: int, y1: int, y2: int, m: int, n: int): int {
    var xf, yf := m * 0x800, n * 0x800;
    Cut(Cut(x1, TOP31 - xf), TOP31 - yf) + Cut(Cut(x2, TOP31 - yf), xf) + Cut(Cut(y1, TOP31 - xf), yf) + Cut(Cut(y2, xf), yf)
  }

  predicate Steps(m: int, n: int) { 0 <= m < UNIT && 0 <= n < UNIT }

  lemma CutRange(a: int, w: int, half: int)
    requires -2 * half <= a < 2 * half && 0 <= w <= TOP31 && half > 0
    ensures -half <= Cut(a, w) < half
  {
    TwoWeights(a, 0, w, TOP31 - w, -2 * half, 2 * half - 1);
    assert -2 * half * TWO_31 <= a * w <= (2 * half - 1) * TWO_31;
  }

  /** Only the last shift can lose a value. */
  lemma MixQ31Shift(x1: int, x2: int, y1: int, y2: int, m: int, n: int)
    requires IsQ31(x1) && IsQ31(x2) && IsQ31(y1) && IsQ31(y2) && Steps(m, n)
    ensures MixQ31(x1, x2, y1, y2, m, n) == ToQ31(Sum(x1, x2, y1, y2, m, n) * 4)
  {
    hide Cut, ToQ31;
    var xf, yf := m * 0x800, n * 0x800;
    CutTwice(x1, TOP31 - xf, TOP31 - yf);
    CutTwice(x2, TOP31 - yf, xf);
    CutTwice(y1, TOP31 - xf, yf);
    CutTwice(y2, xf, yf);
  }

  lemma CutTwice(a: int, w: int, v: int)
    requires IsQ31(a) && 0 <= w <= TOP31 && 0 <= v <= TOP31
    ensures IsQ31(Cut(a, w)) && -0x2000_0000 <= Cut(Cut(a, w), v) < 0x2000_0000
  {
    hide Cut;
    CutRange(a, w, 0x4000_0000);
    CutRange(Cut(a, w), v, 0x2000_0000);
  }

  // ---------- against the formula ----------

  /** Cutting twice loses less than 2^64 and 2^32 times the second weight. */
  lemma CutTwiceNear(a: int, w: int, v: int)
    requires 0 <= v
    ensures a * (w * v) - TWO_32 * v - TWO_32 * TWO_32 <= TWO_32 * TWO_32 * Cut(Cut(a, w), v) <= a * (w * v)
  {
    var c := Cut(a, w);
    assert TWO_32 * c <= a * w < TWO_32 * c + TWO_32;
    Between(v, TWO_32 * c, a * w);
    Between(v, a * w, TWO_32 * c + TWO_32);
    Regroup(a, w, v);
    FirstCut(c, v);
  }

  lemma FirstCut(c: int, v: int)
    ensures v * (TWO_32 * c) - TWO_32 * TWO_32 < TWO_32 * TWO_32 * (c * v / TWO_32) <= v * (TWO_32 * c)
    ensures v * (TWO_32 * c + TWO_32) == v * (TWO_32 * c) + TWO_32 * v
  {
    var y := c * v;
    assert v * (TWO_32 * c) == TWO_32 * y;
  }

  /** Four times the sum, against the weighted sum in units of 2^-62. */
  lemma SumNear(x1: int, x2: int, y1: int, y2: int, m: int, n: int)
    requires Steps(m, n)
    ensures var s := Weighted(TOP31, x1, x2, y1, y2, m * 0x800, n * 0x800);
      s - 22 * (TWO_31 * TWO_31) <= TWO_31 * TWO_31 * (4 * Sum(x1, x2, y1, y2, m, n)) <= s
  {
    hide Cut;
    var xf, yf := m * 0x800, n * 0x800;
    CutTwiceNear(x1, TOP31 - xf, TOP31 - yf);
    CutTwiceNear(x2, TOP31 - yf, xf);
    CutTwiceNear(y1, TOP31 - xf, yf);
    CutTwiceNear(y2, xf, yf);
  }

  /** The weights sum to one less than 2^32 short of 2^62. */
  lemma HullQ31(s: int, low: int, high: int)
    requires IsQ31(low) && IsQ31(high) && low * (TOP31 * TOP31) <= s <= high * (TOP31 * TOP31)
    ensures (low - 2) * (TWO_31 * TWO_31) <= s <= (high + 2) * (TWO_31 * TWO_31)
  {
  }

  /** When the shift does not wrap: within the hull of the corners, widened by 24 below and 2 above, and from 24 units
      below to 2 above the documented formula. */
  lemma MixQ31Near(x1: int, x2: int, y1: int, y2: int, m: int, n: int, low: int, high: int)
    requires Steps(m, n) && IsQ31(low) && IsQ31(high) && Bounds(x1, x2, y1, y2, low, high)
    ensures var r := 4 * Sum(x1, x2, y1, y2, m, n);
      && low - 24 <= r <= high + 2
      && -24 * (TWO_31 * TWO_31) <= TWO_31 * TWO_31 * r - Weighted(TWO_31, x1, x2, y1, y2, m * 0x800, n * 0x800)
           <= 2 * (TWO_31 * TWO_31)
  {
    hide Sum, Weighted;
    var xf, yf := m * 0x800, n * 0x800;
    SumNear(x1, x2, y1, y2, m, n);
    FourWeights(TOP31, x1, x2, y1, y2, xf, yf, low, high);
    HullQ31(Weighted(TOP31, x1, x2, y1, y2, xf, yf), low, high);
    MissingWeight(TOP31, x1, x2, y1, y2, xf, yf, Q31_MIN, Q31_MAX);
  }

  /** The shift never wraps upwards. */
  lemma SumBelow(x1: int, x2: int, y1: int, y2: int, m: int, n: int)
    requires Steps(m, n) && IsQ31(x1) && IsQ31(x2) && IsQ31(y1) && IsQ31(y2)
    ensures 4 * Sum(x1, x2, y1, y2, m, n) <= Q31_MAX
  {
    hide Sum, Weighted;
    SumNear(x1, x2, y1, y2, m, n);
    FourWeights(TOP31, x1, x2, y1, y2, m * 0x800, n * 0x800, Q31_MIN, Q31_MAX);
  }

  // ---------- when the shift wraps ----------

  /** The lowest entry for which it cannot. */
  const SAFE: int := Q31_MIN + 13

  lemma CutMonotone(a: int, b: int, w: int)
    requires a <= b && w >= 0
    ensures Cut(a, w) <= Cut(b, w)
  {
    Between(w, a, b);
  }

  lemma CutTwiceMonotone(a: int, b: int, w: int, v: int)
    requires a <= b && w >= 0 && v >= 0
    ensures Cut(Cut(a, w), v) <= Cut(Cut(b, w), v)
  {
    hide Cut;
    CutMonotone(a, b, w);
    CutMonotone(Cut(a, w), Cut(b, w), v);
  }

  lemma SumMonotone(w1: int, w2: int, v1: int, v2: int, x1: int, x2: int, y1: int, y2: int, m: int, n: int)
    requires Steps(m, n) && w1 <= x1 && w2 <= x2 && v1 <= y1 && v2 <= y2
    ensures Sum(w1, w2, v1, v2, m, n) <= Sum(x1, x2, y1, y2, m, n)
  {
    hide Cut;
    var xf, yf := m * 0x800, n * 0x800;
    CutTwiceMonotone(w1, x1, TOP31 - xf, TOP31 - yf);
    CutTwiceMonotone(w2, x2, TOP31 - yf, xf);
    CutTwiceMonotone(v1, y1, TOP31 - xf, yf);
    CutTwiceMonotone(v2, y2, xf, yf);
  }

  /** The first cuts of the lowest safe entry, with complementary fractions `m` and `a`. */
  function Rounded(a: int): int { (13 * a + 0x10_0000 - 1) / 0x20_0000 }

  lemma FirstCuts(m: int, a: int)
    requires 0 <= m < UNIT && a == UNIT - m
    ensures Cut(SAFE, TOP31 - m * 0x800) == -0x400 * a + Rounded(a)
    ensures Cut(SAFE, m * 0x800) == -0x400 * m + (6 - Rounded(a))
    ensures 0 <= Rounded(a) <= 6
  {
  }

  lemma FloorPair(x: int, y: int)
    ensures x / TWO_32 + y / TWO_32 >= (x + y) / TWO_32 - 1
  {
  }

  /** The first and third product share their first cut, and their second weights make one. */
  lemma FirstAndThird(o: int, n: int)
    requires o <= 0
    ensures Cut(o, TOP31 - n * 0x800) + Cut(o, n * 0x800) >= o / 2 - 1
  {
    FloorPair(o * (TOP31 - n * 0x800), o * (n * 0x800));
    Distribute(o, TOP31 - n * 0x800, n * 0x800);
    assert o * TOP31 / TWO_32 >= o / 2;
  }

  lemma SecondAndFourth(m: int, n: int, b: int, c2: int, c4: int)
    requires b == UNIT - n
    ensures Cut(-0x400 * b + c2, m * 0x800) + Cut(-0x400 * m + c4, n * 0x800) >= -0x200 * m + (c2 * m + c4 * n) / 0x20_0000 - 1
  {
    var x, y := (-0x400 * b + c2) * (m * 0x800), (-0x400 * m + c4) * (n * 0x800);
    FloorPair(x, y);
    SecondPair(m, n, b, c2, c4);
    var z := c2 * m + c4 * n;
    assert (x + y) / TWO_32 == -0x200 * m + z / 0x20_0000;
  }

  lemma SecondPair(m: int, n: int, b: int, c2: int, c4: int)
    requires b == UNIT - n
    ensures (-0x400 * b + c2) * (m * 0x800) + (-0x400 * m + c4) * (n * 0x800) == -0x200 * TWO_32 * m + 0x800 * (c2 * m + c4 * n)
  {
    assert (-0x400 * b + c2) * (m * 0x800) == -0x20_0000 * (b * m) + 0x800 * (c2 * m);
    assert (-0x400 * m + c4) * (n * 0x800) == -0x20_0000 * (m * n) + 0x800 * (c4 * n);
    assert b * m + m * n == UNIT * m by { Distribute(m, b, n); }
  }

  /** What the roundings leave outweighs what the four second cuts can lose. */
  lemma RoundingsSuffice(m: int, n: int, a: int, b: int)
    requires Steps(m, n) && a == UNIT - m && b == UNIT - n
    ensures var k, c2 := Rounded(a), Rounded(b);
      k / 2 + (c2 * m + (6 - k) * n) / 0x20_0000 >= 2
  {
    hide Rounded;
    var k, c2 := Rounded(a), Rounded(b);
    var y := 13 * b - 0x10_0000;
    RoundedFacts(a);
    RoundedFacts(b);
    NonNegative(c2, m);
    NonNegative(6 - k, n);
    if y >= 0 && k < 4 {
      Between(m, y, 0x20_0000 * c2);
      Between(y, (12 - 2 * k) * 0x10_0000, 13 * m);
      RoundedShare(m, n, k, c2, y);
    } else if k < 4 {
      FewSteps(n, k);
    }
  }

  lemma RoundedFacts(a: int)
    requires 1 <= a <= UNIT
    ensures var k := Rounded(a);
      0 <= k <= 6 && 0x20_0000 * k >= 13 * a - 0x10_0000 && 13 * (UNIT - a) >= (12 - 2 * k) * 0x10_0000
  {
  }

  lemma FewSteps(n: int, k: int)
    requires 0 <= k < 4 && 13 * n >= 12 * 0x10_0000
    ensures (6 - k) * n >= if k < 2 then 0x40_0000 else 0x20_0000
  {
    Between(n, if k < 2 then 5 else 3, 6 - k);
  }

  lemma RoundedShare(m: int, n: int, k: int, c2: int, y: int)
    requires 0 <= k < 4 && y == 13 * (UNIT - n) - 0x10_0000
    requires m * y <= m * (0x20_0000 * c2) && y * ((12 - 2 * k) * 0x10_0000) <= y * (13 * m)
    ensures c2 * m + (6 - k) * n >= if k < 2 then 0x40_0000 else 0x20_0000
  {
    var z := c2 * m;
    assert m * (0x20_0000 * c2) == 0x20_0000 * z;
    assert y * (13 * m) == 13 * (m * y);
    if k == 0 {
    } else if k == 1 {
    } else if k == 2 {
    } else {
    }
  }

  lemma SafeSum(m: int, n: int)
    requires Steps(m, n)
    ensures Sum(SAFE, SAFE, SAFE, SAFE, m, n) >= -0x2000_0000
  {
    hide Cut, Rounded;
    var a, b := UNIT - m, UNIT - n;
    var k, c2 := Rounded(a), Rounded(b);
    FirstCuts(m, a);
    FirstCuts(n, b);
    FirstAndThird(-0x400 * a + k, n);
    SecondAndFourth(m, n, b, c2, 6 - k);
    RoundingsSuffice(m, n, a, b);
    assert (-0x400 * a + k) / 2 == -0x200 * a + k / 2;
  }

  /** These four corners do not make the shift wrap, at any fractions. */
  ghost predicate CornersNeverWrap(x1: int, x2: int, y1: int, y2: int) {
    forall m, n :: Steps(m, n) ==> IsQ31(4 * Sum(x1, x2, y1, y2, m, n))
  }

  /** No choice of four corners from `low` up does. */
  ghost predicate NeverWraps(low: int) {
    forall x1, x2, y1, y2 :: Bounds(x1, x2, y1, y2, low, Q31_MAX) ==> CornersNeverWrap(x1, x2, y1, y2)
  }

  lemma CutIs(a: int, w: int, c: int)
    requires c * TWO_32 <= a * w < c * TWO_32 + TWO_32
    ensures Cut(a, w) == c
  {
  }

  /** At -2^31 + 12 it can. */
  lemma UnsafeSum()
    ensures var v := Q31_MIN + 12; Sum(v, v, v, v, 786823, 813080) == -0x2000_0001
  {
    hide Cut;
    var v := Q31_MIN + 12;
    CutIs(v, 536070143, -268035071);
    CutIs(v, 482295807, -241147903);
    CutIs(v, 1611413504, -805706748);
    CutIs(-268035071, 482295807, -30098528);
    CutIs(-241147903, 1611413504, -90475425);
    CutIs(-268035071, 1665187840, -103919009);
    CutIs(-805706748, 1665187840, -312377951);
  }

  /** Corners that are all safe never wrap. */
  lemma SafeCorners(x1: int, x2: int, y1: int, y2: int)
    requires Bounds(x1, x2, y1, y2, SAFE, Q31_MAX)
    ensures CornersNeverWrap(x1, x2, y1, y2)
  {
    hide Sum;
    forall m, n | Steps(m, n)
      ensures IsQ31(4 * Sum(x1, x2, y1, y2, m, n))
    {
      SafeSum(m, n);
      SumMonotone(SAFE, SAFE, SAFE, SAFE, x1, x2, y1, y2, m, n);
      SumBelow(x1, x2, y1, y2, m, n);
    }
  }

  /** Corners that are all below the limit wrap at some fractions. */
  lemma UnsafeCorners(x1: int, x2: int, y1: int, y2: int)
    requires Bounds(x1, x2, y1, y2, Q31_MIN, SAFE - 1)
    ensures !CornersNeverWrap(x1, x2, y1, y2)
  {
    hide Sum;
    var v := Q31_MIN + 12;
    UnsafeSum();
    SumMonotone(x1, x2, y1, y2, v, v, v, v, 786823, 813080);
    assert Steps(786823, 813080);
  }

  /** A constant cell never wraps exactly from the limit up. */
  lemma ConstantNeverWrapsIff(v: int)
    requires IsQ31(v)
    ensures CornersNeverWrap(v, v, v, v) <==> v >= SAFE
  {
    hide CornersNeverWrap;
    if v >= SAFE { SafeCorners(v, v, v, v); } else { UnsafeCorners(v, v, v, v); }
  }

  /** The limit is the lowest uniform bound: every choice of corners from `low` up is safe exactly when `low` is. */
  lemma NeverWrapsIff(low: int)
    requires IsQ31(low)
    ensures NeverWraps(low) <==> low >= SAFE
  {
    hide CornersNeverWrap;
    if low >= SAFE {
      forall x1, x2, y1, y2 | Bounds(x1, x2, y1, y2, low, Q31_MAX)
        ensures CornersNeverWrap(x1, x2, y1, y2)
      {
        SafeCorners(x1, x2, y1, y2);
      }
    } else {
      UnsafeCorners(low, low, low, low);
      assert Bounds(low, low, low, low, low, Q31_MAX);
    }
  }

  /** A single corner below the limit need not wrap. */
  lemma LowCornerCanBeSafe()
    ensures CornersNeverWrap(Q31_MIN, 0, 0, 0)
  {
    hide Cut;
    forall m, n | Steps(m, n)
      ensures IsQ31(4 * Sum(Q31_MIN, 0, 0, 0, m, n))
    {
      CutTwice(Q31_MIN, TOP31 - m * 0x800, TOP31 - n * 0x800);
      ZeroCuts(m * 0x800, n * 0x800);
    }
  }

  lemma ZeroCuts(xf: int, yf: int)
    ensures Cut(Cut(0, TOP31 - yf), xf) == 0 && Cut(Cut(0, TOP31 - xf), yf) == 0 && Cut(Cut(0, xf), yf) == 0
  {
    hide Cut;
    CutIs(0, TOP31 - yf, 0);
    CutIs(0, TOP31 - xf, 0);
    CutIs(0, xf, 0);
    CutIs(0, yf, 0);
  }

  // ---------- cells of the table ----------

  function BilinearQ31(g: Grid, x: int, y: int): int
    requires Rejected(g, x, y) || ReadsInside(g, x, y)
  {
    if Rejected(g, x, y) then 0
    else MixQ31(Corner(g, x, y, 0, 0), Corner(g, x, y, 1, 0), Corner(g, x, y, 0, 1), Corner(g, x, y, 1, 1),
                Fraction(x), Fraction(y))
  }

  /** The documented formula, 2^62 times. */
  function InterpolatedQ31(g: Grid, x: int, y: int): int
    requires Cell(g, x, y)
  {
    Weighted(TWO_31, CellCorner(g, x, y, 0, 0), CellCorner(g, x, y, 1, 0), CellCorner(g, x, y, 0, 1), CellCorner(g, x, y, 1, 1),
             Fraction(x) * 0x800, Fraction(y) * 0x800)
  }

  /** The shifted sum fits 32 bits. */
  predicate ShiftFits(g: Grid, x: int, y: int)
    requires Cell(g, x, y)
  {
    IsQ31(4 * Sum(CellCorner(g, x, y, 0, 0), CellCorner(g, x, y, 1, 0), CellCorner(g, x, y, 0, 1), CellCorner(g, x, y, 1, 1),
                  Fraction(x), Fraction(y)))
  }

  /** From 24 units below to 2 above 2^-62 of `formula`. */
  predicate NearFormulaQ31(value: int, formula: int) {
    -24 * (TWO_31 * TWO_31) <= TWO_31 * TWO_31 * value - formula <= 2 * (TWO_31 * TWO_31)
  }

  lemma CellMix(g: Grid, x: int, y: int)
    requires Cell(g, x, y) && AllQ31(g.data) && Accepted(g, x, y)
    ensures ReadsInside(g, x, y) && !Rejected(g, x, y)
    ensures ShiftFits(g, x, y) ==> NearFormulaQ31(BilinearQ31(g, x, y), InterpolatedQ31(g, x, y))
    ensures ShiftFits(g, x, y) ==> LowestCorner(g, x, y) - 24 <= BilinearQ31(g, x, y) <= HighestCorner(g, x, y) + 2
    ensures !ShiftFits(g, x, y) ==> BilinearQ31(g, x, y) >= Q31_MAX - 24
    ensures !ShiftFits(g, x, y) ==> InterpolatedQ31(g, x, y) < (Q31_MIN + 24) * (TWO_31 * TWO_31)
  {
    hide MixQ31, Sum, Weighted, Index, ToQ31;
    CellCorners(g, x, y);
    var x1, x2 := Corner(g, x, y, 0, 0), Corner(g, x, y, 1, 0);
    var y1, y2 := Corner(g, x, y, 0, 1), Corner(g, x, y, 1, 1);
    var m, n := Fraction(x), Fraction(y);
    MixQ31Shift(x1, x2, y1, y2, m, n);
    MixQ31Near(x1, x2, y1, y2, m, n, LowestCorner(g, x, y), HighestCorner(g, x, y));
    SumBelow(x1, x2, y1, y2, m, n);
    WrappedCast(4 * Sum(x1, x2, y1, y2, m, n));
  }

  lemma WrappedCast(x: int)
    requires Q31_MIN - 24 <= x <= Q31_MAX
    ensures x < Q31_MIN ==> ToQ31(x) == x + TWO_32
  {
  }

  /** arm_bilinear_interp_q31 on any cell of the table. When the swapped check rejects it: zero. Otherwise it is near the
      documented formula exactly when the shifted sum fits, and then near the hull of its corners; where it does not
      fit, the documented value lies within 24 units of -1.0 and the result within 25 of +1.0. It fits at all fractions
      when the four corners are safe. */
  lemma BilinearQ31OnCell(g: Grid, x: int, y: int)
    requires Cell(g, x, y) && AllQ31(g.data)
    ensures ReadsInside(g, x, y)
    ensures !Accepted(g, x, y) ==> BilinearQ31(g, x, y) == 0
    ensures Accepted(g, x, y) ==> (NearFormulaQ31(BilinearQ31(g, x, y), InterpolatedQ31(g, x, y)) <==> ShiftFits(g, x, y))
    ensures Accepted(g, x, y) && ShiftFits(g, x, y) ==>
      LowestCorner(g, x, y) - 24 <= BilinearQ31(g, x, y) <= HighestCorner(g, x, y) + 2
    ensures Accepted(g, x, y) && !ShiftFits(g, x, y) ==>
      InterpolatedQ31(g, x, y) < (Q31_MIN + 24) * (TWO_31 * TWO_31) && BilinearQ31(g, x, y) >= Q31_MAX - 24
    ensures LowestCorner(g, x, y) >= SAFE ==> ShiftFits(g, x, y)
  {
    hide BilinearQ31, InterpolatedQ31, Sum, Index;
    CellCorners(g, x, y);
    if Accepted(g, x, y) { CellMix(g, x, y); } else { RejectedIsZero(g, x, y); }
    if LowestCorner(g, x, y) >= SAFE {
      SafeCorners(CellCorner(g, x, y, 0, 0), CellCorner(g, x, y, 1, 0), CellCorner(g, x, y, 0, 1), CellCorner(g, x, y, 1, 1));
      assert Steps(Fraction(x), Fraction(y));
    }
  }

  lemma RejectedIsZero(g: Grid, x: int, y: int)
    requires Cell(g, x, y) && !Accepted(g, x, y)
    ensures Rejected(g, x, y) && BilinearQ31(g, x, y) == 0
  {
  }

  /** The point is answered with zero, whatever the data. */
  ghost predicate AnswersZeroQ31(rows: nat, cols: nat, x: int, y: int) {
    forall data: seq<int> :: |data| == rows * cols && AllQ31(data) ==>
      Rejected(Grid(rows, cols, data), x, y)
      || (ReadsInside(Grid(rows, cols, data), x, y) && BilinearQ31(Grid(rows, cols, data), x, y) == 0)
  }

  /** It is so exactly for the points that the check rejects, as in the narrower formats. */
  lemma AnswersZeroIffQ31(rows: nat, cols: nat, x: int, y: int)
    ensures AnswersZeroQ31(rows, cols, x, y) <==> RejectedBySize(rows, cols, x, y)
  {
    hide Index, BilinearQ31, ReadsInside;
    NonNegative(rows, cols);
    var g := Grid(rows, cols, Constant(rows * cols, 1000));
    if !RejectedBySize(rows, cols, x, y) && ReadsInside(g, x, y) {
      AcceptedIsNotZeroQ31(g, x, y);
    }
  }

  lemma AcceptedIsNotZeroQ31(g: Grid, x: int, y: int)
    requires !Rejected(g, x, y) && ReadsInside(g, x, y) && forall i :: 0 <= i < |g.data| ==> g.data[i] == 1000
    ensures 976 <= BilinearQ31(g, x, y) <= 1002
  {
    hide MixQ31, Sum, Index, Weighted, ToQ31;
    var m, n := Fraction(x), Fraction(y);
    assert Corner(g, x, y, 0, 0) == 1000 && Corner(g, x, y, 1, 0) == 1000;
    assert Corner(g, x, y, 0, 1) == 1000 && Corner(g, x, y, 1, 1) == 1000;
    MixQ31Shift(1000, 1000, 1000, 1000, m, n);
    MixQ31Near(1000, 1000, 1000, 1000, m, n, 1000, 1000);
  }

  /** A constant table of -1.0 is answered with a value just below +1.0. */
  lemma FullScaleWraps()
    ensures var v := Q31_MIN; var g := Grid(2, 2, [v, v, v, v]);
      Cell(g, 1, 1) && BilinearQ31(g, 1, 1) == 0x7FFF_FFFC
  {
    hide MixQ31, Sum;
    var v := Q31_MIN;
    var g := Grid(2, 2, [v, v, v, v]);
    assert Index(1) == 0 && Fraction(1) == 1;
    CellCorners(g, 1, 1);
    MixQ31Shift(v, v, v, v, 1, 1);
    FullScaleSum();
  }

  lemma FullScaleSum()
    ensures var v := Q31_MIN; Sum(v, v, v, v, 1, 1) == -0x2000_0001
  {
    hide Cut;
    CutIs(Q31_MIN, 2147481599, -1073740800);
    CutIs(Q31_MIN, 2048, -1024);
    CutIs(-1073740800, 2147481599, -536869888);
    CutIs(-1073740800, 2048, -512);
    CutIs(-1024, 2048, -1);
  }
}
