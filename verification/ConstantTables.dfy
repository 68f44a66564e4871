/** Which constant tables the bilinear functions of arm_math.h reproduce at every point. "One" is one unit short, Q15 also
    drops four bits of each first product, and Q31 cuts every product twice. */
module ConstantTables {
  import opened Arithmetic
  import opened Bits
  import opened FixedPoint
  import opened Interpolation
  import opened Bilinear
  import opened Full = BilinearQ31

  predicate AllEqual(data: seq<int>, v: int) { forall i :: 0 <= i < |data| ==> data[i] == v }

  /** A point that the check accepts and whose four values lie in the data, which are all `v`. */
  predicate ReadsConstant(g: Grid, x: int, y: int, v: int) {
    !Rejected(g, x, y) && ReadsInside(g, x, y) && AllEqual(g.data, v)
  }

  ghost predicate ReproducesQ7(v: int) {
    forall g, x, y :: ReadsConstant(g, x, y, v) ==> BilinearQ7(g, x, y) == v
  }

  ghost predicate ReproducesQ15(v: int) {
    forall g, x, y :: ReadsConstant(g, x, y, v) ==> BilinearQ15(g, x, y) == v
  }

  ghost predicate ReproducesQ31(v: int) {
    forall g, x, y :: ReadsConstant(g, x, y, v) ==> BilinearQ31(g, x, y) == v
  }

  lemma ConstantPoint(g: Grid, x: int, y: int, v: int)
    requires ReadsConstant(g, x, y, v)
    ensures Fractions(Fraction(x), Fraction(y))
    ensures BilinearQ7(g, x, y) == MixQ7(v, v, v, v, Fraction(x), Fraction(y))
    ensures BilinearQ15(g, x, y) == MixQ15(v, v, v, v, Fraction(x), Fraction(y))
    ensures BilinearQ31(g, x, y) == MixQ31(v, v, v, v, Fraction(x), Fraction(y))
  {
    hide MixQ7, MixQ15, MixQ31, Index;
    assert Corner(g, x, y, 0, 0) == v && Corner(g, x, y, 1, 0) == v;
    assert Corner(g, x, y, 0, 1) == v && Corner(g, x, y, 1, 1) == v;
  }

  /** Every pair of fractions occurs, in a table of two rows and two columns. */
  lemma FractionsOccur(v: int, xf: int, yf: int) returns (g: Grid)
    requires Fractions(xf, yf)
    ensures ReadsConstant(g, xf, yf, v) && Fraction(xf) == xf && Fraction(yf) == yf
  {
    g := Grid(2, 2, Constant(4, v));
    IndexValue(xf);
    IndexValue(yf);
    assert Index(xf) == 0 && Index(yf) == 0;
  }

  // ---------- Q7 ----------

  lemma MixQ7OfConstant(v: int, xf: int, yf: int)
    requires Fractions(xf, yf) && IsQ7(v)
    ensures MixQ7(v, v, v, v, xf, yf) == if v > 0 then v - 1 else v
  {
    hide MixQ7, Weighted, ToQ7;
    MixQ7Exact(v, v, v, v, xf, yf);
    FourWeights(TOP, v, v, v, v, xf, yf, v, v);
    assert v * (TOP * TOP) / 0x100_0000_0000 == if v > 0 then v - 1 else v;
  }

  /** arm_bilinear_interp_q7 reproduces exactly the constants up to zero; every positive one reads one lower at every
      point. */
  lemma ConstantQ7Iff(v: int)
    requires IsQ7(v)
    ensures ReproducesQ7(v) <==> v <= 0
    ensures forall g, x, y :: v > 0 && ReadsConstant(g, x, y, v) ==> BilinearQ7(g, x, y) == v - 1
  {
    hide BilinearQ7, MixQ7, Index, ReadsInside;
    forall g, x, y | ReadsConstant(g, x, y, v)
      ensures BilinearQ7(g, x, y) == if v > 0 then v - 1 else v
    {
      ConstantPoint(g, x, y, v);
      MixQ7OfConstant(v, Fraction(x), Fraction(y));
    }
    var g := FractionsOccur(v, 0, 0);
    assert ReadsConstant(g, 0, 0, v);
  }

  // ---------- Q15 ----------

  /** What the four dropped bits take away, in units of 2^-4. */
  function Dropped(v: int, xf: int, yf: int): int {
    v * (TOP - xf) % 16 * TOP + v * (TOP - yf) % 16 * xf + v * xf % 16 * yf
  }

  lemma ConstantSum(v: int, xf: int, yf: int)
    ensures 16 * SumQ15(v, v, v, v, xf, yf) == v * (TOP * TOP) - Dropped(v, xf, yf)
  {
    var p, q, s := v * (TOP - xf), v * (TOP - yf), v * xf;
    SplitSum(p / 16, q / 16, s / 16, p % 16, q % 16, s % 16, xf, yf);
    assert p == 16 * (p / 16) + p % 16 && q == 16 * (q / 16) + q % 16 && s == 16 * (s / 16) + s % 16;
    WholeSum(v, xf, yf);
  }

  lemma SplitSum(p: int, q: int, s: int, a: int, b: int, c: int, xf: int, yf: int)
    ensures 16 * (p * (TOP - yf) + q * xf + p * yf + s * yf) ==
      (16 * p + a) * TOP + (16 * q + b) * xf + (16 * s + c) * yf - (a * TOP + b * xf + c * yf)
  {
    Distribute(p, TOP - yf, yf);
    assert (16 * q + b) * xf == 16 * (q * xf) + b * xf;
    assert (16 * s + c) * yf == 16 * (s * yf) + c * yf;
  }

  lemma WholeSum(v: int, xf: int, yf: int)
    ensures v * (TOP - xf) * TOP + v * (TOP - yf) * xf + v * xf * yf == v * (TOP * TOP)
  {
    Distribute(v, TOP, xf);
    Distribute(v, TOP, yf);
    assert v * (TOP - yf) * xf == v * TOP * xf - v * yf * xf;
    Regroup(v, yf, xf);
    Regroup(v, xf, yf);
    assert v * TOP * xf == v * xf * TOP;
  }

  /** The value is `v` exactly when what is dropped does not exceed what "one" leaves to a negative constant. */
  lemma MixQ15OfConstant(v: int, xf: int, yf: int)
    requires Fractions(xf, yf) && IsQ15(v)
    ensures MixQ15(v, v, v, v, xf, yf) == v <==> Dropped(v, xf, yf) <= -v * (2 * TOP + 1)
  {
    hide MixQ15, SumQ15, ToQ15, Dropped;
    MixQ15Exact(v, v, v, v, xf, yf);
    ConstantSum(v, xf, yf);
    DroppedRange(v, xf, yf);
    QuotientOfConstant(v, SumQ15(v, v, v, v, xf, yf), Dropped(v, xf, yf));
  }

  lemma QuotientOfConstant(v: int, acc: int, d: int)
    requires IsQ15(v) && 0 <= d <= 45 * TOP && 16 * acc == v * (TOP * TOP) - d
    ensures ToQ15(acc / 0x10_0000_0000) == v <==> d <= -v * (2 * TOP + 1)
  {
    var x := acc / 0x10_0000_0000;
    assert x == v <==> d <= -v * (2 * TOP + 1);
    assert IsQ15(x);
  }

  lemma DroppedRange(v: int, xf: int, yf: int)
    requires Fractions(xf, yf)
    ensures 0 <= Dropped(v, xf, yf) <= (v * (TOP - xf) % 16 + v * (TOP - yf) % 16 + v * xf % 16) * TOP <= 45 * TOP
  {
    var a, b, c := v * (TOP - xf) % 16, v * (TOP - yf) % 16, v * xf % 16;
    NonNegative(b, xf);
    NonNegative(c, yf);
    Between(b, xf, TOP);
    Between(c, yf, TOP);
  }

  /** The first and the third residue add up to the residue of -v, or to 16 more. */
  lemma ResiduePair(v: int, xf: int)
    ensures (v * (TOP - xf) % 16 + v * xf % 16) % 16 == -v % 16
  {
    Distribute(v, TOP, xf);
    PairOfResidues(v, v * (TOP - xf), v * xf);
  }

  lemma PairOfResidues(v: int, p: int, s: int)
    requires p == v * TOP - s
    ensures (p % 16 + s % 16) % 16 == -v % 16
  {
    var r := p % 16 + s % 16;
    assert r == -v + 16 * (v * 0x1_0000 - p / 16 - s / 16);
    DivModUnique(r, 16, v * 0x1_0000 - p / 16 - s / 16 + -v / 16, -v % 16);
  }

  /** From -14 on down, and for 0, -8 and -12, the residues are small enough at all fractions. */
  lemma ResiduesSmall(v: int, xf: int, yf: int)
    requires v == 0 || v == -8 || v == -12 || v <= -14
    ensures v * (TOP - xf) % 16 + v * (TOP - yf) % 16 + v * xf % 16 <= -2 * v
  {
    ResiduePair(v, xf);
    var d := if v == -8 then 8 else if v == -12 then 4 else if v == -14 then 2 else 1;
    SmallResidues(v, d, TOP - xf);
    SmallResidues(v, d, TOP - yf);
    SmallResidues(v, d, xf);
    if v == 0 { assert 0 * xf == 0 && 0 * (TOP - xf) == 0 && 0 * (TOP - yf) == 0; }
    ResidueBound(v, d, v * (TOP - xf) % 16, v * (TOP - yf) % 16, v * xf % 16);
  }

  lemma ResidueBound(v: int, d: int, a: int, b: int, c: int)
    requires (v == -8 && d == 8) || (v == -12 && d == 4) || (v == -14 && d == 2)
      || ((v <= -15 || (v == 0 && a == b == c == 0)) && d == 1)
    requires 0 <= a <= 16 - d && 0 <= b <= 16 - d && 0 <= c <= 16 - d && a % d == 0 && b % d == 0 && c % d == 0
    requires (a + c) % 16 == -v % 16
    ensures a + b + c <= -2 * v
  {
  }

  /** The residues of multiples of 8, 4 and 2 are such multiples too. */
  lemma SmallResidues(v: int, d: int, w: int)
    requires (d == 8 && v == -8) || (d == 4 && v == -12) || (d == 2 && v == -14) || d == 1
    ensures v * w % 16 % d == 0 && v * w % 16 <= 16 - d
  {
    if d == 1 {
    } else if d == 8 {
      assert v * w == -8 * w;
      ResidueOfEight(w);
    } else if d == 4 {
      assert v * w == -12 * w;
      ResidueOfTwelve(w);
    } else {
      assert v * w == -14 * w;
      ResidueOfFourteen(w);
    }
  }

  lemma ResidueOfEight(w: int)
    ensures -8 * w % 16 % 8 == 0 && -8 * w % 16 <= 8
  {
  }

  lemma ResidueOfTwelve(w: int)
    ensures -12 * w % 16 % 4 == 0 && -12 * w % 16 <= 12
  {
  }

  lemma ResidueOfFourteen(w: int)
    ensures -14 * w % 16 % 2 == 0 && -14 * w % 16 <= 14
  {
  }

  /** For the other constants from -1 to -13, a pair of fractions at which too much is dropped. */
  function BadStep(v: int): int {
    if v == -9 || v == -10 then 2 else if v == -11 then 3 else if v == -13 then 5 else 1
  }

  lemma TooMuchDropped(v: int)
    requires -13 <= v < 0 && v != -8 && v != -12
    ensures Dropped(v, TOP, TOP - BadStep(v)) > -v * (2 * TOP + 1)
  {
  }

  lemma LittleDropped(v: int, xf: int, yf: int)
    requires Fractions(xf, yf) && (v == 0 || v == -8 || v == -12 || v <= -14)
    ensures Dropped(v, xf, yf) <= -v * (2 * TOP + 1)
  {
    hide Dropped;
    ResiduesSmall(v, xf, yf);
    DroppedRange(v, xf, yf);
    ScaledResidues(v, v * (TOP - xf) % 16 + v * (TOP - yf) % 16 + v * xf % 16);
  }

  lemma ScaledResidues(v: int, r: int)
    requires v <= 0 && r <= -2 * v
    ensures r * TOP <= -v * (2 * TOP + 1)
  {
  }

  /** The constants that arm_bilinear_interp_q15 reproduces. */
  predicate KeptQ15(v: int) { v == 0 || v == -8 || v == -12 || v <= -14 }

  /** The others are changed at the fractions TOP and TOP - BadStep. */
  lemma ChangedQ15(v: int)
    requires IsQ15(v) && !KeptQ15(v)
    ensures MixQ15(v, v, v, v, TOP, TOP - BadStep(v)) != v
  {
    hide MixQ15, Dropped;
    if v < 0 { TooMuchDropped(v); } else { DroppedRange(v, TOP, TOP - BadStep(v)); }
    MixQ15OfConstant(v, TOP, TOP - BadStep(v));
  }

  /** arm_bilinear_interp_q15 reproduces exactly the constants 0, -8, -12 and those from -14 on down. */
  lemma ConstantQ15Iff(v: int)
    requires IsQ15(v)
    ensures ReproducesQ15(v) <==> v == 0 || v == -8 || v == -12 || v <= -14
  {
    hide BilinearQ15, MixQ15, Dropped, Index, ReadsInside;
    if KeptQ15(v) {
      forall g, x, y | ReadsConstant(g, x, y, v)
        ensures BilinearQ15(g, x, y) == v
      {
        ConstantPoint(g, x, y, v);
        LittleDropped(v, Fraction(x), Fraction(y));
        MixQ15OfConstant(v, Fraction(x), Fraction(y));
      }
    } else {
      var yf := TOP - BadStep(v);
      var g := FractionsOccur(v, TOP, yf);
      ConstantPoint(g, TOP, yf, v);
      ChangedQ15(v);
      assert BilinearQ15(g, TOP, yf) != v;
    }
  }

  // ---------- Q31 ----------

  /** At the smallest fractions the fourth product loses almost a whole unit of the sum. */
  lemma FourthLoses(v: int)
    requires IsQ31(v) && v < 0
    ensures Cut(Cut(v, 0x800), 0x800) == -1
  {
    assert -0x400 <= Cut(v, 0x800) <= -1;
  }

  /** For a negative constant the sum at the smallest fractions is too low. */
  lemma SumTooLow(v: int)
    requires IsQ31(v) && v < 0
    ensures 4 * Sum(v, v, v, v, 1, 1) < v
  {
    hide Cut;
    CutTwiceNear(v, TOP31 - 0x800, TOP31 - 0x800);
    CutTwiceNear(v, TOP31 - 0x800, 0x800);
    FourthLoses(v);
  }

  /** Any other constant is changed: a negative one at the smallest fractions, a positive one at fraction zero. */
  lemma ChangedQ31(v: int, f: int)
    requires IsQ31(v) && v != 0 && f == if v < 0 then 1 else 0
    ensures MixQ31(v, v, v, v, f, f) != v
  {
    hide MixQ31, Sum, ToQ31, Weighted;
    MixQ31Shift(v, v, v, v, f, f);
    MixQ31Near(v, v, v, v, f, f, v, v);
    if v < 0 { SumTooLow(v); } else { SumBelowPositive(v); }
    ShiftedCast(4 * Sum(v, v, v, v, f, f), v);
  }

  lemma SumBelowPositive(v: int)
    requires IsQ31(v) && v > 0
    ensures 4 * Sum(v, v, v, v, 0, 0) < v
  {
    hide Sum, Weighted;
    SumNear(v, v, v, v, 0, 0);
    FourWeights(TOP31, v, v, v, v, 0, 0, v, v);
  }

  /** arm_bilinear_interp_q31 reproduces no constant but zero. */
  lemma ConstantQ31Iff(v: int)
    requires IsQ31(v)
    ensures ReproducesQ31(v) <==> v == 0
  {
    hide BilinearQ31, MixQ31, Index, ReadsInside;
    if v == 0 {
      forall g, x, y | ReadsConstant(g, x, y, v)
        ensures BilinearQ31(g, x, y) == v
      {
        ConstantPoint(g, x, y, v);
        ZeroQ31(Fraction(x), Fraction(y));
      }
    } else {
      var f := if v < 0 then 1 else 0;
      var g := FractionsOccur(v, f, f);
      ConstantPoint(g, f, f, v);
      ChangedQ31(v, f);
      assert BilinearQ31(g, f, f) != v;
    }
  }

  lemma ZeroQ31(m: int, n: int)
    requires Steps(m, n)
    ensures MixQ31(0, 0, 0, 0, m, n) == 0
  {
    hide MixQ31, Sum;
    MixQ31Shift(0, 0, 0, 0, m, n);
    SumOfZeros(m, n);
  }

  lemma ShiftedCast(x: int, v: int)
    requires IsQ31(v) && v - 24 <= x < v
    ensures ToQ31(x) != v
  {
  }

  lemma SumOfZeros(m: int, n: int)
    requires Steps(m, n)
    ensures Sum(0, 0, 0, 0, m, n) == 0
  {
    hide Cut;
    CutIs(0, TOP31 - m * 0x800, 0);
    CutIs(0, TOP31 - n * 0x800, 0);
    CutIs(0, m * 0x800, 0);
    CutIs(0, n * 0x800, 0);
  }

  /** For instance, a constant table of 5 reads 4 in Q15 and in Q7. */
  lemma ConstantTableReadsLow()
    ensures var g := Grid(2, 2, [5, 5, 5, 5]); Cell(g, 0, 0) && BilinearQ15(g, 0, 0) == 4 && BilinearQ7(g, 0, 0) == 4
  {
    hide MixQ7, MixQ15, SumQ15, Weighted;
    var g := Grid(2, 2, [5, 5, 5, 5]);
    assert Index(0) == 0 && Fraction(0) == 0;
    ConstantPoint(g, 0, 0, 5);
    MixQ7OfConstant(5, 0, 0);
    MixQ15OfConstant(5, 0, 0);
    MixQ15Hull(5, 5, 5, 5, 0, 0, 5, 5);
  }
}
