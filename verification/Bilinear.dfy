/** Bilinear interpolation of arm_math.h in Q15 and Q7. Coordinates are in 12.20 format. */
module Bilinear {
  import opened Arithmetic
  import opened FixedPoint
  import opened Interpolation

  /** The instance structure: table size and values. The sizes have 16 bits, so index arithmetic does not wrap. */
  datatype Grid = Grid(rows: nat, cols: nat, data: seq<int>)

  // ---------- the table as documented ----------

  /** The table is documented to hold rows * cols values, element (i, j) at i + j * cols. */
  predicate Shaped(g: Grid) { |g.data| == g.rows * g.cols }

  lemma InTable(i: int, j: int, rows: int, cols: int)
    requires 0 <= i < cols && 0 <= j < rows
    ensures 0 <= i + j * cols < rows * cols
  {
    NonNegative(j, cols);
    Between(cols, j + 1, rows);
    Distribute(cols, j, 1);
  }

  function Element(g: Grid, i: int, j: int): int
    requires Shaped(g) && 0 <= i < g.cols && 0 <= j < g.rows
  {
    InTable(i, j, g.rows, g.cols);
    g.data[i + j * g.cols]
  }

  /** The point lies in a cell of the table: its four corners are elements. */
  predicate Cell(g: Grid, x: int, y: int) {
    Shaped(g) && 0 <= Index(x) && Index(x) + 1 < g.cols && 0 <= Index(y) && Index(y) + 1 < g.rows
  }

  /** The corner `dx` to the right and `dy` below. */
  function CellCorner(g: Grid, x: int, y: int, dx: nat, dy: nat): int
    requires Cell(g, x, y) && dx <= 1 && dy <= 1
  {
    Element(g, Index(x) + dx, Index(y) + dy)
  }

  function LowestCorner(g: Grid, x: int, y: int): int
    requires Cell(g, x, y)
  {
    Min(Min(CellCorner(g, x, y, 0, 0), CellCorner(g, x, y, 1, 0)), Min(CellCorner(g, x, y, 0, 1), CellCorner(g, x, y, 1, 1)))
  }

  function HighestCorner(g: Grid, x: int, y: int): int
    requires Cell(g, x, y)
  {
    Max(Max(CellCorner(g, x, y, 0, 0), CellCorner(g, x, y, 1, 0)), Max(CellCorner(g, x, y, 0, 1), CellCorner(g, x, y, 1, 1)))
  }

  /** The bilinear weights on four values, with fractions in units of which `one` make one. */
  function Weighted(one: int, x1: int, x2: int, y1: int, y2: int, xf: int, yf: int): int {
    x1 * ((one - xf) * (one - yf)) + x2 * ((one - yf) * xf) + y1 * ((one - xf) * yf) + y2 * (xf * yf)
  }

  /** The documented interpolation formula, 2^40 times. */
  function Interpolated(g: Grid, x: int, y: int): int
    requires Cell(g, x, y)
  {
    Weighted(UNIT, CellCorner(g, x, y, 0, 0), CellCorner(g, x, y, 1, 0), CellCorner(g, x, y, 0, 1), CellCorner(g, x, y, 1, 1),
            Fraction(x), Fraction(y))
  }

  // ---------- the code ----------

  /** The bounds check: the index along a row is compared with the number of rows, the other with that of columns. */
  predicate Rejected(g: Grid, x: int, y: int) {
    Index(x) < 0 || Index(x) > g.rows - 1 || Index(y) < 0 || Index(y) > g.cols - 1
  }

  /** The four values that the code reads lie within the data. */
  predicate ReadsInside(g: Grid, x: int, y: int) {
    0 <= Index(x) && 0 <= g.cols * Index(y) && Index(x) + g.cols * (Index(y) + 1) + 1 < |g.data|
  }

  function Corner(g: Grid, x: int, y: int, dx: nat, dy: nat): int
    requires ReadsInside(g, x, y) && dx <= 1 && dy <= 1
  {
    Distribute(g.cols, Index(y), 1);
    assert dy == 0 ==> g.cols * (Index(y) + dy) == g.cols * Index(y);
    g.data[Index(x) + g.cols * (Index(y) + dy) + dx]
  }

  function BilinearQ15(g: Grid, x: int, y: int): int
    requires Rejected(g, x, y) || ReadsInside(g, x, y)
  {
    if Rejected(g, x, y) then 0
    else MixQ15(Corner(g, x, y, 0, 0), Corner(g, x, y, 1, 0), Corner(g, x, y, 0, 1), Corner(g, x, y, 1, 1),
                Fraction(x), Fraction(y))
  }

  function BilinearQ7(g: Grid, x: int, y: int): int
    requires Rejected(g, x, y) || ReadsInside(g, x, y)
  {
    if Rejected(g, x, y) then 0
    else MixQ7(Corner(g, x, y, 0, 0), Corner(g, x, y, 1, 0), Corner(g, x, y, 0, 1), Corner(g, x, y, 1, 1),
               Fraction(x), Fraction(y))
  }

  /** The Q15 arithmetic: each first product is cut to 32 bits after dropping four bits; the sum has 64 bits. */
  function MixQ15(x1: int, x2: int, y1: int, y2: int, xf: int, yf: int): int {
    var acc := ToQ63(ToQ31(x1 * (TOP - xf) / 16) * (TOP - yf));
    var acc := ToQ63(acc + ToQ63(ToQ31(x2 * (TOP - yf) / 16) * xf));
    var acc := ToQ63(acc + ToQ63(ToQ31(y1 * (TOP - xf) / 16) * yf));
    var acc := ToQ63(acc + ToQ63(ToQ31(y2 * xf / 16) * yf));
    ToQ15(acc / 0x10_0000_0000)
  }

  /** The Q7 arithmetic: 32-bit products, then 64-bit ones. */
  function MixQ7(x1: int, x2: int, y1: int, y2: int, xf: int, yf: int): int {
    var acc := ToQ63(ToQ31(x1 * (TOP - xf)) * (TOP - yf));
    var acc := ToQ63(acc + ToQ63(ToQ31(x2 * (TOP - yf)) * xf));
    var acc := ToQ63(acc + ToQ63(ToQ31(y1 * (TOP - xf)) * yf));
    var acc := ToQ63(acc + ToQ63(ToQ31(y2 * yf) * xf));
    ToQ7(acc / 0x100_0000_0000)
  }

  // ---------- no cast loses a value ----------

  lemma SecondProduct(p: int, w: int)
    requires IsQ31(p) && 0 <= w <= TOP
    ensures -0x8_0000_0000_0000 <= p * w <= 0x8_0000_0000_0000
  {
    TwoWeights(p, 0, w, 0, Q31_MIN, Q31_MAX);
  }

  /** Four products of a 32-bit value and a weight: no 64-bit product or sum overflows. */
  lemma SumFits(p1: int, p2: int, p3: int, p4: int, w1: int, w2: int, w3: int, w4: int)
    requires IsQ31(p1) && IsQ31(p2) && IsQ31(p3) && IsQ31(p4)
    requires 0 <= w1 <= TOP && 0 <= w2 <= TOP && 0 <= w3 <= TOP && 0 <= w4 <= TOP
    ensures IsQ63(p1 * w1) && IsQ63(p2 * w2) && IsQ63(p3 * w3) && IsQ63(p4 * w4)
    ensures IsQ63(p1 * w1 + p2 * w2) && IsQ63(p1 * w1 + p2 * w2 + p3 * w3)
    ensures IsQ63(p1 * w1 + p2 * w2 + p3 * w3 + p4 * w4)
  {
    SecondProduct(p1, w1);
    SecondProduct(p2, w2);
    SecondProduct(p3, w3);
    SecondProduct(p4, w4);
  }

  lemma FirstProduct(a: int, w: int)
    requires IsQ15(a) && 0 <= w <= TOP
    ensures IsQ31(a * w / 16)
    ensures IsQ7(a) ==> IsQ31(a * w)
  {
    TwoWeights(a, 0, w, 0, -0x8000, 0x7FFF);
    if IsQ7(a) { TwoWeights(a, 0, w, 0, -0x80, 0x7F); }
  }

  predicate Fractions(xf: int, yf: int) { 0 <= xf <= TOP && 0 <= yf <= TOP }

  /** The Q15 sum without any cast. */
  function SumQ15(x1: int, x2: int, y1: int, y2: int, xf: int, yf: int): int {
    x1 * (TOP - xf) / 16 * (TOP - yf) + x2 * (TOP - yf) / 16 * xf + y1 * (TOP - xf) / 16 * yf + y2 * xf / 16 * yf
  }

  /** Every 32-bit and 64-bit cast of the Q15 arithmetic is exact. */
  lemma MixQ15Exact(x1: int, x2: int, y1: int, y2: int, xf: int, yf: int)
    requires Fractions(xf, yf) && IsQ15(x1) && IsQ15(x2) && IsQ15(y1) && IsQ15(y2)
    ensures MixQ15(x1, x2, y1, y2, xf, yf) == ToQ15(SumQ15(x1, x2, y1, y2, xf, yf) / 0x10_0000_0000)
  {
    hide ToQ31, ToQ63, ToQ15;
    FirstProduct(x1, TOP - xf);
    FirstProduct(x2, TOP - yf);
    FirstProduct(y1, TOP - xf);
    FirstProduct(y2, xf);
    SumFits(x1 * (TOP - xf) / 16, x2 * (TOP - yf) / 16, y1 * (TOP - xf) / 16, y2 * xf / 16, TOP - yf, xf, yf, yf);
  }

  /** Every 32-bit and 64-bit cast of the Q7 arithmetic is exact. */
  lemma MixQ7Exact(x1: int, x2: int, y1: int, y2: int, xf: int, yf: int)
    requires Fractions(xf, yf) && IsQ7(x1) && IsQ7(x2) && IsQ7(y1) && IsQ7(y2)
    ensures MixQ7(x1, x2, y1, y2, xf, yf) == ToQ7(Weighted(TOP, x1, x2, y1, y2, xf, yf) / 0x100_0000_0000)
  {
    hide ToQ31, ToQ63, ToQ7;
    FirstProduct(x1, TOP - xf);
    FirstProduct(x2, TOP - yf);
    FirstProduct(y1, TOP - xf);
    FirstProduct(y2, yf);
    SumFits(x1 * (TOP - xf), x2 * (TOP - yf), y1 * (TOP - xf), y2 * yf, TOP - yf, xf, yf, xf);
    Regroup(x1, TOP - xf, TOP - yf);
    Regroup(x2, TOP - yf, xf);
    Regroup(y1, TOP - xf, yf);
    Regroup(y2, yf, xf);
  }

  // ---------- the weights ----------

  lemma ProductOfSums(u: int, x: int, v: int, y: int)
    ensures u * v + v * x + u * y + x * y == (u + x) * (v + y)
  {
  }

  lemma WeightsSum(one: int, xf: int, yf: int)
    requires 0 <= xf <= one && 0 <= yf <= one
    ensures (one - xf) * (one - yf) >= 0 && (one - yf) * xf >= 0 && (one - xf) * yf >= 0 && xf * yf >= 0
    ensures (one - xf) * (one - yf) + (one - yf) * xf + (one - xf) * yf + xf * yf == one * one
  {
    NonNegative(one - xf, one - yf);
    NonNegative(one - yf, xf);
    NonNegative(one - xf, yf);
    NonNegative(xf, yf);
    ProductOfSums(one - xf, xf, one - yf, yf);
  }

  predicate Bounds(x1: int, x2: int, y1: int, y2: int, low: int, high: int) {
    low <= x1 <= high && low <= x2 <= high && low <= y1 <= high && low <= y2 <= high
  }

  lemma FourWeights(one: int, x1: int, x2: int, y1: int, y2: int, xf: int, yf: int, low: int, high: int)
    requires 0 <= xf <= one && 0 <= yf <= one && Bounds(x1, x2, y1, y2, low, high)
    ensures low * (one * one) <= Weighted(one, x1, x2, y1, y2, xf, yf) <= high * (one * one)
  {
    WeightsSum(one, xf, yf);
    var a, b, c, d := (one - xf) * (one - yf), (one - yf) * xf, (one - xf) * yf, xf * yf;
    TwoWeights(x1, x2, a, b, low, high);
    TwoWeights(y1, y2, c, d, low, high);
    Distribute(low, a + b, c + d);
    Distribute(high, a + b, c + d);
  }

  /** What one more unit in "one" adds to the weights: 2 * one + 1 in all, none of it negative. */
  lemma MissingWeight(one: int, x1: int, x2: int, y1: int, y2: int, xf: int, yf: int, low: int, high: int)
    requires 0 <= xf <= one && 0 <= yf <= one && Bounds(x1, x2, y1, y2, low, high)
    ensures low * (2 * one + 1) <=
      Weighted(one + 1, x1, x2, y1, y2, xf, yf) - Weighted(one, x1, x2, y1, y2, xf, yf) <= high * (2 * one + 1)
  {
    var a, b := one - xf, one - yf;
    OneMore(x1, a, b);
    assert x2 * ((b + 1) * xf) == x2 * (b * xf) + x2 * xf by { Distribute(xf, b, 1); Distribute(x2, b * xf, xf); }
    assert y1 * ((a + 1) * yf) == y1 * (a * yf) + y1 * yf by { Distribute(yf, a, 1); Distribute(y1, a * yf, yf); }
    TwoWeights(x1, x2, a + b + 1, xf, low, high);
    TwoWeights(y1, y1, yf, 0, low, high);
    Distribute(low, a + b + 1 + xf, yf);
    Distribute(high, a + b + 1 + xf, yf);
  }

  lemma OneMore(x: int, a: int, b: int)
    ensures x * ((a + 1) * (b + 1)) == x * (a * b) + x * (a + b + 1)
  {
    assert (a + 1) * (b + 1) == a * b + (a + b + 1);
    Distribute(x, a * b, a + b + 1);
  }

  /** floor(u / 16) * w, sixteen times, falls short of u * w by at most 15 * w. */
  lemma Shortfall(u: int, w: int)
    requires 0 <= w
    ensures u * w - 15 * w <= 16 * (u / 16 * w) <= u * w
  {
    var q, r := u / 16, u % 16;
    Distribute(w, 16 * q, r);
    Regroup(16, q, w);
    NonNegative(w, r);
    Between(w, r, 15);
  }

  /** The four truncated products against the exact weighted sum. */
  lemma TruncatedSum(x1: int, x2: int, y1: int, y2: int, xf: int, yf: int)
    requires Fractions(xf, yf)
    ensures Weighted(TOP, x1, x2, y1, y2, xf, yf) - 45 * TOP <= 16 * SumQ15(x1, x2, y1, y2, xf, yf) <= Weighted(TOP, x1, x2, y1, y2, xf, yf)
  {
    Shortfall(x1 * (TOP - xf), TOP - yf);
    Shortfall(x2 * (TOP - yf), xf);
    Shortfall(y1 * (TOP - xf), yf);
    Shortfall(y2 * xf, yf);
    Regroup(x1, TOP - xf, TOP - yf);
    Regroup(x2, TOP - yf, xf);
    Regroup(y1, TOP - xf, yf);
    Regroup(y2, xf, yf);
  }

  /** The division: the hull of the corners, widened by one below, but not below the range of the format. */
  lemma HullOfSum(acc: int, low: int, high: int)
    requires -0x8000 <= low <= high <= 0x7FFF
    requires low * (TOP * TOP) - 45 * TOP <= acc <= high * (TOP * TOP)
    ensures low - 1 <= acc / 0x100_0000_0000 <= high
    ensures low <= -0x80 ==> low <= acc / 0x100_0000_0000
  {
  }

  lemma MixQ15Hull(x1: int, x2: int, y1: int, y2: int, xf: int, yf: int, low: int, high: int)
    requires Fractions(xf, yf) && -0x8000 <= low <= high <= 0x7FFF && Bounds(x1, x2, y1, y2, low, high)
    ensures low - 1 <= MixQ15(x1, x2, y1, y2, xf, yf) <= high
    ensures NearFormula(MixQ15(x1, x2, y1, y2, xf, yf), Weighted(UNIT, x1, x2, y1, y2, xf, yf), 0x10_0000_0000, 0x400_0000)
  {
    hide Weighted, SumQ15, MixQ15, ToQ15;
    MixQ15Exact(x1, x2, y1, y2, xf, yf);
    TruncatedSum(x1, x2, y1, y2, xf, yf);
    FourWeights(TOP, x1, x2, y1, y2, xf, yf, low, high);
    FourWeights(TOP, x1, x2, y1, y2, xf, yf, -0x8000, 0x7FFF);
    MissingWeight(TOP, x1, x2, y1, y2, xf, yf, -0x8000, 0x7FFF);
    var acc := SumQ15(x1, x2, y1, y2, xf, yf);
    HullOfSum(16 * acc, low, high);
    HullOfSum(16 * acc, -0x8000, 0x7FFF);
    assert 16 * acc / 0x100_0000_0000 == acc / 0x10_0000_0000;
  }

  lemma MixQ7Hull(x1: int, x2: int, y1: int, y2: int, xf: int, yf: int, low: int, high: int)
    requires Fractions(xf, yf) && -0x80 <= low <= high <= 0x7F && Bounds(x1, x2, y1, y2, low, high)
    ensures low - 1 <= MixQ7(x1, x2, y1, y2, xf, yf) <= high
    ensures NearFormula(MixQ7(x1, x2, y1, y2, xf, yf), Weighted(UNIT, x1, x2, y1, y2, xf, yf), 0x1000_0000, 0)
  {
    hide Weighted, MixQ7, ToQ7;
    MixQ7Exact(x1, x2, y1, y2, xf, yf);
    FourWeights(TOP, x1, x2, y1, y2, xf, yf, low, high);
    FourWeights(TOP, x1, x2, y1, y2, xf, yf, -0x80, 0x7F);
    MissingWeight(TOP, x1, x2, y1, y2, xf, yf, -0x80, 0x7F);
    HullOfSum(Weighted(TOP, x1, x2, y1, y2, xf, yf), low, high);
    HullOfSum(Weighted(TOP, x1, x2, y1, y2, xf, yf), -0x80, 0x7F);
  }

  /** `value` against 2^-40 of `formula`: less than one unit below, apart from the missing weight and the cuts. */
  predicate NearFormula(value: int, formula: int, weight: int, cuts: int) {
    -0x100_0000_0000 - weight - cuts < 0x100_0000_0000 * value - formula <= weight
  }

  // ---------- cells of the table ----------

  /** The code reads the four corners of the cell. */
  lemma CellCorners(g: Grid, x: int, y: int)
    requires Cell(g, x, y)
    ensures ReadsInside(g, x, y)
    ensures Corner(g, x, y, 0, 0) == CellCorner(g, x, y, 0, 0) && Corner(g, x, y, 1, 0) == CellCorner(g, x, y, 1, 0)
    ensures Corner(g, x, y, 0, 1) == CellCorner(g, x, y, 0, 1) && Corner(g, x, y, 1, 1) == CellCorner(g, x, y, 1, 1)
  {
    hide Index;
    InTable(Index(x) + 1, Index(y) + 1, g.rows, g.cols);
    NonNegative(g.cols, Index(y));
  }

  predicate InHull(g: Grid, x: int, y: int, value: int)
    requires Cell(g, x, y)
  {
    LowestCorner(g, x, y) - 1 <= value <= HighestCorner(g, x, y)
  }

  /** The bounds check lets the cell through. */
  predicate Accepted(g: Grid, x: int, y: int) { Index(x) < g.rows && Index(y) < g.cols }

  /** arm_bilinear_interp_q15 on any cell of the table: when the swapped check accepts it, within the hull of its four
      corners, widened by one below, and near the documented formula; otherwise zero. */
  lemma BilinearQ15OnCell(g: Grid, x: int, y: int)
    requires Cell(g, x, y) && AllQ15(g.data)
    ensures ReadsInside(g, x, y)
    ensures Accepted(g, x, y) ==> InHull(g, x, y, BilinearQ15(g, x, y))
    ensures Accepted(g, x, y) ==> NearFormula(BilinearQ15(g, x, y), Interpolated(g, x, y), 0x10_0000_0000, 0x400_0000)
    ensures !Accepted(g, x, y) ==> BilinearQ15(g, x, y) == 0
  {
    hide MixQ15, Weighted, Index;
    CellCorners(g, x, y);
    MixQ15Hull(Corner(g, x, y, 0, 0), Corner(g, x, y, 1, 0), Corner(g, x, y, 0, 1), Corner(g, x, y, 1, 1),
               Fraction(x), Fraction(y), LowestCorner(g, x, y), HighestCorner(g, x, y));
  }

  /** arm_bilinear_interp_q7: the same. */
  lemma BilinearQ7OnCell(g: Grid, x: int, y: int)
    requires Cell(g, x, y) && AllQ7(g.data)
    ensures ReadsInside(g, x, y)
    ensures Accepted(g, x, y) ==> InHull(g, x, y, BilinearQ7(g, x, y))
    ensures Accepted(g, x, y) ==> NearFormula(BilinearQ7(g, x, y), Interpolated(g, x, y), 0x1000_0000, 0)
    ensures !Accepted(g, x, y) ==> BilinearQ7(g, x, y) == 0
  {
    hide MixQ7, Weighted, Index;
    CellCorners(g, x, y);
    MixQ7Hull(Corner(g, x, y, 0, 0), Corner(g, x, y, 1, 0), Corner(g, x, y, 0, 1), Corner(g, x, y, 1, 1),
              Fraction(x), Fraction(y), LowestCorner(g, x, y), HighestCorner(g, x, y));
  }

  /** The point lies in a cell of a table of this size. */
  predicate CellOf(rows: nat, cols: nat, x: int, y: int) {
    0 <= Index(x) && Index(x) + 1 < cols && 0 <= Index(y) && Index(y) + 1 < rows
  }

  ghost predicate InterpolatesQ15(rows: nat, cols: nat, x: int, y: int)
    requires CellOf(rows, cols, x, y)
  {
    forall data: seq<int> :: |data| == rows * cols && AllQ15(data) ==>
      ReadsInside(Grid(rows, cols, data), x, y) &&
      InHull(Grid(rows, cols, data), x, y, BilinearQ15(Grid(rows, cols, data), x, y))
  }

  ghost predicate InterpolatesQ7(rows: nat, cols: nat, x: int, y: int)
    requires CellOf(rows, cols, x, y)
  {
    forall data: seq<int> :: |data| == rows * cols && AllQ7(data) ==>
      ReadsInside(Grid(rows, cols, data), x, y) &&
      InHull(Grid(rows, cols, data), x, y, BilinearQ7(Grid(rows, cols, data), x, y))
  }

  function Constant(n: nat, v: int): (data: seq<int>)
    ensures |data| == n && forall i :: 0 <= i < n ==> data[i] == v
  {
    seq(n, _ => v)
  }

  /** A cell of the table is interpolated, whatever the data, exactly when its index along the row is below the number
      of rows and the other below the number of columns. */
  lemma InterpolatesIff(rows: nat, cols: nat, x: int, y: int)
    requires CellOf(rows, cols, x, y)
    ensures InterpolatesQ15(rows, cols, x, y) <==> Index(x) < rows && Index(y) < cols
    ensures InterpolatesQ7(rows, cols, x, y) <==> Index(x) < rows && Index(y) < cols
  {
    hide Index, BilinearQ15, BilinearQ7;
    NonNegative(rows, cols);
    forall data: seq<int> | |data| == rows * cols && AllQ15(data)
      ensures ReadsInside(Grid(rows, cols, data), x, y)
      ensures Index(x) < rows && Index(y) < cols ==>
        InHull(Grid(rows, cols, data), x, y, BilinearQ15(Grid(rows, cols, data), x, y))
    {
      BilinearQ15OnCell(Grid(rows, cols, data), x, y);
    }
    forall data: seq<int> | |data| == rows * cols && AllQ7(data)
      ensures ReadsInside(Grid(rows, cols, data), x, y)
      ensures Index(x) < rows && Index(y) < cols ==>
        InHull(Grid(rows, cols, data), x, y, BilinearQ7(Grid(rows, cols, data), x, y))
    {
      BilinearQ7OnCell(Grid(rows, cols, data), x, y);
    }
    var fives := Grid(rows, cols, Constant(rows * cols, 5));
    BilinearQ15OnCell(fives, x, y);
    BilinearQ7OnCell(fives, x, y);
  }

  /** In a square table every cell is interpolated. */
  lemma SquareTablesInterpolate(size: nat, x: int, y: int)
    requires CellOf(size, size, x, y)
    ensures InterpolatesQ15(size, size, x, y) && InterpolatesQ7(size, size, x, y)
  {
    InterpolatesIff(size, size, x, y);
  }

  /** A cell inside a table of two rows and four columns, with all corners 5, is answered with zero. */
  lemma WideTableReturnsZero()
    ensures var g := Grid(2, 4, [5, 5, 5, 5, 5, 5, 5, 5]);
      && Cell(g, 2 * UNIT, 0) && LowestCorner(g, 2 * UNIT, 0) == 5
      && Rejected(g, 2 * UNIT, 0) && BilinearQ15(g, 2 * UNIT, 0) == 0 && BilinearQ7(g, 2 * UNIT, 0) == 0
  {
    var g := Grid(2, 4, [5, 5, 5, 5, 5, 5, 5, 5]);
    assert Index(2 * UNIT) == 2 && Index(0) == 0;
  }

  /** Whatever the check accepts is interpolated from the four values read: on data that are all 5 it is not zero. */
  lemma AcceptedIsNotZero(g: Grid, x: int, y: int)
    requires !Rejected(g, x, y) && ReadsInside(g, x, y) && forall i :: 0 <= i < |g.data| ==> g.data[i] == 5
    ensures 4 <= BilinearQ15(g, x, y) <= 5 && 4 <= BilinearQ7(g, x, y) <= 5
  {
    hide MixQ15, MixQ7, Index;
    assert Corner(g, x, y, 0, 0) == 5 && Corner(g, x, y, 1, 0) == 5 && Corner(g, x, y, 0, 1) == 5 && Corner(g, x, y, 1, 1) == 5;
    MixQ15Hull(5, 5, 5, 5, Fraction(x), Fraction(y), 5, 5);
    MixQ7Hull(5, 5, 5, 5, Fraction(x), Fraction(y), 5, 5);
  }

  /** The point is answered with zero, whatever the data. */
  ghost predicate AnswersZeroQ15(rows: nat, cols: nat, x: int, y: int) {
    forall data: seq<int> :: |data| == rows * cols && AllQ15(data) ==>
      Rejected(Grid(rows, cols, data), x, y)
      || (ReadsInside(Grid(rows, cols, data), x, y) && BilinearQ15(Grid(rows, cols, data), x, y) == 0)
  }

  ghost predicate AnswersZeroQ7(rows: nat, cols: nat, x: int, y: int) {
    forall data: seq<int> :: |data| == rows * cols && AllQ7(data) ==>
      Rejected(Grid(rows, cols, data), x, y)
      || (ReadsInside(Grid(rows, cols, data), x, y) && BilinearQ7(Grid(rows, cols, data), x, y) == 0)
  }

  /** The bounds check in terms of the table size. */
  predicate RejectedBySize(rows: nat, cols: nat, x: int, y: int) {
    Index(x) < 0 || Index(x) >= rows || Index(y) < 0 || Index(y) >= cols
  }

  /** Which points are answered with zero: those with a negative index, with an x index from the number of rows on, or
      with a y index from the number of columns on. */
  lemma AnswersZeroIff(rows: nat, cols: nat, x: int, y: int)
    ensures AnswersZeroQ15(rows, cols, x, y) <==> RejectedBySize(rows, cols, x, y)
    ensures AnswersZeroQ7(rows, cols, x, y) <==> RejectedBySize(rows, cols, x, y)
  {
    hide Index, BilinearQ15, BilinearQ7, ReadsInside;
    NonNegative(rows, cols);
    var g := Grid(rows, cols, Constant(rows * cols, 5));
    if !RejectedBySize(rows, cols, x, y) && ReadsInside(g, x, y) {
      AcceptedIsNotZero(g, x, y);
    }
  }

  /** The point lies outside the table as documented, where zero is promised. */
  predicate Outside(rows: nat, cols: nat, x: int, y: int) {
    Index(x) < 0 || Index(x) >= cols || Index(y) < 0 || Index(y) >= rows
  }

  /** The promise is kept at every coordinate exactly for square tables, for empty ones, and for those too large for a
      coordinate to leave them. */
  lemma ZeroOutsideIff(rows: nat, cols: nat)
    ensures (forall x, y :: IsQ31(x) && IsQ31(y) && Outside(rows, cols, x, y) ==>
               RejectedBySize(rows, cols, x, y)) <==>
      rows == cols || rows == 0 || cols == 0 || (rows >= 0x800 && cols >= 0x800)
  {
    IndexRange();
    if rows > cols && 0 < cols < 0x800 {
      assert Index(cols * UNIT) == cols && Index(0) == 0 by { IndexOfMultiple(cols); IndexOfMultiple(0); }
      assert Outside(rows, cols, cols * UNIT, 0) && !RejectedBySize(rows, cols, cols * UNIT, 0);
    } else if cols > rows && 0 < rows < 0x800 {
      assert Index(rows * UNIT) == rows && Index(0) == 0 by { IndexOfMultiple(rows); IndexOfMultiple(0); }
      assert Outside(rows, cols, 0, rows * UNIT) && !RejectedBySize(rows, cols, 0, rows * UNIT);
    }
  }

  lemma IndexOfMultiple(k: int)
    ensures Index(k * UNIT) == k
  {
    IndexValue(k * UNIT);
  }

  lemma IndexRange()
    ensures forall x :: IsQ31(x) ==> Index(x) < 0x800
  {
    forall x | IsQ31(x)
      ensures Index(x) < 0x800
    {
      IndexValue(x);
    }
  }

  /** A point to the right of a table of four rows and two columns, where zero is documented, is answered with a value
      interpolated from the rows below. */
  lemma TallTableReadsOn()
    ensures var g := Grid(4, 2, [5, 5, 5, 5, 5, 5, 5, 5]);
      && Shaped(g) && Outside(4, 2, 2 * UNIT, 0) && ReadsInside(g, 2 * UNIT, 0)
      && BilinearQ15(g, 2 * UNIT, 0) >= 4 && BilinearQ7(g, 2 * UNIT, 0) >= 4
  {
    hide BilinearQ15, BilinearQ7;
    var g := Grid(4, 2, [5, 5, 5, 5, 5, 5, 5, 5]);
    assert Index(2 * UNIT) == 2 && Index(0) == 0;
    AcceptedIsNotZero(g, 2 * UNIT, 0);
  }
}
