/** Bilinear interpolation of arm_math.h along a row or a column on which the table is nondecreasing: within a cell and
    across cell boundaries. */
module BilinearMonotone {
  import opened Arithmetic
  import opened FixedPoint
  import opened Interpolation
  import opened Bilinear
  import opened Full = BilinearQ31

  ghost predicate RowsRise(g: Grid) {
    Shaped(g) && forall i, i', j :: 0 <= i <= i' < g.cols && 0 <= j < g.rows ==> Element(g, i, j) <= Element(g, i', j)
  }

  ghost predicate ColumnsRise(g: Grid) {
    Shaped(g) && forall i, j, j' :: 0 <= i < g.cols && 0 <= j <= j' < g.rows ==> Element(g, i, j) <= Element(g, i, j')
  }

  // ---------- the weighted sum along one axis ----------

  /** Two values weighted by a fraction and its complement. */
  function Line(one: int, a: int, b: int, f: int): int { a * (one - f) + b * f }

  lemma LineRises(one: int, a: int, b: int, f: int, f': int)
    requires 0 <= f <= f' <= one && a <= b
    ensures Line(one, a, b, f) <= Line(one, a, b, f')
  {
    Between(f' - f, a, b);
    Distribute(a, one - f', f' - f);
    Distribute(b, f, f' - f);
  }

  /** A line in one cell ends no higher than a line in a later cell begins. */
  lemma LinesInOrder(one: int, a: int, b: int, c: int, d: int, f: int, f': int)
    requires 0 <= f <= one && 0 <= f' <= one && a <= b <= c <= d
    ensures Line(one, a, b, f) <= Line(one, c, d, f')
  {
    TwoWeights(a, b, one - f, f, a, b);
    TwoWeights(c, d, one - f', f', c, d);
    Between(one, b, c);
  }

  /** A line between higher values is higher. */
  lemma LinesRise(one: int, a: int, b: int, c: int, d: int, f: int)
    requires 0 <= f <= one && a <= c && b <= d
    ensures Line(one, a, b, f) <= Line(one, c, d, f)
  {
    Between(one - f, a, c);
    Between(f, b, d);
  }

  /** The weighted sum is a line along each axis, between two lines along the other. */
  lemma WeightedIsLine(one: int, x1: int, x2: int, y1: int, y2: int, xf: int, yf: int)
    ensures Weighted(one, x1, x2, y1, y2, xf, yf) == Line(one, Line(one, x1, y1, yf), Line(one, x2, y2, yf), xf)
    ensures Weighted(one, x1, x2, y1, y2, xf, yf) == Line(one, Line(one, x1, x2, xf), Line(one, y1, y2, xf), yf)
  {
    LineOfLines(one, x1, y1, x2, y2, yf, xf);
    LineOfLines(one, x1, x2, y1, y2, xf, yf);
  }

  lemma LineOfLines(one: int, a: int, b: int, c: int, d: int, f: int, h: int)
    ensures Line(one, Line(one, a, b, f), Line(one, c, d, f), h) ==
      a * ((one - f) * (one - h)) + b * (f * (one - h)) + c * ((one - f) * h) + d * (f * h)
  {
    Factor(a, b, one - f, f, one - h);
    Factor(c, d, one - f, f, h);
  }

  lemma Factor(a: int, b: int, u: int, v: int, w: int)
    ensures (a * u + b * v) * w == a * (u * w) + b * (v * w)
  {
    Distribute(w, a * u, b * v);
    Regroup(a, u, w);
    Regroup(b, v, w);
  }

  /** The weighted sum at a point, with `scale` units to one step of the fraction. */
  function At(one: int, scale: int, g: Grid, x: int, y: int): int
    requires Cell(g, x, y)
  {
    Weighted(one, CellCorner(g, x, y, 0, 0), CellCorner(g, x, y, 1, 0), CellCorner(g, x, y, 0, 1), CellCorner(g, x, y, 1, 1),
             Fraction(x) * scale, Fraction(y) * scale)
  }

  predicate Scale(one: int, scale: int) { (one == TOP && scale == 1) || (one == TOP31 && scale == 0x800) }

  lemma FractionsOrdered(x: int, x': int)
    requires x <= x' && Index(x) == Index(x')
    ensures Fraction(x) <= Fraction(x')
  {
    IndexValue(x);
    IndexValue(x');
  }

  lemma IndicesOrdered(x: int, x': int)
    requires x <= x'
    ensures Index(x) <= Index(x')
  {
    IndexValue(x);
    IndexValue(x');
  }

  /** The value of a column at height `y`, and of a row at `x`. */
  function Column(one: int, scale: int, g: Grid, i: int, y: int): int
    requires Shaped(g) && 0 <= i < g.cols && 0 <= Index(y) && Index(y) + 1 < g.rows
  {
    Line(one, Element(g, i, Index(y)), Element(g, i, Index(y) + 1), Fraction(y) * scale)
  }

  function Row(one: int, scale: int, g: Grid, j: int, x: int): int
    requires Shaped(g) && 0 <= j < g.rows && 0 <= Index(x) && Index(x) + 1 < g.cols
  {
    Line(one, Element(g, Index(x), j), Element(g, Index(x) + 1, j), Fraction(x) * scale)
  }

  lemma ColumnsInOrder(one: int, scale: int, g: Grid, i: int, i': int, y: int)
    requires RowsRise(g) && Scale(one, scale) && 0 <= i <= i' < g.cols && 0 <= Index(y) && Index(y) + 1 < g.rows
    ensures Column(one, scale, g, i, y) <= Column(one, scale, g, i', y)
  {
    hide Line, Element;
    var f, j := Fraction(y) * scale, Index(y);
    LinesRise(one, Element(g, i, j), Element(g, i, j + 1), Element(g, i', j), Element(g, i', j + 1), f);
  }

  lemma RowsInOrder(one: int, scale: int, g: Grid, j: int, j': int, x: int)
    requires ColumnsRise(g) && Scale(one, scale) && 0 <= j <= j' < g.rows && 0 <= Index(x) && Index(x) + 1 < g.cols
    ensures Row(one, scale, g, j, x) <= Row(one, scale, g, j', x)
  {
    hide Line, Element;
    var f, i := Fraction(x) * scale, Index(x);
    LinesRise(one, Element(g, i, j), Element(g, i + 1, j), Element(g, i, j'), Element(g, i + 1, j'), f);
  }

  lemma AtIsLine(one: int, scale: int, g: Grid, x: int, y: int)
    requires Cell(g, x, y)
    ensures At(one, scale, g, x, y) ==
      Line(one, Column(one, scale, g, Index(x), y), Column(one, scale, g, Index(x) + 1, y), Fraction(x) * scale)
    ensures At(one, scale, g, x, y) ==
      Line(one, Row(one, scale, g, Index(y), x), Row(one, scale, g, Index(y) + 1, x), Fraction(y) * scale)
  {
    hide Weighted, Line, Index;
    WeightedIsLine(one, CellCorner(g, x, y, 0, 0), CellCorner(g, x, y, 1, 0), CellCorner(g, x, y, 0, 1),
                   CellCorner(g, x, y, 1, 1), Fraction(x) * scale, Fraction(y) * scale);
  }

  /** Lines in cells `i` and `i'` of an increasing sequence of values. */
  lemma AlongX(one: int, scale: int, g: Grid, x: int, x': int, y: int)
    requires Cell(g, x, y) && Cell(g, x', y) && x <= x' && RowsRise(g) && Scale(one, scale)
    ensures At(one, scale, g, x, y) <= At(one, scale, g, x', y)
  {
    hide At, Line, Index, Column, RowsRise;
    AtIsLine(one, scale, g, x, y);
    AtIsLine(one, scale, g, x', y);
    IndicesOrdered(x, x');
    var i, i' := Index(x), Index(x');
    ColumnsInOrder(one, scale, g, i, i + 1, y);
    if i == i' {
      FractionsOrdered(x, x');
      LineRises(one, Column(one, scale, g, i, y), Column(one, scale, g, i + 1, y), Fraction(x) * scale, Fraction(x') * scale);
    } else {
      ColumnsInOrder(one, scale, g, i + 1, i', y);
      ColumnsInOrder(one, scale, g, i', i' + 1, y);
      LinesInOrder(one, Column(one, scale, g, i, y), Column(one, scale, g, i + 1, y), Column(one, scale, g, i', y),
                   Column(one, scale, g, i' + 1, y), Fraction(x) * scale, Fraction(x') * scale);
    }
  }

  lemma AlongY(one: int, scale: int, g: Grid, x: int, y: int, y': int)
    requires Cell(g, x, y) && Cell(g, x, y') && y <= y' && ColumnsRise(g) && Scale(one, scale)
    ensures At(one, scale, g, x, y) <= At(one, scale, g, x, y')
  {
    hide At, Line, Index, Row, ColumnsRise;
    AtIsLine(one, scale, g, x, y);
    AtIsLine(one, scale, g, x, y');
    IndicesOrdered(y, y');
    var j, j' := Index(y), Index(y');
    RowsInOrder(one, scale, g, j, j + 1, x);
    if j == j' {
      FractionsOrdered(y, y');
      LineRises(one, Row(one, scale, g, j, x), Row(one, scale, g, j + 1, x), Fraction(y) * scale, Fraction(y') * scale);
    } else {
      RowsInOrder(one, scale, g, j + 1, j', x);
      RowsInOrder(one, scale, g, j', j' + 1, x);
      LinesInOrder(one, Row(one, scale, g, j, x), Row(one, scale, g, j + 1, x), Row(one, scale, g, j', x),
                   Row(one, scale, g, j' + 1, x), Fraction(y) * scale, Fraction(y') * scale);
    }
  }

  // ---------- the three formats ----------

  /** Each function at a point, against the weighted sum with the source's "one". */
  lemma ValueQ7(g: Grid, x: int, y: int)
    requires Cell(g, x, y) && Accepted(g, x, y) && AllQ7(g.data)
    ensures ReadsInside(g, x, y) && BilinearQ7(g, x, y) == At(TOP, 1, g, x, y) / 0x100_0000_0000
  {
    hide MixQ7, Weighted, Index, ToQ7;
    CellCorners(g, x, y);
    var x1, x2 := CellCorner(g, x, y, 0, 0), CellCorner(g, x, y, 1, 0);
    var y1, y2 := CellCorner(g, x, y, 0, 1), CellCorner(g, x, y, 1, 1);
    MixQ7Exact(x1, x2, y1, y2, Fraction(x), Fraction(y));
    FourWeights(TOP, x1, x2, y1, y2, Fraction(x), Fraction(y), -0x80, 0x7F);
    HullOfSum(At(TOP, 1, g, x, y), -0x80, 0x7F);
  }

  lemma ValueQ15(g: Grid, x: int, y: int)
    requires Cell(g, x, y) && Accepted(g, x, y) && AllQ15(g.data)
    ensures ReadsInside(g, x, y)
    ensures At(TOP, 1, g, x, y) / 0x100_0000_0000 - 1 <= BilinearQ15(g, x, y) <= At(TOP, 1, g, x, y) / 0x100_0000_0000
  {
    hide MixQ15, Weighted, Index, ToQ15, SumQ15;
    CellCorners(g, x, y);
    var x1, x2 := CellCorner(g, x, y, 0, 0), CellCorner(g, x, y, 1, 0);
    var y1, y2 := CellCorner(g, x, y, 0, 1), CellCorner(g, x, y, 1, 1);
    MixQ15Exact(x1, x2, y1, y2, Fraction(x), Fraction(y));
    TruncatedSum(x1, x2, y1, y2, Fraction(x), Fraction(y));
    FourWeights(TOP, x1, x2, y1, y2, Fraction(x), Fraction(y), -0x8000, 0x7FFF);
    HullOfSum(16 * SumQ15(x1, x2, y1, y2, Fraction(x), Fraction(y)), -0x8000, 0x7FFF);
    DropFour(SumQ15(x1, x2, y1, y2, Fraction(x), Fraction(y)), At(TOP, 1, g, x, y));
  }

  lemma DropFour(acc: int, w: int)
    requires w - 45 * TOP <= 16 * acc <= w
    ensures w / 0x100_0000_0000 - 1 <= acc / 0x10_0000_0000 <= w / 0x100_0000_0000
    ensures 16 * acc / 0x100_0000_0000 == acc / 0x10_0000_0000
  {
  }

  lemma ValueQ31(g: Grid, x: int, y: int)
    requires Cell(g, x, y) && Accepted(g, x, y) && AllQ31(g.data) && ShiftFits(g, x, y)
    ensures ReadsInside(g, x, y)
    ensures At(TOP31, 0x800, g, x, y) - 22 * (TWO_31 * TWO_31) <= TWO_31 * TWO_31 * BilinearQ31(g, x, y) <= At(TOP31, 0x800, g, x, y)
    ensures BilinearQ31(g, x, y) % 4 == 0
  {
    hide MixQ31, Sum, Weighted, Index, ToQ31;
    CellCorners(g, x, y);
    var x1, x2 := CellCorner(g, x, y, 0, 0), CellCorner(g, x, y, 1, 0);
    var y1, y2 := CellCorner(g, x, y, 0, 1), CellCorner(g, x, y, 1, 1);
    MixQ31Shift(x1, x2, y1, y2, Fraction(x), Fraction(y));
    SumNear(x1, x2, y1, y2, Fraction(x), Fraction(y));
  }

  /** Two values that share a bracket below ordered sums. */
  lemma OrderedQ31(a: int, b: int, p: int, q: int)
    requires p <= q && TWO_31 * TWO_31 * a <= p && q - 22 * (TWO_31 * TWO_31) <= TWO_31 * TWO_31 * b
    requires a % 4 == 0 && b % 4 == 0
    ensures a <= b + 20
  {
  }

  /** Along a row of a table whose rows are nondecreasing, from any accepted cell to any later one: Q7 never steps back,
      Q15 by one unit at most, and Q31 by twenty at most where its shift fits. */
  lemma AlongRow(g: Grid, x: int, x': int, y: int)
    requires Cell(g, x, y) && Cell(g, x', y) && Accepted(g, x, y) && Accepted(g, x', y) && x <= x' && RowsRise(g)
    ensures ReadsInside(g, x, y) && ReadsInside(g, x', y)
    ensures AllQ7(g.data) ==> BilinearQ7(g, x, y) <= BilinearQ7(g, x', y)
    ensures AllQ15(g.data) ==> BilinearQ15(g, x, y) <= BilinearQ15(g, x', y) + 1
    ensures AllQ31(g.data) && ShiftFits(g, x, y) && ShiftFits(g, x', y) ==>
      BilinearQ31(g, x, y) <= BilinearQ31(g, x', y) + 20
  {
    hide BilinearQ7, BilinearQ15, BilinearQ31, At, Index, ShiftFits, RowsRise, ReadsInside;
    CellCorners(g, x, y);
    CellCorners(g, x', y);
    AlongX(TOP, 1, g, x, x', y);
    AlongX(TOP31, 0x800, g, x, x', y);
    Ordered(g, x, y, x', y);
  }

  /** The same along a column of a table whose columns are nondecreasing. */
  lemma AlongColumn(g: Grid, x: int, y: int, y': int)
    requires Cell(g, x, y) && Cell(g, x, y') && Accepted(g, x, y) && Accepted(g, x, y') && y <= y' && ColumnsRise(g)
    ensures ReadsInside(g, x, y) && ReadsInside(g, x, y')
    ensures AllQ7(g.data) ==> BilinearQ7(g, x, y) <= BilinearQ7(g, x, y')
    ensures AllQ15(g.data) ==> BilinearQ15(g, x, y) <= BilinearQ15(g, x, y') + 1
    ensures AllQ31(g.data) && ShiftFits(g, x, y) && ShiftFits(g, x, y') ==>
      BilinearQ31(g, x, y) <= BilinearQ31(g, x, y') + 20
  {
    hide BilinearQ7, BilinearQ15, BilinearQ31, At, Index, ShiftFits, ColumnsRise, ReadsInside;
    CellCorners(g, x, y);
    CellCorners(g, x, y');
    AlongY(TOP, 1, g, x, y, y');
    AlongY(TOP31, 0x800, g, x, y, y');
    Ordered(g, x, y, x, y');
  }

  /** From the order of the weighted sums to that of the results. */
  lemma Ordered(g: Grid, x: int, y: int, x': int, y': int)
    requires Cell(g, x, y) && Cell(g, x', y') && Accepted(g, x, y) && Accepted(g, x', y')
    requires At(TOP, 1, g, x, y) <= At(TOP, 1, g, x', y') && At(TOP31, 0x800, g, x, y) <= At(TOP31, 0x800, g, x', y')
    requires ReadsInside(g, x, y) && ReadsInside(g, x', y')
    ensures AllQ7(g.data) ==> BilinearQ7(g, x, y) <= BilinearQ7(g, x', y')
    ensures AllQ15(g.data) ==> BilinearQ15(g, x, y) <= BilinearQ15(g, x', y') + 1
    ensures AllQ31(g.data) && ShiftFits(g, x, y) && ShiftFits(g, x', y') ==>
      BilinearQ31(g, x, y) <= BilinearQ31(g, x', y') + 20
  {
    hide BilinearQ7, BilinearQ15, BilinearQ31, At, Index, ShiftFits, ReadsInside;
    if AllQ7(g.data) {
      ValueQ7(g, x, y);
      ValueQ7(g, x', y');
    }
    if AllQ15(g.data) {
      ValueQ15(g, x, y);
      ValueQ15(g, x', y');
    }
    if AllQ31(g.data) && ShiftFits(g, x, y) && ShiftFits(g, x', y') {
      ValueQ31(g, x, y);
      ValueQ31(g, x', y');
      OrderedQ31(BilinearQ31(g, x, y), BilinearQ31(g, x', y'), At(TOP31, 0x800, g, x, y), At(TOP31, 0x800, g, x', y'));
    }
  }
}
