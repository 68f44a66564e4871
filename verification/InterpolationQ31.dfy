/** arm_linear_interp_q31 of arm_math.h: two products truncated one by one, and the tables on which that shows. */
module InterpolationQ31 {
  import opened Arithmetic
  import opened Bits
  import opened FixedPoint
  import opened Interpolation

  function LinearQ31(t: Table, x: int): int {
    var index := Index(x);
    if index >= |t| - 1 then t[|t| - 1]
    else if index < 0 then t[0]
    else
      var fract := Fraction(x) * 0x800;
      var y := ToQ31(t[index] * (0x7FFF_FFFF - fract) / TWO_32);
      ToQ31(ToQ31(y + ToQ31(t[index + 1] * fract / TWO_32)) * 2)
  }

  /** The doubled blend with the two halves truncated one by one. */
  function Split(a: int, b: int, f: int): int { 2 * (a * (0x7FFF_FFFF - f) / TWO_32 + b * f / TWO_32) }

  /** The doubled blend truncated once. */
  function Joint(a: int, b: int, f: int): int { 2 * ((a * (0x7FFF_FFFF - f) + b * f) / TWO_32) }

  lemma SplitJoint(a: int, b: int, f: int)
    ensures Joint(a, b, f) - 2 <= Split(a, b, f) <= Joint(a, b, f)
  {
    FloorOfSum(a * (0x7FFF_FFFF - f), b * f);
  }

  lemma FloorOfSum(u: int, v: int)
    ensures (u + v) / TWO_32 - 1 <= u / TWO_32 + v / TWO_32 <= (u + v) / TWO_32
  {
  }

  lemma HalvesOrdered(u: int, s: int, v: int)
    requires u <= s <= v
    ensures 2 * (u / TWO_32) <= 2 * (s / TWO_32) <= 2 * (v / TWO_32)
  {
  }

  lemma JointBetween(a: int, b: int, f: int)
    requires 0 <= f <= 0x7FFF_FFFF && a <= b
    ensures Joint(a, a, 0) <= Joint(a, b, f) <= Joint(b, b, 0)
  {
    TwoWeights(a, b, 0x7FFF_FFFF - f, f, a, b);
    HalvesOrdered(a * 0x7FFF_FFFF, a * (0x7FFF_FFFF - f) + b * f, b * 0x7FFF_FFFF);
  }

  lemma JointMonotone(a: int, b: int, f: int, g: int)
    requires 0 <= f <= g <= 0x7FFF_FFFF && a <= b
    ensures Joint(a, b, f) <= Joint(a, b, g)
  {
    assert (b - a) * (g - f) >= 0;
  }

  lemma JointScaled(a: int, b: int)
    requires IsQ31(a) && IsQ31(b) && a <= b
    ensures Joint(a, a, 0) <= a && Joint(a, a, 0) <= Joint(b, b, 0)
  {
  }

  /** No cast of the source loses a value. The fraction is even, so each half rounds within its share. */
  lemma SplitCasts(a: int, b: int, f: int)
    requires IsQ31(a) && IsQ31(b) && 0 <= f <= 0x7FFF_F800 && f % 2 == 0
    ensures ToQ31(ToQ31(ToQ31(a * (0x7FFF_FFFF - f) / TWO_32) + ToQ31(b * f / TWO_32)) * 2) == Split(a, b, f)
  {
    hide ToQ31;
    var u, v, h := a * (0x7FFF_FFFF - f), b * f, f / 2;
    TwoWeights(a, 0, 0x7FFF_FFFF - f, 0, Q31_MIN, Q31_MAX);
    TwoWeights(b, 0, f, 0, Q31_MIN, Q31_MAX);
    assert h - 0x4000_0000 <= u / TWO_32 <= 0x4000_0000 - h;
    assert -h <= v / TWO_32 <= h;
    assert u / TWO_32 + v / TWO_32 < 0x4000_0000;
  }

  lemma LinearQ31Value(t: Table, x: int)
    requires AllQ31(t) && 0 <= x
    ensures LinearQ31(t, x) ==
      if x / UNIT >= |t| - 1 then t[|t| - 1] else Split(t[x / UNIT], t[x / UNIT + 1], x % UNIT * 0x800)
  {
    hide ToQ31, Split, Index;
    IndexValue(x);
    var f := x % UNIT * 0x800;
    assert 0 <= f <= 0x7FFF_F800 && f % 2 == 0;
    if x / UNIT < |t| - 1 {
      SplitCasts(t[x / UNIT], t[x / UNIT + 1], f);
    }
  }

  /** The value lies at most two units below, and never above, a value that is monotone in `x`. */
  lemma Q31Bracket(t: Table, x: int)
    requires AllQ31(t) && Nondecreasing(t) && 0 <= x && x / UNIT < |t| - 1
    ensures var i, f := x / UNIT, x % UNIT * 0x800;
      && Joint(t[i], t[i + 1], f) - 2 <= LinearQ31(t, x) <= Joint(t[i], t[i + 1], f)
      && Joint(t[i], t[i], 0) <= Joint(t[i], t[i + 1], f) <= Joint(t[i + 1], t[i + 1], 0)
  {
    hide LinearQ31, Joint, Split;
    var i, f := x / UNIT, x % UNIT * 0x800;
    LinearQ31Value(t, x);
    SplitJoint(t[i], t[i + 1], f);
    JointBetween(t[i], t[i + 1], f);
  }

  // ---------- one segment, fraction by fraction ----------

  /** The weight of one table step of the fraction is 2^11 and a product is cut after 32 bits, so 2^21 steps of
      one entry make one unit of the half sum. */
  const STEPS: int := 0x20_0000

  /** The interpolated value at fraction `m` of a segment. */
  function At(a: int, b: int, m: int): int { Split(a, b, m * 0x800) }

  /** The first half product at fraction zero, before its last 21 bits are dropped. */
  function Start(a: int): int { a * 0x7FFF_FFFF / 0x800 }

  lemma AtBySteps(a: int, b: int, m: int)
    ensures At(a, b, m) == 2 * ((Start(a) - a * m) / STEPS + b * m / STEPS)
  {
    Distribute(a, 0x7FFF_FFFF, m * 0x800);
    Regroup(a, m, 0x800);
    Regroup(b, m, 0x800);
    TwoCuts(a * 0x7FFF_FFFF, a * m);
    TwoCuts(0, -(b * m));
  }

  /** Dropping 11 bits and then 21 bits is dropping 32 bits. */
  lemma TwoCuts(x: int, y: int)
    ensures (x - y * 0x800) / TWO_32 == (x / 0x800 - y) / STEPS
  {
  }

  /** The next fraction borrows from the first half, or carries into the second. */
  predicate Borrows(a: int, m: int) { (Start(a) - a * m) % STEPS < a % STEPS }
  predicate Carries(b: int, m: int) { b * m % STEPS + b % STEPS >= STEPS }

  lemma FloorFalls(u: int, a: int)
    ensures (u - a) / STEPS == u / STEPS - a / STEPS - if u % STEPS < a % STEPS then 1 else 0
  {
  }

  lemma FloorRises(v: int, b: int)
    ensures (v + b) / STEPS == v / STEPS + b / STEPS + if v % STEPS + b % STEPS >= STEPS then 1 else 0
  {
  }

  /** What one step of the fraction adds. */
  lemma AtStep(a: int, b: int, m: int)
    ensures At(a, b, m + 1) == At(a, b, m) +
      2 * (b / STEPS - a / STEPS + (if Carries(b, m) then 1 else 0) - (if Borrows(a, m) then 1 else 0))
  {
    hide At, Start;
    AtBySteps(a, b, m);
    AtBySteps(a, b, m + 1);
    Distribute(a, m, 1);
    Distribute(b, m, 1);
    FloorFalls(Start(a) - a * m, a);
    FloorRises(b * m, b);
  }

  /** The segment from `a` to `b` has no step back: the entries differ in their upper eleven bits, or every fraction
      that borrows also carries. */
  ghost predicate NeverStepsBack(a: int, b: int) {
    a / STEPS < b / STEPS || forall m :: 0 <= m < UNIT - 1 && Borrows(a, m) ==> Carries(b, m)
  }

  ghost predicate SegmentMonotone(a: int, b: int) {
    forall m, n :: 0 <= m <= n < UNIT ==> At(a, b, m) <= At(a, b, n)
  }

  lemma {:induction false} StepsAddUp(a: int, b: int, m: int, n: int)
    requires a <= b && NeverStepsBack(a, b) && 0 <= m <= n < UNIT
    ensures At(a, b, m) <= At(a, b, n)
    decreases n
  {
    hide At, Borrows, Carries;
    if m < n {
      StepsAddUp(a, b, m, n - 1);
      AtStep(a, b, n - 1);
    }
  }

  lemma SegmentMonotoneIff(a: int, b: int)
    requires a <= b
    ensures SegmentMonotone(a, b) <==> NeverStepsBack(a, b)
  {
    hide At, Borrows, Carries;
    if NeverStepsBack(a, b) {
      forall m, n | 0 <= m <= n < UNIT
        ensures At(a, b, m) <= At(a, b, n)
      {
        StepsAddUp(a, b, m, n);
      }
    } else {
      var m :| 0 <= m < UNIT - 1 && Borrows(a, m) && !Carries(b, m);
      AtStep(a, b, m);
      assert At(a, b, m + 1) < At(a, b, m);
    }
  }

  // ---------- whole tables ----------

  ghost predicate MonotoneFromZero(t: Table) {
    forall x, x' :: 0 <= x <= x' && IsQ31(x') ==> LinearQ31(t, x) <= LinearQ31(t, x')
  }

  ghost predicate MonotoneQ31(t: Table) {
    forall x, x' :: IsQ31(x) && IsQ31(x') && x <= x' ==> LinearQ31(t, x) <= LinearQ31(t, x')
  }

  /** A coordinate in segment `i` at fraction `m`. */
  lemma LinearQ31At(t: Table, i: int, m: int)
    requires AllQ31(t) && 0 <= i < |t| - 1 && 0 <= m < UNIT
    ensures LinearQ31(t, i * UNIT + m) == At(t[i], t[i + 1], m)
  {
    hide LinearQ31, Split;
    LinearQ31Value(t, i * UNIT + m);
  }

  /** A step back needs two coordinates of one segment: from any segment to the start of a later one, or to the clamp
      at the end, the function never decreases. */
  lemma BoundaryNeverStepsBack(t: Table, x: int, j: int)
    requires AllQ31(t) && Nondecreasing(t) && 0 <= x && x / UNIT < j < |t|
    ensures LinearQ31(t, x) <= LinearQ31(t, j * UNIT)
  {
    hide LinearQ31, Joint, Split;
    var i := x / UNIT;
    Q31Bracket(t, x);
    LinearQ31Value(t, j * UNIT);
    JointScaled(t[i + 1], t[j]);
    if j < |t| - 1 {
      SplitAtZero(t[j], t[j + 1]);
    }
  }

  lemma SplitAtZero(a: int, b: int)
    ensures Split(a, b, 0) == Joint(a, a, 0)
  {
  }

  /** Every segment that a coordinate can reach has no step back. */
  ghost predicate SegmentsNeverStepBack(t: Table) {
    forall i :: 0 <= i < |t| - 1 && i < 0x800 ==> NeverStepsBack(t[i], t[i + 1])
  }

  /** On a nondecreasing table the function is nondecreasing from zero on exactly when no segment steps back. */
  lemma MonotoneFromZeroIff(t: Table)
    requires AllQ31(t) && Nondecreasing(t)
    ensures MonotoneFromZero(t) <==> SegmentsNeverStepBack(t)
  {
    hide LinearQ31, NeverStepsBack;
    if SegmentsNeverStepBack(t) {
      forall x, x' | 0 <= x <= x' && IsQ31(x')
        ensures LinearQ31(t, x) <= LinearQ31(t, x')
      {
        OrderedPair(t, x, x');
      }
    } else {
      var i :| 0 <= i < |t| - 1 && i < 0x800 && !NeverStepsBack(t[i], t[i + 1]);
      var m, n := StepsBackSomewhere(t, i);
      assert LinearQ31(t, i * UNIT + m) > LinearQ31(t, i * UNIT + n);
    }
  }

  lemma StepsBackSomewhere(t: Table, i: int) returns (m: int, n: int)
    requires AllQ31(t) && 0 <= i < |t| - 1 && t[i] <= t[i + 1] && !NeverStepsBack(t[i], t[i + 1])
    ensures 0 <= m <= n < UNIT && LinearQ31(t, i * UNIT + m) > LinearQ31(t, i * UNIT + n)
  {
    hide LinearQ31, NeverStepsBack, At;
    SegmentMonotoneIff(t[i], t[i + 1]);
    m, n :| 0 <= m <= n < UNIT && At(t[i], t[i + 1], m) > At(t[i], t[i + 1], n);
    LinearQ31At(t, i, m);
    LinearQ31At(t, i, n);
  }

  lemma OrderedPair(t: Table, x: int, x': int)
    requires AllQ31(t) && Nondecreasing(t) && SegmentsNeverStepBack(t) && 0 <= x <= x' && IsQ31(x')
    ensures LinearQ31(t, x) <= LinearQ31(t, x')
  {
    hide LinearQ31, NeverStepsBack, At;
    var i, j, n := x / UNIT, x' / UNIT, |t| - 1;
    LinearQ31Value(t, x);
    LinearQ31Value(t, x');
    if i < n && i == j {
      SegmentMonotoneIff(t[i], t[i + 1]);
      LinearQ31At(t, i, x % UNIT);
      LinearQ31At(t, i, x' % UNIT);
    } else if i < n && j < n {
      BoundaryNeverStepsBack(t, x, j);
      SegmentMonotoneIff(t[j], t[j + 1]);
      LinearQ31At(t, j, 0);
      LinearQ31At(t, j, x' % UNIT);
    } else if i < n {
      BoundaryNeverStepsBack(t, x, n);
      LinearQ31Value(t, n * UNIT);
    }
  }

  /** A table that rises by at least 2^21 from each entry to the next is interpolated monotonically. */
  lemma SteepTablesAreMonotone(t: Table)
    requires AllQ31(t) && forall i :: 0 <= i < |t| - 1 ==> t[i + 1] - t[i] >= STEPS
    ensures MonotoneFromZero(t)
  {
    Rising(t);
    MonotoneFromZeroIff(t);
  }

  lemma Rising(t: Table)
    requires forall i :: 0 <= i < |t| - 1 ==> t[i] <= t[i + 1]
    ensures Nondecreasing(t)
  {
    forall i, j | 0 <= i < j < |t|
      ensures t[i] <= t[j]
    {
      RisingTo(t, i, j);
    }
  }

  lemma {:induction false} RisingTo(t: Table, i: int, j: int)
    requires forall i :: 0 <= i < |t| - 1 ==> t[i] <= t[i + 1]
    requires 0 <= i < j < |t|
    ensures t[i] <= t[j]
    decreases j
  {
    assert t[j - 1] <= t[j - 1 + 1];
    if i < j - 1 { RisingTo(t, i, j - 1); }
  }

  /** At the first entry: exactly the entry when it is even and not positive, at most three below it otherwise. */
  lemma FirstValue(a: int)
    requires IsQ31(a)
    ensures a - 2 <= Joint(a, a, 0) <= a
    ensures Joint(a, a, 0) == a <==> a <= 0 && a % 2 == 0
  {
  }

  lemma LinearQ31Negative(t: Table, x: int)
    requires x < 0
    ensures LinearQ31(t, x) == t[0]
  {
    IndexValue(x);
  }

  /** Over the whole signed coordinate range the first entry, which negative coordinates return, must also be even
      and not positive, unless it is the only one. */
  lemma MonotoneQ31Iff(t: Table)
    requires AllQ31(t) && Nondecreasing(t)
    ensures MonotoneQ31(t) <==> SegmentsNeverStepBack(t) && (|t| == 1 || (t[0] <= 0 && t[0] % 2 == 0))
  {
    hide LinearQ31, Joint, Split, SegmentsNeverStepBack;
    MonotoneFromZeroIff(t);
    LinearQ31Negative(t, -1);
    LinearQ31Value(t, 0);
    FirstValue(t[0]);
    if |t| > 1 { SplitAtZero(t[0], t[1]); }
    if MonotoneFromZero(t) && LinearQ31(t, 0) == t[0] {
      forall x, x' | IsQ31(x) && IsQ31(x') && x <= x'
        ensures LinearQ31(t, x) <= LinearQ31(t, x')
      {
        if x < 0 { LinearQ31Negative(t, x); }
        if x' < 0 { LinearQ31Negative(t, x'); }
      }
    }
    if MonotoneQ31(t) {
      assert MonotoneFromZero(t);
      assert LinearQ31(t, -1) <= LinearQ31(t, 0);
    }
  }

  /** arm_linear_interp_q31 truncates twice: from zero on a nondecreasing table can step back, but by two
      units at most. */
  lemma Q31AlmostMonotone(t: Table, x: int, x': int)
    requires AllQ31(t) && Nondecreasing(t) && 0 <= x <= x'
    ensures LinearQ31(t, x) <= LinearQ31(t, x') + 2
  {
    hide LinearQ31, Joint, Split;
    var i, j, n := x / UNIT, x' / UNIT, |t| - 1;
    LinearQ31Value(t, x);
    LinearQ31Value(t, x');
    if i < n {
      Q31Bracket(t, x);
      if j < n {
        Q31Bracket(t, x');
        if i == j {
          JointMonotone(t[i], t[i + 1], x % UNIT * 0x800, x' % UNIT * 0x800);
        } else {
          JointScaled(t[i + 1], t[j]);
        }
      } else {
        JointScaled(t[i + 1], t[n]);
        JointScaled(t[n], t[n]);
      }
    }
  }

  /** Over all coordinates, negative ones included, it is four units at most. */
  lemma Q31AlmostMonotoneEverywhere(t: Table, x: int, x': int)
    requires AllQ31(t) && Nondecreasing(t) && x <= x'
    ensures LinearQ31(t, x) <= LinearQ31(t, x') + 4
  {
    hide LinearQ31, Joint, Split;
    if x >= 0 {
      Q31AlmostMonotone(t, x, x');
    } else {
      LinearQ31Negative(t, x);
      if x' < 0 {
        LinearQ31Negative(t, x');
      } else {
        Q31AlmostMonotone(t, 0, x');
        FirstDrop(t, x');
      }
    }
  }

  lemma FirstDrop(t: Table, x: int)
    requires AllQ31(t) && Nondecreasing(t) && 0 <= x
    ensures t[0] <= LinearQ31(t, x) + 4
  {
    hide LinearQ31, Joint, Split;
    var i := x / UNIT;
    LinearQ31Value(t, x);
    FirstValue(t[0]);
    if i < |t| - 1 {
      Q31Bracket(t, x);
      JointScaled(t[0], t[i]);
    }
  }

  /** On any table, between the two neighbours, widened by four below. */
  lemma SegmentHullQ31(t: Table, x: int)
    requires AllQ31(t) && 0 <= x && x / UNIT < |t| - 1
    ensures Min(t[x / UNIT], t[x / UNIT + 1]) - 4 <= LinearQ31(t, x) <= Max(t[x / UNIT], t[x / UNIT + 1])
  {
    hide LinearQ31, Joint, Split;
    var a, b, f := t[x / UNIT], t[x / UNIT + 1], x % UNIT * 0x800;
    LinearQ31Value(t, x);
    SplitJoint(a, b, f);
    JointHull(a, b, f, Min(a, b), Max(a, b));
    FirstValue(Min(a, b));
    FirstValue(Max(a, b));
  }

  /** arm_linear_interp_q31 at every coordinate, on any table: the first entry below zero, the last one from the last
      index on, and in between the documented formula within the left entry's missing share and four units. */
  lemma LinearQ31NearFormula(t: Table, x: int)
    requires AllQ31(t) && IsQ31(x)
    ensures x < 0 ==> LinearQ31(t, x) == t[0]
    ensures x >= 0 && x / UNIT >= |t| - 1 ==> LinearQ31(t, x) == t[|t| - 1]
    ensures x >= 0 && x / UNIT < |t| - 1 ==>
      var a, v := t[x / UNIT], LinearQ31(t, x);
      0 <= 0x800 * Formula(a, t[x / UNIT + 1], x % UNIT) - a - TWO_31 * v < 4 * TWO_31
  {
    hide LinearQ31, Split, Formula;
    if x < 0 {
      LinearQ31Negative(t, x);
    } else {
      LinearQ31Value(t, x);
      if x / UNIT < |t| - 1 { SplitNearFormula(t[x / UNIT], t[x / UNIT + 1], x % UNIT); }
    }
  }

  lemma SplitNearFormula(a: int, b: int, f: int)
    ensures 0 <= 0x800 * Formula(a, b, f) - a - TWO_31 * Split(a, b, f * 0x800) < 4 * TWO_31
  {
    var p, q := a * (0x7FFF_FFFF - f * 0x800), b * (f * 0x800);
    Distribute(a, 0x7FFF_FFFF - f * 0x800, 1);
    Distribute(a, UNIT, f);
    Distribute(a, 0x8000_0000, f * 0x800);
    Regroup(a, f, 0x800);
    Regroup(b, f, 0x800);
    assert 0x800 * Formula(a, b, f) == p + a + q;
    HalvesNear(p, q);
  }

  lemma HalvesNear(p: int, q: int)
    ensures 0 <= p + q - TWO_32 * (p / TWO_32 + q / TWO_32) < 2 * TWO_32
  {
  }

  lemma JointHull(a: int, b: int, f: int, low: int, high: int)
    requires 0 <= f <= 0x7FFF_FFFF && low <= a <= high && low <= b <= high
    ensures Joint(low, low, 0) <= Joint(a, b, f) <= Joint(high, high, 0)
  {
    TwoWeights(a, b, 0x7FFF_FFFF - f, f, low, high);
    HalvesOrdered(low * 0x7FFF_FFFF, a * (0x7FFF_FFFF - f) + b * f, high * 0x7FFF_FFFF);
  }

  // ---------- constant tables ----------

  /** On a constant segment the value drops by two exactly at the fractions whose product has a large residue. */
  lemma ConstantAt(a: int, m: int)
    ensures At(a, a, m) == 2 * (Start(a) / STEPS - if a * m % STEPS > Start(a) % STEPS then 1 else 0)
  {
    hide At, Start;
    AtBySteps(a, a, m);
    FloorFalls(Start(a), a * m);
  }

  ghost predicate Flat(a: int) {
    forall m :: 0 <= m < UNIT ==> a * m % STEPS <= Start(a) % STEPS
  }

  lemma ConstantMonotone(a: int)
    ensures NeverStepsBack(a, a) <==> Flat(a)
  {
    hide At, Start, NeverStepsBack;
    SegmentMonotoneIff(a, a);
    ConstantAt(a, 0);
    if Flat(a) {
      forall m, n | 0 <= m <= n < UNIT
        ensures At(a, a, m) <= At(a, a, n)
      {
        ConstantAt(a, m);
        ConstantAt(a, n);
      }
    } else {
      var m :| 0 <= m < UNIT && a * m % STEPS > Start(a) % STEPS;
      ConstantAt(a, m);
      assert At(a, a, 0) > At(a, a, m);
    }
  }

  /** The largest power of two that divides `a`. */
  function TwoPart(a: int): (d: int)
    requires a != 0
    ensures d >= 1
    decreases if a < 0 then -a else a
  {
    if a % 2 != 0 then 1 else 2 * TwoPart(a / 2)
  }

  lemma OddTwoPart(a: int)
    requires a % 2 != 0
    ensures TwoPart(a) == 1
  {
  }

  lemma EvenTwoPart(a: int)
    requires a != 0 && a % 2 == 0
    ensures a / 2 != 0 && TwoPart(a) == 2 * TwoPart(a / 2)
  {
  }

  lemma HalfNotMultiple(a: int, p: int)
    requires p > 0 && a % 2 == 0 && a % (2 * p) != 0
    ensures a / 2 % p != 0
  {
    if a / 2 % p == 0 {
      var n := a / 2 / p;
      assert a / 2 == n * p;
      MulDouble(n, p);
      MultipleMod(n, 2 * p);
    }
  }

  /** A number that `2^j` does not divide is an odd multiple of a smaller power of two. */
  lemma {:induction false} OddMultiple(a: int, j: nat) returns (q: int, k: nat)
    requires a != 0 && a % Pow2(j) != 0
    ensures a == TwoPart(a) * q && q % 2 == 1 && TwoPart(a) * Pow2(k) == Pow2(j) && k >= 1
    ensures k <= j && (a % 2 == 0 ==> k < j)
    decreases j
  {
    hide TwoPart;
    if a % 2 != 0 {
      q, k := a, j;
      OddTwoPart(a);
    } else {
      EvenTwoPart(a);
      HalfNotMultiple(a, Pow2(j - 1));
      q, k := OddMultiple(a / 2, j - 1);
      Regroup(2, TwoPart(a / 2), q);
      Regroup(2, TwoPart(a / 2), Pow2(k));
    }
  }

  /** An odd number has a multiple that falls one short of a multiple of `2^k`. */
  lemma {:induction false} OneShort(q: int, k: nat) returns (m: nat, r: int)
    requires q % 2 == 1
    ensures m < Pow2(k) && q * m + 1 == Pow2(k) * r
    decreases k
  {
    if k == 0 {
      m, r := 0, 1;
    } else {
      var n, u := OneShort(q, k - 1);
      m, r := OneShortNext(q, Pow2(k - 1), n, u);
    }
  }

  lemma DoubleFactor(p: int, u: int)
    requires u % 2 == 0
    ensures p * u == 2 * p * (u / 2)
  {
    var r := u / 2;
    assert u == 2 * r;
    MulDouble(r, p);
  }

  lemma ShiftMultiple(q: int, n: int, p: int, u: int)
    requires q * n + 1 == p * u
    ensures q * (n + p) + 1 == p * (u + q)
  {
    Distribute(q, n, p);
    Distribute(p, u, q);
  }

  lemma OneShortNext(q: int, p: nat, n: nat, u: int) returns (m: nat, r: int)
    requires q % 2 == 1 && n < p && q * n + 1 == p * u
    ensures m < 2 * p && q * m + 1 == 2 * p * r
  {
    if u % 2 == 0 {
      m, r := n, u / 2;
      DoubleFactor(p, u);
    } else {
      m, r := n + p, (u + q) / 2;
      ShiftMultiple(q, n, p, u);
      DoubleFactor(p, u + q);
    }
  }

  /** The residues of the multiples of `d * q` modulo `d * e`: never above `d * e - d`, and that one is reached. */
  lemma LargestResidue(a: int, d: int, e: int, q: int, m: int)
    requires d >= 1 && e >= 1 && d * e == STEPS && a == d * q
    ensures a * m % STEPS <= STEPS - d
    ensures (exists r: int :: q * m + 1 == e * r) ==> a * m % STEPS == STEPS - d
  {
    var z, y := q * m % e, q * m / e;
    assert q * m == y * e + z;
    assert a * m == d * (q * m) by { Regroup(d, q, m); }
    assert d * (y * e + z) == y * STEPS + d * z by { Distribute(d, y * e, z); Regroup(y, d, e); Swap(d, y, e); }
    Between(d, z, e - 1);
    Distribute(d, e, 1);
    NonNegative(d, z);
    DivModUnique(a * m, STEPS, y, d * z);
    if r: int :| q * m + 1 == e * r {
      DivModUnique(q * m, e, r - 1, e - 1);
    }
  }

  lemma Swap(d: int, y: int, e: int)
    ensures d * (y * e) == y * (d * e)
  {
  }

  /** Whole multiples of the modulus drop out. */
  lemma WholeSteps(h: int, u: int)
    requires -STEPS <= u < STEPS
    ensures (h * STEPS + u) % STEPS == if u < 0 then STEPS + u else u
  {
    DivModUnique(h * STEPS + u, STEPS, if u < 0 then h - 1 else h, if u < 0 then STEPS + u else u);
  }

  lemma StartValue(a: int)
    ensures Start(a) == a * UNIT + -a / 0x800
  {
  }

  lemma StartOfEven(a: int)
    requires IsQ31(a) && a % 2 == 0
    ensures a > 0 ==> Start(a) % STEPS == STEPS + -a / 0x800
    ensures a <= 0 ==> Start(a) % STEPS == -a / 0x800
  {
    hide Start;
    StartValue(a);
    WholeSteps(a / 2, -a / 0x800);
    assert a * UNIT == a / 2 * STEPS;
  }

  lemma StartOfOdd(a: int)
    requires IsQ31(a) && a % 2 == 1
    ensures Start(a) % STEPS == UNIT + -a / 0x800
  {
    hide Start;
    StartValue(a);
    WholeSteps(a / 2, UNIT + -a / 0x800);
    assert a * UNIT == a / 2 * STEPS + UNIT;
  }

  lemma StepsPower()
    ensures Pow2(21) == STEPS && Pow2(20) == UNIT
  {
    Pow2Add(10, 10);
    assert Pow2(10) == 0x400;
  }

  lemma EvenFlat(a: int)
    requires IsQ31(a) && a % 2 == 0 && a % STEPS != 0
    ensures Flat(a) <==> 0 < a <= 0x800 * TwoPart(a)
  {
    hide Start, TwoPart, Pow2;
    StepsPower();
    var q, k := OddMultiple(a, 21);
    var d, e := TwoPart(a), Pow2(k);
    var m, r := OneShort(q, k);
    Pow2Monotone(k, 20);
    LargestResidue(a, d, e, q, m);
    StartOfEven(a);
    assert d <= UNIT by { Pow2Monotone(1, k); HalfBound(d, e); }
    if 0 < a <= 0x800 * d {
      forall n | 0 <= n < UNIT
        ensures a * n % STEPS <= Start(a) % STEPS
      {
        LargestResidue(a, d, e, q, n);
      }
    } else {
      assert a * m % STEPS > Start(a) % STEPS;
    }
  }

  lemma HalfBound(d: int, e: int)
    requires d >= 1 && e >= 2 && d * e == STEPS
    ensures d <= UNIT
  {
    Between(d, 2, e);
  }

  lemma OddPositiveFlat(a: int)
    requires IsQ31(a) && a % 2 == 1 && a > 0
    ensures Flat(a) <==> a == 1
  {
    hide Start;
    StartOfOdd(a);
    if a == 1 {
      assert Flat(a);
    } else {
      var m := OddResidue(a);
      assert a * m % STEPS > Start(a) % STEPS;
    }
  }

  /** An odd number above one has a multiple whose residue is too large. */
  lemma OddResidue(a: int) returns (m: int)
    requires IsQ31(a) && a % 2 == 1 && a > 1
    ensures 0 <= m < UNIT && a * m % STEPS > UNIT + -a / 0x800
  {
    var b := a % STEPS;
    m := if b == 1 then UNIT - 1 else (UNIT + b - 1) / b;
    ResidueOfProduct(a, m);
    if b > 1 { RoundUp(b, m); }
  }

  lemma RoundUp(b: int, m: int)
    requires 3 <= b < STEPS && m == (UNIT + b - 1) / b
    ensures UNIT <= b * m < STEPS && 0 < m < UNIT && (b * m) % STEPS == b * m
  {
    var s := UNIT + b - 1;
    assert s == m * b + s % b;
    assert b * m == m * b;
    if m >= UNIT { Between(b, UNIT, m); }
    if m <= 0 { NonNegative(b, -m); }
    if b > UNIT {
      DivModUnique(s, b, 1, UNIT - 1);
    }
  }

  lemma ResidueOfProduct(a: int, m: int)
    ensures a * m % STEPS == a % STEPS * m % STEPS
  {
    var q, b := a / STEPS, a % STEPS;
    assert a == q * STEPS + b;
    assert a * m == (q * m) * STEPS + b * m;
    var y := b * m;
    DivModUnique(a * m, STEPS, q * m + y / STEPS, y % STEPS);
  }

  /** Which constant tables the function reproduces monotonically: multiples of 2^21; other even entries when they are
      positive and at most 2^11 times the largest power of two that divides them; of the odd positive ones only 1;
      and the odd negative ones whose fractions leave no residue above the limit. */
  lemma ConstantTableIff(t: Table)
    requires AllQ31(t) && |t| > 1 && forall i :: 0 <= i < |t| ==> t[i] == t[0]
    ensures var a := t[0];
      MonotoneFromZero(t) <==>
      if a % STEPS == 0 then true
      else if a % 2 == 0 then 0 < a <= 0x800 * TwoPart(a)
      else if a > 0 then a == 1
      else forall m :: 0 <= m < UNIT ==> a * m % STEPS <= UNIT + -a / 0x800
  {
    hide Start, TwoPart, NeverStepsBack;
    var a := t[0];
    MonotoneFromZeroIff(t);
    assert SegmentsNeverStepBack(t) <==> NeverStepsBack(t[0], t[1]);
    ConstantMonotone(a);
    if a % STEPS == 0 {
      MultiplesFlat(a);
    } else if a % 2 == 0 {
      EvenFlat(a);
    } else if a > 0 {
      OddPositiveFlat(a);
    } else {
      StartOfOdd(a);
    }
  }

  lemma MultiplesFlat(a: int)
    requires a % STEPS == 0
    ensures Flat(a)
  {
    forall m | 0 <= m < UNIT
      ensures a * m % STEPS == 0
    {
      ResidueOfProduct(a, m);
      assert 0 * m == 0;
    }
  }

  /** Both bounds on the step back are reached, on constant tables. */
  lemma Q31StepsBack()
    ensures var t: Table := [-1, -1]; LinearQ31(t, 0) == LinearQ31(t, 1) + 2
    ensures var t: Table := [0x1002, 0x1002]; LinearQ31(t, -1) == LinearQ31(t, 0x7FF) + 4
  {
    hide LinearQ31;
    var t: Table := [-1, -1];
    LinearQ31Value(t, 0);
    LinearQ31Value(t, 1);
    var u: Table := [0x1002, 0x1002];
    LinearQ31Negative(u, -1);
    LinearQ31Value(u, 0x7FF);
  }
}
