/** Linear interpolation of arm_math.h in Q15 and Q7. Coordinates are in 12.20 format. */
module Interpolation {
  import opened Arithmetic
  import opened FixedPoint

  const UNIT: int := 0x10_0000
  /** The largest fraction, used by the source as "one". */
  const TOP: int := 0xF_FFFF

  /** (x & 0xFFF00000) >> 20 and x & 0x000FFFFF on a signed word. */
  function Index(x: int): int { (x - x % UNIT) / UNIT }
  function Fraction(x: int): int { x % UNIT }

  function Min(a: int, b: int): int { if a < b then a else b }
  function Max(a: int, b: int): int { if a < b then b else a }

  type Table = t: seq<int> | 1 <= |t| <= 0x8000_0000 witness [0]

  ghost predicate Nondecreasing(t: Table) {
    forall i, j :: 0 <= i < j < |t| ==> t[i] <= t[j]
  }

  // ---------- linear, Q15 and Q7 ----------

  function LinearQ15(t: Table, x: int): int {
    var index := Index(x);
    if index >= |t| - 1 then t[|t| - 1]
    else if index < 0 then t[0]
    else
      var fract := Fraction(x);
      ToQ15((t[index] * (TOP - fract) + t[index + 1] * fract) / UNIT)
  }

  function LinearQ7(t: Table, x: int): int {
    if x < 0 then t[0]
    else
      var index := x / UNIT % 0x1000;
      if index >= |t| - 1 then t[|t| - 1]
      else
        var fract := Fraction(x);
        ToQ7((t[index] * (TOP - fract) + t[index + 1] * fract) / UNIT)
  }

  /** The blend of two table values. */
  function Blend(a: int, b: int, f: int): int { (a * (TOP - f) + b * f) / UNIT }

  /** Because "one" is one unit short, a blend can fall one below the smaller value, and never exceeds the larger. */
  lemma BlendHull(a: int, b: int, f: int, low: int, high: int)
    requires 0 <= f <= TOP && -0x8000 <= low <= high <= 0x8000
    requires low <= a <= high && low <= b <= high
    ensures low - 1 <= Blend(a, b, f) <= high
  {
    TwoWeights(a, b, TOP - f, f, low, high);
  }

  /** The value with the weights of "one" all on one entry. */
  function Scaled(y: int): int { y * TOP / UNIT }

  lemma BlendBetween(a: int, b: int, f: int)
    requires 0 <= f <= TOP && a <= b
    ensures Scaled(a) <= Blend(a, b, f) <= Scaled(b)
  {
    TwoWeights(a, b, TOP - f, f, a, b);
  }

  lemma BlendMonotone(a: int, b: int, f: int, g: int)
    requires 0 <= f <= g <= TOP && a <= b
    ensures Blend(a, b, f) <= Blend(a, b, g)
  {
    assert (b - a) * (g - f) >= 0;
  }

  lemma ScaledFacts(y: int)
    requires -0x8000 <= y <= 0x8000
    ensures Scaled(y) == if y > 0 then y - 1 else y
  {
  }

  /** The interpolation without casts; both widths compute it. */
  function Linear(t: Table, x: int): int {
    if x < 0 then t[0]
    else if x / UNIT >= |t| - 1 then t[|t| - 1]
    else Blend(t[x / UNIT], t[x / UNIT + 1], x % UNIT)
  }

  lemma LinearHull(t: Table, x: int)
    requires AllQ15(t) && 0 <= x && x / UNIT < |t| - 1
    ensures Min(t[x / UNIT], t[x / UNIT + 1]) - 1 <= Linear(t, x) <= Max(t[x / UNIT], t[x / UNIT + 1])
  {
    var a, b := t[x / UNIT], t[x / UNIT + 1];
    BlendHull(a, b, x % UNIT, Min(a, b), Max(a, b));
  }

  lemma IndexValue(x: int)
    ensures Index(x) == x / UNIT
  {
  }

  lemma LinearQ15IsLinear(t: Table, x: int)
    requires AllQ15(t)
    ensures LinearQ15(t, x) == Linear(t, x)
  {
    IndexValue(x);
    if 0 <= x && x / UNIT < |t| - 1 {
      BlendHull(t[x / UNIT], t[x / UNIT + 1], x % UNIT, -0x8000, 0x7FFF);
      BlendAtLeast(t[x / UNIT], t[x / UNIT + 1], x % UNIT);
    }
  }

  /** The smallest value cannot drop below itself. */
  lemma BlendAtLeast(a: int, b: int, f: int)
    requires 0 <= f <= TOP && -0x8000 <= a <= 0x8000 && -0x8000 <= b <= 0x8000
    ensures a <= 0 && b <= 0 ==> Blend(a, b, f) >= (if a < b then a else b)
    ensures Blend(a, b, f) >= -0x8000
  {
    TwoWeights(a, b, TOP - f, f, if a < b then a else b, 0x8000);
  }

  lemma LinearQ7IsLinear(t: Table, x: int)
    requires AllQ7(t) && IsQ31(x)
    ensures LinearQ7(t, x) == Linear(t, x)
  {
    if 0 <= x && x / UNIT < |t| - 1 {
      var a, b := t[x / UNIT], t[x / UNIT + 1];
      BlendHull(a, b, x % UNIT, -0x80, 0x7F);
      BlendAtLeast(a, b, x % UNIT);
      TwoWeights(a, b, TOP - x % UNIT, x % UNIT, -0x80, 0x7F);
    }
  }

  /** On a nondecreasing table the interpolation is nondecreasing over all coordinates from zero on: within a
      segment, across segment boundaries, and into the clamp at the end. */
  lemma LinearMonotone(t: Table, x: int, x': int)
    requires AllQ15(t) && Nondecreasing(t) && 0 <= x <= x'
    ensures Linear(t, x) <= Linear(t, x')
  {
    hide Blend, Scaled;
    var i, j, n := x / UNIT, x' / UNIT, |t| - 1;
    if i < n {
      BlendBetween(t[i], t[i + 1], x % UNIT);
      ScaledFacts(t[i + 1]);
      if i == j {
        BlendMonotone(t[i], t[i + 1], x % UNIT, x' % UNIT);
      } else if j < n {
        BlendBetween(t[j], t[j + 1], x' % UNIT);
        ScaledFacts(t[j]);
      }
    }
  }

  ghost predicate MonotoneEverywhere(t: Table) {
    forall x, x' :: IsQ31(x) && IsQ31(x') && x <= x' ==> Linear(t, x) <= Linear(t, x')
  }

  /** Over all coordinates, negative ones included, it is nondecreasing exactly when the table has a single entry
      or starts at or below zero: the clamp returns the first entry itself, the first segment starts one lower. */
  lemma MonotoneEverywhereIff(t: Table)
    requires AllQ15(t) && Nondecreasing(t)
    ensures MonotoneEverywhere(t) <==> |t| == 1 || t[0] <= 0
  {
    hide Blend, Scaled;
    ScaledFacts(t[0]);
    if |t| > 1 && t[0] > 0 {
      assert Linear(t, 0) == Scaled(t[0]) by { BlendAtZero(t[0], t[1]); }
      assert Linear(t, -1) == t[0];
    } else {
      forall x, x' | IsQ31(x) && IsQ31(x') && x <= x'
        ensures Linear(t, x) <= Linear(t, x')
      {
        if x >= 0 {
          LinearMonotone(t, x, x');
        } else if x' >= 0 && |t| > 1 {
          if x' / UNIT < |t| - 1 {
            BlendBetween(t[x' / UNIT], t[x' / UNIT + 1], x' % UNIT);
            ScaledFacts(t[x' / UNIT]);
          }
        }
      }
    }
  }

  lemma BlendAtZero(a: int, b: int)
    ensures Blend(a, b, 0) == Scaled(a)
  {
  }

  /** On any table, both functions stay between the two neighbours, widened by one below. */
  lemma SegmentHull(t: Table, x: int)
    requires 0 <= x && IsQ31(x) && x / UNIT < |t| - 1
    ensures AllQ15(t) ==>
      Min(t[x / UNIT], t[x / UNIT + 1]) - 1 <= LinearQ15(t, x) <= Max(t[x / UNIT], t[x / UNIT + 1])
    ensures AllQ7(t) ==>
      Min(t[x / UNIT], t[x / UNIT + 1]) - 1 <= LinearQ7(t, x) <= Max(t[x / UNIT], t[x / UNIT + 1])
  {
    hide Linear, LinearQ15, LinearQ7;
    if AllQ15(t) {
      LinearHull(t, x);
      LinearQ15IsLinear(t, x);
    }
    if AllQ7(t) {
      LinearHull(t, x);
      LinearQ7IsLinear(t, x);
    }
  }

  /** The documented interpolation, 2^20 times: the left entry with weight 1 - f, the right one with weight f. */
  function Formula(a: int, b: int, f: int): int { a * (UNIT - f) + b * f }

  /** The value is the floor of the formula less the left entry's share of the missing unit. */
  predicate NearLine(v: int, a: int, b: int, f: int) {
    UNIT * v + a <= Formula(a, b, f) < UNIT * v + a + UNIT
  }

  lemma BlendNearLine(a: int, b: int, f: int)
    ensures NearLine(Blend(a, b, f), a, b, f)
  {
    Distribute(a, TOP - f, 1);
  }

  /** arm_linear_interp_q15 and arm_linear_interp_q7 at every coordinate, on any table: the first entry below zero, the
      last one from the last index on, and in between the documented formula within the left entry's missing share and
      one unit. */
  lemma LinearNearFormula(t: Table, x: int)
    requires IsQ31(x)
    ensures AllQ15(t) && x < 0 ==> LinearQ15(t, x) == t[0]
    ensures AllQ15(t) && x >= 0 && x / UNIT >= |t| - 1 ==> LinearQ15(t, x) == t[|t| - 1]
    ensures AllQ15(t) && x >= 0 && x / UNIT < |t| - 1 ==>
      NearLine(LinearQ15(t, x), t[x / UNIT], t[x / UNIT + 1], x % UNIT)
    ensures AllQ7(t) && x < 0 ==> LinearQ7(t, x) == t[0]
    ensures AllQ7(t) && x >= 0 && x / UNIT >= |t| - 1 ==> LinearQ7(t, x) == t[|t| - 1]
    ensures AllQ7(t) && x >= 0 && x / UNIT < |t| - 1 ==>
      NearLine(LinearQ7(t, x), t[x / UNIT], t[x / UNIT + 1], x % UNIT)
  {
    hide LinearQ15, LinearQ7, Blend, NearLine;
    if AllQ15(t) { LinearQ15IsLinear(t, x); }
    if AllQ7(t) { LinearQ7IsLinear(t, x); }
    if x >= 0 && x / UNIT < |t| - 1 { BlendNearLine(t[x / UNIT], t[x / UNIT + 1], x % UNIT); }
  }

  /** Halfway between 0 and 1000: 500. */
  lemma Halfway()
    ensures var t: Table := [0, 1000]; LinearQ15(t, 0x8_0000) == 500
  {
    var t: Table := [0, 1000];
    LinearNearFormula(t, 0x8_0000);
  }

  ghost predicate MonotoneQ15(t: Table) {
    forall x, x' :: IsQ31(x) && IsQ31(x') && x <= x' ==> LinearQ15(t, x) <= LinearQ15(t, x')
  }

  ghost predicate MonotoneQ7(t: Table) {
    forall x, x' :: IsQ31(x) && IsQ31(x') && x <= x' ==> LinearQ7(t, x) <= LinearQ7(t, x')
  }

  /** arm_linear_interp_q15: nondecreasing from zero on, within the hull of the segment widened by one below. */
  lemma Q15Interpolates(t: Table, x: int, x': int)
    requires AllQ15(t) && Nondecreasing(t) && 0 <= x <= x'
    ensures LinearQ15(t, x) <= LinearQ15(t, x')
    ensures x / UNIT < |t| - 1 ==> t[x / UNIT] - 1 <= LinearQ15(t, x) <= t[x / UNIT + 1]
  {
    hide Linear, LinearQ15;
    LinearQ15IsLinear(t, x);
    LinearQ15IsLinear(t, x');
    LinearMonotone(t, x, x');
    if x / UNIT < |t| - 1 { LinearHull(t, x); }
  }

  /** arm_linear_interp_q7: the same. */
  lemma Q7Interpolates(t: Table, x: int, x': int)
    requires AllQ7(t) && Nondecreasing(t) && 0 <= x <= x' && IsQ31(x')
    ensures LinearQ7(t, x) <= LinearQ7(t, x')
    ensures x / UNIT < |t| - 1 ==> t[x / UNIT] - 1 <= LinearQ7(t, x) <= t[x / UNIT + 1]
  {
    hide Linear, LinearQ7;
    LinearQ7IsLinear(t, x);
    LinearQ7IsLinear(t, x');
    LinearMonotone(t, x, x');
    if x / UNIT < |t| - 1 { LinearHull(t, x); }
  }

  /** Over the whole signed coordinate range both functions are monotone on exactly the same tables. */
  lemma WholeRangeMonotoneIff(t: Table)
    requires Nondecreasing(t)
    ensures AllQ15(t) ==> (MonotoneQ15(t) <==> |t| == 1 || t[0] <= 0)
    ensures AllQ7(t) ==> (MonotoneQ7(t) <==> |t| == 1 || t[0] <= 0)
  {
    hide Linear, LinearQ15, LinearQ7;
    if AllQ15(t) {
      MonotoneEverywhereIff(t);
      forall x ensures LinearQ15(t, x) == Linear(t, x) { LinearQ15IsLinear(t, x); }
    }
    if AllQ7(t) {
      MonotoneEverywhereIff(t);
      forall x | IsQ31(x) ensures LinearQ7(t, x) == Linear(t, x) { LinearQ7IsLinear(t, x); }
    }
  }
}
