/** arm_pid_q15: the incremental PID controller in its portable form and in its packed DSP form. */
module Pid {
  import opened Arithmetic
  import opened FixedPoint

  const ONE: int := 0x8000

  /** Gains, the last two inputs and the last output. */
  datatype Controller = Controller(a0: int, a1: int, a2: int, x1: int, x2: int, y: int) {
    predicate Valid() {
      IsQ15(a0) && IsQ15(a1) && IsQ15(a2) && IsQ15(x1) && IsQ15(x2) && IsQ15(y)
    }
  }

  /** __SSAT: the portable function on a 32-bit value. */
  function Ssat(value: int, max: int): int {
    if value > max then max else if value < -1 - max then -1 - max else value
  }

  /** The 64-bit accumulator of the portable branch. */
  function Accumulate(c: Controller, x: int): int {
    c.a0 * x + c.a1 * c.x1 + c.a2 * c.x2 + c.y * ONE
  }

  /** Discard 15 fractional bits, saturate to 16 bits, and shift the inputs. */
  function Finish(c: Controller, x: int, acc: int): Controller {
    c.(x1 := x, x2 := c.x1, y := ToQ15(Ssat(ToQ31(acc / ONE), 0x7FFF)))
  }

  function Step(c: Controller, x: int): Controller { Finish(c, x, Accumulate(c, x)) }

  lemma ProductBound(a: int, b: int)
    requires IsQ15(a) && IsQ15(b)
    ensures -0x4000_0000 <= a * b <= 0x4000_0000
  {
    AbsProduct(a, b, 0x8000, 0x8000);
  }

  lemma AccumulateBound(c: Controller, x: int)
    requires c.Valid() && IsQ15(x)
    ensures -0x1_0000_0000 <= Accumulate(c, x) <= 0x1_0000_0000
  {
    ProductBound(c.a0, x);
    ProductBound(c.a1, c.x1);
    ProductBound(c.a2, c.x2);
  }

  /** The casts around the saturation lose nothing: the output is the clamped quotient. */
  lemma StepOutput(c: Controller, x: int, acc: int)
    requires -0x2_0000_0000 <= acc <= 0x2_0000_0000
    ensures Finish(c, x, acc).y == Clamp(acc / ONE, -ONE, ONE - 1)
  {
  }

  // ---------- runs ----------

  function Run(c: Controller, xs: seq<int>): Controller
    decreases |xs|
  {
    if xs == [] then c else Step(Run(c, xs[..|xs| - 1]), xs[|xs| - 1])
  }

  ghost predicate Inputs(xs: seq<int>) {
    forall i :: 0 <= i < |xs| ==> IsQ15(xs[i])
  }

  lemma {:induction false} RunValid(c: Controller, xs: seq<int>)
    requires c.Valid() && Inputs(xs)
    ensures Run(c, xs).Valid()
    decreases |xs|
  {
    if xs != [] { RunValid(c, xs[..|xs| - 1]); }
  }

  /** What the step on the last input discards: fractional bits, or the amount cut off by saturation. */
  function Residue(c: Controller, xs: seq<int>): int
    requires xs != []
  {
    var before := Run(c, xs[..|xs| - 1]);
    Accumulate(before, xs[|xs| - 1]) - ONE * Run(c, xs).y
  }

  function ResidueSum(c: Controller, xs: seq<int>): int
    decreases |xs|
  {
    if xs == [] then 0 else ResidueSum(c, xs[..|xs| - 1]) + Residue(c, xs)
  }

  function Sum(xs: seq<int>): int
    decreases |xs|
  {
    if xs == [] then 0 else Sum(xs[..|xs| - 1]) + xs[|xs| - 1]
  }

  /** Input `k` samples before the end of the run; zero before its start. */
  function Past(xs: seq<int>, k: nat): int
    requires k >= 1
  {
    if k <= |xs| then xs[|xs| - k] else 0
  }

  /** The textbook PID law: proportional, integral and derivative terms. */
  function Positional(kp: int, ki: int, kd: int, xs: seq<int>): int {
    kp * Past(xs, 1) + ki * Sum(xs) + kd * (Past(xs, 1) - Past(xs, 2))
  }

  /** The gains that the initialisation derives, and zero state. */
  function Initial(kp: int, ki: int, kd: int): Controller {
    Controller(kp + ki + kd, -kp - 2 * kd, kd, 0, 0, 0)
  }

  lemma {:induction false} RunHistory(c: Controller, xs: seq<int>)
    requires c.x1 == 0 && c.x2 == 0
    ensures var r := Run(c, xs); r.a0 == c.a0 && r.a1 == c.a1 && r.a2 == c.a2 && r.x1 == Past(xs, 1) && r.x2 == Past(xs, 2)
    decreases |xs|
  {
    if xs != [] { RunHistory(c, xs[..|xs| - 1]); }
  }

  /** One increment of the positional law. */
  lemma Increment(kp: int, ki: int, kd: int, xs: seq<int>, x: int)
    ensures Positional(kp, ki, kd, xs + [x]) ==
      Positional(kp, ki, kd, xs) + (kp + ki + kd) * x + (-kp - 2 * kd) * Past(xs, 1) + kd * Past(xs, 2)
  {
    assert (xs + [x])[..|xs|] == xs;
    var p, q := Past(xs, 1), Past(xs, 2);
    assert Past(xs + [x], 1) == x && Past(xs + [x], 2) == p;
    IncrementTerms(kp, ki, kd, x, p, q, Sum(xs));
  }

  lemma IncrementTerms(kp: int, ki: int, kd: int, x: int, p: int, q: int, s: int)
    ensures kp * x + ki * (s + x) + kd * (x - p) ==
      kp * p + ki * s + kd * (p - q) + (kp + ki + kd) * x + (-kp - 2 * kd) * p + kd * q
  {
  }

  /** Conservation, on every run and through any saturation: the positional law and the scaled output differ by
      exactly what the steps discarded. */
  lemma {:induction false} Conservation(kp: int, ki: int, kd: int, xs: seq<int>)
    ensures Positional(kp, ki, kd, xs) - ONE * Run(Initial(kp, ki, kd), xs).y == ResidueSum(Initial(kp, ki, kd), xs)
    decreases |xs|
  {
    hide Finish;
    if xs != [] {
      var ys, x, c := xs[..|xs| - 1], xs[|xs| - 1], Initial(kp, ki, kd);
      Conservation(kp, ki, kd, ys);
      Increment(kp, ki, kd, ys, x);
      assert ys + [x] == xs;
      RunHistory(c, ys);
    }
  }

  /** The last step of the run delivered its quotient unclamped. */
  predicate Unsaturated(c: Controller, xs: seq<int>)
    requires xs != []
  {
    IsQ15(Accumulate(Run(c, xs[..|xs| - 1]), xs[|xs| - 1]) / ONE)
  }

  /** A step discards between 0 and 2^15 - 1 exactly when it does not saturate. */
  lemma ResidueRange(c: Controller, xs: seq<int>)
    requires c.Valid() && Inputs(xs) && xs != []
    ensures 0 <= Residue(c, xs) <= ONE - 1 <==> Unsaturated(c, xs)
  {
    hide Finish, Accumulate;
    var before, x := Run(c, xs[..|xs| - 1]), xs[|xs| - 1];
    RunValid(c, xs[..|xs| - 1]);
    AccumulateBound(before, x);
    StepOutput(before, x, Accumulate(before, x));
  }

  ghost predicate NeverSaturates(c: Controller, xs: seq<int>) {
    forall n :: 1 <= n <= |xs| ==> Unsaturated(c, xs[..n])
  }

  /** On a run without saturation the output drifts below the positional law by at most one LSB per sample. */
  lemma {:induction false} DriftBound(kp: int, ki: int, kd: int, xs: seq<int>)
    requires Initial(kp, ki, kd).Valid() && Inputs(xs) && NeverSaturates(Initial(kp, ki, kd), xs)
    ensures 0 <= Positional(kp, ki, kd, xs) - ONE * Run(Initial(kp, ki, kd), xs).y <= |xs| * (ONE - 1)
    decreases |xs|
  {
    Conservation(kp, ki, kd, xs);
    ResidueSumBound(Initial(kp, ki, kd), xs);
  }

  lemma {:induction false} ResidueSumBound(c: Controller, xs: seq<int>)
    requires c.Valid() && Inputs(xs) && NeverSaturates(c, xs)
    ensures 0 <= ResidueSum(c, xs) <= |xs| * (ONE - 1)
    decreases |xs|
  {
    hide Unsaturated, Residue;
    if xs != [] {
      var ys := xs[..|xs| - 1];
      assert forall n :: 1 <= n <= |ys| ==> ys[..n] == xs[..n];
      ResidueSumBound(c, ys);
      assert xs[..|xs|] == xs;
      ResidueRange(c, xs);
    }
  }

  // ---------- the DSP branch ----------

  function LowHalf(u: int): int { ToQ15(u % 0x1_0000) }
  function HighHalf(u: int): int { ToQ15(u / 0x1_0000) }

  /** Two Q15 values in one word, the first in the low half. */
  function Pack(low: int, high: int): (u: int) { low % 0x1_0000 + high % 0x1_0000 * 0x1_0000 }

  /** SMUAD: dual 16-bit multiply, sum of the products, 32-bit result. */
  function Smuad(x: int, y: int): int { ToU32(LowHalf(x) * LowHalf(y) + HighHalf(x) * HighHalf(y)) }

  /** SMLALD: the same sum added to a 64-bit accumulator. */
  function Smlald(x: int, y: int, sum: int): int { LowHalf(x) * LowHalf(y) + HighHalf(x) * HighHalf(y) + sum }

  /** The accumulator of the DSP branch; A1 holds a1 and a2 in its halves, and A0 and the input are sign-extended. */
  function AccumulateDsp(c: Controller, x: int): int {
    Smlald(Pack(c.a1, c.a2), Pack(c.x1, c.x2), ToQ31(Smuad(ToU32(c.a0), ToU32(x)))) + c.y * ONE
  }

  function StepDsp(c: Controller, x: int): Controller { Finish(c, x, AccumulateDsp(c, x)) }

  /** 1 when the sign words of gain and input multiply to one. */
  function SignProduct(c: Controller, x: int): int { if c.a0 < 0 && x < 0 then 1 else 0 }

  /** The halves of a word made of two. */
  lemma HalvesOfWord(low: int, high: int)
    requires 0 <= low < 0x1_0000 && 0 <= high < 0x1_0000
    ensures (low + high * 0x1_0000) % 0x1_0000 == low && (low + high * 0x1_0000) / 0x1_0000 == high
  {
  }

  lemma CastHalf(a: int)
    requires IsQ15(a)
    ensures 0 <= a % 0x1_0000 < 0x1_0000 && ToQ15(a % 0x1_0000) == a
    ensures a % 0x1_0000 == if a < 0 then a + 0x1_0000 else a
  {
  }

  lemma SignExtended(a: int)
    requires IsQ15(a)
    ensures ToU32(a) == a % 0x1_0000 + (if a < 0 then 0xFFFF else 0) * 0x1_0000
  {
    hide ToQ15;
    CastHalf(a);
  }

  lemma Halves(a: int)
    requires IsQ15(a)
    ensures LowHalf(ToU32(a)) == a && HighHalf(ToU32(a)) == if a < 0 then -1 else 0
  {
    hide ToU32, ToQ15;
    SignExtended(a);
    CastHalf(a);
    CastHalf(-1);
    HalvesOfWord(a % 0x1_0000, if a < 0 then 0xFFFF else 0);
  }

  lemma PackHalves(a: int, b: int)
    requires IsQ15(a) && IsQ15(b)
    ensures LowHalf(Pack(a, b)) == a && HighHalf(Pack(a, b)) == b
  {
    hide ToQ15;
    CastHalf(a);
    CastHalf(b);
    HalvesOfWord(a % 0x1_0000, b % 0x1_0000);
  }

  /** SMUAD of two sign-extended halfwords: their product, plus the product of the sign words. */
  lemma SmuadValue(a: int, x: int)
    requires IsQ15(a) && IsQ15(x)
    ensures ToQ31(Smuad(ToU32(a), ToU32(x))) == a * x + if a < 0 && x < 0 then 1 else 0
  {
    hide LowHalf, HighHalf, ToU32, ToQ31;
    Halves(a);
    Halves(x);
    ProductBound(a, x);
    var signs := if a < 0 && x < 0 then 1 else 0;
    assert HighHalf(ToU32(a)) * HighHalf(ToU32(x)) == signs;
    CastBack(a * x + signs);
  }

  lemma CastBack(v: int)
    requires IsQ31(v)
    ensures ToQ31(ToU32(v)) == v
  {
  }

  lemma SmlaldValue(a: int, b: int, x: int, y: int, sum: int)
    requires IsQ15(a) && IsQ15(b) && IsQ15(x) && IsQ15(y)
    ensures Smlald(Pack(a, b), Pack(x, y), sum) == a * x + b * y + sum
  {
    hide LowHalf, HighHalf, Pack;
    PackHalves(a, b);
    PackHalves(x, y);
  }

  /** The two accumulators agree except for the product of the two sign words. */
  lemma DspAccumulator(c: Controller, x: int)
    requires c.Valid() && IsQ15(x)
    ensures AccumulateDsp(c, x) == Accumulate(c, x) + SignProduct(c, x)
  {
    hide Smuad, Smlald, Pack, ToU32, ToQ31;
    SmuadValue(c.a0, x);
    SmlaldValue(c.a1, c.a2, c.x1, c.x2, ToQ31(Smuad(ToU32(c.a0), ToU32(x))));
  }

  /** One step from equal states: the outputs differ by at most one LSB. */
  lemma OneStepDifference(c: Controller, x: int)
    requires c.Valid() && IsQ15(x)
    ensures 0 <= StepDsp(c, x).y - Step(c, x).y <= SignProduct(c, x)
  {
    StepDifference(c, c, x);
  }

  /** Exactly when one step differs: the DSP output is one higher when A0 and the input are negative, the extra unit carries
      out of the fraction and the quotient is not saturated; otherwise the outputs are equal. */
  lemma DspDiffersIff(c: Controller, x: int)
    requires c.Valid() && IsQ15(x)
    ensures var acc := Accumulate(c, x);
      StepDsp(c, x).y ==
        Step(c, x).y + if c.a0 < 0 && x < 0 && acc % ONE == ONE - 1 && -ONE <= acc / ONE < ONE - 1 then 1 else 0
    ensures StepDsp(c, x) == Step(c, x).(y := StepDsp(c, x).y)
  {
    hide Accumulate, AccumulateDsp, Ssat, ToQ15, ToQ31;
    DspAccumulator(c, x);
    AccumulateBound(c, x);
    StepOutput(c, x, Accumulate(c, x));
    StepOutput(c, x, AccumulateDsp(c, x));
    NextQuotient(Accumulate(c, x));
  }

  lemma NextQuotient(acc: int)
    ensures (acc + 1) / ONE == acc / ONE + if acc % ONE == ONE - 1 then 1 else 0
  {
  }

  /** The smallest product that shows it: A0 = -1 and input -0x7FFF, from zero state. */
  lemma DspDiffersExample()
    ensures var c := Controller(-1, 0, 0, 0, 0, 0); Step(c, -0x7FFF).y == 0 && StepDsp(c, -0x7FFF).y == 1
  {
    hide StepDsp, Finish;
    var c := Controller(-1, 0, 0, 0, 0, 0);
    DspDiffersIff(c, -0x7FFF);
    StepOutput(c, -0x7FFF, Accumulate(c, -0x7FFF));
  }

  /** One step from states with outputs that already differ by `d.y - c.y`. */
  lemma StepDifference(c: Controller, d: Controller, x: int)
    requires c.Valid() && d.Valid() && IsQ15(x) && d == c.(y := d.y) && c.y <= d.y
    ensures 0 <= StepDsp(d, x).y - Step(c, x).y <= d.y - c.y + SignProduct(c, x)
  {
    hide Accumulate, AccumulateDsp, Finish;
    DspAccumulator(d, x);
    AccumulateBound(c, x);
    AccumulateBound(d, x);
    assert Accumulate(d, x) == Accumulate(c, x) + (d.y - c.y) * ONE by { AccumulateLinear(c, d.y, x); }
    StepOutput(c, x, Accumulate(c, x));
    StepOutput(d, x, AccumulateDsp(d, x));
  }

  lemma AccumulateLinear(c: Controller, y: int, x: int)
    ensures Accumulate(c.(y := y), x) == Accumulate(c, x) + (y - c.y) * ONE
  {
  }

  function RunDsp(c: Controller, xs: seq<int>): Controller
    decreases |xs|
  {
    if xs == [] then c else StepDsp(RunDsp(c, xs[..|xs| - 1]), xs[|xs| - 1])
  }

  /** The number of samples whose sign words meet a negative A0. */
  function SignProducts(a0: int, xs: seq<int>): nat
    decreases |xs|
  {
    if xs == [] then 0 else SignProducts(a0, xs[..|xs| - 1]) + if a0 < 0 && xs[|xs| - 1] < 0 then 1 else 0
  }

  /** Over whole runs, through any saturation, the DSP form stays between the portable form and the portable form
      plus one LSB for each negative input met by a negative A0; with A0 >= 0 the two are equal. */
  lemma {:induction false} RunDifference(c: Controller, xs: seq<int>)
    requires c.Valid() && Inputs(xs)
    ensures var p, d := Run(c, xs), RunDsp(c, xs);
      d == p.(y := d.y) && 0 <= d.y - p.y <= SignProducts(c.a0, xs) && p.a0 == c.a0 && p.Valid() && d.Valid()
    decreases |xs|
  {
    if xs != [] {
      hide Accumulate, AccumulateDsp;
      var ys := xs[..|xs| - 1];
      RunDifference(c, ys);
      StepDifference(Run(c, ys), RunDsp(c, ys), xs[|xs| - 1]);
    }
  }

  // ---------- the instance ----------

  class Instance {
    const a0: int
    const a1: int
    const a2: int
    var state: seq<int>

    constructor (a0: int, a1: int, a2: int)
      requires IsQ15(a0) && IsQ15(a1) && IsQ15(a2)
      ensures Valid() && Abs() == Controller(a0, a1, a2, 0, 0, 0)
    {
      this.a0, this.a1, this.a2 := a0, a1, a2;
      state := [0, 0, 0];
    }

    ghost predicate Valid()
      reads this
    {
      |state| == 3 && Abs().Valid()
    }

    ghost function Abs(): Controller
      reads this
      requires |state| == 3
    {
      Controller(a0, a1, a2, state[0], state[1], state[2])
    }

    /** The portable branch. */
    method Process(x: int) returns (out: int)
      requires Valid() && IsQ15(x)
      modifies this
      ensures Valid() && Abs() == Step(old(Abs()), x) && state == [x, old(state)[0], out]
      ensures var s := old(state);
        out == Clamp((a0 * x + a1 * s[0] + a2 * s[1] + s[2] * 0x8000) / 0x8000, -0x8000, 0x7FFF)
    {
      AccumulateBound(Abs(), x);
      StepOutput(Abs(), x, Accumulate(Abs(), x));
      var acc := a0 * x;
      acc := acc + a1 * state[0];
      acc := acc + a2 * state[1];
      acc := acc + state[2] * ONE;
      out := ToQ15(Ssat(ToQ31(acc / ONE), 0x7FFF));
      state := state[1 := state[0]];
      state := state[0 := x];
      state := state[2 := out];
    }

    /** The DSP branch: the sign words of gain and input add one when both are negative. */
    method ProcessDsp(x: int) returns (out: int)
      requires Valid() && IsQ15(x)
      modifies this
      ensures Valid() && Abs() == StepDsp(old(Abs()), x) && state == [x, old(state)[0], out]
      ensures var s, extra := old(state), if a0 < 0 && x < 0 then 1 else 0;
        out == Clamp((a0 * x + a1 * s[0] + a2 * s[1] + s[2] * 0x8000 + extra) / 0x8000, -0x8000, 0x7FFF)
    {
      hide Smuad, Smlald, Pack, ToU32;
      DspAccumulator(Abs(), x);
      AccumulateBound(Abs(), x);
      StepOutput(Abs(), x, AccumulateDsp(Abs(), x));
      var acc := ToQ31(Smuad(ToU32(a0), ToU32(x)));
      acc := Smlald(Pack(a1, a2), Pack(state[0], state[1]), acc);
      acc := acc + state[2] * ONE;
      out := ToQ15(Ssat(ToQ31(acc / ONE), 0x7FFF));
      state := state[1 := state[0]];
      state := state[0 := x];
      state := state[2 := out];
    }
  }
}
