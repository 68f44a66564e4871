/** arm_recip_q31 and arm_recip_q15: a table entry refined by two Newton steps in fixed point. */
module Reciprocal {
  import opened Arithmetic
  import opened Bits
  import opened FixedPoint

  // ---------- one Newton step, in units of H = 2^(w-1) for w fractional bits ----------

  /** The error of `t` as the reciprocal of `n`: zero when n * t is exactly 2 * H^2. */
  function Error(h: int, n: int, t: int): int { 2 * h * h - n * t }

  /** out * (2H - 1 - floor(n * out / 2H)) / H, without the casts. */
  function NewtonStep(h: int, n: int, t: int): int
    requires h > 0
  {
    t * (2 * h - 1 - n * t / (2 * h)) / h
  }

  lemma ScaleProduct(n: int, t: int, temp: int, o: int, h: int, s: int)
    requires t * temp == o * h + s
    ensures (n * o) * h == (n * t) * temp - n * s
  {
    assert n * (t * temp) == n * (o * h) + n * s;
    assert n * (t * temp) == (n * t) * temp;
    assert n * (o * h) == (n * o) * h;
  }

  lemma ScaleTemp(x: int, temp: int, h: int, y: int)
    requires temp * (2 * h) == y
    ensures (x * temp) * (2 * h) == x * y
  {
    assert (x * temp) * (2 * h) == x * (temp * (2 * h));
  }

  /** With a = 2H^2 and k = 2H: the square completes. */
  lemma CompleteSquare(a: int, k: int, x: int, r: int)
    ensures a * a - x * (2 * a - k - x + r) == (a - x) * (a - x) + x * (k - r)
  {
  }

  lemma SumUp(a: int, no: int, h: int, xt: int, ns: int)
    requires no * h == xt - ns && a == 2 * h * h
    ensures no * a == xt * (2 * h) - 2 * h * ns
  {
    assert no * a == (no * h) * (2 * h);
  }

  /** The new error, scaled, is the square of the old error plus two truncation terms. */
  lemma NewtonIdentity(h: int, n: int, t: int) returns (r: int, s: int)
    requires h > 0
    ensures 0 <= r < 2 * h && 0 <= s < h
    ensures Error(h, n, NewtonStep(h, n, t)) * (2 * h * h) ==
      Error(h, n, t) * Error(h, n, t) + n * t * (2 * h - r) + 2 * h * (n * s)
  {
    var x := n * t;
    var q := x / (2 * h);
    r := x % (2 * h);
    var temp := 2 * h - 1 - q;
    var o := t * temp / h;
    s := t * temp % h;
    NewtonAlgebra(h, n, t, q, r, o, s);
  }

  lemma NewtonAlgebra(h: int, n: int, t: int, q: int, r: int, o: int, s: int)
    requires n * t == q * (2 * h) + r && t * (2 * h - 1 - q) == o * h + s
    ensures (2 * h * h - n * o) * (2 * h * h) ==
      (2 * h * h - n * t) * (2 * h * h - n * t) + n * t * (2 * h - r) + 2 * h * (n * s)
  {
    var x, a, temp := n * t, 2 * h * h, 2 * h - 1 - q;
    TempScaled(h, x, q, r);
    ScaleProduct(n, t, temp, o, h, s);
    ScaleTemp(x, temp, h, 2 * a - 2 * h - x + r);
    SumUp(a, n * o, h, x * temp, n * s);
    Assemble(a, 2 * h, x, r, n * o, x * temp * (2 * h), 2 * h * (n * s));
  }

  lemma Assemble(a: int, k: int, x: int, r: int, no: int, y: int, z: int)
    requires no * a == y - z && y == x * (2 * a - k - x + r)
    ensures (a - no) * a == (a - x) * (a - x) + x * (k - r) + z
  {
    CompleteSquare(a, k, x, r);
    Distribute(a, a, no);
  }

  lemma TempScaled(h: int, x: int, q: int, r: int)
    requires x == q * (2 * h) + r
    ensures (2 * h - 1 - q) * (2 * h) == 2 * (2 * h * h) - 2 * h - x + r
  {
  }

  /** A step never overestimates, and leaves at most the squared error plus a bounded truncation. */
  lemma NewtonBounds(h: int, n: int, t: int)
    requires h > 0 && n > 0 && t > 0
    ensures var e, e' := Error(h, n, t), Error(h, n, NewtonStep(h, n, t));
      0 < e' && e' * (2 * h * h) <= e * e + n * t * (2 * h) + 2 * h * (n * h)
  {
    hide Error, NewtonStep;
    var r, s := NewtonIdentity(h, n, t);
    var e, e', a := Error(h, n, t), Error(h, n, NewtonStep(h, n, t)), 2 * h * h;
    Positive(n, t);
    Positive(h, h);
    var x := n * t;
    Positive(x, 2 * h - r);
    Between(x, 2 * h - r, 2 * h);
    NonNegative(n, s);
    Between(n, s, h);
    NonNegative(2 * h, n * s);
    Between(2 * h, n * s, n * h);
    NonNegative(e, e);
    assert e' * a > 0;
    if e' <= 0 { NonNegative(-e', a); }
  }

  // ---------- 31 fractional bits ----------

  const H31: int := 0x4000_0000

  /** One step for normalised `n`, from error at most `b` on either side. */
  lemma Q31Pass(n: int, t: int, b: int)
    requires H31 <= n < 2 * H31 && t > 0 && -b <= Error(H31, n, t) <= b
    ensures 0 < Error(H31, n, NewtonStep(H31, n, t))
    ensures Error(H31, n, NewtonStep(H31, n, t)) * (2 * H31 * H31) <=
      b * b + (2 * H31 * H31 + b) * (2 * H31) + 4 * H31 * H31 * H31
  {
    hide NewtonStep;
    NewtonBounds(H31, n, t);
    AbsProduct(Error(H31, n, t), Error(H31, n, t), b, b);
  }

  /** From a table entry with |2^61 - n t| <= 2^54, two steps give 0 < 2^61 - n out < 2^34. */
  lemma Q31TwoPasses(n: int, t: int)
    requires H31 <= n < 2 * H31 && t > 0
    requires -0x40_0000_0000_0000 <= Error(H31, n, t) <= 0x40_0000_0000_0000
    ensures var out := NewtonStep(H31, n, t);
      && 0 < out < 0x8000_0000
      && 0 < Error(H31, n, NewtonStep(H31, n, out)) < 0x4_0000_0000
      && 0 < NewtonStep(H31, n, out) < 0x8000_0000
  {
    hide NewtonStep;
    Q31Pass(n, t, 0x40_0000_0000_0000);
    var out := NewtonStep(H31, n, t);
    assert Error(H31, n, out) <= 0x8002_0000_0000;
    assert out > 0;
    assert out < 0x8000_0000;
    Q31Pass(n, out, 0x8002_0000_0000);
  }

  // ---------- 15 fractional bits ----------

  const H15: int := 0x4000

  lemma Q15Pass(n: int, t: int, b: int)
    requires H15 <= n < 2 * H15 && t > 0 && -b <= Error(H15, n, t) <= b
    ensures 0 < Error(H15, n, NewtonStep(H15, n, t))
    ensures Error(H15, n, NewtonStep(H15, n, t)) * (2 * H15 * H15) <=
      b * b + (2 * H15 * H15 + b) * (2 * H15) + 4 * H15 * H15 * H15
  {
    hide NewtonStep;
    NewtonBounds(H15, n, t);
    AbsProduct(Error(H15, n, t), Error(H15, n, t), b, b);
  }

  /** From a table entry with |2^29 - n t| <= 2^22, two steps give 0 < 2^29 - n out < 2^16 + 2^5. */
  lemma Q15TwoPasses(n: int, t: int)
    requires H15 <= n < 2 * H15 && t > 0
    requires -0x40_0000 <= Error(H15, n, t) <= 0x40_0000
    ensures var out := NewtonStep(H15, n, t);
      && 0 < out < 0x8000
      && 0 < Error(H15, n, NewtonStep(H15, n, out)) < 0x1_0020
      && 0 < NewtonStep(H15, n, out) < 0x8000
  {
    hide NewtonStep;
    Q15Pass(n, t, 0x40_0000);
    var out := NewtonStep(H15, n, t);
    assert Error(H15, n, out) <= 0x1_8100;
    assert out > 0;
    assert out < 0x8000;
    Q15Pass(n, out, 0x1_8100);
  }

  // ---------- normalisation and table lookup ----------

  function Log2(v: nat): nat {
    if v < 2 then 0 else 1 + Log2(v / 2)
  }

  /** Leading zeros of a 32-bit word. */
  function Clz(v: nat): int {
    if v == 0 then 32 else 31 - Log2(v)
  }

  lemma {:induction false} Log2Bounds(v: nat)
    requires v > 0
    ensures Pow2(Log2(v)) <= v < Pow2(Log2(v) + 1)
  {
    if v >= 2 { Log2Bounds(v / 2); }
  }

  lemma {:induction false} ShlMonotone(x: nat, y: nat, n: nat)
    requires x <= y
    ensures Shl(x, n) <= Shl(y, n)
    ensures x < y ==> Shl(x, n) < Shl(y, n)
    decreases n
  {
    if n > 0 { ShlMonotone(x, y, n - 1); }
  }

  lemma {:induction false} ShlPow2(a: nat, n: nat)
    ensures Shl(Pow2(a), n) == Pow2(a + n)
    decreases n
  {
    if n > 0 { ShlPow2(a, n - 1); }
  }

  /** Shifting a positive word of at most `w + 1` bits left by its spare zeros puts its top bit at position `w`. */
  lemma Normalised(v: nat, w: nat)
    requires 0 < v < Pow2(w + 1)
    ensures Log2(v) <= w && Pow2(w) <= Shl(v, w - Log2(v)) < Pow2(w + 1)
  {
    hide Shl, Log2, Pow2;
    Log2Bounds(v);
    var l := Log2(v);
    if l > w { Pow2Monotone(w + 1, l); }
    ShlMonotone(Pow2(l), v, w - l);
    ShlMonotone(v, Pow2(l + 1), w - l);
    ShlPow2(l, w - l);
    ShlPow2(l + 1, w - l);
  }

  lemma Powers31()
    ensures Pow2(6) == 64 && Pow2(8) == 0x100 && Pow2(14) == 0x4000 && Pow2(15) == 0x8000
    ensures Pow2(24) == 0x100_0000 && Pow2(30) == 0x4000_0000 && Pow2(31) == 0x8000_0000
  {
    assert Pow2(8) == 0x100;
    Pow2Add(8, 6);
    Pow2Add(8, 8);
    Pow2Add(16, 8);
    Pow2Add(24, 6);
  }

  /** The table index: six bits below the leading one, of the 32-bit word of a signed value. */
  function TableIndex(n: int, p: int): nat
    requires p > 0
  {
    And(ToU32(n / p), Ones(6))
  }

  lemma TableIndexValue(n: int, p: int)
    requires p > 0
    ensures TableIndex(n, p) == n / p % 64
  {
    hide And, Low, Shr;
    hide ToU32;
    Powers31();
    AndOnes(ToU32(n / p), 6);
    AsDivMod(ToU32(n / p), 6, 64);
    WordMod(n / p);
  }

  lemma WordMod(x: int)
    ensures ToU32(x) % 64 == x % 64
  {
    var q, r := x / TWO_32, x % TWO_32;
    assert x == q * TWO_32 + r;
    DivModUnique(x, 64, q * 0x400_0000 + r / 64, r % 64);
  }

  /** An entry accurate enough for `n`. */
  predicate GoodEntry(h: int, n: int, t: int, tolerance: int) {
    0 < t < 2 * h && -tolerance <= Error(h, n, t) <= tolerance
  }

  /** What the results below ask of the entry selected for `n`: accuracy for positive inputs; otherwise only that it
      is the size that entries of a reciprocal table have. */
  predicate Serves(h: int, n: int, t: int, tolerance: int) {
    if n > 0 then GoodEntry(h, n, t, tolerance) else 7 * h <= 8 * t < 16 * h && (n == 0 ==> t > h)
  }

  lemma ServingEntryRange(h: int, n: int, t: int)
    requires n <= 0 && Serves(h, n, t, 0x40_0000)
    ensures 0 <= t < 2 * h || h <= 0
  {
  }

  function Magnitude(x: int): nat { if x < 0 then -x else x }

  /** The shift that arm_recip_q31 applies: the leading zeros of the magnitude, less one. */
  function Shift31(input: int): nat
    requires -0x8000_0000 < input < 0x8000_0000
  {
    Powers31();
    if input != 0 then Normalised(Magnitude(input), 30); Clz(Magnitude(input)) - 1 else 31
  }

  /** The input as arm_recip_q31 normalises it. */
  function Normalise31(input: int): int
    requires -0x8000_0000 < input < 0x8000_0000
  {
    var n: int := Shl(Magnitude(input), Shift31(input));
    if input < 0 then -n else n
  }

  function Shift15(input: int): nat
    requires -0x8000 < input < 0x8000
  {
    Powers31();
    if input != 0 then Normalised(Magnitude(input), 14); Clz(Magnitude(input)) - 17 else 15
  }

  function Normalise15(input: int): int
    requires -0x8000 < input < 0x8000
  {
    var n: int := Shl(Magnitude(input), Shift15(input));
    if input < 0 then -n else n
  }

  lemma {:induction false} ShlOfZero(n: nat)
    ensures Shl(0, n) == 0
  {
    if n > 0 { ShlOfZero(n - 1); }
  }

  lemma Normalise31Range(input: int)
    requires -0x8000_0000 < input < 0x8000_0000
    ensures input > 0 ==> H31 <= Normalise31(input) < 2 * H31 && Shift31(input) <= 30
    ensures input < 0 ==> -2 * H31 < Normalise31(input) <= -H31 && Shift31(input) <= 30
    ensures input == 0 ==> Normalise31(input) == 0
  {
    hide Shl, Log2;
    Powers31();
    ShlOfZero(31);
    if input != 0 { Normalised(Magnitude(input), 30); }
  }

  lemma Normalise15Range(input: int)
    requires -0x8000 < input < 0x8000
    ensures input > 0 ==> H15 <= Normalise15(input) < 2 * H15 && Shift15(input) <= 14
    ensures input < 0 ==> -2 * H15 < Normalise15(input) <= -H15 && Shift15(input) <= 14
    ensures input == 0 ==> Normalise15(input) == 0
  {
    hide Shl, Log2;
    Powers31();
    ShlOfZero(15);
    if input != 0 { Normalised(Magnitude(input), 14); }
  }

  // ---------- the loop bodies ----------

  /** One pass of the Q31 loop, with its casts and its saturation. */
  function StepQ31(n: int, out: int): int {
    var temp := ToU32(0x7FFF_FFFF - ToU32(n * out / TWO_31));
    ClipQ63ToQ31(out * temp / 0x4000_0000)
  }

  /** One pass of the Q15 loop: the product has 32 unsigned bits and the result is cast, not saturated. */
  function StepQ15(n: int, out: int): int {
    var temp := ToU32(0x7FFF - ToU32(n * out / 0x8000));
    ToQ15(ToU32(out * temp) / 0x4000)
  }

  lemma TempValue(max: int, q: int)
    requires 0 <= max - q < TWO_32
    ensures ToU32(max - ToU32(q)) == max - q
  {
  }

  lemma QuotientRange(n: int, out: int, w: int)
    requires w > 0 && -w < n < w && 0 < out < w
    ensures -w <= n * out / w < w
  {
    AbsProduct(n, out, w, w - 1);
    Distribute(w, w, 1);
    QuotientBetween(n * out, w);
  }

  lemma ProductRange(out: int, temp: int, w: int)
    requires 0 < out < w && 0 <= temp <= 2 * w
    ensures 0 <= out * temp <= w * (2 * w)
  {
    NonNegative(out, temp);
    Between(out, temp, 2 * w);
    Between(2 * w, out, w);
  }

  /** The Q31 pass is the saturated Newton step: nothing else in it changes a value. */
  lemma Q31StepExact(n: int, out: int)
    requires -TWO_31 < n < TWO_31 && 0 < out < TWO_31
    ensures StepQ31(n, out) == Clamp(NewtonStep(H31, n, out), Q31_MIN, Q31_MAX)
  {
    hide ClipQ63ToQ31, ToU32;
    var q := n * out / TWO_31;
    QuotientRange(n, out, TWO_31);
    TempValue(0x7FFF_FFFF, q);
    ProductRange(out, 0x7FFF_FFFF - q, TWO_31);
    ClipIsClamp(out * (0x7FFF_FFFF - q) / 0x4000_0000);
  }

  /** The Q15 pass is the Newton step cast to 16 bits, from every estimate: the casts before the last one drop out. */
  lemma Q15StepCast(n: int, out: int)
    requires -0x8000 < n < 0x8000 && IsQ15(out)
    ensures StepQ15(n, out) == ToQ15(NewtonStep(H15, n, out))
  {
    hide ToQ15, ToU32;
    var q := n * out / 0x8000;
    AbsProduct(n, out, 0x7FFF, 0x8000);
    assert -0x7FFF <= q <= 0x7FFF;
    TempValue(0x7FFF, q);
    AbsProduct(out, 0x7FFF - q, 0x8000, 0xFFFE);
    WordCastDrops(out * (0x7FFF - q));
  }

  lemma WordCastDrops(x: int)
    requires IsQ31(x)
    ensures ToQ15(ToU32(x) / 0x4000) == ToQ15(x / 0x4000)
  {
    if x < 0 {
      DivModUnique(x + TWO_32, 0x4000, x / 0x4000 + 0x4_0000, x % 0x4000);
      DivModUnique(x / 0x4000 + 0x8000 + 0x4_0000, 0x1_0000, (x / 0x4000 + 0x8000) / 0x1_0000 + 4, (x / 0x4000 + 0x8000) % 0x1_0000);
    }
  }

  // ---------- inputs that are zero or negative ----------

  lemma Halved(h: int, n: int, t: int)
    requires h > 0 && n <= -h && t > 0
    ensures 2 * (n * t / (2 * h)) <= -t
  {
    var q := n * t / (2 * h);
    assert n * t == q * (2 * h) + n * t % (2 * h);
    Between(t, n, -h);
    assert h * (2 * q) == q * (2 * h);
    assert h * (2 * q) <= h * -t;
    Cancel(h, 2 * q, -t);
  }

  lemma ProductAtLeast(a: int, b: int, c: int, d: int)
    requires a >= c >= 0 && b >= d >= 0
    ensures a * b >= c * d
  {
    Between(a, d, b);
    Between(d, c, a);
  }

  lemma SmallTerms(h: int)
    requires h >= 7
    ensures (7 * h) * (39 * h - 16) >= 256 * (h * h)
  {
    Distribute(7 * h, 39 * h, 16);
    Scaled(h, h, 7, 39);
    Between(h, 7, h);
  }

  lemma LargeProduct(h: int, t: int, temp: int)
    requires h >= 7 && 8 * t >= 7 * h && 2 * temp >= 4 * h - 2 + t
    ensures t * temp >= 2 * h * h
  {
    ProductAtLeast(8 * t, 16 * temp, 7 * h, 39 * h - 16);
    SmallTerms(h);
    Scaled(t, temp, 8, 16);
    Regroup(2, h, h);
  }

  lemma Scaled(x: int, y: int, a: int, b: int)
    ensures (a * x) * (b * y) == (a * b) * (x * y)
  {
    Regroup(a, x, b * y);
    Regroup(x, b, y);
    Regroup(a, b, x * y);
    assert x * (b * y) == b * (x * y) by { Regroup(b, x, y); }
  }

  lemma QuotientAtLeast(x: int, h: int)
    requires h > 0 && x >= 2 * h * h
    ensures x / h >= 2 * h
  {
    var q := x / h;
    assert x == q * h + x % h;
    if q < 2 * h { Between(h, q, 2 * h - 1); }
  }

  /** For a normalised negative input, and for zero, a Newton step leaves the range of the format upwards. */
  lemma NegativeOvershoots(h: int, n: int, t: int)
    requires h >= 7 && (n <= -h || n == 0) && 8 * t >= 7 * h && (n == 0 ==> t > h)
    ensures NewtonStep(h, n, t) >= 2 * h
  {
    var temp := 2 * h - 1 - n * t / (2 * h);
    if n == 0 {
      ZeroProduct(h, t);
    } else {
      Halved(h, n, t);
      LargeProduct(h, t, temp);
    }
    QuotientAtLeast(t * temp, h);
  }

  lemma ZeroProduct(h: int, t: int)
    requires h >= 7 && t > h
    ensures 0 * t / (2 * h) == 0 && t * (2 * h - 1) >= 2 * h * h
  {
    assert 0 * t == 0;
    DivModUnique(0, 2 * h, 0, 0);
    Between(2 * h - 1, h + 1, t);
    assert (2 * h - 1) * (h + 1) == 2 * h * h + h - 1;
  }

  /** In Q15 the step is cast without saturation: from an entry that serves, the cast is exact exactly for positive
      inputs. */
  lemma Q15StepExactIff(n: int, t: int)
    requires H15 <= n < 2 * H15 || -2 * H15 < n <= -H15 || n == 0
    requires Serves(H15, n, t, 0x40_0000)
    ensures StepQ15(n, t) == NewtonStep(H15, n, t) <==> n > 0
  {
    hide NewtonStep, StepQ15, Error;
    Q15StepCast(n, t);
    if n > 0 { Q15TwoPasses(n, t); } else { NegativeOvershoots(H15, n, t); }
  }

  /** So the Q15 "reciprocal" of -0.5 comes out positive. */
  lemma Q15NegativeExample()
    ensures Normalise15(-0x4000) == -0x4000 && TableIndex(-0x4000, 0x100) == 0
    ensures StepQ15(-0x4000, StepQ15(-0x4000, MidpointEntry(H15, 0))) == 28717
  {
    hide And, Log2, StepQ15, TableIndex;
    Log2Of14();
    TableIndexValue(-0x4000, 0x100);
    NegativeHalfSteps();
  }

  lemma NewtonQuotient(h: int, n: int, t: int, q: int, o: int)
    requires h > 0 && q * (2 * h) <= n * t < q * (2 * h) + 2 * h
    requires o * h <= t * (2 * h - 1 - q) < o * h + h
    ensures NewtonStep(h, n, t) == o
  {
    DivModUnique(n * t, 2 * h, q, n * t - q * (2 * h));
    DivModUnique(t * (2 * h - 1 - q), h, o, t * (2 * h - 1 - q) - o * h);
  }

  lemma NegativeHalfSteps()
    ensures StepQ15(-0x4000, 32513) == 31748 && StepQ15(-0x4000, 31748) == 28717
  {
    hide StepQ15, NewtonStep;
    Q15StepCast(-0x4000, 32513);
    Q15StepCast(-0x4000, 31748);
    assert NewtonStep(H15, -0x4000, 32513) == 97284 by { NewtonQuotient(H15, -0x4000, 32513, -16257, 97284); }
    assert NewtonStep(H15, -0x4000, 31748) == 94253 by { NewtonQuotient(H15, -0x4000, 31748, -15874, 94253); }
  }

  lemma Log2Of14()
    ensures Log2(0x4000) == 14
  {
    hide Log2;
    Powers31();
    Normalised(0x4000, 14);
    Log2Bounds(0x4000);
    if Log2(0x4000) < 14 { Pow2Monotone(Log2(0x4000) + 1, 14); }
  }

  lemma ClzOfZero()
    ensures Clz(0) == 32
  {
  }

  // ---------- the functions ----------

  /** Two passes of the Q31 loop. */
  lemma Q31Result(n: int, t: int)
    requires H31 <= n < 2 * H31 || -2 * H31 < n <= -H31 || n == 0
    requires Serves(H31, n, t, 0x40_0000_0000_0000)
    ensures var out := StepQ31(n, StepQ31(n, t));
      if n > 0 then 0 < out < 0x8000_0000 && 0 < 0x2000_0000_0000_0000 - n * out < 0x4_0000_0000 else out == Q31_MAX
  {
    hide NewtonStep, StepQ31;
    Q31StepExact(n, t);
    if n > 0 {
      Q31TwoPasses(n, t);
      Q31StepExact(n, NewtonStep(H31, n, t));
    } else {
      NegativeOvershoots(H31, n, t);
      NegativeOvershoots(H31, n, Q31_MAX);
      Q31StepExact(n, Q31_MAX);
    }
  }

  /** Two passes of the Q15 loop; for positive inputs neither of them wraps. */
  lemma Q15Result(n: int, t: int)
    requires H15 <= n < 2 * H15 && Serves(H15, n, t, 0x40_0000)
    ensures var out := StepQ15(n, StepQ15(n, t)); 0 < out < 0x8000 && 0 < 0x2000_0000 - n * out < 0x1_0020
  {
    hide NewtonStep, StepQ15;
    Q15TwoPasses(n, t);
    Q15StepCast(n, t);
    Q15StepCast(n, NewtonStep(H15, n, t));
  }

  /** arm_recip_q31, for every input but the most negative one, whose magnitude does not fit 32 bits. A positive input
      gives the reciprocal of the normalised input; zero and negative inputs give the largest value. */
  method RecipQ31(input: int, table: seq<int>) returns (dst: int, bits: int)
    requires -0x8000_0000 < input < 0x8000_0000 && |table| == 64
    requires var n := Normalise31(input);
      TableIndex(n, 0x100_0000) < 64 && Serves(H31, n, table[TableIndex(n, 0x100_0000)], 0x40_0000_0000_0000)
    ensures input > 0 ==> 0 < dst < 0x8000_0000
    ensures input > 0 ==> 1 <= bits <= 31 && 0x4000_0000 <= Shl(input, bits - 1) < 0x8000_0000
    ensures input > 0 ==> 0 < 0x2000_0000_0000_0000 - Shl(input, bits - 1) * dst < 0x4_0000_0000
    ensures input <= 0 ==> dst == 0x7FFF_FFFF
    ensures input < 0 ==> 1 <= bits <= 31 && 0x4000_0000 <= Shl(-input, bits - 1) < 0x8000_0000
    ensures input == 0 ==> bits == 32
  {
    hide StepQ31, Shl, And, TableIndex, Clz, Log2, Serves, ToU32, ClipQ63ToQ31;
    Normalise31Range(input);
    ClzOfZero();
    var signBits := if input > 0 then Clz(input) - 1 else Clz(-input) - 1;
    var n: int := Shl(Magnitude(input), signBits);
    if input < 0 { n := -n; }
    var index := TableIndex(n, 0x100_0000);
    var out := table[index];
    ghost var t := out;
    Q31Result(n, t);
    var i := 0;
    while i < 2
      invariant 0 <= i <= 2
      invariant out == if i == 0 then t else if i == 1 then StepQ31(n, t) else StepQ31(n, StepQ31(n, t))
    {
      var tempVal := ToU32(n * out / TWO_31);
      tempVal := ToU32(0x7FFF_FFFF - tempVal);
      StepQ31Body(n, out);
      out := ClipQ63ToQ31(out * tempVal / 0x4000_0000);
      i := i + 1;
    }
    dst := out;
    bits := signBits + 1;
  }

  lemma StepQ31Body(n: int, out: int)
    ensures StepQ31(n, out) == ClipQ63ToQ31(out * ToU32(0x7FFF_FFFF - ToU32(n * out / TWO_31)) / 0x4000_0000)
  {
  }

  lemma StepQ15Body(n: int, out: int)
    ensures StepQ15(n, out) == ToQ15(ToU32(out * ToU32(0x7FFF - ToU32(n * out / 0x8000))) / 0x4000)
  {
  }

  /** arm_recip_q15, for every input but the most negative one. A positive input gives the reciprocal of the normalised
      input; for other inputs each of the two Newton steps is cut to 16 bits. */
  method RecipQ15(input: int, table: seq<int>) returns (dst: int, bits: int)
    requires -0x8000 < input < 0x8000 && |table| == 64
    requires var n := Normalise15(input);
      TableIndex(n, 0x100) < 64 && Serves(H15, n, table[TableIndex(n, 0x100)], 0x40_0000)
    ensures input > 0 ==> 0 < dst < 0x8000
    ensures input > 0 ==> 1 <= bits <= 15 && 0x4000 <= Shl(input, bits - 1) < 0x8000
    ensures input > 0 ==> 0 < 0x2000_0000 - Shl(input, bits - 1) * dst < 0x1_0020
    ensures input < 0 ==> 1 <= bits <= 15 && 0x4000 <= Shl(-input, bits - 1) < 0x8000
    ensures input == 0 ==> bits == 16
    ensures input <= 0 ==>
      var n := Normalise15(input);
      n == 0 - Shl(-input, bits - 1) && dst == ToQ15(NewtonStep(H15, n, ToQ15(NewtonStep(H15, n, table[TableIndex(n, 0x100)]))))
  {
    hide StepQ15, NewtonStep, Shl, And, TableIndex, Clz, Log2, Serves, ToU32, ToQ15;
    Normalise15Range(input);
    ClzOfZero();
    var signBits := if input > 0 then Clz(input) - 17 else Clz(-input) - 17;
    var n: int := Shl(Magnitude(input), signBits);
    if input < 0 { n := -n; }
    var index := TableIndex(n, 0x100);
    var out := table[index];
    ghost var t := out;
    if input > 0 {
      Q15Result(n, t);
    } else {
      ServingEntryRange(H15, n, t);
      Q15StepCast(n, t);
      Q15StepCast(n, ToQ15(NewtonStep(H15, n, t)));
    }
    var i := 0;
    while i < 2
      invariant 0 <= i <= 2
      invariant out == if i == 0 then t else if i == 1 then StepQ15(n, t) else StepQ15(n, StepQ15(n, t))
    {
      var tempVal := ToU32(n * out / 0x8000);
      tempVal := ToU32(0x7FFF - tempVal);
      StepQ15Body(n, out);
      out := ToQ15(ToU32(out * tempVal) / 0x4000);
      i := i + 1;
    }
    dst := out;
    bits := signBits + 1;
  }

  // ---------- tables that meet the hypothesis exist ----------

  /** The entry for the midpoint of bucket `k`. */
  function MidpointEntry(h: int, k: int): int
    requires h > 0 && k >= 0
  {
    2 * h * h / (h + k * (h / 64) + h / 128)
  }

  lemma MidpointError(a: int, mid: int, n: int, half: int, t: int)
    requires mid > 0 && t == a / mid && a > 0 && -half <= mid - n <= half
    ensures -half * t <= a - n * t <= mid + half * t
    ensures 0 <= t * mid <= a
  {
    var rho := a % mid;
    assert a == t * mid + rho;
    assert a - n * t == rho + (mid - n) * t;
    assert t >= 0;
    Between(t, mid - n, half);
    Between(t, -half, mid - n);
  }

  /** A table of midpoint entries serves every input of arm_recip_q31. */
  lemma MidpointEntriesServeQ31(input: int)
    requires -0x8000_0000 < input < 0x8000_0000
    ensures var n := Normalise31(input); var k := TableIndex(n, 0x100_0000);
      && 0 <= k < 64 && (input > 0 ==> k == n / 0x100_0000 - 64)
      && Serves(H31, n, MidpointEntry(H31, k), 0x40_0000_0000_0000)
  {
    hide Shl, And, TableIndex, Normalise31, MidpointEntry, Error;
    Normalise31Range(input);
    var n := Normalise31(input);
    TableIndexValue(n, 0x100_0000);
    var k := TableIndex(n, 0x100_0000);
    if n > 0 { Midpoint31(n, k); } else { Midpoint31Large(k); }
  }

  lemma ErrorValue(h: int, n: int, t: int, a: int)
    requires a == 2 * h * h
    ensures Error(h, n, t) == a - n * t
  {
  }

  lemma Midpoint31Large(k: int)
    requires 0 <= k < 64
    ensures H31 < MidpointEntry(H31, k) <= 0x7F80_0000
  {
    var mid, a := H31 + k * 0x100_0000 + 0x80_0000, 0x2000_0000_0000_0000;
    assert MidpointEntry(H31, k) == a / mid;
    QuotientMonotone(a, H31 + 0x80_0000, mid);
    QuotientMonotone(a, mid, 0x7F80_0000);
  }

  lemma Midpoint31(n: int, k: int)
    requires 0 <= k < 64 && H31 + k * 0x100_0000 <= n < H31 + (k + 1) * 0x100_0000
    ensures GoodEntry(H31, n, MidpointEntry(H31, k), 0x40_0000_0000_0000)
  {
    hide MidpointEntry, Error;
    ErrorValue(H31, n, MidpointEntry(H31, k), 0x2000_0000_0000_0000);
    var mid, t := H31 + k * 0x100_0000 + 0x80_0000, MidpointEntry(H31, k);
    Midpoint31Large(k);
    assert t == 0x2000_0000_0000_0000 / mid by { Midpoint31Value(k); }
    MidpointError(0x2000_0000_0000_0000, mid, n, 0x80_0000, t);
  }

  lemma Midpoint31Value(k: int)
    requires 0 <= k < 64
    ensures MidpointEntry(H31, k) == 0x2000_0000_0000_0000 / (H31 + k * 0x100_0000 + 0x80_0000)
  {
  }

  /** A table of midpoint entries serves every input of arm_recip_q15. */
  lemma MidpointEntriesServeQ15(input: int)
    requires -0x8000 < input < 0x8000
    ensures var n := Normalise15(input); var k := TableIndex(n, 0x100);
      && 0 <= k < 64 && (input > 0 ==> k == n / 0x100 - 64)
      && Serves(H15, n, MidpointEntry(H15, k), 0x40_0000)
  {
    hide Shl, And, TableIndex, Normalise15, MidpointEntry, Error;
    Normalise15Range(input);
    var n := Normalise15(input);
    TableIndexValue(n, 0x100);
    var k := TableIndex(n, 0x100);
    if n > 0 { Midpoint15(n, k); } else { Midpoint15Large(k); }
  }

  lemma Midpoint15Large(k: int)
    requires 0 <= k < 64
    ensures H15 < MidpointEntry(H15, k) <= 0x7F01
  {
    var mid, a := H15 + k * 0x100 + 0x80, 0x2000_0000;
    assert MidpointEntry(H15, k) == a / mid;
    QuotientMonotone(a, H15 + 0x80, mid);
    QuotientMonotone(a, mid, 0x7F80);
  }

  lemma Midpoint15(n: int, k: int)
    requires 0 <= k < 64 && H15 + k * 0x100 <= n < H15 + (k + 1) * 0x100
    ensures GoodEntry(H15, n, MidpointEntry(H15, k), 0x40_0000)
  {
    hide MidpointEntry, Error;
    ErrorValue(H15, n, MidpointEntry(H15, k), 0x2000_0000);
    var mid, t := H15 + k * 0x100 + 0x80, MidpointEntry(H15, k);
    Midpoint15Large(k);
    assert t == 0x2000_0000 / mid by { Midpoint15Value(k); }
    MidpointError(0x2000_0000, mid, n, 0x80, t);
  }

  lemma Midpoint15Value(k: int)
    requires 0 <= k < 64
    ensures MidpointEntry(H15, k) == 0x2000_0000 / (H15 + k * 0x100 + 0x80)
  {
  }
}
