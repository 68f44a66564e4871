/** Unsigned bit arithmetic on natural numbers: powers of two, `&`, `|`, shifts and single bits.
    Register fields, masks and shift counts of the C code are written with these operators. */
module Bits {

  function Pow2(n: nat): (r: nat)
    ensures r >= 1
  {
    if n == 0 then 1 else 2 * Pow2(n - 1)
  }

  /** `x << n` without truncation. */
  function Shl(x: nat, n: nat): nat
    decreases n, x
  {
    if n == 0 then x else 2 * Shl(x, n - 1)
  }

  /** C's `x >> n` on an unsigned operand. */
  function Shr(x: nat, n: nat): nat
    decreases n, x
  {
    if n == 0 then x else Shr(x / 2, n - 1)
  }

  /** The low `n` bits of `x`. */
  function Low(x: nat, n: nat): nat
    decreases n, x
  {
    if n == 0 then 0 else 2 * Low(x / 2, n - 1) + x % 2
  }

  /** C's `x << n` on a 32-bit operand. */
  function Shl32(x: nat, n: nat): nat {
    Low(Shl(x, n), 32)
  }

  /** The mask of `n` ones. */
  function Ones(n: nat): nat {
    Pow2(n) - 1
  }

  /** C's `x & y`. */
  function And(x: nat, y: nat): nat {
    if x == 0 || y == 0 then 0 else 2 * And(x / 2, y / 2) + (if x % 2 + y % 2 == 2 then 1 else 0)
  }

  /** C's `x | y`. */
  function Or(x: nat, y: nat): nat
    decreases x + y
  {
    if x == 0 then y else if y == 0 then x
    else 2 * Or(x / 2, y / 2) + (if x % 2 + y % 2 > 0 then 1 else 0)
  }

  /** Bit `i` of `x`. */
  function Bit(x: nat, i: nat): nat {
    Shr(x, i) % 2
  }

  // ---------- powers of two ----------

  lemma {:induction false} Pow2Add(a: nat, b: nat)
    ensures Pow2(a + b) == Pow2(a) * Pow2(b)
  {
    if a > 0 {
      Pow2Add(a - 1, b);
      MulDouble(Pow2(b), Pow2(a - 1));
    }
  }

  lemma {:induction false} Pow2Monotone(a: nat, b: nat)
    requires a <= b
    ensures Pow2(a) <= Pow2(b)
    ensures a < b ==> 2 * Pow2(a) <= Pow2(b)
  {
    if a < b {
      Pow2Monotone(a, b - 1);
    }
  }

  lemma Pow2Of32()
    ensures Pow2(32) == 0x1_0000_0000
  {
    assert Pow2(8) == 0x100;
    Pow2Add(8, 8);
    Pow2Add(16, 16);
  }

  // ---------- division facts ----------

  /** Quotient and remainder are determined by `0 <= r < d`. */
  lemma DivModUnique(x: int, d: int, q: int, r: int)
    requires d > 0 && 0 <= r < d && x == q * d + r
    ensures x / d == q && x % d == r
  {
    var q', r' := x / d, x % d;
    assert (q - q') * d == r' - r;
    if q > q' {
      MulAtLeast(q - q', d);
    } else if q < q' {
      MulAtLeast(q' - q, d);
    }
  }

  lemma MulAtLeast(k: int, d: int)
    requires k >= 1 && d >= 0
    ensures k * d >= d
  {
  }

  lemma MulDouble(q: int, p: int)
    ensures q * (2 * p) == 2 * (q * p) == (2 * p) * q
  {
  }

  lemma MultipleMod(k: int, d: int)
    requires d > 0
    ensures (k * d) % d == 0 && (k * d) / d == k
  {
    DivModUnique(k * d, d, k, 0);
  }

  // ---------- shifts and masks as arithmetic ----------

  lemma {:induction false} ShlIsMul(x: nat, n: nat)
    ensures Shl(x, n) == x * Pow2(n)
    decreases n
  {
    if n > 0 {
      ShlIsMul(x, n - 1);
      MulDouble(x, Pow2(n - 1));
    }
  }

  lemma {:induction false} ShrLow(x: nat, n: nat)
    ensures x == Shl(Shr(x, n), n) + Low(x, n)
    ensures Low(x, n) < Pow2(n)
    decreases n
  {
    if n > 0 {
      ShrLow(x / 2, n - 1);
    }
  }

  /** Shifts and masks by `n` bits, in terms of the power of two `p`. */
  lemma AsDivMod(x: nat, n: nat, p: nat)
    requires p == Pow2(n)
    ensures Shr(x, n) == x / p && Low(x, n) == x % p
  {
    ShrLow(x, n);
    ShlIsMul(Shr(x, n), n);
    DivModUnique(x, p, Shr(x, n), Low(x, n));
  }

  lemma {:induction false} AndOnes(x: nat, n: nat)
    ensures And(x, Ones(n)) == Low(x, n)
    decreases n
  {
    if n > 0 {
      hide And;
      AndOnes(x / 2, n - 1);
      AndStep(x, Ones(n));
      assert Ones(n) / 2 == Ones(n - 1) && Ones(n) % 2 == 1;
    }
  }

  lemma AndStep(x: nat, y: nat)
    ensures And(x, y) == 2 * And(x / 2, y / 2) + (if x % 2 + y % 2 == 2 then 1 else 0)
  {
  }

  /** A mask shifted to position `n` selects bits from position `n` upwards and keeps them there. */
  lemma {:induction false} AndShifted(x: nat, m: nat, n: nat)
    ensures And(x, Shl(m, n)) == Shl(And(Shr(x, n), m), n)
    decreases n
  {
    if n > 0 {
      AndShifted(x / 2, m, n - 1);
      AndStep(x, Shl(m, n));
    }
  }

  lemma AndField(x: nat, w: nat, n: nat)
    ensures And(x, Shl(Ones(w), n)) == Shl(Low(Shr(x, n), w), n)
  {
    AndShifted(x, Ones(w), n);
    AndOnes(Shr(x, n), w);
  }

  lemma LowOfDouble(x: nat, n: nat)
    requires n > 0
    ensures Low(2 * x, n) == 2 * Low(x, n - 1)
  {
    assert 2 * x / 2 == x;
  }

  lemma {:induction false} LowShl(x: nat, n: nat, m: nat)
    requires n <= m
    ensures Low(Shl(x, n), m) == Shl(Low(x, m - n), n)
    decreases n
  {
    if n > 0 {
      hide Low;
      LowShl(x, n - 1, m - 1);
      LowOfDouble(Shl(x, n - 1), m);
    }
  }

  lemma {:induction false} LowOfShl(x: nat, n: nat)
    ensures Low(Shl(x, n), n) == 0
    decreases n
  {
    if n > 0 {
      hide Low;
      LowOfShl(x, n - 1);
      LowOfDouble(Shl(x, n - 1), n);
    }
  }

  lemma {:induction false} ShrShl(x: nat, n: nat)
    ensures Shr(Shl(x, n), n) == x
    decreases n
  {
    if n > 0 {
      ShrShl(x, n - 1);
    }
  }

  lemma LowStep(x: nat, n: nat)
    requires n > 0
    ensures Low(x, n) == 2 * Low(x / 2, n - 1) + x % 2
    ensures Low(x, n) / 2 == Low(x / 2, n - 1) && Low(x, n) % 2 == x % 2
  {
  }

  lemma {:induction false} LowLow(x: nat, n: nat, m: nat)
    requires n <= m
    ensures Low(Low(x, m), n) == Low(x, n)
    decreases n
  {
    if n > 0 {
      hide Low;
      LowStep(x, n);
      LowStep(x, m);
      LowStep(Low(x, m), n);
      LowLow(x / 2, n - 1, m - 1);
    }
  }

  lemma {:induction false} LowSmall(x: nat, n: nat)
    requires x < Pow2(n)
    ensures Low(x, n) == x
    decreases n
  {
    if n > 0 {
      LowSmall(x / 2, n - 1);
    }
  }

  lemma {:induction false} LowZeroApart(u: nat, v: nat, n: nat)
    requires Low(u, n) == 0 && Low(v, n) == 0 && u < v
    ensures u + Pow2(n) <= v
    decreases n
  {
    if n > 0 {
      LowZeroApart(u / 2, v / 2, n - 1);
    }
  }

  lemma {:induction false} LowZeroNext(u: nat, n: nat, m: nat)
    requires n <= m && Low(u, m) == 0
    ensures Low(u, n) == 0 && Low(u + Pow2(m), n) == 0
    decreases n
  {
    if n > 0 {
      LowZeroNext(u / 2, n - 1, m - 1);
      assert (u + Pow2(m)) / 2 == u / 2 + Pow2(m - 1);
    }
  }

  lemma {:induction false} LowOfZero(n: nat)
    ensures Low(0, n) == 0
    decreases n
  {
    if n > 0 {
      LowOfZero(n - 1);
    }
  }

  lemma {:induction false} Pow2LowZero(m: nat, n: nat)
    requires n <= m
    ensures Low(Pow2(m), n) == 0
    decreases n
  {
    if n > 0 {
      Pow2LowZero(m - 1, n - 1);
    }
  }

  /** An odd multiple of `2^n` becomes a multiple of `2^(n+1)` when `2^n` is added. */
  lemma {:induction false} LowZeroCarry(u: nat, n: nat)
    requires Low(u, n) == 0 && Low(u, n + 1) != 0
    ensures Low(u + Pow2(n), n + 1) == 0
    decreases n
  {
    if n > 0 {
      LowZeroCarry(u / 2, n - 1);
      assert (u + Pow2(n)) / 2 == u / 2 + Pow2(n - 1);
    }
  }

  lemma {:induction false} LowZeroSum(u: nat, v: nat, n: nat)
    requires Low(u, n) == 0 && Low(v, n) == 0
    ensures Low(u + v, n) == 0
    decreases n
  {
    if n > 0 {
      LowZeroSum(u / 2, v / 2, n - 1);
    }
  }

  lemma {:induction false} LowZeroDifference(u: nat, v: nat, n: nat)
    requires Low(u + v, n) == 0 && Low(v, n) == 0
    ensures Low(u, n) == 0
    decreases n
  {
    if n > 0 {
      assert (u + v) / 2 == u / 2 + v / 2;
      LowZeroDifference(u / 2, v / 2, n - 1);
    }
  }

  /** `(x << n) & (ones(w) << n)` inserts the low `w` bits of `x` at position `n`. */
  lemma InsertField(x: nat, w: nat, n: nat)
    requires n + w <= 32
    ensures And(Shl32(x, n), Shl(Ones(w), n)) == Shl(Low(x, w), n)
  {
    LowShl(x, n, 32);
    AndField(Shl32(x, n), w, n);
    ShrShl(Low(x, 32 - n), n);
    LowLow(x, w, 32 - n);
  }

  /** `|` of a value whose low `n` bits are clear with a value below `2^n` is addition. */
  lemma {:induction false} OrDisjoint(a: nat, b: nat, n: nat)
    requires b < Pow2(n)
    ensures Or(Shl(a, n), b) == Shl(a, n) + b
    decreases n
  {
    if n > 0 {
      hide Or;
      OrDisjoint(a, b / 2, n - 1);
      OrStep(Shl(a, n), b);
      assert Shl(a, n) / 2 == Shl(a, n - 1) && Shl(a, n) % 2 == 0;
    } else {
      assert Or(a, 0) == a;
    }
  }

  lemma OrStep(x: nat, y: nat)
    ensures Or(x, y) == 2 * Or(x / 2, y / 2) + (if x % 2 + y % 2 > 0 then 1 else 0)
  {
    if x == 0 { assert Or(0, y / 2) == y / 2; }
    if y == 0 { assert Or(x / 2, 0) == x / 2; }
  }

  /** `|` with a single bit that is clear adds that bit. */
  lemma {:induction false} SetBit(x: nat, n: nat)
    requires Bit(x, n) == 0
    ensures Or(x, Shl(1, n)) == x + Shl(1, n)
    decreases n
  {
    if n > 0 {
      hide Or;
      OrStep(x, Shl(1, n));
      assert Shl(1, n) / 2 == Shl(1, n - 1) && Shl(1, n) % 2 == 0;
      SetBit(x / 2, n - 1);
    } else {
      OrOne(x);
    }
  }

  lemma OrOne(x: nat)
    requires x % 2 == 0
    ensures Or(x, 1) == x + 1
  {
    assert Or(x / 2, 0) == x / 2;
  }

  /** Reading a field of `w` bits at position `n` out of a value composed of three parts. */
  lemma ReadField(high: nat, field: nat, low: nat, w: nat, n: nat, pw: nat, pn: nat, v: nat)
    requires pw == Pow2(w) && pn == Pow2(n) && field < pw && low < pn
    requires v == (high * pw + field) * pn + low
    ensures Low(Shr(v, n), w) == field
    ensures w == 1 ==> Bit(v, n) == field
  {
    AsDivMod(v, n, pn);
    DivModUnique(v, pn, high * pw + field, low);
    AsDivMod(high * pw + field, w, pw);
    DivModUnique(high * pw + field, pw, high, field);
  }

  lemma {:induction false} OrComm(x: nat, y: nat)
    ensures Or(x, y) == Or(y, x)
    decreases x + y
  {
    if x > 0 && y > 0 {
      OrComm(x / 2, y / 2);
    }
  }
}
