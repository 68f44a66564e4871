/** The portable __RBIT of cmsis_gcc.h. */
module BitReverse {
  import opened Bits

  /** Moves `n` bits of `v`, lowest first, onto the end of `acc`. */
  function Unload(v: nat, n: nat, acc: nat): nat
    decreases n
  {
    if n == 0 then acc else Unload(v / 2, n - 1, 2 * acc + v % 2)
  }

  /** Moving one bit more appends bit `n`. */
  lemma {:induction false} UnloadNext(v: nat, n: nat, acc: nat)
    ensures Unload(v, n + 1, acc) == 2 * Unload(v, n, acc) + Bit(v, n)
    decreases n
  {
    if n == 0 {
      assert Unload(v, 1, acc) == Unload(v / 2, 0, 2 * acc + v % 2);
    } else {
      UnloadNext(v / 2, n - 1, 2 * acc + v % 2);
    }
  }

  lemma {:induction false} UnloadZeros(n: nat, acc: nat)
    ensures Unload(0, n, acc) == Shl(acc, n)
    decreases n
  {
    if n > 0 {
      UnloadZeros(n - 1, 2 * acc);
      ShlDouble(acc, n - 1);
    }
  }

  lemma {:induction false} ShlDouble(x: nat, n: nat)
    ensures Shl(2 * x, n) == 2 * Shl(x, n)
    decreases n
  {
    if n > 0 { ShlDouble(x, n - 1); }
  }

  lemma {:induction false} UnloadSplit(v: nat, n: nat, m: nat, acc: nat)
    ensures Unload(v, n + m, acc) == Unload(Shr(v, n), m, Unload(v, n, acc))
    decreases n
  {
    if n > 0 { UnloadSplit(v / 2, n - 1, m, 2 * acc + v % 2); }
  }

  /** Bit `i` of `v` goes to position `n - 1 - i`. */
  lemma {:induction false} UnloadBit(v: nat, n: nat, i: nat)
    requires i < n
    ensures Bit(Unload(v, n, 0), n - 1 - i) == Bit(v, i)
    decreases n
  {
    UnloadNext(v, n - 1, 0);
    var r, b := Unload(v, n - 1, 0), Bit(v, n - 1);
    if i < n - 1 {
      UnloadBit(v, n - 1, i);
      assert (2 * r + b) / 2 == r;
    }
  }

  lemma {:induction false} UnloadBound(v: nat, n: nat)
    ensures Unload(v, n, 0) < Pow2(n)
    decreases n
  {
    if n > 0 {
      UnloadBound(v, n - 1);
      UnloadNext(v, n - 1, 0);
    }
  }

  lemma {:induction false} ShrZero(v: nat, n: nat)
    requires Shr(v, n) == 0
    ensures v < Pow2(n)
    decreases n
  {
    if n > 0 { ShrZero(v / 2, n - 1); }
  }

  /** The loop: the low bits of `result` are the bits unloaded so far; what lies above them is shifted out at the end. */
  method Rbit(value: nat) returns (result: nat)
    requires value < 0x1_0000_0000
    ensures result == Unload(value, 32, 0)
  {
    hide Unload, Shl, Low, And, Or;
    var s := 31;
    result := value;
    var v := value / 2;
    ghost var k := 1;
    FirstBit(value);
    while v != 0
      invariant 1 <= k <= 32 && s == 32 - k && v == Shr(value, k)
      invariant Low(result, k) == Unload(value, k, 0)
      decreases v
    {
      StillBits(value, k);
      StepBit(value, k, result, v);
      result := Shl32(result, 1);
      result := Or(result, And(v, 1));
      s := s - 1;
      v := v / 2;
      k := k + 1;
    }
    FinalShift(value, k, result);
    result := Shl32(result, s);
  }

  lemma FirstBit(value: nat)
    ensures Low(value, 1) == Unload(value, 1, 0)
    ensures value / 2 == Shr(value, 1)
  {
    assert Low(value / 2, 0) == 0;
    assert Unload(value / 2, 0, value % 2) == value % 2;
    assert Shr(value / 2, 0) == value / 2;
  }

  lemma StillBits(value: nat, k: nat)
    requires value < 0x1_0000_0000 && Shr(value, k) != 0 && k <= 32
    ensures k < 32
  {
    Pow2Of32();
    if k == 32 {
      AsDivMod(value, 32, 0x1_0000_0000);
    }
  }

  lemma {:induction false} ShrNext(x: nat, k: nat)
    ensures Shr(x, k + 1) == Shr(x, k) / 2
    decreases k
  {
    if k == 0 {
      assert Shr(x, 1) == Shr(x / 2, 0);
    } else {
      ShrNext(x / 2, k - 1);
    }
  }

  lemma StepBit(value: nat, k: nat, result: nat, v: nat)
    requires 1 <= k < 32 && v == Shr(value, k) && Low(result, k) == Unload(value, k, 0)
    ensures Low(Or(Shl32(result, 1), And(v, 1)), k + 1) == Unload(value, k + 1, 0)
    ensures v / 2 == Shr(value, k + 1)
  {
    ShrNext(value, k);
    UnloadNext(value, k, 0);
    var b := v % 2;
    assert And(v, 1) == b by {
      AndOnes(v, 1);
      assert Low(v / 2, 0) == 0;
    }
    LowShl(result, 1, 32);
    var q := Low(result, 31);
    assert Shl(q, 1) == 2 * q by { assert Shl(q, 0) == q; }
    OrDisjoint(q, b, 1);
    LowLow(result, k, 31);
    assert (2 * q + b) / 2 == q;
  }

  lemma FinalShift(value: nat, k: nat, result: nat)
    requires 1 <= k <= 32 && Shr(value, k) == 0 && Low(result, k) == Unload(value, k, 0)
    ensures Shl32(result, 32 - k) == Unload(value, 32, 0)
  {
    LowShl(result, 32 - k, 32);
    UnloadSplit(value, k, 32 - k, 0);
    UnloadZeros(32 - k, Unload(value, k, 0));
  }

  /** Bit `i` of every input is bit `31 - i` of the output. */
  lemma ReversesBits(value: nat, i: nat)
    requires i < 32
    ensures Bit(Unload(value, 32, 0), 31 - i) == Bit(value, i)
  {
    UnloadBit(value, 32, i);
  }

  /** Words with equal bits are equal. */
  lemma {:induction false} BitsDetermine(x: nat, y: nat, n: nat)
    requires x < Pow2(n) && y < Pow2(n)
    requires forall i :: 0 <= i < n ==> Bit(x, i) == Bit(y, i)
    ensures x == y
    decreases n
  {
    if n > 0 {
      assert Bit(x, 0) == Bit(y, 0);
      forall i | 0 <= i < n - 1
        ensures Bit(x / 2, i) == Bit(y / 2, i)
      {
        assert Bit(x, i + 1) == Bit(y, i + 1);
      }
      BitsDetermine(x / 2, y / 2, n - 1);
    }
  }

  /** Reversing twice gives the word back. */
  lemma Involution(value: nat)
    requires value < 0x1_0000_0000
    ensures Unload(Unload(value, 32, 0), 32, 0) == value
  {
    var r := Unload(value, 32, 0);
    Pow2Of32();
    UnloadBound(r, 32);
    forall i | 0 <= i < 32
      ensures Bit(Unload(r, 32, 0), i) == Bit(value, i)
    {
      ReversesBits(r, 31 - i);
      ReversesBits(value, i);
    }
    BitsDetermine(Unload(r, 32, 0), value, 32);
  }
}
