/** NVIC_EncodePriority and NVIC_DecodePriority of core_cm7.h, for 1 to 8 implemented priority bits. */
module Nvic {
  import opened Bits

  datatype Priority = Priority(preempt: nat, sub: nat)

  function Group(priorityGroup: nat): nat { And(priorityGroup, 7) }

  /** The two field widths, as both functions compute them. */
  function PreemptBits(g: nat, prioBits: nat): nat
    requires g <= 7
  {
    if 7 - g > prioBits then prioBits else 7 - g
  }

  function SubBits(g: nat, prioBits: nat): nat
    requires g <= 7
  {
    if g + prioBits < 7 then 0 else g + prioBits - 7
  }

  lemma GroupValue(priorityGroup: nat)
    ensures Group(priorityGroup) == priorityGroup % 8
  {
    assert Pow2(3) == 8;
    AndOnes(priorityGroup, 3);
    AsDivMod(priorityGroup, 3, 8);
  }

  /** The fields together use exactly the implemented bits. */
  lemma WidthsSum(g: nat, prioBits: nat)
    requires g <= 7 && 1 <= prioBits <= 8
    ensures PreemptBits(g, prioBits) + SubBits(g, prioBits) == prioBits
  {
  }

  function Mask(bits: nat): nat
    requires bits <= 8
  {
    Ones(bits)
  }

  function Encode(priorityGroup: nat, preempt: nat, sub: nat, prioBits: nat): nat
    requires 1 <= prioBits <= 8
  {
    GroupValue(priorityGroup);
    var g := Group(priorityGroup);
    Or(Shl32(And(preempt, Mask(PreemptBits(g, prioBits))), SubBits(g, prioBits)), And(sub, Mask(SubBits(g, prioBits))))
  }

  function Decode(code: nat, priorityGroup: nat, prioBits: nat): Priority
    requires 1 <= prioBits <= 8
  {
    GroupValue(priorityGroup);
    var g := Group(priorityGroup);
    Priority(And(Shr(code, SubBits(g, prioBits)), Mask(PreemptBits(g, prioBits))), And(code, Mask(SubBits(g, prioBits))))
  }

  /** The parts of a priority that a code can hold. */
  function Masked(priorityGroup: nat, preempt: nat, sub: nat, prioBits: nat): Priority
    requires 1 <= prioBits <= 8
  {
    GroupValue(priorityGroup);
    var g := Group(priorityGroup);
    Priority(preempt % Pow2(PreemptBits(g, prioBits)), sub % Pow2(SubBits(g, prioBits)))
  }

  lemma EncodeValue(priorityGroup: nat, preempt: nat, sub: nat, prioBits: nat)
    requires 1 <= prioBits <= 8
    ensures Group(priorityGroup) <= 7
    ensures var m := Masked(priorityGroup, preempt, sub, prioBits);
      Encode(priorityGroup, preempt, sub, prioBits) == Shl(m.preempt, SubBits(Group(priorityGroup), prioBits)) + m.sub
  {
    GroupValue(priorityGroup);
    var g := Group(priorityGroup);
    var p, s := PreemptBits(g, prioBits), SubBits(g, prioBits);
    AndOnes(preempt, p);
    AndOnes(sub, s);
    AsDivMod(preempt, p, Pow2(p));
    AsDivMod(sub, s, Pow2(s));
    ShrLow(preempt, p);
    ShrLow(sub, s);
    LowShl(Low(preempt, p), s, 32);
    WidthsSum(g, prioBits);
    LowLow(preempt, p, 32 - s);
    LowOfLow(preempt, p, 32 - s);
    OrDisjoint(Low(preempt, p), Low(sub, s), s);
  }

  /** A value of `n` bits is unchanged by a wider mask. */
  lemma LowOfLow(x: nat, n: nat, m: nat)
    requires n <= m
    ensures Low(Low(x, n), m) == Low(x, n)
  {
    ShrLow(x, n);
    Pow2Monotone(n, m);
    LowSmall(Low(x, n), m);
  }

  /** Reading both fields of a code built from two fields. */
  lemma FieldsOf(high: nat, low: nat, p: nat, s: nat)
    requires high < Pow2(p) && low < Pow2(s)
    ensures Low(Shr(Shl(high, s) + low, s), p) == high && Low(Shl(high, s) + low, s) == low
  {
    ShlIsMul(high, s);
    AsDivMod(Shl(high, s) + low, s, Pow2(s));
    DivModUnique(Shl(high, s) + low, Pow2(s), high, low);
    LowSmall(high, p);
  }

  lemma DecodeValue(code: nat, priorityGroup: nat, prioBits: nat)
    requires 1 <= prioBits <= 8
    ensures Group(priorityGroup) <= 7
    ensures var p, s := PreemptBits(Group(priorityGroup), prioBits), SubBits(Group(priorityGroup), prioBits);
      Decode(code, priorityGroup, prioBits) == Priority(Low(Shr(code, s), p), Low(code, s))
  {
    hide And, Low, Shr;
    GroupValue(priorityGroup);
    var g := Group(priorityGroup);
    AndOnes(Shr(code, SubBits(g, prioBits)), PreemptBits(g, prioBits));
    AndOnes(code, SubBits(g, prioBits));
  }

  /** Decoding inverts encoding, on the masked inputs. */
  lemma DecodeEncode(priorityGroup: nat, preempt: nat, sub: nat, prioBits: nat)
    requires 1 <= prioBits <= 8
    ensures Decode(Encode(priorityGroup, preempt, sub, prioBits), priorityGroup, prioBits) ==
      Masked(priorityGroup, preempt, sub, prioBits)
  {
    hide And, Or, Low, Shr, Shl, Encode, Decode;
    EncodeValue(priorityGroup, preempt, sub, prioBits);
    DecodeValue(Encode(priorityGroup, preempt, sub, prioBits), priorityGroup, prioBits);
    var g, m := Group(priorityGroup), Masked(priorityGroup, preempt, sub, prioBits);
    FieldsOf(m.preempt, m.sub, PreemptBits(g, prioBits), SubBits(g, prioBits));
  }

  /** Every code below 2^prioBits is the encoding of its decoded parts: codes fill the whole range. */
  lemma EncodeDecode(priorityGroup: nat, code: nat, prioBits: nat)
    requires 1 <= prioBits <= 8 && code < Pow2(prioBits)
    ensures var d := Decode(code, priorityGroup, prioBits); Encode(priorityGroup, d.preempt, d.sub, prioBits) == code
  {
    hide And, Or, Low, Shr, Shl, Encode, Decode;
    DecodeValue(code, priorityGroup, prioBits);
    var g, d := Group(priorityGroup), Decode(code, priorityGroup, prioBits);
    var p, s := PreemptBits(g, prioBits), SubBits(g, prioBits);
    EncodeValue(priorityGroup, d.preempt, d.sub, prioBits);
    WidthsSum(g, prioBits);
    ShrLow(code, s);
    ShrLow(Shr(code, s), p);
    ShrBelow(code, s, p);
    LowSmall(Shr(code, s), p);
    AsDivMod(d.preempt, p, Pow2(p));
    AsDivMod(d.sub, s, Pow2(s));
    LowSmall(d.preempt, p);
    LowSmall(d.sub, s);
  }

  lemma {:induction false} ShrBelow(x: nat, s: nat, p: nat)
    requires x < Pow2(p + s)
    ensures Shr(x, s) < Pow2(p)
    decreases s
  {
    if s > 0 { ShrBelow(x / 2, s - 1, p); }
  }

  lemma {:induction false} ShlBelow(x: nat, y: nat, s: nat, p: nat)
    requires x < Pow2(p) && y < Pow2(s)
    ensures Shl(x, s) + y < Pow2(p + s)
    decreases s
  {
    if s > 0 { ShlBelow(x, y / 2, s - 1, p); }
  }

  /** Every encoding is a code of the implemented width. */
  lemma EncodeInRange(priorityGroup: nat, preempt: nat, sub: nat, prioBits: nat)
    requires 1 <= prioBits <= 8
    ensures Encode(priorityGroup, preempt, sub, prioBits) < Pow2(prioBits)
  {
    hide And, Or, Low, Shr, Shl, Encode;
    EncodeValue(priorityGroup, preempt, sub, prioBits);
    var g, m := Group(priorityGroup), Masked(priorityGroup, preempt, sub, prioBits);
    WidthsSum(g, prioBits);
    ShlBelow(m.preempt, m.sub, SubBits(g, prioBits), PreemptBits(g, prioBits));
  }

  predicate Before(a: Priority, b: Priority) {
    a.preempt < b.preempt || (a.preempt == b.preempt && a.sub < b.sub)
  }

  lemma {:induction false} ShlGap(x: nat, y: nat, s: nat)
    requires x < y
    ensures Shl(x, s) + Pow2(s) <= Shl(y, s)
    decreases s
  {
    if s > 0 { ShlGap(x, y, s - 1); }
  }

  lemma ShlOrders(x: nat, y: nat, u: nat, v: nat, s: nat)
    requires u < Pow2(s) && v < Pow2(s)
    ensures Shl(x, s) + u < Shl(y, s) + v <==> x < y || (x == y && u < v)
  {
    if x < y { ShlGap(x, y, s); }
    if y < x { ShlGap(y, x, s); }
  }

  /** The order of the codes is the lexicographic order of preemption priority and subpriority. */
  lemma EncodeOrders(priorityGroup: nat, preempt: nat, sub: nat, preempt': nat, sub': nat, prioBits: nat)
    requires 1 <= prioBits <= 8
    ensures Encode(priorityGroup, preempt, sub, prioBits) < Encode(priorityGroup, preempt', sub', prioBits) <==>
      Before(Masked(priorityGroup, preempt, sub, prioBits), Masked(priorityGroup, preempt', sub', prioBits))
  {
    hide And, Or, Low, Shr, Shl, Encode;
    EncodeValue(priorityGroup, preempt, sub, prioBits);
    EncodeValue(priorityGroup, preempt', sub', prioBits);
    var m, m' := Masked(priorityGroup, preempt, sub, prioBits), Masked(priorityGroup, preempt', sub', prioBits);
    ShlOrders(m.preempt, m'.preempt, m.sub, m'.sub, SubBits(Group(priorityGroup), prioBits));
  }

  // ---------- the binary point of the priority register ----------

  lemma {:induction false} ShrOfShl(x: nat, m: nat, n: nat)
    ensures n <= m ==> Shr(Shl(x, m), n) == Shl(x, m - n)
    ensures n >= m ==> Shr(Shl(x, m), n) == Shr(x, n - m)
    decreases m + n
  {
    if m > 0 && n > 0 {
      ShrOfShl(x, m - 1, n - 1);
    }
  }

  /** The hardware stores the code in the upper bits of an 8-bit field and splits that field above bit `g`
      (section B1.5.4 of the ARMv7-M Architecture Reference Manual). Decoding agrees with that split: the bits
      above the point are the preemption priority, those below are the subpriority, each above its unimplemented
      low bits. */
  lemma BinaryPoint(priorityGroup: nat, code: nat, prioBits: nat)
    requires 1 <= prioBits <= 8 && code < Pow2(prioBits)
    ensures Group(priorityGroup) <= 7
    ensures var g, d, byte := Group(priorityGroup), Decode(code, priorityGroup, prioBits), Shl(code, 8 - prioBits);
      && Shr(byte, g + 1) == Shl(d.preempt, 7 - g - PreemptBits(g, prioBits))
      && Low(byte, g + 1) == (if g + prioBits < 7 then 0 else Shl(d.sub, 8 - prioBits))
  {
    hide And, Low, Shr, Shl, Decode, Pow2;
    DecodeValue(code, priorityGroup, prioBits);
    var g := Group(priorityGroup);
    ShrOfShl(code, 8 - prioBits, g + 1);
    if g + prioBits < 7 {
      NoShift(code);
      LowSmall(code, prioBits);
      LowZeroWide(code, g + 1, 8 - prioBits);
    } else {
      var s := SubBits(g, prioBits);
      ShrBelow(code, s, PreemptBits(g, prioBits));
      LowSmall(Shr(code, s), PreemptBits(g, prioBits));
      LowShl(code, 8 - prioBits, g + 1);
      NoShift(Shr(code, s));
    }
  }

  lemma NoShift(x: nat)
    ensures Shl(x, 0) == x && Shr(x, 0) == x
  {
  }

  /** The low bits of a value shifted left further than they reach are zero. */
  lemma LowZeroWide(x: nat, n: nat, m: nat)
    requires n <= m
    ensures Low(Shl(x, m), n) == 0
  {
    LowOfShl(x, m);
    LowLow(Shl(x, m), n, m);
    LowOfZero(n);
  }
}
