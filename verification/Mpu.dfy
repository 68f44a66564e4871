/** The ARMv7-M memory protection unit: the register encoders and loaders of mpu_armv7.h, the effect
    of register writes on the region file, and the lookup that the hardware performs on an access
    (section B3.5 of the ARMv7-M Architecture Reference Manual). */
module Mpu {
  import opened Bits
  import opened Trace

  /** One region's register pair; also the entry type of a configuration table. */
  datatype Region = Region(rbar: nat, rasr: nat)

  datatype Attributes = Attributes(xn: nat, ap: nat, tex: nat, s: nat, c: nat, b: nat)

  datatype Option<T> = None | Some(value: T)

  const REGIONS: nat := 16
  const ALIASES: nat := 4

  // ---------- encoders ----------

  function EncodeRbar(region: nat, base: nat): nat {
    Or(Or(And(base, Shl(Ones(27), 5)), And(region, Ones(4))), Shl(1, 4))
  }

  function EncodeAccess(tex: nat, s: nat, c: nat, b: nat): nat {
    Or(Or(Or(And(Shl32(tex, 19), Shl(Ones(3), 19)),
             And(Shl32(s, 18), Shl(Ones(1), 18))),
          And(Shl32(c, 17), Shl(Ones(1), 17))),
       And(Shl32(b, 16), Shl(Ones(1), 16)))
  }

  /** `attributes` is an access value; the mask covers TEX, S, C and B, that is bits 16 to 21. */
  function EncodeRasrEx(xn: nat, ap: nat, attributes: nat, srd: nat, size: nat): nat {
    Or(Or(Or(Or(Or(And(Shl32(xn, 28), Shl(Ones(1), 28)),
                   And(Shl32(ap, 24), Shl(Ones(3), 24))),
                And(attributes, Shl(Ones(6), 16))),
             And(Shl32(srd, 8), Shl(Ones(8), 8))),
          And(Shl32(size, 1), Shl(Ones(5), 1))),
       1)
  }

  function EncodeRasr(a: Attributes, srd: nat, size: nat): nat {
    EncodeRasrEx(a.xn, a.ap, EncodeAccess(a.tex, a.s, a.c, a.b), srd, size)
  }

  // ---------- what the hardware reads out of the registers ----------

  predicate Enabled(r: Region) { Bit(r.rasr, 0) == 1 }
  function SizePower(r: Region): nat { Low(Shr(r.rasr, 1), 5) + 1 }
  function SubregionDisable(r: Region): nat { Low(Shr(r.rasr, 8), 8) }

  function DecodeAttributes(r: Region): Attributes {
    Attributes(Bit(r.rasr, 28), Low(Shr(r.rasr, 24), 3), Low(Shr(r.rasr, 19), 3),
               Bit(r.rasr, 18), Bit(r.rasr, 17), Bit(r.rasr, 16))
  }

  /** A region of 256 bytes or more is made of eight subregions that can be switched off one by one. */
  predicate SubregionOff(r: Region, address: nat) {
    SizePower(r) >= 8 && Bit(SubregionDisable(r), Low(Shr(address, SizePower(r) - 3), 3)) == 1
  }

  predicate Matches(r: Region, address: nat) {
    && Enabled(r)
    && Shr(address, SizePower(r)) == Shr(r.rbar, SizePower(r))
    && !SubregionOff(r, address)
  }

  /** The highest-numbered matching region among the first `n` decides the access. */
  function Lookup(file: seq<Region>, address: nat, n: nat): Option<Attributes>
    requires n <= |file|
    decreases n
  {
    if n == 0 then None
    else if Matches(file[n - 1], address) then Some(DecodeAttributes(file[n - 1]))
    else Lookup(file, address, n - 1)
  }

  // ---------- register writes ----------

  datatype State = State(ctrl: nat, rnr: nat, file: seq<Region>) {
    predicate Valid() { |file| == REGIONS && rnr < REGIONS }
  }

  /** RBAR with VALID set selects the region named in the value; otherwise RNR keeps the selection. */
  function WriteRbar(s: State, v: nat): (t: State)
    requires s.Valid()
    ensures t.Valid()
  {
    ShrLow(v, 4);
    assert Pow2(4) == 16;
    var rnr := if Bit(v, 4) == 1 then Low(v, 4) else s.rnr;
    s.(rnr := rnr, file := s.file[rnr := s.file[rnr].(rbar := Shl(Shr(v, 5), 5))])
  }

  function WriteRasr(s: State, v: nat): (t: State)
    requires s.Valid()
    ensures t.Valid()
  {
    s.(file := s.file[s.rnr := s.file[s.rnr].(rasr := v)])
  }

  function WriteRegion(s: State, r: Region): (t: State)
    requires s.Valid()
    ensures t.Valid()
  {
    WriteRasr(WriteRbar(s, r.rbar), r.rasr)
  }

  /** A write of RBAR, in decimal: bit 4 is VALID, the low four bits are the region number, the rest is the base. */
  lemma WrittenRbar(s: State, v: nat)
    requires s.Valid()
    ensures var n := if v / 16 % 2 == 1 then v % 16 else s.rnr;
      WriteRbar(s, v) == State(s.ctrl, n, s.file[n := Region(v - v % 32, s.file[n].rasr)])
  {
    Powers();
    AsDivMod(v, 4, 16);
    AsDivMod(v, 5, 32);
    ShlIsMul(v / 32, 5);
  }

  /** Any two words: the selected region holds the base without its low five bits, and the second word as it is. */
  lemma WrittenRegion(s: State, r: Region)
    requires s.Valid()
    ensures var n := if r.rbar / 16 % 2 == 1 then r.rbar % 16 else s.rnr;
      WriteRegion(s, r) == State(s.ctrl, n, s.file[n := Region(r.rbar - r.rbar % 32, r.rasr)])
  {
    hide WriteRbar;
    WrittenRbar(s, r.rbar);
  }

  /** The region that entry `k` of a table goes to: the number in the last entry up to it with VALID set, or else the number
      that was selected before. */
  function Target(rnr: nat, table: seq<Region>, k: nat): (number: nat)
    requires rnr < REGIONS && k < |table|
    ensures number < REGIONS
  {
    if table[k].rbar / 16 % 2 == 1 then table[k].rbar % 16
    else if k == 0 then rnr
    else Target(rnr, table, k - 1)
  }

  lemma {:induction false} TargetPrefix(rnr: nat, table: seq<Region>, n: nat, k: nat)
    requires rnr < REGIONS && k < n <= |table|
    ensures Target(rnr, table[..n], k) == Target(rnr, table, k)
    decreases k
  {
    if k > 0 {
      TargetPrefix(rnr, table, n, k - 1);
    }
  }

  /** The effect of setting the regions of a table one after the other. */
  function WriteTable(s: State, table: seq<Region>): (t: State)
    requires s.Valid()
    ensures t.Valid()
    decreases |table|
  {
    if table == [] then s
    else WriteRegion(WriteTable(s, table[..|table| - 1]), table[|table| - 1])
  }

  /** The last entry of a table: its target is selected and holds its pair, and no other region changes with it. */
  lemma {:induction false} LastEntry(s: State, table: seq<Region>)
    requires s.Valid() && table != []
    ensures var n := |table| - 1; var before, target := WriteTable(s, table[..n]), Target(s.rnr, table, n);
      WriteTable(s, table) ==
      State(s.ctrl, target, before.file[target := Region(table[n].rbar - table[n].rbar % 32, table[n].rasr)])
    decreases |table|
  {
    hide WriteRegion;
    var n := |table| - 1;
    WrittenRegion(WriteTable(s, table[..n]), table[n]);
    if n > 0 {
      LastEntry(s, table[..n]);
      TargetPrefix(s.rnr, table, n, n - 1);
    }
  }

  /** After a table, every region that some entry goes to holds the pair of the last such entry: the base without its low
      five bits, and the second word as it is. */
  lemma {:induction false} LoadedRegion(s: State, table: seq<Region>, k: nat)
    requires s.Valid() && k < |table|
    requires forall j :: k < j < |table| ==> Target(s.rnr, table, j) != Target(s.rnr, table, k)
    ensures WriteTable(s, table).file[Target(s.rnr, table, k)] == Region(table[k].rbar - table[k].rbar % 32, table[k].rasr)
    decreases |table|
  {
    hide WriteTable, Target;
    var n := |table| - 1;
    LastEntry(s, table);
    if k < n {
      forall j | k <= j < n
        ensures Target(s.rnr, table[..n], j) == Target(s.rnr, table, j)
      {
        TargetPrefix(s.rnr, table, n, j);
      }
      assert Target(s.rnr, table, n) != Target(s.rnr, table, k);
      LoadedRegion(s, table[..n], k);
    }
  }

  /** A region that no entry goes to is unchanged. */
  lemma {:induction false} UntouchedRegion(s: State, table: seq<Region>, number: nat)
    requires s.Valid() && number < REGIONS
    requires forall k :: 0 <= k < |table| ==> Target(s.rnr, table, k) != number
    ensures WriteTable(s, table).file[number] == s.file[number]
    decreases |table|
  {
    hide WriteRegion, Target;
    if table != [] {
      var n := |table| - 1;
      LastEntry(s, table);
      forall j | 0 <= j < n
        ensures Target(s.rnr, table[..n], j) != number
      {
        TargetPrefix(s.rnr, table, n, j);
      }
      assert Target(s.rnr, table, n) != number;
      UntouchedRegion(s, table[..n], number);
    }
  }

  lemma {:induction false} WriteTableAppend(s: State, a: seq<Region>, b: seq<Region>)
    requires s.Valid()
    ensures WriteTable(s, a + b) == WriteTable(WriteTable(s, a), b)
    decreases |b|
  {
    if b == [] {
      assert a + b == a;
    } else {
      var n := |b| - 1;
      assert (a + b)[..|a + b| - 1] == a + b[..n];
      WriteTableAppend(s, a, b[..n]);
    }
  }

  /** A word written at word offset `i` from RBAR: RBAR, RASR, then three alias pairs of the two. */
  function WriteWord(s: State, i: nat, v: nat): (t: State)
    requires s.Valid() && i < 2 * ALIASES
    ensures t.Valid()
  {
    if i % 2 == 0 then WriteRbar(s, v) else WriteRasr(s, v)
  }

  function WriteWords(s: State, words: seq<nat>): (t: State)
    requires s.Valid() && |words| <= 2 * ALIASES
    ensures t.Valid()
    decreases |words|
  {
    if words == [] then s
    else WriteWord(WriteWords(s, words[..|words| - 1]), |words| - 1, words[|words| - 1])
  }

  /** A table as the array of words that lies behind a pointer to its first RBAR. */
  function Words(table: seq<Region>): (w: seq<nat>)
    ensures |w| == 2 * |table|
  {
    if table == [] then []
    else Words(table[..|table| - 1]) + [table[|table| - 1].rbar, table[|table| - 1].rasr]
  }

  lemma {:induction false} WordsPrefix(table: seq<Region>, k: nat)
    requires k <= |table|
    ensures Words(table)[..2 * k] == Words(table[..k])
    decreases |table|
  {
    if k < |table| {
      var t := table[..|table| - 1];
      WordsPrefix(t, k);
      assert t[..k] == table[..k];
    } else {
      assert table[..k] == table;
    }
  }

  /** Copying a table through the alias registers sets its regions in order. */
  lemma {:induction false} WriteWordsIsWriteTable(s: State, table: seq<Region>)
    requires s.Valid() && |table| <= ALIASES
    ensures WriteWords(s, Words(table)) == WriteTable(s, table)
    decreases |table|
  {
    if table != [] {
      hide WriteRbar, WriteRasr;
      var t, n := table[..|table| - 1], |table| - 1;
      var w := Words(table);
      WriteWordsIsWriteTable(s, t);
      assert w[..2 * n + 1][..2 * n] == Words(t);
      assert WriteWords(s, w[..2 * n + 1]) == WriteRbar(WriteWords(s, Words(t)), table[n].rbar);
      assert w[..|w| - 1] == w[..2 * n + 1];
    }
  }

  lemma SliceJoin(table: seq<Region>, position: nat, k: nat)
    requires position + k <= |table|
    ensures table[..position] + table[position..][..k] == table[..position + k]
  {
  }

  /** One burst of `k` entries continues an in-order load that has reached `position`. */
  lemma BurstIsTable(start: State, table: seq<Region>, position: nat, k: nat)
    requires start.Valid() && position + k <= |table| && k <= ALIASES
    ensures WriteWords(WriteTable(start, table[..position]), Words(table[position..])[..2 * k]) ==
            WriteTable(start, table[..position + k])
  {
    var burst := table[position..][..k];
    SliceJoin(table, position, k);
    WordsPrefix(table[position..], k);
    WriteWordsIsWriteTable(WriteTable(start, table[..position]), burst);
    WriteTableAppend(start, table[..position], burst);
  }

  lemma RegionWordsNone(log: seq<Write>)
    ensures log == log + RegionWords([])
  {
  }

  lemma RegionWordsNext(log: seq<Write>, src: seq<nat>, i: nat)
    requires i < |src|
    ensures log + RegionWords(src[..i + 1]) ==
      log + RegionWords(src[..i]) + [if i % 2 == 0 then MpuBase(src[i]) else MpuAttributes(src[i])]
  {
  }

  lemma RegionWordsAppend(a: seq<nat>, b: seq<nat>)
    requires |a| % 2 == 0
    ensures RegionWords(a + b) == RegionWords(a) + RegionWords(b)
  {
  }

  lemma {:induction false} WordsAppend(a: seq<Region>, b: seq<Region>)
    ensures Words(a + b) == Words(a) + Words(b)
    decreases |b|
  {
    if b == [] {
      assert a + b == a;
    } else {
      assert (a + b)[..|a + b| - 1] == a + b[..|b| - 1];
      WordsAppend(a, b[..|b| - 1]);
    }
  }

  lemma NothingLoaded(log: seq<Write>, table: seq<Region>)
    ensures log == log + RegionWords(Words(table[..0]))
  {
  }

  /** The writes of a burst continue those of an in-order load. */
  lemma BurstWrites(log: seq<Write>, table: seq<Region>, position: nat, k: nat)
    requires position + k <= |table|
    ensures log + RegionWords(Words(table[..position])) + RegionWords(Words(table[position..])[..2 * k]) ==
      log + RegionWords(Words(table[..position + k]))
  {
    hide RegionWords, Words;
    var before, burst := table[..position], table[position..][..k];
    SliceJoin(table, position, k);
    WordsPrefix(table[position..], k);
    WordsAppend(before, burst);
    RegionWordsAppend(Words(before), Words(burst));
  }

  // ---------- the peripheral ----------

  class Peripheral {
    var ctrl: nat
    var rnr: nat
    var file: seq<Region>
    const trace: Recorder

    constructor (trace: Recorder, ctrl: nat, rnr: nat, file: seq<Region>)
      ensures this.trace == trace && Abs() == State(ctrl, rnr, file)
    {
      this.trace := trace;
      this.ctrl := ctrl;
      this.rnr := rnr;
      this.file := file;
    }

    function Abs(): State
      reads this
    {
      State(ctrl, rnr, file)
    }

    method SetRbar(v: nat)
      requires Abs().Valid()
      modifies this, trace
      ensures Abs() == WriteRbar(old(Abs()), v)
      ensures trace.writes == old(trace.writes) + [MpuBase(v)]
    {
      ShrLow(v, 4);
      assert Pow2(4) == 16;
      if Bit(v, 4) == 1 {
        rnr := Low(v, 4);
      }
      file := file[rnr := file[rnr].(rbar := Shl(Shr(v, 5), 5))];
      trace.writes := trace.writes + [MpuBase(v)];
    }

    method SetRasr(v: nat)
      requires Abs().Valid()
      modifies this, trace
      ensures Abs() == WriteRasr(old(Abs()), v)
      ensures trace.writes == old(trace.writes) + [MpuAttributes(v)]
    {
      file := file[rnr := file[rnr].(rasr := v)];
      trace.writes := trace.writes + [MpuAttributes(v)];
    }

    /** ARM_MPU_SetRegion, for any two words. */
    method SetRegion(rbar: nat, rasr: nat)
      requires Abs().Valid()
      modifies this, trace
      ensures Abs() == WriteRegion(old(Abs()), Region(rbar, rasr))
      ensures ctrl == old(ctrl) && rnr == if rbar / 16 % 2 == 1 then rbar % 16 else old(rnr)
      ensures file == old(file)[rnr := Region(rbar - rbar % 32, rasr)]
      ensures trace.writes == old(trace.writes) + [MpuBase(rbar), MpuAttributes(rasr)]
    {
      hide WriteRbar, WriteRasr;
      WrittenRegion(Abs(), Region(rbar, rasr));
      SetRbar(rbar);
      SetRasr(rasr);
    }

    /** ARM_MPU_Enable. */
    method Enable(control: nat)
      modifies this, trace
      ensures Abs() == old(Abs()).(ctrl := Or(control, 1))
      ensures trace.writes == old(trace.writes) + [MpuControl(Or(control, 1))]
    {
      ctrl := Or(control, 1);
      trace.writes := trace.writes + [MpuControl(ctrl)];
    }

    /** ARM_MPU_Disable. */
    method Disable()
      modifies this, trace
      ensures Abs() == old(Abs()).(ctrl := old(ctrl) - old(ctrl) % 2)
      ensures trace.writes == old(trace.writes) + [MpuControl(old(ctrl) - old(ctrl) % 2)]
    {
      ctrl := ctrl - ctrl % 2;
      trace.writes := trace.writes + [MpuControl(ctrl)];
    }

    /** Strictly ordered word copy into the registers from RBAR onwards. */
    method OrderedMemcpy(src: seq<nat>, len: nat)
      requires Abs().Valid()
      requires len <= |src| && len <= 2 * ALIASES
      modifies this, trace
      ensures Abs() == WriteWords(old(Abs()), src[..len])
      ensures trace.writes == old(trace.writes) + RegionWords(src[..len])
    {
      hide WriteRbar, WriteRasr, RegionWords;
      var i := 0;
      RegionWordsNone(trace.writes);
      while i < len
        invariant i <= len && Abs().Valid()
        invariant Abs() == WriteWords(old(Abs()), src[..i])
        invariant trace.writes == old(trace.writes) + RegionWords(src[..i])
      {
        assert src[..i + 1][..i] == src[..i];
        RegionWordsNext(old(trace.writes), src, i);
        if i % 2 == 0 {
          SetRbar(src[i]);
        } else {
          SetRasr(src[i]);
        }
        i := i + 1;
      }
    }

    /** Loads `cnt` table entries in bursts of four through the alias registers. */
    method Load(table: seq<Region>, cnt: nat)
      requires Abs().Valid() && cnt <= |table|
      modifies this, trace
      ensures Abs() == WriteTable(old(Abs()), table[..cnt])
      ensures trace.writes == old(trace.writes) + RegionWords(Words(table[..cnt]))
    {
      hide RegionWords, Words;
      var position, left := 0, cnt;
      NothingLoaded(old(trace.writes), table);
      while left > ALIASES
        invariant left >= 0 && position + left == cnt && Abs().Valid()
        invariant Abs() == WriteTable(old(Abs()), table[..position])
        invariant trace.writes == old(trace.writes) + RegionWords(Words(table[..position]))
      {
        BurstIsTable(old(Abs()), table, position, ALIASES);
        BurstWrites(old(trace.writes), table, position, ALIASES);
        OrderedMemcpy(Words(table[position..]), 2 * ALIASES);
        position := position + ALIASES;
        left := left - ALIASES;
      }
      BurstIsTable(old(Abs()), table, position, left);
      BurstWrites(old(trace.writes), table, position, left);
      OrderedMemcpy(Words(table[position..]), 2 * left);
    }
  }

  // ---------- encoding and decoding ----------

  lemma Powers()
    ensures Pow2(0) == 1 && Pow2(1) == 2 && Pow2(3) == 8 && Pow2(4) == 0x10
    ensures Pow2(5) == 0x20 && Pow2(6) == 0x40 && Pow2(8) == 0x100
    ensures Pow2(16) == 0x1_0000 && Pow2(17) == 0x2_0000 && Pow2(18) == 0x4_0000 && Pow2(19) == 0x8_0000
    ensures Pow2(24) == 0x100_0000 && Pow2(28) == 0x1000_0000
  {
    assert Pow2(8) == 0x100;
    Pow2Add(8, 8);
    Pow2Add(16, 8);
    Pow2Add(24, 4);
  }

  /** `|` as addition, with the position given by its power of two. */
  lemma OrAdds(x: nat, b: nat, n: nat, p: nat)
    requires p == Pow2(n) && x % p == 0 && b < p
    ensures Or(x, b) == x + b
  {
    AsDivMod(x, n, p);
    ShrLow(x, n);
    OrDisjoint(Shr(x, n), b, n);
  }

  /** The masked field `(v << n) & (ones(w) << n)` of a value that fits in the field. */
  lemma FieldValue(v: nat, w: nat, n: nat, p: nat)
    requires p == Pow2(n) && v < Pow2(w) && n + w <= 32
    ensures And(Shl32(v, n), Shl(Ones(w), n)) == v * p
  {
    InsertField(v, w, n);
    LowSmall(v, w);
    ShlIsMul(v, n);
  }

  predicate InRange(a: Attributes) {
    a.xn < 2 && a.ap < 8 && a.tex < 8 && a.s < 2 && a.c < 2 && a.b < 2
  }

  lemma AccessBits(tex: nat, s: nat, c: nat, b: nat)
    requires tex < 8 && s < 2 && c < 2 && b < 2
    ensures Or(Or(Or(tex * 0x8_0000, s * 0x4_0000), c * 0x2_0000), b * 0x1_0000) ==
      tex * 0x8_0000 + s * 0x4_0000 + c * 0x2_0000 + b * 0x1_0000
  {
    hide Or, Pow2;
    Powers();
    OrAdds(tex * 0x8_0000, s * 0x4_0000, 19, 0x8_0000);
    OrAdds(tex * 0x8_0000 + s * 0x4_0000, c * 0x2_0000, 18, 0x4_0000);
    OrAdds(tex * 0x8_0000 + s * 0x4_0000 + c * 0x2_0000, b * 0x1_0000, 17, 0x2_0000);
  }

  lemma AccessValue(tex: nat, s: nat, c: nat, b: nat)
    requires tex < 8 && s < 2 && c < 2 && b < 2
    ensures EncodeAccess(tex, s, c, b) == tex * 0x8_0000 + s * 0x4_0000 + c * 0x2_0000 + b * 0x1_0000
  {
    hide Or, And, Pow2, Shl, Low;
    Powers();
    FieldValue(tex, 3, 19, 0x8_0000);
    FieldValue(s, 1, 18, 0x4_0000);
    FieldValue(c, 1, 17, 0x2_0000);
    FieldValue(b, 1, 16, 0x1_0000);
    AccessBits(tex, s, c, b);
  }

  lemma RasrBits(xn: nat, ap: nat, access: nat, srd: nat, size: nat)
    requires xn < 2 && ap < 8 && access < 0x40_0000 && access % 0x1_0000 == 0 && srd < 0x100 && size < 0x20
    ensures Or(Or(Or(Or(Or(xn * 0x1000_0000, ap * 0x100_0000), access), srd * 0x100), size * 2), 1) ==
      xn * 0x1000_0000 + ap * 0x100_0000 + access + srd * 0x100 + size * 2 + 1
  {
    hide Or, Pow2;
    var high := xn * 0x1000_0000 + ap * 0x100_0000;
    assert Or(Or(xn * 0x1000_0000, ap * 0x100_0000), access) == high + access by {
      Powers();
      OrAdds(xn * 0x1000_0000, ap * 0x100_0000, 28, 0x1000_0000);
      OrAdds(high, access, 24, 0x100_0000);
    }
    RasrLowBits(high + access, srd, size);
  }

  lemma RasrResidues(high: nat, srd: nat, size: nat)
    requires high % 0x1_0000 == 0
    ensures (high + srd * 0x100) % 0x100 == 0 && (high + srd * 0x100 + size * 2) % 2 == 0
  {
    var h := high / 0x1_0000;
    assert high == h * 0x1_0000;
    DivModUnique(high + srd * 0x100, 0x100, h * 0x100 + srd, 0);
    DivModUnique(high + srd * 0x100 + size * 2, 2, h * 0x8000 + srd * 0x80 + size, 0);
  }

  lemma RasrLowBits(high: nat, srd: nat, size: nat)
    requires high % 0x1_0000 == 0 && srd < 0x100 && size < 0x20
    ensures Or(Or(Or(high, srd * 0x100), size * 2), 1) == high + srd * 0x100 + size * 2 + 1
  {
    hide Or, Pow2;
    Powers();
    RasrResidues(high, srd, size);
    OrAdds(high, srd * 0x100, 16, 0x1_0000);
    OrAdds(high + srd * 0x100, size * 2, 8, 0x100);
    OrAdds(high + srd * 0x100 + size * 2, 1, 1, 2);
  }

  /** The mask over TEX, S, C and B keeps an access value unchanged. */
  lemma AccessMask(access: nat)
    requires access < 0x40_0000 && access % 0x1_0000 == 0
    ensures And(access, Shl(Ones(6), 16)) == access
  {
    Powers();
    AndField(access, 6, 16);
    ShrLow(access, 16);
    AsDivMod(access, 16, 0x1_0000);
    LowSmall(Shr(access, 16), 6);
  }

  lemma RasrExValue(xn: nat, ap: nat, access: nat, srd: nat, size: nat)
    requires xn < 2 && ap < 8 && access < 0x40_0000 && access % 0x1_0000 == 0 && srd < 0x100 && size < 0x20
    ensures EncodeRasrEx(xn, ap, access, srd, size) ==
      xn * 0x1000_0000 + ap * 0x100_0000 + access + srd * 0x100 + size * 2 + 1
  {
    hide Or, And, Pow2, Shl, Low;
    Powers();
    FieldValue(xn, 1, 28, 0x1000_0000);
    FieldValue(ap, 3, 24, 0x100_0000);
    FieldValue(srd, 8, 8, 0x100);
    FieldValue(size, 5, 1, 2);
    AccessMask(access);
    RasrBits(xn, ap, access, srd, size);
  }

  function RasrSum(a: Attributes, srd: nat, size: nat): nat {
    a.xn * 0x1000_0000 + a.ap * 0x100_0000 + a.tex * 0x8_0000 + a.s * 0x4_0000 + a.c * 0x2_0000 + a.b * 0x1_0000 +
    srd * 0x100 + size * 2 + 1
  }

  /** RASR bit by bit: XN 28, AP 26 to 24, TEX 21 to 19, S 18, C 17, B 16, SRD 15 to 8, SIZE 5 to 1, ENABLE 0. */
  lemma RasrValue(a: Attributes, srd: nat, size: nat)
    requires InRange(a) && srd < 0x100 && size < 0x20
    ensures EncodeRasr(a, srd, size) == RasrSum(a, srd, size)
  {
    hide Or, And, Pow2, Shl, Low, EncodeAccess, EncodeRasrEx;
    var upper := a.tex * 8 + a.s * 4 + a.c * 2 + a.b;
    AccessValue(a.tex, a.s, a.c, a.b);
    MultipleMod(upper, 0x1_0000);
    RasrExValue(a.xn, a.ap, upper * 0x1_0000, srd, size);
  }

  /** The encoder keeps the low bits of each field. */
  function Masked(a: Attributes): (m: Attributes)
    ensures InRange(m)
  {
    Attributes(a.xn % 2, a.ap % 8, a.tex % 8, a.s % 2, a.c % 2, a.b % 2)
  }

  lemma FieldMask(v: nat, w: nat, n: nat, p: nat)
    requires p == Pow2(w) && n + w <= 32
    ensures And(Shl32(v, n), Shl(Ones(w), n)) == And(Shl32(v % p, n), Shl(Ones(w), n))
  {
    hide And, Shl, Low, Pow2, Shr;
    AsDivMod(v, w, p);
    InsertField(v, w, n);
    InsertField(v % p, w, n);
    LowLow(v, w, w);
  }

  lemma RasrMasks(a: Attributes, srd: nat, size: nat)
    ensures EncodeRasr(a, srd, size) == EncodeRasr(Masked(a), srd % 0x100, size % 0x20)
  {
    hide Or, And, Pow2, Shl, Low, Shl32, Ones;
    Powers();
    FieldMask(a.xn, 1, 28, 2);
    FieldMask(a.ap, 3, 24, 8);
    FieldMask(a.tex, 3, 19, 8);
    FieldMask(a.s, 1, 18, 2);
    FieldMask(a.c, 1, 17, 2);
    FieldMask(a.b, 1, 16, 2);
    FieldMask(srd, 8, 8, 0x100);
    FieldMask(size, 5, 1, 0x20);
  }

  lemma RasrPermissions(v: nat, xn: nat, ap: nat, tex: nat, low: nat)
    requires xn < 2 && ap < 8 && tex < 8 && low < 0x8_0000
    requires v == xn * 0x1000_0000 + ap * 0x100_0000 + tex * 0x8_0000 + low
    ensures Bit(v, 28) == xn && Low(Shr(v, 24), 3) == ap && Low(Shr(v, 19), 3) == tex
  {
    hide Pow2, Shr, Low;
    Powers();
    ReadField(0, xn, ap * 0x100_0000 + tex * 0x8_0000 + low, 1, 28, 2, 0x1000_0000, v);
    ReadField(xn * 2, ap, tex * 0x8_0000 + low, 3, 24, 8, 0x100_0000, v);
    ReadField(xn * 0x40 + ap * 4, tex, low, 3, 19, 8, 0x8_0000, v);
  }

  lemma RasrCachePolicy(v: nat, high: nat, s: nat, c: nat, b: nat, low: nat)
    requires s < 2 && c < 2 && b < 2 && low < 0x1_0000
    requires v == high * 0x8_0000 + s * 0x4_0000 + c * 0x2_0000 + b * 0x1_0000 + low
    ensures Bit(v, 18) == s && Bit(v, 17) == c && Bit(v, 16) == b
  {
    hide Pow2, Shr, Low;
    Powers();
    ReadField(high, s, c * 0x2_0000 + b * 0x1_0000 + low, 1, 18, 2, 0x4_0000, v);
    ReadField(high * 2 + s, c, b * 0x1_0000 + low, 1, 17, 2, 0x2_0000, v);
    ReadField(high * 4 + s * 2 + c, b, low, 1, 16, 2, 0x1_0000, v);
  }

  lemma RasrAttributes(rbar: nat, a: Attributes, srd: nat, size: nat)
    requires InRange(a) && srd < 0x100 && size < 0x20
    ensures DecodeAttributes(Region(rbar, RasrSum(a, srd, size))) == a
  {
    var v, low := RasrSum(a, srd, size), srd * 0x100 + size * 2 + 1;
    RasrPermissions(v, a.xn, a.ap, a.tex, a.s * 0x4_0000 + a.c * 0x2_0000 + a.b * 0x1_0000 + low);
    RasrCachePolicy(v, a.xn * 0x200 + a.ap * 0x20 + a.tex, a.s, a.c, a.b, low);
  }

  lemma RasrSize(rbar: nat, a: Attributes, srd: nat, size: nat)
    requires InRange(a) && srd < 0x100 && size < 0x20
    ensures var r := Region(rbar, RasrSum(a, srd, size));
      Enabled(r) && SizePower(r) == size + 1 && SubregionDisable(r) == srd
  {
    hide Pow2, Shr, Low;
    var v := RasrSum(a, srd, size);
    var high := a.xn * 0x1000 + a.ap * 0x100 + a.tex * 8 + a.s * 4 + a.c * 2 + a.b;
    Powers();
    ReadField(high, srd, size * 2 + 1, 8, 8, 0x100, 0x100, v);
    ReadField(high * 4 * 0x100 + srd * 4, size, 1, 5, 1, 0x20, 2, v);
    ReadField(high * 0x8000 + srd * 0x80 + size, 1, 0, 1, 0, 2, 1, v);
  }

  /** Every field written into RASR is read back by the hardware, cut to its width. */
  lemma RasrRoundTrip(rbar: nat, a: Attributes, srd: nat, size: nat)
    ensures var r := Region(rbar, EncodeRasr(a, srd, size));
      && Enabled(r) && SizePower(r) == size % 0x20 + 1 && SubregionDisable(r) == srd % 0x100
      && DecodeAttributes(r) == Attributes(a.xn % 2, a.ap % 8, a.tex % 8, a.s % 2, a.c % 2, a.b % 2)
  {
    hide EncodeRasr, RasrSum, Enabled, SizePower, SubregionDisable, DecodeAttributes;
    var m, disable, code := Masked(a), srd % 0x100, size % 0x20;
    RasrMasks(a, srd, size);
    RasrValue(m, disable, code);
    RasrAttributes(rbar, m, disable, code);
    RasrSize(rbar, m, disable, code);
  }

  /** Fields that fit come back as they are. */
  lemma RasrReadBack(rbar: nat, a: Attributes, srd: nat, size: nat)
    requires InRange(a) && srd < 0x100 && size < 0x20
    ensures var r := Region(rbar, EncodeRasr(a, srd, size));
      Enabled(r) && SizePower(r) == size + 1 && SubregionDisable(r) == srd && DecodeAttributes(r) == a
  {
    hide EncodeRasr, Enabled, SizePower, SubregionDisable, DecodeAttributes;
    RasrRoundTrip(rbar, a, srd, size);
  }

  /** RBAR bit by bit: the base from bit 5 up, VALID 4, the region number 3 to 0. */
  lemma RbarValue(region: nat, base: nat)
    requires base < 0x1_0000_0000
    ensures EncodeRbar(region, base) == base - base % 32 + 16 + region % 16
  {
    hide Or, And, Pow2, Shl, Low, Shr;
    var q, number := base / 32, region % 16;
    BaseField(base);
    RegionField(region);
    Powers();
    OrAdds(q * 32, number, 5, 32);
    ValidBit(q * 32 + number, q, number);
  }

  lemma BaseField(base: nat)
    requires base < 0x1_0000_0000
    ensures And(base, Shl(Ones(27), 5)) == base / 32 * 32
  {
    hide And, Shl, Low, Shr;
    Powers();
    AndField(base, 27, 5);
    AsDivMod(base, 5, 32);
    Pow2Add(24, 3);
    LowSmall(base / 32, 27);
    ShlIsMul(base / 32, 5);
  }

  lemma RegionField(region: nat)
    ensures And(region, Ones(4)) == region % 16
  {
    hide And, Low;
    Powers();
    AndOnes(region, 4);
    AsDivMod(region, 4, 16);
  }

  lemma ValidBit(v: nat, q: nat, region: nat)
    requires region < 16 && v == q * 32 + region
    ensures Or(v, Shl(1, 4)) == v + 16
  {
    hide Or, Shl, Shr, Low, Pow2;
    Powers();
    ReadField(q, 0, region, 1, 4, 2, 16, v);
    SetBit(v, 4);
    ShlIsMul(1, 4);
  }

  /** RBAR carries the base with its low five bits cleared, VALID, and the low four bits of the region number. */
  lemma RbarRoundTrip(region: nat, base: nat)
    requires base < 0x1_0000_0000
    ensures var v := EncodeRbar(region, base);
      Bit(v, 4) == 1 && Low(v, 4) == region % 16 && Shl(Shr(v, 5), 5) == base - base % 32
  {
    hide EncodeRbar, Low, Shr, Shl, Pow2;
    RbarValue(region, base);
    RbarFields(base / 32, region % 16);
  }

  lemma RbarFields(q: nat, number: nat)
    requires number < 16
    ensures var v := q * 32 + 16 + number; Bit(v, 4) == 1 && Low(v, 4) == number && Shl(Shr(v, 5), 5) == q * 32
  {
    hide Low, Shl, Pow2;
    var v := q * 32 + 16 + number;
    Powers();
    ReadField(q, 1, number, 1, 4, 2, 16, v);
    ReadField(2 * q + 1, number, 0, 4, 0, 16, 1, v);
    assert Shr(v, 0) == v;
    assert Shr(v, 5) == q by {
      AsDivMod(v, 5, 32);
      DivModUnique(v, 32, q, 16 + number);
    }
    ShlIsMul(q, 5);
  }
}
