/** Region configurations as BOARD_ConfigMPU writes them, and the memory map that the highest-numbered
    matching region gives to every address. */
module MemoryMap {
  import opened Bits
  import opened Mpu
  import Tiling

  /** What a table row of the configuration says: a naturally aligned block and its attributes. */
  datatype Config = Config(block: Tiling.Block, attributes: Attributes) {
    predicate Valid() {
      && block.Aligned() && 5 <= block.power <= 32 && block.End() <= 0x1_0000_0000
      && InRange(attributes)
    }
  }

  /** The register pair left in region `number` by RBAR and RASR writes for a configuration. */
  function Programmed(number: nat, c: Config): Region
    requires c.block.power > 0
  {
    Region(Shl(Shr(EncodeRbar(number, c.block.base), 5), 5), EncodeRasr(c.attributes, 0, c.block.power - 1))
  }

  /** The two register writes of one configuration. */
  function Configure(s: State, number: nat, c: Config): State
    requires s.Valid() && c.block.power > 0
  {
    WriteRegion(s, Region(EncodeRbar(number, c.block.base), EncodeRasr(c.attributes, 0, c.block.power - 1)))
  }

  lemma ConfigureSetsRegion(s: State, number: nat, c: Config)
    requires s.Valid() && number < REGIONS && c.Valid()
    ensures Configure(s, number, c) == s.(rnr := number, file := s.file[number := Programmed(number, c)])
  {
    hide Or, And, Shl, Shr, Low, Pow2, EncodeRbar, EncodeRasr;
    BaseInRange(c.block);
    RbarRoundTrip(number, c.block.base);
  }

  lemma BaseInRange(b: Tiling.Block)
    requires b.End() <= 0x1_0000_0000
    ensures b.base < 0x1_0000_0000
  {
  }

  lemma {:induction false} ShrEqual(base: nat, address: nat, n: nat)
    requires Low(base, n) == 0
    ensures Shr(address, n) == Shr(base, n) <==> base <= address < base + Pow2(n)
    decreases n
  {
    if n > 0 {
      ShrEqual(base / 2, address / 2, n - 1);
    }
  }

  /** A programmed region is enabled, matches exactly the addresses of its block and carries its attributes. */
  lemma ProgrammedMatches(number: nat, c: Config, address: nat)
    requires number < REGIONS && c.Valid()
    ensures Matches(Programmed(number, c), address) <==> c.block.Contains(address)
    ensures DecodeAttributes(Programmed(number, c)) == c.attributes
  {
    hide Or, And, Pow2, EncodeRbar, EncodeRasr;
    BaseInRange(c.block);
    RbarRoundTrip(number, c.block.base);
    var base := c.block.base;
    assert base % 32 == 0 by {
      LowZeroNext(base, 5, c.block.power);
      Powers();
      AsDivMod(base, 5, 32);
    }
    RasrReadBack(base, c.attributes, 0, c.block.power - 1);
    ShrEqual(base, address, c.block.power);
    assert !SubregionOff(Programmed(number, c), address) by {
      BitOfZero(Low(Shr(address, c.block.power - 3), 3));
    }
  }

  lemma {:induction false} BitOfZero(i: nat)
    ensures Bit(0, i) == 0
  {
    if i > 0 { BitOfZero(i - 1); }
  }

  /** Configurations by region number; `None` stands for a region that is not in use. */
  type Plan = seq<Option<Config>>

  ghost predicate Implements(file: seq<Region>, plan: Plan) {
    && |file| == |plan| <= REGIONS
    && (forall i :: 0 <= i < |plan| && plan[i].Some? ==> plan[i].value.Valid() && file[i] == Programmed(i, plan[i].value))
    && (forall i :: 0 <= i < |plan| && plan[i].None? ==> !Enabled(file[i]))
  }

  predicate PlanContains(c: Option<Config>, address: nat) {
    c.Some? && c.value.block.base <= address < c.value.block.End()
  }

  function PlanLookup(plan: Plan, address: nat, n: nat): Option<Attributes>
    requires n <= |plan|
  {
    if n == 0 then None
    else if PlanContains(plan[n - 1], address) then Some(plan[n - 1].value.attributes)
    else PlanLookup(plan, address, n - 1)
  }

  /** The hardware lookup in the registers is the lookup in the plan they implement. */
  lemma {:induction false} LookupFollowsPlan(file: seq<Region>, plan: Plan, address: nat, n: nat)
    requires Implements(file, plan) && n <= |plan|
    ensures Lookup(file, address, n) == PlanLookup(plan, address, n)
    decreases n
  {
    hide Matches, Programmed, DecodeAttributes, Enabled;
    if n > 0 {
      LookupFollowsPlan(file, plan, address, n - 1);
      if plan[n - 1].Some? {
        ProgrammedMatches(n - 1, plan[n - 1].value, address);
      } else {
        DisabledNeverMatches(file[n - 1], address);
      }
    }
  }

  lemma DisabledNeverMatches(r: Region, address: nat)
    requires !Enabled(r)
    ensures !Matches(r, address)
  {
  }

  // ---------- memory types ----------

  datatype MemoryType =
    | StronglyOrdered | DeviceShareable | DeviceNonShareable
    | NormalWriteThrough | NormalWriteBack | NormalNonCacheable | NormalWriteBackAllocate | Reserved

  /** The memory type selected by TEX, C and B. */
  function TypeOf(a: Attributes): MemoryType {
    match (a.tex, a.c, a.b)
    case (0, 0, 0) => StronglyOrdered
    case (0, 0, 1) => DeviceShareable
    case (0, 1, 0) => NormalWriteThrough
    case (0, 1, 1) => NormalWriteBack
    case (1, 0, 0) => NormalNonCacheable
    case (1, 1, 1) => NormalWriteBackAllocate
    case (2, 0, 0) => DeviceNonShareable
    case _ => Reserved
  }

  // ---------- the fixed regions of BOARD_ConfigMPU ----------

  const AP_NONE: nat := 0
  const AP_FULL: nat := 3
  const AP_RO: nat := 6

  const NO_ACCESS := Attributes(1, AP_NONE, 0, 0, 0, 0)
  const DEVICE := Attributes(0, AP_FULL, 2, 0, 0, 0)
  const WRITE_BACK := Attributes(0, AP_FULL, 0, 0, 1, 1)
  const WRITE_BACK_RO := Attributes(0, AP_RO, 0, 0, 1, 1)
  const OCRAM_UNCACHED := Attributes(0, AP_FULL, 0, 0, 0, 0)
  const WINDOW := Attributes(0, AP_FULL, 1, 0, 0, 0)

  /** Where the linker script places the parts whose addresses the source takes from symbols. */
  datatype Layout = Layout(ocramCached: nat, ocramUncached: nat, xip: bool) {
    predicate Valid() {
      && Low(ocramCached, 20) == 0 && ocramCached + 0x10_0000 <= 0x1_0000_0000
      && Low(ocramUncached, 20) == 0 && ocramUncached + 0x10_0000 <= 0x1_0000_0000
    }
  }

  /** Regions 0 to 10 in the order in which BOARD_ConfigMPU writes them. */
  function FixedConfig(l: Layout, number: nat): Option<Config>
    requires number <= 10
  {
    match number
    case 0 => Some(Config(Tiling.Block(0, 32), NO_ACCESS))
    case 1 => Some(Config(Tiling.Block(0, 30), DEVICE))
    case 2 => Some(Config(Tiling.Block(0x6000_0000, 29), DEVICE))
    case 3 => Some(Config(Tiling.Block(0x4000_0000, 25), DEVICE))
    case 4 => Some(Config(Tiling.Block(0x4200_0000, 20), DEVICE))
    case 5 => Some(Config(Tiling.Block(0, 19), WRITE_BACK))
    case 6 => Some(Config(Tiling.Block(0x2000_0000, 19), WRITE_BACK))
    case 7 => Some(Config(Tiling.Block(l.ocramCached, 20), WRITE_BACK))
    case 8 => Some(Config(Tiling.Block(l.ocramUncached, 20), OCRAM_UNCACHED))
    case 9 => if l.xip then Some(Config(Tiling.Block(0x3000_0000, 25), WRITE_BACK_RO)) else None
    case 10 => Some(Config(Tiling.Block(0x8000_0000, 25), WRITE_BACK))
  }

  predicate InBlock(address: nat, base: nat, length: nat) { base <= address < base + length }

  /** The attributes of an address outside the non-cacheable window, by address range. */
  function FixedMap(l: Layout, address: nat): Attributes {
    if InBlock(address, 0x8000_0000, 0x200_0000) then WRITE_BACK
    else if l.xip && InBlock(address, 0x3000_0000, 0x200_0000) then WRITE_BACK_RO
    else if InBlock(address, l.ocramUncached, 0x10_0000) then OCRAM_UNCACHED
    else if InBlock(address, l.ocramCached, 0x10_0000) then WRITE_BACK
    else if InBlock(address, 0x2000_0000, 0x8_0000) || InBlock(address, 0, 0x8_0000) then WRITE_BACK
    else if InBlock(address, 0x4000_0000, 0x210_0000) || InBlock(address, 0x6000_0000, 0x2000_0000)
         || InBlock(address, 0, 0x4000_0000) then DEVICE
    else NO_ACCESS
  }

  lemma BlockPowers()
    ensures Pow2(19) == 0x8_0000 && Pow2(20) == 0x10_0000 && Pow2(25) == 0x200_0000
    ensures Pow2(29) == 0x2000_0000 && Pow2(30) == 0x4000_0000 && Pow2(32) == 0x1_0000_0000
  {
    Powers();
    Pow2Of32();
    Pow2Add(1, 19);
    Pow2Add(1, 24);
    Pow2Add(1, 28);
    Pow2Add(1, 29);
  }

  /** A block at a multiple of its length. */
  lemma ConfigValid(base: nat, power: nat, length: nat, a: Attributes)
    requires length == Pow2(power) && base % length == 0 && 5 <= power <= 32
    requires base + length <= 0x1_0000_0000 && InRange(a)
    ensures Config(Tiling.Block(base, power), a).Valid()
  {
    AsDivMod(base, power, length);
  }

  lemma FixedConfigValid(l: Layout, number: nat)
    requires l.Valid() && number <= 10 && FixedConfig(l, number).Some?
    ensures FixedConfig(l, number).value.Valid()
  {
    hide Config.Valid, Pow2, Low;
    BlockPowers();
    AsDivMod(l.ocramCached, 20, 0x10_0000);
    AsDivMod(l.ocramUncached, 20, 0x10_0000);
    match number
    case 0 => ConfigValid(0, 32, 0x1_0000_0000, NO_ACCESS);
    case 1 => ConfigValid(0, 30, 0x4000_0000, DEVICE);
    case 2 => ConfigValid(0x6000_0000, 29, 0x2000_0000, DEVICE);
    case 3 => ConfigValid(0x4000_0000, 25, 0x200_0000, DEVICE);
    case 4 => ConfigValid(0x4200_0000, 20, 0x10_0000, DEVICE);
    case 5 => ConfigValid(0, 19, 0x8_0000, WRITE_BACK);
    case 6 => ConfigValid(0x2000_0000, 19, 0x8_0000, WRITE_BACK);
    case 7 => ConfigValid(l.ocramCached, 20, 0x10_0000, WRITE_BACK);
    case 8 => ConfigValid(l.ocramUncached, 20, 0x10_0000, OCRAM_UNCACHED);
    case 9 => ConfigValid(0x3000_0000, 25, 0x200_0000, WRITE_BACK_RO);
    case 10 => ConfigValid(0x8000_0000, 25, 0x200_0000, WRITE_BACK);
  }

  function FixedPlan(l: Layout): Plan {
    seq(11, i requires 0 <= i <= 10 => FixedConfig(l, i))
  }

  /** The plan after BOARD_ConfigMPU: the fixed regions, the blocks of the window, and unused regions. */
  function WindowPlan(blocks: seq<Tiling.Block>): Plan {
    seq(|blocks|, i requires 0 <= i < |blocks| => Some(Config(blocks[i], WINDOW)))
  }

  function BoardPlan(l: Layout, blocks: seq<Tiling.Block>): Plan
    requires |blocks| <= 5
  {
    FixedPlan(l) + WindowPlan(blocks) + seq(5 - |blocks|, _ => None)
  }

  predicate HasFixed(plan: Plan, l: Layout) {
    |plan| >= 11 && forall i :: 0 <= i <= 10 ==> plan[i] == FixedConfig(l, i)
  }

  /** One priority of the lookup: the addresses of fixed region `n` and what it gives them. */
  lemma LookupStep(l: Layout, plan: Plan, address: nat, n: nat, base: nat, power: nat, length: nat, a: Attributes)
    requires HasFixed(plan, l) && n <= 10
    requires FixedConfig(l, n) == Some(Config(Tiling.Block(base, power), a)) && length == Pow2(power)
    ensures PlanLookup(plan, address, n + 1) == if InBlock(address, base, length) then Some(a) else PlanLookup(plan, address, n)
  {
    hide Pow2, FixedConfig;
  }

  /** Priorities 0 to 10 resolve to the address-range map. */
  lemma FixedPlanLookup(l: Layout, plan: Plan, address: nat)
    requires address < 0x1_0000_0000 && HasFixed(plan, l)
    ensures PlanLookup(plan, address, 11) == Some(FixedMap(l, address))
  {
    hide PlanLookup, HasFixed, Pow2;
    BlockPowers();
    FixedLow(l, plan, address);
    LookupStep(l, plan, address, 6, 0x2000_0000, 19, 0x8_0000, WRITE_BACK);
    LookupStep(l, plan, address, 7, l.ocramCached, 20, 0x10_0000, WRITE_BACK);
    LookupStep(l, plan, address, 8, l.ocramUncached, 20, 0x10_0000, OCRAM_UNCACHED);
    if l.xip {
      LookupStep(l, plan, address, 9, 0x3000_0000, 25, 0x200_0000, WRITE_BACK_RO);
    } else {
      SkipUnused(l, plan, address);
    }
    LookupStep(l, plan, address, 10, 0x8000_0000, 25, 0x200_0000, WRITE_BACK);
  }

  lemma SkipUnused(l: Layout, plan: Plan, address: nat)
    requires HasFixed(plan, l) && !l.xip
    ensures PlanLookup(plan, address, 10) == PlanLookup(plan, address, 9)
  {
  }

  /** The same for regions 0 to 5. */
  lemma FixedLow(l: Layout, plan: Plan, address: nat)
    requires address < 0x1_0000_0000 && HasFixed(plan, l)
    ensures PlanLookup(plan, address, 6) ==
      Some(if InBlock(address, 0, 0x8_0000) then WRITE_BACK
           else if InBlock(address, 0x4000_0000, 0x210_0000) || InBlock(address, 0x6000_0000, 0x2000_0000)
                || InBlock(address, 0, 0x4000_0000) then DEVICE
           else NO_ACCESS)
  {
    hide PlanLookup, HasFixed, Pow2;
    BlockPowers();
    LookupStep(l, plan, address, 0, 0, 32, 0x1_0000_0000, NO_ACCESS);
    LookupStep(l, plan, address, 1, 0, 30, 0x4000_0000, DEVICE);
    LookupStep(l, plan, address, 2, 0x6000_0000, 29, 0x2000_0000, DEVICE);
    LookupStep(l, plan, address, 3, 0x4000_0000, 25, 0x200_0000, DEVICE);
    LookupStep(l, plan, address, 4, 0x4200_0000, 20, 0x10_0000, DEVICE);
    LookupStep(l, plan, address, 5, 0, 19, 0x8_0000, WRITE_BACK);
  }

  /** Above the fixed regions, the window blocks decide. */
  lemma {:induction false} WindowLookup(l: Layout, blocks: seq<Tiling.Block>, address: nat, k: nat)
    requires |blocks| <= 5 && k <= 5
    ensures (exists i :: 0 <= i < k && i < |blocks| && blocks[i].Contains(address)) ==>
              PlanLookup(BoardPlan(l, blocks), address, 11 + k) == Some(WINDOW)
    ensures (forall i :: 0 <= i < k && i < |blocks| ==> !blocks[i].Contains(address)) ==>
              PlanLookup(BoardPlan(l, blocks), address, 11 + k) == PlanLookup(BoardPlan(l, blocks), address, 11)
    decreases k
  {
    if k > 0 {
      var plan := BoardPlan(l, blocks);
      WindowLookup(l, blocks, address, k - 1);
      if k - 1 < |blocks| {
        assert plan[10 + k] == Some(Config(blocks[k - 1], WINDOW));
      } else {
        assert plan[10 + k] == None;
      }
    }
  }

  /** The final memory map: window attributes exactly on the window, the fixed map everywhere else. */
  lemma BoardPlanLookup(l: Layout, start: nat, size: nat, address: nat)
    requires address < 0x1_0000_0000 && |Tiling.Greedy(start, size)| <= 5
    ensures PlanLookup(BoardPlan(l, Tiling.Greedy(start, size)), address, 16) ==
      Some(if start <= address < start + size then WINDOW else FixedMap(l, address))
  {
    var g := Tiling.Greedy(start, size);
    WindowLookup(l, g, address, 5);
    FixedPlanLookup(l, BoardPlan(l, g), address);
    if start <= address < start + size {
      var i := Tiling.GreedyCovers(start, size, address);
    } else {
      forall i | 0 <= i < |g|
        ensures !g[i].Contains(address)
      {
        Tiling.GreedyInRange(start, size, i);
      }
    }
  }

  /** The address lies in one of the regions 7 to 10: the two OCRAM megabytes, XIP flash and SDRAM. */
  predicate InUpperRegion(l: Layout, address: nat) {
    || InBlock(address, l.ocramCached, 0x10_0000) || InBlock(address, l.ocramUncached, 0x10_0000)
    || (l.xip && 0x3000_0000 <= address < 0x3200_0000) || 0x8000_0000 <= address < 0x8200_0000
  }

  predicate InTcm(address: nat) { address < 0x8_0000 || 0x2000_0000 <= address < 0x2008_0000 }

  predicate InPeripherals(address: nat) {
    0x4000_0000 <= address < 0x4210_0000 || 0x6000_0000 <= address < 0x8000_0000
  }

  /** The fixed map by address range, with the register fields and what they mean. Access permission 3 is full access, 6 read
      only, 0 none; XN 1 forbids execution. The fields are XN, AP, TEX, S, C, B. */
  lemma FixedMapTypes(l: Layout, address: nat)
    requires address < 0x1_0000_0000
    ensures var a, u := FixedMap(l, address), InUpperRegion(l, address);
      && (0x8000_0000 <= address < 0x8200_0000 ==> a == Attributes(0, 3, 0, 0, 1, 1) && TypeOf(a) == NormalWriteBack)
      && (l.xip && 0x3000_0000 <= address < 0x3200_0000 ==>
            a == Attributes(0, 6, 0, 0, 1, 1) && TypeOf(a) == NormalWriteBack)
      && (InBlock(address, l.ocramUncached, 0x10_0000) && !(0x8000_0000 <= address < 0x8200_0000)
            && !(l.xip && 0x3000_0000 <= address < 0x3200_0000) ==>
            a == Attributes(0, 3, 0, 0, 0, 0) && TypeOf(a) == StronglyOrdered)
      && (InBlock(address, l.ocramCached, 0x10_0000) && !InBlock(address, l.ocramUncached, 0x10_0000)
            && !(l.xip && 0x3000_0000 <= address < 0x3200_0000) ==>
            a == Attributes(0, 3, 0, 0, 1, 1) && TypeOf(a) == NormalWriteBack)
      && (!u && InTcm(address) ==> a == Attributes(0, 3, 0, 0, 1, 1) && TypeOf(a) == NormalWriteBack)
      && (!u && InPeripherals(address) ==> a == Attributes(0, 3, 2, 0, 0, 0) && TypeOf(a) == DeviceNonShareable)
      && (!u && address < 0x4000_0000 && !InTcm(address) ==>
            a == Attributes(0, 3, 2, 0, 0, 0) && TypeOf(a) == DeviceNonShareable)
      && (!u && address >= 0x4000_0000 && !InPeripherals(address) ==> a == Attributes(1, 0, 0, 0, 0, 0))
  {
  }

  /** A register file that implements the plan gives every address its mapped attributes: on the window Normal
      non-cacheable with full access, executable and not shareable; elsewhere the fixed map. The second OCRAM megabyte,
      outside the window and outside the regions above 8, is Strongly Ordered. */
  lemma FinalMap(file: seq<Region>, l: Layout, start: nat, size: nat, address: nat)
    requires address < 0x1_0000_0000 && |Tiling.Greedy(start, size)| <= 5
    requires Implements(file, BoardPlan(l, Tiling.Greedy(start, size)))
    ensures var r := Lookup(file, address, REGIONS);
      && r == Some(if start <= address < start + size then WINDOW else FixedMap(l, address))
      && (start <= address < start + size ==>
            r == Some(Attributes(0, 3, 1, 0, 0, 0)) && TypeOf(r.value) == NormalNonCacheable)
      && (!(start <= address < start + size) && InBlock(address, l.ocramUncached, 0x10_0000)
          && !InBlock(address, 0x8000_0000, 0x200_0000) && !(l.xip && InBlock(address, 0x3000_0000, 0x200_0000))
          ==> TypeOf(r.value) == StronglyOrdered)
  {
    hide Lookup, Implements;
    LookupFollowsPlan(file, BoardPlan(l, Tiling.Greedy(start, size)), address, REGIONS);
    BoardPlanLookup(l, start, size, address);
  }
}
