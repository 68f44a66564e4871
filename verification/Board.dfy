/** The memory protection and cache sequences of board.c (the Cortex-M7 variant). */
module Board {
  import opened Bits
  import opened Mpu
  import opened MemoryMap
  import Tiling
  import opened Trace
  import Cache
  import Coherence
  import Scb

  const MAX_MPU_REGIONS: nat := 15

  /** The two register writes for each block of a window, starting at region `first`. */
  function ConfigureAll(s: State, first: nat, blocks: seq<Tiling.Block>): (t: State)
    requires s.Valid() && Tiling.AllAtLeast(blocks, 5)
    ensures t.Valid()
    decreases |blocks|
  {
    if blocks == [] then s
    else
      var n := |blocks| - 1;
      Configure(ConfigureAll(s, first, blocks[..n]), first + n, Config(blocks[n], WINDOW))
  }

  /** The two writes of one region. */
  function RegionWrites(number: nat, c: Config): seq<Write>
    requires c.block.power > 0
  {
    [MpuBase(EncodeRbar(number, c.block.base)), MpuAttributes(EncodeRasr(c.attributes, 0, c.block.power - 1))]
  }

  /** The writes for each block of a window, starting at region `first`. */
  function WindowWrites(first: nat, blocks: seq<Tiling.Block>): seq<Write>
    requires Tiling.AllAtLeast(blocks, 5)
    decreases |blocks|
  {
    if blocks == [] then []
    else
      var n := |blocks| - 1;
      WindowWrites(first, blocks[..n]) + RegionWrites(first + n, Config(blocks[n], WINDOW))
  }

  /** The register file in which consecutive regions from `first` hold the blocks of a window. */
  function WindowFile(file: seq<Region>, first: nat, blocks: seq<Tiling.Block>): seq<Region>
    requires first + |blocks| <= |file| && Tiling.AllAtLeast(blocks, 5)
  {
    file[..first] + seq(|blocks|, i requires 0 <= i < |blocks| => Programmed(first + i, Config(blocks[i], WINDOW)))
      + file[first + |blocks|..]
  }

  ghost predicate Programmable(blocks: seq<Tiling.Block>) {
    Tiling.AllAtLeast(blocks, 5) && forall i :: 0 <= i < |blocks| ==> Config(blocks[i], WINDOW).Valid()
  }

  lemma {:induction false} ConfigureAllFile(s: State, first: nat, blocks: seq<Tiling.Block>)
    requires s.Valid() && Programmable(blocks) && first + |blocks| <= REGIONS
    ensures ConfigureAll(s, first, blocks).file == WindowFile(s.file, first, blocks)
    decreases |blocks|
  {
    hide Programmed, Configure;
    if blocks != [] {
      var n := |blocks| - 1;
      assert forall i :: 0 <= i < n ==> blocks[..n][i] == blocks[i];
      ConfigureAllFile(s, first, blocks[..n]);
      ConfigureSetsRegion(ConfigureAll(s, first, blocks[..n]), first + n, Config(blocks[n], WINDOW));
    }
  }

  /** When BOARD_ConfigMPUNonCached returns: the window is empty, or start and size are multiples of 32
      and the maximal aligned blocks fit the regions that are left. */
  ghost predicate Fits(start: nat, size: nat, first: nat)
    requires first <= MAX_MPU_REGIONS
  {
    size == 0 ||
    (start % 32 == 0 && size % 32 == 0 && |Tiling.MaximalBlocks(start, size)| <= MAX_MPU_REGIONS - first)
  }

  lemma FitsByTiling(start: nat, size: nat, first: nat)
    requires first <= MAX_MPU_REGIONS
    ensures Fits(start, size, first) <==>
      Tiling.AllAtLeast(Tiling.Greedy(start, size), 5) && |Tiling.Greedy(start, size)| <= MAX_MPU_REGIONS - first
  {
    Tiling.GreedyCount(start, size);
    Powers();
    AsDivMod(start, 5, 32);
    AsDivMod(size, 5, 32);
    if size > 0 && start % 32 == 0 && size % 32 == 0 {
      Tiling.AlignedRangeGivesLargeBlocks(start, size, 5);
    }
    if size > 0 && Tiling.AllAtLeast(Tiling.Greedy(start, size), 5) {
      Tiling.LargeBlocksGiveAlignedRange(start, size, 5);
    }
  }

  /** The window is exactly the union of at most `budget` whole regions of at least 32 bytes, overlapping or not. Whole
      means that no subregion is disabled; the module Subregions compares with regions that have some disabled. */
  ghost predicate Coverable(start: nat, size: nat, budget: nat) {
    exists cover: seq<Tiling.Block> :: Covers(cover, start, size, budget)
  }

  ghost predicate Covers(cover: seq<Tiling.Block>, start: nat, size: nat, budget: nat) {
    |cover| <= budget && Tiling.AllAtLeast(cover, 5) && Tiling.IsCover(cover, start, size)
  }

  /** Among whole regions joined by union the greedy choice never gives up early: it succeeds exactly when any choice of
      them would. */
  lemma FitsIffCoverable(start: nat, size: nat, first: nat)
    requires first <= MAX_MPU_REGIONS
    ensures Fits(start, size, first) <==> Coverable(start, size, MAX_MPU_REGIONS - first)
  {
    hide Fits;
    var budget := MAX_MPU_REGIONS - first;
    FitsByTiling(start, size, first);
    if Fits(start, size, first) {
      Tiling.GreedyIsCover(start, size);
      assert Covers(Tiling.Greedy(start, size), start, size, budget);
    }
    if Coverable(start, size, budget) {
      var cover :| Covers(cover, start, size, budget);
      Tiling.GreedyIsMinimal(cover, start, size);
      if size > 0 {
        CoverEndsAligned(cover, start, size, 5);
        Tiling.AlignedRangeGivesLargeBlocks(start, size, 5);
      }
    }
  }

  lemma BlockEnds(b: Tiling.Block, n: nat)
    requires b.Aligned() && b.power >= n
    ensures Low(b.base, n) == 0 && Low(b.End(), n) == 0
  {
    LowZeroNext(b.base, n, b.power);
  }

  /** A range covered by blocks of at least `2^n` bytes starts and ends on multiples of `2^n`. */
  lemma CoverEndsAligned(cover: seq<Tiling.Block>, start: nat, size: nat, n: nat)
    requires size > 0 && Tiling.AllAtLeast(cover, n) && Tiling.IsCover(cover, start, size)
    ensures Low(start, n) == 0 && Low(size, n) == 0
  {
    hide Low, Pow2;
    assert Tiling.Covered(cover, start) && Tiling.Covered(cover, start + size - 1);
    var i :| 0 <= i < |cover| && cover[i].Contains(start);
    var j :| 0 <= j < |cover| && cover[j].Contains(start + size - 1);
    BlockEnds(cover[i], n);
    BlockEnds(cover[j], n);
    assert cover[i].base == start && cover[j].End() == start + size;
    LowZeroDifference(size, start, n);
  }

  /** The two inner loops: the largest power of two that fits the size, then the largest that is aligned. */
  method FindPower(address: nat, size: nat) returns (power: nat)
    requires 0 < size < 0x8000_0000
    ensures power == Tiling.BlockPower(address, size)
  {
    power := 0;
    while size >= Pow2(power + 1)
      invariant Pow2(power) <= size && Tiling.GrowPower(size, power) == Tiling.GrowPower(size, 0)
      decreases size - Pow2(power)
    {
      power := power + 1;
    }
    while Low(address, power) != 0
      invariant Tiling.ShrinkPower(address, power) == Tiling.BlockPower(address, size)
      decreases power
    {
      power := power - 1;
    }
  }

  /** After `n` regions the code stands at `address` with `left` bytes to go, in step with the tiling. */
  ghost predicate Carved(start: nat, size: nat, address: nat, left: nat, n: nat) {
    var g := Tiling.Greedy(start, size);
    && n <= |g|
    && Tiling.AllAtLeast(g[..n], 5)
    && (if left == 0 then n == |g| else address + left == start + size && g[n..] == Tiling.Greedy(address, left))
  }

  lemma CarveStep(start: nat, size: nat, address: nat, left: nat, n: nat)
    requires Carved(start, size, address, left, n) && left > 0 && start + size <= 0x1_0000_0000
    ensures var g, p := Tiling.Greedy(start, size), Tiling.BlockPower(address, left);
      && n < |g| && g[n] == Tiling.Block(address, p)
      && (p >= 5 ==> Carved(start, size, (address + Pow2(p)) % 0x1_0000_0000, left - Pow2(p), n + 1))
  {
    hide Tiling.BlockPower, Tiling.Greedy, Low, Pow2;
    Tiling.GreedyUnfold(address, left);
    if left == Pow2(Tiling.BlockPower(address, left)) { Tiling.GreedyOfNothing(address + left); }
    var g, p := Tiling.Greedy(start, size), Tiling.BlockPower(address, left);
    var rest := Tiling.Greedy(address + Pow2(p), left - Pow2(p));
    assert g[n..] == [Tiling.Block(address, p)] + rest;
    assert g[n] == g[n..][0];
    assert g[n + 1..] == g[n..][1..] == rest;
    if p >= 5 {
      assert Tiling.AllAtLeast(g[..n + 1], 5) by {
        assert forall i :: 0 <= i < n ==> g[..n + 1][i] == g[..n][i];
      }
      if left > Pow2(p) {
        assert address + Pow2(p) < 0x1_0000_0000;
      }
    }
  }

  /** Where the loop stops decides between success and the endless loop. */
  lemma CarveEnd(start: nat, size: nat, address: nat, left: nat, n: nat, available: nat)
    requires Carved(start, size, address, left, n) && n <= available
    requires left > 0 ==> n == available || Tiling.BlockPower(address, left) < 5
    ensures var g := Tiling.Greedy(start, size);
      left == 0 <==> Tiling.AllAtLeast(g, 5) && |g| <= available
    ensures left == 0 ==> Tiling.Greedy(start, size)[..n] == Tiling.Greedy(start, size)
  {
    hide Tiling.BlockPower, Tiling.Greedy, Low, Pow2;
    var g := Tiling.Greedy(start, size);
    if left == 0 {
      assert g[..n] == g;
    } else {
      Tiling.GreedyUnfold(address, left);
      assert g[n] == g[n..][0];
    }
  }

  lemma ConfigureSnoc(s: State, first: nat, g: seq<Tiling.Block>, n: nat)
    requires s.Valid() && n < |g| && Tiling.AllAtLeast(g[..n + 1], 5)
    ensures Tiling.AllAtLeast(g[..n], 5) && g[n].power >= 5
    ensures ConfigureAll(s, first, g[..n + 1]) == Configure(ConfigureAll(s, first, g[..n]), first + n, Config(g[n], WINDOW))
    ensures WindowWrites(first, g[..n + 1]) == WindowWrites(first, g[..n]) + RegionWrites(first + n, Config(g[n], WINDOW))
  {
    hide Configure, RegionWrites;
    assert g[..n + 1][..n] == g[..n];
    assert g[..n + 1][n] == g[n];
    assert forall i :: 0 <= i < n ==> g[..n][i] == g[..n + 1][i];
  }

  /** The pair of a window region: full access, Normal non-cacheable, the size code in bits 5 to 1, enabled. */
  lemma WindowPair(number: nat, b: Tiling.Block)
    requires number < REGIONS && Config(b, WINDOW).Valid()
    ensures Programmed(number, Config(b, WINDOW)) == Region(b.base, 0x308_0001 + 2 * (b.power - 1))
  {
    hide EncodeRbar, EncodeRasr, Low, Shl, Shr, Pow2;
    BaseInRange(b);
    RbarRoundTrip(number, b.base);
    LowZeroNext(b.base, 5, b.power);
    Powers();
    AsDivMod(b.base, 5, 32);
    RasrValue(WINDOW, 0, b.power - 1);
  }

  lemma WindowFileAt(file: seq<Region>, first: nat, blocks: seq<Tiling.Block>)
    requires |file| == REGIONS && Programmable(blocks) && first + |blocks| <= REGIONS
    ensures var f := WindowFile(file, first, blocks);
      && |f| == REGIONS
      && (forall i :: 0 <= i < |blocks| ==> f[first + i] == Region(blocks[i].base, 0x308_0001 + 2 * (blocks[i].power - 1)))
      && (forall n :: 0 <= n < REGIONS && !(first <= n < first + |blocks|) ==> f[n] == file[n])
  {
    hide Programmed;
    forall i | 0 <= i < |blocks|
      ensures Programmed(first + i, Config(blocks[i], WINDOW)) ==
        Region(blocks[i].base, 0x308_0001 + 2 * (blocks[i].power - 1))
    {
      WindowPair(first + i, blocks[i]);
    }
  }

  /** Programs the non-cacheable window from region `first` on. `stuck` stands for the endless loop that the
      function enters when part of the window could not be covered. */
  method ConfigMPUNonCached(mpu: Peripheral, start: nat, first: nat, size: nat) returns (stuck: bool)
    requires mpu.Abs().Valid() && first <= 15
    requires start + size <= 0x1_0000_0000 && size < 0x8000_0000
    modifies mpu, mpu.trace
    ensures mpu.Abs().Valid() && mpu.ctrl == old(mpu.ctrl)
    ensures stuck <==> !Coverable(start, size, 15 - first)
    ensures !stuck ==> Programmable(Tiling.Greedy(start, size)) && first + |Tiling.Greedy(start, size)| <= 15
    ensures !stuck ==> forall i :: 0 <= i < |Tiling.Greedy(start, size)| ==>
      var b := Tiling.Greedy(start, size)[i];
      mpu.file[first + i] == Region(b.base, 0x308_0001 + 2 * (b.power - 1))
    ensures !stuck ==> forall n :: 0 <= n < 16 && !(first <= n < first + |Tiling.Greedy(start, size)|) ==>
      mpu.file[n] == old(mpu.file)[n]
    ensures !stuck ==> mpu.file == WindowFile(old(mpu.file), first, Tiling.Greedy(start, size))
    ensures !stuck ==> mpu.trace.writes == old(mpu.trace.writes) + WindowWrites(first, Tiling.Greedy(start, size))
  {
    hide Programmed, Tiling.BlockPower, Tiling.Greedy, ConfigureAll, Carved, Fits, Coverable, Programmable, WindowFile;
    hide EncodeRbar, EncodeRasr, WriteRbar, WriteRasr, Pow2, WindowWrites;
    ghost var g, s0, log := Tiling.Greedy(start, size), mpu.Abs(), mpu.trace.writes;
    CarveStart(start, size, s0, first, log);
    var numberOfRegions := 0;
    var regionAddress: nat := start;
    var availableRegions := MAX_MPU_REGIONS - first;
    var left: nat := size;
    while numberOfRegions < availableRegions && left != 0
      invariant numberOfRegions <= availableRegions && mpu.Abs().Valid()
      invariant Carved(start, size, regionAddress, left, numberOfRegions)
      invariant numberOfRegions <= |g| && Tiling.AllAtLeast(g[..numberOfRegions], 5)
      invariant mpu.Abs() == ConfigureAll(s0, first, g[..numberOfRegions])
      invariant mpu.trace.writes == log + WindowWrites(first, g[..numberOfRegions])
      decreases left
    {
      var power := FindPower(regionAddress, left);
      CarveStep(start, size, regionAddress, left, numberOfRegions);
      if power < 5 {
        break;
      }
      var region := first + numberOfRegions;
      CarvedFacts(start, size, (regionAddress + Pow2(power)) % 0x1_0000_0000, left - Pow2(power), numberOfRegions + 1);
      ConfigureSnoc(s0, first, g, numberOfRegions);
      TwoMore(log + WindowWrites(first, g[..numberOfRegions]), region, Config(g[numberOfRegions], WINDOW));
      mpu.SetRbar(EncodeRbar(region, regionAddress));
      mpu.SetRasr(EncodeRasr(WINDOW, 0, power - 1));
      regionAddress := (regionAddress + Pow2(power)) % 0x1_0000_0000;
      left := left - Pow2(power);
      numberOfRegions := numberOfRegions + 1;
    }
    stuck := left != 0;
    CarveEnd(start, size, regionAddress, left, numberOfRegions, availableRegions);
    FitsByTiling(start, size, first);
    FitsIffCoverable(start, size, first);
    ConfigureAllKeepsControl(s0, first, g[..numberOfRegions]);
    if !stuck {
      GreedyProgrammable(start, size);
      ConfigureAllFile(s0, first, g);
      WindowFileAt(s0.file, first, g);
    }
  }

  lemma TwoMore(log: seq<Write>, number: nat, c: Config)
    requires c.block.power > 0
    ensures log + [MpuBase(EncodeRbar(number, c.block.base))] +
      [MpuAttributes(EncodeRasr(c.attributes, 0, c.block.power - 1))] == log + RegionWrites(number, c)
  {
    hide EncodeRbar, EncodeRasr;
  }

  lemma CarveStart(start: nat, size: nat, s: State, first: nat, log: seq<Write>)
    requires s.Valid()
    ensures Carved(start, size, start, size, 0) && Tiling.AllAtLeast(Tiling.Greedy(start, size)[..0], 5)
    ensures ConfigureAll(s, first, Tiling.Greedy(start, size)[..0]) == s
    ensures log == log + WindowWrites(first, Tiling.Greedy(start, size)[..0])
  {
  }

  lemma CarvedFacts(start: nat, size: nat, address: nat, left: nat, n: nat)
    requires Carved(start, size, address, left, n)
    ensures n <= |Tiling.Greedy(start, size)| && Tiling.AllAtLeast(Tiling.Greedy(start, size)[..n], 5)
  {
  }

  lemma {:induction false} ConfigureAllKeepsControl(s: State, first: nat, blocks: seq<Tiling.Block>)
    requires s.Valid() && Tiling.AllAtLeast(blocks, 5)
    ensures ConfigureAll(s, first, blocks).ctrl == s.ctrl
    decreases |blocks|
  {
    if blocks != [] {
      ConfigureAllKeepsControl(s, first, blocks[..|blocks| - 1]);
    }
  }

  lemma GreedyProgrammable(start: nat, size: nat)
    requires Tiling.AllAtLeast(Tiling.Greedy(start, size), 5) && start + size <= 0x1_0000_0000 && size < 0x8000_0000
    ensures Programmable(Tiling.Greedy(start, size))
  {
    forall i | 0 <= i < |Tiling.Greedy(start, size)|
      ensures Config(Tiling.Greedy(start, size)[i], WINDOW).Valid()
    {
      Tiling.GreedyInRange(start, size, i);
      Pow2Of32();
      if Tiling.Greedy(start, size)[i].power > 32 { Pow2Monotone(32, Tiling.Greedy(start, size)[i].power); }
    }
  }

  // ---------- BOARD_ConfigMPU ----------

  const MPU_CTRL_PRIVDEFENA: nat := 4

  /** Region `i` of the file holds fixed configuration `i`. */
  ghost predicate HoldsFixed(file: seq<Region>, l: Layout, i: nat)
    requires i <= 10
  {
    && FixedConfig(l, i).Some? && FixedConfig(l, i).value.Valid()
    && i < |file| && file[i] == Programmed(i, FixedConfig(l, i).value)
  }

  /** The writes of the first `n` of regions 0 to 10. */
  function FixedWrites(l: Layout, n: nat): seq<Write>
    requires n <= 11
  {
    if n == 0 then []
    else if FixedConfig(l, n - 1).None? then FixedWrites(l, n - 1)
    else FixedWrites(l, n - 1) + RegionWrites(n - 1, FixedConfig(l, n - 1).value)
  }

  /** The first `n` of regions 0 to 10 have been set, from the state `before` with log `log` to file `file` and log
      `writes`. */
  ghost predicate FixedUpTo(before: seq<Region>, log: seq<Write>, file: seq<Region>, writes: seq<Write>, l: Layout, n: nat)
    requires n <= 11
  {
    && |file| == |before| == REGIONS
    && (forall i :: 0 <= i < n && (i != 9 || l.xip) ==> HoldsFixed(file, l, i))
    && (n <= 9 || !l.xip ==> file[9] == before[9])
    && file[11..] == before[11..]
    && writes == log + FixedWrites(l, n)
  }

  lemma FixedNext(before: seq<Region>, log: seq<Write>, f: seq<Region>, w: seq<Write>, l: Layout, n: nat)
    requires n <= 10 && l.Valid() && FixedConfig(l, n).Some? && FixedUpTo(before, log, f, w, l, n)
    ensures |f| == REGIONS && FixedConfig(l, n).value.Valid()
    ensures FixedUpTo(before, log, f[n := Programmed(n, FixedConfig(l, n).value)],
                      w + RegionWrites(n, FixedConfig(l, n).value), l, n + 1)
  {
    hide Programmed, RegionWrites, Low, Pow2;
    FixedConfigValid(l, n);
    var file := f[n := Programmed(n, FixedConfig(l, n).value)];
    forall i | 0 <= i < n + 1 && (i != 9 || l.xip)
      ensures HoldsFixed(file, l, i)
    {
      if i < n { assert HoldsFixed(f, l, i); }
    }
  }

  /** One fixed region, written when all before it have been: RBAR with the region number and base, RASR with the attributes
      and the size code. */
  method SetFixedRegion(mpu: Peripheral, number: nat, base: nat, attributes: Attributes, size: nat,
                        ghost before: seq<Region>, ghost log: seq<Write>, ghost l: Layout)
    requires mpu.Abs().Valid() && l.Valid() && number <= 10
    requires FixedConfig(l, number) == Some(Config(Tiling.Block(base, size + 1), attributes))
    requires FixedUpTo(before, log, mpu.file, mpu.trace.writes, l, number)
    modifies mpu, mpu.trace
    ensures mpu.Abs().Valid() && mpu.ctrl == old(mpu.ctrl)
    ensures FixedUpTo(before, log, mpu.file, mpu.trace.writes, l, number + 1)
  {
    hide EncodeRbar, EncodeRasr, WriteRbar, WriteRasr, Programmed, FixedUpTo, RegionWrites, Layout.Valid;
    FixedNext(before, log, mpu.file, mpu.trace.writes, l, number);
    ConfigureSetsRegion(mpu.Abs(), number, Config(Tiling.Block(base, size + 1), attributes));
    TwoMore(mpu.trace.writes, number, Config(Tiling.Block(base, size + 1), attributes));
    mpu.SetRbar(EncodeRbar(number, base));
    mpu.SetRasr(EncodeRasr(attributes, 0, size));
  }

  /** Regions 0 to 4: no access by default, and the peripherals. */
  method SetDeviceRegions(mpu: Peripheral, ghost before: seq<Region>, ghost log: seq<Write>, l: Layout)
    requires mpu.Abs().Valid() && l.Valid() && FixedUpTo(before, log, mpu.file, mpu.trace.writes, l, 0)
    modifies mpu, mpu.trace
    ensures mpu.Abs().Valid() && mpu.ctrl == old(mpu.ctrl)
    ensures FixedUpTo(before, log, mpu.file, mpu.trace.writes, l, 5)
  {
    hide FixedUpTo, Layout.Valid;
    SetFixedRegion(mpu, 0, 0, NO_ACCESS, 31, before, log, l);
    SetFixedRegion(mpu, 1, 0, DEVICE, 29, before, log, l);
    SetFixedRegion(mpu, 2, 0x6000_0000, DEVICE, 28, before, log, l);
    SetFixedRegion(mpu, 3, 0x4000_0000, DEVICE, 24, before, log, l);
    SetFixedRegion(mpu, 4, 0x4200_0000, DEVICE, 19, before, log, l);
  }

  /** Regions 5 to 10: the memories; region 9 only when the code executes from external flash. */
  method SetMemoryRegions(mpu: Peripheral, ghost before: seq<Region>, ghost log: seq<Write>, l: Layout)
    requires mpu.Abs().Valid() && l.Valid() && FixedUpTo(before, log, mpu.file, mpu.trace.writes, l, 5)
    modifies mpu, mpu.trace
    ensures mpu.Abs().Valid() && mpu.ctrl == old(mpu.ctrl)
    ensures FixedUpTo(before, log, mpu.file, mpu.trace.writes, l, 11)
  {
    hide FixedUpTo, Layout.Valid;
    SetFixedRegion(mpu, 5, 0, WRITE_BACK, 18, before, log, l);
    SetFixedRegion(mpu, 6, 0x2000_0000, WRITE_BACK, 18, before, log, l);
    SetFixedRegion(mpu, 7, l.ocramCached, WRITE_BACK, 19, before, log, l);
    SetFixedRegion(mpu, 8, l.ocramUncached, OCRAM_UNCACHED, 19, before, log, l);
    if l.xip {
      SetFixedRegion(mpu, 9, 0x3000_0000, WRITE_BACK_RO, 24, before, log, l);
    } else {
      SkipRegion9(before, log, mpu.file, mpu.trace.writes, l);
    }
    SetFixedRegion(mpu, 10, 0x8000_0000, WRITE_BACK, 24, before, log, l);
  }

  /** Regions 0 to 10, in the source's order. */
  method SetFixedRegions(mpu: Peripheral, l: Layout)
    requires mpu.Abs().Valid() && l.Valid()
    modifies mpu, mpu.trace
    ensures mpu.Abs().Valid() && mpu.ctrl == old(mpu.ctrl)
    ensures forall i :: 0 <= i <= 10 && (i != 9 || l.xip) ==> HoldsFixed(mpu.file, l, i)
    ensures !l.xip ==> mpu.file[9] == old(mpu.file)[9]
    ensures mpu.file[11..] == old(mpu.file)[11..]
    ensures mpu.trace.writes == old(mpu.trace.writes) + FixedWrites(l, 11)
  {
    hide HoldsFixed, FixedUpTo, FixedWrites, Layout.Valid;
    ghost var before, log := mpu.file, mpu.trace.writes;
    NoneFixed(before, log, l);
    SetDeviceRegions(mpu, before, log, l);
    SetMemoryRegions(mpu, before, log, l);
    AllFixed(before, log, mpu.file, mpu.trace.writes, l);
  }

  lemma AllFixed(before: seq<Region>, log: seq<Write>, file: seq<Region>, writes: seq<Write>, l: Layout)
    requires FixedUpTo(before, log, file, writes, l, 11)
    ensures |file| == |before| == REGIONS && file[11..] == before[11..]
    ensures forall i :: 0 <= i <= 10 && (i != 9 || l.xip) ==> HoldsFixed(file, l, i)
    ensures !l.xip ==> file[9] == before[9]
    ensures writes == log + FixedWrites(l, 11)
  {
    hide HoldsFixed, FixedWrites;
  }

  lemma NoneFixed(before: seq<Region>, log: seq<Write>, l: Layout)
    requires |before| == REGIONS
    ensures FixedUpTo(before, log, before, log, l, 0)
  {
  }

  lemma SkipRegion9(before: seq<Region>, log: seq<Write>, file: seq<Region>, writes: seq<Write>, l: Layout)
    requires !l.xip && FixedUpTo(before, log, file, writes, l, 9)
    ensures FixedUpTo(before, log, file, writes, l, 10)
  {
    hide HoldsFixed, FixedWrites;
    NothingForRegion9(l);
  }

  lemma NothingForRegion9(l: Layout)
    requires !l.xip
    ensures FixedWrites(l, 10) == FixedWrites(l, 9)
  {
    hide RegionWrites;
  }

  lemma FileImplementsPlan(file: seq<Region>, l: Layout, blocks: seq<Tiling.Block>)
    requires |file| == REGIONS && |blocks| <= 5 && Programmable(blocks)
    requires forall i :: 0 <= i <= 10 && (i != 9 || l.xip) ==> HoldsFixed(file, l, i)
    requires !l.xip ==> !Enabled(file[9])
    requires forall i :: 11 <= i < REGIONS ==> !Enabled(file[i])
    ensures Implements(WindowFile(file, 11, blocks), BoardPlan(l, blocks))
  {
    hide Programmed, Enabled;
    var f, plan := WindowFile(file, 11, blocks), BoardPlan(l, blocks);
    forall i | 0 <= i < REGIONS
      ensures if plan[i].Some? then plan[i].value.Valid() && f[i] == Programmed(i, plan[i].value) else !Enabled(f[i])
    {
      if i <= 10 && (i != 9 || l.xip) {
        assert HoldsFixed(file, l, i);
      } else if 11 <= i < 11 + |blocks| {
        assert plan[i] == Some(Config(blocks[i - 11], WINDOW));
      }
    }
  }

  /** The memory a program sees: through the cache when it is on. */
  ghost function Program(scb: Scb.ControlBlock, a: Cache.LineAddress): Cache.Data
    requires scb.Valid()
    reads scb
  {
    Coherence.ProcessorView(scb.cache, a)
  }

  lemma FinalMapEverywhere(file: seq<Region>, l: Layout, start: nat, size: nat)
    requires |Tiling.Greedy(start, size)| <= 5 && Implements(file, BoardPlan(l, Tiling.Greedy(start, size)))
    ensures forall address: nat :: address < 0x1_0000_0000 ==>
      Lookup(file, address, REGIONS) ==
      Some(if start <= address < start + size then WINDOW else FixedMap(l, address))
  {
    hide Lookup, FixedMap, Tiling.Greedy, Programmed;
    forall address: nat | address < 0x1_0000_0000
      ensures Lookup(file, address, REGIONS) ==
        Some(if start <= address < start + size then WINDOW else FixedMap(l, address))
    {
      FinalMap(file, l, start, size, address);
    }
  }

  lemma EnableBit()
    ensures Or(MPU_CTRL_PRIVDEFENA, 1) == 5
  {
    assert Or(4, 1) == 5;
  }

  /** All writes of BOARD_ConfigMPU, in order. The cache is switched off first, if it was on, and on again last; the MPU
      is off from before the first region register to after the last one. */
  ghost function ConfigWrites(s: Cache.State, control: nat, l: Layout, blocks: seq<Tiling.Block>): seq<Write>
    requires s.Shaped() && Tiling.AllAtLeast(blocks, 5)
  {
    (if s.on then [CacheSelect(0), CacheEnable(false)] + Scb.SweepWrites(s, Cache.CleanInvalidate) else []) +
    ([MpuControl(control - control % 2)] + FixedWrites(l, 11) + WindowWrites(11, blocks) + [MpuControl(5)]) +
    ([CacheSelect(0)] + Scb.SweepWrites(s, Cache.Invalidate) + [CacheEnable(true)])
  }

  /** BOARD_ConfigMPU. `start` and `size` are the non-cacheable window from the linker script. */
  method ConfigMPU(mpu: Peripheral, scb: Scb.ControlBlock, l: Layout, start: nat, size: nat) returns (stuck: bool)
    requires mpu.Abs().Valid() && scb.Valid() && l.Valid() && mpu.trace == scb.trace
    requires start + size <= 0x1_0000_0000 && size < 0x8000_0000
    requires scb.cache.on ==> scb.cache.Consistent()
    requires !l.xip ==> !Enabled(mpu.file[9])
    requires forall i :: 11 <= i < REGIONS ==> !Enabled(mpu.file[i])
    modifies mpu, scb, mpu.trace
    ensures mpu.Abs().Valid() && scb.Valid()
    ensures stuck <==> !Coverable(start, size, 4)
    ensures stuck ==> mpu.ctrl % 2 == 0 && !scb.cache.on
    ensures !stuck ==> forall address: nat :: address < 0x1_0000_0000 ==>
      Lookup(mpu.file, address, REGIONS) ==
      Some(if start <= address < start + size then WINDOW else FixedMap(l, address))
    ensures !stuck ==> mpu.ctrl == 5
    ensures !stuck ==> scb.cache.on && scb.cache.Coherent()
    ensures !stuck ==> forall a: Cache.LineAddress :: Program(scb, a) == old(Program(scb, a))
    ensures !stuck ==> Tiling.AllAtLeast(Tiling.Greedy(start, size), 5)
    ensures !stuck ==>
      mpu.trace.writes ==
      old(mpu.trace.writes) + ConfigWrites(old(scb.cache), old(mpu.ctrl), l, Tiling.Greedy(start, size))
  {
    hide Lookup, FixedMap, WindowFile, HoldsFixed, Enabled, Tiling.Greedy, Or, Implements, BoardPlan, Coverable;
    hide Scb.CcsidrSets, Scb.CcsidrWays, Coherence.Enabled, Coherence.Disabled, Cache.View, Cache.Sweep;
    hide FixedWrites, WindowWrites, Scb.SweepWrites, Tiling.AllAtLeast, ConfigWrites;
    ghost var log, s, control := mpu.trace.writes, scb.cache, mpu.ctrl;
    Coherence.GuardedRestart(scb.cache);
    if scb.cache.on {
      scb.DisableDCache();
    }
    Scb.SameSizeSameWrites(s, scb.cache, Cache.Invalidate);
    mpu.Disable();
    SetFixedRegions(mpu, l);
    assert forall i :: 11 <= i < REGIONS ==> mpu.file[i] == mpu.file[11..][i - 11];
    assert forall i :: 11 <= i < REGIONS ==> old(mpu.file)[i] == old(mpu.file)[11..][i - 11];
    ghost var file := mpu.file;
    stuck := ConfigMPUNonCached(mpu, start, 11, size);
    if !stuck {
      FileImplementsPlan(file, l, Tiling.Greedy(start, size));
      FinalMapEverywhere(mpu.file, l, start, size);
      EnableBit();
      JoinWrites(log, s, control, l, Tiling.Greedy(start, size));
      mpu.Enable(MPU_CTRL_PRIVDEFENA);
      scb.EnableDCache();
    }
  }

  lemma JoinWrites(log: seq<Write>, s: Cache.State, control: nat, l: Layout, blocks: seq<Tiling.Block>)
    requires s.Shaped() && Tiling.AllAtLeast(blocks, 5)
    ensures var off := if s.on
        then log + [CacheSelect(0), CacheEnable(false)] + Scb.SweepWrites(s, Cache.CleanInvalidate) else log;
      off + [MpuControl(control - control % 2)] + FixedWrites(l, 11) + WindowWrites(11, blocks) + [MpuControl(5)] +
        ([CacheSelect(0)] + Scb.SweepWrites(s, Cache.Invalidate) + [CacheEnable(true)]) ==
      log + ConfigWrites(s, control, l, blocks)
  {
    hide FixedWrites, WindowWrites, Scb.SweepWrites;
  }

  lemma RegionWritesSwitchNothing(l: Layout, blocks: seq<Tiling.Block>)
    requires Tiling.AllAtLeast(blocks, 5)
    ensures SwitchNothing(FixedWrites(l, 11) + WindowWrites(11, blocks))
  {
    hide FixedWrites, WindowWrites;
    FixedSwitchNothing(l, 11);
    WindowSwitchNothing(11, blocks);
  }

  lemma {:induction false} FixedSwitchNothing(l: Layout, n: nat)
    requires n <= 11
    ensures SwitchNothing(FixedWrites(l, n))
  {
    hide EncodeRbar, EncodeRasr;
    if n > 0 {
      FixedSwitchNothing(l, n - 1);
    }
  }

  lemma {:induction false} WindowSwitchNothing(first: nat, blocks: seq<Tiling.Block>)
    requires Tiling.AllAtLeast(blocks, 5)
    ensures SwitchNothing(WindowWrites(first, blocks))
    decreases |blocks|
  {
    hide EncodeRbar, EncodeRasr;
    if blocks != [] {
      WindowSwitchNothing(first, blocks[..|blocks| - 1]);
    }
  }

  /** BOARD_ConfigMPU never writes a region register while the MPU or the data cache is on, never switches the cache on
      before the MPU, and leaves both on. */
  lemma ConfigGuarded(s: Cache.State, control: nat, l: Layout, blocks: seq<Tiling.Block>)
    requires s.Shaped() && Tiling.AllAtLeast(blocks, 5)
    ensures var ws := ConfigWrites(s, control, l, blocks);
      && Guarded(ws, control % 2 == 1, s.on)
      && MpuOn(ws, control % 2 == 1) && CacheOn(ws, s.on)
  {
    hide FixedWrites, WindowWrites, Scb.SweepWrites, MpuOn, CacheOn, Guarded, SwitchNothing, ConfigWrites;
    var off := if s.on then [CacheSelect(0), CacheEnable(false)] + Scb.SweepWrites(s, Cache.CleanInvalidate) else [];
    var middle := [MpuControl(control - control % 2)] + (FixedWrites(l, 11) + WindowWrites(11, blocks)) + [MpuControl(5)];
    var on := [CacheSelect(0)] + Scb.SweepWrites(s, Cache.Invalidate) + [CacheEnable(true)];
    var mpu := control % 2 == 1;
    ConfigParts(s, control, l, blocks);
    SwitchedOff(s, mpu);
    RegionWritesSwitchNothing(l, blocks);
    MpuAround(control - control % 2, FixedWrites(l, 11) + WindowWrites(11, blocks), 5, mpu);
    SwitchedBackOn(s);
    Joined(off, middle, mpu, s.on);
    Joined(off + middle, on, mpu, s.on);
  }

  lemma ConfigParts(s: Cache.State, control: nat, l: Layout, blocks: seq<Tiling.Block>)
    requires s.Shaped() && Tiling.AllAtLeast(blocks, 5)
    ensures ConfigWrites(s, control, l, blocks) ==
      (if s.on then [CacheSelect(0), CacheEnable(false)] + Scb.SweepWrites(s, Cache.CleanInvalidate) else []) +
      ([MpuControl(control - control % 2)] + (FixedWrites(l, 11) + WindowWrites(11, blocks)) + [MpuControl(5)]) +
      ([CacheSelect(0)] + Scb.SweepWrites(s, Cache.Invalidate) + [CacheEnable(true)])
  {
    hide FixedWrites, WindowWrites, Scb.SweepWrites;
    assert [MpuControl(control - control % 2)] + FixedWrites(l, 11) + WindowWrites(11, blocks) ==
      [MpuControl(control - control % 2)] + (FixedWrites(l, 11) + WindowWrites(11, blocks));
  }

  lemma SwitchedOff(s: Cache.State, mpu: bool)
    requires s.Shaped()
    ensures var ws := if s.on
        then [CacheSelect(0), CacheEnable(false)] + Scb.SweepWrites(s, Cache.CleanInvalidate) else [];
      Guarded(ws, mpu, s.on) && MpuOn(ws, mpu) == mpu && !CacheOn(ws, s.on)
  {
    hide Scb.SweepWrites;
    if s.on {
      SwitchAndSweep([CacheSelect(0), CacheEnable(false)], s, Cache.CleanInvalidate, mpu, true);
      assert [CacheSelect(0), CacheEnable(false)][..1] == [CacheSelect(0)];
    }
  }

  lemma SwitchedBackOn(s: Cache.State)
    requires s.Shaped()
    ensures var ws := [CacheSelect(0)] + Scb.SweepWrites(s, Cache.Invalidate) + [CacheEnable(true)];
      Guarded(ws, true, false) && MpuOn(ws, true) && CacheOn(ws, false)
  {
    hide Scb.SweepWrites, Guarded, MpuOn, CacheOn;
    SwitchAndSweep([CacheSelect(0)], s, Cache.Invalidate, true, false);
    OneWrite(CacheSelect(0), true);
    OneWrite(CacheSelect(0), false);
    OneWrite(CacheEnable(true), true);
    OneWrite(CacheEnable(true), false);
    LastGuarded();
    Joined([CacheSelect(0)] + Scb.SweepWrites(s, Cache.Invalidate), [CacheEnable(true)], true, false);
  }

  lemma LastGuarded()
    ensures Guarded([CacheEnable(true)], true, false)
  {
  }

  /** The register writes of a sweep switch nothing. */
  lemma SwitchAndSweep(ws: seq<Write>, s: Cache.State, e: Cache.Effect, mpu: bool, cache: bool)
    requires s.Shaped() && forall k :: 0 <= k < |ws| ==> !IsRegionWrite(ws[k]) && ws[k] != CacheEnable(true)
    ensures var all := ws + Scb.SweepWrites(s, e);
      Guarded(all, mpu, cache) && MpuOn(all, mpu) == MpuOn(ws, mpu) && CacheOn(all, cache) == CacheOn(ws, cache)
  {
    hide MpuOn, CacheOn, Guarded, Cache.SweepWords;
    var sweep := Scb.SweepWrites(s, e);
    HarmlessGuarded(ws, mpu, cache);
    HarmlessGuarded(sweep, MpuOn(ws, mpu), CacheOn(ws, cache));
    SwitchesStay(sweep, MpuOn(ws, mpu));
    SwitchesStay(sweep, CacheOn(ws, cache));
    Joined(ws, sweep, mpu, cache);
  }

  // ---------- BOARD_RelocateVectorTableToRam ----------

  const WORDS: nat := 8 * Cache.LINES
  const VECTORS: nat := 256

  /** Word `w` of a memory. */
  function Word(m: seq<Cache.Data>, w: nat): nat
    requires |m| == Cache.LINES && w < WORDS
  {
    m[w / 8][w % 8]
  }

  lemma StoreWordEffect(m: seq<Cache.Data>, a: nat, v: nat, w: nat)
    requires |m| == Cache.LINES && a < WORDS && w < WORDS
    ensures Word(m[a / 8 := m[a / 8][a % 8 := v]], w) == if w == a then v else Word(m, w)
  {
  }

  /** Word `w` of the memory after `n` words of a table at `table` have been copied to `ram`. */
  function Relocated(m: seq<Cache.Data>, table: nat, ram: nat, n: nat, w: nat): nat
    requires |m| == Cache.LINES && w < WORDS && table + n <= WORDS
  {
    if ram <= w < ram + n then Word(m, table + (w - ram)) else Word(m, w)
  }

  /** The stores that copy `n` words. */
  function CopyWrites(m: seq<Cache.Data>, table: nat, ram: nat, n: nat): (ws: seq<Write>)
    requires |m| == Cache.LINES && table + n <= WORDS
    ensures |ws| == n
  {
    seq(n, k requires 0 <= k < n => MemoryStore(ram + k, Word(m, table + k)))
  }

  /** Copies the vector table of 0x400 bytes to RAM with the caches off. The tables are given by word address. Interrupt
      masking, the instruction cache and the write of VTOR do not touch the data side. SCB_DisableDCache is called without
      the guard that BOARD_ConfigMPU has, so the copy starts from what that leaves in memory: the program's memory when
      the cache is on, or is off and the dirty lines it still holds are harmless, and otherwise memory overwritten by
      them. */
  method RelocateVectorTableToRam(scb: Scb.ControlBlock, table: nat, ram: nat, stackTop: nat)
    requires scb.Valid() && (scb.cache.on ==> scb.cache.Consistent())
    requires 4 * table + 0x400 <= 4 * WORDS && 4 * ram + 0x400 <= 4 * WORDS
    requires 4 * table + 0x400 <= 4 * ram || 4 * ram + 0x400 <= 4 * table
    modifies scb, scb.trace
    ensures scb.Valid() && scb.cache.Coherent() && scb.cache.on
    ensures forall w: nat :: w < WORDS ==>
      Word(Coherence.ProgramMemory(scb.cache), w) ==
      if w == ram then stackTop
      else old(Word(Coherence.Disabled(scb.cache).memory, if 4 * ram + 4 <= 4 * w < 4 * ram + 0x400 then table + w - ram else w))
    ensures old(scb.cache.on) || old(Coherence.Harmless(scb.cache)) ==>
      forall w: nat :: w < WORDS ==>
        Word(Coherence.ProgramMemory(scb.cache), w) ==
        if w == ram then stackTop
        else old(Word(Coherence.ProgramMemory(scb.cache), if 4 * ram + 4 <= 4 * w < 4 * ram + 0x400 then table + w - ram else w))
    ensures scb.trace.writes == old(scb.trace.writes) +
      ([CacheSelect(0), CacheEnable(false)] + Scb.SweepWrites(old(scb.cache), Cache.CleanInvalidate)) +
      (CopyWrites(old(Coherence.Disabled(scb.cache).memory), table, ram, 0x100) + [MemoryStore(ram, stackTop)]) +
      ([CacheSelect(0)] + Scb.SweepWrites(old(scb.cache), Cache.Invalidate) + [CacheEnable(true)])
  {
    hide Coherence.Enabled, Coherence.Disabled, Coherence.Stored, Coherence.ProgramMemory, Coherence.Harmless;
    hide Cache.View, Cache.Sweep, Relocated, Copied, Coherence.Refines, Scb.CcsidrSets, Scb.CcsidrWays, Word;
    hide CopyWrites, Scb.SweepWrites;
    ghost var before, s := Coherence.Disabled(scb.cache).memory, scb.cache;
    ghost var m := before;
    DisabledBefore(scb.cache);
    Coherence.DisabledRefines(scb.cache);
    scb.DisableDCache();
    ghost var log := scb.trace.writes;
    Refined(scb.cache, m);
    CopiedNone(before, table, ram);
    NothingStored(log, before, table, ram);
    var n := 0;
    while n < VECTORS
      invariant n <= VECTORS && scb.Valid() && Coherence.Refines(scb.cache, m) && !scb.cache.on && |m| == Cache.LINES
      invariant |scb.cache.sets| == |s.sets| && |scb.cache.sets[0]| == |s.sets[0]|
      invariant Copied(before, m, table, ram, n) && scb.trace.writes == log + CopyWrites(before, table, ram, n)
    {
      var v := scb.LoadWord(table + n);
      LoadedWord(scb.cache, m, table + n);
      CopyStep(before, m, table, ram, n);
      OneMoreStored(log, before, table, ram, n);
      Coherence.StoreRefines(scb.cache, m, (ram + n) / 8, (ram + n) % 8, v);
      OffStoreKeepsSets(scb.cache, (ram + n) / 8, (ram + n) % 8, v);
      scb.StoreWord(ram + n, v);
      m := m[(ram + n) / 8 := m[(ram + n) / 8][(ram + n) % 8 := v]];
      n := n + 1;
    }
    Coherence.StoreRefines(scb.cache, m, ram / 8, ram % 8, stackTop);
    OffStoreKeepsSets(scb.cache, ram / 8, ram % 8, stackTop);
    scb.StoreWord(ram, stackTop);
    ghost var final := m[ram / 8 := m[ram / 8][ram % 8 := stackTop]];
    SwitchedOn(scb.cache, final);
    Scb.SameSizeSameWrites(s, scb.cache, Cache.Invalidate);
    scb.EnableDCache();
    Refined(scb.cache, final);
    FinalWords(before, m, table, ram, stackTop);
  }

  lemma NothingStored(log: seq<Write>, m: seq<Cache.Data>, table: nat, ram: nat)
    requires |m| == Cache.LINES && table <= WORDS
    ensures log == log + CopyWrites(m, table, ram, 0)
  {
  }

  lemma OneMoreStored(log: seq<Write>, m: seq<Cache.Data>, table: nat, ram: nat, n: nat)
    requires |m| == Cache.LINES && table + n < WORDS
    ensures log + CopyWrites(m, table, ram, n + 1) ==
      log + CopyWrites(m, table, ram, n) + [MemoryStore(ram + n, Word(m, table + n))]
  {
    hide Word;
  }

  lemma OffStoreKeepsSets(s: Cache.State, a: Cache.LineAddress, k: nat, v: nat)
    requires s.Shaped() && !s.on && k < 8
    ensures Coherence.Stored(s, a, k, v).sets == s.sets && !Coherence.Stored(s, a, k, v).on
  {
  }

  /** What the unguarded SCB_DisableDCache leaves, in terms of the program's memory. */
  lemma DisabledBefore(s: Cache.State)
    requires Cache.Nameable(s) && (s.on ==> s.Consistent())
    ensures s.on || Coherence.Harmless(s) ==> Coherence.Disabled(s).memory == Coherence.ProgramMemory(s)
  {
    hide Coherence.Disabled, Coherence.Harmless;
    if s.on {
      Coherence.RefinesOwnMemory(s);
      Coherence.DisableRefines(s, Coherence.ProgramMemory(s));
    } else {
      Coherence.DisableFromOffPreserves(s);
      assert Coherence.ProgramMemory(s) == s.memory;
    }
  }

  lemma Refined(s: Cache.State, m: seq<Cache.Data>)
    requires Coherence.Refines(s, m)
    ensures s.Coherent() && |m| == Cache.LINES && Coherence.ProgramMemory(s) == m
  {
    hide Coherence.ProcessorView;
    Coherence.RefinedMemory(s, m);
  }

  lemma LoadedWord(s: Cache.State, m: seq<Cache.Data>, w: nat)
    requires Coherence.Refines(s, m) && w < WORDS
    ensures s.Shaped() && |m| == Cache.LINES && Coherence.ProcessorView(s, w / 8)[w % 8] == Word(m, w)
  {
  }

  lemma SwitchedOn(s: Cache.State, m: seq<Cache.Data>)
    requires Coherence.Refines(s, m) && !s.on
    ensures Cache.Nameable(s) && Coherence.Refines(Coherence.Enabled(s), m)
  {
    hide Coherence.Enabled;
    Coherence.OffMemory(s, m);
    Coherence.EnableRefines(s);
  }

  lemma FinalWords(before: seq<Cache.Data>, m: seq<Cache.Data>, table: nat, ram: nat, stackTop: nat)
    requires |before| == |m| == Cache.LINES && table + VECTORS <= WORDS && ram + VECTORS <= WORDS
    requires Copied(before, m, table, ram, VECTORS)
    ensures forall w: nat :: w < WORDS ==>
      Word(m[ram / 8 := m[ram / 8][ram % 8 := stackTop]], w) ==
      if w == ram then stackTop
      else Word(before, if 4 * ram + 4 <= 4 * w < 4 * ram + 0x400 then table + w - ram else w)
  {
    hide Word, Copied;
    forall w: nat | w < WORDS
      ensures Word(m[ram / 8 := m[ram / 8][ram % 8 := stackTop]], w) ==
        if w == ram then stackTop
        else Word(before, if 4 * ram + 4 <= 4 * w < 4 * ram + 0x400 then table + w - ram else w)
    {
      StoreWordEffect(m, ram, stackTop, w);
      CopiedAt(before, m, table, ram, w);
    }
  }

  /** The first `n` vectors have been copied and nothing else has changed. */
  ghost predicate Copied(before: seq<Cache.Data>, m: seq<Cache.Data>, table: nat, ram: nat, n: nat)
    requires |before| == |m| == Cache.LINES && table + n <= WORDS
  {
    forall w: nat :: w < WORDS ==> Word(m, w) == Relocated(before, table, ram, n, w)
  }

  lemma CopiedNone(before: seq<Cache.Data>, table: nat, ram: nat)
    requires |before| == Cache.LINES && table <= WORDS
    ensures Copied(before, before, table, ram, 0)
  {
  }

  lemma CopiedAt(before: seq<Cache.Data>, m: seq<Cache.Data>, table: nat, ram: nat, w: nat)
    requires |before| == |m| == Cache.LINES && table + VECTORS <= WORDS && w < WORDS
    requires Copied(before, m, table, ram, VECTORS)
    ensures Word(m, w) == Relocated(before, table, ram, VECTORS, w)
  {
  }

  lemma CopyStep(before: seq<Cache.Data>, m: seq<Cache.Data>, table: nat, ram: nat, n: nat)
    requires |before| == |m| == Cache.LINES && n < VECTORS
    requires table + VECTORS <= WORDS && ram + VECTORS <= WORDS
    requires table + VECTORS <= ram || ram + VECTORS <= table
    requires Copied(before, m, table, ram, n)
    ensures Word(m, table + n) == Word(before, table + n)
    ensures Copied(before, m[(ram + n) / 8 := m[(ram + n) / 8][(ram + n) % 8 := Word(m, table + n)]], table, ram, n + 1)
  {
    hide Word;
    assert Word(m, table + n) == Relocated(before, table, ram, n, table + n);
    var next := m[(ram + n) / 8 := m[(ram + n) / 8][(ram + n) % 8 := Word(m, table + n)]];
    forall w: nat | w < WORDS
      ensures Word(next, w) == Relocated(before, table, ram, n + 1, w)
    {
      StoreWordEffect(m, ram + n, Word(m, table + n), w);
      assert Word(m, w) == Relocated(before, table, ram, n, w);
    }
  }
}
