/** Regions with some of their eight subregions disabled, which BOARD_ConfigMPUNonCached does not use: what they match,
    and how many regions they could save. */
module Subregions {
  import opened Arithmetic
  import opened Bits
  import opened Mpu
  import opened MemoryMap
  import opened Tiling
  import Board

  /** An aligned block and the subregion disable field. */
  datatype Masked = Masked(block: Block, srd: nat) {
    predicate Valid() {
      block.Aligned() && 5 <= block.power <= 32 && block.End() <= 0x1_0000_0000 && srd < 0x100
    }

    /** The length of a subregion. */
    function Eighth(): nat
      requires block.power >= 8
    {
      Pow2(block.power - 3)
    }

    /** The addresses of the block whose subregion is enabled; blocks below 256 bytes have no subregions. */
    ghost predicate Covers(x: nat) {
      block.Contains(x) && (block.power >= 8 ==> Bit(srd, (x - block.base) / Eighth()) == 0)
    }
  }

  // ---------- what the hardware matches ----------

  lemma EighthPower(m: Masked)
    requires m.block.power >= 8
    ensures Pow2(m.block.power) == 8 * m.Eighth()
  {
    Pow2Add(3, m.block.power - 3);
    assert Pow2(3) == 8;
  }

  /** The three address bits that select the subregion give the eighth of the block. */
  lemma SubregionIndex(m: Masked, x: nat)
    requires m.Valid() && m.block.power >= 8 && m.block.Contains(x)
    ensures Low(Shr(x, m.block.power - 3), 3) == (x - m.block.base) / m.Eighth()
  {
    hide Low, Shr, Pow2;
    var p, u := m.block.power, m.Eighth();
    EighthPower(m);
    AsDivMod(m.block.base, p, 8 * u);
    var q, k := m.block.base / (8 * u), (x - m.block.base) / u;
    assert m.block.base == q * (8 * u);
    assert x - m.block.base == k * u + (x - m.block.base) % u;
    IndexBelowEight(x - m.block.base, u);
    assert x == (q * 8 + k) * u + (x - m.block.base) % u by { SumOfMultiples(q, k, u); }
    AsDivMod(x, p - 3, u);
    DivModUnique(x, u, q * 8 + k, (x - m.block.base) % u);
    assert Pow2(3) == 8 by { Powers(); }
    AsDivMod(q * 8 + k, 3, 8);
    DivModUnique(q * 8 + k, 8, q, k);
  }

  lemma SumOfMultiples(q: int, k: int, u: int)
    ensures (q * 8 + k) * u == q * (8 * u) + k * u
  {
  }

  lemma IndexBelowEight(d: int, u: int)
    requires 0 <= d < 8 * u
    ensures 0 <= d / u < 8
  {
    var k := d / u;
    assert d == u * k + d % u;
    if k >= 8 { Between(u, 8, k); }
    if k < 0 { Between(u, k, -1); }
  }

  /** The register pair of a masked block. */
  function Register(m: Masked): Region
    requires m.block.power > 0
  {
    Region(m.block.base, EncodeRasr(WINDOW, m.srd, m.block.power - 1))
  }

  /** The hardware matches exactly the addresses of the enabled subregions. */
  lemma MaskedMatches(m: Masked, x: nat)
    requires m.Valid()
    ensures Matches(Register(m), x) <==> m.Covers(x)
  {
    hide Pow2, Shr, Low, EncodeRasr;
    RasrReadBack(m.block.base, WINDOW, m.srd, m.block.power - 1);
    ShrEqual(m.block.base, x, m.block.power);
    if m.block.power >= 8 && m.block.Contains(x) { SubregionIndex(m, x); }
  }

  // ---------- covers by masked regions ----------

  /** The window is exactly the union of at most `budget` regions, each with any of its subregions disabled. */
  ghost predicate MaskedCoverable(start: nat, size: nat, budget: nat) {
    exists ms: seq<Masked> :: MaskedCover(ms, start, size, budget)
  }

  ghost predicate MaskedCover(ms: seq<Masked>, start: nat, size: nat, budget: nat) {
    && |ms| <= budget
    && (forall i :: 0 <= i < |ms| ==> ms[i].Valid())
    && (forall x: nat :: start <= x < start + size <==> MaskCovered(ms, x))
  }

  ghost predicate MaskCovered(ms: seq<Masked>, x: nat) {
    exists i :: 0 <= i < |ms| && ms[i].Covers(x)
  }

  /** Aligned blocks of at least 32 bytes inside [start, end). */
  ghost predicate Inside(cover: seq<Block>, start: nat, end: nat) {
    forall i :: 0 <= i < |cover| ==> cover[i].Aligned() && cover[i].Within(start, end) && cover[i].power >= 5
  }

  lemma InsideAppend(a: seq<Block>, b: seq<Block>, start: nat, end: nat)
    requires Inside(a, start, end) && Inside(b, start, end)
    ensures Inside(a + b, start, end)
  {
  }

  lemma CoveredAppend(a: seq<Block>, b: seq<Block>, x: nat)
    requires Covered(a, x) || Covered(b, x)
    ensures Covered(a + b, x)
  {
    if Covered(a, x) {
      var i :| 0 <= i < |a| && a[i].Contains(x);
      assert (a + b)[i] == a[i];
    } else {
      var i :| 0 <= i < |b| && b[i].Contains(x);
      assert (a + b)[|a| + i] == b[i];
    }
  }

  function Left(b: Block): Block
    requires b.power > 0
  {
    Block(b.base, b.power - 1)
  }

  function Right(b: Block): Block
    requires b.power > 0
  {
    Block(b.base + Pow2(b.power - 1), b.power - 1)
  }

  lemma HalvesAligned(b: Block)
    requires b.power > 0 && b.Aligned()
    ensures Left(b).Aligned() && Right(b).Aligned()
    ensures Left(b).End() == Right(b).base && Right(b).End() == b.End()
  {
    LowZeroNext(b.base, b.power - 1, b.power);
    LowZeroNext(b.base, b.power - 1, b.power - 1);
  }

  /** `cover` is a list of such blocks whose union is [low, high). */
  ghost predicate Tiles(cover: seq<Block>, low: nat, high: nat) {
    Inside(cover, low, high) && forall x: nat :: low <= x < high ==> Covered(cover, x)
  }

  lemma TilesJoin(a: seq<Block>, b: seq<Block>, low: nat, middle: nat, high: nat)
    requires low <= middle <= high && Tiles(a, low, middle) && Tiles(b, middle, high)
    ensures Tiles(a + b, low, high)
  {
    forall x: nat | low <= x < high
      ensures Covered(a + b, x)
    {
      assert Covered(a, x) || Covered(b, x);
      CoveredAppend(a, b, x);
    }
  }

  lemma TilesOne(b: Block)
    requires b.Aligned() && b.power >= 5
    ensures Tiles([b], b.base, b.End())
  {
    forall x: nat | b.base <= x < b.End()
      ensures Covered([b], x)
    {
      assert [b][0].Contains(x);
    }
  }

  /** Addresses of a block that are multiples of a part of it stay so in the halves. */
  ghost predicate Mark(b: Block, depth: nat, x: nat) {
    depth + 5 <= b.power && b.base <= x <= b.End() && Low(x, b.power - depth) == 0
  }

  lemma MarkAtEnds(b: Block, x: nat)
    requires b.Aligned() && Mark(b, 0, x)
    ensures x == b.base || x == b.End()
  {
    if b.base < x { LowZeroApart(b.base, x, b.power); }
  }

  /** The part of a block up to a mark: one block if it is the whole, at most one for each level otherwise. */
  lemma {:induction false} Prefix(b: Block, depth: nat, x: nat) returns (cover: seq<Block>)
    requires b.Aligned() && Mark(b, depth, x)
    ensures Tiles(cover, b.base, x) && |cover| <= (if x == b.End() then 1 else depth)
    decreases depth
  {
    hide Low, Tiles;
    if x == b.End() {
      cover := [b];
      TilesOne(b);
    } else if depth == 0 {
      cover := [];
      MarkAtEnds(b, x);
      TilesNone(x);
    } else {
      HalvesAligned(b);
      if x <= Left(b).End() {
        cover := Prefix(Left(b), depth - 1, x);
      } else {
        cover := Prefix(Right(b), depth - 1, x);
        TilesOne(Left(b));
        TilesJoin([Left(b)], cover, b.base, Right(b).base, x);
        cover := [Left(b)] + cover;
      }
    }
  }

  lemma TilesNone(x: nat)
    ensures Tiles([], x, x)
  {
  }

  /** The part of a block from a mark on. */
  lemma {:induction false} Suffix(b: Block, depth: nat, x: nat) returns (cover: seq<Block>)
    requires b.Aligned() && Mark(b, depth, x)
    ensures Tiles(cover, x, b.End()) && |cover| <= (if x == b.base then 1 else depth)
    decreases depth
  {
    hide Low, Tiles;
    if x == b.base {
      cover := [b];
      TilesOne(b);
    } else if depth == 0 {
      cover := [];
      MarkAtEnds(b, x);
      TilesNone(x);
    } else {
      HalvesAligned(b);
      if x >= Right(b).base {
        cover := Suffix(Right(b), depth - 1, x);
      } else {
        cover := Suffix(Left(b), depth - 1, x);
        TilesOne(Right(b));
        TilesJoin(cover, [Right(b)], x, Right(b).base, b.End());
        cover := cover + [Right(b)];
      }
    }
  }

  /** The part between two marks. */
  lemma {:induction false} Middle(b: Block, depth: nat, low: nat, high: nat) returns (cover: seq<Block>)
    requires b.Aligned() && Mark(b, depth, low) && Mark(b, depth, high) && low <= high
    ensures Tiles(cover, low, high) && |cover| <= (if depth <= 1 then 1 else 2 * depth - 2)
    decreases depth
  {
    hide Low, Tiles;
    if low == high {
      cover := [];
      TilesNone(low);
    } else if low == b.base && high == b.End() {
      cover := [b];
      TilesOne(b);
    } else if depth == 0 {
      MarkAtEnds(b, low);
      MarkAtEnds(b, high);
      assert false;
    } else {
      HalvesAligned(b);
      if high <= Left(b).End() {
        cover := Middle(Left(b), depth - 1, low, high);
      } else if low >= Right(b).base {
        cover := Middle(Right(b), depth - 1, low, high);
      } else {
        var left := Suffix(Left(b), depth - 1, low);
        var right := Prefix(Right(b), depth - 1, high);
        TilesJoin(left, right, low, Right(b).base, high);
        cover := left + right;
      }
    }
  }

  /** A multiple of the eighth, from the base on, is a mark three levels down. */
  lemma EighthMark(m: Masked, i: nat)
    requires m.Valid() && m.block.power >= 8 && i <= 8
    ensures Mark(m.block, 3, m.block.base + i * m.Eighth())
  {
    hide Low, Pow2;
    var n, u := m.block.power - 3, m.Eighth();
    EighthPower(m);
    LowZeroNext(m.block.base, n, m.block.power);
    ShlIsMul(i, n);
    LowOfShl(i, n);
    LowZeroSum(m.block.base, i * u, n);
    Between(u, i, 8);
  }

  /** The first and the last address of eighth `i`. */
  lemma EighthEnds(m: Masked, i: nat)
    requires m.Valid() && m.block.power >= 8 && i < 8
    ensures var first, last := m.block.base + i * m.Eighth(), m.block.base + (i + 1) * m.Eighth() - 1;
      && m.block.Contains(first) && (first - m.block.base) / m.Eighth() == i
      && m.block.Contains(last) && (last - m.block.base) / m.Eighth() == i
  {
    hide Pow2;
    var u := m.Eighth();
    EighthPower(m);
    Distribute(u, i, 1);
    Between(u, i, 7);
    DivModUnique(i * u, u, i, 0);
    DivModUnique((i + 1) * u - 1, u, i, u - 1);
  }

  /** The lowest and the highest enabled eighth, if any. */
  lemma EnabledRange(srd: nat) returns (i: nat, j: nat)
    ensures i <= j <= 8
    ensures i < j ==> Bit(srd, i) == 0 && Bit(srd, j - 1) == 0
    ensures forall k :: 0 <= k < 8 && Bit(srd, k) == 0 ==> i <= k < j
  {
    hide Bit;
    i := 0;
    while i < 8 && Bit(srd, i) != 0
      invariant i <= 8 && forall k :: 0 <= k < i ==> Bit(srd, k) != 0
    {
      i := i + 1;
    }
    j := 8;
    while j > i && Bit(srd, j - 1) != 0
      invariant i <= j <= 8 && forall k :: j <= k < 8 ==> Bit(srd, k) != 0
    {
      j := j - 1;
    }
    assert forall k :: 0 <= k < 8 && Bit(srd, k) == 0 ==> i <= k < j;
    assert i < j ==> Bit(srd, i) == 0 by { if i == 8 { assert j == 8; } }
  }

  /** Everything that a masked region covers lies in at most four aligned blocks of any range around it. */
  lemma FourBlocks(m: Masked, start: nat, end: nat) returns (cover: seq<Block>)
    requires m.Valid() && forall x: nat :: m.Covers(x) ==> start <= x < end
    ensures |cover| <= 4 && Inside(cover, start, end)
    ensures forall x: nat :: m.Covers(x) ==> Covered(cover, x)
  {
    if m.block.power < 8 {
      cover := [m.block];
      assert m.Covers(m.block.base) && m.Covers(m.block.End() - 1);
      TilesOne(m.block);
    } else {
      hide Masked.Covers, Masked.Valid;
      var i, j := EnabledRange(m.srd);
      if i == j {
        cover := [];
        forall x: nat
          ensures !m.Covers(x)
        {
          if m.Covers(x) { InRun(m, x, i, j); }
        }
      } else {
        var low, high := Run(m, i, j);
        assert start <= low && high <= end;
        cover := Middle(m.block, 3, low, high);
        forall x: nat | m.Covers(x)
          ensures Covered(cover, x)
        {
          InRun(m, x, i, j);
        }
      }
    }
  }

  /** An address that the region covers lies between its lowest and its highest enabled eighth. */
  lemma InRun(m: Masked, x: nat, i: nat, j: nat)
    requires m.Valid() && m.block.power >= 8 && m.Covers(x)
    requires forall k :: 0 <= k < 8 && Bit(m.srd, k) == 0 ==> i <= k < j
    ensures m.block.base + i * m.Eighth() <= x < m.block.base + j * m.Eighth()
  {
    hide Bit, Pow2;
    EighthPower(m);
    IndexBelowEight(x - m.block.base, m.Eighth());
    EighthInRun(x - m.block.base, m.Eighth(), i, j);
  }

  /** The run from the lowest to the highest enabled eighth: its ends are marks, its first and last address covered. */
  lemma Run(m: Masked, i: nat, j: nat) returns (low: nat, high: nat)
    requires m.Valid() && m.block.power >= 8 && i < j <= 8 && Bit(m.srd, i) == 0 && Bit(m.srd, j - 1) == 0
    ensures low == m.block.base + i * m.Eighth() && high == m.block.base + j * m.Eighth() && low < high
    ensures Mark(m.block, 3, low) && Mark(m.block, 3, high) && m.block.Aligned()
    ensures m.Covers(low) && m.Covers(high - 1)
  {
    hide Bit, Pow2, Low;
    var u := m.Eighth();
    low, high := m.block.base + i * u, m.block.base + j * u;
    EighthMark(m, i);
    EighthMark(m, j);
    Between(u, i + 1, j);
    Distribute(u, i, 1);
    EighthEnds(m, i);
    EighthEnds(m, j - 1);
  }

  lemma EighthInRun(d: int, u: int, i: int, j: int)
    requires 0 <= d < 8 * u && i <= d / u < j
    ensures i * u <= d < j * u
  {
    var k := d / u;
    assert d == u * k + d % u;
    Between(u, i, k);
    Between(u, k + 1, j);
    Distribute(u, k, 1);
  }

  /** The blocks for the first `n` regions of a cover. */
  lemma {:induction false} FourBlocksEach(ms: seq<Masked>, start: nat, size: nat, budget: nat, n: nat) returns (cover: seq<Block>)
    requires MaskedCover(ms, start, size, budget) && n <= |ms|
    ensures |cover| <= 4 * n && Inside(cover, start, start + size)
    ensures forall i, x: nat :: 0 <= i < n && ms[i].Covers(x) ==> Covered(cover, x)
    decreases n
  {
    if n == 0 {
      cover := [];
    } else {
      var before := FourBlocksEach(ms, start, size, budget, n - 1);
      var m := ms[n - 1];
      forall x: nat | m.Covers(x)
        ensures start <= x < start + size
      {
        assert ms[n - 1].Covers(x);
        assert MaskCovered(ms, x);
      }
      var blocks := FourBlocks(m, start, start + size);
      cover := before + blocks;
      InsideAppend(before, blocks, start, start + size);
      forall i, x: nat | 0 <= i < n && ms[i].Covers(x)
        ensures Covered(cover, x)
      {
        CoveredAppend(before, blocks, x);
      }
    }
  }

  /** Whole regions need at most four times as many as regions with subregions. */
  lemma SubregionsSaveAtMostThreeQuarters(start: nat, size: nat, budget: nat)
    requires MaskedCoverable(start, size, budget)
    ensures Board.Coverable(start, size, 4 * budget)
  {
    var ms :| MaskedCover(ms, start, size, budget);
    var cover := FourBlocksEach(ms, start, size, budget, |ms|);
    forall x: nat | start <= x < start + size
      ensures Covered(cover, x)
    {
      assert MaskCovered(ms, x);
    }
    assert Board.Covers(cover, start, size, 4 * budget);
  }

  /** So the greedy choice succeeds wherever a quarter of the budget would do with subregions. */
  lemma MaskedCoverFits(start: nat, size: nat, first: nat, budget: nat)
    requires first <= Board.MAX_MPU_REGIONS && 4 * budget <= Board.MAX_MPU_REGIONS - first
    requires MaskedCoverable(start, size, budget)
    ensures Board.Fits(start, size, first)
  {
    hide Board.Fits;
    SubregionsSaveAtMostThreeQuarters(start, size, budget);
    var cover: seq<Block> :| Board.Covers(cover, start, size, 4 * budget);
    assert Board.Covers(cover, start, size, Board.MAX_MPU_REGIONS - first);
    Board.FitsIffCoverable(start, size, first);
  }

  /** A block with every subregion enabled. */
  lemma WholeRegion(b: Block)
    requires b.Aligned() && b.power >= 5 && b.End() <= 0x1_0000_0000
    ensures Masked(b, 0).Valid() && forall x: nat :: Masked(b, 0).Covers(x) <==> b.Contains(x)
  {
    var m := Masked(b, 0);
    PowerAtMost32(b);
    forall x: nat
      ensures m.Covers(x) <==> b.Contains(x)
    {
      if b.power >= 8 && b.Contains(x) {
        EighthPower(m);
        IndexBelowEight(x - b.base, m.Eighth());
        BitOfZero((x - b.base) / m.Eighth());
      }
    }
  }

  /** The other way round, regions without subregions are a special case. */
  lemma WholeRegionsAreMasked(start: nat, size: nat, budget: nat)
    requires Board.Coverable(start, size, budget) && start + size <= 0x1_0000_0000
    ensures MaskedCoverable(start, size, budget)
  {
    hide Masked.Covers, Masked.Valid;
    var cover: seq<Block> :| Board.Covers(cover, start, size, budget);
    var ms := seq(|cover|, i requires 0 <= i < |cover| => Masked(cover[i], 0));
    forall i | 0 <= i < |ms|
      ensures ms[i].Valid() && forall x: nat :: ms[i].Covers(x) <==> cover[i].Contains(x)
    {
      WholeRegion(cover[i]);
    }
    forall x: nat
      ensures start <= x < start + size <==> MaskCovered(ms, x)
    {
      if start <= x < start + size {
        assert Covered(cover, x);
        var i :| 0 <= i < |cover| && cover[i].Contains(x);
        assert ms[i].Covers(x);
      }
      if MaskCovered(ms, x) {
        var i :| 0 <= i < |ms| && ms[i].Covers(x);
        assert cover[i].Contains(x);
      }
    }
    assert MaskedCover(ms, start, size, budget);
  }

  lemma PowerAtMost32(b: Block)
    requires b.End() <= 0x1_0000_0000
    ensures b.power <= 32
  {
    Pow2Of32();
    if b.power > 32 { Pow2Monotone(32, b.power); }
  }

  // ---------- the bounds are reached ----------

  lemma BlockPowerIs(address: nat, size: nat, p: nat)
    requires size > 0 && Low(address, p) == 0 && Pow2(p) <= size && (Low(address, p + 1) != 0 || Pow2(p + 1) > size)
    ensures BlockPower(address, size) == p
  {
    hide Low;
    BlockPowerLargest(address, size, p);
    var q := BlockPower(address, size);
    if q > p {
      LowZeroNext(address, p + 1, q);
      Pow2Monotone(p + 1, q);
    }
  }

  lemma SmallPowers()
    ensures Pow2(8) == 0x100 && Pow2(9) == 0x200 && Pow2(10) == 0x400 && Pow2(11) == 0x800
  {
    assert Pow2(8) == 0x100;
  }

  /** The first block of a tiling, with its power given by residues. */
  lemma FirstBlock(address: nat, size: nat, p: nat, length: nat)
    requires length == Pow2(p) && size >= length && address % length == 0
    requires address % (2 * length) != 0 || 2 * length > size
    ensures Greedy(address, size) == [Block(address, p)] + Greedy(address + length, size - length)
  {
    hide Low, Pow2, BlockPower;
    AsDivMod(address, p, length);
    assert Pow2(p + 1) == 2 * length by { Pow2Add(1, p); assert Pow2(1) == 2 by { Powers(); } }
    AsDivMod(address, p + 1, 2 * length);
    BlockPowerIs(address, size, p);
  }

  lemma SevenEighthsTiling()
    ensures |Greedy(0, 0x700)| == 3 && |Greedy(0x100, 0x600)| == 4
  {
    hide Greedy;
    SmallPowers();
    FirstBlock(0, 0x700, 10, 0x400);
    FirstBlock(0x400, 0x300, 9, 0x200);
    FirstBlock(0x600, 0x100, 8, 0x100);
    FirstBlock(0x100, 0x600, 8, 0x100);
    FirstBlock(0x200, 0x500, 9, 0x200);
    FirstBlock(0x400, 0x300, 9, 0x200);
    EmptyTiling(0x700);
  }

  lemma EmptyTiling(address: nat)
    ensures Greedy(address, 0) == []
  {
  }

  /** The last subregion disabled, and the first and the last. */
  lemma SrdBits(k: nat)
    requires k < 8
    ensures Bit(0x80, k) == 0 <==> k < 7
    ensures Bit(0x81, k) == 0 <==> 0 < k < 7
  {
    assert Bit(0x80, 0) == Bit(0x80, 1) == Bit(0x80, 2) == Bit(0x80, 3) == 0;
    assert Bit(0x80, 4) == Bit(0x80, 5) == Bit(0x80, 6) == 0 && Bit(0x80, 7) == 1;
    assert Bit(0x81, 1) == Bit(0x81, 2) == Bit(0x81, 3) == Bit(0x81, 4) == 0;
    assert Bit(0x81, 5) == Bit(0x81, 6) == 0 && Bit(0x81, 0) == Bit(0x81, 7) == 1;
  }

  lemma CoversEighths(srd: nat, x: nat)
    requires srd < 0x100
    ensures Masked(Block(0, 11), srd).Covers(x) <==> x < 0x800 && Bit(srd, x / 0x100) == 0
  {
    SmallPowers();
  }

  lemma KilobytesValid(srd: nat)
    requires srd < 0x100
    ensures Masked(Block(0, 11), srd).Valid()
  {
    SmallPowers();
    LowOfZero(11);
  }

  /** One 2 KB region with its last subregion disabled matches exactly [0, 0x700): a window for which the greedy choice,
      like any choice of whole regions, needs three. */
  lemma OneRegionForSevenEighths(x: nat)
    ensures Matches(Region(0, EncodeRasr(WINDOW, 0x80, 10)), x) <==> x < 0x700
    ensures !Board.Coverable(0, 0x700, 2) && !Board.Fits(0, 0x700, 13)
  {
    hide Bit, EncodeRasr, Matches, Masked.Valid, Masked.Covers, Board.Coverable, Board.Fits, Greedy;
    KilobytesValid(0x80);
    MaskedMatches(Masked(Block(0, 11), 0x80), x);
    CoversEighths(0x80, x);
    if x < 0x800 { SrdBits(x / 0x100); }
    SevenEighthsTiling();
    NotCoverable(0, 0x700, 2);
    Board.FitsIffCoverable(0, 0x700, 13);
  }

  lemma NotCoverable(start: nat, size: nat, budget: nat)
    requires |Greedy(start, size)| > budget
    ensures !Board.Coverable(start, size, budget)
  {
    if Board.Coverable(start, size, budget) {
      var cover: seq<Block> :| Board.Covers(cover, start, size, budget);
      GreedyIsMinimal(cover, start, size);
    }
  }

  /** The factor of four is reached: one region instead of four. */
  lemma OneRegionForFour()
    ensures MaskedCoverable(0x100, 0x600, 1) && !Board.Coverable(0x100, 0x600, 3)
  {
    hide Bit;
    var m := Masked(Block(0, 11), 0x81);
    KilobytesValid(0x81);
    forall x: nat
      ensures 0x100 <= x < 0x700 <==> m.Covers(x)
    {
      CoversEighths(0x81, x);
      if x < 0x800 { SrdBits(x / 0x100); }
    }
    OneMask(m, 0x100, 0x600);
    SevenEighthsTiling();
    NotCoverable(0x100, 0x600, 3);
  }

  lemma OneMask(m: Masked, start: nat, size: nat)
    requires m.Valid() && forall x: nat :: start <= x < start + size <==> m.Covers(x)
    ensures MaskedCoverable(start, size, 1)
  {
    hide Masked.Covers, Masked.Valid;
    forall x: nat
      ensures m.Covers(x) <==> MaskCovered([m], x)
    {
      if m.Covers(x) { assert [m][0].Covers(x); }
    }
    assert MaskedCover([m], start, size, 1);
  }
}
