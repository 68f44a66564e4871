/** Size-aligned power-of-two blocks of addresses, the greedy tiling of an address range that
    BOARD_ConfigMPUNonCached computes, and what that tiling is: the maximal blocks of the range. */
module Tiling {
  import opened Bits

  datatype Block = Block(base: nat, power: nat) {
    function Size(): nat { Pow2(power) }
    function End(): nat { base + Size() }
    predicate Aligned() { Low(base, power) == 0 }
    ghost predicate Contains(x: int) { base <= x < End() }
    ghost predicate Within(start: int, end: int) { start <= base && End() <= end }
    /** The aligned block of twice the size around this one. */
    function Parent(): Block { Block(Shl(Shr(base, power + 1), power + 1), power + 1) }
  }

  /** A block of the range that no larger aligned block of the range contains. */
  ghost predicate IsMaximal(b: Block, start: nat, end: nat) {
    b.Aligned() && b.Within(start, end) && !b.Parent().Within(start, end)
  }

  // ---------- the greedy choice, with the two inner loops as functions ----------

  /** The first inner loop: grow the power while twice the block still fits. */
  function GrowPower(size: nat, power: nat): (p: nat)
    requires Pow2(power) <= size
    ensures p >= power && Pow2(p) <= size < Pow2(p + 1)
    decreases size - Pow2(power)
  {
    if size >= Pow2(power + 1) then GrowPower(size, power + 1) else power
  }

  /** The second inner loop: shrink the power until the address is aligned. */
  function ShrinkPower(address: nat, power: nat): (p: nat)
    ensures p <= power && Low(address, p) == 0
    ensures forall q :: p < q <= power ==> Low(address, q) != 0
  {
    if Low(address, power) == 0 then power else ShrinkPower(address, power - 1)
  }

  function BlockPower(address: nat, size: nat): (p: nat)
    requires size > 0
    ensures Low(address, p) == 0 && Pow2(p) <= size
  {
    var top := GrowPower(size, 0);
    Pow2Monotone(ShrinkPower(address, top), top);
    ShrinkPower(address, top)
  }

  /** The tiling with no budget and no minimum block size. */
  function Greedy(address: nat, size: nat): seq<Block>
    decreases size
  {
    if size == 0 then []
    else
      var p := BlockPower(address, size);
      [Block(address, p)] + Greedy(address + Pow2(p), size - Pow2(p))
  }

  /** The first block and the rest of a tiling. */
  lemma GreedyUnfold(address: nat, size: nat)
    requires size > 0
    ensures var p := BlockPower(address, size);
      && Pow2(p) <= size
      && Greedy(address, size) == [Block(address, p)] + Greedy(address + Pow2(p), size - Pow2(p))
  {
    hide BlockPower, Pow2, Low;
  }

  lemma Pow2Next(p: nat)
    ensures Pow2(p + 1) == 2 * Pow2(p)
  {
  }

  lemma GreedyOfNothing(address: nat)
    ensures Greedy(address, 0) == []
  {
  }

  /** The chosen power is the largest one that is aligned and fits. */
  lemma BlockPowerLargest(address: nat, size: nat, q: nat)
    requires size > 0 && Low(address, q) == 0 && Pow2(q) <= size
    ensures q <= BlockPower(address, size)
  {
    var top := GrowPower(size, 0);
    if q > top {
      Pow2Monotone(top + 1, q);
    }
  }

  lemma BlockPowerTight(address: nat, size: nat, q: nat)
    requires size > 0 && q > BlockPower(address, size)
    ensures Low(address, q) != 0 || Pow2(q) > size
  {
    if Low(address, q) == 0 && Pow2(q) <= size {
      BlockPowerLargest(address, size, q);
    }
  }

  // ---------- nesting of aligned blocks ----------

  /** Two aligned blocks that share an address are nested. */
  lemma Nested(big: Block, small: Block, x: nat)
    requires big.Aligned() && small.Aligned() && small.power <= big.power
    requires big.Contains(x) && small.Contains(x)
    ensures small.Within(big.base, big.End())
  {
    LowZeroNext(big.base, small.power, big.power);
    LowZeroNext(small.base, small.power, small.power);
    if small.base < big.base { LowZeroApart(small.base, big.base, small.power); }
    if big.End() < small.End() { LowZeroApart(big.End(), small.End(), small.power); }
  }

  lemma ParentContains(b: Block)
    requires b.Aligned()
    ensures b.Parent().Aligned()
    ensures b.Within(b.Parent().base, b.Parent().End())
  {
    var n := b.power + 1;
    ShrLow(b.base, n);
    LowOfShl(Shr(b.base, n), n);
    assert b.Parent().Contains(b.base);
    Nested(b.Parent(), b, b.base);
  }

  // ---------- greedy blocks are the maximal blocks ----------

  /** No aligned block of [start, end) straddles `address`. */
  ghost predicate NoStraddle(start: nat, end: nat, address: nat) {
    forall c: Block :: c.Aligned() && c.Within(start, end) ==> c.End() <= address || address <= c.base
  }

  /** The first greedy block contains every aligned block of the range that meets it. */
  lemma FirstBlockDominates(start: nat, end: nat, address: nat, c: Block, x: nat)
    requires start <= address < end && NoStraddle(start, end, address)
    requires c.Aligned() && c.Within(start, end) && c.Contains(x)
    requires Block(address, BlockPower(address, end - address)).Contains(x)
    ensures c.Within(address, address + Pow2(BlockPower(address, end - address)))
  {
    var p := BlockPower(address, end - address);
    var first := Block(address, p);
    assert address <= c.base;
    if c.power <= p {
      Nested(first, c, x);
    } else {
      Nested(c, first, x);
      assert c.base == address;
      BlockPowerLargest(address, end - address, c.power);
    }
  }

  lemma StraddleStep(start: nat, end: nat, address: nat)
    requires start <= address < end && NoStraddle(start, end, address)
    ensures NoStraddle(start, end, address + Pow2(BlockPower(address, end - address)))
  {
    var next := address + Pow2(BlockPower(address, end - address));
    forall c: Block | c.Aligned() && c.Within(start, end) && c.base < next < c.End()
      ensures false
    {
      assert address <= c.base;
      FirstBlockDominates(start, end, address, c, c.base);
    }
  }

  /** Every aligned block of the range that contains an address of a greedy block lies inside that greedy block. */
  lemma {:induction false} GreedyDominates(start: nat, end: nat, address: nat, i: nat, c: Block, x: nat)
    requires start <= address <= end && NoStraddle(start, end, address)
    requires i < |Greedy(address, end - address)|
    requires c.Aligned() && c.Within(start, end) && c.Contains(x)
    requires Greedy(address, end - address)[i].Contains(x)
    ensures var g := Greedy(address, end - address)[i]; c.Within(g.base, g.End())
    decreases i
  {
    hide Greedy, BlockPower, Low, Pow2, NoStraddle;
    if address == end { GreedyOfNothing(address); }
    GreedyUnfold(address, end - address);
    var next := address + Pow2(BlockPower(address, end - address));
    if i == 0 {
      FirstBlockDominates(start, end, address, c, x);
    } else {
      StraddleStep(start, end, address);
      GreedyDominates(start, end, next, i - 1, c, x);
    }
  }

  /** Consecutive, aligned, and covering exactly [address, address + size). */
  lemma {:induction false} GreedyCovers(address: nat, size: nat, x: nat) returns (i: nat)
    requires address <= x < address + size
    ensures i < |Greedy(address, size)| && Greedy(address, size)[i].Contains(x)
    decreases size
  {
    hide Greedy, BlockPower, Low, Pow2;
    GreedyUnfold(address, size);
    var p := BlockPower(address, size);
    if x < address + Pow2(p) {
      i := 0;
    } else {
      i := GreedyCovers(address + Pow2(p), size - Pow2(p), x);
      i := i + 1;
    }
  }

  lemma {:induction false} GreedyInRange(address: nat, size: nat, i: nat)
    requires i < |Greedy(address, size)|
    ensures var b := Greedy(address, size)[i]; b.Aligned() && b.Within(address, address + size)
    decreases i
  {
    hide Greedy, BlockPower, Low, Pow2;
    if size == 0 { GreedyOfNothing(address); }
    GreedyUnfold(address, size);
    var p := BlockPower(address, size);
    if i > 0 {
      GreedyInRange(address + Pow2(p), size - Pow2(p), i - 1);
    }
  }

  lemma {:induction false} GreedyOrdered(address: nat, size: nat, i: nat, j: nat)
    requires i < j < |Greedy(address, size)|
    ensures Greedy(address, size)[i].End() <= Greedy(address, size)[j].base
    decreases i
  {
    hide Greedy, BlockPower, Low, Pow2;
    if size == 0 { GreedyOfNothing(address); }
    GreedyUnfold(address, size);
    var p := BlockPower(address, size);
    if i > 0 {
      GreedyOrdered(address + Pow2(p), size - Pow2(p), i - 1, j - 1);
    } else {
      GreedyInRange(address + Pow2(p), size - Pow2(p), j - 1);
    }
  }

  lemma GreedyBlockMaximal(start: nat, size: nat, i: nat)
    requires i < |Greedy(start, size)|
    ensures IsMaximal(Greedy(start, size)[i], start, start + size)
  {
    hide Greedy, Low, Pow2;
    var b := Greedy(start, size)[i];
    GreedyInRange(start, size, i);
    ParentContains(b);
    Pow2Next(b.power);
    if b.Parent().Within(start, start + size) {
      GreedyDominates(start, start + size, start, i, b.Parent(), b.base);
    }
  }

  lemma MaximalBlockGreedy(start: nat, size: nat, b: Block)
    requires IsMaximal(b, start, start + size)
    ensures b in Greedy(start, size)
  {
    hide Greedy, Low, Pow2, Shl, Shr;
    var i := GreedyCovers(start, size, b.base);
    var g := Greedy(start, size)[i];
    GreedyDominates(start, start + size, start, i, b, b.base);
    GreedyInRange(start, size, i);
    if b.power < g.power {
      ParentContains(b);
      Nested(g, b.Parent(), b.base);
    } else {
      PowerFromSize(b.power, g.power);
    }
  }

  lemma PowerFromSize(p: nat, q: nat)
    requires p >= q && Pow2(p) <= Pow2(q)
    ensures p == q
  {
    if q < p { Pow2Monotone(q, p); }
  }

  /** The greedy tiling consists of exactly the maximal aligned blocks of the range. */
  lemma GreedyIsMaximalBlocks(start: nat, size: nat, b: Block)
    ensures b in Greedy(start, size) <==> IsMaximal(b, start, start + size)
  {
    if b in Greedy(start, size) {
      var i :| 0 <= i < |Greedy(start, size)| && Greedy(start, size)[i] == b;
      GreedyBlockMaximal(start, size, i);
    }
    if IsMaximal(b, start, start + size) {
      MaximalBlockGreedy(start, size, b);
    }
  }

  // ---------- the tiling is the shortest cover ----------

  /** `cover` consists of aligned blocks, overlapping or not, whose union is exactly [start, start + size). */
  ghost predicate IsCover(cover: seq<Block>, start: nat, size: nat) {
    && (forall i :: 0 <= i < |cover| ==> cover[i].Aligned() && cover[i].Within(start, start + size))
    && (forall x: nat :: start <= x < start + size ==> Covered(cover, x))
  }

  ghost predicate Covered(cover: seq<Block>, x: nat) {
    exists i :: 0 <= i < |cover| && cover[i].Contains(x)
  }

  lemma GreedyIsCover(start: nat, size: nat)
    ensures IsCover(Greedy(start, size), start, size)
  {
    forall i | 0 <= i < |Greedy(start, size)|
      ensures Greedy(start, size)[i].Aligned() && Greedy(start, size)[i].Within(start, start + size)
    {
      GreedyInRange(start, size, i);
    }
    forall x: nat | start <= x < start + size
      ensures Covered(Greedy(start, size), x)
    {
      var i := GreedyCovers(start, size, x);
    }
  }

  /** Some cover block lies inside greedy block `i`. */
  lemma ChooseBlock(cover: seq<Block>, start: nat, size: nat, i: nat) returns (j: nat)
    requires IsCover(cover, start, size) && i < |Greedy(start, size)|
    ensures j < |cover| && cover[j].Within(Greedy(start, size)[i].base, Greedy(start, size)[i].End())
  {
    hide Greedy, Low, Pow2;
    var b := Greedy(start, size)[i];
    GreedyInRange(start, size, i);
    BlockHasBase(b);
    assert Covered(cover, b.base);
    j :| j < |cover| && cover[j].Contains(b.base);
    GreedyDominates(start, start + size, start, i, cover[j], b.base);
  }

  lemma BlockHasBase(b: Block)
    ensures b.Contains(b.base)
  {
  }

  /** One cover block is chosen inside each of the first `n` greedy blocks; the choices differ. */
  lemma {:induction false} ChooseBlocks(cover: seq<Block>, start: nat, size: nat, n: nat) returns (chosen: seq<nat>)
    requires IsCover(cover, start, size) && n <= |Greedy(start, size)|
    ensures |chosen| == n
    ensures forall i :: 0 <= i < n ==> chosen[i] < |cover|
    ensures forall i :: 0 <= i < n ==>
      cover[chosen[i]].Within(Greedy(start, size)[i].base, Greedy(start, size)[i].End())
    decreases n
  {
    hide Greedy, Low, Pow2, IsCover, Block.Within;
    chosen := [];
    if n > 0 {
      chosen := ChooseBlocks(cover, start, size, n - 1);
      var j := ChooseBlock(cover, start, size, n - 1);
      chosen := chosen + [j];
    }
  }

  /** Pigeonhole: distinct indices below `m` number at most `m`. */
  lemma {:induction false} DistinctBounded(s: seq<nat>, m: nat)
    requires forall i :: 0 <= i < |s| ==> s[i] < m
    requires forall i, j :: 0 <= i < j < |s| ==> s[i] != s[j]
    ensures |s| <= m
    decreases m
  {
    if s != [] {
      assert s[0] < m;
      if i :| 0 <= i < |s| && s[i] == m - 1 {
        var t := s[..i] + s[i + 1..];
        DistinctBounded(t, m - 1);
      } else {
        DistinctBounded(s, m - 1);
      }
    }
  }

  /** No cover of the range by aligned power-of-two blocks is shorter than the greedy tiling. */
  lemma GreedyIsMinimal(cover: seq<Block>, start: nat, size: nat)
    requires IsCover(cover, start, size)
    ensures |Greedy(start, size)| <= |cover|
  {
    var g := Greedy(start, size);
    var chosen := ChooseBlocks(cover, start, size, |g|);
    forall i, j | 0 <= i < j < |g|
      ensures chosen[i] != chosen[j]
    {
      GreedyOrdered(start, size, i, j);
    }
    DistinctBounded(chosen, |cover|);
  }

  // ---------- counting the maximal blocks ----------

  /** The maximal aligned blocks of [start, start + size), defined without the greedy algorithm. */
  ghost function MaximalBlocks(start: nat, size: nat): set<Block> {
    set base, power | start <= base < start + size && 0 <= power <= size &&
                      IsMaximal(Block(base, power), start, start + size) :: Block(base, power)
  }

  lemma {:induction false} PowerBelowPow2(n: nat)
    ensures n < Pow2(n)
  {
    if n > 0 { PowerBelowPow2(n - 1); }
  }

  ghost function Elements(s: seq<Block>): set<Block> { set b | b in s }

  lemma {:induction false} DistinctElements(s: seq<Block>)
    requires forall i, j :: 0 <= i < j < |s| ==> s[i] != s[j]
    ensures |Elements(s)| == |s|
  {
    if s != [] {
      DistinctElements(s[1..]);
      assert Elements(s) == Elements(s[1..]) + {s[0]};
    }
  }

  lemma GreedyCount(start: nat, size: nat)
    ensures |MaximalBlocks(start, size)| == |Greedy(start, size)|
  {
    var g := Greedy(start, size);
    forall i, j | 0 <= i < j < |g|
      ensures g[i] != g[j]
    {
      GreedyOrdered(start, size, i, j);
    }
    DistinctElements(g);
    forall b: Block
      ensures b in Elements(g) <==> b in MaximalBlocks(start, size)
    {
      GreedyIsMaximalBlocks(start, size, b);
      PowerBelowPow2(b.power);
      if IsMaximal(b, start, start + size) {
        assert b == Block(b.base, b.power);
      }
    }
    assert Elements(g) == MaximalBlocks(start, size);
  }

  // ---------- the minimum block size ----------

  /** Every block of the tiling has at least `2^n` bytes. */
  ghost predicate AllAtLeast(g: seq<Block>, n: nat) {
    forall i :: 0 <= i < |g| ==> g[i].power >= n
  }

  lemma {:induction false} AlignedRangeGivesLargeBlocks(address: nat, size: nat, n: nat)
    requires Low(address, n) == 0 && Low(size, n) == 0
    ensures AllAtLeast(Greedy(address, size), n)
    decreases size
  {
    hide Greedy, BlockPower, Low, Pow2;
    if size == 0 {
      GreedyOfNothing(address);
    } else {
      GreedyUnfold(address, size);
      var p := BlockPower(address, size);
      LowOfZero(n);
      LowZeroApart(0, size, n);
      BlockPowerLargest(address, size, n);
      LowZeroNext(address, n, p);
      Pow2LowZero(p, n);
      LowZeroDifference(size - Pow2(p), Pow2(p), n);
      AlignedRangeGivesLargeBlocks(address + Pow2(p), size - Pow2(p), n);
    }
  }

  lemma {:induction false} LargeBlocksGiveAlignedRange(address: nat, size: nat, n: nat)
    requires AllAtLeast(Greedy(address, size), n) && size > 0
    ensures Low(address, n) == 0 && Low(size, n) == 0
    decreases size
  {
    hide Greedy, BlockPower, Low, Pow2;
    GreedyUnfold(address, size);
    var p := BlockPower(address, size);
    var rest := Greedy(address + Pow2(p), size - Pow2(p));
    assert p >= n by { assert Greedy(address, size)[0].power == p; }
    assert AllAtLeast(rest, n) by {
      assert forall i :: 0 <= i < |rest| ==> rest[i] == Greedy(address, size)[i + 1];
    }
    LowZeroNext(address, n, p);
    Pow2LowZero(p, n);
    if size > Pow2(p) {
      LargeBlocksGiveAlignedRange(address + Pow2(p), size - Pow2(p), n);
      LowZeroSum(size - Pow2(p), Pow2(p), n);
    }
  }

  // ---------- shape ----------

  ghost predicate Increasing(g: seq<Block>) {
    forall i, j :: 0 <= i < j < |g| ==> g[i].power < g[j].power
  }

  ghost predicate Decreasing(g: seq<Block>) {
    forall i, j :: 0 <= i < j < |g| ==> g[i].power > g[j].power
  }

  /** Once the address is aligned beyond the remaining size, only the size limits the blocks and they shrink. */
  lemma {:induction false} Descend(address: nat, size: nat, q: nat)
    requires Low(address, q) == 0 && size < Pow2(q)
    ensures Decreasing(Greedy(address, size))
    ensures forall i :: 0 <= i < |Greedy(address, size)| ==> Greedy(address, size)[i].power < q
    decreases size
  {
    hide Greedy, BlockPower, Low, Pow2;
    if size == 0 {
      GreedyOfNothing(address);
    } else {
      GreedyUnfold(address, size);
      var p := BlockPower(address, size);
      if q <= p { Pow2Monotone(q, p); }
      LowZeroNext(address, p + 1, q);
      BlockPowerTight(address, size, p + 1);
      Pow2Next(p);
      LowZeroNext(address, p, p);
      Descend(address + Pow2(p), size - Pow2(p), p);
    }
  }

  lemma ShapePrepend(b: Block, rest: seq<Block>, t: nat)
    requires t <= |rest| && Increasing(rest[..t]) && Decreasing(rest[t..])
    requires t > 0 ==> b.power < rest[0].power
    ensures Increasing(([b] + rest)[..t + 1]) && Decreasing(([b] + rest)[t + 1..])
  {
    var g := [b] + rest;
    assert g[..t + 1] == [b] + rest[..t];
    assert g[t + 1..] == rest[t..];
    forall i | 0 < i < t
      ensures rest[0].power < rest[i].power
    {
      assert rest[..t][0] == rest[0] && rest[..t][i] == rest[i];
    }
  }

  /** Block sizes strictly increase up to a turning point and strictly decrease from there on. */
  lemma {:induction false} GreedyShape(address: nat, size: nat) returns (turn: nat)
    ensures turn <= |Greedy(address, size)|
    ensures Increasing(Greedy(address, size)[..turn]) && Decreasing(Greedy(address, size)[turn..])
    decreases size
  {
    hide Greedy, BlockPower, Low, Pow2;
    turn := 0;
    if size == 0 {
      GreedyOfNothing(address);
    } else {
      GreedyUnfold(address, size);
      var p := BlockPower(address, size);
      var next, left := address + Pow2(p), size - Pow2(p);
      LowZeroNext(address, p, p);
      Pow2Next(p);
      if size < Pow2(p + 1) {
        Descend(next, left, p);
      } else {
        BlockPowerTight(address, size, p + 1);
        LowZeroCarry(address, p);
        if left < Pow2(p + 1) {
          Descend(next, left, p + 1);
        } else {
          BlockPowerLargest(next, left, p + 1);
          GreedyUnfold(next, left);
          turn := GreedyShape(next, left);
        }
      }
      ShapePrepend(Block(address, p), Greedy(next, left), turn);
      turn := turn + 1;
    }
  }

  /** No three blocks of a tiling have the same size. */
  lemma AtMostTwoPerSize(address: nat, size: nat, i: nat, j: nat, k: nat)
    requires i < j < k < |Greedy(address, size)|
    ensures !(Greedy(address, size)[i].power == Greedy(address, size)[j].power == Greedy(address, size)[k].power)
  {
    var t := GreedyShape(address, size);
    var g := Greedy(address, size);
    if j < t {
      assert g[..t][i] == g[i] && g[..t][j] == g[j];
    } else {
      assert g[t..][j - t] == g[j] && g[t..][k - t] == g[k];
    }
  }

  /** Strictly monotone powers from `lo` to `hi` number at most `hi - lo + 1`. */
  lemma {:induction false} IncreasingAtLeast(g: seq<Block>, lo: nat, i: nat)
    requires Increasing(g) && i < |g| && g[0].power >= lo
    ensures g[i].power >= lo + i
    decreases i
  {
    if i > 0 { IncreasingAtLeast(g, lo, i - 1); }
  }

  lemma {:induction false} DecreasingAtLeast(g: seq<Block>, lo: nat, i: nat)
    requires Decreasing(g) && i < |g| && g[|g| - 1].power >= lo
    ensures g[|g| - 1 - i].power >= lo + i
    decreases i
  {
    if i > 0 { DecreasingAtLeast(g, lo, i - 1); }
  }

  lemma PowerBounded(address: nat, size: nat, i: nat)
    requires i < |Greedy(address, size)|
    ensures size > 0 && Greedy(address, size)[i].power <= GrowPower(size, 0)
  {
    hide Greedy, GrowPower, Low;
    GreedyInRange(address, size, i);
    if size == 0 { GreedyOfNothing(address); }
    var p := Greedy(address, size)[i].power;
    if p > GrowPower(size, 0) { Pow2Monotone(GrowPower(size, 0) + 1, p); }
  }

  /** A tiling by blocks of at least 32 bytes has at most 2 * (floor(log2 size) - 4) blocks. */
  lemma GreedyCountBound(address: nat, size: nat)
    requires size > 0 && AllAtLeast(Greedy(address, size), 5)
    ensures |Greedy(address, size)| <= 2 * (GrowPower(size, 0) - 4)
  {
    hide Greedy, Low;
    GreedyUnfold(address, size);
    var g, top := Greedy(address, size), GrowPower(size, 0);
    PowerBounded(address, size, 0);
    var t := GreedyShape(address, size);
    if t > 0 {
      IncreasingAtLeast(g[..t], 5, t - 1);
      PowerBounded(address, size, t - 1);
    }
    if t < |g| {
      DecreasingAtLeast(g[t..], 5, |g| - t - 1);
      PowerBounded(address, size, t);
    }
  }
}
