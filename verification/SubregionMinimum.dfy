/** The least number of regions, each with any of its subregions disabled, whose union is a window: the number of steps of
    the choice that always extends furthest. */
module SubregionMinimum {
  import opened Arithmetic
  import opened Bits
  import opened Mpu
  import opened MemoryMap
  import opened Tiling
  import opened Subregions

  // ---------- what one region can cover without a gap ----------

  /** Three levels of subregions, for blocks that have them. */
  function Depth(b: Block): nat { if b.power >= 8 then 3 else 0 }

  /** [low, high) is made of whole subregions of `b`. */
  ghost predicate Stretch(b: Block, low: nat, high: nat) {
    && b.Aligned() && 5 <= b.power <= 32 && b.End() <= 0x1_0000_0000
    && low < high && Mark(b, Depth(b), low) && Mark(b, Depth(b), high)
  }

  ghost predicate IsStretch(low: nat, high: nat) {
    exists b: Block :: Stretch(b, low, high)
  }

  /** The subregion disable field that leaves eighths `i` to `j - 1` enabled, from bit `k` on. */
  function MaskFrom(i: nat, j: nat, k: nat): (r: nat)
    requires k <= 8
    decreases 8 - k
  {
    if k == 8 then 0 else (if i <= k < j then 0 else 1) + 2 * MaskFrom(i, j, k + 1)
  }

  lemma {:induction false} MaskBound(i: nat, j: nat, k: nat)
    requires k <= 8
    ensures MaskFrom(i, j, k) < Pow2(8 - k)
    decreases 8 - k
  {
    if k < 8 { MaskBound(i, j, k + 1); }
  }

  lemma MaskStep(i: nat, j: nat, k: nat)
    requires k < 8
    ensures MaskFrom(i, j, k) / 2 == MaskFrom(i, j, k + 1) && MaskFrom(i, j, k) % 2 == if i <= k < j then 0 else 1
  {
    var rest := MaskFrom(i, j, k + 1);
    assert MaskFrom(i, j, k) == (if i <= k < j then 0 else 1) + 2 * rest;
  }

  lemma {:induction false} MaskShifted(i: nat, j: nat, k: nat, n: nat)
    requires k + n <= 8
    ensures Shr(MaskFrom(i, j, k), n) == MaskFrom(i, j, k + n)
    decreases n
  {
    hide MaskFrom;
    if n > 0 {
      MaskStep(i, j, k);
      MaskShifted(i, j, k + 1, n - 1);
    }
  }

  lemma MaskBit(i: nat, j: nat, k: nat)
    requires k < 8
    ensures Bit(MaskFrom(i, j, 0), k) == if i <= k < j then 0 else 1
  {
    hide Shr, MaskFrom;
    MaskShifted(i, j, 0, k);
    MaskStep(i, j, k);
  }

  /** A mark lies a whole number of eighths above the base. */
  lemma MarkEighths(m: Masked, x: nat) returns (i: nat)
    requires m.block.Aligned() && m.block.power >= 8 && Mark(m.block, 3, x)
    ensures i <= 8 && x == m.block.base + i * m.Eighth()
  {
    hide Low, Pow2, Shr;
    var n, u := m.block.power - 3, m.Eighth();
    LowZeroNext(m.block.base, n, m.block.power);
    LowZeroDifference(x - m.block.base, m.block.base, n);
    AsDivMod(x - m.block.base, n, u);
    EighthPower(m);
    i := (x - m.block.base) / u;
    assert x - m.block.base == u * i;
    if i > 8 { Between(u, 9, i); }
  }

  /** Every stretch is exactly what some region covers. */
  lemma StretchMask(b: Block, low: nat, high: nat) returns (m: Masked)
    requires Stretch(b, low, high)
    ensures m.Valid() && forall x: nat :: m.Covers(x) <==> low <= x < high
  {
    hide Low, Pow2, Bit;
    if b.power < 8 {
      m := Masked(b, 0);
      MarkAtEnds(b, low);
      MarkAtEnds(b, high);
    } else {
      var i := MarkEighths(Masked(b, 0), low);
      var j := MarkEighths(Masked(b, 0), high);
      m := Masked(b, MaskFrom(i, j, 0));
      MaskBound(i, j, 0);
      assert Pow2(8) == 0x100 by { SmallPowers(); }
      forall x: nat
        ensures m.Covers(x) <==> low <= x < high
      {
        MaskedStretch(m, i, j, x);
      }
    }
  }

  lemma MaskedStretch(m: Masked, i: nat, j: nat, x: nat)
    requires m.block.power >= 8 && i <= 8 && j <= 8
    requires m.srd == MaskFrom(i, j, 0)
    ensures m.Covers(x) <==> m.block.base + i * m.Eighth() <= x < m.block.base + j * m.Eighth()
  {
    hide Pow2, Bit, MaskFrom;
    var u := m.Eighth();
    EighthPower(m);
    Between(u, i, 8);
    Between(u, j, 8);
    NonNegative(u, i);
    if m.block.Contains(x) {
      var d := x - m.block.base;
      IndexBelowEight(d, u);
      MaskBit(i, j, d / u);
      EighthPosition(d, u, i);
      EighthPosition(d, u, j);
    }
  }

  lemma EighthPosition(d: int, u: int, i: int)
    requires u > 0
    ensures d / u >= i <==> d >= i * u
  {
    var k := d / u;
    assert d == u * k + d % u;
    if k >= i { Between(u, i, k); } else { Between(u, k + 1, i); Distribute(u, k, 1); }
  }

  /** What a region covers of a range lies in one stretch of the range, around any address that it covers. */
  lemma CoveredStretch(m: Masked, start: nat, end: nat, p: nat) returns (low: nat, high: nat)
    requires m.Valid() && m.Covers(p) && forall x: nat :: m.Covers(x) ==> start <= x < end
    ensures start <= low <= p < high <= end && IsStretch(low, high)
    ensures forall x: nat :: m.Covers(x) ==> x < high
  {
    var b := m.block;
    if b.power < 8 {
      low, high := b.base, b.End();
      assert m.Covers(b.base) && m.Covers(b.End() - 1);
      BlockIsStretch(b);
    } else {
      hide Masked.Covers, Masked.Valid;
      var i, j := EnabledRange(m.srd);
      InRun(m, p, i, j);
      EmptyRun(m, p, i, j);
      low, high := Run(m, i, j);
      forall x: nat | m.Covers(x)
        ensures x < high
      {
        InRun(m, x, i, j);
      }
      RunIsStretch(m, low, high);
    }
  }

  lemma EmptyRun(m: Masked, p: nat, i: nat, j: nat)
    requires m.block.power >= 8 && i <= j && m.block.base + i * m.Eighth() <= p < m.block.base + j * m.Eighth()
    ensures i < j
  {
  }

  lemma BlockIsStretch(b: Block)
    requires b.Aligned() && 5 <= b.power < 8 && b.End() <= 0x1_0000_0000
    ensures IsStretch(b.base, b.End())
  {
    LowZeroNext(b.base, b.power, b.power);
    assert Stretch(b, b.base, b.End());
  }

  lemma RunIsStretch(m: Masked, low: nat, high: nat)
    requires m.Valid() && m.block.power >= 8 && low < high && Mark(m.block, 3, low) && Mark(m.block, 3, high)
    ensures IsStretch(low, high)
  {
    hide Low, Pow2;
    assert Stretch(m.block, low, high);
  }

  // ---------- extending furthest ----------

  /** A stretch from within [start, x] ends at `high`. */
  ghost predicate Reaches(start: nat, x: nat, high: nat) {
    exists low: nat :: start <= low <= x && IsStretch(low, high)
  }

  /** The furthest end, up to `end`, of a stretch that starts within [start, x]; `x` itself if none goes beyond. */
  ghost function Furthest(start: nat, x: nat, end: nat): (r: nat)
    ensures r >= x && (r > x ==> r <= end && Reaches(start, x, r))
    ensures forall h :: r < h <= end ==> !Reaches(start, x, h)
    decreases end
  {
    if end <= x then x else if Reaches(start, x, end) then end else Furthest(start, x, end - 1)
  }

  /** Where `n` such steps from the start of the window lead. */
  ghost function Reach(start: nat, end: nat, n: nat): (r: nat)
    requires start <= end
    ensures start <= r <= end
  {
    if n == 0 then start else Furthest(start, Reach(start, end, n - 1), end)
  }

  lemma {:induction false} ReachGrows(start: nat, end: nat, k: nat, n: nat)
    requires start <= end && k <= n
    ensures Reach(start, end, k) <= Reach(start, end, n)
    decreases n
  {
    hide Furthest;
    if k < n { ReachGrows(start, end, k, n - 1); }
  }

  /** Regions for the first `n` steps. */
  lemma {:induction false} ReachedByRegions(start: nat, end: nat, n: nat) returns (ms: seq<Masked>)
    requires start <= end
    ensures |ms| <= n && forall i :: 0 <= i < |ms| ==> ms[i].Valid()
    ensures forall x: nat :: MaskCovered(ms, x) <==> start <= x < Reach(start, end, n)
    decreases n
  {
    hide Masked.Covers, Masked.Valid, IsStretch;
    if n == 0 {
      ms := [];
    } else {
      ms := ReachedByRegions(start, end, n - 1);
      var x, r := Reach(start, end, n - 1), Reach(start, end, n);
      if r > x {
        var low: nat :| start <= low <= x && IsStretch(low, r);
        var m := RegionFor(low, r);
        forall y: nat
          ensures MaskCovered(ms + [m], y) <==> start <= y < r
        {
          CoveredByOneMore(ms, m, y);
        }
        ms := ms + [m];
      }
    }
  }

  lemma RegionFor(low: nat, high: nat) returns (m: Masked)
    requires IsStretch(low, high)
    ensures m.Valid() && forall x: nat :: m.Covers(x) <==> low <= x < high
  {
    hide Masked.Covers, Masked.Valid, Stretch;
    var b: Block :| Stretch(b, low, high);
    m := StretchMask(b, low, high);
  }

  lemma CoveredByOneMore(ms: seq<Masked>, m: Masked, x: nat)
    ensures MaskCovered(ms + [m], x) <==> MaskCovered(ms, x) || m.Covers(x)
  {
    hide Masked.Covers;
    if MaskCovered(ms + [m], x) {
      var i :| 0 <= i < |ms + [m]| && (ms + [m])[i].Covers(x);
      assert i < |ms| ==> ms[i].Covers(x);
    }
    if MaskCovered(ms, x) {
      var i :| 0 <= i < |ms| && ms[i].Covers(x);
      assert (ms + [m])[i].Covers(x);
    }
    if m.Covers(x) { assert (ms + [m])[|ms|].Covers(x); }
  }

  /** The region covers where step `k` begins, and nothing from where it leads on. */
  ghost predicate Chosen(m: Masked, start: nat, end: nat, k: nat)
    requires start <= end
  {
    m.Covers(Reach(start, end, k)) && forall x: nat :: m.Covers(x) ==> x < Reach(start, end, k + 1)
  }

  /** No region of a cover extends beyond a furthest step from an address that it covers. */
  lemma ChooseRegion(ms: seq<Masked>, start: nat, size: nat, budget: nat, k: nat) returns (i: nat)
    requires MaskedCover(ms, start, size, budget) && Reach(start, start + size, k) < start + size
    ensures i < |ms| && Chosen(ms[i], start, start + size, k)
  {
    hide Masked.Covers, Masked.Valid, IsStretch, Furthest;
    var end := start + size;
    var p := Reach(start, end, k);
    assert MaskCovered(ms, p);
    i :| i < |ms| && ms[i].Covers(p);
    var m := ms[i];
    forall x: nat | m.Covers(x)
      ensures start <= x < end
    {
      assert ms[i].Covers(x);
      assert MaskCovered(ms, x);
    }
    var low, high := CoveredStretch(m, start, end, p);
    assert Reaches(start, p, high);
    assert high <= Furthest(start, p, end);
  }

  lemma {:induction false} ChooseRegions(ms: seq<Masked>, start: nat, size: nat, budget: nat, n: nat) returns (chosen: seq<nat>)
    requires MaskedCover(ms, start, size, budget) && (n > 0 ==> Reach(start, start + size, n - 1) < start + size)
    ensures |chosen| == n && forall k :: 0 <= k < n ==> chosen[k] < |ms| && Chosen(ms[chosen[k]], start, start + size, k)
    decreases n
  {
    hide MaskedCover, Chosen, Reach;
    chosen := [];
    if n > 0 {
      if n > 1 { ReachGrows(start, start + size, n - 2, n - 1); }
      chosen := ChooseRegions(ms, start, size, budget, n - 1);
      var i := ChooseRegion(ms, start, size, budget, n - 1);
      chosen := chosen + [i];
    }
  }

  lemma ChosenDiffer(m: Masked, start: nat, end: nat, k: nat, l: nat)
    requires start <= end && k < l && Chosen(m, start, end, k)
    ensures !Chosen(m, start, end, l)
  {
    hide Masked.Covers, Reach;
    ReachGrows(start, end, k + 1, l);
  }

  /** The exact minimum: a window is the union of `n` regions, each with any subregions disabled, exactly when `n` steps
      that extend furthest reach its end. */
  lemma CoverableIffReached(start: nat, size: nat, n: nat)
    ensures MaskedCoverable(start, size, n) <==> Reach(start, start + size, n) == start + size
  {
    hide Reach, Chosen, Masked.Covers, Masked.Valid;
    var end := start + size;
    if Reach(start, end, n) == end {
      var ms := ReachedByRegions(start, end, n);
      assert MaskedCover(ms, start, size, n);
    }
    if MaskedCoverable(start, size, n) && Reach(start, end, n) < end {
      var ms: seq<Masked> :| MaskedCover(ms, start, size, n);
      var chosen := ChooseRegions(ms, start, size, n, n + 1);
      forall k, l | 0 <= k < l < n + 1
        ensures chosen[k] != chosen[l]
      {
        ChosenDiffer(ms[chosen[k]], start, end, k, l);
      }
      DistinctBounded(chosen, |ms|);
    }
  }
}
