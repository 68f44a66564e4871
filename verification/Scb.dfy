/** The system control block as the cache functions of core_cm7.h use it: cache selection, size and
    maintenance registers in front of the cache. Every write to them and to memory is recorded in order. */
module Scb {
  import opened Bits
  import opened Cache
  import opened Coherence
  import opened Trace

  function CcsidrSets(ccsidr: nat): nat { Shr(And(ccsidr, Shl(Ones(15), 13)), 13) }
  function CcsidrWays(ccsidr: nat): nat { Shr(And(ccsidr, Shl(Ones(10), 3)), 3) }

  /** The fields are NumSets in bits 27 to 13 and Associativity in bits 12 to 3. */
  lemma CcsidrFields(ccsidr: nat)
    ensures CcsidrSets(ccsidr) == ccsidr / 0x2000 % 0x8000
    ensures CcsidrWays(ccsidr) == ccsidr / 8 % 0x400
  {
    hide And, Shl, Shr, Low;
    Pow2Add(5, 5);
    Pow2Add(5, 10);
    Pow2Add(5, 8);
    AndField(ccsidr, 15, 13);
    AndField(ccsidr, 10, 3);
    AsDivMod(ccsidr, 13, 0x2000);
    AsDivMod(ccsidr, 3, 8);
    AsDivMod(ccsidr / 0x2000, 15, 0x8000);
    AsDivMod(ccsidr / 8, 10, 0x400);
    ShrShl(ccsidr / 0x2000 % 0x8000, 13);
    ShrShl(ccsidr / 8 % 0x400, 3);
  }

  lemma {:induction false} ApplyAllSnoc(s: State, r: Register, ops: seq<nat>, op: nat)
    requires s.Shaped() && Operands(ops) && op < 0x1_0000_0000
    ensures ApplyAll(s, r, ops + [op]) == Apply(ApplyAll(s, r, ops), r, op)
    decreases |ops|
  {
    if ops != [] {
      assert (ops + [op])[1..] == ops[1..] + [op];
      ApplyAllSnoc(Apply(s, r, ops[0]), r, ops[1..], op);
    }
  }

  /** The operands still to come when the countdowns stand at `sets` and `ways`. */
  function Remaining(sets: nat, ways: nat, ways0: nat): seq<nat> {
    WayWords(sets, ways) + if sets == 0 then [] else SweepWords(sets - 1, ways0)
  }

  /** What comes after the next operand. */
  function After(sets: nat, ways: nat, ways0: nat): seq<nat> {
    if ways > 0 then Remaining(sets, ways - 1, ways0)
    else if sets > 0 then Remaining(sets - 1, ways0, ways0)
    else []
  }

  lemma RemainingHead(sets: nat, ways: nat, ways0: nat)
    ensures Remaining(sets, ways, ways0) == [SetWayWord(sets, ways)] + After(sets, ways, ways0)
  {
    hide SetWayWord;
  }

  /** Issuing the next operand moves the countdowns on by one. */
  lemma RemainingStep(done: seq<nat>, sets: nat, ways: nat, ways0: nat)
    ensures done + Remaining(sets, ways, ways0) == done + [SetWayWord(sets, ways)] + After(sets, ways, ways0)
  {
    hide SetWayWord, Remaining, After;
    RemainingHead(sets, ways, ways0);
  }

  /** From cache `s0` and log `log0`, writing `done` to register `r` has led to cache `s` and log `log`. */
  ghost predicate Reached(s0: State, log0: seq<Write>, r: Register, done: seq<nat>, s: State, log: seq<Write>) {
    s0.Shaped() && Operands(done) && s == ApplyAll(s0, r, done) && log == log0 + Accesses(r, done)
  }

  lemma ReachedStart(s0: State, log0: seq<Write>, r: Register)
    requires s0.Shaped()
    ensures Reached(s0, log0, r, [], s0, log0)
  {
  }

  lemma ReachedStep(s0: State, log0: seq<Write>, r: Register, done: seq<nat>, s: State, log: seq<Write>, op: nat)
    requires Reached(s0, log0, r, done, s, log) && op < 0x1_0000_0000
    ensures s.Shaped() && Reached(s0, log0, r, done + [op], Apply(s, r, op), log + [Maintenance(r, op)])
  {
    ApplyAllSnoc(s0, r, done, op);
    assert Accesses(r, done + [op]) == Accesses(r, done) + [Maintenance(r, op)];
  }

  /** Issuing all operands of a sweep is the whole-cache operation. */
  lemma SweepReached(s0: State, log0: seq<Write>, e: Effect, s: State, log: seq<Write>)
    requires Nameable(s0)
    requires Reached(s0, log0, BySetWay(e), Remaining(|s0.sets| - 1, |s0.sets[0]| - 1, |s0.sets[0]| - 1), s, log)
    ensures s == Sweep(s0, e)
    ensures log == log0 + Accesses(BySetWay(e), SweepWords(|s0.sets| - 1, |s0.sets[0]| - 1))
  {
    hide SetWayWord, ApplyAll, WayWords;
    assert SweepWords(|s0.sets| - 1, |s0.sets[0]| - 1) == Remaining(|s0.sets| - 1, |s0.sets[0]| - 1, |s0.sets[0]| - 1);
  }

  /** Issuing all operands of a range is the by-address operation. */
  lemma RangeReached(s0: State, log0: seq<Write>, e: Effect, addr: nat, dsize: int, k: nat, s: State, log: seq<Write>)
    requires Nameable(s0) && dsize > 0 && 32 * (k - 1) < dsize + addr % 32 <= 32 * k
    requires Reached(s0, log0, ByAddress(e), RangeWords(addr, k), s, log)
    ensures s == OverRange(s0, e, addr, dsize)
    ensures log == log0 + Accesses(ByAddress(e), RangeWords(addr, RangeCount(addr, dsize)))
  {
    hide ApplyAll, RangeWords;
    assert k == RangeCount(addr, dsize);
  }

  lemma OffsetInLine(addr: nat)
    ensures And(addr, Ones(5)) == addr % 32
  {
    AndOnes(addr, 5);
    AsDivMod(addr, 5, 32);
  }

  lemma NoRange(s: State, e: Effect, addr: nat, dsize: int)
    requires Nameable(s) && dsize <= 0
    ensures OverRange(s, e, addr, dsize) == s
  {
  }

  lemma RangeWordsNone(address: nat)
    ensures RangeWords(address, 0) == []
  {
  }

  lemma RangeWordsStep(address: nat, k: nat)
    ensures RangeWords(address, k + 1) == RangeWords(address, k) + [(address + 32 * k) % 0x1_0000_0000]
  {
  }

  /** The register writes of a whole-cache operation. */
  ghost function SweepWrites(s: State, e: Effect): seq<Write>
    requires s.Shaped()
  {
    Accesses(BySetWay(e), SweepWords(|s.sets| - 1, |s.sets[0]| - 1))
  }

  /** The operands depend on the size of the cache only. */
  lemma SameSizeSameWrites(s: State, t: State, e: Effect)
    requires s.Shaped() && t.Shaped() && |t.sets| == |s.sets| && |t.sets[0]| == |s.sets[0]|
    ensures SweepWrites(t, e) == SweepWrites(s, e)
  {
    hide SweepWords, Accesses;
  }

  class ControlBlock {
    var cache: State
    var csselr: nat
    const trace: Recorder
    /** The size registers of the level 1 data cache and of whatever other cache CSSELR may select. */
    const dataCcsidr: nat
    const otherCcsidr: nat

    constructor (trace: Recorder, cache: State, csselr: nat, dataCcsidr: nat, otherCcsidr: nat)
      requires Nameable(cache)
      requires CcsidrSets(dataCcsidr) == |cache.sets| - 1 && CcsidrWays(dataCcsidr) == |cache.sets[0]| - 1
      ensures Valid() && this.trace == trace && this.cache == cache && this.csselr == csselr
    {
      this.cache := cache;
      this.csselr := csselr;
      this.dataCcsidr := dataCcsidr;
      this.otherCcsidr := otherCcsidr;
      this.trace := trace;
    }

    /** The data cache's size register describes the cache. */
    ghost predicate Valid()
      reads this
    {
      && Nameable(cache)
      && CcsidrSets(dataCcsidr) == |cache.sets| - 1
      && CcsidrWays(dataCcsidr) == |cache.sets[0]| - 1
    }

    function Ccsidr(): nat
      reads this
    {
      if csselr == 0 then dataCcsidr else otherCcsidr
    }

    /** A write to a cache maintenance register. */
    method Maintain(r: Register, operand: nat)
      requires Valid() && operand < 0x1_0000_0000
      modifies this, trace
      ensures Valid() && csselr == old(csselr)
      ensures cache == Apply(old(cache), r, operand) && trace.writes == old(trace.writes) + [Maintenance(r, operand)]
    {
      hide CcsidrSets, CcsidrWays;
      cache := Apply(cache, r, operand);
      trace.writes := trace.writes + [Maintenance(r, operand)];
    }

    /** The nested countdown over sets and ways that the whole-cache functions share. */
    method ForEachSetAndWay(e: Effect, ccsidr: nat)
      requires Valid() && ccsidr == dataCcsidr
      modifies this, trace
      ensures Valid() && csselr == old(csselr)
      ensures cache == Sweep(old(cache), e)
      ensures trace.writes == old(trace.writes) + SweepWrites(old(cache), e)
    {
      hide SetWayWord, CcsidrSets, CcsidrWays, Apply, ApplyAll, Reached, Remaining, WayWords;
      ghost var s0, log0, r := cache, trace.writes, BySetWay(e);
      ghost var ways0, done := CcsidrWays(ccsidr), [];
      ghost var all := Remaining(CcsidrSets(ccsidr), ways0, ways0);
      ReachedStart(s0, log0, r);
      var sets := CcsidrSets(ccsidr);
      while true
        invariant Valid() && csselr == old(csselr)
        invariant done + Remaining(sets, ways0, ways0) == all && Reached(s0, log0, r, done, cache, trace.writes)
        decreases sets
      {
        var ways := CcsidrWays(ccsidr);
        while true
          invariant Valid() && csselr == old(csselr)
          invariant done + Remaining(sets, ways, ways0) == all && Reached(s0, log0, r, done, cache, trace.writes)
          decreases ways
        {
          SetWayWordFields(sets, ways);
          ReachedStep(s0, log0, r, done, cache, trace.writes, SetWayWord(sets, ways));
          RemainingStep(done, sets, ways, ways0);
          Maintain(BySetWay(e), SetWayWord(sets, ways));
          done := done + [SetWayWord(sets, ways)];
          if ways == 0 {
            break;
          }
          ways := ways - 1;
        }
        if sets == 0 {
          break;
        }
        sets := sets - 1;
      }
      assert done + [] == all;
      assert done == all;
      SweepReached(s0, log0, e, cache, trace.writes);
    }

    /** SCB_EnableDCache. */
    method EnableDCache()
      requires Valid()
      modifies this, trace
      ensures Valid() && cache == Enabled(old(cache))
      ensures csselr == if old(cache).on then old(csselr) else 0
      ensures trace.writes == old(trace.writes) +
        if old(cache).on then [] else [CacheSelect(0)] + SweepWrites(old(cache), Invalidate) + [CacheEnable(true)]
    {
      hide CcsidrSets, CcsidrWays, SweepWords, SetWayWord, Sweep, SweepWrites;
      if cache.on {
        return;
      }
      csselr := 0;
      trace.writes := trace.writes + [CacheSelect(0)];
      var ccsidr := Ccsidr();
      ForEachSetAndWay(Invalidate, ccsidr);
      cache := cache.(on := true);
      trace.writes := trace.writes + [CacheEnable(true)];
    }

    /** SCB_DisableDCache: the cache is switched off before it is cleaned. */
    method DisableDCache()
      requires Valid()
      modifies this, trace
      ensures Valid() && cache == Disabled(old(cache))
      ensures csselr == 0
      ensures trace.writes ==
        old(trace.writes) + [CacheSelect(0), CacheEnable(false)] + SweepWrites(old(cache), CleanInvalidate)
    {
      hide CcsidrSets, CcsidrWays, SweepWords, SetWayWord, Sweep, Accesses;
      csselr := 0;
      trace.writes := trace.writes + [CacheSelect(0)];
      cache := cache.(on := false);
      trace.writes := trace.writes + [CacheEnable(false)];
      var ccsidr := Ccsidr();
      ForEachSetAndWay(CleanInvalidate, ccsidr);
    }

    /** SCB_InvalidateDCache. */
    method InvalidateDCache()
      requires Valid()
      modifies this, trace
      ensures Valid() && cache == Sweep(old(cache), Invalidate)
      ensures trace.writes == old(trace.writes) + [CacheSelect(0)] + SweepWrites(old(cache), Invalidate)
    {
      csselr := 0;
      trace.writes := trace.writes + [CacheSelect(0)];
      var ccsidr := Ccsidr();
      ForEachSetAndWay(Invalidate, ccsidr);
    }

    /** SCB_CleanDCache. */
    method CleanDCache()
      requires Valid()
      modifies this, trace
      ensures Valid() && cache == Sweep(old(cache), Clean)
      ensures trace.writes == old(trace.writes) + [CacheSelect(0)] + SweepWrites(old(cache), Clean)
    {
      csselr := 0;
      trace.writes := trace.writes + [CacheSelect(0)];
      var ccsidr := Ccsidr();
      ForEachSetAndWay(Clean, ccsidr);
    }

    /** SCB_CleanInvalidateDCache. */
    method CleanInvalidateDCache()
      requires Valid()
      modifies this, trace
      ensures Valid() && cache == Sweep(old(cache), CleanInvalidate)
      ensures trace.writes == old(trace.writes) + [CacheSelect(0)] + SweepWrites(old(cache), CleanInvalidate)
    {
      csselr := 0;
      trace.writes := trace.writes + [CacheSelect(0)];
      var ccsidr := Ccsidr();
      ForEachSetAndWay(CleanInvalidate, ccsidr);
    }

    /** The three by-address functions; `dsize` is a signed 32-bit size and the sum below must not overflow. */
    method ByAddr(e: Effect, addr: nat, dsize: int)
      requires Valid() && addr < 0x1_0000_0000 && dsize + addr % 32 < 0x8000_0000
      modifies this, trace
      ensures Valid() && csselr == old(csselr)
      ensures cache == OverRange(old(cache), e, addr, dsize)
      ensures trace.writes == old(trace.writes) + Accesses(ByAddress(e), if dsize > 0 then RangeWords(addr, RangeCount(addr, dsize)) else [])
    {
      hide Apply, ApplyAll, Reached, And, Ones, Low, Shr, RangeWords, RangeCount, OverRange, CcsidrSets, CcsidrWays;
      if dsize <= 0 {
        NoRange(cache, e, addr, dsize);
      } else {
        OffsetInLine(addr);
        var opSize := dsize + And(addr, Ones(5));
        var opAddr := addr;
        ghost var s0, log0, r, k := cache, trace.writes, ByAddress(e), 0;
        RangeWordsNone(addr);
        ReachedStart(s0, log0, r);
        while true
          invariant Valid() && csselr == old(csselr)
          invariant 0 < opSize == dsize + addr % 32 - 32 * k && opAddr == (addr + 32 * k) % 0x1_0000_0000
          invariant Reached(s0, log0, r, RangeWords(addr, k), cache, trace.writes)
          decreases opSize
        {
          RangeWordsStep(addr, k);
          ReachedStep(s0, log0, r, RangeWords(addr, k), cache, trace.writes, opAddr);
          Maintain(ByAddress(e), opAddr);
          opAddr := (opAddr + 32) % 0x1_0000_0000;
          opSize := opSize - 32;
          k := k + 1;
          if opSize <= 0 {
            break;
          }
        }
        RangeReached(s0, log0, e, addr, dsize, k, cache, trace.writes);
      }
    }

    /** A processor load of the word at word address `a`. */
    method LoadWord(a: nat) returns (v: nat)
      requires Valid() && a < 8 * LINES
      ensures v == ProcessorView(cache, a / 8)[a % 8]
    {
      v := ProcessorView(cache, a / 8)[a % 8];
    }

    /** A processor store of a word. */
    method StoreWord(a: nat, v: nat)
      requires Valid() && a < 8 * LINES
      modifies this, trace
      ensures Valid() && cache == Stored(old(cache), a / 8, a % 8, v)
      ensures trace.writes == old(trace.writes) + [MemoryStore(a, v)]
    {
      hide CcsidrSets, CcsidrWays;
      cache := Stored(cache, a / 8, a % 8, v);
      trace.writes := trace.writes + [MemoryStore(a, v)];
    }
  }
}
