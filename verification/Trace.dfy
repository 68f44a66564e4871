/** The order of register and memory writes: one record that the MPU and the system control block share. */
module Trace {
  import Cache

  datatype Write =
    | MpuControl(value: nat)
    | MpuBase(value: nat)
    | MpuAttributes(value: nat)
    | CacheSelect(value: nat)
    | CacheEnable(on: bool)
    | Maintenance(register: Cache.Register, operand: nat)
    | MemoryStore(address: nat, value: nat)

  class Recorder {
    ghost var writes: seq<Write>

    constructor ()
      ensures writes == []
    {
      writes := [];
    }
  }

  /** Writes of a list of operands to one maintenance register. */
  function Accesses(r: Cache.Register, ops: seq<nat>): (ws: seq<Write>)
    ensures |ws| == |ops|
  {
    seq(|ops|, k requires 0 <= k < |ops| => Maintenance(r, ops[k]))
  }

  /** Base and attribute registers, and their aliases, written in turn. */
  function RegionWords(words: seq<nat>): (ws: seq<Write>)
    ensures |ws| == |words|
  {
    seq(|words|, i requires 0 <= i < |words| => if i % 2 == 0 then MpuBase(words[i]) else MpuAttributes(words[i]))
  }

  // ---------- no region register is written while the MPU or the data cache is on ----------

  predicate IsRegionWrite(w: Write) { w.MpuBase? || w.MpuAttributes? }

  function MpuAfter(w: Write, on: bool): bool { if w.MpuControl? then w.value % 2 == 1 else on }

  function CacheAfter(w: Write, on: bool): bool { if w.CacheEnable? then w.on else on }

  /** The switches after a list of writes. */
  function MpuOn(ws: seq<Write>, on: bool): bool
    decreases |ws|
  {
    if ws == [] then on else MpuAfter(ws[|ws| - 1], MpuOn(ws[..|ws| - 1], on))
  }

  function CacheOn(ws: seq<Write>, on: bool): bool
    decreases |ws|
  {
    if ws == [] then on else CacheAfter(ws[|ws| - 1], CacheOn(ws[..|ws| - 1], on))
  }

  /** A region register is written with both switches off, and the cache is switched on with the MPU on. */
  predicate Allowed(w: Write, mpu: bool, cache: bool) {
    (IsRegionWrite(w) ==> !mpu && !cache) && (w == CacheEnable(true) ==> mpu)
  }

  /** Every write is allowed in the state of the switches that the ones before it leave. */
  ghost predicate Guarded(ws: seq<Write>, mpu: bool, cache: bool) {
    forall k :: 0 <= k < |ws| ==> Allowed(ws[k], MpuOn(ws[..k], mpu), CacheOn(ws[..k], cache))
  }

  lemma {:induction false} SwitchesAppend(a: seq<Write>, b: seq<Write>, on: bool)
    ensures MpuOn(a + b, on) == MpuOn(b, MpuOn(a, on)) && CacheOn(a + b, on) == CacheOn(b, CacheOn(a, on))
    decreases |b|
  {
    if b == [] {
      assert a + b == a;
    } else {
      assert (a + b)[..|a + b| - 1] == a + b[..|b| - 1];
      SwitchesAppend(a, b[..|b| - 1], on);
    }
  }

  lemma GuardedAppend(a: seq<Write>, b: seq<Write>, mpu: bool, cache: bool)
    requires Guarded(a, mpu, cache) && Guarded(b, MpuOn(a, mpu), CacheOn(a, cache))
    ensures Guarded(a + b, mpu, cache)
  {
    forall k | 0 <= k < |a + b|
      ensures Allowed((a + b)[k], MpuOn((a + b)[..k], mpu), CacheOn((a + b)[..k], cache))
    {
      if k < |a| {
        assert (a + b)[..k] == a[..k];
      } else {
        assert (a + b)[..k] == a + b[..k - |a|];
        SwitchesAppend(a, b[..k - |a|], mpu);
        SwitchesAppend(a, b[..k - |a|], cache);
      }
    }
  }

  /** Writes that switch nothing. */
  ghost predicate SwitchNothing(ws: seq<Write>) {
    forall k :: 0 <= k < |ws| ==> !ws[k].MpuControl? && !ws[k].CacheEnable?
  }

  lemma {:induction false} SwitchesStay(ws: seq<Write>, on: bool)
    requires SwitchNothing(ws)
    ensures MpuOn(ws, on) == on && CacheOn(ws, on) == on
    decreases |ws|
  {
    if ws != [] {
      var k := |ws| - 1;
      assert !ws[k].MpuControl?;
      SwitchesStay(ws[..k], on);
    }
  }

  lemma QuietGuarded(ws: seq<Write>)
    requires SwitchNothing(ws)
    ensures Guarded(ws, false, false)
  {
    forall k | 0 <= k < |ws|
      ensures !MpuOn(ws[..k], false) && !CacheOn(ws[..k], false)
    {
      SwitchesStay(ws[..k], false);
    }
  }

  lemma HarmlessGuarded(ws: seq<Write>, mpu: bool, cache: bool)
    requires forall k :: 0 <= k < |ws| ==> !IsRegionWrite(ws[k]) && ws[k] != CacheEnable(true)
    ensures Guarded(ws, mpu, cache)
  {
  }

  /** Region writes between switching the MPU off and switching it on, with the cache off. */
  lemma MpuAround(off: nat, regions: seq<Write>, on: nat, mpu: bool)
    requires SwitchNothing(regions) && off % 2 == 0 && on % 2 == 1
    ensures var ws := [MpuControl(off)] + regions + [MpuControl(on)];
      Guarded(ws, mpu, false) && MpuOn(ws, mpu) && !CacheOn(ws, false)
  {
    hide MpuOn, CacheOn, Guarded, SwitchNothing;
    OneWrite(MpuControl(off), mpu);
    OneWrite(MpuControl(off), false);
    OneWrite(MpuControl(on), false);
    HarmlessGuarded([MpuControl(off)], mpu, false);
    HarmlessGuarded([MpuControl(on)], false, false);
    QuietGuarded(regions);
    SwitchesStay(regions, false);
    Joined([MpuControl(off)], regions, mpu, false);
    Joined([MpuControl(off)] + regions, [MpuControl(on)], mpu, false);
  }

  lemma OneWrite(w: Write, on: bool)
    ensures MpuOn([w], on) == MpuAfter(w, on) && CacheOn([w], on) == CacheAfter(w, on)
  {
    assert [w][..0] == [];
  }

  /** Guarded lists follow one another. */
  lemma Joined(a: seq<Write>, b: seq<Write>, mpu: bool, cache: bool)
    requires Guarded(a, mpu, cache) && Guarded(b, MpuOn(a, mpu), CacheOn(a, cache))
    ensures Guarded(a + b, mpu, cache)
    ensures MpuOn(a + b, mpu) == MpuOn(b, MpuOn(a, mpu)) && CacheOn(a + b, cache) == CacheOn(b, CacheOn(a, cache))
  {
    GuardedAppend(a, b, mpu, cache);
    SwitchesAppend(a, b, mpu);
    SwitchesAppend(a, b, cache);
  }
}
