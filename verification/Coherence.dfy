/** Runs of the cached machine: processor accesses, line fills and evictions that the hardware may do at any
    time, single maintenance register writes and the SCB_ cache functions, against the flat memory a program reasons
    about. */
module Coherence {
  import opened Cache
  import opened SweepOrder

  type Operand = op: nat | op < 0x1_0000_0000
  /** The maintenance registers that write dirty data back. */
  type CleanRegister = r: Register | !r.effect.Invalidate? witness BySetWay(Clean)

  datatype Event =
    | Load(line: LineAddress, word: nat)
    | Store(line: LineAddress, word: nat, value: nat)
    | Linefill(line: LineAddress, way: nat)
    | Evict(i: nat, way: nat)
    | WriteBack(i: nat, way: nat)
    | Maintain(register: CleanRegister, operand: Operand)
    | EnableDCache
    | DisableDCache
    | CleanDCache
    | CleanInvalidateDCache
    | CleanDCacheByAddr(address: nat, size: int)
    | CleanInvalidateDCacheByAddr(address: nat, size: int)

  datatype Output = Nothing | Value(v: nat)

  // ---------- the functions of core_cm7.h ----------

  /** SCB_EnableDCache: return if already enabled; otherwise invalidate everything and switch on. */
  ghost function Enabled(s: State): (t: State)
    requires Nameable(s)
    ensures Nameable(t) && t.on && |t.sets| == |s.sets| && |t.sets[0]| == |s.sets[0]|
  {
    if s.on then s else Sweep(s, Invalidate).(on := true)
  }

  /** SCB_DisableDCache: switch off first, then clean and invalidate everything. */
  ghost function Disabled(s: State): (t: State)
    requires Nameable(s)
    ensures Nameable(t) && !t.on && |t.sets| == |s.sets| && |t.sets[0]| == |s.sets[0]|
  {
    Sweep(s.(on := false), CleanInvalidate)
  }

  /** The by-address functions do nothing for a size that is not positive. */
  ghost function OverRange(s: State, e: Effect, address: nat, size: int): (t: State)
    requires Nameable(s)
    ensures Nameable(t) && t.on == s.on
  {
    if size > 0 then ApplyAll(s, ByAddress(e), RangeWords(address, RangeCount(address, size))) else s
  }

  // ---------- processor and hardware steps ----------

  /** What the processor reads: through the cache when it is on, straight from memory when it is off. */
  function ProcessorView(s: State, a: LineAddress): Data
    requires s.Shaped()
  {
    if s.on then View(s, a) else s.memory[a]
  }

  /** Write-back without write allocation: a hit makes the line dirty, a miss goes to memory. */
  function Stored(s: State, a: LineAddress, k: nat, v: nat): (t: State)
    requires s.Shaped() && k < 8
    ensures t.on == s.on
  {
    if s.on && Hit(s, a) then
      var i, w := s.SetOf(a), Way(s, a);
      SetLine(s, i, w, s.sets[i][w].(dirty := true, data := s.sets[i][w].data[k := v]))
    else s.(memory := s.memory[a := s.memory[a][k := v]])
  }

  /** A line fill copies a line that is not cached into an invalid way. */
  function Filled(s: State, a: LineAddress, w: nat): (t: State)
    requires s.Shaped()
  {
    if s.on && !Hit(s, a) && s.InCache(s.SetOf(a), w) && !s.sets[s.SetOf(a)][w].valid then
      SetLine(s, s.SetOf(a), w, Line(true, false, a, s.memory[a]))
    else s
  }

  ghost function Step(s: State, e: Event): State
    requires Nameable(s)
  {
    match e
    case Load(_, _) => s
    case Store(a, k, v) => if k < 8 then Stored(s, a, k, v) else s
    case Linefill(a, w) => Filled(s, a, w)
    case Evict(i, w) => if s.InCache(i, w) then Do(s, CleanInvalidate, i, w) else s
    case WriteBack(i, w) => if s.InCache(i, w) then Do(s, Clean, i, w) else s
    case Maintain(r, op) => Apply(s, r, op)
    case EnableDCache => Enabled(s)
    case DisableDCache => Disabled(s)
    case CleanDCache => Sweep(s, Clean)
    case CleanInvalidateDCache => Sweep(s, CleanInvalidate)
    case CleanDCacheByAddr(address, size) => OverRange(s, Clean, address, size)
    case CleanInvalidateDCacheByAddr(address, size) => OverRange(s, CleanInvalidate, address, size)
  }

  function Observe(s: State, e: Event): Output
    requires s.Shaped()
  {
    if e.Load? && e.word < 8 then Value(ProcessorView(s, e.line)[e.word]) else Nothing
  }

  // ---------- flat memory ----------

  /** Flat memory knows only loads and stores. */
  function FlatStep(m: seq<Data>, e: Event): (n: seq<Data>)
    requires |m| == LINES
    ensures |n| == LINES
  {
    if e.Store? && e.word < 8 then m[e.line := m[e.line][e.word := e.value]] else m
  }

  function FlatObserve(m: seq<Data>, e: Event): Output
    requires |m| == LINES
  {
    if e.Load? && e.word < 8 then Value(m[e.line][e.word]) else Nothing
  }

  ghost predicate Refines(s: State, m: seq<Data>) {
    && Nameable(s) && s.Coherent() && |m| == LINES
    && forall a: LineAddress :: ProcessorView(s, a) == m[a]
  }

  // ---------- single steps refine flat memory ----------

  lemma StoreRefines(s: State, m: seq<Data>, a: LineAddress, k: nat, v: nat)
    requires Refines(s, m) && k < 8
    ensures Refines(Stored(s, a, k, v), m[a := m[a][k := v]])
  {
    var t, n := Stored(s, a, k, v), m[a := m[a][k := v]];
    if s.on && Hit(s, a) {
      var i, w := s.SetOf(a), Way(s, a);
      var line := s.sets[i][w].(dirty := true, data := s.sets[i][w].data[k := v]);
      SetLineFrame(s, i, w, line);
      assert t.Consistent();
      forall b: LineAddress
        ensures View(t, b) == n[b]
      {
        assert ProcessorView(s, b) == m[b];
        if Hit(s, b) {
          assert s.InCache(s.SetOf(b), Way(s, b)) && t.InCache(s.SetOf(b), Way(s, b));
          ViewOfHolder(t, s.SetOf(b), Way(s, b));
        } else {
          assert s.InCache(i, w);
          ViewOfMiss(t, b);
        }
      }
    } else {
      forall b: LineAddress
        ensures ProcessorView(t, b) == n[b]
      {
        assert ProcessorView(s, b) == m[b];
        assert t.sets == s.sets;
      }
      assert t.CleanAgrees() by {
        forall j, u | t.InCache(j, u) && t.sets[j][u].valid && !t.sets[j][u].dirty
          ensures t.sets[j][u].data == t.memory[t.sets[j][u].address]
        {
          assert s.InCache(j, u);
          if s.on { ViewOfHolder(s, j, u); }
        }
      }
    }
  }

  lemma FillRefines(s: State, m: seq<Data>, a: LineAddress, w: nat)
    requires Refines(s, m)
    ensures Refines(Filled(s, a, w), m)
  {
    var t := Filled(s, a, w);
    if t != s {
      var i := s.SetOf(a);
      SetLineFrame(s, i, w, Line(true, false, a, s.memory[a]));
      assert forall v :: s.InCache(i, v) ==> !s.sets[i][v].Holds(a);
      assert t.Consistent();
      forall b: LineAddress
        ensures View(t, b) == m[b]
      {
        assert ProcessorView(s, b) == m[b];
        if b == a {
          ViewOfHolder(t, i, w);
        } else if Hit(s, b) {
          assert s.InCache(s.SetOf(b), Way(s, b)) && t.InCache(s.SetOf(b), Way(s, b));
          ViewOfHolder(t, s.SetOf(b), Way(s, b));
        } else {
          ViewOfMiss(t, b);
        }
      }
    }
  }

  lemma LineRefines(s: State, m: seq<Data>, e: Effect, i: nat, w: nat)
    requires Refines(s, m) && s.InCache(i, w) && !e.Invalidate?
    ensures Refines(Do(s, e, i, w), m)
  {
    var t := Do(s, e, i, w);
    var zero: LineAddress := 0;
    DoKeepsView(s, e, i, w, zero);
    forall a: LineAddress
      ensures ProcessorView(t, a) == m[a]
    {
      assert ProcessorView(s, a) == m[a];
      DoKeepsView(s, e, i, w, a);
      if !s.on { EmptyView(s, a); }
    }
    forall j, v | t.InCache(j, v) && !s.on
      ensures !t.sets[j][v].valid
    {
      assert s.InCache(j, v);
      assert s.InCache(i, w);
    }
  }

  /** One write of a maintenance register that cleans. */
  lemma MaintainRefines(s: State, m: seq<Data>, r: CleanRegister, op: Operand)
    requires Refines(s, m)
    ensures Refines(Apply(s, r, op), m)
  {
    hide Refines, SetField, WayField, Do;
    assert s.Shaped() by { RefinesShaped(s, m); }
    if Selects(s, r, op) {
      LineRefines(s, m, r.effect, SelectedSet(s, r, op), SelectedWay(s, r, op));
    }
  }

  lemma RefinesShaped(s: State, m: seq<Data>)
    requires Refines(s, m)
    ensures s.Shaped()
  {
  }

  lemma SweepRefines(s: State, m: seq<Data>, e: Effect)
    requires Refines(s, m) && !e.Invalidate?
    ensures Refines(Sweep(s, e), m) && Sweep(s, e).memory == m
  {
    hide Sweep;
    var t := Sweep(s, e);
    forall a: LineAddress
      ensures View(t, a) == m[a] == t.memory[a] && t.Consistent() && (e.CleanInvalidate? ==> t.Empty())
    {
      assert ProcessorView(s, a) == m[a];
      if !s.on { EmptyView(s, a); }
      SweepCleans(s, e, a);
    }
    var zero: LineAddress := 0;
    assert View(t, zero) == m[zero];
    if !s.on {
      EmptyStaysEmpty(s, e);
    }
  }

  lemma EmptyStaysEmpty(s: State, e: Effect)
    requires Nameable(s) && s.Empty()
    ensures Sweep(s, e).Empty()
  {
    hide SetWayWord, SweepWords;
    SweepOperands(|s.sets| - 1, |s.sets[0]| - 1);
    StaysEmpty(s, BySetWay(e), SweepWords(|s.sets| - 1, |s.sets[0]| - 1));
  }

  lemma {:induction false} StaysEmpty(s: State, r: Register, ops: seq<nat>)
    requires s.Shaped() && Operands(ops) && s.Empty()
    ensures ApplyAll(s, r, ops).Empty()
    decreases |ops|
  {
    if ops != [] {
      var t := Apply(s, r, ops[0]);
      forall j, v | t.InCache(j, v)
        ensures !t.sets[j][v].valid
      {
        assert s.InCache(j, v);
        if Selects(s, r, ops[0]) {
          var i, w := SelectedSet(s, r, ops[0]), SelectedWay(s, r, ops[0]);
          assert s.InCache(i, w);
          SetLineFrame(s, i, w, s.sets[i][w].(valid := false));
        }
      }
      StaysEmpty(t, r, ops[1..]);
    }
  }

  lemma RangeRefines(s: State, m: seq<Data>, e: Effect, address: nat, size: int)
    requires Refines(s, m) && !e.Invalidate?
    ensures Refines(OverRange(s, e, address, size), m)
  {
    if size > 0 {
      hide RangeWords, Sweep;
      var ops := RangeWords(address, RangeCount(address, size));
      var t := ApplyAll(s, ByAddress(e), ops);
      forall a: LineAddress
        ensures View(t, a) == View(s, a) && t.Consistent()
      {
        ApplyAllKeepsView(s, ByAddress(e), ops, a);
      }
      var zero: LineAddress := 0;
      assert View(t, zero) == View(s, zero);
      if !s.on {
        StaysEmpty(s, ByAddress(e), ops);
      }
      forall a: LineAddress
        ensures ProcessorView(t, a) == m[a]
      {
        assert ProcessorView(s, a) == m[a];
        if !s.on {
          EmptyView(s, a);
          EmptyView(t, a);
        }
      }
    }
  }

  /** Enabling from off, whatever the cache contains: the program sees memory as it was. */
  lemma EnableRefines(s: State)
    requires Nameable(s) && !s.on
    ensures Refines(Enabled(s), s.memory) && Enabled(s).memory == s.memory
  {
    hide Sweep;
    SweepInvalidates(s);
    forall a: LineAddress
      ensures View(Enabled(s), a) == s.memory[a]
    {
      EmptyView(Enabled(s), a);
    }
  }

  lemma DisableRefines(s: State, m: seq<Data>)
    requires Refines(s, m)
    ensures Refines(Disabled(s), m) && Disabled(s).memory == m
  {
    hide Sweep;
    var t, off := Disabled(s), s.(on := false);
    forall a: LineAddress
      ensures View(t, a) == m[a] == t.memory[a] && t.Consistent() && t.Empty()
    {
      assert ProcessorView(s, a) == m[a];
      if !s.on { EmptyView(s, a); }
      assert View(off, a) == View(s, a);
      SweepCleans(off, CleanInvalidate, a);
    }
    var zero: LineAddress := 0;
    assert View(t, zero) == m[zero];
  }

  /** Every step of the cached machine is the same step of flat memory, and shows the program the same value. */
  lemma StepRefines(s: State, m: seq<Data>, e: Event)
    requires Refines(s, m)
    ensures Refines(Step(s, e), FlatStep(m, e)) && Observe(s, e) == FlatObserve(m, e)
  {
    hide Sweep, OverRange, Disabled;
    match e
    case Load(a, k) => assert ProcessorView(s, a) == m[a];
    case Store(a, k, v) => if k < 8 { StoreRefines(s, m, a, k, v); }
    case Linefill(a, w) => FillRefines(s, m, a, w);
    case Evict(i, w) => if s.InCache(i, w) { LineRefines(s, m, CleanInvalidate, i, w); }
    case WriteBack(i, w) => if s.InCache(i, w) { LineRefines(s, m, Clean, i, w); }
    case Maintain(r, op) => MaintainRefines(s, m, r, op);
    case EnableDCache =>
      if !s.on {
        EnableRefines(s);
        OffMemory(s, m);
      }
    case DisableDCache => DisableRefines(s, m);
    case CleanDCache => SweepRefines(s, m, Clean);
    case CleanInvalidateDCache => SweepRefines(s, m, CleanInvalidate);
    case CleanDCacheByAddr(address, size) => RangeRefines(s, m, Clean, address, size);
    case CleanInvalidateDCacheByAddr(address, size) => RangeRefines(s, m, CleanInvalidate, address, size);
  }

  // ---------- whole runs ----------

  /** The final state of a run and everything the program observed on the way. */
  ghost function Run(s: State, events: seq<Event>): (r: (State, seq<Output>))
    requires Nameable(s)
    decreases |events|
  {
    if events == [] then (s, [])
    else
      StepNameable(s, events[0]);
      var r := Run(Step(s, events[0]), events[1..]);
      (r.0, [Observe(s, events[0])] + r.1)
  }

  function FlatRun(m: seq<Data>, events: seq<Event>): (r: (seq<Data>, seq<Output>))
    requires |m| == LINES
    ensures |r.0| == LINES
    decreases |events|
  {
    if events == [] then (m, [])
    else
      var r := FlatRun(FlatStep(m, events[0]), events[1..]);
      (r.0, [FlatObserve(m, events[0])] + r.1)
  }

  lemma StepNameable(s: State, e: Event)
    requires Nameable(s)
    ensures Nameable(Step(s, e))
  {
    hide Sweep, OverRange, Disabled, Enabled;
  }

  lemma {:induction false} RunRefines(s: State, m: seq<Data>, events: seq<Event>)
    requires Refines(s, m)
    ensures Refines(Run(s, events).0, FlatRun(m, events).0)
    ensures Run(s, events).1 == FlatRun(m, events).1
    decreases |events|
  {
    hide Step, FlatStep, Observe, FlatObserve;
    if events != [] {
      StepRefines(s, m, events[0]);
      RunRefines(Step(s, events[0]), FlatStep(m, events[0]), events[1..]);
    }
  }

  /** From power-up, with the cache off and its contents arbitrary: once SCB_EnableDCache has run, every later
      run shows the program exactly what flat memory would. */
  lemma RunsReadFlatMemory(s: State, events: seq<Event>)
    requires Nameable(s) && !s.on
    ensures Run(Enabled(s), events).1 == FlatRun(s.memory, events).1
  {
    EnableRefines(s);
    RunRefines(Enabled(s), s.memory, events);
  }

  /** At the end of such a run, SCB_DisableDCache or a whole-cache clean leaves flat memory in the backing memory. */
  lemma RunsReachMemory(s: State, events: seq<Event>, last: Event)
    requires Nameable(s) && !s.on
    requires last.DisableDCache? || last.CleanDCache? || last.CleanInvalidateDCache?
    ensures Nameable(Run(Enabled(s), events).0)
    ensures Step(Run(Enabled(s), events).0, last).memory == FlatRun(s.memory, events).0
  {
    hide Sweep, Disabled, Run, FlatRun;
    EnableRefines(s);
    RunRefines(Enabled(s), s.memory, events);
    var t, m := Run(Enabled(s), events).0, FlatRun(s.memory, events).0;
    match last
    case DisableDCache => DisableRefines(t, m);
    case CleanDCache => SweepRefines(t, m, Clean);
    case CleanInvalidateDCache => SweepRefines(t, m, CleanInvalidate);
  }

  // ---------- transfers by other bus masters ----------

  /** After a clean by address, another bus master reads the program's data from memory in the whole range. */
  lemma CleanRangeReachesMemory(s: State, m: seq<Data>, e: Effect, address: nat, size: int, a: LineAddress)
    requires Refines(s, m) && !e.Invalidate? && size > 0 && address + size <= 0x1_0000_0000 && Meets(a, address, size)
    ensures OverRange(s, e, address, size).memory[a] == m[a]
  {
    hide ApplyAll, RangeWords;
    var ops := RangeWords(address, RangeCount(address, size));
    RangeTouchesExactly(address, size, a);
    var k :| 0 <= k < |ops| && ops[k] / 32 == a;
    RangeCleans(s, e, ops, k);
    assert ProcessorView(s, a) == m[a];
    if !s.on { EmptyView(s, a); }
  }

  /** After an invalidate by address, the program reads the range from memory; outside it keeps what it had. */
  lemma InvalidateRangeReadsMemory(s: State, address: nat, size: int, a: LineAddress)
    requires Nameable(s) && s.Consistent() && size > 0 && address + size <= 0x1_0000_0000
    ensures var t := OverRange(s, Invalidate, address, size);
      && t.Consistent() && t.memory == s.memory
      && View(t, a) == if Meets(a, address, size) then s.memory[a] else View(s, a)
  {
    hide ApplyAll, RangeWords;
    RangeTouchesExactly(address, size, a);
    RangeInvalidates(s, RangeWords(address, RangeCount(address, size)), a);
  }

  // ---------- the guard before SCB_DisableDCache ----------

  /** The memory the program sees, line by line. */
  ghost function ProgramMemory(s: State): (m: seq<Data>)
    requires s.Shaped()
    ensures |m| == LINES
  {
    seq(LINES, a requires 0 <= a < LINES => ProcessorView(s, a))
  }

  lemma RefinesOwnMemory(s: State)
    requires Nameable(s) && s.Coherent()
    ensures Refines(s, ProgramMemory(s))
  {
  }

  lemma RefinedMemory(s: State, m: seq<Data>)
    requires Refines(s, m)
    ensures ProgramMemory(s) == m
  {
    forall a | 0 <= a < LINES
      ensures ProgramMemory(s)[a] == m[a]
    {
      var b: LineAddress := a;
      assert ProcessorView(s, b) == m[b];
    }
  }

  lemma OffMemory(s: State, m: seq<Data>)
    requires Refines(s, m) && !s.on
    ensures s.memory == m
  {
    RefinedMemory(s, m);
    assert ProgramMemory(s) == s.memory;
  }

  /** Disabling only a cache that is on, and enabling it again, keeps the program's memory from any state:
      a consistent cache that is on, or a cache that is off with arbitrary contents. */
  lemma GuardedRestart(s: State)
    requires Nameable(s) && (s.on ==> s.Consistent())
    ensures var off := if s.on then Disabled(s) else s;
      && !off.on && off.memory == ProgramMemory(s)
      && Refines(Enabled(off), ProgramMemory(s)) && Enabled(off).on
  {
    hide Sweep, View;
    if s.on {
      RefinesOwnMemory(s);
      DisableRefines(s, ProgramMemory(s));
      EnableRefines(Disabled(s));
    } else {
      assert ProgramMemory(s) == s.memory;
      EnableRefines(s);
    }
  }

  /** Whatever the cache contains, it is empty after SCB_DisableDCache, and the program sees memory. */
  lemma DisabledRefines(s: State)
    requires Nameable(s)
    ensures Refines(Disabled(s), Disabled(s).memory)
  {
    hide Sweep;
    var off, t := s.(on := false), Disabled(s);
    forall j, v | t.InCache(j, v)
      ensures !t.sets[j][v].valid
    {
      assert off.InCache(j, v);
      SweepSettles(off, CleanInvalidate, j, v);
    }
  }

  /** Memory after SCB_DisableDCache, from any cache contents: each line that some dirty line of the cache holds gets the
      data of the one that the sweep names last, and every other line is unchanged. */
  lemma DisabledMemory(s: State, a: LineAddress)
    requires Nameable(s)
    ensures (forall i, w :: !Dirty(s, i, w, a)) ==> Disabled(s).memory[a] == s.memory[a]
    ensures forall i, w :: LastDirty(s, i, w, a) ==> Disabled(s).memory[a] == s.sets[i][w].data
  {
    hide Sweep;
    var off := s.(on := false);
    assert forall i, w :: Dirty(off, i, w, a) <==> Dirty(s, i, w, a);
    assert forall i, w :: LastDirty(s, i, w, a) ==> LastDirty(off, i, w, a);
    SweepMemory(off, a);
  }

  /** The dirty lines that a sweep names last for their addresses equal memory. */
  ghost predicate Harmless(s: State)
    requires s.Shaped()
  {
    forall i, w, a: LineAddress :: LastDirty(s, i, w, a) ==> s.sets[i][w].data == s.memory[a]
  }

  /** SCB_DisableDCache on a cache that is off, with any contents, preserves memory exactly when those lines equal
      memory. */
  lemma DisableFromOffPreserves(s: State)
    requires Nameable(s) && !s.on
    ensures Disabled(s).memory == s.memory <==> Harmless(s)
  {
    hide Disabled, Dirty;
    if Harmless(s) {
      forall a: LineAddress
        ensures Disabled(s).memory[a] == s.memory[a]
      {
        DisabledMemory(s, a);
        if i, w :| Dirty(s, i, w, a) {
          DirtyIndices(s, i, w, a);
          var j, v := FindLast(s, i, w, a);
          assert LastDirty(s, j, v, a);
        }
      }
    }
    if Disabled(s).memory == s.memory {
      forall i, w, a: LineAddress | LastDirty(s, i, w, a)
        ensures s.InCache(i, w) && s.sets[i][w].data == s.memory[a]
      {
        DirtyIndices(s, i, w, a);
        DisabledMemory(s, a);
      }
    }
  }

  /** A cache of one line that is off and holds a dirty line for line 0, in front of a memory of zeros. */
  ghost function OffWithDirtyLine(data: Data): State {
    State(false, [[Line(true, true, 0, data)]], seq(LINES, _ => [0, 0, 0, 0, 0, 0, 0, 0]))
  }

  /** So the unguarded call does overwrite memory: with the dirty line's data, whatever they are. */
  lemma UnguardedDisableOverwrites(data: Data)
    ensures var s := OffWithDirtyLine(data);
      && Nameable(s) && !s.on && s.Consistent()
      && s.memory[0] == [0, 0, 0, 0, 0, 0, 0, 0] && Disabled(s).memory[0] == data
      && (Disabled(s).memory == s.memory ==> data == [0, 0, 0, 0, 0, 0, 0, 0])
  {
    hide Disabled;
    var s := OffWithDirtyLine(data);
    var zero: LineAddress := 0;
    assert LastDirty(s, 0, 0, zero);
    DisabledMemory(s, zero);
  }

  ghost predicate DirtyLinesEqualMemory(s: State)
    requires s.Shaped()
  {
    forall i, w, a: LineAddress :: Dirty(s, i, w, a) ==> s.sets[i][w].data == s.memory[a]
  }

  /** It is enough that every dirty line equals memory, and necessary when no address is held by two dirty lines, as in
      a consistent cache. */
  lemma HarmlessWhenEqual(s: State)
    requires s.Shaped()
    ensures DirtyLinesEqualMemory(s) ==> Harmless(s)
    ensures s.Consistent() ==> (Harmless(s) <==> DirtyLinesEqualMemory(s))
  {
    if s.Consistent() && Harmless(s) {
      forall i, w, a: LineAddress | Dirty(s, i, w, a)
        ensures s.sets[i][w].data == s.memory[a]
      {
        forall j, v | Later(j, v, i, w)
          ensures !Dirty(s, j, v, a)
        {
        }
        assert LastDirty(s, i, w, a);
      }
    }
  }
}
