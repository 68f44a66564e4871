/** The cleaning functions of core_cm7.h as the maintenance register writes they issue, with the processor and the cache
    hardware at work between any two of them: loads, stores to other lines, line fills, evictions and write-backs. */
module Interleaving {
  import opened Cache
  import opened SweepOrder
  import opened Coherence

  /** Everything but switching the cache on or off, whole functions, and stores to line `a`. */
  predicate Quiet(e: Event, a: LineAddress) {
    e.Load? || (e.Store? && e.line != a) || e.Linefill? || e.Evict? || e.WriteBack? || e.Maintain?
  }

  ghost predicate AllQuiet(events: seq<Event>, a: LineAddress) {
    forall k :: 0 <= k < |events| ==> Quiet(events[k], a)
  }

  predicate SameGeometry(s: State, t: State) {
    |t.sets| == |s.sets| && forall i :: 0 <= i < |s.sets| ==> |t.sets[i]| == |s.sets[i]|
  }

  lemma DoGeometry(s: State, e: Effect, i: int, w: int)
    requires s.Shaped() && s.InCache(i, w)
    ensures SameGeometry(s, Do(s, e, i, w))
  {
  }

  lemma StepGeometry(s: State, e: Event, a: LineAddress)
    requires Nameable(s) && Quiet(e, a)
    ensures SameGeometry(s, Step(s, e))
  {
    match e
    case Evict(i, w) => if s.InCache(i, w) { DoGeometry(s, CleanInvalidate, i, w); }
    case WriteBack(i, w) => if s.InCache(i, w) { DoGeometry(s, Clean, i, w); }
    case Maintain(r, op) => if Selects(s, r, op) { DoGeometry(s, r.effect, SelectedSet(s, r, op), SelectedWay(s, r, op)); }
    case _ =>
  }

  // ---------- the functions as their register writes ----------

  /** The register writes of one call, with nothing in between. */
  function Writes(r: CleanRegister, ops: seq<nat>): (events: seq<Event>)
    requires forall k :: 0 <= k < |ops| ==> ops[k] < 0x1_0000_0000
    ensures |events| == |ops| && forall k :: 0 <= k < |ops| ==> events[k] == Maintain(r, ops[k])
  {
    seq(|ops|, k requires 0 <= k < |ops| => Maintain(r, ops[k]))
  }

  lemma {:induction false} WritesRun(s: State, r: CleanRegister, ops: seq<nat>)
    requires Nameable(s) && Operands(ops)
    ensures Run(s, Writes(r, ops)).0 == ApplyAll(s, r, ops)
    decreases |ops|
  {
    hide Apply, Observe;
    if ops != [] {
      StepNameable(s, Maintain(r, ops[0]));
      assert Writes(r, ops)[1..] == Writes(r, ops[1..]);
      WritesRun(Apply(s, r, ops[0]), r, ops[1..]);
    }
  }

  /** The whole-cache event is the run of its register writes. */
  lemma SweepIsItsWrites(s: State, e: Effect)
    requires Nameable(s) && !e.Invalidate?
    ensures Operands(SweepWords(|s.sets| - 1, |s.sets[0]| - 1))
    ensures Run(s, Writes(BySetWay(e), SweepWords(|s.sets| - 1, |s.sets[0]| - 1))).0 == Sweep(s, e)
  {
    hide Run, Writes, SweepWords, SetWayWord, ApplyAll;
    SweepOperands(|s.sets| - 1, |s.sets[0]| - 1);
    WritesRun(s, BySetWay(e), SweepWords(|s.sets| - 1, |s.sets[0]| - 1));
  }

  // ---------- no dirty line of an address appears ----------

  lemma DoKeepsClean(s: State, e: Effect, i: int, w: int, j: int, v: int, a: LineAddress)
    requires s.Shaped() && s.InCache(i, w) && !Dirty(s, j, v, a)
    ensures !Dirty(Do(s, e, i, w), j, v, a)
  {
    DoGeometry(s, e, i, w);
    if s.InCache(j, v) { DoFrame(s, e, i, w, j, v); }
  }

  lemma StoreKeepsClean(s: State, b: LineAddress, k: nat, value: nat, j: int, v: int, a: LineAddress)
    requires s.Shaped() && k < 8 && a != b && !Dirty(s, j, v, a)
    ensures !Dirty(Stored(s, b, k, value), j, v, a)
  {
    if s.on && Hit(s, b) {
      var i, w := s.SetOf(b), Way(s, b);
      SetLineFrame(s, i, w, s.sets[i][w].(dirty := true, data := s.sets[i][w].data[k := value]));
      assert s.sets[i][w].Holds(b);
    }
  }

  lemma FillKeepsClean(s: State, b: LineAddress, w: nat, j: int, v: int, a: LineAddress)
    requires s.Shaped() && !Dirty(s, j, v, a)
    ensures !Dirty(Filled(s, b, w), j, v, a)
  {
    if Filled(s, b, w) != s {
      SetLineFrame(s, s.SetOf(b), w, Line(true, false, b, s.memory[b]));
    }
  }

  /** A quiet step makes no line dirty with address `a`. */
  lemma StepKeepsClean(s: State, e: Event, j: int, v: int, a: LineAddress)
    requires Nameable(s) && Quiet(e, a) && !Dirty(s, j, v, a)
    ensures !Dirty(Step(s, e), j, v, a)
  {
    hide Dirty, Do, Stored, Filled, Selects, SelectedSet, SelectedWay;
    match e
    case Load(_, _) =>
    case Store(b, k, value) => if k < 8 { StoreKeepsClean(s, b, k, value, j, v, a); }
    case Linefill(b, w) => FillKeepsClean(s, b, w, j, v, a);
    case Evict(i, w) => if s.InCache(i, w) { DoKeepsClean(s, CleanInvalidate, i, w, j, v, a); }
    case WriteBack(i, w) => if s.InCache(i, w) { DoKeepsClean(s, Clean, i, w, j, v, a); }
    case Maintain(r, op) => MaintainKeepsClean(s, r, op, j, v, a);
    case _ =>
  }

  lemma MaintainKeepsClean(s: State, r: CleanRegister, op: Operand, j: int, v: int, a: LineAddress)
    requires s.Shaped() && !Dirty(s, j, v, a)
    ensures !Dirty(Apply(s, r, op), j, v, a)
  {
    hide Dirty, Do;
    if Selects(s, r, op) {
      DoKeepsClean(s, r.effect, SelectedSet(s, r, op), SelectedWay(s, r, op), j, v, a);
    }
  }

  lemma {:induction false} RunKeepsClean(s: State, events: seq<Event>, j: int, v: int, a: LineAddress)
    requires Nameable(s) && AllQuiet(events, a) && !Dirty(s, j, v, a)
    ensures !Dirty(Run(s, events).0, j, v, a)
    decreases |events|
  {
    hide Dirty, Step, Observe, Quiet;
    if events != [] {
      StepNameable(s, events[0]);
      StepKeepsClean(s, events[0], j, v, a);
      RunKeepsClean(Step(s, events[0]), events[1..], j, v, a);
    }
  }

  // ---------- set/way operations ----------

  /** A register write that names set `j` and way `v`. */
  predicate NamesLine(e: Event, j: int, v: int) {
    e.Maintain? && e.register.BySetWay? && Names(e.operand, j, v)
  }

  lemma NamedIsClean(s: State, e: Event, j: int, v: int, a: LineAddress)
    requires Nameable(s) && NamesLine(e, j, v)
    ensures !Dirty(Step(s, e), j, v, a)
  {
    if s.InCache(j, v) {
      ApplyFrame(s, e.register, e.operand, j, v);
    }
  }

  /** Once its set and way have been named, a line does not hold dirty data of `a`, whatever happens in between. */
  lemma {:induction false} NamedStaysClean(s: State, events: seq<Event>, k: nat, j: int, v: int, a: LineAddress)
    requires Nameable(s) && AllQuiet(events, a) && k < |events| && NamesLine(events[k], j, v)
    ensures !Dirty(Run(s, events).0, j, v, a)
    decreases k
  {
    hide Dirty, Step, Observe, Quiet, NamesLine;
    StepNameable(s, events[0]);
    if k == 0 {
      NamedIsClean(s, events[0], j, v, a);
      RunKeepsClean(Step(s, events[0]), events[1..], j, v, a);
    } else {
      NamedStaysClean(Step(s, events[0]), events[1..], k - 1, j, v, a);
    }
  }

  lemma {:induction false} RunGeometry(s: State, events: seq<Event>, a: LineAddress)
    requires Nameable(s) && AllQuiet(events, a)
    ensures SameGeometry(s, Run(s, events).0)
    decreases |events|
  {
    hide Step, Observe, Quiet;
    if events != [] {
      StepNameable(s, events[0]);
      StepGeometry(s, events[0], a);
      RunGeometry(Step(s, events[0]), events[1..], a);
    }
  }

  /** Every operand that the sweep over this cache issues is written to a set/way register somewhere in the run. */
  ghost predicate SweepIssued(s: State, events: seq<Event>)
    requires Nameable(s)
  {
    forall word :: word in SweepWords(|s.sets| - 1, |s.sets[0]| - 1) ==> WrittenSomewhere(events, word)
  }

  ghost predicate WrittenSomewhere(events: seq<Event>, operand: nat) {
    exists i :: 0 <= i < |events| && events[i].Maintain? && events[i].register.BySetWay? && events[i].operand == operand
  }

  lemma LineNamed(s: State, events: seq<Event>, j: int, v: int) returns (k: nat)
    requires Nameable(s) && SweepIssued(s, events) && s.InCache(j, v)
    ensures k < |events| && NamesLine(events[k], j, v)
  {
    hide SetField, WayField, SweepWords, SetWayWord;
    var top, ways := |s.sets| - 1, |s.sets[0]| - 1;
    SweepWordsAt(top, ways, j, v);
    SetWayWordFields(j, v);
    var word := SweepWords(top, ways)[SweepIndex(top, ways, j, v)];
    assert WrittenSomewhere(events, word);
    k :| 0 <= k < |events| && events[k].Maintain? && events[k].register.BySetWay? && events[k].operand == word;
  }

  /** Without a dirty line of `a`, memory holds what the program sees at `a`. */
  lemma CleanIsInMemory(s: State, m: seq<Data>, a: LineAddress)
    requires Refines(s, m) && forall j, v :: !Dirty(s, j, v, a)
    ensures s.memory[a] == m[a]
  {
    assert ProcessorView(s, a) == m[a];
    if s.on && Hit(s, a) {
      assert s.InCache(s.SetOf(a), Way(s, a));
      assert !Dirty(s, s.SetOf(a), Way(s, a), a);
    }
  }

  /** SCB_CleanDCache, SCB_CleanInvalidateDCache: once all register writes of the sweep have been issued, in any order and
      with loads, stores to other lines, line fills, evictions and write-backs in between, memory holds the program's data
      of every line that was not stored to meanwhile. */
  lemma InterleavedSweepReachesMemory(s: State, m: seq<Data>, events: seq<Event>, a: LineAddress)
    requires Refines(s, m) && AllQuiet(events, a) && SweepIssued(s, events)
    ensures Refines(Run(s, events).0, FlatRun(m, events).0)
    ensures Run(s, events).0.memory[a] == m[a] == FlatRun(m, events).0[a]
  {
    hide Dirty, Quiet, NamesLine, SweepIssued, Run, FlatRun;
    var t := Run(s, events).0;
    RunRefines(s, m, events);
    RunGeometry(s, events, a);
    forall j, v
      ensures !Dirty(t, j, v, a)
    {
      if s.InCache(j, v) {
        var k := LineNamed(s, events, j, v);
        NamedStaysClean(s, events, k, j, v, a);
      } else {
        NotInCache(t, j, v, a);
      }
    }
    CleanIsInMemory(t, FlatRun(m, events).0, a);
    FlatKeeps(m, events, a);
  }

  lemma NotInCache(s: State, j: int, v: int, a: LineAddress)
    requires !s.InCache(j, v)
    ensures !Dirty(s, j, v, a)
  {
  }

  lemma {:induction false} FlatKeeps(m: seq<Data>, events: seq<Event>, a: LineAddress)
    requires |m| == LINES && AllQuiet(events, a)
    ensures FlatRun(m, events).0[a] == m[a]
    decreases |events|
  {
    if events != [] {
      assert Quiet(events[0], a);
      FlatKeeps(FlatStep(m, events[0]), events[1..], a);
    }
  }

  // ---------- operations by address ----------

  /** A register write by address for line `a`. */
  predicate NamesAddress(e: Event, a: LineAddress) {
    e.Maintain? && e.register.ByAddress? && e.operand / 32 == a
  }

  /** It leaves no dirty line of `a`: a consistent cache holds an address once, where the lookup finds it. */
  lemma AddressedIsClean(s: State, e: Event, j: int, v: int, a: LineAddress)
    requires Nameable(s) && s.Consistent() && NamesAddress(e, a)
    ensures !Dirty(Step(s, e), j, v, a)
  {
    if Dirty(s, j, v, a) {
      ViewOfHolder(s, j, v);
      assert Hit(s, a);
      ApplyFrame(s, e.register, e.operand, j, v);
    } else {
      MaintainKeepsClean(s, e.register, e.operand, j, v, a);
    }
  }

  lemma {:induction false} AddressedStaysClean(s: State, m: seq<Data>, events: seq<Event>, k: nat, j: int, v: int, a: LineAddress)
    requires Refines(s, m) && AllQuiet(events, a) && k < |events| && NamesAddress(events[k], a)
    ensures Nameable(s) && !Dirty(Run(s, events).0, j, v, a)
    decreases k
  {
    hide Dirty, Step, FlatStep, Observe, Quiet, NamesAddress;
    StepNameable(s, events[0]);
    if k == 0 {
      AddressedIsClean(s, events[0], j, v, a);
      RunKeepsClean(Step(s, events[0]), events[1..], j, v, a);
    } else {
      StepRefines(s, m, events[0]);
      AddressedStaysClean(Step(s, events[0]), FlatStep(m, events[0]), events[1..], k - 1, j, v, a);
    }
  }

  /** SCB_CleanDCache_by_Addr, SCB_CleanInvalidateDCache_by_Addr: with the same events in between, memory holds the
      program's data of every line that meets the range and was not stored to meanwhile. */
  lemma InterleavedRangeReachesMemory(s: State, m: seq<Data>, events: seq<Event>, address: nat, size: nat, a: LineAddress)
    requires Refines(s, m) && AllQuiet(events, a)
    requires size > 0 && address + size <= 0x1_0000_0000 && Meets(a, address, size)
    requires forall k :: 0 <= k < RangeCount(address, size) ==>
      AddressedSomewhere(events, RangeWords(address, RangeCount(address, size))[k])
    ensures Refines(Run(s, events).0, FlatRun(m, events).0)
    ensures Run(s, events).0.memory[a] == m[a] == FlatRun(m, events).0[a]
  {
    hide Dirty, Quiet, RangeWords, RangeCount, Run, FlatRun;
    var n := RangeCount(address, size);
    RangeTouchesExactly(address, size, a);
    var i :| 0 <= i < n && RangeWords(address, n)[i] / 32 == a;
    assert AddressedSomewhere(events, RangeWords(address, n)[i]);
    var k: nat :| k < |events| && events[k].Maintain? && events[k].register.ByAddress? && events[k].operand == RangeWords(address, n)[i];
    var t := Run(s, events).0;
    RunRefines(s, m, events);
    forall j, v
      ensures !Dirty(t, j, v, a)
    {
      AddressedStaysClean(s, m, events, k, j, v, a);
    }
    CleanIsInMemory(t, FlatRun(m, events).0, a);
    FlatKeeps(m, events, a);
  }

  ghost predicate AddressedSomewhere(events: seq<Event>, operand: nat) {
    exists i :: 0 <= i < |events| && events[i].Maintain? && events[i].register.ByAddress? && events[i].operand == operand
  }
}
