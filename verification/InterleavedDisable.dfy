/** SCB_DisableDCache as what it does in order: it switches the cache off and then writes the operands of a
    clean-and-invalidate sweep, with processor and hardware at work in between. While the cache is off accesses go
    straight to memory, and a line that is written back later overwrites what was stored to it. */
module InterleavedDisable {
  import opened Cache
  import opened SweepOrder
  import opened Coherence
  import opened Interleaving

  /** Any access, line fill, eviction, write-back or cleaning register write. */
  predicate Access(e: Event) {
    e.Load? || e.Store? || e.Linefill? || e.Evict? || e.WriteBack? || e.Maintain?
  }

  ghost predicate Accesses(events: seq<Event>) {
    forall k :: 0 <= k < |events| ==> Access(events[k])
  }

  /** A line that the event is not a store to. */
  predicate Spares(e: Event, a: LineAddress) { !(e.Store? && e.line == a) }

  ghost predicate AllSpare(events: seq<Event>, a: LineAddress) {
    forall k :: 0 <= k < |events| ==> Spares(events[k], a)
  }

  // ---------- one step while the cache is off ----------

  lemma OffStaysOff(s: State, e: Event)
    requires Nameable(s) && !s.on && Access(e)
    ensures Nameable(Step(s, e)) && !Step(s, e).on && SameGeometry(s, Step(s, e))
  {
    StepNameable(s, e);
    if e.Store? {
    } else {
      var zero: LineAddress := 0;
      StepGeometry(s, e, zero);
    }
  }

  lemma DoMemory(s: State, e: Effect, i: int, w: int, a: LineAddress)
    requires s.Shaped() && s.InCache(i, w) && !e.Invalidate?
    ensures Do(s, e, i, w).memory[a] == if Dirty(s, i, w, a) then s.sets[i][w].data else s.memory[a]
  {
  }

  /** The line that an event writes back or drops, if any. */
  predicate Touches(s: State, e: Event, i: int, w: int)
    requires s.Shaped()
  {
    match e
    case Evict(j, v) => s.InCache(j, v) && i == j && w == v
    case WriteBack(j, v) => s.InCache(j, v) && i == j && w == v
    case Maintain(r, op) => Selects(s, r, op) && i == SelectedSet(s, r, op) && w == SelectedWay(s, r, op)
    case _ => false
  }

  /** While the cache is off a step either leaves a line alone or settles it. */
  lemma OffLine(s: State, e: Event, i: int, w: int)
    requires Nameable(s) && !s.on && Access(e) && s.InCache(i, w)
    ensures var t := Step(s, e);
      && t.InCache(i, w)
      && (if Touches(s, e, i, w) then !(t.sets[i][w].valid && t.sets[i][w].dirty) else t.sets[i][w] == s.sets[i][w])
  {
    hide Do, SetField, WayField;
    match e
    case Evict(j, v) => if s.InCache(j, v) { DoFrame(s, CleanInvalidate, j, v, i, w); }
    case WriteBack(j, v) => if s.InCache(j, v) { DoFrame(s, Clean, j, v, i, w); }
    case Maintain(r, op) => if Selects(s, r, op) { DoFrame(s, r.effect, SelectedSet(s, r, op), SelectedWay(s, r, op), i, w); }
    case _ =>
  }

  lemma OffKeepsClean(s: State, e: Event, j: int, v: int, a: LineAddress)
    requires Nameable(s) && !s.on && Access(e) && !Dirty(s, j, v, a)
    ensures !Dirty(Step(s, e), j, v, a)
  {
    hide Step;
    OffStaysOff(s, e);
    if s.InCache(j, v) { OffLine(s, e, j, v); }
  }

  /** Memory of line `a` after a step: what a dirty line of `a` that is touched holds, or what flat memory would. */
  lemma OffMemoryStep(s: State, e: Event, m: seq<Data>, a: LineAddress)
    requires Nameable(s) && !s.on && Access(e) && |m| == LINES && m[a] == s.memory[a]
    ensures Step(s, e).Shaped()
    ensures (forall i, w :: Touches(s, e, i, w) ==> !Dirty(s, i, w, a)) ==> Step(s, e).memory[a] == FlatStep(m, e)[a]
    ensures forall i, w :: Touches(s, e, i, w) && Dirty(s, i, w, a) ==> Step(s, e).memory[a] == s.sets[i][w].data
  {
    hide Do, Dirty, SetField, WayField;
    OffStaysOff(s, e);
    match e
    case Evict(j, v) => if s.InCache(j, v) { DoMemory(s, CleanInvalidate, j, v, a); assert Touches(s, e, j, v); }
    case WriteBack(j, v) => if s.InCache(j, v) { DoMemory(s, Clean, j, v, a); assert Touches(s, e, j, v); }
    case Maintain(r, op) =>
      if Selects(s, r, op) {
        DoMemory(s, r.effect, SelectedSet(s, r, op), SelectedWay(s, r, op), a);
        assert Touches(s, e, SelectedSet(s, r, op), SelectedWay(s, r, op));
      }
    case _ =>
  }

  // ---------- runs while the cache is off ----------

  lemma {:induction false} OffRun(s: State, events: seq<Event>)
    requires Nameable(s) && !s.on && Accesses(events)
    ensures Nameable(Run(s, events).0) && !Run(s, events).0.on && SameGeometry(s, Run(s, events).0)
    decreases |events|
  {
    hide Step, Observe, Access;
    if events != [] {
      OffStaysOff(s, events[0]);
      OffRun(Step(s, events[0]), events[1..]);
    }
  }

  /** Without a dirty line of `a`, every store to `a` takes effect. */
  lemma {:induction false} StoresSurvive(s: State, m: seq<Data>, events: seq<Event>, a: LineAddress)
    requires Nameable(s) && !s.on && Accesses(events) && |m| == LINES && m[a] == s.memory[a]
    requires forall j, v :: !Dirty(s, j, v, a)
    ensures Run(s, events).0.Shaped() && Run(s, events).0.memory[a] == FlatRun(m, events).0[a]
    decreases |events|
  {
    hide Step, FlatStep, Observe, FlatObserve, Access, Dirty, Touches;
    if events != [] {
      var t := Step(s, events[0]);
      OffStaysOff(s, events[0]);
      OffMemoryStep(s, events[0], m, a);
      forall j, v ensures !Dirty(t, j, v, a) { OffKeepsClean(s, events[0], j, v, a); }
      StoresSurvive(t, FlatStep(m, events[0]), events[1..], a);
    }
  }

  /** The only dirty line of its address. */
  ghost predicate OnlyDirty(s: State, i: int, w: int, a: LineAddress) {
    Dirty(s, i, w, a) && forall j, v :: Dirty(s, j, v, a) ==> j == i && v == w
  }

  /** Event `k` of the run writes the line back. */
  ghost predicate WrittenBackAt(s: State, events: seq<Event>, k: nat, i: int, w: int, a: LineAddress)
    requires Nameable(s) && k < |events|
  {
    Dirty(Run(s, events[..k]).0, i, w, a) && !Dirty(Run(s, events[..k + 1]).0, i, w, a)
  }

  /** Event `k` writes the line back, and memory ends as if only the events from `k` on had happened. */
  ghost predicate EndsFrom(s: State, m: seq<Data>, events: seq<Event>, k: nat, i: int, w: int, a: LineAddress)
    requires Nameable(s) && |m| == LINES && k < |events|
  {
    && WrittenBackAt(s, events, k, i, w, a)
    && Run(s, events).0.Shaped() && Run(s, events).0.memory[a] == FlatRun(m, events[k..]).0[a]
  }

  lemma RunHead(s: State, events: seq<Event>, k: nat)
    requires Nameable(s) && k < |events|
    ensures Nameable(Step(s, events[0]))
    ensures Run(s, events[..k + 1]).0 == Run(Step(s, events[0]), events[1..][..k]).0
  {
    hide Step, Observe;
    StepNameable(s, events[0]);
    assert events[..k + 1][0] == events[0] && events[..k + 1][1..] == events[1..][..k];
  }

  lemma RunOfNothing(s: State, events: seq<Event>)
    requires Nameable(s) && events == []
    ensures Run(s, events).0 == s
  {
  }

  lemma RunNone(s: State, events: seq<Event>)
    requires Nameable(s)
    ensures Run(s, events[..0]).0 == s
  {
  }

  /** A dirty line of `a` that is written back by some event: memory ends as if only the events from that one on had
      happened, on top of the dirty data. Stores before it are lost. */
  lemma {:induction false} StoresLost(s: State, m: seq<Data>, events: seq<Event>, a: LineAddress, i: int, w: int)
    returns (k: nat)
    requires Nameable(s) && !s.on && Accesses(events) && OnlyDirty(s, i, w, a)
    requires |m| == LINES && s.InCache(i, w) && m[a] == s.sets[i][w].data && !Dirty(Run(s, events).0, i, w, a)
    ensures k < |events| && WrittenBackAt(s, events, k, i, w, a)
    ensures Run(s, events).0.Shaped() && Run(s, events).0.memory[a] == FlatRun(m, events[k..]).0[a]
    decreases |events|
  {
    hide Step, FlatStep, Observe, FlatObserve, Access, Dirty, Touches, Run, FlatRun;
    RunNone(s, events);
    if events == [] {
      RunOfNothing(s, events);
    } else {
      var e := events[0];
      var t := Step(s, e);
      OffStaysOff(s, e);
      RunHead(s, events, |events| - 1);
      RunHead(s, events, 0);
      RunNone(t, events[1..]);
      assert events[..|events| - 1 + 1] == events && events[1..][..|events| - 1] == events[1..];
      forall j, v ensures Dirty(t, j, v, a) ==> j == i && v == w {
        if !Dirty(s, j, v, a) { OffKeepsClean(s, e, j, v, a); }
      }
      OffLine(s, e, i, w);
      if Dirty(t, i, w, a) {
        StillDirty(t, i, w, a);
        k := StoresLost(t, m, events[1..], a, i, w);
        RunHead(s, events, k);
        RunHead(s, events, k + 1);
        assert events[1..][k..] == events[k + 1..];
        k := k + 1;
      } else {
        k := 0;
        WrittenBackNow(s, e, a, i, w);
        FlatSpared(m, e, a);
        StoresSurvive(t, FlatStep(m, e), events[1..], a);
        FlatRunHead(m, events);
        assert events[0..] == events;
      }
    }
  }

  lemma StillDirty(s: State, i: int, w: int, a: LineAddress)
    requires Dirty(s, i, w, a)
    ensures s.InCache(i, w) && s.sets[i][w].valid && s.sets[i][w].dirty
  {
  }

  /** An event after which the line is no longer dirty has written it back. */
  lemma WrittenBackNow(s: State, e: Event, a: LineAddress, i: int, w: int)
    requires Nameable(s) && !s.on && Access(e) && Dirty(s, i, w, a) && !Dirty(Step(s, e), i, w, a)
    ensures Step(s, e).Shaped() && Step(s, e).memory[a] == s.sets[i][w].data && !e.Store?
  {
    hide Step;
    OffLine(s, e, i, w);
    OffMemoryStep(s, e, s.memory, a);
  }

  lemma FlatSpared(m: seq<Data>, e: Event, a: LineAddress)
    requires |m| == LINES
    ensures Spares(e, a) ==> FlatStep(m, e)[a] == m[a]
  {
  }

  lemma FlatRunHead(m: seq<Data>, events: seq<Event>)
    requires |m| == LINES && events != []
    ensures FlatRun(m, events).0 == FlatRun(FlatStep(m, events[0]), events[1..]).0
  {
  }

  // ---------- the whole function ----------

  /** Every operand of the sweep over this cache is written to DCCISW somewhere in the run. */
  ghost predicate DisableIssued(s: State, events: seq<Event>)
    requires Nameable(s)
  {
    forall word :: word in SweepWords(|s.sets| - 1, |s.sets[0]| - 1) ==> Issued(events, word)
  }

  ghost predicate Issued(events: seq<Event>, operand: nat) {
    exists i :: 0 <= i < |events| && events[i].Maintain? && events[i].register == BySetWay(CleanInvalidate) && events[i].operand == operand
  }

  /** A register write that empties set `j` and way `v`. */
  predicate Empties(e: Event, j: int, v: int) {
    e.Maintain? && e.register == BySetWay(CleanInvalidate) && Names(e.operand, j, v)
  }

  predicate Invalid(s: State, j: int, v: int) { s.InCache(j, v) ==> !s.sets[j][v].valid }

  lemma EmptiedIsInvalid(s: State, e: Event, j: int, v: int)
    requires Nameable(s) && !s.on && Empties(e, j, v)
    ensures Invalid(Step(s, e), j, v)
  {
    OffStaysOff(s, e);
    if s.InCache(j, v) { ApplyFrame(s, e.register, e.operand, j, v); }
  }

  lemma OffKeepsInvalid(s: State, e: Event, j: int, v: int)
    requires Nameable(s) && !s.on && Access(e) && Invalid(s, j, v)
    ensures Invalid(Step(s, e), j, v)
  {
    hide Step;
    OffStaysOff(s, e);
    if s.InCache(j, v) {
      OffLine(s, e, j, v);
      if Touches(s, e, j, v) { TouchedInvalid(s, e, j, v); }
    }
  }

  lemma TouchedInvalid(s: State, e: Event, j: int, v: int)
    requires Nameable(s) && !s.on && Access(e) && s.InCache(j, v) && !s.sets[j][v].valid && Touches(s, e, j, v)
    ensures Step(s, e).InCache(j, v) && !Step(s, e).sets[j][v].valid
  {
  }

  lemma {:induction false} RunKeepsInvalid(s: State, events: seq<Event>, j: int, v: int)
    requires Nameable(s) && !s.on && Accesses(events) && Invalid(s, j, v)
    ensures Invalid(Run(s, events).0, j, v)
    decreases |events|
  {
    hide Step, Observe, Access, Invalid;
    if events != [] {
      OffStaysOff(s, events[0]);
      OffKeepsInvalid(s, events[0], j, v);
      RunKeepsInvalid(Step(s, events[0]), events[1..], j, v);
    }
  }

  lemma {:induction false} EmptiedStaysInvalid(s: State, events: seq<Event>, k: nat, j: int, v: int)
    requires Nameable(s) && !s.on && Accesses(events) && k < |events| && Empties(events[k], j, v)
    ensures Invalid(Run(s, events).0, j, v)
    decreases k
  {
    hide Step, Observe, Access, Invalid, Empties;
    OffStaysOff(s, events[0]);
    if k == 0 {
      EmptiedIsInvalid(s, events[0], j, v);
      RunKeepsInvalid(Step(s, events[0]), events[1..], j, v);
    } else {
      EmptiedStaysInvalid(Step(s, events[0]), events[1..], k - 1, j, v);
    }
  }

  lemma LineEmptied(s: State, events: seq<Event>, j: int, v: int) returns (k: nat)
    requires Nameable(s) && DisableIssued(s, events) && s.InCache(j, v)
    ensures k < |events| && Empties(events[k], j, v)
  {
    hide SetField, WayField, SweepWords, SetWayWord;
    var top, ways := |s.sets| - 1, |s.sets[0]| - 1;
    SweepWordsAt(top, ways, j, v);
    SetWayWordFields(j, v);
    var word := SweepWords(top, ways)[SweepIndex(top, ways, j, v)];
    assert Issued(events, word);
    k :| k < |events| && events[k].Maintain? && events[k].register == BySetWay(CleanInvalidate) && events[k].operand == word;
  }

  /** After the run the cache is off and empty, whatever it contained. */
  lemma DisabledEmpty(s: State, events: seq<Event>)
    requires Nameable(s) && !s.on && Accesses(events) && DisableIssued(s, events)
    ensures Refines(Run(s, events).0, Run(s, events).0.memory) && Run(s, events).0.Empty() && !Run(s, events).0.on
  {
    hide Run, DisableIssued, Access;
    var t := Run(s, events).0;
    OffRun(s, events);
    forall j, v | t.InCache(j, v)
      ensures !t.sets[j][v].valid
    {
      assert s.InCache(j, v);
      var k := LineEmptied(s, events, j, v);
      EmptiedStaysInvalid(s, events, k, j, v);
    }
  }

  /** A consistent cache holds a dirty address once. */
  lemma DirtyOnce(s: State, i: int, w: int, a: LineAddress)
    requires s.Consistent() && Dirty(s, i, w, a)
    ensures OnlyDirty(s, i, w, a)
  {
    forall j, v | Dirty(s, j, v, a)
      ensures j == i && v == w
    {
      assert s.InCache(j, v) && s.InCache(i, w);
    }
  }

  /** SCB_DisableDCache on a cache that is on, step by step. At the end the cache is off and empty. A line of which the
      cache held no dirty copy when it was switched off has every store made meanwhile; of a line with a dirty copy only
      the stores after the event that writes that copy back survive, on top of the program's data. */
  lemma InterleavedDisable(s: State, m: seq<Data>, events: seq<Event>, a: LineAddress)
    requires Refines(s, m) && s.on && Accesses(events) && DisableIssued(s, events)
    ensures var off := s.(on := false); var t := Run(off, events).0;
      && Refines(t, t.memory) && t.Empty() && !t.on
      && ((forall j, v :: !Dirty(s, j, v, a)) ==> t.memory[a] == FlatRun(m, events).0[a])
      && (forall i, w :: Dirty(s, i, w, a) ==>
            exists k: nat :: k < |events| && EndsFrom(off, m, events, k, i, w, a))
  {
    hide Run, FlatRun, DisableIssued, Access, Dirty, WrittenBackAt;
    var off := s.(on := false);
    assert DisableIssued(off, events) by { SameOperands(s, off, events); }
    DisabledEmpty(off, events);
    forall j, v ensures Dirty(off, j, v, a) <==> Dirty(s, j, v, a) { SameDirty(s, off, j, v, a); }
    if forall j, v :: !Dirty(s, j, v, a) {
      CleanIsInMemory(s, m, a);
      StoresSurvive(off, m, events, a);
    }
    forall i, w | Dirty(s, i, w, a)
      ensures exists k: nat :: k < |events| && EndsFrom(off, m, events, k, i, w, a)
    {
      DirtyOnce(s, i, w, a);
      HolderValue(s, m, i, w, a);
      EmptyHasNoDirty(Run(off, events).0, i, w, a);
      var k := StoresLost(off, m, events, a, i, w);
      assert EndsFrom(off, m, events, k, i, w, a);
    }
  }

  lemma SameOperands(s: State, off: State, events: seq<Event>)
    requires Nameable(s) && Nameable(off) && off.sets == s.sets && DisableIssued(s, events)
    ensures DisableIssued(off, events)
  {
    hide SweepWords, SetWayWord, Issued;
  }

  lemma SameDirty(s: State, off: State, j: int, v: int, a: LineAddress)
    requires off.sets == s.sets
    ensures Dirty(off, j, v, a) <==> Dirty(s, j, v, a)
  {
  }

  lemma HolderValue(s: State, m: seq<Data>, i: int, w: int, a: LineAddress)
    requires Refines(s, m) && s.on && Dirty(s, i, w, a)
    ensures s.InCache(i, w) && m[a] == s.sets[i][w].data
  {
    ViewOfHolder(s, i, w);
    assert ProcessorView(s, a) == m[a];
  }

  lemma EmptyHasNoDirty(s: State, i: int, w: int, a: LineAddress)
    requires s.Empty()
    ensures !Dirty(s, i, w, a)
  {
  }

  lemma {:induction false} FlatRunSpared(m: seq<Data>, events: seq<Event>, a: LineAddress)
    requires |m| == LINES && AllSpare(events, a)
    ensures FlatRun(m, events).0[a] == m[a]
    decreases |events|
  {
    if events != [] {
      assert Spares(events[0], a);
      FlatRunSpared(FlatStep(m, events[0]), events[1..], a);
    }
  }

  /** A line that nothing was stored to meanwhile always reaches memory with the program's data. */
  lemma UntouchedLinesSurvive(s: State, m: seq<Data>, events: seq<Event>, a: LineAddress)
    requires Refines(s, m) && s.on && Accesses(events) && DisableIssued(s, events) && AllSpare(events, a)
    ensures Nameable(s) && Run(s.(on := false), events).0.Shaped() && Run(s.(on := false), events).0.memory[a] == m[a]
  {
    hide Run, FlatRun, DisableIssued, Access, Dirty, WrittenBackAt;
    InterleavedDisable(s, m, events, a);
    FlatRunSpared(m, events, a);
    if i, w :| Dirty(s, i, w, a) {
      var k: nat :| k < |events| && EndsFrom(s.(on := false), m, events, k, i, w, a);
      FlatRunSpared(m, events[k..], a);
    }
  }

  lemma {:induction false} FlatLine(m: seq<Data>, m': seq<Data>, events: seq<Event>, a: LineAddress)
    requires |m| == LINES && |m'| == LINES && m[a] == m'[a]
    ensures FlatRun(m, events).0[a] == FlatRun(m', events).0[a]
    decreases |events|
  {
    if events != [] {
      FlatLine(FlatStep(m, events[0]), FlatStep(m', events[0]), events[1..], a);
    }
  }

  lemma AllSpareTail(events: seq<Event>, a: LineAddress)
    requires events != [] && AllSpare(events, a)
    ensures AllSpare(events[1..], a)
  {
  }

  lemma {:induction false} FlatSuffix(m: seq<Data>, events: seq<Event>, k: nat, a: LineAddress)
    requires |m| == LINES && k <= |events| && AllSpare(events[..k], a)
    ensures FlatRun(m, events).0[a] == FlatRun(m, events[k..]).0[a]
    decreases k
  {
    hide FlatStep, FlatRun, Spares;
    if k == 0 {
      assert events[0..] == events;
    } else {
      var next := FlatStep(m, events[0]);
      assert Spares(events[..k][0], a) && events[..k][0] == events[0];
      assert events[1..][..k - 1] == events[..k][1..];
      AllSpareTail(events[..k], a);
      assert events[1..][k - 1..] == events[k..];
      FlatRunHead(m, events);
      FlatSuffix(next, events[1..], k - 1, a);
      FlatSpared(m, events[0], a);
      FlatLine(next, m, events[k..], a);
    }
  }

  /** Of a line with a dirty copy: when it was stored to only after the write-back, memory has every store; when it was
      stored to only before, memory has none of them. */
  lemma WhichStoresSurvive(s: State, m: seq<Data>, events: seq<Event>, k: nat, i: int, w: int, a: LineAddress)
    requires Nameable(s) && |m| == LINES && k < |events| && EndsFrom(s, m, events, k, i, w, a)
    ensures Run(s, events).0.Shaped()
    ensures AllSpare(events[..k], a) ==> Run(s, events).0.memory[a] == FlatRun(m, events).0[a]
    ensures AllSpare(events[k..], a) ==> Run(s, events).0.memory[a] == m[a]
  {
    hide Run, FlatRun, WrittenBackAt;
    if AllSpare(events[..k], a) { FlatSuffix(m, events, k, a); }
    if AllSpare(events[k..], a) { FlatRunSpared(m, events[k..], a); }
  }
}
