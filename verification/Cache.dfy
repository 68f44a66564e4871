/** A write-back, set-associative data cache in front of memory (section B2.2 of the ARMv7-M Architecture
    Reference Manual), the set/way and address maintenance operations, and the flat memory a program sees. */
module Cache {
  import opened Bits

  const LINES: nat := 0x800_0000

  type LineAddress = a: nat | a < LINES
  /** The eight words of a 32-byte line. */
  type Data = d: seq<nat> | |d| == 8 witness [0, 0, 0, 0, 0, 0, 0, 0]

  /** The tag, together with the set index, is recorded as the line address. */
  datatype Line = Line(valid: bool, dirty: bool, address: LineAddress, data: Data) {
    predicate Holds(a: LineAddress) { valid && address == a }
  }

  datatype State = State(on: bool, sets: seq<seq<Line>>, memory: seq<Data>) {
    predicate Shaped() {
      && |memory| == LINES && |sets| >= 1
      && forall i :: 0 <= i < |sets| ==> |sets[i]| == |sets[0]| >= 1
    }

    predicate InCache(i: int, w: int) { 0 <= i < |sets| && 0 <= w < |sets[i]| }

    function SetOf(a: LineAddress): (i: nat)
      requires |sets| >= 1
      ensures i < |sets|
    {
      a % |sets|
    }

    /** Valid lines sit in the set of their address. */
    ghost predicate Placed()
      requires |sets| >= 1
    {
      forall i, w :: InCache(i, w) && sets[i][w].valid ==> SetOf(sets[i][w].address) == i
    }

    /** No two lines of a set hold the same address. */
    ghost predicate Unique() {
      forall i, v, w :: InCache(i, v) && InCache(i, w) && v != w && sets[i][v].valid && sets[i][w].valid ==>
        sets[i][v].address != sets[i][w].address
    }

    /** Clean lines equal memory. */
    ghost predicate CleanAgrees()
      requires |memory| == LINES
    {
      forall i, w :: InCache(i, w) && sets[i][w].valid && !sets[i][w].dirty ==>
        sets[i][w].data == memory[sets[i][w].address]
    }

    ghost predicate Consistent() {
      Shaped() && Placed() && Unique() && CleanAgrees()
    }

    ghost predicate Empty() {
      forall i, w :: InCache(i, w) ==> !sets[i][w].valid
    }

    /** What keeps the program's view of memory intact: a consistent cache that is empty while it is off. */
    ghost predicate Coherent() {
      Consistent() && (!on ==> Empty())
    }
  }

  // ---------- the view of memory through the cache ----------

  /** The first way that holds `a`, or the number of ways. */
  function FindWay(ways: seq<Line>, a: LineAddress): (w: nat)
    ensures w <= |ways|
    ensures w < |ways| ==> ways[w].Holds(a)
    ensures forall k :: 0 <= k < w ==> !ways[k].Holds(a)
  {
    if ways == [] || ways[0].Holds(a) then 0 else 1 + FindWay(ways[1..], a)
  }

  function Way(s: State, a: LineAddress): (w: nat)
    requires s.Shaped()
  {
    FindWay(s.sets[s.SetOf(a)], a)
  }

  predicate Hit(s: State, a: LineAddress)
    requires s.Shaped()
  {
    Way(s, a) < |s.sets[s.SetOf(a)]|
  }

  /** The contents of line `a` as an access that looks up the cache sees them. */
  function View(s: State, a: LineAddress): Data
    requires s.Shaped()
  {
    if Hit(s, a) then s.sets[s.SetOf(a)][Way(s, a)].data else s.memory[a]
  }

  lemma ViewOfHolder(s: State, i: int, w: int)
    requires s.Consistent() && s.InCache(i, w) && s.sets[i][w].valid
    ensures s.SetOf(s.sets[i][w].address) == i && Way(s, s.sets[i][w].address) == w
    ensures View(s, s.sets[i][w].address) == s.sets[i][w].data
  {
    var a := s.sets[i][w].address;
    assert s.sets[i][w].Holds(a);
    assert s.InCache(i, Way(s, a));
  }

  lemma ViewOfMiss(s: State, a: LineAddress)
    requires s.Shaped() && forall w :: s.InCache(s.SetOf(a), w) ==> !s.sets[s.SetOf(a)][w].Holds(a)
    ensures !Hit(s, a) && View(s, a) == s.memory[a]
  {
    assert Hit(s, a) ==> s.InCache(s.SetOf(a), Way(s, a));
  }

  // ---------- one line ----------

  function SetLine(s: State, i: int, w: int, line: Line): (t: State)
    requires s.InCache(i, w)
  {
    s.(sets := s.sets[i := s.sets[i][w := line]])
  }

  /** Write a dirty line back; it stays valid. */
  function CleanLine(s: State, i: int, w: int): (t: State)
    requires s.Shaped() && s.InCache(i, w)
  {
    var line := s.sets[i][w];
    if line.valid && line.dirty then
      SetLine(s, i, w, line.(dirty := false)).(memory := s.memory[line.address := line.data])
    else s
  }

  function InvalidateLine(s: State, i: int, w: int): (t: State)
    requires s.Shaped() && s.InCache(i, w)
  {
    SetLine(s, i, w, s.sets[i][w].(valid := false))
  }

  lemma SetLineFrame(s: State, i: int, w: int, line: Line)
    requires s.Shaped() && s.InCache(i, w)
    ensures var t := SetLine(s, i, w, line);
      && t.Shaped() && |t.sets| == |s.sets| && t.memory == s.memory
      && (forall j, v :: t.InCache(j, v) <==> s.InCache(j, v))
      && (forall j, v :: s.InCache(j, v) ==> t.sets[j][v] == if j == i && v == w then line else s.sets[j][v])
  {
  }

  lemma CleanLineConsistent(s: State, i: int, w: int)
    requires s.Consistent() && s.InCache(i, w)
    ensures CleanLine(s, i, w).Consistent()
  {
    var t, line := CleanLine(s, i, w), s.sets[i][w];
    if line.valid && line.dirty {
      SetLineFrame(s, i, w, line.(dirty := false));
      forall j, v | t.InCache(j, v) && t.sets[j][v].valid && !t.sets[j][v].dirty
        ensures t.sets[j][v].data == t.memory[t.sets[j][v].address]
      {
        assert s.InCache(j, v);
      }
    }
  }

  lemma CleanLineKeepsView(s: State, i: int, w: int, a: LineAddress)
    requires s.Consistent() && s.InCache(i, w)
    ensures CleanLine(s, i, w).Consistent() && View(CleanLine(s, i, w), a) == View(s, a)
  {
    var t, line := CleanLine(s, i, w), s.sets[i][w];
    CleanLineConsistent(s, i, w);
    if line.valid && line.dirty {
      SetLineFrame(s, i, w, line.(dirty := false));
      if Hit(s, a) {
        var j, v := s.SetOf(a), Way(s, a);
        assert s.InCache(j, v) && t.InCache(j, v);
        ViewOfHolder(t, j, v);
      } else {
        assert forall v :: s.InCache(s.SetOf(a), v) ==> !s.sets[s.SetOf(a)][v].Holds(a);
        assert s.InCache(i, w);
        ViewOfMiss(t, a);
      }
    }
  }

  /** A line that is not dirty can be dropped without changing the view. */
  lemma InvalidateCleanKeepsView(s: State, i: int, w: int, a: LineAddress)
    requires s.Consistent() && s.InCache(i, w) && !(s.sets[i][w].valid && s.sets[i][w].dirty)
    ensures InvalidateLine(s, i, w).Consistent() && View(InvalidateLine(s, i, w), a) == View(s, a)
  {
    var t, line := InvalidateLine(s, i, w), s.sets[i][w];
    SetLineFrame(s, i, w, line.(valid := false));
    if Hit(s, a) {
      var j, v := s.SetOf(a), Way(s, a);
      assert s.InCache(j, v) && t.InCache(j, v);
      if j == i && v == w {
        ViewOfMiss(t, a);
      } else {
        ViewOfHolder(t, j, v);
      }
    } else {
      ViewOfMiss(t, a);
    }
  }

  // ---------- maintenance registers ----------

  datatype Effect = Invalidate | Clean | CleanInvalidate

  /** DCISW, DCCSW, DCCISW act by set and way; DCIMVAC, DCCMVAC, DCCIMVAC by address. */
  datatype Register = BySetWay(effect: Effect) | ByAddress(effect: Effect)

  function Do(s: State, e: Effect, i: int, w: int): (t: State)
    requires s.Shaped() && s.InCache(i, w)
  {
    match e
    case Invalidate => InvalidateLine(s, i, w)
    case Clean => CleanLine(s, i, w)
    case CleanInvalidate => InvalidateLine(CleanLine(s, i, w), i, w)
  }

  /** Set and way fields of a set/way operand. */
  function SetField(operand: nat): nat { Low(Shr(operand, 5), 9) }
  function WayField(operand: nat): nat { Low(Shr(operand, 30), 2) }

  /** The line a maintenance operation selects, if any. */
  predicate Selects(s: State, r: Register, operand: nat)
    requires s.Shaped() && operand < 0x1_0000_0000
  {
    if r.BySetWay? then s.InCache(SetField(operand), WayField(operand)) else Hit(s, operand / 32)
  }

  function SelectedSet(s: State, r: Register, operand: nat): nat
    requires s.Shaped() && operand < 0x1_0000_0000
  {
    if r.BySetWay? then SetField(operand) else s.SetOf(operand / 32)
  }

  function SelectedWay(s: State, r: Register, operand: nat): nat
    requires s.Shaped() && operand < 0x1_0000_0000
  {
    if r.BySetWay? then WayField(operand) else Way(s, operand / 32)
  }

  /** A write of `operand` to maintenance register `r`. */
  function Apply(s: State, r: Register, operand: nat): (t: State)
    requires s.Shaped() && operand < 0x1_0000_0000
    ensures t.Shaped() && |t.sets| == |s.sets| && |t.sets[0]| == |s.sets[0]| && t.on == s.on
  {
    if Selects(s, r, operand) then Do(s, r.effect, SelectedSet(s, r, operand), SelectedWay(s, r, operand)) else s
  }

  ghost predicate Operands(ops: seq<nat>) {
    forall k :: 0 <= k < |ops| ==> ops[k] < 0x1_0000_0000
  }

  ghost function ApplyAll(s: State, r: Register, ops: seq<nat>): (t: State)
    requires s.Shaped() && Operands(ops)
    ensures t.Shaped() && |t.sets| == |s.sets| && |t.sets[0]| == |s.sets[0]| && t.on == s.on
    decreases |ops|
  {
    if ops == [] then s else ApplyAll(Apply(s, r, ops[0]), r, ops[1..])
  }

  lemma ApplyFrame(s: State, r: Register, operand: nat, j: int, v: int)
    requires s.Shaped() && operand < 0x1_0000_0000 && s.InCache(j, v)
    ensures var t := Apply(s, r, operand);
      && t.InCache(j, v)
      && (if Selects(s, r, operand) && j == SelectedSet(s, r, operand) && v == SelectedWay(s, r, operand)
          then Settled(r.effect, t.sets[j][v])
          else t.sets[j][v] == s.sets[j][v])
  {
    if Selects(s, r, operand) {
      DoFrame(s, r.effect, SelectedSet(s, r, operand), SelectedWay(s, r, operand), j, v);
    }
  }

  /** What an operation leaves behind in the line it selects. */
  predicate Settled(e: Effect, line: Line) {
    if e.Clean? then !(line.valid && line.dirty) else !line.valid
  }

  lemma DoFrame(s: State, e: Effect, i: int, w: int, j: int, v: int)
    requires s.Shaped() && s.InCache(i, w) && s.InCache(j, v)
    ensures var t := Do(s, e, i, w);
      && t.InCache(j, v)
      && (if j == i && v == w then Settled(e, t.sets[j][v])
          else t.sets[j][v] == s.sets[j][v])
  {
    var line := s.sets[i][w];
    SetLineFrame(s, i, w, line.(valid := false));
    SetLineFrame(s, i, w, line.(dirty := false));
    if e.CleanInvalidate? && line.valid && line.dirty {
      SetLineFrame(CleanLine(s, i, w), i, w, line.(dirty := false, valid := false));
    }
  }

  lemma {:induction false} SettledPersists(s: State, r: Register, ops: seq<nat>, j: int, v: int)
    requires s.Shaped() && Operands(ops) && s.InCache(j, v) && Settled(r.effect, s.sets[j][v])
    ensures ApplyAll(s, r, ops).InCache(j, v) && Settled(r.effect, ApplyAll(s, r, ops).sets[j][v])
    decreases |ops|
  {
    if ops != [] {
      ApplyFrame(s, r, ops[0], j, v);
      SettledPersists(Apply(s, r, ops[0]), r, ops[1..], j, v);
    }
  }

  /** After a list of set/way operations, every line named by one of the operands is settled. */
  lemma {:induction false} NamedLineSettles(s: State, e: Effect, ops: seq<nat>, k: nat, j: int, v: int)
    requires s.Shaped() && Operands(ops) && s.InCache(j, v)
    requires k < |ops| && SetField(ops[k]) == j && WayField(ops[k]) == v
    ensures ApplyAll(s, BySetWay(e), ops).InCache(j, v) && Settled(e, ApplyAll(s, BySetWay(e), ops).sets[j][v])
    decreases k
  {
    var r := BySetWay(e);
    ApplyFrame(s, r, ops[0], j, v);
    if k == 0 {
      SettledPersists(Apply(s, r, ops[0]), r, ops[1..], j, v);
    } else {
      NamedLineSettles(Apply(s, r, ops[0]), e, ops[1..], k - 1, j, v);
    }
  }

  lemma DoKeepsView(s: State, e: Effect, i: int, w: int, a: LineAddress)
    requires s.Consistent() && s.InCache(i, w) && !e.Invalidate?
    ensures Do(s, e, i, w).Consistent() && View(Do(s, e, i, w), a) == View(s, a)
    ensures Do(s, e, i, w).memory[a] == s.memory[a] || Do(s, e, i, w).memory[a] == View(s, a)
  {
    CleanLineKeepsView(s, i, w, a);
    if s.sets[i][w].valid { ViewOfHolder(s, i, w); }
    if e.CleanInvalidate? {
      DoFrame(s, Clean, i, w, i, w);
      InvalidateCleanKeepsView(CleanLine(s, i, w), i, w, a);
    }
  }

  lemma ApplyKeepsView(s: State, r: Register, operand: nat, a: LineAddress)
    requires s.Consistent() && operand < 0x1_0000_0000 && !r.effect.Invalidate?
    ensures var t := Apply(s, r, operand);
      && t.Consistent() && View(t, a) == View(s, a)
      && (s.memory[a] == View(s, a) ==> t.memory[a] == View(s, a))
  {
    if Selects(s, r, operand) {
      DoKeepsView(s, r.effect, SelectedSet(s, r, operand), SelectedWay(s, r, operand), a);
    }
  }

  /** Cleaning, by set and way or by address, never changes what the program sees. */
  lemma {:induction false} ApplyAllKeepsView(s: State, r: Register, ops: seq<nat>, a: LineAddress)
    requires s.Consistent() && Operands(ops) && !r.effect.Invalidate?
    ensures ApplyAll(s, r, ops).Consistent() && View(ApplyAll(s, r, ops), a) == View(s, a)
    ensures s.memory[a] == View(s, a) ==> ApplyAll(s, r, ops).memory[a] == View(s, a)
    decreases |ops|
  {
    if ops != [] {
      ApplyKeepsView(s, r, ops[0], a);
      ApplyAllKeepsView(Apply(s, r, ops[0]), r, ops[1..], a);
    }
  }

  lemma {:induction false} InvalidateKeepsMemory(s: State, r: Register, ops: seq<nat>)
    requires s.Shaped() && Operands(ops) && r.effect.Invalidate?
    ensures ApplyAll(s, r, ops).memory == s.memory
    decreases |ops|
  {
    if ops != [] {
      InvalidateKeepsMemory(Apply(s, r, ops[0]), r, ops[1..]);
    }
  }

  // ---------- set/way sweeps ----------

  /** The operand for a set and a way. */
  function SetWayWord(i: nat, w: nat): nat {
    Or(And(Shl32(i, 5), Shl(Ones(9), 5)), And(Shl32(w, 30), Shl(Ones(2), 30)))
  }

  lemma SetWayWordValue(i: nat, w: nat)
    ensures SetWayWord(i, w) == i % 0x200 * 0x20 + w % 4 * 0x4000_0000
  {
    hide And, Shl32;
    SweepPowers();
    InsertField(i, 9, 5);
    InsertField(w, 2, 30);
    AsDivMod(i, 9, 0x200);
    AsDivMod(w, 2, 4);
    ShlIsMul(i % 0x200, 5);
    ShlIsMul(w % 4, 30);
    OrComm(Shl(i % 0x200, 5), Shl(w % 4, 30));
    OrDisjoint(w % 4, Shl(i % 0x200, 5), 30);
  }

  lemma SweepPowers()
    ensures Pow2(2) == 4 && Pow2(5) == 0x20 && Pow2(9) == 0x200 && Pow2(30) == 0x4000_0000
  {
    Pow2Add(15, 15);
  }

  /** Each field of the operand comes back out of it. */
  lemma SetWayWordFields(i: nat, w: nat)
    ensures SetWayWord(i, w) < 0x1_0000_0000
    ensures SetField(SetWayWord(i, w)) == i % 0x200 && WayField(SetWayWord(i, w)) == w % 4
  {
    hide SetWayWord, Shr, Low, Pow2;
    SetWayWordValue(i, w);
    SweepPowers();
    var word := i % 0x200 * 0x20 + w % 4 * 0x4000_0000;
    assert w % 4 * 0x4000_0000 == w % 4 * 0x1_0000 * 0x200 * 0x20;
    ReadField(w % 4 * 0x1_0000, i % 0x200, 0, 9, 5, 0x200, 0x20, word);
    ReadField(0, w % 4, i % 0x200 * 0x20, 2, 30, 4, 0x4000_0000, word);
  }

  /** The operands of one set, ways counting down. */
  function WayWords(i: nat, w: nat): (words: seq<nat>)
    ensures |words| == w + 1
    decreases w
  {
    [SetWayWord(i, w)] + if w == 0 then [] else WayWords(i, w - 1)
  }

  /** The operands of a whole sweep, sets counting down and ways counting down within each. */
  function SweepWords(i: nat, ways: nat): (words: seq<nat>)
    ensures |words| == (i + 1) * (ways + 1)
    decreases i
  {
    WayWords(i, ways) + if i == 0 then [] else SweepWords(i - 1, ways)
  }

  lemma {:induction false} WayWordsAt(i: nat, w: nat, k: nat)
    requires k <= w
    ensures WayWords(i, w)[k] == SetWayWord(i, w - k)
    decreases w
  {
    hide SetWayWord;
    if k > 0 { WayWordsAt(i, w - 1, k - 1); }
  }

  /** The position of the operand for set `j` and way `v` in a sweep. */
  function SweepIndex(i: nat, ways: nat, j: nat, v: nat): (k: int)
    requires j <= i && v <= ways
  {
    (i - j) * (ways + 1) + (ways - v)
  }

  lemma IndexStep(i: nat, ways: nat, j: nat, v: nat)
    requires j < i && v <= ways
    ensures SweepIndex(i, ways, j, v) == SweepIndex(i - 1, ways, j, v) + (ways + 1)
  {
  }

  /** The first set's operands, then the rest of the sweep. */
  lemma SweepUnfold(i: nat, ways: nat, k: nat)
    requires k < |SweepWords(i, ways)|
    ensures k <= ways ==> SweepWords(i, ways)[k] == SetWayWord(i, ways - k)
    ensures k > ways ==> i > 0 && k - (ways + 1) < |SweepWords(i - 1, ways)|
    ensures k > ways ==> SweepWords(i, ways)[k] == SweepWords(i - 1, ways)[k - (ways + 1)]
  {
    hide SetWayWord;
    if k <= ways { WayWordsAt(i, ways, k); }
  }

  /** A sweep issues the operand of every set and way, at that position. */
  lemma {:induction false} SweepWordsAt(i: nat, ways: nat, j: nat, v: nat)
    requires j <= i && v <= ways
    ensures 0 <= SweepIndex(i, ways, j, v) < |SweepWords(i, ways)|
    ensures SweepWords(i, ways)[SweepIndex(i, ways, j, v)] == SetWayWord(j, v)
    decreases i
  {
    hide SetWayWord, SweepWords;
    if i == j {
      SweepLength(i, ways);
      SweepUnfold(i, ways, ways - v);
    } else {
      SweepWordsAt(i - 1, ways, j, v);
      IndexStep(i, ways, j, v);
      SweepLength(i, ways);
      SweepUnfold(i, ways, SweepIndex(i, ways, j, v));
    }
  }

  /** One more set adds one operand for each way. */
  lemma SweepLength(i: nat, ways: nat)
    ensures |SweepWords(i, ways)| >= ways + 1
    ensures i > 0 ==> |SweepWords(i, ways)| == ways + 1 + |SweepWords(i - 1, ways)|
  {
    hide SetWayWord;
  }

  /** Every position of a sweep belongs to some set and way. */
  lemma {:induction false} SweepWordsFrom(i: nat, ways: nat, k: nat) returns (j: nat, v: nat)
    requires k < |SweepWords(i, ways)|
    ensures j <= i && v <= ways && SweepIndex(i, ways, j, v) == k
    decreases i
  {
    hide SetWayWord, SweepWords;
    if k <= ways {
      j, v := i, ways - k;
    } else {
      SweepUnfold(i, ways, k);
      j, v := SweepWordsFrom(i - 1, ways, k - (ways + 1));
      IndexStep(i, ways, j, v);
    }
  }

  /** With at most 512 sets and 4 ways, a sweep issues each operand exactly once. */
  lemma SweepIssuesEachOnce(i: nat, ways: nat, j: nat, v: nat, k: nat)
    requires i <= 0x1FF && ways <= 3 && j <= i && v <= ways && k < |SweepWords(i, ways)|
    ensures SetField(SweepWords(i, ways)[k]) == j && WayField(SweepWords(i, ways)[k]) == v
      <==> k == SweepIndex(i, ways, j, v)
  {
    hide SetWayWord, SetField, WayField, SweepWords, SweepIndex;
    var j', v' := SweepWordsFrom(i, ways, k);
    SweepWordsAt(i, ways, j', v');
    SweepWordsAt(i, ways, j, v);
    SetWayWordFields(j', v');
    SetWayWordFields(j, v);
  }

  /** Sets count down, and ways within each set: the operand at each position, with the set in bits 13 to 5 and the way in
      bits 31 and 30. */
  lemma SweepInOrder(i: nat, ways: nat, j: nat, v: nat)
    requires i <= 0x1FF && ways <= 3 && j <= i && v <= ways
    ensures |SweepWords(i, ways)| == (i + 1) * (ways + 1)
    ensures 0 <= (i - j) * (ways + 1) + (ways - v) < |SweepWords(i, ways)|
    ensures SweepWords(i, ways)[(i - j) * (ways + 1) + (ways - v)] == j * 0x20 + v * 0x4000_0000
  {
    hide SetWayWord, SweepWords;
    SweepWordsAt(i, ways, j, v);
    SetWayWordValue(j, v);
  }

  /** Beyond 512 sets or 4 ways the operand fields are too narrow: two different lines share an operand. */
  lemma WideGeometryCollides(i: nat, ways: nat)
    requires i > 0x1FF || ways > 3
    ensures exists j, v, j', v' :: 0 <= j <= i && 0 <= v <= ways && 0 <= j' <= i && 0 <= v' <= ways && (j, v) != (j', v') &&
              SetWayWord(j, v) == SetWayWord(j', v')
  {
    if i > 0x1FF {
      SetWayWordValue(0, 0);
      SetWayWordValue(0x200, 0);
      assert SetWayWord(0, 0) == SetWayWord(0x200, 0);
    } else {
      SetWayWordValue(0, 0);
      SetWayWordValue(0, 4);
      assert SetWayWord(0, 0) == SetWayWord(0, 4);
    }
  }

  // ---------- whole-cache operations ----------

  /** The cache has the geometry that set/way operands can name. */
  predicate Nameable(s: State) {
    s.Shaped() && |s.sets| <= 0x200 && |s.sets[0]| <= 4
  }

  lemma {:induction false} SweepOperands(i: nat, ways: nat)
    ensures Operands(SweepWords(i, ways))
  {
    forall k | 0 <= k < |SweepWords(i, ways)|
      ensures SweepWords(i, ways)[k] < 0x1_0000_0000
    {
      hide SetWayWord;
      var j, v := SweepWordsFrom(i, ways, k);
      SweepWordsAt(i, ways, j, v);
      SetWayWordFields(j, v);
    }
  }

  ghost function Sweep(s: State, e: Effect): (t: State)
    requires Nameable(s)
    ensures Nameable(t) && |t.sets| == |s.sets| && |t.sets[0]| == |s.sets[0]| && t.on == s.on
  {
    hide SetWayWord, SweepWords, WayWords, ApplyAll, Operands;
    var i, ways := |s.sets| - 1, |s.sets[0]| - 1;
    SweepOperands(i, ways);
    ApplyAll(s, BySetWay(e), SweepWords(i, ways))
  }

  /** A sweep settles every line of the cache, whatever the cache contained. */
  lemma SweepSettles(s: State, e: Effect, j: int, v: int)
    requires Nameable(s) && s.InCache(j, v)
    ensures Sweep(s, e).InCache(j, v) && Settled(e, Sweep(s, e).sets[j][v])
  {
    hide SetWayWord, SetField, WayField, ApplyAll, SweepWords;
    var i, ways := |s.sets| - 1, |s.sets[0]| - 1;
    SweepOperands(i, ways);
    SweepWordsAt(i, ways, j, v);
    SetWayWordFields(j, v);
    NamedLineSettles(s, e, SweepWords(i, ways), SweepIndex(i, ways, j, v), j, v);
  }

  /** Clean, or clean and invalidate, of the whole cache: the view is unchanged and memory catches up with it. */
  lemma SweepCleans(s: State, e: Effect, a: LineAddress)
    requires Nameable(s) && s.Consistent() && !e.Invalidate?
    ensures var t := Sweep(s, e);
      t.Consistent() && View(t, a) == View(s, a) == t.memory[a] && (e.CleanInvalidate? ==> t.Empty())
  {
    hide ApplyAll, SweepWords, SetWayWord;
    var t := Sweep(s, e);
    SweepOperands(|s.sets| - 1, |s.sets[0]| - 1);
    ApplyAllKeepsView(s, BySetWay(e), SweepWords(|s.sets| - 1, |s.sets[0]| - 1), a);
    forall j, v | t.InCache(j, v)
      ensures Settled(e, t.sets[j][v])
    {
      SweepSettles(s, e, j, v);
    }
    if Hit(t, a) {
      assert t.InCache(t.SetOf(a), Way(t, a));
    }
  }

  /** Invalidation of the whole cache: memory is unchanged and the cache is empty, whatever it contained. */
  lemma SweepInvalidates(s: State)
    requires Nameable(s)
    ensures var t := Sweep(s, Invalidate); t.memory == s.memory && t.Consistent() && t.Empty()
  {
    hide ApplyAll, SweepWords, SetWayWord;
    var t := Sweep(s, Invalidate);
    SweepOperands(|s.sets| - 1, |s.sets[0]| - 1);
    InvalidateKeepsMemory(s, BySetWay(Invalidate), SweepWords(|s.sets| - 1, |s.sets[0]| - 1));
    forall j, v | t.InCache(j, v)
      ensures !t.sets[j][v].valid
    {
      SweepSettles(s, Invalidate, j, v);
    }
  }

  lemma EmptyView(s: State, a: LineAddress)
    requires s.Shaped() && s.Empty()
    ensures View(s, a) == s.memory[a]
  {
    assert Hit(s, a) ==> s.InCache(s.SetOf(a), Way(s, a));
  }

  // ---------- address ranges ----------

  /** The number of operands the by-address loops issue for a positive size. */
  function RangeCount(address: nat, size: nat): nat {
    (size + address % 32 + 31) / 32
  }

  /** The operands: the unaligned start address, then steps of one line. */
  function RangeWords(address: nat, n: nat): (words: seq<nat>)
    ensures |words| == n && Operands(words)
  {
    seq(n, k requires 0 <= k < n => (address + 32 * k) % 0x1_0000_0000)
  }

  /** Line `a` has a byte in [address, address + size). */
  predicate Meets(a: LineAddress, address: nat, size: nat) {
    32 * a < address + size && address < 32 * a + 32
  }

  /** The operands name exactly the lines that meet the range, each of them once, for any alignment. */
  lemma RangeTouchesExactly(address: nat, size: nat, a: LineAddress)
    requires size > 0 && address + size <= 0x1_0000_0000
    ensures var words := RangeWords(address, RangeCount(address, size));
      && (Meets(a, address, size) <==> exists k :: 0 <= k < |words| && words[k] / 32 == a)
      && (forall j, k :: 0 <= j < |words| && 0 <= k < |words| && words[j] / 32 == a && words[k] / 32 == a ==> j == k)
  {
    var n := RangeCount(address, size);
    var words := RangeWords(address, n);
    forall k | 0 <= k < n
      ensures words[k] / 32 == address / 32 + k
    {
      assert address + 32 * k < 0x1_0000_0000;
    }
    if Meets(a, address, size) {
      assert words[a - address / 32] / 32 == a;
    }
  }

  lemma ByAddressSyncs(s: State, e: Effect, operand: nat)
    requires s.Consistent() && operand < 0x1_0000_0000 && !e.Invalidate?
    ensures var t := Apply(s, ByAddress(e), operand); t.Consistent() && t.memory[operand / 32] == View(s, operand / 32)
  {
    var t, a := Apply(s, ByAddress(e), operand), operand / 32;
    if Hit(s, a) {
      var i, w := s.SetOf(a), Way(s, a);
      DoKeepsView(s, e, i, w, a);
      if e.Clean? {
        DoFrame(s, e, i, w, i, w);
        if s.sets[i][w].dirty { assert t.memory[a] == s.sets[i][w].data; }
      } else {
        DoKeepsView(s, Clean, i, w, a);
      }
    }
  }

  /** Clean by address: every line that a listed operand names is written back; the view never changes. */
  lemma {:induction false} RangeCleans(s: State, e: Effect, ops: seq<nat>, k: nat)
    requires s.Consistent() && Operands(ops) && !e.Invalidate? && k < |ops|
    ensures var t := ApplyAll(s, ByAddress(e), ops); t.Consistent() && t.memory[ops[k] / 32] == View(s, ops[k] / 32)
    decreases k
  {
    hide View, Apply;
    var a := ops[k] / 32;
    var t := Apply(s, ByAddress(e), ops[0]);
    ByAddressSyncs(s, e, ops[0]);
    ApplyKeepsView(s, ByAddress(e), ops[0], a);
    if k == 0 {
      ApplyAllKeepsView(t, ByAddress(e), ops[1..], a);
    } else {
      RangeCleans(t, e, ops[1..], k - 1);
    }
  }

  lemma InvalidateByAddress(s: State, operand: nat, a: LineAddress)
    requires s.Consistent() && operand < 0x1_0000_0000
    ensures var t := Apply(s, ByAddress(Invalidate), operand);
      && t.Consistent() && t.memory == s.memory
      && View(t, a) == if operand / 32 == a then s.memory[a] else View(s, a)
  {
    var t, b := Apply(s, ByAddress(Invalidate), operand), operand / 32;
    if Hit(s, b) {
      var i, w := s.SetOf(b), Way(s, b);
      SetLineFrame(s, i, w, s.sets[i][w].(valid := false));
      if Hit(s, a) && a != b {
        assert t.InCache(s.SetOf(a), Way(s, a));
        ViewOfHolder(t, s.SetOf(a), Way(s, a));
      } else {
        assert s.InCache(i, w);
        ViewOfMiss(t, a);
      }
    }
  }

  /** Invalidate by address: named lines are read from memory again; every other line keeps its contents. */
  lemma {:induction false} RangeInvalidates(s: State, ops: seq<nat>, a: LineAddress)
    requires s.Consistent() && Operands(ops)
    ensures var t := ApplyAll(s, ByAddress(Invalidate), ops);
      && t.Consistent() && t.memory == s.memory
      && View(t, a) == if exists k :: 0 <= k < |ops| && ops[k] / 32 == a then s.memory[a] else View(s, a)
    decreases |ops|
  {
    if ops != [] {
      var t := Apply(s, ByAddress(Invalidate), ops[0]);
      InvalidateByAddress(s, ops[0], a);
      RangeInvalidates(t, ops[1..], a);
      assert forall k :: 0 < k < |ops| ==> ops[k] == ops[1..][k - 1];
    }
  }
}
