/** What a clean-and-invalidate sweep leaves in memory, from any cache contents: lines may be stale, misplaced or held
    twice. The order in which the operands are issued then decides. */
module SweepOrder {
  import opened Bits
  import opened Cache

  /** A valid dirty line of address `a`. */
  ghost predicate Dirty(s: State, i: int, w: int, a: LineAddress) {
    s.InCache(i, w) && s.sets[i][w].valid && s.sets[i][w].dirty && s.sets[i][w].address == a
  }

  predicate Names(operand: nat, i: int, w: int) {
    SetField(operand) == i && WayField(operand) == w
  }

  /** One operation: it writes back the line it names and makes no line dirty. */
  lemma OneOperand(s: State, op: nat, a: LineAddress)
    requires s.Shaped() && op < 0x1_0000_0000
    ensures var t := Apply(s, BySetWay(CleanInvalidate), op);
      && (forall j, v :: Dirty(t, j, v, a) ==> Dirty(s, j, v, a) && !Names(op, j, v) && t.sets[j][v] == s.sets[j][v])
      && (forall j, v :: Dirty(s, j, v, a) && !Names(op, j, v) ==> Dirty(t, j, v, a) && t.sets[j][v] == s.sets[j][v])
  {
    hide SetField, WayField, Apply;
    var r := BySetWay(CleanInvalidate);
    var t := Apply(s, r, op);
    forall j, v | s.InCache(j, v)
      ensures t.InCache(j, v)
      ensures if Names(op, j, v) then !t.sets[j][v].valid else t.sets[j][v] == s.sets[j][v]
    {
      ApplyFrame(s, r, op, j, v);
    }
    forall j, v | t.InCache(j, v)
      ensures s.InCache(j, v)
    {
    }
  }

  /** Memory changes only at the address of the dirty line that the operand names. */
  lemma OneWriteBack(s: State, op: nat, a: LineAddress)
    requires s.Shaped() && op < 0x1_0000_0000
    ensures var t, i, w := Apply(s, BySetWay(CleanInvalidate), op), SetField(op), WayField(op);
      t.memory[a] == if Dirty(s, i, w, a) then s.sets[i][w].data else s.memory[a]
  {
    hide SetField, WayField;
    var i, w := SetField(op), WayField(op);
    if s.InCache(i, w) {
      SetLineFrame(s, i, w, s.sets[i][w].(dirty := false));
    }
  }

  lemma DirtyIndices(s: State, i: int, w: int, a: LineAddress)
    requires Dirty(s, i, w, a)
    ensures s.InCache(i, w) && i >= 0 && w >= 0
  {
  }

  /** When no remaining operand names a dirty line of `a`, memory keeps its contents of `a`. */
  lemma {:induction false} NoneLeft(s: State, ops: seq<nat>, a: LineAddress)
    requires s.Shaped() && Operands(ops)
    requires forall k, j, v :: 0 <= k < |ops| && Names(ops[k], j, v) ==> !Dirty(s, j, v, a)
    ensures ApplyAll(s, BySetWay(CleanInvalidate), ops).memory[a] == s.memory[a]
    decreases |ops|
  {
    hide SetField, WayField, Apply, Dirty;
    if ops != [] {
      OneWriteBack(s, ops[0], a);
      OneOperand(s, ops[0], a);
      assert Names(ops[0], SetField(ops[0]), WayField(ops[0]));
      NoneLeft(Apply(s, BySetWay(CleanInvalidate), ops[0]), ops[1..], a);
    }
  }

  /** Operand `k` is the last one to name a dirty line of `a`, and the first to name that line: it decides. */
  lemma {:induction false} LastWins(s: State, ops: seq<nat>, a: LineAddress, k: nat, i: int, w: int)
    requires s.Shaped() && Operands(ops) && k < |ops| && Names(ops[k], i, w) && Dirty(s, i, w, a)
    requires forall n :: 0 <= n < k ==> !Names(ops[n], i, w)
    requires forall n, j, v :: k < n < |ops| && Names(ops[n], j, v) ==> !Dirty(s, j, v, a)
    ensures ApplyAll(s, BySetWay(CleanInvalidate), ops).memory[a] == s.sets[i][w].data
    decreases k
  {
    hide SetField, WayField, Apply, Dirty, Names;
    var t := Apply(s, BySetWay(CleanInvalidate), ops[0]);
    OneOperand(s, ops[0], a);
    if k == 0 {
      OneWriteBack(s, ops[0], a);
      assert SetField(ops[0]) == i && WayField(ops[0]) == w by { NamesFields(ops[0], i, w); }
      NoneLeft(t, ops[1..], a);
    } else {
      DirtyIndices(s, i, w, a);
      DirtyIndices(t, i, w, a);
      assert t.sets[i][w] == s.sets[i][w];
      LastWins(t, ops[1..], a, k - 1, i, w);
    }
  }

  lemma NamesFields(op: nat, i: int, w: int)
    ensures Names(op, i, w) <==> SetField(op) == i && WayField(op) == w
  {
  }

  /** Sets and ways count down, so of two lines the sweep names the one with the smaller set, or way, later. */
  predicate Later(j: int, v: int, i: int, w: int) { j < i || (j == i && v < w) }

  lemma IndexOrder(top: nat, ways: nat, i: nat, w: nat, j: nat, v: nat)
    requires i <= top && j <= top && w <= ways && v <= ways
    ensures SweepIndex(top, ways, j, v) > SweepIndex(top, ways, i, w) <==> Later(j, v, i, w)
  {
    var n := ways + 1;
    if j < i {
      MulAtLeast(i - j, n);
      assert (top - j) * n == (top - i) * n + (i - j) * n;
    } else if i < j {
      MulAtLeast(j - i, n);
      assert (top - i) * n == (top - j) * n + (j - i) * n;
    }
  }

  /** The dirty line of its address that a sweep names last. */
  ghost predicate LastDirty(s: State, i: int, w: int, a: LineAddress) {
    Dirty(s, i, w, a) && forall j, v :: Later(j, v, i, w) ==> !Dirty(s, j, v, a)
  }

  lemma {:induction false} FindLast(s: State, i: nat, w: nat, a: LineAddress) returns (j: int, v: int)
    requires Dirty(s, i, w, a)
    ensures LastDirty(s, j, v, a)
    decreases i, w
  {
    hide Dirty;
    if j', v' :| Later(j', v', i, w) && Dirty(s, j', v', a) {
      DirtyIndices(s, j', v', a);
      j, v := FindLast(s, j', v', a);
    } else {
      j, v := i, w;
    }
  }

  /** The operands of a sweep name each line once, in that order. */
  lemma SweepNames(s: State, i: nat, w: nat, k: nat)
    requires Nameable(s) && s.InCache(i, w) && k < |SweepWords(|s.sets| - 1, |s.sets[0]| - 1)|
    ensures Names(SweepWords(|s.sets| - 1, |s.sets[0]| - 1)[k], i, w) <==> k == SweepIndex(|s.sets| - 1, |s.sets[0]| - 1, i, w)
  {
    hide SetField, WayField, SweepWords, SetWayWord;
    SweepIssuesEachOnce(|s.sets| - 1, |s.sets[0]| - 1, i, w, k);
  }

  /** Memory after a clean-and-invalidate sweep, address by address: the last dirty line named, if there is one. */
  lemma SweepMemory(s: State, a: LineAddress)
    requires Nameable(s)
    ensures (forall i, w :: !Dirty(s, i, w, a)) ==> Sweep(s, CleanInvalidate).memory[a] == s.memory[a]
    ensures forall i, w :: LastDirty(s, i, w, a) ==> Sweep(s, CleanInvalidate).memory[a] == s.sets[i][w].data
  {
    hide SetField, WayField, SweepWords, SetWayWord, Dirty, Names, ApplyAll, SweepIndex;
    var top, ways := |s.sets| - 1, |s.sets[0]| - 1;
    var ops := SweepWords(top, ways);
    SweepOperands(top, ways);
    if forall i, w :: !Dirty(s, i, w, a) {
      NoneLeft(s, ops, a);
    }
    forall i, w | LastDirty(s, i, w, a)
      ensures s.InCache(i, w) && Sweep(s, CleanInvalidate).memory[a] == s.sets[i][w].data
    {
      LastDecides(s, i, w, a);
    }
  }

  lemma LastDecides(s: State, i: int, w: int, a: LineAddress)
    requires Nameable(s) && LastDirty(s, i, w, a)
    ensures s.InCache(i, w) && Sweep(s, CleanInvalidate).memory[a] == s.sets[i][w].data
  {
    hide SetField, WayField, SweepWords, SetWayWord, Dirty, Names, ApplyAll, SweepIndex;
    var top, ways := |s.sets| - 1, |s.sets[0]| - 1;
    var ops := SweepWords(top, ways);
    SweepOperands(top, ways);
    DirtyIndices(s, i, w, a);
    SweepWordsAt(top, ways, i, w);
    var k := SweepIndex(top, ways, i, w);
    forall n | 0 <= n < |ops|
      ensures Names(ops[n], i, w) <==> n == k
    {
      SweepNames(s, i, w, n);
    }
    forall n, j, v | k < n < |ops| && Names(ops[n], j, v)
      ensures !Dirty(s, j, v, a)
    {
      if Dirty(s, j, v, a) {
        DirtyIndices(s, j, v, a);
        SweepNames(s, j, v, n);
        IndexOrder(top, ways, i, w, j, v);
      }
    }
    LastWins(s, ops, a, k, i, w);
  }
}
