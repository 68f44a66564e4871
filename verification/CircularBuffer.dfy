/** The circular buffer copies of arm_math.h: arm_circularWrite_* and arm_circularRead_*. */
module CircularBuffer {
  import opened Arithmetic
  import opened Bits

  // ---------- the walk through the buffer ----------

  /** The next offset: one conditional subtraction of the length, whatever the increment. */
  function Next(offset: int, inc: int, length: int): int {
    if offset + inc >= length then offset + inc - length else offset + inc
  }

  /** The offset of sample `k`. */
  function Slot(offset: int, inc: int, length: int, k: nat): int
    decreases k
  {
    if k == 0 then offset else Next(Slot(offset, inc, length, k - 1), inc, length)
  }

  function Slots(offset: int, inc: int, length: int, n: nat): (s: seq<int>)
    ensures |s| == n && forall k :: 0 <= k < n ==> s[k] == Slot(offset, inc, length, k)
  {
    seq(n, k requires 0 <= k < n => Slot(offset, inc, length, k))
  }

  ghost predicate InBounds(positions: seq<int>, length: int) {
    forall k :: 0 <= k < |positions| ==> 0 <= positions[k] < length
  }

  lemma StepMod(x: int, length: int, inc: int)
    requires length > 0 && 0 <= inc <= length
    ensures (x + inc) % length == Next(x % length, inc, length)
  {
    var q, r := x / length, x % length;
    if r + inc >= length {
      DivModUnique(x + inc, length, q + 1, r + inc - length);
    } else {
      DivModUnique(x + inc, length, q, r + inc);
    }
  }

  /** For an increment up to the length: the start offset plus `k` increments, modulo the length. */
  lemma {:induction false} SlotValue(offset: int, inc: int, length: int, k: nat)
    requires 0 <= offset < length && 0 <= inc <= length
    ensures Slot(offset, inc, length, k) == (offset + inc * k) % length
    decreases k
  {
    hide Next;
    if k == 0 {
      DivModUnique(offset, length, 0, offset);
    } else {
      SlotValue(offset, inc, length, k - 1);
      Distribute(inc, k - 1, 1);
      StepMod(offset + inc * (k - 1), length, inc);
    }
  }

  /** For a negative increment nothing is ever subtracted. */
  lemma {:induction false} SlotFalls(offset: int, inc: int, length: int, k: nat)
    requires offset < length && inc < 0
    ensures Slot(offset, inc, length, k) == offset + inc * k < length
    decreases k
  {
    if k > 0 {
      SlotFalls(offset, inc, length, k - 1);
      Distribute(inc, k - 1, 1);
    }
  }

  /** For an increment beyond the length it always is. */
  lemma {:induction false} SlotClimbs(offset: int, inc: int, length: int, k: nat)
    requires 0 <= offset && inc > length
    ensures Slot(offset, inc, length, k) == offset + (inc - length) * k >= 0
    decreases k
  {
    if k > 0 {
      SlotClimbs(offset, inc, length, k - 1);
      Distribute(inc - length, k - 1, 1);
    }
  }

  /** What keeps a walk of `n` samples inside the buffer: an increment from zero to the length; a negative one only
      until it runs out below, a larger one only until it runs out above. */
  lemma InBoundsIff(offset: int, inc: int, length: int, n: nat)
    requires 0 <= offset < length
    ensures InBounds(Slots(offset, inc, length, n), length) <==>
      || n <= 1
      || 0 <= inc <= length
      || (inc < 0 && offset + inc * (n - 1) >= 0)
      || (inc > length && offset + (inc - length) * (n - 1) < length)
  {
    hide Slot;
    var s := Slots(offset, inc, length, n);
    if 0 <= inc <= length {
      forall k | 0 <= k < n ensures 0 <= s[k] < length { SlotValue(offset, inc, length, k); }
    } else if n >= 1 {
      if inc < 0 { SlotFalls(offset, inc, length, n - 1); } else { SlotClimbs(offset, inc, length, n - 1); }
      assert s[n - 1] == Slot(offset, inc, length, n - 1);
      if 0 <= s[n - 1] < length {
        forall k | 0 <= k < n
          ensures 0 <= s[k] < length
        {
          if inc < 0 {
            SlotFalls(offset, inc, length, k);
            Between(-inc, k, n - 1);
          } else {
            SlotClimbs(offset, inc, length, k);
            Between(inc - length, k, n - 1);
          }
        }
      } else if n == 1 {
        assert s[0] == offset by { SlotStart(offset, inc, length); }
      }
    }
  }

  lemma SlotStart(offset: int, inc: int, length: int)
    ensures Slot(offset, inc, length, 0) == offset
  {
  }

  lemma {:induction false} SlotAdd(offset: int, inc: int, length: int, j: nat, k: nat)
    ensures Slot(offset, inc, length, j + k) == Slot(Slot(offset, inc, length, j), inc, length, k)
    decreases k
  {
    if k > 0 { SlotAdd(offset, inc, length, j, k - 1); }
  }

  lemma SlotsAppend(offset: int, inc: int, length: int, m: nat, n: nat)
    ensures Slots(offset, inc, length, m + n) ==
      Slots(offset, inc, length, m) + Slots(Slot(offset, inc, length, m), inc, length, n)
  {
    forall k | 0 <= k < n
      ensures Slot(offset, inc, length, m + k) == Slot(Slot(offset, inc, length, m), inc, length, k)
    {
      SlotAdd(offset, inc, length, m, k);
    }
  }

  // ---------- writing and reading at given positions ----------

  /** The buffer after the samples have been written one by one. */
  function Written(buffer: seq<int>, positions: seq<int>, samples: seq<int>): (b: seq<int>)
    requires |positions| == |samples| && InBounds(positions, |buffer|)
    ensures |b| == |buffer|
    decreases |samples|
  {
    if samples == [] then buffer
    else
      var n := |samples| - 1;
      Written(buffer, positions[..n], samples[..n])[positions[n] := samples[n]]
  }

  /** The samples that a read delivers, in order. */
  function Samples(buffer: seq<int>, positions: seq<int>): (s: seq<int>)
    requires InBounds(positions, |buffer|)
    ensures |s| == |positions| && forall k :: 0 <= k < |s| ==> s[k] == buffer[positions[k]]
  {
    seq(|positions|, k requires 0 <= k < |positions| => buffer[positions[k]])
  }

  ghost predicate Distinct(positions: seq<int>) {
    forall j, k :: 0 <= j < k < |positions| ==> positions[j] != positions[k]
  }

  lemma {:induction false} WrittenAppend(buffer: seq<int>, p: seq<int>, first: seq<int>, q: seq<int>, second: seq<int>)
    requires |p| == |first| && |q| == |second| && InBounds(p, |buffer|) && InBounds(q, |buffer|)
    ensures Written(buffer, p + q, first + second) == Written(Written(buffer, p, first), q, second)
    decreases |second|
  {
    if second == [] {
      assert first + second == first && p + q == p;
    } else {
      var n := |second| - 1;
      WrittenAppend(buffer, p, first, q[..n], second[..n]);
      assert (first + second)[..|first| + n] == first + second[..n];
      assert (p + q)[..|first| + n] == p + q[..n];
    }
  }

  /** Writing a block in two calls, the second from the offset the first returns, equals writing it in one. */
  lemma TwoWrites(buffer: seq<int>, offset: int, inc: int, first: seq<int>, second: seq<int>)
    requires InBounds(Slots(offset, inc, |buffer|, |first| + |second|), |buffer|)
    ensures InBounds(Slots(offset, inc, |buffer|, |first|), |buffer|)
    ensures InBounds(Slots(Slot(offset, inc, |buffer|, |first|), inc, |buffer|, |second|), |buffer|)
    ensures Written(buffer, Slots(offset, inc, |buffer|, |first| + |second|), first + second) ==
      Written(Written(buffer, Slots(offset, inc, |buffer|, |first|), first),
              Slots(Slot(offset, inc, |buffer|, |first|), inc, |buffer|, |second|), second)
  {
    hide Slot, Slots, Written, InBounds;
    var p := Slots(offset, inc, |buffer|, |first|);
    var q := Slots(Slot(offset, inc, |buffer|, |first|), inc, |buffer|, |second|);
    SlotsAppend(offset, inc, |buffer|, |first|, |second|);
    BothInBounds(p, q, |buffer|);
    WrittenAppend(buffer, p, first, q, second);
  }

  lemma BothInBounds(p: seq<int>, q: seq<int>, length: int)
    requires InBounds(p + q, length)
    ensures InBounds(p, length) && InBounds(q, length)
  {
    forall k | 0 <= k < |p| ensures 0 <= p[k] < length { assert (p + q)[k] == p[k]; }
    forall k | 0 <= k < |q| ensures 0 <= q[k] < length { assert (p + q)[|p| + k] == q[k]; }
  }

  /** A cell that no sample goes to keeps its value. */
  lemma {:induction false} NotWritten(buffer: seq<int>, positions: seq<int>, samples: seq<int>, c: nat)
    requires |positions| == |samples| && InBounds(positions, |buffer|) && c < |buffer| && c !in positions
    ensures Written(buffer, positions, samples)[c] == buffer[c]
    decreases |samples|
  {
    if samples != [] {
      var n := |samples| - 1;
      assert positions[n] in positions;
      NotWritten(buffer, positions[..n], samples[..n], c);
    }
  }

  /** A cell holds the last sample that goes to it. */
  lemma {:induction false} LastWriteWins(buffer: seq<int>, positions: seq<int>, samples: seq<int>, j: nat)
    requires |positions| == |samples| && InBounds(positions, |buffer|) && j < |samples|
    requires forall k :: j < k < |samples| ==> positions[k] != positions[j]
    ensures Written(buffer, positions, samples)[positions[j]] == samples[j]
    decreases |samples|
  {
    var n := |samples| - 1;
    if j < n {
      LastWriteWins(buffer, positions[..n], samples[..n], j);
    }
  }

  ghost predicate ReadsBack(buffer: seq<int>, positions: seq<int>)
    requires InBounds(positions, |buffer|)
  {
    forall block: seq<int> :: |block| == |positions| ==> Samples(Written(buffer, positions, block), positions) == block
  }

  lemma BlockComesBack(buffer: seq<int>, positions: seq<int>, block: seq<int>)
    requires |positions| == |block| && InBounds(positions, |buffer|) && Distinct(positions)
    ensures Samples(Written(buffer, positions, block), positions) == block
  {
    hide Written;
    forall k | 0 <= k < |block|
      ensures Written(buffer, positions, block)[positions[k]] == block[k]
    {
      LastWriteWins(buffer, positions, block, k);
    }
  }

  function Numbers(n: nat): (s: seq<int>)
    ensures |s| == n && forall i :: 0 <= i < n ==> s[i] == i
  {
    seq(n, i requires 0 <= i < n => i)
  }

  /** A read from the positions of a write returns the written block, whatever it is, exactly when no position
      occurs twice. */
  lemma ReadsBackIff(buffer: seq<int>, positions: seq<int>)
    requires InBounds(positions, |buffer|)
    ensures ReadsBack(buffer, positions) <==> Distinct(positions)
  {
    hide Written;
    if Distinct(positions) {
      forall block: seq<int> | |block| == |positions|
        ensures Samples(Written(buffer, positions, block), positions) == block
      {
        BlockComesBack(buffer, positions, block);
      }
    } else {
      var j, k :| 0 <= j < k < |positions| && positions[j] == positions[k];
      var block := Numbers(|positions|);
      var s := Samples(Written(buffer, positions, block), positions);
      assert s[j] == s[k] && block[j] != block[k];
      assert s != block;
    }
  }

  // ---------- when no cell is visited twice ----------

  function Gcd(a: nat, b: nat): (g: nat)
    ensures g >= 1 <==> a >= 1 || b >= 1
    decreases b
  {
    if b == 0 then a else Gcd(b, a % b)
  }

  /** The greatest common divisor divides both numbers and is a combination of them. */
  lemma {:induction false} Bezout(a: nat, b: nat) returns (u: nat, v: nat, x: int, y: int)
    ensures a == Gcd(a, b) * u && b == Gcd(a, b) * v && a * x + b * y == Gcd(a, b)
    decreases b
  {
    if b == 0 {
      u, v, x, y := 1, 0, 1, 0;
    } else {
      hide Gcd;
      var q := a / b;
      GcdStep(a, b);
      var u', v', x', y' := Bezout(b, a % b);
      u, v, x, y := q * u' + v', u', y', x' - q * y';
      BezoutStep(a, b, a % b, q, Gcd(b, a % b), u', v', x', y');
    }
  }

  lemma GcdStep(a: nat, b: nat)
    requires b > 0
    ensures Gcd(a, b) == Gcd(b, a % b)
  {
  }

  lemma BezoutStep(a: int, b: int, r: int, q: int, g: int, u: int, v: int, x: int, y: int)
    requires a == q * b + r && b == g * u && r == g * v && b * x + r * y == g
    ensures a == g * (q * u + v) && a * y + b * (x - q * y) == g
  {
    Distribute(g, q * u, v);
    assert q * b == g * (q * u) by { Regroup(q, g, u); Regroup(g, q, u); }
    Distribute(b, x, q * y);
    assert a * y == b * (q * y) + r * y by { Regroup(b, q, y); Distribute(y, q * b, r); }
  }

  /** `d` increments lead back to the start. */
  predicate ReturnsAfter(inc: int, length: int, d: int)
    requires length > 0
  {
    inc * d % length == 0
  }

  lemma SameSlot(offset: int, inc: int, length: int, j: nat, k: nat)
    requires 0 <= offset < length && 0 <= inc <= length && j <= k
    ensures Slot(offset, inc, length, j) == Slot(offset, inc, length, k) <==> ReturnsAfter(inc, length, k - j)
  {
    hide Slot;
    SlotValue(offset, inc, length, j);
    SlotValue(offset, inc, length, k);
    Distribute(inc, j, k - j);
    SameResidue(offset + inc * j, inc * (k - j), length);
  }

  lemma SameResidue(x: int, d: int, m: int)
    requires m > 0
    ensures x % m == (x + d) % m <==> d % m == 0
  {
    var q, r := x / m, x % m;
    if d % m == 0 {
      Distribute(m, q, d / m);
      DivModUnique(x + d, m, q + d / m, r);
    }
    if x % m == (x + d) % m {
      var p := (x + d) / m;
      Distribute(m, p, q);
      DivModUnique(d, m, p - q, 0);
    }
  }

  /** The walk returns to its start first after length / gcd steps. */
  lemma FirstReturn(inc: nat, length: nat, d: int)
    requires length > 0 && d > 0
    ensures ReturnsAfter(inc, length, d) ==> Gcd(inc, length) * d >= length
    ensures Gcd(inc, length) * d == length ==> ReturnsAfter(inc, length, d)
  {
    hide Gcd;
    var g := Gcd(inc, length);
    var u, v, x, y := Bezout(inc, length);
    if inc * d % length == 0 {
      var z := inc * d / length;
      assert inc * d == length * z;
      assert g * d == length * (z * x + y * d) by { Combination(inc, length, d, x, y, z, g); }
      Positive(g, d);
      var w := z * x + y * d;
      if w <= 0 { Between(length, w, 0); } else { Between(length, 1, w); }
    }
    if g * d == length {
      assert inc * d == u * length by { Regroup(u, g, d); }
      MultipleMod(u, length);
    }
  }

  lemma Combination(inc: int, length: int, d: int, x: int, y: int, z: int, g: int)
    requires inc * x + length * y == g && inc * d == length * z
    ensures g * d == length * (z * x + y * d)
  {
    assert g * d == (inc * d) * x + length * (y * d) by {
      Distribute(d, inc * x, length * y);
      Regroup(inc, d, x);
      Regroup(inc, x, d);
      Regroup(length, y, d);
    }
    Regroup(length, z, x);
    Distribute(length, z * x, y * d);
  }

  /** A walk of `n` samples visits no cell twice exactly when n times the greatest common divisor of increment and
      length is at most the length. */
  lemma DistinctIff(offset: int, inc: nat, length: nat, n: nat)
    requires 0 <= offset < length && inc <= length
    ensures Distinct(Slots(offset, inc, length, n)) <==> n * Gcd(inc, length) <= length
  {
    hide Slot, Gcd, ReturnsAfter;
    var g := Gcd(inc, length);
    var u, v, x, y := Bezout(inc, length);
    if n * g <= length {
      forall j, k | 0 <= j < k < n
        ensures Slot(offset, inc, length, j) != Slot(offset, inc, length, k)
      {
        SameSlot(offset, inc, length, j, k);
        FirstReturn(inc, length, k - j);
        if g * (k - j) >= length { Between(g, k - j, n - 1); Distribute(g, n, 1); }
      }
    } else {
      if v >= n { Between(g, n, v); }
      if v <= 0 { Between(g, v, 0); }
      FirstReturn(inc, length, v);
      SameSlot(offset, inc, length, 0, v);
      assert Slots(offset, inc, length, n)[0] == Slots(offset, inc, length, n)[v];
    }
  }

  /** A walk that stays inside with a negative increment, or one beyond the length, never meets a cell again. */
  lemma OneWayDistinct(offset: int, inc: int, length: int, n: nat)
    requires 0 <= offset < length && (inc < 0 || inc > length)
    ensures Distinct(Slots(offset, inc, length, n))
  {
    hide Slot;
    forall j, k | 0 <= j < k < n
      ensures Slot(offset, inc, length, j) != Slot(offset, inc, length, k)
    {
      if inc < 0 {
        SlotFalls(offset, inc, length, j);
        SlotFalls(offset, inc, length, k);
        Between(-inc, j + 1, k);
        Distribute(-inc, j, 1);
      } else {
        SlotClimbs(offset, inc, length, j);
        SlotClimbs(offset, inc, length, k);
        Between(inc - length, j + 1, k);
        Distribute(inc - length, j, 1);
      }
    }
  }

  /** Reading a block back from where it was written returns it, whatever it is, exactly when n times the greatest
      common divisor of increment and length is at most the length; outside that range of increments, always. */
  lemma ReadAfterWrite(buffer: seq<int>, offset: int, inc: int, n: nat)
    requires 0 <= offset < |buffer| && InBounds(Slots(offset, inc, |buffer|, n), |buffer|)
    ensures ReadsBack(buffer, Slots(offset, inc, |buffer|, n)) <==>
      (0 <= inc <= |buffer| ==> n * Gcd(inc, |buffer|) <= |buffer|)
  {
    hide Slot, Gcd, Written;
    ReadsBackIff(buffer, Slots(offset, inc, |buffer|, n));
    if 0 <= inc <= |buffer| {
      DistinctIff(offset, inc, |buffer|, n);
    } else {
      OneWayDistinct(offset, inc, |buffer|, n);
    }
  }

  lemma FactorAtMost(g: nat, u: nat, product: int)
    requires product == g * u && product >= 1
    ensures g <= product
  {
    if u >= 1 { Between(g, 1, u); }
  }

  /** In particular when the samples span at most one turn. */
  lemma OneTurnDistinct(offset: int, inc: nat, length: nat, n: nat)
    requires 0 <= offset < length && 1 <= inc <= length && n * inc <= length
    ensures Distinct(Slots(offset, inc, length, n))
  {
    hide Gcd;
    var u, v, x, y := Bezout(inc, length);
    var g := Gcd(inc, length);
    FactorAtMost(g, u, inc);
    Between(n, g, inc);
    DistinctIff(offset, inc, length, n);
  }

  /** With increment one and at most a bufferful of samples: the block comes back, all other cells are unchanged. */
  lemma UnitIncrement(buffer: seq<int>, offset: int, block: seq<int>, c: nat)
    requires 0 <= offset < |buffer| && |block| <= |buffer| && c < |buffer|
    ensures var s := Slots(offset, 1, |buffer|, |block|);
      && InBounds(s, |buffer|) && Samples(Written(buffer, s, block), s) == block
      && (c !in s ==> Written(buffer, s, block)[c] == buffer[c])
  {
    hide Written, Slots;
    var s := Slots(offset, 1, |buffer|, |block|);
    InBoundsIff(offset, 1, |buffer|, |block|);
    OneTurnDistinct(offset, 1, |buffer|, |block|);
    BlockComesBack(buffer, s, block);
    if c !in s { NotWritten(buffer, s, block, c); }
  }

  // ---------- the copies ----------

  /** The source samples that a write picks up: every `srcInc`-th from position `start` on. */
  function Picked(src: seq<int>, start: int, srcInc: int, n: nat): (s: seq<int>)
    requires forall k :: 0 <= k < n ==> 0 <= start + k * srcInc < |src|
    ensures |s| == n
  {
    seq(n, k requires 0 <= k < n => src[start + k * srcInc])
  }

  lemma PickedAt(src: seq<int>, start: int, srcInc: int, n: nat, k: nat)
    requires k < n && forall j :: 0 <= j < n ==> 0 <= start + j * srcInc < |src|
    ensures Picked(src, start, srcInc, n)[k] == src[start + k * srcInc]
  {
  }

  /** After a write a cell holds the source sample of its last visit: sample `k` counted from `start` in steps of `srcInc`,
      when no later sample goes to the same cell. */
  lemma WriteCell(buffer: seq<int>, offset: int, inc: int, src: seq<int>, start: int, srcInc: int, n: nat, k: nat)
    requires InBounds(Slots(offset, inc, |buffer|, n), |buffer|)
    requires forall j :: 0 <= j < n ==> 0 <= start + j * srcInc < |src|
    requires k < n && forall l :: k < l < n ==> Slot(offset, inc, |buffer|, l) != Slot(offset, inc, |buffer|, k)
    ensures 0 <= Slot(offset, inc, |buffer|, k) < |buffer|
    ensures Written(buffer, Slots(offset, inc, |buffer|, n), Picked(src, start, srcInc, n))[Slot(offset, inc, |buffer|, k)] ==
      src[start + k * srcInc]
  {
    hide Written, Slot, Picked;
    BoundsAt(Slots(offset, inc, |buffer|, n), |buffer|, k);
    PickedAt(src, start, srcInc, n, k);
    LastWriteWins(buffer, Slots(offset, inc, |buffer|, n), Picked(src, start, srcInc, n), k);
  }

  lemma PickedStretch(src: seq<int>, start: nat, n: nat)
    requires start + n <= |src|
    ensures Picked(src, start, 1, n) == src[start..start + n]
  {
  }

  /** Writing a stretch of the source with unit increments and reading it back from the same offset returns the stretch. */
  lemma SourceComesBack(buffer: seq<int>, offset: int, src: seq<int>, start: nat, n: nat)
    requires 0 <= offset < |buffer| && n <= |buffer| && start + n <= |src|
    ensures var s := Slots(offset, 1, |buffer|, n);
      InBounds(s, |buffer|) && Samples(Written(buffer, s, Picked(src, start, 1, n)), s) == src[start..start + n]
  {
    hide Written, Slots, Picked, InBounds, Distinct;
    var block := Picked(src, start, 1, n);
    PickedStretch(src, start, n);
    InBoundsIff(offset, 1, |buffer|, n);
    OneTurnDistinct(offset, 1, |buffer|, n);
    BlockComesBack(buffer, Slots(offset, 1, |buffer|, n), block);
  }

  lemma WrittenNext(buffer: seq<int>, positions: seq<int>, samples: seq<int>, k: nat)
    requires |positions| == |samples| && InBounds(positions, |buffer|) && k < |samples|
    ensures Written(buffer, positions[..k + 1], samples[..k + 1]) ==
      Written(buffer, positions[..k], samples[..k])[positions[k] := samples[k]]
  {
    assert samples[..k + 1][..k] == samples[..k];
    assert positions[..k + 1][..k] == positions[..k];
  }

  lemma WrittenStart(buffer: seq<int>, positions: seq<int>, samples: seq<int>)
    requires |positions| == |samples| && InBounds(positions, |buffer|)
    ensures Written(buffer, positions[..0], samples[..0]) == buffer
  {
  }

  lemma SlotNext(offset: int, inc: int, length: int, k: nat)
    ensures Slot(offset, inc, length, k + 1) == Next(Slot(offset, inc, length, k), inc, length)
  {
  }

  /** arm_circularWrite. `writeOffset` is a 16-bit variable of the caller, so the new offset is cut to 16 bits. The
      last precondition says that the sum of offset and increment has 32 bits. */
  method Write(circBuffer: array<int>, writeOffset: nat, bufferInc: int,
               src: seq<int>, start: int, srcInc: int, blockSize: nat)
    returns (newOffset: nat)
    requires InBounds(Slots(writeOffset, bufferInc, circBuffer.Length, blockSize), circBuffer.Length)
    requires forall k :: 0 <= k < blockSize ==> 0 <= start + k * srcInc < |src|
    requires -0x8000_0000 <= bufferInc <= 0x8000_0000 - circBuffer.Length
    modifies circBuffer
    ensures circBuffer[..] == Written(old(circBuffer[..]), Slots(writeOffset, bufferInc, circBuffer.Length, blockSize),
                                      Picked(src, start, srcInc, blockSize))
    ensures newOffset == Slot(writeOffset, bufferInc, circBuffer.Length, blockSize) % 0x1_0000
  {
    hide Written, Slot, InBounds;
    ghost var before, block, k := circBuffer[..], Picked(src, start, srcInc, blockSize), 0;
    var length := circBuffer.Length;
    ghost var slots := Slots(writeOffset, bufferInc, length, blockSize);
    var wOffset: int := writeOffset;
    var position := start;
    var i := blockSize;
    WrittenStart(before, slots, block);
    BoundsStart(slots, length);
    SlotStart(writeOffset, bufferInc, length);
    while i > 0
      invariant 0 <= i <= blockSize && k == blockSize - i && position == start + k * srcInc
      invariant wOffset == Slot(writeOffset, bufferInc, length, k)
      invariant InBounds(slots[..k], length)
      invariant circBuffer[..] == Written(before, slots[..k], block[..k])
    {
      BoundsAt(slots, length, k);
      WrittenNext(before, slots, block, k);
      SlotNext(writeOffset, bufferInc, length, k);
      Distribute(srcInc, k, 1);
      circBuffer[wOffset] := src[position];
      position := position + srcInc;
      wOffset := wOffset + bufferInc;
      if wOffset >= length {
        wOffset := wOffset - length;
      }
      i := i - 1;
      k := k + 1;
    }
    assert block[..blockSize] == block && slots[..blockSize] == slots;
    newOffset := wOffset % 0x1_0000;
  }

  lemma BoundsAt(positions: seq<int>, length: int, k: nat)
    requires InBounds(positions, length) && k < |positions|
    ensures 0 <= positions[k] < length && InBounds(positions[..k], length) && InBounds(positions[..k + 1], length)
  {
  }

  lemma BoundsStart(positions: seq<int>, length: int)
    ensures InBounds(positions[..0], length)
  {
  }

  /** For a buffer of up to 2^16 cells and an increment up to the length, the returned offset is the start plus all
      increments, modulo the length. */
  lemma NewOffset(offset: nat, inc: int, length: int, n: nat)
    requires offset < length <= 0x1_0000 && 0 <= inc <= length
    ensures Slot(offset, inc, length, n) % 0x1_0000 == (offset + inc * n) % length
  {
    hide Slot;
    SlotValue(offset, inc, length, n);
  }

  // ---------- the walk through the destination of a read ----------

  /** The destination pointer wraps only when it meets the end exactly. */
  function NextDst(position: int, inc: int, length: int): int {
    if position + inc == length then 0 else position + inc
  }

  function DstSlot(start: int, inc: int, length: int, k: nat): int
    decreases k
  {
    if k == 0 then start else NextDst(DstSlot(start, inc, length, k - 1), inc, length)
  }

  function DstSlots(start: int, inc: int, length: int, n: nat): (s: seq<int>)
    ensures |s| == n && forall k :: 0 <= k < n ==> s[k] == DstSlot(start, inc, length, k)
  {
    seq(n, k requires 0 <= k < n => DstSlot(start, inc, length, k))
  }

  lemma {:induction false} DstSlotAdd(start: int, inc: int, length: int, j: nat, k: nat)
    ensures DstSlot(start, inc, length, j + k) == DstSlot(DstSlot(start, inc, length, j), inc, length, k)
    decreases k
  {
    if k > 0 { DstSlotAdd(start, inc, length, j, k - 1); }
  }

  lemma DstStep(start: int, inc: int, length: int, k: nat)
    ensures DstSlot(start, inc, length, k + 1) == NextDst(DstSlot(start, inc, length, k), inc, length)
    ensures DstSlot(start, inc, length, k + 1) == DstSlot(NextDst(start, inc, length), inc, length, k)
  {
    DstSlotAdd(start, inc, length, 1, k);
  }

  /** The end is a whole number of steps away. */
  predicate StepsToEnd(position: int, inc: int, length: int)
    requires inc > 0
  {
    (length - position) % inc == 0
  }

  lemma StepsToEndNext(position: int, inc: int, length: int)
    requires inc > 0 && position < length
    ensures StepsToEnd(position, inc, length) ==> position + inc <= length
    ensures StepsToEnd(position + inc, inc, length) <==> StepsToEnd(position, inc, length)
  {
    var d := length - position;
    SameResidue(0, d, inc);
    SameResidue(0, d - inc, inc);
    SameResidue(d - inc, inc, inc);
    DivModUnique(inc, inc, 1, 0);
    if d % inc == 0 && d < inc { DivModUnique(d, inc, 0, d); }
  }

  /** Not a whole number of steps: the walk leaves the destination above. */
  lemma {:induction false} Overruns(position: int, inc: int, length: int) returns (k: nat)
    requires inc > 0 && 0 <= position < length && !StepsToEnd(position, inc, length)
    ensures DstSlot(position, inc, length, k) >= length
    decreases length - position
  {
    hide StepsToEnd, DstSlot;
    StepsToEndNext(position, inc, length);
    if position + inc == length {
      AtEnd(inc, length);
    } else if position + inc > length {
      k := 1;
      DstStep(position, inc, length, 0);
      DstStart(position + inc, inc, length);
    } else {
      k := Overruns(position + inc, inc, length);
      DstStep(position, inc, length, k);
      k := k + 1;
    }
  }

  lemma AtEnd(inc: int, length: int)
    requires inc > 0
    ensures StepsToEnd(length, inc, length)
  {
  }

  lemma DstStart(start: int, inc: int, length: int)
    ensures DstSlot(start, inc, length, 0) == start
  {
  }

  /** A whole number of steps: the walk comes to the first cell. */
  lemma {:induction false} ComesToStart(position: int, inc: int, length: int) returns (k: nat)
    requires inc > 0 && 0 <= position < length && StepsToEnd(position, inc, length)
    ensures DstSlot(position, inc, length, k) == 0
    decreases length - position
  {
    hide StepsToEnd, DstSlot;
    StepsToEndNext(position, inc, length);
    if position + inc == length {
      k := 1;
      DstStep(position, inc, length, 0);
      DstStart(0, inc, length);
    } else {
      k := ComesToStart(position + inc, inc, length);
      DstStep(position, inc, length, k);
      k := k + 1;
    }
  }

  /** A negative step leaves the destination below. */
  lemma {:induction false} Underruns(position: int, inc: int, length: int) returns (k: nat)
    requires inc < 0 && 0 <= position < length
    ensures DstSlot(position, inc, length, k) < 0
    decreases position
  {
    hide DstSlot;
    if position + inc < 0 {
      k := 1;
      DstStep(position, inc, length, 0);
      DstStart(position + inc, inc, length);
    } else {
      k := Underruns(position + inc, inc, length);
      DstStep(position, inc, length, k);
      k := k + 1;
    }
  }

  lemma {:induction false} WholeStepsStay(start: int, inc: int, length: int, k: nat)
    requires inc > 0 && 0 <= start < length && StepsToEnd(start, inc, length) && StepsToEnd(0, inc, length)
    ensures 0 <= DstSlot(start, inc, length, k) < length && StepsToEnd(DstSlot(start, inc, length, k), inc, length)
    decreases k
  {
    hide StepsToEnd;
    if k > 0 {
      WholeStepsStay(start, inc, length, k - 1);
      StepsToEndNext(DstSlot(start, inc, length, k - 1), inc, length);
    }
  }

  lemma {:induction false} StaysPut(start: int, length: int, k: nat)
    requires 0 <= start < length
    ensures DstSlot(start, 0, length, k) == start
    decreases k
  {
    if k > 0 { StaysPut(start, length, k - 1); }
  }

  /** Blocks of every size stay inside the destination exactly when the step is zero, or positive with both the whole
      destination and the part from the start position on a whole number of steps. */
  lemma DestinationIff(start: int, inc: int, length: int)
    requires 0 <= start < length
    ensures (forall n: nat :: InBounds(DstSlots(start, inc, length, n), length)) <==>
      inc == 0 || (inc > 0 && (length - start) % inc == 0 && length % inc == 0)
  {
    hide DstSlot;
    if inc == 0 {
      forall k: nat ensures DstSlot(start, inc, length, k) == start { StaysPut(start, length, k); }
    } else if inc > 0 && StepsToEnd(start, inc, length) && StepsToEnd(0, inc, length) {
      forall k: nat ensures 0 <= DstSlot(start, inc, length, k) < length { WholeStepsStay(start, inc, length, k); }
    } else {
      var k := LeavesDestination(start, inc, length);
      assert DstSlots(start, inc, length, k + 1)[k] == DstSlot(start, inc, length, k);
      assert !InBounds(DstSlots(start, inc, length, k + 1), length);
    }
  }

  lemma LeavesDestination(start: int, inc: int, length: int) returns (k: nat)
    requires 0 <= start < length && inc != 0
    requires inc > 0 ==> !StepsToEnd(start, inc, length) || !StepsToEnd(0, inc, length)
    ensures !(0 <= DstSlot(start, inc, length, k) < length)
  {
    hide StepsToEnd, DstSlot;
    if inc < 0 {
      k := Underruns(start, inc, length);
    } else if !StepsToEnd(start, inc, length) {
      k := Overruns(start, inc, length);
    } else {
      var i := ComesToStart(start, inc, length);
      var j := Overruns(0, inc, length);
      DstSlotAdd(start, inc, length, i, j);
      k := i + j;
    }
  }

  /** In whole steps the walk through the destination is the circular one: the start plus all steps, modulo the length. */
  lemma {:induction false} DstSlotValue(start: int, inc: int, length: int, k: nat)
    requires inc > 0 && 0 <= start < length && (length - start) % inc == 0 && length % inc == 0
    ensures DstSlot(start, inc, length, k) == (start + inc * k) % length
    decreases k
  {
    hide StepsToEnd, Slot, DstSlot;
    WholeSteps(start, inc, length);
    DstSlotIsSlot(start, inc, length, k);
    SlotValue(start, inc, length, k);
  }

  lemma WholeSteps(start: int, inc: int, length: int)
    requires inc > 0 && 0 <= start < length && (length - start) % inc == 0 && length % inc == 0
    ensures StepsToEnd(start, inc, length) && StepsToEnd(0, inc, length) && inc <= length
  {
    StepsToEndNext(0, inc, length);
  }

  lemma {:induction false} DstSlotIsSlot(start: int, inc: int, length: int, k: nat)
    requires inc > 0 && 0 <= start < length && StepsToEnd(start, inc, length) && StepsToEnd(0, inc, length)
    ensures DstSlot(start, inc, length, k) == Slot(start, inc, length, k)
    decreases k
  {
    hide StepsToEnd;
    if k > 0 {
      DstSlotIsSlot(start, inc, length, k - 1);
      WholeStepsStay(start, inc, length, k - 1);
      StepsToEndNext(DstSlot(start, inc, length, k - 1), inc, length);
    }
  }

  /** After a read a destination cell holds the buffer cell that sample `k` comes from, when no later sample goes to the
      same cell. */
  lemma ReadCell(buffer: seq<int>, offset: int, inc: int, dst: seq<int>, dstStart: int, dstInc: int, n: nat, k: nat)
    requires InBounds(Slots(offset, inc, |buffer|, n), |buffer|) && InBounds(DstSlots(dstStart, dstInc, |dst|, n), |dst|)
    requires k < n && forall l :: k < l < n ==> DstSlot(dstStart, dstInc, |dst|, l) != DstSlot(dstStart, dstInc, |dst|, k)
    ensures 0 <= DstSlot(dstStart, dstInc, |dst|, k) < |dst| && 0 <= Slot(offset, inc, |buffer|, k) < |buffer|
    ensures Written(dst, DstSlots(dstStart, dstInc, |dst|, n), Samples(buffer, Slots(offset, inc, |buffer|, n)))
              [DstSlot(dstStart, dstInc, |dst|, k)] == buffer[Slot(offset, inc, |buffer|, k)]
  {
    hide Written, Slot, DstSlot, Samples;
    BoundsAt(Slots(offset, inc, |buffer|, n), |buffer|, k);
    BoundsAt(DstSlots(dstStart, dstInc, |dst|, n), |dst|, k);
    LastWriteWins(dst, DstSlots(dstStart, dstInc, |dst|, n), Samples(buffer, Slots(offset, inc, |buffer|, n)), k);
  }

  /** The cells 0, 1, 2, ... in order. */
  lemma UnitPositions(length: int, n: nat)
    requires n <= length
    ensures DstSlots(0, 1, length, n) == Numbers(n)
  {
    hide DstSlot;
    forall k | 0 <= k < n
      ensures DstSlot(0, 1, length, k) == k
    {
      DstSlotValue(0, 1, length, k);
      DivModUnique(k, length, 0, k);
    }
  }

  lemma {:induction false} WrittenInOrder(dst: seq<int>, samples: seq<int>)
    requires |samples| <= |dst| && InBounds(Numbers(|samples|), |dst|)
    ensures Written(dst, Numbers(|samples|), samples) == samples + dst[|samples|..]
    decreases |samples|
  {
    if samples != [] {
      var n := |samples| - 1;
      assert Numbers(|samples|)[..n] == Numbers(n);
      WrittenInOrder(dst, samples[..n]);
    }
  }

  /** With step one from the first cell, and no more samples than cells, cell `k` gets sample `k` and the rest keep what
      they held. */
  lemma UnitDestination(dst: seq<int>, samples: seq<int>)
    requires |samples| <= |dst|
    ensures InBounds(DstSlots(0, 1, |dst|, |samples|), |dst|)
    ensures Written(dst, DstSlots(0, 1, |dst|, |samples|), samples) == samples + dst[|samples|..]
  {
    hide Written, DstSlots, Numbers, InBounds;
    UnitPositions(|dst|, |samples|);
    NumbersInBounds(|samples|, |dst|);
    WrittenInOrder(dst, samples);
  }

  lemma NumbersInBounds(n: nat, length: int)
    requires n <= length
    ensures InBounds(Numbers(n), length)
  {
  }

  /** arm_circularRead, into a destination that does not overlap the buffer. */
  method Read(circBuffer: array<int>, readOffset: int, bufferInc: int,
              dst: array<int>, dstStart: int, dstInc: int, blockSize: nat)
    returns (newOffset: int)
    requires InBounds(Slots(readOffset, bufferInc, circBuffer.Length, blockSize), circBuffer.Length)
    requires InBounds(DstSlots(dstStart, dstInc, dst.Length, blockSize), dst.Length)
    requires -0x8000_0000 <= bufferInc <= 0x8000_0000 - circBuffer.Length && dst != circBuffer
    modifies dst
    ensures dst[..] == Written(old(dst[..]), DstSlots(dstStart, dstInc, dst.Length, blockSize),
                               Samples(circBuffer[..], Slots(readOffset, bufferInc, circBuffer.Length, blockSize)))
    ensures newOffset == Slot(readOffset, bufferInc, circBuffer.Length, blockSize)
  {
    hide Written, Slot, DstSlot, InBounds;
    var length := circBuffer.Length;
    ghost var slots := Slots(readOffset, bufferInc, length, blockSize);
    ghost var targets := DstSlots(dstStart, dstInc, dst.Length, blockSize);
    ghost var before, block, k := dst[..], Samples(circBuffer[..], slots), 0;
    var rOffset := readOffset;
    var position := dstStart;
    var i := blockSize;
    WrittenStart(before, targets, block);
    BoundsStart(targets, dst.Length);
    SlotStart(readOffset, bufferInc, length);
    DstStart(dstStart, dstInc, dst.Length);
    while i > 0
      invariant 0 <= i <= blockSize && k == blockSize - i
      invariant rOffset == Slot(readOffset, bufferInc, length, k) && position == DstSlot(dstStart, dstInc, dst.Length, k)
      invariant InBounds(targets[..k], dst.Length)
      invariant dst[..] == Written(before, targets[..k], block[..k])
    {
      BoundsAt(slots, length, k);
      BoundsAt(targets, dst.Length, k);
      WrittenNext(before, targets, block, k);
      SlotNext(readOffset, bufferInc, length, k);
      DstStep(dstStart, dstInc, dst.Length, k);
      dst[position] := circBuffer[rOffset];
      position := position + dstInc;
      if position == dst.Length {
        position := 0;
      }
      rOffset := rOffset + bufferInc;
      if rOffset >= length {
        rOffset := rOffset - length;
      }
      i := i - 1;
      k := k + 1;
    }
    assert block[..blockSize] == block && targets[..blockSize] == targets;
    newOffset := rOffset;
  }
}
