/** Two's-complement casts, saturation and the saturating helpers of arm_math.h, on mathematical integers.
    A right shift of a signed value is floor division. */
module FixedPoint {

  const TWO_31: int := 0x8000_0000
  const TWO_32: int := 0x1_0000_0000
  const TWO_63: int := 0x8000_0000_0000_0000
  const Q31_MAX: int := 0x7FFF_FFFF
  const Q31_MIN: int := -0x8000_0000

  predicate IsQ31(x: int) { -0x8000_0000 <= x < 0x8000_0000 }
  predicate IsQ15(x: int) { -0x8000 <= x < 0x8000 }
  predicate IsQ7(x: int) { -0x80 <= x < 0x80 }
  predicate IsQ63(x: int) { -TWO_63 <= x < TWO_63 }

  ghost predicate AllQ31(s: seq<int>) { forall i :: 0 <= i < |s| ==> IsQ31(s[i]) }
  ghost predicate AllQ15(s: seq<int>) { forall i :: 0 <= i < |s| ==> IsQ15(s[i]) }
  ghost predicate AllQ7(s: seq<int>) { forall i :: 0 <= i < |s| ==> IsQ7(s[i]) }

  /** The cast to a signed 32-bit integer. */
  function ToQ31(x: int): (r: int)
    ensures IsQ31(r) && (IsQ31(x) ==> r == x)
  {
    (x + 0x8000_0000) % 0x1_0000_0000 - 0x8000_0000
  }

  function ToQ15(x: int): (r: int)
    ensures IsQ15(r) && (IsQ15(x) ==> r == x)
  {
    (x + 0x8000) % 0x1_0000 - 0x8000
  }

  function ToQ7(x: int): (r: int)
    ensures IsQ7(r) && (IsQ7(x) ==> r == x)
  {
    (x + 0x80) % 0x100 - 0x80
  }

  /** The cast to a signed 64-bit integer. */
  function ToQ63(x: int): (r: int)
    ensures IsQ63(r) && (IsQ63(x) ==> r == x)
  {
    (x + TWO_63) % (2 * TWO_63) - TWO_63
  }

  /** The cast to an unsigned 32-bit integer. */
  function ToU32(x: int): (r: int)
    ensures 0 <= r < 0x1_0000_0000
  {
    x % 0x1_0000_0000
  }

  function Clamp(x: int, low: int, high: int): int {
    if x < low then low else if x > high then high else x
  }

  /** `max ^ s` for the sign word `s` of a number: all zeros or all ones. */
  function FlipBySign(max: int, s: int): int {
    if s == 0 then max else -1 - max
  }

  /** clip_q63_to_q31: compares the upper word with the sign of the lower word. */
  function ClipQ63ToQ31(x: int): int {
    if ToQ31(x / TWO_32) != ToQ31(x) / TWO_31 then FlipBySign(Q31_MAX, ToQ31(x / TWO_63)) else ToQ31(x)
  }

  /** The word comparison is a saturation on every 64-bit input. */
  lemma ClipIsClamp(x: int)
    requires IsQ63(x)
    ensures ClipQ63ToQ31(x) == Clamp(x, Q31_MIN, Q31_MAX)
  {
    var high, low := x / TWO_32, x % TWO_32;
    assert x == high * TWO_32 + low;
    assert -TWO_31 <= high < TWO_31;
  }

  /** __QADD and __QSUB. */
  function Qadd(x: int, y: int): int { ClipQ63ToQ31(x + y) }
  function Qsub(x: int, y: int): int { ClipQ63ToQ31(x - y) }

  lemma SaturatingSums(x: int, y: int)
    requires IsQ31(x) && IsQ31(y)
    ensures Qadd(x, y) == Clamp(x + y, Q31_MIN, Q31_MAX)
    ensures Qsub(x, y) == Clamp(x - y, Q31_MIN, Q31_MAX)
  {
    ClipIsClamp(x + y);
    ClipIsClamp(x - y);
  }

  /** mult32x64: the lower word's product and the upper word's product, added after the shift. */
  function Mult32x64(x: int, y: int): int {
    x % TWO_32 * y / TWO_32 + x / TWO_32 * y
  }

  /** The split product is the floor of the full one: nothing is lost between the two words. */
  lemma Mult32x64IsFloor(x: int, y: int)
    ensures Mult32x64(x, y) == x * y / TWO_32
  {
    var h, l := x / TWO_32, x % TWO_32;
    assert x * y == (h * y) * TWO_32 + l * y by {
      assert x == h * TWO_32 + l;
      assert (h * TWO_32 + l) * y == h * TWO_32 * y + l * y;
    }
  }
}
