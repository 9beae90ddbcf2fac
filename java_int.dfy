/**
 * Java `int` arithmetic as used by the decoders: 32-bit wrap-around, and the shift and
 * bitwise-or operators on the non-negative values the pixel code works with.
 */
module JavaInt {

  const INT_MIN: int := -0x8000_0000
  const INT_MAX: int := 0x7FFF_FFFF

  type Int32 = x: int | -0x8000_0000 <= x < 0x8000_0000

  /** Two's-complement truncation of a mathematical integer to a Java `int`. */
  function Wrap32(x: int): (r: Int32)
    ensures INT_MIN <= x <= INT_MAX ==> r == x
    ensures (r - x) % 0x1_0000_0000 == 0
  {
    (x + 0x8000_0000) % 0x1_0000_0000 - 0x8000_0000
  }

  function Pow2(k: nat): (r: nat)
    ensures r >= 1
  {
    if k == 0 then 1 else 2 * Pow2(k - 1)
  }

  /** `x << k` on an `int`, wrapping to 32 bits as Java does (for 0 <= k < 32). */
  function ShiftLeft(x: Int32, k: nat): Int32
    requires k < 32
  {
    Wrap32(x * Pow2(k))
  }

  /**
   * `x >> k` on an `int` (arithmetic shift, 0 <= k < 32): `k` shifts by one, each a division by 2
   * rounding towards minus infinity, which Dafny's `/` by a positive divisor already does.
   */
  function ShiftRight(x: int, k: nat): (r: int)
    requires k < 32
    ensures x >= 0 ==> 0 <= r <= x
  {
    if k == 0 then x else ShiftRight(x, k - 1) / 2
  }

  /** `a | b` on non-negative `int`s, bit by bit from the least significant end. */
  function Or(a: nat, b: nat): nat
  {
    if a == 0 then b
    else if b == 0 then a
    else 2 * Or(a / 2, b / 2) + (if a % 2 == 1 || b % 2 == 1 then 1 else 0)
  }

  /** When `b` fits below bit `k`, or-ing it into a value shifted left by `k` is addition. */
  lemma {:induction false} OrOfDisjointIsSum(a: nat, b: nat, k: nat)
    requires b < Pow2(k)
    ensures Or(a * Pow2(k), b) == a * Pow2(k) + b
  {
    if k == 0 || a == 0 || b == 0 {
      // Or(x, 0) == x and Or(0, y) == y by definition; k == 0 forces b == 0
    } else {
      var hi := a * Pow2(k - 1);
      assert a * Pow2(k) == 2 * hi;
      assert b / 2 < Pow2(k - 1);
      OrOfDisjointIsSum(a, b / 2, k - 1);
      assert (2 * hi) / 2 == hi && (2 * hi) % 2 == 0;
    }
  }

  /** A product of two non-negative factors grows with each factor. */
  lemma ProductAtMost(a: int, b: int, x: int, y: int)
    requires 0 <= a <= x && 0 <= b <= y
    ensures 0 <= a * b <= x * y
  {
    assert a * b <= x * b;
    assert x * b <= x * y;
  }

  /** Shifting the minimum `int` left by four bits leaves no bit set. */
  lemma ShiftLeft4OfMin()
    ensures ShiftLeft(INT_MIN, 4) == 0
  {
    assert Pow2(4) == 16;
  }

  /** Shifting left by four multiplies by 16 when the result fits in an `int`. */
  lemma ShiftLeft4Scales(x: Int32)
    requires 0 <= x < 0x800_0000
    ensures ShiftLeft(x, 4) == 16 * x
  {
    assert Pow2(4) == 16;
  }
}
