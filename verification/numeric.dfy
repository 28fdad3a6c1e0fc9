/** Fixed-width unsigned arithmetic on the 128-bit word type, and the
    integer forms of the width, alignment and padding computations. */
module Numeric {
  import opened Base

  /** Bytes of the word type `u128` (`size_of::<u128>()`). */
  const MaxAlign: nat := 16

  /** Widest word in bits: eight bits per byte of the word type. */
  const MaxWidth: nat := MaxAlign * 8

  /** `u128 << n` for a shift amount below 128: bits shifted past the top
      are lost. */
  function Shl(x: U128, n: nat): U128
    requires n < 128
  {
    (x * Pow(2, n)) % TWO128
  }

  /** `u128::checked_shl`: no result once the shift amount reaches the
      bit width of the type. */
  function CheckedShl(x: U128, n: nat): Option<U128>
  {
    if n < 128 then Some(Shl(x, n)) else None
  }

  /** `u128::wrapping_sub`: subtraction modulo 2^128. */
  function WrappingSub(a: U128, b: U128): U128
  {
    (a - b) % TWO128
  }

  /** Without underflow the wrapping subtraction is the plain one; one
      below zero wraps to the largest value. */
  lemma WrappingSubFacts(a: U128, b: U128)
    ensures b <= a ==> WrappingSub(a, b) == a - b
    ensures a == 0 && b == 1 ==> WrappingSub(a, b) == TWO128 - 1
  {
    if b <= a {
      ModSmall(a - b, TWO128);
    } else if a == 0 && b == 1 {
      assert -1 == -1 * TWO128 + (TWO128 - 1);
    }
  }

  lemma ModSmall(x: int, m: int)
    requires 0 <= x < m
    ensures x % m == x
  {
  }

  /** Word width in bytes: `width / 8` rounded up. */
  function Align(width: nat): (r: nat)
    ensures width <= 8 * r
    ensures r == 0 || 8 * (r - 1) < width
  {
    (width + 7) / 8
  }

  lemma AlignBounds(width: nat)
    requires 1 <= width <= MaxWidth
    ensures 1 <= Align(width) <= MaxAlign
  {
  }

  /** Bytes taken by `k` words of `a` bytes each. Written as repeated
      addition so that byte offsets stay linear; `SpanProduct` states that
      it is `k * a`. */
  function Span(k: nat, a: nat): (r: nat)
    ensures k > 0 ==> a <= r
  {
    if k == 0 then 0 else a + Span(k - 1, a)
  }

  lemma {:induction false} SpanProduct(k: nat, a: nat)
    ensures Span(k, a) == k * a
  {
    if k > 0 {
      SpanProduct(k - 1, a);
      assert k * a == a + (k - 1) * a;
    }
  }

  /** Hex digits of a word of `width` bits: `width / 4` rounded up. */
  function WordPads(width: nat): (r: nat)
    ensures width <= 4 * r
    ensures r == 0 || 4 * (r - 1) < width
  {
    (width + 3) / 4
  }

  /** Hex digits of an address below `depth`: the least `k` with
      16^k >= depth, so 0 for a depth of 0 or 1 (the logarithm of the
      library is guarded by the saturating float-to-integer cast). */
  function AddrPads(depth: nat): (r: nat)
    ensures depth <= Pow(16, r)
    ensures r == 0 || Pow(16, r - 1) < depth
  {
    if depth <= 1 then 0
    else
      var k := AddrPads((depth + 15) / 16);
      assert Pow(16, k + 1) == 16 * Pow(16, k);
      k + 1
  }

  /** Bitwise or of two naturals. */
  function BitOr(a: nat, b: nat): nat
    decreases a + b
  {
    if a == 0 then b
    else if b == 0 then a
    else (if a % 2 == 1 || b % 2 == 1 then 1 else 0) + 2 * BitOr(a / 2, b / 2)
  }

  /** Or-ing a value below 2^k into a value shifted left by k bits is an
      addition: the bits do not overlap. */
  lemma {:induction false} BitOrShifted(a: nat, b: nat, k: nat)
    requires b < Pow(2, k)
    ensures BitOr(a * Pow(2, k), b) == a * Pow(2, k) + b
  {
    var hi := a * Pow(2, k);
    if k == 0 || a == 0 || b == 0 {
      assert k == 0 ==> b == 0;
      assert a == 0 ==> hi == 0;
    } else {
      var half := a * Pow(2, k - 1);
      assert hi == 2 * half;
      PowPositive(2, k - 1);
      assert half > 0;
      assert b / 2 < Pow(2, k - 1);
      BitOrShifted(a, b / 2, k - 1);
      assert hi % 2 == 0 && hi / 2 == half;
      assert BitOr(hi, b) == (if b % 2 == 1 then 1 else 0) + 2 * BitOr(half, b / 2);
    }
  }
}
