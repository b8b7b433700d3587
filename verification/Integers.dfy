/** The integers of C: ranges, wrap-around and truncating division. */
module Integers {

  const TWO_32 := 0x1_0000_0000

  predicate IsInt16(x: int) { -0x8000 <= x < 0x8000 }
  predicate IsInt32(x: int) { -0x8000_0000 <= x < 0x8000_0000 }

  /** The signed 32 bits of an integer. */
  function AsInt32(n: int): (r: int)
    ensures IsInt32(r)
  {
    if n % TWO_32 < 0x8000_0000 then n % TWO_32 else n % TWO_32 - TWO_32
  }

  /** Nothing is lost exactly within the range. */
  lemma WrapsExactly(n: int)
    ensures AsInt32(n) == n <==> IsInt32(n)
  {
    assert n == TWO_32 * (n / TWO_32) + n % TWO_32;
  }

  lemma SameResidue(a: int, b: int, k: int)
    requires a == b + TWO_32 * k
    ensures a % TWO_32 == b % TWO_32
  {
  }

  /** Wrapping in between does not change a sum. */
  lemma WrapsOnce(a: int, b: int)
    ensures AsInt32(AsInt32(a) + b) == AsInt32(a + b)
  {
    var k := if a % TWO_32 < 0x8000_0000 then -(a / TWO_32) else -(a / TWO_32) - 1;
    assert AsInt32(a) + b == a + b + TWO_32 * k;
    SameResidue(AsInt32(a) + b, a + b, k);
  }

  /** Integers less than 2^32 apart that wrap to the same are the same. */
  lemma WrapSeparates(a: int, b: int)
    requires -TWO_32 < a - b < TWO_32
    ensures AsInt32(a) == AsInt32(b) <==> a == b
  {
    assert a == TWO_32 * (a / TWO_32) + a % TWO_32 && b == TWO_32 * (b / TWO_32) + b % TWO_32;
  }

  /** Division and remainder, which truncate toward zero. */
  function TruncDiv(a: int, b: int): int
    requires 0 < b
  {
    if 0 <= a then a / b else -(-a / b)
  }

  function TruncMod(a: int, b: int): int
    requires 0 < b
  {
    a - TruncDiv(a, b) * b
  }
}
