/** Go's fixed-width unsigned integers: byte, uint16 and the wrapping uint32. */
module Uint32 {

  const TWO32: int := 0x1_0000_0000

  type byte = x: int | 0 <= x < 0x100
  type uint16 = x: int | 0 <= x < 0x1_0000
  type uint32 = x: int | 0 <= x < 0x1_0000_0000

  /** `a + b` on uint32: the carry out of bit 31 is lost. */
  function Add32(a: uint32, b: uint32): uint32 {
    if a + b < TWO32 then a + b else a + b - TWO32
  }

  /** `a - b` on uint32: the borrow into bit 32 is lost. */
  function Sub32(a: uint32, b: uint32): uint32 {
    if b <= a then a - b else a - b + TWO32
  }

  /** `uint32(n)` for a Go int that is not negative. */
  function ToUint32(n: nat): uint32 {
    if n < TWO32 then n else n % TWO32
  }

  /** Reducing one operand first does not change a wrapped sum. */
  lemma AddReduced(x: int, n: nat)
    ensures Add32(x % TWO32, ToUint32(n)) == (x + n) % TWO32
  {
  }

  /** Reducing both operands first does not change a wrapped difference. */
  lemma SubReduced(x: int, y: int)
    ensures Sub32(x % TWO32, y % TWO32) == (x - y) % TWO32
  {
  }

  /** Numbers that agree mod 2^32 and lie less than 2^32 apart are equal. */
  lemma SameResidue(x: int, y: int)
    requires x % TWO32 == y % TWO32
    requires -TWO32 < x - y < TWO32
    ensures x == y
  {
  }
}
