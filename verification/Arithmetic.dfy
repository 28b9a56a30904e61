/** Signed division and machine ranges. */
module Arithmetic {

  /** Signed division as the source language has it: the quotient is cut off toward zero. */
  function TruncatingDiv(a: int, b: int): int
    requires b > 0
  {
    if a >= 0 then a / b else -(-a / b)
  }

  function Abs(n: int): nat {
    if n < 0 then -n else n
  }

  function Signed(negative: bool, n: int): int {
    if negative then -n else n
  }

  const I32_MIN: int := -0x8000_0000
  const I32_MAX: nat := 0x7FFF_FFFF
  const U32_MAX: nat := 0xFFFF_FFFF
  const I128_MIN: int := -0x8000_0000_0000_0000_0000_0000_0000_0000
  const I128_MAX: nat := 0x7FFF_FFFF_FFFF_FFFF_FFFF_FFFF_FFFF_FFFF

  function Quotient(n: nat, d: nat): nat
    requires d > 0
  {
    n / d
  }
}
