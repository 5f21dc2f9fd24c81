/** Machine integers as numbers: their ranges, and the arithmetic that stops at their ends. */
module Words {

  const INT32_MAX: int := 0x7FFF_FFFF
  const UINT32: nat := 0x1_0000_0000
  const UINT64: nat := 0x1_0000_0000_0000_0000
  const U64_MAX: nat := 0xFFFF_FFFF_FFFF_FFFF

  function PowerOf2(n: nat): nat {
    if n == 0 then 1 else 2 * PowerOf2(n - 1)
  }

  /** Thirty-two bits read as a signed number. */
  function Signed32(number: nat): int {
    if number <= INT32_MAX then number else number - UINT32
  }

  /** A sum that stays at the largest 64-bit number once it gets there. */
  function Saturated(n: nat): nat {
    if n > U64_MAX then U64_MAX else n
  }
}
