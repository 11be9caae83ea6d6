/** Machine integers: their ranges and limits. */
module Integers {
  type Byte = x: int | 0 <= x < 256
  type U32 = n: int | 0 <= n < 0x1_0000_0000
  type U128 = n: int | 0 <= n < 0x1_0000_0000_0000_0000_0000_0000_0000_0000

  const MAX_INT64 := 0x7FFF_FFFF_FFFF_FFFF
  const MAX_UINT64 := 0xFFFF_FFFF_FFFF_FFFF
}
