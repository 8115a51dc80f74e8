/** Fixed-width machine integers of the source, as ranges of Dafny's unbounded `int`. */
module Bytes {

  /** `u8` */
  type byte = x: int | 0 <= x < 0x100

  /** `u32`, `u64`, `i64` and the narrower integer types the earlier key codec widens. */
  type u8 = byte
  type u16 = x: int | 0 <= x < 0x1_0000
  type u32 = x: int | 0 <= x < 0x1_0000_0000
  type u64 = x: int | 0 <= x < 0x1_0000_0000_0000_0000
  type i8 = x: int | -0x80 <= x < 0x80
  type i16 = x: int | -0x8000 <= x < 0x8000
  type i32 = x: int | -0x8000_0000 <= x < 0x8000_0000
  type i64 = x: int | -0x8000_0000_0000_0000 <= x < 0x8000_0000_0000_0000

  const U32_LIMIT: nat := 0x1_0000_0000
  const U64_LIMIT: nat := 0x1_0000_0000_0000_0000
  const U64_MAX: nat := 0xFFFF_FFFF_FFFF_FFFF
  const I64_MAX: nat := 0x7FFF_FFFF_FFFF_FFFF
  const I64_MIN: int := -0x8000_0000_0000_0000

  /** ASCII code points used by the display format. */
  const COLON: byte := 0x3A
  const BACKSLASH: byte := 0x5C
  const MINUS: byte := 0x2D
  const LETTER_I: byte := 0x69
  const DIGIT_ZERO: byte := 0x30
  const DIGIT_NINE: byte := 0x39
}
