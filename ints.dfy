/** Fixed-width integers of the AVR C compiler (avr-gcc), where `long` is 32 bits.
    Values are unbounded Dafny integers restricted to the width's range; every
    narrowing or wrapping conversion the firmware performs is written out with
    one of the functions below. */
module Ints {

  const TWO_TO_8: int := 0x100
  const TWO_TO_16: int := 0x1_0000
  const TWO_TO_31: int := 0x8000_0000
  const TWO_TO_32: int := 0x1_0000_0000

  type uint8 = x: int | 0 <= x < 0x100
  type uint16 = x: int | 0 <= x < 0x1_0000
  type uint32 = x: int | 0 <= x < 0x1_0000_0000
  type int32 = x: int | -0x8000_0000 <= x < 0x8000_0000

  /** Conversion of any integer to `uint8_t` (reduction modulo 2^8). */
  function U8(x: int): (r: uint8)
    ensures 0 <= x < TWO_TO_8 ==> r == x
    ensures x == TWO_TO_8 ==> r == 0
  {
    if 0 <= x < TWO_TO_8 then x else x % TWO_TO_8
  }

  /** Conversion of any integer to `uint16_t` (reduction modulo 2^16). */
  function U16(x: int): (r: uint16)
    ensures 0 <= x < TWO_TO_16 ==> r == x
  {
    if 0 <= x < TWO_TO_16 then x else x % TWO_TO_16
  }

  /** Conversion of any integer to `uint32_t` / `unsigned long` (reduction modulo 2^32). */
  function U32(x: int): (r: uint32)
    ensures 0 <= x < TWO_TO_32 ==> r == x
    ensures -TWO_TO_32 <= x < 0 ==> r == x + TWO_TO_32
  {
    if 0 <= x < TWO_TO_32 then x else x % TWO_TO_32
  }

  /** Conversion of a `uint32_t` to `int32_t`; implementation-defined in C, and
      avr-gcc reduces modulo 2^32 into the signed range. */
  function ToInt32(u: uint32): (r: int32)
    ensures u < TWO_TO_31 ==> r == u
    ensures U32(r) == u
  {
    if u < TWO_TO_31 then u else u - TWO_TO_32
  }

  /** Conversion of any integer to `int8_t`; implementation-defined in C for
      values outside -128..127, and avr-gcc reduces modulo 2^8 into the signed
      range, so 128 becomes -128. */
  function I8(x: int): (r: int)
    ensures -128 <= r <= 127
    ensures -128 <= x <= 127 ==> r == x
  {
    if -128 <= x <= 127 then x else (x + 128) % 256 - 128
  }
}
