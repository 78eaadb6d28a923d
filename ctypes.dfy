/** The fixed-width types of the C header. Bytes on the wire are bit-vectors; the
    integer types used in arithmetic are ranges of `int`, so that C's promotions,
    truncating division and narrowing conversions can be written out explicitly. */
module CTypes {
  /** A byte of a frame buffer (`uint8_t`, `unsigned char`). */
  type Byte = bv8

  type uint8 = x: int | 0 <= x < 0x100
  type int8 = x: int | -0x80 <= x < 0x80
  type uint16 = x: int | 0 <= x < 0x1_0000
  type int16 = x: int | -0x8000 <= x < 0x8000
  type int32 = x: int | -0x8000_0000 <= x < 0x8000_0000
  type uint32 = x: int | 0 <= x < 0x1_0000_0000

  /** The value of the C conversion of an `int` to `uint16_t`: reduction modulo 2^16. */
  function NarrowToUint16(x: int): (r: uint16)
    ensures 0 <= x < 0x1_0000 ==> r == x
    ensures x < 0 && -0x1_0000 <= x ==> r == x + 0x1_0000
    ensures (x - r) % 0x1_0000 == 0
  {
    x % 0x1_0000
  }
}
