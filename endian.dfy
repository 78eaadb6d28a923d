/** The `CRSF_DEC_*` macros. Multi-byte fields of the protocol are big-endian; a field
    copied into an integer on the little-endian host reads with its bytes reversed,
    and the macros swap them back. Bytes are taken here by their values, `0..255`. */
module Endian {
  import opened CTypes
  import Bits

  /** The integer a little-endian host reads from two bytes in memory. */
  function LoadLe16(b0: uint8, b1: uint8): uint16
  {
    b0 + 0x100 * b1
  }

  /** The integer a little-endian host reads from four bytes in memory. */
  function LoadLe32(b0: uint8, b1: uint8, b2: uint8, b3: uint8): uint32
  {
    b0 + 0x100 * b1 + 0x1_0000 * b2 + 0x100_0000 * b3
  }

  // The bytes of an integer, least significant first.
  function Byte0(x: nat): uint8 { x % 0x100 }
  function Byte1(x: nat): uint8 { x / 0x100 % 0x100 }
  function Byte2(x: nat): uint8 { x / 0x100 / 0x100 % 0x100 }
  function Byte3(x: nat): uint8 { x / 0x100 / 0x100 / 0x100 % 0x100 }

  /** Reading the bytes of a stored 16-bit integer gives back the bytes stored. */
  lemma LoadLe16Bytes(b0: uint8, b1: uint8)
    ensures Byte0(LoadLe16(b0, b1)) == b0 && Byte1(LoadLe16(b0, b1)) == b1
  {
    var x := LoadLe16(b0, b1);
    Bits.DivModUnique(x, 0x100, b1, b0);
    Bits.DivModUnique(b1, 0x100, 0, b1);
  }

  /** Every 16-bit integer is stored as its two bytes. */
  lemma Split16(x: uint16)
    ensures x == LoadLe16(Byte0(x), Byte1(x))
  {
    Bits.DivModUnique(x / 0x100, 0x100, 0, x / 0x100);
  }

  /** Reading the bytes of a stored 32-bit integer gives back the bytes stored. */
  lemma LoadLe32Bytes(b0: uint8, b1: uint8, b2: uint8, b3: uint8)
    ensures var x := LoadLe32(b0, b1, b2, b3);
            Byte0(x) == b0 && Byte1(x) == b1 && Byte2(x) == b2 && Byte3(x) == b3
  {
    var x := LoadLe32(b0, b1, b2, b3);
    Bits.DivModUnique(x, 0x100, b1 + 0x100 * b2 + 0x1_0000 * b3, b0);
    var y := x / 0x100;
    Bits.DivModUnique(y, 0x100, b2 + 0x100 * b3, b1);
    var z := y / 0x100;
    Bits.DivModUnique(z, 0x100, b3, b2);
    Bits.DivModUnique(b3, 0x100, 0, b3);
  }

  /** Every 32-bit integer is stored as its four bytes. */
  lemma Split32(x: uint32)
    ensures x == LoadLe32(Byte0(x), Byte1(x), Byte2(x), Byte3(x))
  {
    var y := x / 0x100;
    var z := y / 0x100;
    var w := z / 0x100;
    assert x == 0x100 * y + Byte0(x);
    assert y == 0x100 * z + Byte1(x);
    assert z == 0x100 * w + Byte2(x);
    Bits.DivModUnique(w, 0x100, 0, w);
  }

  /** `__builtin_bswap16`: the two bytes of `x` exchanged. */
  function Bswap16(x: uint16): (r: uint16)
    ensures Byte0(r) == Byte1(x) && Byte1(r) == Byte0(x)
  {
    LoadLe16Bytes(Byte1(x), Byte0(x));
    LoadLe16(Byte1(x), Byte0(x))
  }

  /** `__builtin_bswap32`: the four bytes of `x` in reverse order. */
  function Bswap32(x: uint32): (r: uint32)
    ensures Byte0(r) == Byte3(x) && Byte1(r) == Byte2(x)
    ensures Byte2(r) == Byte1(x) && Byte3(r) == Byte0(x)
  {
    LoadLe32Bytes(Byte3(x), Byte2(x), Byte1(x), Byte0(x));
    LoadLe32(Byte3(x), Byte2(x), Byte1(x), Byte0(x))
  }

  /** Swapping twice gives the value back. */
  lemma Bswap16Involution(x: uint16)
    ensures Bswap16(Bswap16(x)) == x
  {
    Split16(x);
  }

  lemma Bswap32Involution(x: uint32)
    ensures Bswap32(Bswap32(x)) == x
  {
    Split32(x);
  }

  /** Two's-complement reading of a `uint16_t` as `int16_t`. */
  function Int16Of(u: uint16): int16
  {
    if u < 0x8000 then u else u - 0x1_0000
  }

  /** Two's-complement reading of a `uint32_t` as `int32_t`. */
  function Int32Of(u: uint32): int32
  {
    if u < 0x8000_0000 then u else u - 0x1_0000_0000
  }

  /** `CRSF_DEC_U16`: the two bytes of `x` as they lie in memory, read most significant
      first. */
  function DecU16(x: uint16): (r: uint16)
    ensures r == 0x100 * Byte0(x) + Byte1(x)
  {
    Split16(Bswap16(x));
    Bswap16(x)
  }

  /** `CRSF_DEC_I16`: the same bytes read as a two's-complement `int16_t`. */
  function DecI16(x: uint16): (r: int16)
    ensures r == 0x100 * Byte0(x) + Byte1(x) - (if Byte0(x) < 0x80 then 0 else 0x1_0000)
  {
    Int16Of(DecU16(x))
  }

  /** `CRSF_DEC_U32`: the four bytes of `x` as they lie in memory, read most significant
      first. */
  function DecU32(x: uint32): (r: uint32)
    ensures r == 0x100_0000 * Byte0(x) + 0x1_0000 * Byte1(x) + 0x100 * Byte2(x) + Byte3(x)
  {
    Split32(Bswap32(x));
    Bswap32(x)
  }

  /** `CRSF_DEC_I32`: the same bytes read as a two's-complement `int32_t`. */
  function DecI32(x: uint32): (r: int32)
    ensures r == 0x100_0000 * Byte0(x) + 0x1_0000 * Byte1(x) + 0x100 * Byte2(x) + Byte3(x)
                 - (if Byte0(x) < 0x80 then 0 else 0x1_0000_0000)
  {
    Int32Of(DecU32(x))
  }

  /** `(uint32_t)x << 8`: every byte moves up one place, the top one is dropped and the
      bottom one is 0. */
  function ShiftLeft8(x: uint32): (r: uint32)
    ensures r == LoadLe32(0, Byte0(x), Byte1(x), Byte2(x))
  {
    Split32(x);
    Bits.DivModUnique(x * 0x100, 0x1_0000_0000, Byte3(x), LoadLe32(0, Byte0(x), Byte1(x), Byte2(x)));
    (x * 0x100) % 0x1_0000_0000
  }

  /** `CRSF_DEC_U24`: the three low bytes of `x` as they lie in memory, read most
      significant first; the fourth byte does not matter. */
  function DecU24(x: uint32): (r: uint32)
    ensures r == 0x1_0000 * Byte0(x) + 0x100 * Byte1(x) + Byte2(x)
  {
    LoadLe32Bytes(0, Byte0(x), Byte1(x), Byte2(x));
    DecU32(ShiftLeft8(x))
  }

  /** A big-endian 16-bit field decodes to its value, unsigned and signed. */
  lemma DecodeBigEndian16(b0: uint8, b1: uint8)
    ensures DecU16(LoadLe16(b0, b1)) == 0x100 * b0 + b1
    ensures DecI16(LoadLe16(b0, b1)) == 0x100 * b0 + b1 - (if b0 < 0x80 then 0 else 0x1_0000)
  {
    LoadLe16Bytes(b0, b1);
  }

  /** A big-endian 32-bit field decodes to its value, unsigned and signed. */
  lemma DecodeBigEndian32(b0: uint8, b1: uint8, b2: uint8, b3: uint8)
    ensures DecU32(LoadLe32(b0, b1, b2, b3)) == 0x100_0000 * b0 + 0x1_0000 * b1 + 0x100 * b2 + b3
    ensures DecI32(LoadLe32(b0, b1, b2, b3)) ==
              0x100_0000 * b0 + 0x1_0000 * b1 + 0x100 * b2 + b3 - (if b0 < 0x80 then 0 else 0x1_0000_0000)
  {
    LoadLe32Bytes(b0, b1, b2, b3);
  }

  /** A big-endian 24-bit field decodes to its value from the four bytes starting at it;
      the byte after the field does not matter. */
  lemma DecodeBigEndian24(b0: uint8, b1: uint8, b2: uint8, b3: uint8)
    ensures DecU24(LoadLe32(b0, b1, b2, b3)) == 0x1_0000 * b0 + 0x100 * b1 + b2
  {
    LoadLe32Bytes(b0, b1, b2, b3);
  }

  /** `CRSF_DEC_U24` never exceeds 24 bits. */
  lemma DecU24Bound(x: uint32)
    ensures DecU24(x) < 0x100_0000
  {
  }
}
