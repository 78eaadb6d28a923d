/** Byte buffers seen as little-endian bit strings: bit `k` of byte `m` is bit
    `8 * m + k` of the buffer. */
module Bytes {
  import opened CTypes
  import opened Bits

  /** The eight bits of a byte, least significant first. */
  function BitsOfByte(b: Byte): (bits: seq<bool>)
    ensures |bits| == 8
  {
    [b & 0x01 != 0, b & 0x02 != 0, b & 0x04 != 0, b & 0x08 != 0,
     b & 0x10 != 0, b & 0x20 != 0, b & 0x40 != 0, b & 0x80 != 0]
  }

  /** The byte whose bits, least significant first, are `bits`. */
  function ByteOfBits(bits: seq<bool>): (b: Byte)
    requires |bits| == 8
  {
    (if bits[0] then 0x01 else 0) | (if bits[1] then 0x02 else 0) |
    (if bits[2] then 0x04 else 0) | (if bits[3] then 0x08 else 0) |
    (if bits[4] then 0x10 else 0) | (if bits[5] then 0x20 else 0) |
    (if bits[6] then 0x40 else 0) | (if bits[7] then 0x80 else 0)
  }

  lemma ByteOfBitsOfByte(b: Byte)
    ensures ByteOfBits(BitsOfByte(b)) == b
  {
  }

  lemma BitsOfByteOfBits(bits: seq<bool>)
    requires |bits| == 8
    ensures BitsOfByte(ByteOfBits(bits)) == bits
  {
    var b := ByteOfBits(bits);
    assert bits == [bits[0], bits[1], bits[2], bits[3], bits[4], bits[5], bits[6], bits[7]];
    assert BitsOfByte(b)[0] == bits[0] && BitsOfByte(b)[1] == bits[1];
    assert BitsOfByte(b)[2] == bits[2] && BitsOfByte(b)[3] == bits[3];
    assert BitsOfByte(b)[4] == bits[4] && BitsOfByte(b)[5] == bits[5];
    assert BitsOfByte(b)[6] == bits[6] && BitsOfByte(b)[7] == bits[7];
  }

  /** The byte holding the unsigned value `n` (a conversion to `uint8_t` of an in-range value).
      Written by recursion rather than as `n as Byte`: with the built-in conversion the
      solver does not prove `(n as Byte) as int == n` within the resource limit used here. */
  function ByteOfNat(n: nat): (b: Byte)
    requires n < 0x100
    ensures b as int == n
  {
    if n == 0 then 0 else ByteOfNat(n - 1) + 1
  }

  /** A buffer as a bit string: byte 0's bits first. */
  function BytesToBits(bs: seq<Byte>): (bits: seq<bool>)
    ensures |bits| == 8 * |bs|
  {
    if bs == [] then [] else BitsOfByte(bs[0]) + BytesToBits(bs[1..])
  }

  /** A bit string of whole bytes as a buffer. */
  function BitsToBytes(bits: seq<bool>): (bs: seq<Byte>)
    requires |bits| % 8 == 0
    ensures |bs| == |bits| / 8
  {
    if bits == [] then [] else [ByteOfBits(bits[..8])] + BitsToBytes(bits[8..])
  }

  /** Bit `8 * m + k` of a buffer is bit `k` of its byte `m`. */
  lemma {:induction false} BytesToBitsAt(bs: seq<Byte>, m: nat, k: nat)
    requires m < |bs| && k < 8
    ensures BytesToBits(bs)[8 * m + k] == BitsOfByte(bs[m])[k]
  {
    if m > 0 {
      BytesToBitsAt(bs[1..], m - 1, k);
    }
  }

  lemma {:induction false} BitsToBytesToBits(bits: seq<bool>)
    requires |bits| % 8 == 0
    ensures BytesToBits(BitsToBytes(bits)) == bits
  {
    if bits != [] {
      BitsToBytesToBits(bits[8..]);
      BitsOfByteOfBits(bits[..8]);
      assert bits == bits[..8] + bits[8..];
    }
  }

  lemma {:induction false} BytesToBitsToBytes(bs: seq<Byte>)
    ensures BitsToBytes(BytesToBits(bs)) == bs
  {
    if bs != [] {
      var bits := BytesToBits(bs);
      assert bits[..8] == BitsOfByte(bs[0]);
      assert bits[8..] == BytesToBits(bs[1..]);
      ByteOfBitsOfByte(bs[0]);
      BytesToBitsToBytes(bs[1..]);
    }
  }
}
