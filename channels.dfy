/** The RC-channels payload `crsf_channels_s`: sixteen unsigned 11-bit bit-fields
    in a packed struct of 22 bytes. GCC allocates the fields of a packed struct
    least significant bit first on a little-endian target, so channel `i` occupies
    bits `11 * i` to `11 * i + 10` of the buffer, bit `k` of byte `m` being bit
    `8 * m + k`. */
module Channels {
  import opened CTypes
  import opened Bits
  import opened Bytes

  /** `CRSF_NUM_CHANNELS` */
  const NumChannels: nat := 16
  /** Width of each `chN` bit-field. */
  const ChannelBits: nat := 11
  /** `RCframeLength`: the size of the packed struct in bytes. */
  const RcFrameLength: nat := 22

  /** The value a bit-field of 11 bits keeps of `v`: its low 11 bits. */
  function Low11(v: nat): (r: nat)
  {
    v % 2048
  }

  /** Reading field `ch<i>` of a packed channels struct. */
  function ReadChannel(frame: seq<Byte>, i: nat): (v: nat)
    requires |frame| == RcFrameLength && i < NumChannels
    ensures v < 2048
  {
    assert Pow2(11) == 2048;
    FromBits(BytesToBits(frame)[11 * i .. 11 * i + 11])
  }

  /** Storing `v` into field `ch<i>`: the 11 bits of the field are replaced by the
      low 11 bits of `v` and every other bit of the struct is left alone. */
  function WriteChannel(frame: seq<Byte>, i: nat, v: nat): (r: seq<Byte>)
    requires |frame| == RcFrameLength && i < NumChannels
    ensures |r| == RcFrameLength
    ensures var bits := BytesToBits(frame);
            BytesToBits(r) == bits[..11 * i] + ToBits(v, 11) + bits[11 * i + 11..]
  {
    var bits := BytesToBits(frame);
    var bits' := bits[..11 * i] + ToBits(v, 11) + bits[11 * i + 11..];
    BitsToBytesToBits(bits');
    BitsToBytes(bits')
  }

  /** The struct viewed as its sixteen fields, `ch0` first: entry `i` is field `ch<i>`
      read in place. */
  function Unpack(frame: seq<Byte>): (ch: seq<nat>)
    requires |frame| == RcFrameLength
    ensures |ch| == NumChannels
    ensures forall i :: 0 <= i < NumChannels ==> ch[i] == ReadChannel(frame, i)
  {
    var ch := Chunk(BytesToBits(frame), 11, 16);
    assert forall i :: 0 <= i < NumChannels ==> ch[i] == ReadChannel(frame, i) by {
      forall i | 0 <= i < NumChannels
        ensures ch[i] == ReadChannel(frame, i)
      {
        ChunkAt(BytesToBits(frame), 11, 16, i);
      }
    }
    ch
  }

  /** The struct whose fields hold `ch[0]`, ..., `ch[15]`, each truncated to 11 bits. */
  function Pack(ch: seq<nat>): (frame: seq<Byte>)
    requires |ch| == NumChannels
    ensures |frame| == RcFrameLength
  {
    BitsToBytes(Flatten(ch, 11))
  }

  /** Bit `k` of channel `i` is bit `11 * i + k` of the buffer, that is bit
      `(11 * i + k) % 8` of byte `(11 * i + k) / 8`. */
  lemma ChannelBitLayout(frame: seq<Byte>, i: nat, k: nat)
    requires |frame| == RcFrameLength && i < NumChannels && k < ChannelBits
    ensures ToBits(ReadChannel(frame, i), 11)[k] == BitsOfByte(frame[(11 * i + k) / 8])[(11 * i + k) % 8]
  {
    var field := BytesToBits(frame)[11 * i .. 11 * i + 11];
    ToFromBits(field);
    var n := 11 * i + k;
    assert field[k] == BytesToBits(frame)[n];
    var m, r := n / 8, n % 8;
    assert n == 8 * m + r;
    BytesToBitsAt(frame, m, r);
  }

  /** Unpacking a packed struct gives every channel back truncated to 11 bits. */
  lemma UnpackPack(ch: seq<nat>)
    requires |ch| == NumChannels
    ensures Unpack(Pack(ch)) == seq(16, i requires 0 <= i < 16 => Low11(ch[i]))
  {
    BitsToBytesToBits(Flatten(ch, 11));
    ChunkFlatten(ch, 11);
    assert Pow2(11) == 2048;
  }

  /** Channel values below 2048 survive a pack and unpack unchanged. */
  lemma UnpackPackInRange(ch: seq<nat>)
    requires |ch| == NumChannels
    requires forall i :: 0 <= i < |ch| ==> ch[i] < 2048
    ensures Unpack(Pack(ch)) == ch
  {
    UnpackPack(ch);
    var low := seq(16, i requires 0 <= i < 16 => Low11(ch[i]));
    forall i | 0 <= i < NumChannels
      ensures low[i] == ch[i]
    {
      Low11InRange(ch[i]);
    }
    assert low == ch;
  }

  lemma Low11InRange(v: nat)
    requires v < 2048
    ensures Low11(v) == v
  {
  }

  /** Every 22-byte buffer is the packing of its own fields: no bit of the struct is padding. */
  lemma PackUnpack(frame: seq<Byte>)
    requires |frame| == RcFrameLength
    ensures Pack(Unpack(frame)) == frame
  {
    FlattenChunk(BytesToBits(frame), 11, 16);
    BytesToBitsToBytes(frame);
  }

  /** A store into `ch<i>` reads back as the low 11 bits of the value stored and leaves
      every other field as it was. */
  lemma ReadAfterWrite(frame: seq<Byte>, i: nat, v: nat, j: nat)
    requires |frame| == RcFrameLength && i < NumChannels && j < NumChannels
    ensures ReadChannel(WriteChannel(frame, i, v), j) == if i == j then Low11(v) else ReadChannel(frame, j)
  {
    WrittenField(frame, i, v, j);
    if i == j {
      FromToBits(v, 11);
      assert Pow2(11) == 2048;
    }
  }

  /** The bits of field `j` after a store into field `i`. */
  lemma WrittenField(frame: seq<Byte>, i: nat, v: nat, j: nat)
    requires |frame| == RcFrameLength && i < NumChannels && j < NumChannels
    ensures var bits, bits' := BytesToBits(frame), BytesToBits(WriteChannel(frame, i, v));
            bits'[11 * j .. 11 * j + 11] == if i == j then ToBits(v, 11) else bits[11 * j .. 11 * j + 11]
  {
    var bits := BytesToBits(frame);
    var pre, post := bits[..11 * i], bits[11 * i + 11..];
    var bits' := pre + ToBits(v, 11) + post;
    assert BytesToBits(WriteChannel(frame, i, v)) == bits';
    var lo := 11 * j;
    if i == j {
      assert bits'[lo .. lo + 11] == ToBits(v, 11);
    } else if j < i {
      assert lo + 11 <= |pre|;
      assert bits'[lo .. lo + 11] == pre[lo .. lo + 11] == bits[lo .. lo + 11];
    } else {
      assert lo >= |pre| + 11;
      SliceAfter(pre + ToBits(v, 11), post, lo, lo + 11);
      SliceOfSlice(bits, 11 * i + 11, lo - 11 * i - 11, lo - 11 * i);
    }
  }

  /** A slice lying wholly in the second part of a concatenation. */
  lemma SliceAfter<T>(a: seq<T>, b: seq<T>, lo: nat, hi: nat)
    requires |a| <= lo <= hi <= |a| + |b|
    ensures (a + b)[lo .. hi] == b[lo - |a| .. hi - |a|]
  {
  }

  /** Bit `n` of a buffer: bit `n % 8` of byte `n / 8`. */
  function BitAt(frame: seq<Byte>, n: nat): bool
    requires n < 8 * |frame|
  {
    BitsOfByte(frame[n / 8])[n % 8]
  }

  lemma BitAtBytesToBits(frame: seq<Byte>, n: nat)
    requires n < 8 * |frame|
    ensures BytesToBits(frame)[n] == BitAt(frame, n)
  {
    var m, k := n / 8, n % 8;
    assert n == 8 * m + k;
    BytesToBitsAt(frame, m, k);
  }

  /** The value of an 11-bit field as the weighted sum of its bits. */
  lemma FromBits11(s: seq<bool>)
    requires |s| == 11
    ensures FromBits(s) ==
              BitValue(s[0]) + 2 * BitValue(s[1]) + 4 * BitValue(s[2]) + 8 * BitValue(s[3]) +
              16 * BitValue(s[4]) + 32 * BitValue(s[5]) + 64 * BitValue(s[6]) + 128 * BitValue(s[7]) +
              256 * BitValue(s[8]) + 512 * BitValue(s[9]) + 1024 * BitValue(s[10])
  {
    FromBitsUnfold(s, 0);
    FromBitsUnfold(s, 1);
    FromBitsUnfold(s, 2);
    FromBitsUnfold(s, 3);
    FromBitsUnfold(s, 4);
    FromBitsUnfold(s, 5);
    FromBitsUnfold(s, 6);
    FromBitsUnfold(s, 7);
    FromBitsUnfold(s, 8);
    FromBitsUnfold(s, 9);
    FromBitsUnfold(s, 10);
    assert s[11..] == [];
    assert s[0..] == s;
  }

  /** Channel `i` read in place: bit `k` of the field, worth `2^k`, is bit `11 * i + k` of the buffer. */
  lemma ReadChannelBits(frame: seq<Byte>, i: nat)
    requires |frame| == RcFrameLength && i < NumChannels
    ensures var bits := BytesToBits(frame);
            ReadChannel(frame, i) ==
              BitValue(bits[11 * i + 0]) + 2 * BitValue(bits[11 * i + 1]) +
              4 * BitValue(bits[11 * i + 2]) + 8 * BitValue(bits[11 * i + 3]) +
              16 * BitValue(bits[11 * i + 4]) + 32 * BitValue(bits[11 * i + 5]) +
              64 * BitValue(bits[11 * i + 6]) + 128 * BitValue(bits[11 * i + 7]) +
              256 * BitValue(bits[11 * i + 8]) + 512 * BitValue(bits[11 * i + 9]) +
              1024 * BitValue(bits[11 * i + 10])
  {
    FromBits11(BytesToBits(frame)[11 * i .. 11 * i + 11]);
  }
}
