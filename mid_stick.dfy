/** A worked example: every channel at the mid-stick value 992 (1500 us), packed
    into the 22-byte `crsf_channels_s` payload, and the CRC of the RC-channels frame
    that carries it. */
module MidStick {
  import opened CTypes
  import opened Bits
  import opened Bytes
  import opened Channels
  import opened Crc
  import opened Frame

  /** The packed payload with all sixteen channels at 992: the same eleven bytes twice,
      since eight 11-bit fields fill exactly eleven bytes. */
  const MidStickPayload: seq<Byte> :=
    [0xE0, 0x03, 0x1F, 0xF8, 0xC0, 0x07, 0x3E, 0xF0, 0x81, 0x0F, 0x7C,
     0xE0, 0x03, 0x1F, 0xF8, 0xC0, 0x07, 0x3E, 0xF0, 0x81, 0x0F, 0x7C]

  /** The CRC byte of the RC-channels frame carrying `MidStickPayload`. */
  const MidStickCrc: Byte := 0xAD

  /** A buffer equal, byte for byte, to `MidStickPayload`. */
  predicate IsMidStick(p: seq<Byte>)
  {
    |p| == RcFrameLength
    && p[0] == 0xE0 && p[1] == 0x03 && p[2] == 0x1F && p[3] == 0xF8 && p[4] == 0xC0 && p[5] == 0x07
    && p[6] == 0x3E && p[7] == 0xF0 && p[8] == 0x81 && p[9] == 0x0F && p[10] == 0x7C && p[11] == 0xE0
    && p[12] == 0x03 && p[13] == 0x1F && p[14] == 0xF8 && p[15] == 0xC0 && p[16] == 0x07 && p[17] == 0x3E
    && p[18] == 0xF0 && p[19] == 0x81 && p[20] == 0x0F && p[21] == 0x7C
  }

  /** The eleven bits of channel `i` spell 992 = 0b011_1110_0000, least significant first. */
  predicate HoldsMid(p: seq<Byte>, i: nat)
    requires |p| == RcFrameLength && i < NumChannels
  {
    var bits := BytesToBits(p);
    !bits[11 * i + 0] && !bits[11 * i + 1] && !bits[11 * i + 2] && !bits[11 * i + 3] &&
    !bits[11 * i + 4] && bits[11 * i + 5] && bits[11 * i + 6] && bits[11 * i + 7] &&
    bits[11 * i + 8] && bits[11 * i + 9] && !bits[11 * i + 10]
  }

  lemma ChannelIsMid(p: seq<Byte>, i: nat)
    requires |p| == RcFrameLength && i < NumChannels && HoldsMid(p, i)
    ensures ReadChannel(p, i) == 992
  {
    ReadChannelBits(p, i);
  }

  // One lemma per channel. Each names the eleven bit positions of its channel as
  // literals, so that the byte `n / 8` and the bit `n % 8` holding each of them are
  // constants; with a channel index as a parameter the solver has to reason about
  // `(11 * i + k) / 8` and `(11 * i + k) % 8` for all sixteen channels at once, which
  // is far beyond the resource limit used here.

  lemma MidStickChannel0(p: seq<Byte>)
    requires IsMidStick(p)
    ensures ReadChannel(p, 0) == 992
  {
    BitAtBytesToBits(p, 0);
    BitAtBytesToBits(p, 1);
    BitAtBytesToBits(p, 2);
    BitAtBytesToBits(p, 3);
    BitAtBytesToBits(p, 4);
    BitAtBytesToBits(p, 5);
    BitAtBytesToBits(p, 6);
    BitAtBytesToBits(p, 7);
    BitAtBytesToBits(p, 8);
    BitAtBytesToBits(p, 9);
    BitAtBytesToBits(p, 10);
    assert HoldsMid(p, 0);
    ChannelIsMid(p, 0);
  }

  lemma MidStickChannel1(p: seq<Byte>)
    requires IsMidStick(p)
    ensures ReadChannel(p, 1) == 992
  {
    BitAtBytesToBits(p, 11);
    BitAtBytesToBits(p, 12);
    BitAtBytesToBits(p, 13);
    BitAtBytesToBits(p, 14);
    BitAtBytesToBits(p, 15);
    BitAtBytesToBits(p, 16);
    BitAtBytesToBits(p, 17);
    BitAtBytesToBits(p, 18);
    BitAtBytesToBits(p, 19);
    BitAtBytesToBits(p, 20);
    BitAtBytesToBits(p, 21);
    assert HoldsMid(p, 1);
    ChannelIsMid(p, 1);
  }

  lemma MidStickChannel2(p: seq<Byte>)
    requires IsMidStick(p)
    ensures ReadChannel(p, 2) == 992
  {
    BitAtBytesToBits(p, 22);
    BitAtBytesToBits(p, 23);
    BitAtBytesToBits(p, 24);
    BitAtBytesToBits(p, 25);
    BitAtBytesToBits(p, 26);
    BitAtBytesToBits(p, 27);
    BitAtBytesToBits(p, 28);
    BitAtBytesToBits(p, 29);
    BitAtBytesToBits(p, 30);
    BitAtBytesToBits(p, 31);
    BitAtBytesToBits(p, 32);
    assert HoldsMid(p, 2);
    ChannelIsMid(p, 2);
  }

  lemma MidStickChannel3(p: seq<Byte>)
    requires IsMidStick(p)
    ensures ReadChannel(p, 3) == 992
  {
    BitAtBytesToBits(p, 33);
    BitAtBytesToBits(p, 34);
    BitAtBytesToBits(p, 35);
    BitAtBytesToBits(p, 36);
    BitAtBytesToBits(p, 37);
    BitAtBytesToBits(p, 38);
    BitAtBytesToBits(p, 39);
    BitAtBytesToBits(p, 40);
    BitAtBytesToBits(p, 41);
    BitAtBytesToBits(p, 42);
    BitAtBytesToBits(p, 43);
    assert HoldsMid(p, 3);
    ChannelIsMid(p, 3);
  }

  lemma MidStickChannel4(p: seq<Byte>)
    requires IsMidStick(p)
    ensures ReadChannel(p, 4) == 992
  {
    BitAtBytesToBits(p, 44);
    BitAtBytesToBits(p, 45);
    BitAtBytesToBits(p, 46);
    BitAtBytesToBits(p, 47);
    BitAtBytesToBits(p, 48);
    BitAtBytesToBits(p, 49);
    BitAtBytesToBits(p, 50);
    BitAtBytesToBits(p, 51);
    BitAtBytesToBits(p, 52);
    BitAtBytesToBits(p, 53);
    BitAtBytesToBits(p, 54);
    assert HoldsMid(p, 4);
    ChannelIsMid(p, 4);
  }

  lemma MidStickChannel5(p: seq<Byte>)
    requires IsMidStick(p)
    ensures ReadChannel(p, 5) == 992
  {
    BitAtBytesToBits(p, 55);
    BitAtBytesToBits(p, 56);
    BitAtBytesToBits(p, 57);
    BitAtBytesToBits(p, 58);
    BitAtBytesToBits(p, 59);
    BitAtBytesToBits(p, 60);
    BitAtBytesToBits(p, 61);
    BitAtBytesToBits(p, 62);
    BitAtBytesToBits(p, 63);
    BitAtBytesToBits(p, 64);
    BitAtBytesToBits(p, 65);
    assert HoldsMid(p, 5);
    ChannelIsMid(p, 5);
  }

  lemma MidStickChannel6(p: seq<Byte>)
    requires IsMidStick(p)
    ensures ReadChannel(p, 6) == 992
  {
    BitAtBytesToBits(p, 66);
    BitAtBytesToBits(p, 67);
    BitAtBytesToBits(p, 68);
    BitAtBytesToBits(p, 69);
    BitAtBytesToBits(p, 70);
    BitAtBytesToBits(p, 71);
    BitAtBytesToBits(p, 72);
    BitAtBytesToBits(p, 73);
    BitAtBytesToBits(p, 74);
    BitAtBytesToBits(p, 75);
    BitAtBytesToBits(p, 76);
    assert HoldsMid(p, 6);
    ChannelIsMid(p, 6);
  }

  lemma MidStickChannel7(p: seq<Byte>)
    requires IsMidStick(p)
    ensures ReadChannel(p, 7) == 992
  {
    BitAtBytesToBits(p, 77);
    BitAtBytesToBits(p, 78);
    BitAtBytesToBits(p, 79);
    BitAtBytesToBits(p, 80);
    BitAtBytesToBits(p, 81);
    BitAtBytesToBits(p, 82);
    BitAtBytesToBits(p, 83);
    BitAtBytesToBits(p, 84);
    BitAtBytesToBits(p, 85);
    BitAtBytesToBits(p, 86);
    BitAtBytesToBits(p, 87);
    assert HoldsMid(p, 7);
    ChannelIsMid(p, 7);
  }

  lemma MidStickChannel8(p: seq<Byte>)
    requires IsMidStick(p)
    ensures ReadChannel(p, 8) == 992
  {
    BitAtBytesToBits(p, 88);
    BitAtBytesToBits(p, 89);
    BitAtBytesToBits(p, 90);
    BitAtBytesToBits(p, 91);
    BitAtBytesToBits(p, 92);
    BitAtBytesToBits(p, 93);
    BitAtBytesToBits(p, 94);
    BitAtBytesToBits(p, 95);
    BitAtBytesToBits(p, 96);
    BitAtBytesToBits(p, 97);
    BitAtBytesToBits(p, 98);
    assert HoldsMid(p, 8);
    ChannelIsMid(p, 8);
  }

  lemma MidStickChannel9(p: seq<Byte>)
    requires IsMidStick(p)
    ensures ReadChannel(p, 9) == 992
  {
    BitAtBytesToBits(p, 99);
    BitAtBytesToBits(p, 100);
    BitAtBytesToBits(p, 101);
    BitAtBytesToBits(p, 102);
    BitAtBytesToBits(p, 103);
    BitAtBytesToBits(p, 104);
    BitAtBytesToBits(p, 105);
    BitAtBytesToBits(p, 106);
    BitAtBytesToBits(p, 107);
    BitAtBytesToBits(p, 108);
    BitAtBytesToBits(p, 109);
    assert HoldsMid(p, 9);
    ChannelIsMid(p, 9);
  }

  lemma MidStickChannel10(p: seq<Byte>)
    requires IsMidStick(p)
    ensures ReadChannel(p, 10) == 992
  {
    BitAtBytesToBits(p, 110);
    BitAtBytesToBits(p, 111);
    BitAtBytesToBits(p, 112);
    BitAtBytesToBits(p, 113);
    BitAtBytesToBits(p, 114);
    BitAtBytesToBits(p, 115);
    BitAtBytesToBits(p, 116);
    BitAtBytesToBits(p, 117);
    BitAtBytesToBits(p, 118);
    BitAtBytesToBits(p, 119);
    BitAtBytesToBits(p, 120);
    assert HoldsMid(p, 10);
    ChannelIsMid(p, 10);
  }

  lemma MidStickChannel11(p: seq<Byte>)
    requires IsMidStick(p)
    ensures ReadChannel(p, 11) == 992
  {
    BitAtBytesToBits(p, 121);
    BitAtBytesToBits(p, 122);
    BitAtBytesToBits(p, 123);
    BitAtBytesToBits(p, 124);
    BitAtBytesToBits(p, 125);
    BitAtBytesToBits(p, 126);
    BitAtBytesToBits(p, 127);
    BitAtBytesToBits(p, 128);
    BitAtBytesToBits(p, 129);
    BitAtBytesToBits(p, 130);
    BitAtBytesToBits(p, 131);
    assert HoldsMid(p, 11);
    ChannelIsMid(p, 11);
  }

  lemma MidStickChannel12(p: seq<Byte>)
    requires IsMidStick(p)
    ensures ReadChannel(p, 12) == 992
  {
    BitAtBytesToBits(p, 132);
    BitAtBytesToBits(p, 133);
    BitAtBytesToBits(p, 134);
    BitAtBytesToBits(p, 135);
    BitAtBytesToBits(p, 136);
    BitAtBytesToBits(p, 137);
    BitAtBytesToBits(p, 138);
    BitAtBytesToBits(p, 139);
    BitAtBytesToBits(p, 140);
    BitAtBytesToBits(p, 141);
    BitAtBytesToBits(p, 142);
    assert HoldsMid(p, 12);
    ChannelIsMid(p, 12);
  }

  lemma MidStickChannel13(p: seq<Byte>)
    requires IsMidStick(p)
    ensures ReadChannel(p, 13) == 992
  {
    BitAtBytesToBits(p, 143);
    BitAtBytesToBits(p, 144);
    BitAtBytesToBits(p, 145);
    BitAtBytesToBits(p, 146);
    BitAtBytesToBits(p, 147);
    BitAtBytesToBits(p, 148);
    BitAtBytesToBits(p, 149);
    BitAtBytesToBits(p, 150);
    BitAtBytesToBits(p, 151);
    BitAtBytesToBits(p, 152);
    BitAtBytesToBits(p, 153);
    assert HoldsMid(p, 13);
    ChannelIsMid(p, 13);
  }

  lemma MidStickChannel14(p: seq<Byte>)
    requires IsMidStick(p)
    ensures ReadChannel(p, 14) == 992
  {
    BitAtBytesToBits(p, 154);
    BitAtBytesToBits(p, 155);
    BitAtBytesToBits(p, 156);
    BitAtBytesToBits(p, 157);
    BitAtBytesToBits(p, 158);
    BitAtBytesToBits(p, 159);
    BitAtBytesToBits(p, 160);
    BitAtBytesToBits(p, 161);
    BitAtBytesToBits(p, 162);
    BitAtBytesToBits(p, 163);
    BitAtBytesToBits(p, 164);
    assert HoldsMid(p, 14);
    ChannelIsMid(p, 14);
  }

  lemma MidStickChannel15(p: seq<Byte>)
    requires IsMidStick(p)
    ensures ReadChannel(p, 15) == 992
  {
    BitAtBytesToBits(p, 165);
    BitAtBytesToBits(p, 166);
    BitAtBytesToBits(p, 167);
    BitAtBytesToBits(p, 168);
    BitAtBytesToBits(p, 169);
    BitAtBytesToBits(p, 170);
    BitAtBytesToBits(p, 171);
    BitAtBytesToBits(p, 172);
    BitAtBytesToBits(p, 173);
    BitAtBytesToBits(p, 174);
    BitAtBytesToBits(p, 175);
    assert HoldsMid(p, 15);
    ChannelIsMid(p, 15);
  }

  /** Every field of the mid-stick payload reads 992. */
  lemma MidStickChannels(p: seq<Byte>)
    requires IsMidStick(p)
    ensures Unpack(p) == seq(16, i => 992)
  {
    MidStickChannel0(p);
    MidStickChannel1(p);
    MidStickChannel2(p);
    MidStickChannel3(p);
    MidStickChannel4(p);
    MidStickChannel5(p);
    MidStickChannel6(p);
    MidStickChannel7(p);
    MidStickChannel8(p);
    MidStickChannel9(p);
    MidStickChannel10(p);
    MidStickChannel11(p);
    MidStickChannel12(p);
    MidStickChannel13(p);
    MidStickChannel14(p);
    MidStickChannel15(p);
  }

  /** Packing sixteen channels at 992 gives `MidStickPayload`. */
  lemma PackMidStick()
    ensures Pack(seq(16, i => 992)) == MidStickPayload
  {
    MidStickChannels(MidStickPayload);
    PackUnpack(MidStickPayload);
  }

  /** Byte `k` of `d` entered into the register: `c` becomes `c'`. */
  lemma Step(c: Byte, d: seq<Byte>, k: nat, c': Byte)
    requires k < |d| && ShiftByte(c ^ d[k]) == c'
    ensures BitwiseFold(c, d[k..]) == BitwiseFold(c', d[k + 1..])
  {
    assert d[k..][1..] == d[k + 1..];
  }

  /** The checked bytes of the mid-stick frame: the type `CRSF_FRAMETYPE_RC_CHANNELS_PACKED`,
      then the mid-stick payload. */
  predicate IsCheckedBytes(d: seq<Byte>)
  {
    |d| == 23 && d[0] == 0x16 && IsMidStick(d[1..])
  }

  /** The register after each of the checked bytes. */
  lemma CrcSteps(d: seq<Byte>)
    requires IsCheckedBytes(d)
    ensures BitwiseFold(0x00, d[0..]) == BitwiseFold(0xD3, d[1..])
    ensures BitwiseFold(0xD3, d[1..]) == BitwiseFold(0x5C, d[2..])
    ensures BitwiseFold(0x5C, d[2..]) == BitwiseFold(0xB2, d[3..])
    ensures BitwiseFold(0xB2, d[3..]) == BitwiseFold(0x49, d[4..])
    ensures BitwiseFold(0x49, d[4..]) == BitwiseFold(0xCC, d[5..])
    ensures BitwiseFold(0xCC, d[5..]) == BitwiseFold(0xD7, d[6..])
    ensures BitwiseFold(0xD7, d[6..]) == BitwiseFold(0x20, d[7..])
    ensures BitwiseFold(0x20, d[7..]) == BitwiseFold(0xFA, d[8..])
    ensures BitwiseFold(0xFA, d[8..]) == BitwiseFold(0x56, d[9..])
    ensures BitwiseFold(0x56, d[9..]) == BitwiseFold(0x74, d[10..])
    ensures BitwiseFold(0x74, d[10..]) == BitwiseFold(0xE8, d[11..])
    ensures BitwiseFold(0xE8, d[11..]) == BitwiseFold(0x43, d[12..])
    ensures BitwiseFold(0x43, d[12..]) == BitwiseFold(0xE1, d[13..])
    ensures BitwiseFold(0xE1, d[13..]) == BitwiseFold(0xA9, d[14..])
    ensures BitwiseFold(0xA9, d[14..]) == BitwiseFold(0x98, d[15..])
    ensures BitwiseFold(0x98, d[15..]) == BitwiseFold(0x39, d[16..])
    ensures BitwiseFold(0x39, d[16..]) == BitwiseFold(0x78, d[17..])
    ensures BitwiseFold(0x78, d[17..]) == BitwiseFold(0x16, d[18..])
    ensures BitwiseFold(0x16, d[18..]) == BitwiseFold(0x8D, d[19..])
    ensures BitwiseFold(0x8D, d[19..]) == BitwiseFold(0x69, d[20..])
    ensures BitwiseFold(0x69, d[20..]) == BitwiseFold(0xFF, d[21..])
    ensures BitwiseFold(0xFF, d[21..]) == BitwiseFold(0x84, d[22..])
    ensures BitwiseFold(0x84, d[22..]) == BitwiseFold(0xAD, d[23..])
  {
    Step(0x00, d, 0, 0xD3);
    Step(0xD3, d, 1, 0x5C);
    Step(0x5C, d, 2, 0xB2);
    Step(0xB2, d, 3, 0x49);
    Step(0x49, d, 4, 0xCC);
    Step(0xCC, d, 5, 0xD7);
    Step(0xD7, d, 6, 0x20);
    Step(0x20, d, 7, 0xFA);
    Step(0xFA, d, 8, 0x56);
    Step(0x56, d, 9, 0x74);
    Step(0x74, d, 10, 0xE8);
    Step(0xE8, d, 11, 0x43);
    Step(0x43, d, 12, 0xE1);
    Step(0xE1, d, 13, 0xA9);
    Step(0xA9, d, 14, 0x98);
    Step(0x98, d, 15, 0x39);
    Step(0x39, d, 16, 0x78);
    Step(0x78, d, 17, 0x16);
    Step(0x16, d, 18, 0x8D);
    Step(0x8D, d, 19, 0x69);
    Step(0x69, d, 20, 0xFF);
    Step(0xFF, d, 21, 0x84);
    Step(0x84, d, 22, 0xAD);
  }

  lemma TypeThenPayload(p: seq<Byte>)
    requires IsMidStick(p)
    ensures IsCheckedBytes([FrameTypeRcChannelsPacked] + p)
  {
    assert ([FrameTypeRcChannelsPacked] + p)[1..] == p;
  }

  /** The CRC of the checked bytes of the mid-stick RC-channels frame. */
  lemma MidStickFrameCrc(d: seq<Byte>)
    requires IsCheckedBytes(d)
    ensures Crc8(d) == MidStickCrc
  {
    CrcSteps(d);
    assert d[23..] == [];
    assert d[0..] == d;
  }

  /** The RC-channels frame addressed to the flight controller and carrying the mid-stick
      payload (which `PackMidStick` shows is what packing sixteen channels at 992 gives):
      sync byte, `frame_size` 24, type 0x16, the payload and the CRC 0xAD; it reads back
      as the same frame. */
  lemma MidStickFrame(f: Frame)
    requires f.deviceAddr == AddressFlightController && f.frameType == FrameTypeRcChannelsPacked
    requires f.addressing == None && IsMidStick(f.payload)
    ensures Valid(f)
    ensures Serialize(f) == [SyncByte, 0x18, FrameTypeRcChannelsPacked] + f.payload + [MidStickCrc]
    ensures Parse(Serialize(f)) == Ok(f)
  {
    TypeThenPayload(f.payload);
    assert Checked(f) == [FrameTypeRcChannelsPacked] + f.payload;
    MidStickFrameCrc(Checked(f));
    SerializedLayout(f);
    var bs := Serialize(f);
    assert bs[1] == 0x18 by {
      assert bs[1] as int == 24;
    }
    assert bs == [bs[0], bs[1]] + bs[2..25] + [bs[25]];
    ParseSerialize(f, []);
    assert bs + [] == bs;
  }
}
