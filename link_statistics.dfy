/** The link-statistics payload `crsfPayloadLinkstatistics_s` (frame type 0x14):
    ten one-byte fields in declaration order with no padding. Two of them,
    the uplink and downlink signal-to-noise ratios, are `int8_t` and are stored
    as two's-complement bytes. */
module LinkStatistics {
  import opened CTypes
  import opened Bytes

  /** `LinkStatisticsFrameLength` */
  const LinkStatisticsFrameLength: nat := 10

  // Offsets of the fields in the payload.
  const UplinkRssi1Offset: nat := 0
  const UplinkRssi2Offset: nat := 1
  const UplinkLinkQualityOffset: nat := 2
  const UplinkSnrOffset: nat := 3
  const ActiveAntennaOffset: nat := 4
  const RfModeOffset: nat := 5
  const UplinkTxPowerOffset: nat := 6
  const DownlinkRssiOffset: nat := 7
  const DownlinkLinkQualityOffset: nat := 8
  const DownlinkSnrOffset: nat := 9

  datatype LinkStats = LinkStats(
    uplinkRssi1: Byte,          // dBm * -1
    uplinkRssi2: Byte,          // dBm * -1
    uplinkLinkQuality: Byte,    // %
    uplinkSnr: int8,            // dB
    activeAntenna: Byte,        // antenna 1 = 0, antenna 2 = 1
    rfMode: Byte,               // 4 fps = 0, 50 fps, 150 Hz
    uplinkTxPower: Byte,        // 0 mW = 0, 10 mW, 25 mW, 100 mW, 500 mW, 1000 mW, 2000 mW
    downlinkRssi: Byte,         // dBm * -1
    downlinkLinkQuality: Byte,  // %
    downlinkSnr: int8)          // dB

  /** The `int8_t` whose two's-complement representation is `b`. */
  function Int8OfByte(b: Byte): (v: int8)
    ensures v == b as int || v == b as int - 0x100
  {
    if b < 0x80 then b as int else b as int - 0x100
  }

  /** The two's-complement representation of an `int8_t`. */
  function ByteOfInt8(v: int8): (b: Byte)
    ensures Int8OfByte(b) == v
  {
    ByteOfNat(if v < 0 then v + 0x100 else v)
  }

  /** Distinct bytes are distinct `int8_t` values: every byte is the representation of
      the value it reads as. */
  lemma ByteOfInt8OfByte(b: Byte)
    ensures ByteOfInt8(Int8OfByte(b)) == b
  {
    var c := ByteOfInt8(Int8OfByte(b));
    assert c as int == b as int;
  }

  /** Reading the struct from the first ten bytes of a buffer. */
  function Parse(bs: seq<Byte>): (ls: LinkStats)
    requires |bs| >= LinkStatisticsFrameLength
    ensures ls.uplinkSnr == Int8OfByte(bs[UplinkSnrOffset])
    ensures ls.downlinkSnr == Int8OfByte(bs[DownlinkSnrOffset])
  {
    LinkStats(bs[0], bs[1], bs[2], Int8OfByte(bs[3]), bs[4], bs[5], bs[6], bs[7], bs[8], Int8OfByte(bs[9]))
  }

  /** The ten bytes of the struct, fields in declaration order. */
  function Serialize(ls: LinkStats): (bs: seq<Byte>)
    ensures |bs| == LinkStatisticsFrameLength
    ensures Parse(bs) == ls
  {
    [ls.uplinkRssi1, ls.uplinkRssi2, ls.uplinkLinkQuality, ByteOfInt8(ls.uplinkSnr),
     ls.activeAntenna, ls.rfMode, ls.uplinkTxPower, ls.downlinkRssi,
     ls.downlinkLinkQuality, ByteOfInt8(ls.downlinkSnr)]
  }

  /** Every ten-byte payload is the serialization of the struct read from it. */
  lemma SerializeParse(bs: seq<Byte>)
    requires |bs| == LinkStatisticsFrameLength
    ensures Serialize(Parse(bs)) == bs
  {
    ByteOfInt8OfByte(bs[UplinkSnrOffset]);
    ByteOfInt8OfByte(bs[DownlinkSnrOffset]);
  }

  /** Each field sits at its offset: the unsigned fields as they are, the two SNR fields
      as two's-complement bytes. */
  lemma FieldOffsets(ls: LinkStats)
    ensures Serialize(ls)[UplinkRssi1Offset] == ls.uplinkRssi1
    ensures Serialize(ls)[UplinkRssi2Offset] == ls.uplinkRssi2
    ensures Serialize(ls)[UplinkLinkQualityOffset] == ls.uplinkLinkQuality
    ensures Serialize(ls)[UplinkSnrOffset] as int == if ls.uplinkSnr < 0 then ls.uplinkSnr + 0x100 else ls.uplinkSnr
    ensures Serialize(ls)[ActiveAntennaOffset] == ls.activeAntenna
    ensures Serialize(ls)[RfModeOffset] == ls.rfMode
    ensures Serialize(ls)[UplinkTxPowerOffset] == ls.uplinkTxPower
    ensures Serialize(ls)[DownlinkRssiOffset] == ls.downlinkRssi
    ensures Serialize(ls)[DownlinkLinkQualityOffset] == ls.downlinkLinkQuality
    ensures Serialize(ls)[DownlinkSnrOffset] as int == if ls.downlinkSnr < 0 then ls.downlinkSnr + 0x100 else ls.downlinkSnr
  {
  }
}
