/** Frame geometry: the size macros, the frame-type and address enumerations, the
    3-byte header `crsf_header_t`, the 5-byte extended header `crsf_ext_header_t`,
    and the frame they start. On the wire a frame is

      device_addr, frame_size, type, [dest_addr, orig_addr,] payload..., crc

    where `frame_size` counts every byte after itself (type, the extended addresses
    when present, payload and CRC), and the CRC is taken over the same bytes but the
    CRC itself. */
module Frame {
  import opened CTypes
  import opened Bytes
  import opened Crc

  datatype Option<T> = None | Some(value: T)
  datatype Result<T, E> = Ok(value: T) | Err(error: E)

  /** `CRSF_MAX_PACKET_LEN` */
  const MaxPacketLen: nat := 64
  /** `CRSF_SYNC_BYTE` */
  const SyncByte: Byte := 0xC8
  /** `CRSF_PAYLOAD_SIZE_MAX`: the largest `frame_size`. */
  const PayloadSizeMax: nat := 62
  /** `CRSF_FRAME_NOT_COUNTED_BYTES`: `device_addr` and `frame_size` themselves. */
  const FrameNotCountedBytes: nat := 2
  /** `CRSF_FRAME_SIZE_MAX`: the largest frame on the wire. */
  const FrameSizeMax: nat := PayloadSizeMax + FrameNotCountedBytes

  /** `CRSF_FRAME_SIZE(payload_size)`: the `frame_size` of a frame with a plain header,
      which counts the type and CRC bytes besides the payload; a plain header carries at
      most 60 payload bytes. */
  function FrameSize(payloadSize: nat): (size: nat)
    ensures size <= PayloadSizeMax <==> payloadSize <= PayloadSizeMax - FrameNotCountedBytes
  {
    payloadSize + 2
  }

  /** `CRSF_EXT_FRAME_SIZE(payload_size)`: the `frame_size` of a frame with an extended
      header, whose two addresses are counted like two more payload bytes; an extended
      header carries at most an MSP response chunk. */
  function ExtFrameSize(payloadSize: nat): (size: nat)
    ensures size == FrameSize(payloadSize + 2)
    ensures size <= PayloadSizeMax <==> payloadSize <= MspRespPayloadSize
  {
    FrameSize(payloadSize) + 2
  }

  /** `CRSF_MSP_REQ_PAYLOAD_SIZE`, `CRSF_MSP_RESP_PAYLOAD_SIZE`, `CRSF_MSP_MAX_PAYLOAD_SIZE` */
  const MspReqPayloadSize: nat := 8
  const MspRespPayloadSize: nat := 58
  const MspMaxPayloadSize: nat :=
    if MspReqPayloadSize > MspRespPayloadSize then MspReqPayloadSize else MspRespPayloadSize

  // crsf_frame_type_e
  const FrameTypeGps: Byte := 0x02
  const FrameTypeBatterySensor: Byte := 0x08
  const FrameTypeLinkStatistics: Byte := 0x14
  const FrameTypeRcChannelsPacked: Byte := 0x16
  const FrameTypeAttitude: Byte := 0x1E
  const FrameTypeFlightMode: Byte := 0x21
  const FrameTypeDevicePing: Byte := 0x28
  const FrameTypeDeviceInfo: Byte := 0x29
  const FrameTypeParameterSettingsEntry: Byte := 0x2B
  const FrameTypeParameterRead: Byte := 0x2C
  const FrameTypeParameterWrite: Byte := 0x2D
  const FrameTypeCommand: Byte := 0x32
  const FrameTypeMspReq: Byte := 0x7A
  const FrameTypeMspResp: Byte := 0x7B
  const FrameTypeMspWrite: Byte := 0x7C

  // crsf_addr_e
  const AddressBroadcast: Byte := 0x00
  const AddressUsb: Byte := 0x10
  const AddressTbsCorePnpPro: Byte := 0x80
  const AddressReserved1: Byte := 0x8A
  const AddressCurrentSensor: Byte := 0xC0
  const AddressGps: Byte := 0xC2
  const AddressTbsBlackbox: Byte := 0xC4
  const AddressFlightController: Byte := 0xC8
  const AddressReserved2: Byte := 0xCA
  const AddressRaceTag: Byte := 0xCC
  const AddressRadioTransmitter: Byte := 0xEA
  const AddressCrsfReceiver: Byte := 0xEC
  const AddressCrsfTransmitter: Byte := 0xEE

  /** Frame types 0x28 to 0x96 use the extended header: of the enumerated types, the
      device, parameter, command and MSP frames do, the telemetry and RC frames do not. */
  predicate IsExtendedType(t: Byte)
    ensures t in {FrameTypeDevicePing, FrameTypeDeviceInfo, FrameTypeParameterSettingsEntry, FrameTypeParameterRead,
                  FrameTypeParameterWrite, FrameTypeCommand, FrameTypeMspReq, FrameTypeMspResp, FrameTypeMspWrite}
            ==> IsExtendedType(t)
    ensures t in {FrameTypeGps, FrameTypeBatterySensor, FrameTypeLinkStatistics, FrameTypeRcChannelsPacked,
                  FrameTypeAttitude, FrameTypeFlightMode}
            ==> !IsExtendedType(t)
  {
    0x28 <= t <= 0x96
  }

  /** `crsf_header_t` */
  datatype Header = Header(deviceAddr: Byte, frameSize: Byte, frameType: Byte)

  /** `crsf_ext_header_t`: the common fields, then the destination and origin addresses. */
  datatype ExtHeader = ExtHeader(deviceAddr: Byte, frameSize: Byte, frameType: Byte, destAddr: Byte, origAddr: Byte)

  /** The header read from the start of a buffer. */
  function ParseHeader(bs: seq<Byte>): Header
    requires |bs| >= 3
  {
    Header(bs[0], bs[1], bs[2])
  }

  /** The extended header read from the start of a buffer. */
  function ParseExtHeader(bs: seq<Byte>): ExtHeader
    requires |bs| >= 5
  {
    ExtHeader(bs[0], bs[1], bs[2], bs[3], bs[4])
  }

  /** The three bytes of a packed `crsf_header_t`. */
  function HeaderBytes(h: Header): (bs: seq<Byte>)
    ensures |bs| == 3 && ParseHeader(bs) == h
  {
    [h.deviceAddr, h.frameSize, h.frameType]
  }

  /** The five bytes of a packed `crsf_ext_header_t`, which begin with the common header. */
  function ExtHeaderBytes(h: ExtHeader): (bs: seq<Byte>)
    ensures |bs| == 5 && ParseExtHeader(bs) == h
    ensures bs[..3] == HeaderBytes(Header(h.deviceAddr, h.frameSize, h.frameType))
  {
    [h.deviceAddr, h.frameSize, h.frameType, h.destAddr, h.origAddr]
  }

  /** The two header layouts agree on the common fields, so the type byte can be read
      through the short header before deciding which one the frame has. */
  lemma HeadersAgree(bs: seq<Byte>)
    requires |bs| >= 5
    ensures var h, e := ParseHeader(bs), ParseExtHeader(bs);
            h.deviceAddr == e.deviceAddr && h.frameSize == e.frameSize && h.frameType == e.frameType
  {
  }

  /** The extended addressing fields. */
  datatype Addressing = Addressing(destAddr: Byte, origAddr: Byte)

  /** A frame: who it is for, its type, the extended addresses when its header is the
      extended one, and its payload. */
  datatype Frame = Frame(deviceAddr: Byte, frameType: Byte, addressing: Option<Addressing>, payload: seq<Byte>)

  /** The value of the `frame_size` field. */
  function DeclaredSize(f: Frame): nat
  {
    if f.addressing.Some? then ExtFrameSize(|f.payload|) else FrameSize(|f.payload|)
  }

  /** A frame that can be sent: its header kind matches its type and it fits the
      largest `frame_size`. */
  predicate Valid(f: Frame)
  {
    (f.addressing.Some? <==> IsExtendedType(f.frameType)) && DeclaredSize(f) <= PayloadSizeMax
  }

  /** The bytes after `frame_size` and before the CRC, over which the CRC is taken. */
  function Checked(f: Frame): seq<Byte>
  {
    [f.frameType] + (match f.addressing
                     case Some(a) => [a.destAddr, a.origAddr]
                     case None => []) + f.payload
  }

  /** The frame on the wire. */
  function Serialize(f: Frame): (bs: seq<Byte>)
    requires Valid(f)
    ensures |bs| == DeclaredSize(f) + FrameNotCountedBytes <= FrameSizeMax
    ensures bs[1] as int == DeclaredSize(f)
    ensures Crc8(bs[2..]) == 0
  {
    var body := Checked(f);
    var bs := [f.deviceAddr, ByteOfNat(DeclaredSize(f))] + body + [Crc8(body)];
    assert bs[2..] == body + [Crc8(body)];
    CheckByte(body, Crc8(body));
    bs
  }

  datatype FrameError = SizeOutOfRange | Truncated | CrcMismatch

  /** Reading a frame from the start of a buffer: `frame_size` must lie between the
      size of an empty frame and `CRSF_PAYLOAD_SIZE_MAX` (and leave room for the
      extended addresses when the type calls for them), the buffer must hold the whole
      frame, and the CRC byte must match. Bytes after the frame are not looked at. */
  function Parse(bs: seq<Byte>): (r: Result<Frame, FrameError>)
    ensures r.Ok? ==> Valid(r.value) && |bs| >= DeclaredSize(r.value) + FrameNotCountedBytes
  {
    if |bs| < 2 then Err(Truncated)
    else
      var size := bs[1] as int;
      if size < FrameSize(0) || size > PayloadSizeMax then Err(SizeOutOfRange)
      else if |bs| < size + FrameNotCountedBytes then Err(Truncated)
      else
        var ext := IsExtendedType(bs[2]);
        if ext && size < ExtFrameSize(0) then Err(SizeOutOfRange)
        else if Crc8(bs[2..size + 1]) != bs[size + 1] then Err(CrcMismatch)
        else
          var start := if ext then 5 else 3;
          Ok(Frame(bs[0], bs[2], if ext then Some(Addressing(bs[3], bs[4])) else None, bs[start..size + 1]))
  }

  /** The header fields of a serialized frame, read through the two header structs. */
  lemma SerializedHeader(f: Frame)
    requires Valid(f)
    ensures var bs := Serialize(f);
            ParseHeader(bs) == Header(f.deviceAddr, bs[1], f.frameType) &&
            (f.addressing.Some? ==>
               |bs| >= 5 && ParseExtHeader(bs) ==
               ExtHeader(f.deviceAddr, bs[1], f.frameType, f.addressing.value.destAddr, f.addressing.value.origAddr))
  {
  }

  /** Where each part of a frame lies in its serialization. */
  lemma SerializedLayout(f: Frame)
    requires Valid(f)
    ensures var bs, size := Serialize(f), DeclaredSize(f);
            var start := if f.addressing.Some? then 5 else 3;
            |bs| == size + 2 && bs[0] == f.deviceAddr && bs[1] as int == size && bs[2] == f.frameType &&
            start <= size + 1 &&
            (f.addressing.Some? ==> bs[3] == f.addressing.value.destAddr && bs[4] == f.addressing.value.origAddr) &&
            bs[2..size + 1] == Checked(f) && bs[size + 1] == Crc8(Checked(f)) &&
            bs[start..size + 1] == f.payload
  {
    var body := Checked(f);
    var bs := Serialize(f);
    assert bs == [f.deviceAddr, ByteOfNat(DeclaredSize(f))] + body + [Crc8(body)];
    var start := if f.addressing.Some? then 5 else 3;
    assert body[start - 2..] == f.payload;
  }

  /** A frame sent and read back, whatever follows it in the buffer, is the same frame. */
  lemma ParseSerialize(f: Frame, rest: seq<Byte>)
    requires Valid(f)
    ensures Parse(Serialize(f) + rest) == Ok(f)
  {
    SerializedLayout(f);
    var fb := Serialize(f);
    var bs := fb + rest;
    var size := DeclaredSize(f);
    var start := if f.addressing.Some? then 5 else 3;
    SliceBefore(fb, rest, 2, size + 1);
    SliceBefore(fb, rest, start, size + 1);
    ParseLaidOut(f, bs);
  }

  /** A slice lying wholly in the first part of a concatenation. */
  lemma SliceBefore<T>(a: seq<T>, b: seq<T>, lo: nat, hi: nat)
    requires lo <= hi <= |a|
    ensures (a + b)[lo .. hi] == a[lo .. hi]
  {
  }

  /** A buffer that holds a frame's fields where `Serialize` puts them reads as that frame. */
  lemma ParseLaidOut(f: Frame, bs: seq<Byte>)
    requires Valid(f)
    requires var size := DeclaredSize(f);
             var start := if f.addressing.Some? then 5 else 3;
             |bs| >= size + 2 && bs[0] == f.deviceAddr && bs[1] as int == size && bs[2] == f.frameType &&
             start <= size + 1 &&
             (f.addressing.Some? ==> bs[3] == f.addressing.value.destAddr && bs[4] == f.addressing.value.origAddr) &&
             Crc8(bs[2..size + 1]) == bs[size + 1] && bs[start..size + 1] == f.payload
    ensures Parse(bs) == Ok(f)
  {
  }

  /** What a successful read has checked, and the frame it builds. */
  lemma ParseOk(bs: seq<Byte>)
    requires Parse(bs).Ok?
    ensures var size, ext := bs[1] as int, IsExtendedType(bs[2]);
            var start := if ext then 5 else 3;
            FrameSize(0) <= size <= PayloadSizeMax && |bs| >= size + 2 && start <= size + 1 &&
            Crc8(bs[2..size + 1]) == bs[size + 1] &&
            Parse(bs).value ==
              Frame(bs[0], bs[2], if ext then Some(Addressing(bs[3], bs[4])) else None, bs[start..size + 1])
  {
  }

  /** A frame read from a buffer declares the size read and covers the bytes read. */
  lemma ParsedFields(bs: seq<Byte>)
    requires Parse(bs).Ok?
    ensures var f, size := Parse(bs).value, bs[1] as int;
            DeclaredSize(f) == size && |bs| >= size + 2 && bs[0] == f.deviceAddr &&
            Checked(f) == bs[2..size + 1] && bs[size + 1] == Crc8(Checked(f))
  {
    ParseOk(bs);
    FieldsRead(bs, bs[1] as int, Parse(bs).value);
  }

  /** The frame built from the fields of a buffer holding `size` after its first two
      bytes has that size and those checked bytes. */
  lemma FieldsRead(bs: seq<Byte>, size: nat, f: Frame)
    requires |bs| >= 3
    requires var start := if IsExtendedType(bs[2]) then 5 else 3;
             3 <= start <= size + 1 <= |bs| &&
             f == Frame(bs[0], bs[2], if IsExtendedType(bs[2]) then Some(Addressing(bs[3], bs[4])) else None,
                        bs[start..size + 1])
    ensures DeclaredSize(f) == size && Checked(f) == bs[2..size + 1]
  {
    if f.addressing.Some? {
      SliceSplit(bs, 2, 5, size + 1);
      assert bs[2..5] == [f.frameType, f.addressing.value.destAddr, f.addressing.value.origAddr];
    } else {
      SliceSplit(bs, 2, 3, size + 1);
      assert bs[2..3] == [f.frameType];
    }
  }

  lemma SliceSplit<T>(s: seq<T>, lo: nat, mid: nat, hi: nat)
    requires lo <= mid <= hi <= |s|
    ensures s[lo..hi] == s[lo..mid] + s[mid..hi]
  {
  }

  /** A frame is sent as any buffer that starts with its address and size and carries
      its checked bytes and their CRC after them. */
  lemma SerializedAs(f: Frame, bs: seq<Byte>)
    requires Valid(f)
    requires var size := DeclaredSize(f);
             |bs| >= size + 2 && bs[0] == f.deviceAddr && bs[1] as int == size &&
             Checked(f) == bs[2..size + 1] && bs[size + 1] == Crc8(Checked(f))
    ensures Serialize(f) == bs[..DeclaredSize(f) + 2]
  {
    var size := DeclaredSize(f);
    SerializedLayout(f);
    var fb := Serialize(f);
    assert fb[1] == bs[1] by {
      assert fb[1] as int == bs[1] as int;
    }
    WireShape(fb, size);
    assert fb[..size + 2] == fb;
    WireShape(bs, size);
  }

  /** The first `size + 2` bytes of a buffer: address, size, checked bytes, CRC byte. */
  lemma WireShape(s: seq<Byte>, size: nat)
    requires 1 <= size && size + 2 <= |s|
    ensures s[..size + 2] == [s[0], s[1]] + s[2..size + 1] + [s[size + 1]]
  {
  }

  /** A frame read from a buffer is exactly the bytes of the buffer it was read from. */
  lemma SerializeParse(bs: seq<Byte>)
    requires Parse(bs).Ok?
    ensures Serialize(Parse(bs).value) == bs[..bs[1] as int + FrameNotCountedBytes]
  {
    ParsedFields(bs);
    SerializedAs(Parse(bs).value, bs);
  }

  /** Changing any one byte after `frame_size` of a sent frame makes it unreadable. */
  lemma CorruptionDetected(f: Frame, i: nat, y: Byte)
    requires Valid(f) && 2 <= i < |Serialize(f)| && y != Serialize(f)[i]
    ensures !Parse(Serialize(f)[i := y]).Ok?
  {
    var bs := Serialize(f);
    SerializedLayout(f);
    var bs' := bs[i := y];
    if Parse(bs').Ok? {
      ParseOk(bs');
      assert bs'[1] == bs[1];
      CorruptedCheck(bs, i, y);
      assert false;
    }
  }

  /** Overwriting one byte of the checked range or its CRC byte breaks the CRC check. */
  lemma CorruptedCheck(bs: seq<Byte>, i: nat, y: Byte)
    requires |bs| >= 3 && 2 <= i < |bs| && y != bs[i]
    requires Crc8(bs[2..|bs| - 1]) == bs[|bs| - 1]
    ensures var bs' := bs[i := y]; Crc8(bs'[2..|bs| - 1]) != bs'[|bs| - 1]
  {
    var n := |bs|;
    var bs' := bs[i := y];
    var body := bs[2..n - 1];
    if i == n - 1 {
      assert bs'[2..n - 1] == body;
    } else {
      var k := i - 2;
      assert body == body[..k] + [body[k]] + body[k + 1..];
      assert bs'[2..n - 1] == body[..k] + [y] + body[k + 1..];
      DetectsSingleByteError(body[..k], body[k], y, body[k + 1..]);
    }
  }

  /** `frame_size` counts every byte after itself: the type, the extended addresses when
      present, the payload, and the CRC byte. */
  lemma FrameSizeCounts(f: Frame)
    ensures DeclaredSize(f) == |Checked(f)| + 1
  {
  }

  /** The largest payloads: 60 bytes behind a plain header, 58 behind an extended one,
      which is the size of an MSP response chunk; the largest frame is
      `CRSF_MAX_PACKET_LEN` bytes. */
  lemma Geometry(f: Frame)
    ensures FrameSizeMax == MaxPacketLen
    ensures ExtFrameSize(MspRespPayloadSize) == PayloadSizeMax && MspMaxPayloadSize == MspRespPayloadSize
    ensures Valid(f) ==> |f.payload| <= (if f.addressing.Some? then MspRespPayloadSize else PayloadSizeMax - 2)
    ensures (f.addressing.Some? <==> IsExtendedType(f.frameType)) ==>
              (Valid(f) <==> |f.payload| <= (if f.addressing.Some? then MspRespPayloadSize else PayloadSizeMax - 2))
  {
  }
}
