# CRSF wire format: a verified Dafny model of `CRSF.h`

This project models the protocol core of the ESP32 CRSF packet generator's `CRSF.h`.
CRSF is the Crossfire serial protocol between a radio link and a flight controller.
The model covers:

- **CRC** (`crc.dfy`, module `Crc`): the 256-entry `crc8tab` for polynomial 0xD5 and `CalcCRC`.
  `CalcCRC` is an imperative method with a loop over an `array<Byte>`.
  It is proved equal to an independent bitwise, MSB-first CRC-8 (`Crc.Crc8`).
- **RC channels** (`channels.dfy`, module `Channels`): the packed `crsf_channels_s` struct.
  It holds sixteen 11-bit bit-fields in 22 bytes, allocated least significant bit first.
  Fields are read and written bit by bit over a little-endian bit stream.
  The stream is defined in `bits.dfy` (module `Bits`) and `bytes.dfy` (module `Bytes`).
- **Link statistics** (`link_statistics.dfy`, module `LinkStatistics`): the 10-byte `crsfPayloadLinkstatistics_s`.
  Its two SNR fields are two's-complement `int8_t`.
- **Frame geometry** (`frame.dfy`, module `Frame`): the size macros, the frame-type and address enumerations, and the plain and extended headers.
  A frame is modelled with its serialization (`Frame.Serialize`) and a checking reader (`Frame.Parse`).
  The header states that `frame_size` counts the bytes after it (type, payload and CRC).
  It does not say which bytes the CRC covers: the model takes the bytes after `frame_size` up to the CRC byte (type, extended addresses, payload).
- **Conversions** (`conversions.dfy`, module `Conversions`): the integer `fmap` and the conversions built on it.
  These are `CRSF_to_US`, `UINT10_to_CRSF` and `CRSF_to_UINT10`, plus `CRSF_to_BIT` and `BIT_to_CRSF`.
  `fmap` takes `uint16_t` arguments and computes in C `int`: promoted operands, division truncating toward zero, and narrowing to `uint16_t` on return.
  All of this is written out (`Conversions.CDiv`, `CTypes.NarrowToUint16`).
- **Big-endian decoding** (`endian.dfy`, module `Endian`): the `CRSF_DEC_*` macros.
  `__builtin_bswap16/32` are modelled on a little-endian host.
- **A worked example** (`mid_stick.dfy`, module `MidStick`): all sixteen channels at 992, packed, framed and checked.

`ctypes.dfy` (module `CTypes`) holds the C fixed-width types.

Packing sixteen channels at 992 into the `crsf_channels_s` struct gives `E0 03 1F F8 C0 07 3E F0 81 0F 7C`, twice (`MidStick.PackMidStick`).
The RC-channels frame carrying that payload has the CRC byte 0xAD (`MidStick.MidStickFrameCrc`).

## Model

| member | source | states |
|---|---|---|
| Crc.TableIsBitwise | CRSF_testcode/CRSF.h:51-68 | every `crc8tab` entry is the bitwise MSB-first CRC-8 (polynomial 0xD5) of its index; the table has 256 entries |
| Crc.TableInjective | CRSF_testcode/CRSF.h:52-68 | distinct indices give distinct table entries |
| Crc.Update | CRSF_testcode/CRSF.h:240 | one step `crc = crc8tab[crc ^ byte]` is the byte entered into the register and shifted through it eight times with polynomial 0xD5 |
| Crc.Fold | CRSF_testcode/CRSF.h:237-242 | the table-driven loop computes the bitwise CRC-8 of the bytes, from any register value |
| Crc.CalcCRC | CRSF_testcode/CRSF.h:235-243 | `CalcCRC(data, length)` returns the CRC-8 of the `length` bytes at `data`; seed 0, so a length of 0 or less gives 0; the `uint8_t` counter requires `length <= 255` |
| Crc.Compositional | CRSF_testcode/CRSF.h:237-242 | the CRC of `a + b` is the table loop over `b` started from the CRC of `a` |
| Crc.FoldAppend | CRSF_testcode/CRSF.h:237-242 | the loop over a concatenation continues from the loop over its first part |
| Crc.BitwiseFoldAppend | CRSF_testcode/CRSF.h:237-242 | the bitwise CRC over a concatenation continues from the register after the first part |
| Crc.CheckByte | CRSF_testcode/CRSF.h:235-243 | a range followed by byte `c` has CRC 0 if and only if `c` is the CRC of the range |
| Crc.CrcOfZeros | CRSF_testcode/CRSF.h:237-242 | a run of zero bytes of any length has CRC 0 (the seed) |
| Crc.DetectsSingleByteError | CRSF_testcode/CRSF.h:235-243 | changing any single byte of a range, anywhere, changes its CRC |
| Crc.BitwiseFoldInjective | CRSF_testcode/CRSF.h:237-242 | two different register values stay different over any further bytes |
| Channels.ReadChannel | CRSF_testcode/CRSF.h:149-167 | reading field `ch<i>` of the 22-byte struct gives a value below 2048 |
| Channels.ChannelBitLayout | CRSF_testcode/CRSF.h:149-167 | bit `k` of `ch<i>` is bit `(11i+k) % 8` of byte `(11i+k) / 8`: fields are packed LSB first with no gaps |
| Channels.ReadChannelBits | CRSF_testcode/CRSF.h:149-167 | `ch<i>` is the sum over `k < 11` of `2^k` times bit `11i+k` of the buffer's bit stream |
| Channels.ReadAfterWrite | CRSF_testcode/CRSF.h:149-167 | storing `v` into `ch<i>` reads back as `v mod 2048` and leaves every other field unchanged |
| Channels.WriteChannel | CRSF_testcode/CRSF.h:149-167 | a store into `ch<i>` keeps the struct at 22 bytes and replaces exactly the 11 bits of field `i` in its bit stream by the low 11 bits of the value |
| Channels.Pack | CRSF_testcode/CRSF.h:29 | a packed channel set is `RCframeLength` = 22 bytes |
| Channels.Unpack | CRSF_testcode/CRSF.h:149-167 | the struct as its sixteen fields: entry `i` is `ch<i>` read in place |
| Channels.UnpackPack | CRSF_testcode/CRSF.h:149-167 | unpacking a packed channel set gives every channel back truncated to its low 11 bits |
| Channels.UnpackPackInRange | CRSF_testcode/CRSF.h:149-167 | channel values below 2048 survive packing and unpacking unchanged |
| Channels.PackUnpack | CRSF_testcode/CRSF.h:149-167 | every 22-byte buffer is the packing of its own sixteen fields (the struct has no padding bits) |
| LinkStatistics.Int8OfByte | CRSF_testcode/CRSF.h:193 | a byte read as `int8_t` is its value or its value minus 256 |
| LinkStatistics.ByteOfInt8 | CRSF_testcode/CRSF.h:193 | the two's-complement byte of an `int8_t` reads back as that value |
| LinkStatistics.ByteOfInt8OfByte | CRSF_testcode/CRSF.h:199 | every byte is the two's-complement representation of the `int8_t` it reads as |
| LinkStatistics.Parse | CRSF_testcode/CRSF.h:188-200 | reading the struct takes the SNR fields from offsets 3 and 9 as `int8_t` |
| LinkStatistics.Serialize | CRSF_testcode/CRSF.h:188-200 | the struct is `LinkStatisticsFrameLength` = 10 bytes and reads back as itself |
| LinkStatistics.SerializeParse | CRSF_testcode/CRSF.h:188-200 | every 10-byte payload is the serialization of the struct read from it |
| LinkStatistics.FieldOffsets | CRSF_testcode/CRSF.h:171-200 | each field sits at its declaration-order offset 0..9; SNR fields as two's-complement bytes |
| Frame.FrameSize | CRSF_testcode/CRSF.h:34 | `CRSF_FRAME_SIZE` fits `CRSF_PAYLOAD_SIZE_MAX` exactly when the payload is at most 60 bytes |
| Frame.ExtFrameSize | CRSF_testcode/CRSF.h:35 | `CRSF_EXT_FRAME_SIZE` counts the two extended addresses like payload bytes, and fits `CRSF_PAYLOAD_SIZE_MAX` exactly when the payload is at most an MSP response chunk (58 bytes) |
| Frame.FrameSizeCounts | CRSF_testcode/CRSF.h:133 | `frame_size` counts the type, the extended addresses, the payload and the CRC byte |
| Frame.IsExtendedType | CRSF_testcode/CRSF.h:78 | the device, parameter, command and MSP frame types use the extended header; the GPS, battery, link-statistics, RC, attitude and flight-mode types do not |
| Frame.HeaderBytes | CRSF_testcode/CRSF.h:130-135 | the packed `crsf_header_t` is 3 bytes and reads back as itself |
| Frame.ExtHeaderBytes | CRSF_testcode/CRSF.h:137-147 | the packed `crsf_ext_header_t` is 5 bytes, reads back as itself, and begins with the plain header |
| Frame.HeadersAgree | CRSF_testcode/CRSF.h:137-147 | both header structs read the same address, size and type from a buffer |
| Frame.Serialize | CRSF_testcode/CRSF.h:32-36 | a sent frame is `frame_size + 2` bytes, at most `CRSF_FRAME_SIZE_MAX`; byte 1 holds `CRSF_FRAME_SIZE`/`CRSF_EXT_FRAME_SIZE` of the payload; CRC over the bytes after `frame_size` is 0 |
| Frame.SerializedHeader | CRSF_testcode/CRSF.h:130-147 | the header structs read from a sent frame give its address, size, type and, for extended types, its destination and origin |
| Frame.SerializedLayout | CRSF_testcode/CRSF.h:133 | where address, size, type, extended addresses, payload and CRC lie in a sent frame |
| Frame.Parse | CRSF_testcode/CRSF.h:32-36 | a frame read successfully is sendable (header kind matches type 0x28..0x96, size within bounds) and lies within the buffer |
| Frame.ParseSerialize | CRSF_testcode/CRSF.h:130-147 | a sent frame reads back as the same frame, whatever follows it in the buffer |
| Frame.ParseOk | CRSF_testcode/CRSF.h:32-36 | a successful read has checked the size bounds, the length and the CRC byte |
| Frame.ParsedFields | CRSF_testcode/CRSF.h:133 | a frame read from a buffer declares the size it was read with and covers exactly the CRC-checked bytes |
| Frame.SerializeParse | CRSF_testcode/CRSF.h:130-147 | a frame read from a buffer serializes back to exactly the bytes it was read from |
| Frame.CorruptionDetected | CRSF_testcode/CRSF.h:133 | changing any one byte after `frame_size` of a sent frame makes it fail to read |
| Frame.CorruptedCheck | CRSF_testcode/CRSF.h:133 | overwriting any one checked byte or the CRC byte breaks the CRC check |
| Frame.Geometry | CRSF_testcode/CRSF.h:25-49 | `CRSF_FRAME_SIZE_MAX` is `CRSF_MAX_PACKET_LEN` (64); a frame whose header kind matches its type is sendable if and only if its payload is at most 60 bytes (plain header) or 58 (extended, an MSP response chunk) |
| CTypes.NarrowToUint16 | CRSF_testcode/CRSF.h:207 | the conversion of an `int` to `uint16_t`: the unique 16-bit value congruent to the input modulo 65536 (unchanged in range, plus 65536 when slightly negative) |
| Conversions.CDiv | CRSF_testcode/CRSF.h:207 | C's `/`, truncating toward zero: the remainder is smaller in magnitude than the divisor and is zero or has the dividend's sign; floor division for non-negative operands |
| Conversions.Fmap | CRSF_testcode/CRSF.h:207 | on its input range with an increasing output range, `fmap` lands in the output range and is the linear interpolation rounded down |
| Conversions.FmapMonotone | CRSF_testcode/CRSF.h:207 | `fmap` is monotone over its input range, and its intermediate `int` values do not overflow |
| Conversions.CrsfToUs | CRSF_testcode/CRSF.h:209 | channel values 172..1811 map into 988..2012 µs |
| Conversions.CrsfToUsMonotone | CRSF_testcode/CRSF.h:209 | pulse widths keep the order of the channel values |
| Conversions.CrsfToUsExamples | CRSF_testcode/CRSF.h:209 | 172 → 988, 992 → 1500, 1811 → 2012 |
| Conversions.Uint10ToCrsf | CRSF_testcode/CRSF.h:210 | values 0..1024 map into the channel range 172..1811 |
| Conversions.Uint10ToCrsfMonotone | CRSF_testcode/CRSF.h:210 | `UINT10_to_CRSF` keeps the order of its inputs |
| Conversions.Uint10ToCrsfExamples | CRSF_testcode/CRSF.h:210 | 0 → 172, 1024 → 1811 |
| Conversions.CrsfToUint10AsWritten | CRSF_testcode/CRSF.h:229 | `CRSF_to_UINT10` as written: channel values 172..1811 map into 0..1023 |
| Conversions.CrsfToUint10Wraps | CRSF_testcode/CRSF.h:229 | as written, channel value 170 gives 65535; the corrected function gives 0 |
| Conversions.CrsfToUint10 | CRSF_testcode/CRSF.h:229 | corrected `CRSF_to_UINT10`: always in 0..1023, equal to the original on the channel range, 0 at or below 172, 1023 at or above 1811 |
| Conversions.CrsfToUint10Monotone | CRSF_testcode/CRSF.h:229 | the corrected `CRSF_to_UINT10` keeps the order of all its inputs |
| Conversions.CrsfToUint10Examples | CRSF_testcode/CRSF.h:229 | 172 → 0, 1811 → 1023 |
| Conversions.Uint10RoundTrip | CRSF_testcode/CRSF.h:210 | a 10-bit value sent through `UINT10_to_CRSF` and read back with `CRSF_to_UINT10` loses at most 2 and never gains |
| Conversions.CrsfToBit | CRSF_testcode/CRSF.h:214-220 | `CRSF_to_BIT` is 0 or 1, and 1 if and only if the value is above 1000 |
| Conversions.BitToCrsf | CRSF_testcode/CRSF.h:221-227 | `BIT_to_CRSF` lies in the channel range and `CRSF_to_BIT` of it is 1 exactly when the bit is non-zero |
| Endian.Bswap16 | CRSF_testcode/CRSF.h:39 | `__builtin_bswap16` exchanges the two bytes |
| Endian.Bswap32 | CRSF_testcode/CRSF.h:42 | `__builtin_bswap32` reverses the four bytes |
| Endian.DecU16 | CRSF_testcode/CRSF.h:39 | `CRSF_DEC_U16` reads the two bytes of `x` as they lie in memory, most significant first |
| Endian.DecI16 | CRSF_testcode/CRSF.h:40 | `CRSF_DEC_I16` reads the same bytes as a two's-complement value |
| Endian.DecU32 | CRSF_testcode/CRSF.h:42 | `CRSF_DEC_U32` reads the four bytes of `x` as they lie in memory, most significant first |
| Endian.DecI32 | CRSF_testcode/CRSF.h:43 | `CRSF_DEC_I32` reads the same bytes as a two's-complement value |
| Endian.ShiftLeft8 | CRSF_testcode/CRSF.h:41 | `(uint32_t)x << 8` moves every byte up one place, drops the top one and puts 0 at the bottom |
| Endian.DecU24 | CRSF_testcode/CRSF.h:41 | `CRSF_DEC_U24` reads the three low bytes of `x` as they lie in memory, most significant first; the fourth does not matter |
| Endian.Bswap16Involution | CRSF_testcode/CRSF.h:39 | swapping twice gives the value back |
| Endian.Bswap32Involution | CRSF_testcode/CRSF.h:42 | swapping twice gives the value back |
| Endian.DecodeBigEndian16 | CRSF_testcode/CRSF.h:39-40 | `CRSF_DEC_U16`/`CRSF_DEC_I16` of a loaded big-endian field give its unsigned and two's-complement value |
| Endian.DecodeBigEndian32 | CRSF_testcode/CRSF.h:42-43 | `CRSF_DEC_U32`/`CRSF_DEC_I32` of a loaded big-endian field give its unsigned and two's-complement value |
| Endian.DecodeBigEndian24 | CRSF_testcode/CRSF.h:41 | `CRSF_DEC_U24` of four loaded bytes is the big-endian value of the first three |
| Endian.DecU24Bound | CRSF_testcode/CRSF.h:41 | `CRSF_DEC_U24` never exceeds 24 bits |
| MidStick.MidStickChannels | CRSF_testcode/CRSF.h:149-167 | every field of the mid-stick payload reads 992 |
| MidStick.PackMidStick | CRSF_testcode/CRSF.h:149-167 | packing sixteen channels at 992 gives `E0 03 1F F8 C0 07 3E F0 81 0F 7C` twice |
| MidStick.MidStickFrameCrc | CRSF_testcode/CRSF.h:235-243 | the CRC of type 0x16 followed by the mid-stick payload is 0xAD |
| MidStick.MidStickFrame | CRSF_testcode/CRSF.h:130-135 | the mid-stick RC-channels frame to the flight controller is `C8 18 16`, the payload, `AD`; it reads back as itself |

## Left out

- UART set-up and the baud-rate constants (`CRSF_RX_BAUDRATE` and the others, and the serial members of class `CRSF`): hardware I/O with no protocol logic of its own.
- The serial ISR, `ProcessPacket`, `GetSYNC`, `GetChannelDataIn`, `sendRCFrameToFC` and the `sendLinkStatistics*` senders: they drive the UART and share buffers with an interrupt. The frame and payload formats they produce are modelled by `Frame`, `Channels` and `LinkStatistics`.
- The static state and callbacks of class `CRSF`: the channel arrays `ChannelDataIn`, `ChannelDataInPrev` and `ChannelDataOut`, the flags `firstboot`, `CRSFstate` and `CRSFstatePrev`, `ParameterUpdateData`, the pin numbers, the serial buffers and their counters, and the callback hooks. They are only declared in the header; the code that updates them is in source files outside this model.
- `SWITCH3b_to_CRSF`: it calls the Arduino `map` function, which is not part of this model.
- The commented-out floating-point `fmap`: it is not compiled.
- `crsf_value_type_e`: an enumeration the header declares but no modelled operation uses.
- Crc.CalcCRC: the `volatile uint8_t *` overload has the same body as the plain one and is modelled once. A `length` above 255 never ends the loop, because the `uint8_t` counter wraps; the model requires `length <= 255` instead of modelling a loop that does not terminate.
- Crc.CalcCRC: the address `data` is modelled as an array with an offset; the array is only read.
- Endian.DecU24: the macro `CRSF_DEC_U24(x)` casts `x` without parentheses. The model takes an already evaluated `uint32_t` argument, so the precedence of a compound argument is not modelled.
- Endian.Bswap16: byte order is modelled for a little-endian host only; the macros assume one.
- Conversions.Fmap: the `round()` around each caller receives an integer and returns it unchanged, so it is not modelled separately. `Fmap` requires the intermediate products not to overflow `int` and a non-empty input range; every `uint16_t` argument of the three callers meets both.
- Frame.Checked: the range the CRC covers (the bytes after `frame_size` up to the CRC byte) is the model's choice; the header does not state it.
- Frame.Parse: the header declares frames but reads none. The reader is a model of the checks its layout implies (size bounds, length, extended-header room, CRC). The header does not say what to do with an unknown sync or address byte, so the reader does not check them.

## Findings

| source | as written | input that shows it | evidently intended | confidence | as-written member | corrected member |
|---|---|---|---|---|---|---|
| CRSF_testcode/CRSF.h:229 | `CRSF_to_UINT10` calls `fmap(Val, 172, 1811, 0, 1023)`. In C `int`, `(Val - 172) * 1023 / 1639` is negative for `Val` at or below 170. Narrowing to `uint16_t` wraps it to 65535 | `CRSF_to_UINT10(170)` is 65535 | a value in 0..1023: 0 for any channel value at or below the minimum | not executed | Conversions.CrsfToUint10Wraps | Conversions.CrsfToUint10 |
