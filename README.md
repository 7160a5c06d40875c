# SPS30 SHDLC driver — Dafny model

This project models the core of a Go driver for the Sensirion SPS30
particulate-matter sensor, which talks to the host over SHDLC, Sensirion's
framing of HDLC on a UART. The model covers:

- the 8-bit frame checksum (`shdlcCRC`);
- byte stuffing and destuffing (`stuffData`, `unstuffByte`), whose escape is
  the control escape of section 4.2 of RFC 1662 over the reserved set 0x11,
  0x13, 0x7D and 0x7E;
- frame assembly in the 520-byte transmit array (`shdlcTx`) and frame
  parsing out of the 522-byte receive buffer (`shdlcRx`);
- one request/response exchange (`SHDLCTransmitReceive`);
- the four commands `Wakeup`, `StartMeasurement`, `ReadVersion` and
  `ReadMeasurement`, including the status-code table and the big-endian
  word assembly of the measured values.

Modules, one per file:

- `Wire` (`wire.dfy`) holds bytes, markers, buffer sizes, the error kinds and
  the transport's read outcome.
- `Checksum` (`checksum.dfy`) holds the checksum.
- `Stuffing` (`stuffing.dfy`) holds stuffing and destuffing.
- `FrameTx` (`tx.dfy`) holds the transmit side.
- `FrameRx` (`rx.dfy`) holds the receive side.
- `Sps30` (`commands.dfy`) holds the exchange and the commands.
- `Vectors` (`vectors.dfy`) states the repository's test vectors against the
  model.

The source changes state step by step, and the model does the same:

- The loops of `shdlcCRC`, `stuffData` and `shdlcRx` are `while`/`for` loops
  in methods.
- `stuffData` writes into an `array<byte>` of 520 bytes.
- `shdlcRx` fills the caller's `array<byte>`.
- `ReadVersion` and `ReadMeasurement` assign the fields of caller-owned
  objects (classes `VersionInfo` and `Measurement`).

Each method is proved against a specification function, and the
properties are proved as lemmas about those functions:

| Method | Specification function |
|---|---|
| `ShdlcCrc` | `Crc` |
| `StuffData` | `StuffedAsWritten` |
| `UnstuffByte` | `DestuffAt` |
| `ShdlcTx` | `TxFrame` |
| `ShdlcRx` | `Receive` |
| the command methods | `Exchange`, `Acknowledge`, `VersionResponse`, `MeasurementResponse` |

The source's stuffing loop does not do what the protocol asks. Go `switch`
cases do not fall through, so the cases for 0x11, 0x13 and 0x7D have empty
bodies and those bytes vanish from the output; only 0x7E is escaped.

- `StuffedAsWritten` models that loop as written, and the transmit side uses
  it, because that is what the driver sends.
- `Stuffed` is the protocol's encoding.
- `StuffedAsWrittenAgreesIffNoDropped` proves that the two agree exactly
  when no byte is 0x11, 0x13 or 0x7D.

Frames from the sensor are described with `Stuffed`. The checksum is
written raw on both sides (`sps30.go:203`, `sps30.go:248`), and the model
keeps it raw. The comments on the buffer sizes (`sps30.go:14-15`) count the
checksum among the stuffed bytes, so the source disagrees with itself here.

A "well-formed" response (`ResponseFrame`) is therefore the one the source's
decoder accepts: start marker, stuffed header and payload, the checksum as a
raw byte, stop marker. `EncodedResponseFrame` is the protocol's form, which
stuffs the checksum as well. The two differ only when the checksum is 0x11,
0x13, 0x7D or 0x7E, and the source's decoder refuses every such response
(`ReceiveRejectsStuffedChecksum`).

The transport is a parameter:

- `writeOk` says whether a write succeeded.
- `wakeOk` says whether the raw wake byte was written.
- A `ReadOutcome` is either a read error or the whole 522-byte receive
  buffer with the count the transport reported.
- Each command returns the bytes it hands to the transport (`sent`).

## Model

| member | source | states |
|---|---|---|
| Wire.AddBytes | sps30.go:193 | `uint8` addition wraps: the result is the sum mod 256 |
| Checksum.ShdlcCrc | sps30.go:305-314 | the loop returns `Crc`, and header sum + length + summed payload + checksum is 255 mod 256 (the checksum complements the wrapped sum) |
| Checksum.CrcIgnoresTrailingBytes | sps30.go:309-311 | payload bytes beyond the declared length never change the checksum |
| Checksum.CrcDetectsSingleByteError | sps30.go:305-314 | changing any one counted payload byte changes the checksum |
| Checksum.CrcDetectsHeaderError | sps30.go:305-314 | a different header sum gives a different checksum |
| Checksum.CrcBlindToLengthOverFF | sps30.go:305-314 | a length one too large is not detected when the extra byte it covers is 0xFF: the checksum of [x, 0xFF] is the same with length 1 and 2 |
| Stuffing.StuffedAsWritten | sps30.go:287-301 | the stuffing loop emits at most two bytes per input byte |
| Stuffing.StuffedAsWrittenAppend | sps30.go:287-301 | stuffing as written is byte by byte: stuffing a concatenation is the concatenation of the stuffings |
| Stuffing.StuffData | sps30.go:285-303 | the returned index advances by the length of the as-written stuffing, the array up to it is the old prefix followed by that stuffing, and nothing after it changes |
| Stuffing.StuffedAsWrittenAgreesIffNoDropped | sps30.go:288-299 | the source's stuffing equals the protocol's exactly when no byte is 0x11, 0x13 or 0x7D, and is strictly shorter when one is |
| Stuffing.StuffedLength | sps30_test.go:236 | the protocol's stuffing is between one and two times the input's length |
| Stuffing.StuffedLengthIffNoReserved | sps30_test.go:236 | the protocol's stuffing keeps the length exactly when no byte is reserved |
| Stuffing.StuffedHasNoMarker | sps30_test.go:236 | the protocol's stuffing never contains 0x7E |
| Stuffing.StuffedAppend | sps30_test.go:236 | the protocol's stuffing of a concatenation is the concatenation of the stuffings |
| Stuffing.Unescape | sps30.go:263-274 | the escape map changes a byte only to undo the XOR-0x20 escape of a reserved byte; any other byte passes through |
| Stuffing.DestuffAt | sps30.go:260-283 | one destuffing step consumes one or two bytes |
| Stuffing.UnstuffByte | sps30.go:260-283 | an escape byte consumes two bytes and maps 0x31, 0x33, 0x5D and 0x5E back to 0x11, 0x13, 0x7D and 0x7E while passing any other byte through unchanged; a plain byte consumes one byte and is returned unchanged |
| Stuffing.DestuffStuffedByte | sps30.go:260-283 | destuffing undoes the protocol's stuffing of any byte, consuming exactly its stuffed bytes |
| Stuffing.DestuffStuffedHead | sps30.go:260-283 | destuffing the start of a stuffed run returns its first byte and leaves the stuffed rest |
| Stuffing.UnescapeInvertsEscaped | sps30.go:262-274 | the escape map inverts the XOR-0x20 escape on every reserved byte |
| Stuffing.StuffedAsWrittenIsStuffedKept | sps30.go:288-299 | the source's stuffing is the protocol's stuffing of the bytes it keeps, and it keeps every byte exactly when none is 0x11, 0x13 or 0x7D |
| FrameTx.TxFrame | sps30.go:188-207 | a transmit frame starts and ends with 0x7E, its length is between 3 and 9 + 2 × length, and its second-last byte is the checksum of (addr + cmd, length, data) |
| FrameTx.TxFrameFits | sps30.go:190-207 | every frame the source can build is at most 519 bytes, inside the 520-byte array |
| FrameTx.ShdlcTx | sps30.go:188-215 | the bytes handed to the transport are `TxFrame`, and the error is set exactly when the write fails |
| FrameTx.TxFrameFieldByField | sps30.go:195-207 | stuffing addr, cmd and length one call at a time, then the payload, then appending checksum and stop marker gives the frame |
| FrameTx.TxChecksumCanMimicStopMarker | sps30.go:203-207 | the raw checksum can equal 0x7E: request (0, 0x81, no payload) is sent as 7E 00 81 00 7E 7E |
| FrameTx.EncodedFrameMarkersOnlyAtEnds | sps30.go:188-207 | in the intended frame (all inner bytes, checksum included, stuffed) 0x7E occurs only at both ends |
| FrameTx.TxFrameMatchesEncoded | sps30.go:188-207 | the source's frame equals the intended one whenever no header or payload byte is 0x11, 0x13 or 0x7D and the checksum is not reserved |
| FrameRx.PayloadLoop | sps30.go:240-245 | the payload loop stores at most max_data_len bytes and stops at most one past its limit |
| FrameRx.ParseFrame | sps30.go:233-245 | the four header destuffing calls and the payload loop store at most max_data_len bytes and stop inside the receive buffer, so the checksum byte is always readable |
| FrameRx.Receive | sps30.go:217-258 | parsing never touches the buffer beyond max_data_len; it reports a missing start marker exactly when the count is 0 or the first byte is not 0x7E, and then leaves the buffer as it was; success needs at least 7 bytes |
| FrameRx.ShdlcRx | sps30.go:217-258 | a failed read reports the read error and leaves the buffer alone; otherwise the verdict and the new buffer are those of `Receive` |
| FrameRx.DestuffPayload | sps30.go:240-245 | the loop fills the front of the caller's buffer with the destuffed payload of `PayloadLoop`, keeps the rest, and returns the index after it |
| FrameRx.ResponseFrame | sps30.go:15 | every response frame with a payload of up to 255 bytes fits the 522-byte receive buffer |
| FrameRx.PayloadLoopStuffed | sps30.go:240-245 | over a stuffed payload the loop recovers exactly that payload and stops right after it |
| FrameRx.DestuffHeader | sps30.go:233-238 | the four header destuffing calls recover addr, cmd, state and length and leave the stuffed payload |
| FrameRx.ReceiveResponse | sps30.go:247-257 | on a frame that starts with a well-formed stuffed header and payload, the byte after it decides: checksum mismatch, missing stop marker or success |
| FrameRx.ReceiveResponseFrame | sps30.go:217-258 | every well-formed response frame (checksum raw), followed by any bytes, is accepted with its header, and its payload lands in the front of the buffer, provided max_data_len equals the declared length or the read count ends right after the stop marker |
| FrameRx.PayloadLoopCopiesPlain | sps30.go:242-245 | over bytes without an escape the payload loop copies them verbatim, stop markers included, until max_data_len bytes are stored |
| FrameRx.DestuffStuffedAsWritten | sps30.go:287-299 | destuffing the source's own stuffing of a payload gives back the bytes it kept, which is the payload exactly when it holds none of 0x11, 0x13 and 0x7D |
| FrameRx.EncodedResponseFrame | sps30.go:15 | a response stuffed as the protocol intends, checksum included, fits the 522-byte buffer, and equals the raw-checksum frame whenever the checksum is not reserved |
| FrameRx.ReceiveRejectsStuffedChecksum | sps30.go:247-250 | a response whose checksum is reserved and sent stuffed is refused: 0x7D as a missing stop marker, 0x11, 0x13 and 0x7E as a checksum mismatch |
| FrameRx.ReceiveEncoded | sps30.go:217-258 | the decoder with the checksum destuffed leaves the buffer beyond max_data_len alone and reports a missing start marker exactly as the source does |
| FrameRx.ReceiveEncodedAccepts | sps30.go:247-257 | with the checksum destuffed, every response stuffed as the protocol intends is accepted with its header and payload, whatever its checksum |
| FrameRx.ReceiveOverlong | sps30.go:247 | a declared length beyond the caller's buffer makes the checksum read out of range |
| Sps30.Reason | sps30.go:25-32 | the `errorMap` lookup gives a non-empty reason exactly for the codes in the table, and the empty string otherwise |
| Sps30.ReasonKnownExactly | sps30.go:25-32 | a status code has a non-empty reason exactly when it is 1, 2, 3, 4, 40 or 67 |
| Sps30.TransmitReceive | sps30.go:172-186 | the request sent is `TxFrame` of the arguments, and verdict and buffer are a failed write, a failed read or `Receive` |
| Sps30.AcknowledgeIgnoresStatus | sps30.go:91 | an exchange without payload accepts every well-formed empty response, whatever its status byte |
| Sps30.AcknowledgeRejectsBadChecksum | sps30.go:248-250 | an exchange without payload reports a checksum mismatch when the byte after the header is not its checksum |
| Sps30.Wakeup | sps30.go:81-92 | the raw 0xFF is always sent first; if that write fails nothing else is sent, otherwise the wake-up request follows and the verdict is `Acknowledge` |
| Sps30.StartMeasurement | sps30.go:124-130 | the request is command 0x00 with argument bytes 01 03, and the verdict is `Acknowledge` |
| Sps30.DecodeVersion | sps30.go:114-118 | the version record taken from payload bytes 0, 1, 3, 5 and 6 rebuilds the first seven payload bytes when laid out again with bytes 2 and 4 |
| Sps30.DecodeVersionPayload | sps30.go:114-118 | the version fields are read back from payload bytes 0, 1, 3, 5 and 6, whatever bytes 2 and 4 hold |
| Sps30.DecodeVersionSkips | sps30.go:114-118 | two payloads decode to the same version exactly when they agree outside bytes 2 and 4 |
| Sps30.ReadResponse | sps30.go:100-112 | a read command succeeds exactly when the exchange succeeds with the expected declared length and status 0, and then yields the exchanged payload; an exchange error is passed on, a wrong length is reported before any status, and a non-zero status is reported with its reason |
| Sps30.ReadVersion | sps30.go:95-121 | the request is command 0xD1 with no payload; on success the object holds the decoded version; on failure it is unchanged and the error is that of `VersionResponse` |
| Sps30.ReadVersionAccepts | sps30.go:95-121 | every well-formed 7-byte response with status 0 is decoded |
| Sps30.ReadVersionChecksLengthFirst | sps30.go:106-108 | a well-formed response with a shorter declared length, read with a count ending right at its stop marker, is reported as a length error, whatever its status |
| Sps30.ReadVersionReportsStatus | sps30.go:110-112 | a non-zero status is reported with its code and reason |
| Sps30.ReadVersionOverlong | sps30.go:100 | a declared length above 7 makes the checksum read out of range |
| Sps30.BigEndianWord | sps30.go:166 | `binary.BigEndian.Uint32`: the first byte is the most significant byte of the word, the last byte the least significant |
| Sps30.BigEndianWordOfBytes | sps30.go:166 | reading back the four big-endian bytes of a word gives the word |
| Sps30.WordBytesOfBigEndian | sps30.go:166 | every four bytes are the big-endian bytes of the word they spell |
| Sps30.DecodeSample | sps30.go:151-160 | the i-th measured value, in payload order, is the big-endian word at offset 4 × i |
| Sps30.DecodeSamplePayload | sps30.go:151-160 | decoding the ten words at offsets 0, 4, …, 36 inverts laying out a sample |
| Sps30.StoreSample | sps30.go:151-160 | the ten fields of the record become the ten big-endian words of the payload |
| Sps30.ReadMeasurement | sps30.go:133-163 | the request is command 0x03 with no payload; on success the record holds the decoded sample; on failure it is unchanged and the error is that of `MeasurementResponse` |
| Sps30.ReadMeasurementDecodes | sps30.go:133-163 | every well-formed 40-byte response with status 0 yields the sample decoded from its payload |
| Sps30.ReadMeasurementAccepts | sps30.go:133-163 | a well-formed response carrying a sample's payload yields exactly that sample |
| Sps30.ReadMeasurementReportsStatus | sps30.go:147-149 | a non-zero status is reported with its code and reason |
| Vectors.CrcCommandVectors | sps30_test.go:209-211 | checksums FE, F9 and A9 for stop, start and fan-cleaning requests |
| Vectors.CrcTrailingBytesVector | sps30_test.go:212 | only the first declared payload byte counts: checksum 01 |
| Vectors.CrcWrapVector | sps30_test.go:213 | the header sum wraps before length and payload are added: checksum 07 |
| Vectors.TxStartMeasurementVector | sps30_test.go:153 | the start-measurement request is 7E 00 00 02 01 03 F9 7E |
| Vectors.TxWakeupVector | sps30.go:91 | the wake-up request goes out as 7E 00 00 EE 7E, without its command byte 0x11; stuffed as intended it would be 7E 00 7D 31 00 EE 7E |
| Vectors.TxNoPayloadVectors | sps30_test.go:154-157 | the stop, read, sleep and reset requests are sent unchanged with checksums FE, FC, EF and 2C |
| Vectors.StuffDataVectors | sps30_test.go:234-237 | the first, second and fourth stuffing vectors hold for the loop as written |
| Vectors.StuffDataReservedVector | sps30_test.go:236 | the protocol's stuffing of 7E 7D 11 13 is 7D 5E 7D 5D 7D 31 7D 33, the loop as written emits only 7D 5E |
| Vectors.UnstuffByteVectors | sps30_test.go:263-266 | the four destuffing vectors: 0x11 and 0x13 from escapes, plain 0x03 and 0xFF |
| Vectors.RxEmptyVector | sps30_test.go:181 | the empty response is accepted with header 00 00 00 00 |
| Vectors.RxStuffedVersionVector | sps30_test.go:182 | the version response with 7D 31 in its payload yields 02 11 00 07 00 02 00 |
| Vectors.RxStatusVector | sps30_test.go:183 | the status response yields five zero bytes |
| Vectors.RxStuffedChecksumVector | sps30.go:248 | a version response with checksum 0x11 sent as 7D 31 is refused by the source's decoder and accepted by the intended one |
| Vectors.ShortVersionReplyReadsPastStop | sps30.go:242 | a version response declaring no payload, in a full read padded with zeros, is refused as a checksum mismatch, not for its length |
| Vectors.WakeupVector | sps30_test.go:77 | wake-up accepts its test response although the status is 0x43 |
| Vectors.StartMeasurementVector | sps30_test.go:114 | start measurement accepts its test response although the status is 0x43 |
| Vectors.ReadVersionVector | sps30_test.go:95 | the version test response decodes to firmware 2.3, hardware 7, SHDLC 2.0 |
| Vectors.MeasurementChecksum | sps30_test.go:132 | the measurement test payload carries checksum 5A |
| Vectors.MeasurementWords | sps30_test.go:132 | the measurement test payload decodes to its ten big-endian words |

## Left out

- Serial I/O (`serial.Port`, `New`, `Device`): the outcome of each write and read is a parameter (`wakeOk`, `writeOk`, `ReadOutcome`), and the bytes written are returned.
- Floating point: `math.Float32frombits` is not modelled, so each `Measurement` field holds the raw 32-bit big-endian word.
- Error message wording: errors are distinct kinds, and only the status-code table keeps its text.
- `example/example.go` and the test harness are not part of this model. The harness's fake transport reports the whole 522-byte buffer as read, and the vectors use it only for that.
- The Go bitwise complement `^` on `uint8` is written as 255 − b; the identity is not proved as a lemma over bit-vectors.
- Stuffing.UnstuffByte: requires that an escape byte is not the last byte of the buffer, where the source's `unstuffByte` would index past it and panic. Every call from `shdlcRx` meets this: the header reads stay within the first nine bytes, and the payload loop reads only below the read count minus two, inside the 522-byte buffer.
- FrameRx.ShdlcRx: requires the caller's buffer to hold max_data_len bytes. Every caller in the source passes a buffer of exactly that length; with a shorter one the source's payload loop can index past the slice and panic.
- FrameRx.ShdlcRx: the header fields are collected in locals and returned on success. The source writes them through the caller's pointer even on failure, which no caller observes.
- FrameRx.Receive: a declared length beyond the caller's buffer is a Go runtime panic in `shdlcCRC` (index out of range), which aborts the program; the model returns it as the error `IndexOutOfRange`.
- Sps30.ReadVersionChecksLengthFirst: holds only when the read count ends right at the stop marker. The payload loop (`sps30.go:242`) stops at max_data_len stored bytes, not at the declared length, so with a longer count it reads through the stop marker and takes a later byte for the checksum; a short response then fails as a checksum mismatch (`ShortVersionReplyReadsPastStop`).
- Vectors.MeasurementChecksum: the read-measurement test (sps30_test.go:132) is checked on its payload, checksum and decoding, but not end to end through the 48-byte stuffed frame.

## Findings

| source | as written | input that shows it | evidently intended | confidence | as-written member | corrected member |
|---|---|---|---|---|---|---|
| sps30.go:289-291 | the cases for 0x11, 0x13 and 0x7D have empty bodies, so those bytes are dropped from the transmitted frame | the wake-up request (command 0x11) goes out as 7E 00 00 EE 7E, without its command byte (`Vectors.TxWakeupVector`); data 7E 7D 11 13 is stuffed as 7D 5E (sps30_test.go:236 expects 7D 5E 7D 5D 7D 31 7D 33) | every reserved byte sent as 0x7D followed by the byte XOR 0x20 | high, not executed | Vectors.StuffDataReservedVector | Stuffing.DestuffStuffedByte |
| sps30.go:203 | the checksum byte is written without stuffing, so it can equal the 0x7E marker inside the frame; the size comment at sps30.go:14 counts it among the stuffed bytes | request with address 0, command 0x81 and no payload: 7E 00 81 00 7E 7E | the checksum stuffed like every byte between the markers | medium, not executed | FrameTx.TxChecksumCanMimicStopMarker | FrameTx.EncodedFrameMarkersOnlyAtEnds |
| sps30.go:248 | the byte after the payload is compared raw with the checksum, so a checksum stuffed as the protocol asks (sps30.go:15 counts it among the stuffed bytes) is never matched | a version response with checksum 0x11 sent as 7E 00 D1 00 07 02 0B 00 07 00 02 00 7D 31 7E is refused as a checksum mismatch | the checksum destuffed before it is compared | medium, not executed | FrameRx.ReceiveRejectsStuffedChecksum | FrameRx.ReceiveEncodedAccepts |
