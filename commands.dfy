/**
 * The sensor commands (sps30.go, Wakeup, ReadVersion, StartMeasurement,
 * ReadMeasurement and SHDLCTransmitReceive): each sends one request frame and
 * parses one response; the two read commands then check the declared length
 * and the status byte and copy fields out of the payload.
 */
module Sps30 {
  import opened Wire
  import opened Checksum
  import opened FrameTx
  import opened FrameRx

  const PeripheralAddr: byte := 0
  const CmdReadVersion: byte := 0xD1
  const CmdStartMeasurement: byte := 0x00
  const CmdReadMeasurement: byte := 0x03
  const CmdWakeUp: byte := 0x11

  /** The raw byte written before the wake-up frame. */
  const WakeByte: byte := 0xFF

  /** The payload lengths the two read commands expect. */
  const VersionLength: byte := 7
  const MeasurementLength: byte := 40

  /** The sub-command of the start-measurement request: measure, big-endian float output. */
  const StartMeasurementArgs: seq<byte> := [0x01, 0x03]

  // ---------------------------------------------------------------------------
  // Status codes
  // ---------------------------------------------------------------------------

  /** The status codes the driver knows a reason for. */
  const ErrorReasons: map<byte, string> := map[
    1 := "Wrong data length for this command (too much or little data)",
    2 := "Unknown command",
    3 := "No access right for command",
    4 := "Illegal command parameter or parameter out of allowed range",
    40 := "Internal function argument out of range",
    67 := "Command not allowed in current state"
  ]

  /** The reason reported for a status code: a Go map lookup, so unknown codes give the empty string. */
  function Reason(state: byte): (r: string)
    ensures r != "" <==> state in ErrorReasons
  {
    if state in ErrorReasons then ErrorReasons[state] else ""
  }

  /** A status code has a non-empty reason exactly when it is one of the six known codes. */
  lemma ReasonKnownExactly(state: byte)
    ensures Reason(state) != "" <==> state == 1 || state == 2 || state == 3 || state == 4 || state == 40 || state == 67
  {
    if state in ErrorReasons {
      assert state == 1 || state == 2 || state == 3 || state == 4 || state == 40 || state == 67;
    }
  }

  // ---------------------------------------------------------------------------
  // One exchange
  // ---------------------------------------------------------------------------

  /**
   * SHDLCTransmitReceive after the request frame was handed to the transport:
   * a refused write ends the exchange before any read, otherwise the response
   * is parsed into the caller's buffer.
   */
  function Exchange(maxRxDataLen: byte, buffer: seq<byte>, writeOk: bool, reply: ReadOutcome): (o: Reception)
    requires WellFormedRead(reply) && maxRxDataLen <= |buffer|
    ensures |o.data| == |buffer|
  {
    if !writeOk then Reception(Failure(TransmitFailed), buffer)
    else if reply.ReadError? then Reception(Failure(ReadFailed), buffer)
    else Receive(reply.buffer, reply.count, maxRxDataLen, buffer)
  }

  /** The error of a result, if any. */
  function ErrorOf(r: Result<RxHeader, Error>): Option<Error>
  {
    if r.Failure? then Some(r.error) else None
  }

  /**
   * SHDLCTransmitReceive: transmits the request frame, then, unless the write
   * failed, receives the response into the caller's buffer.
   */
  method TransmitReceive(addr: byte, cmd: byte, txDataLen: byte, txData: seq<byte>, maxRxDataLen: byte,
                         data: array<byte>, writeOk: bool, reply: ReadOutcome)
    returns (sent: seq<byte>, result: Result<RxHeader, Error>)
    requires txDataLen <= |txData| && WellFormedRead(reply) && maxRxDataLen <= data.Length
    modifies data
    ensures sent == TxFrame(addr, cmd, txDataLen, txData)
    ensures Reception(result, data[..]) == Exchange(maxRxDataLen, old(data[..]), writeOk, reply)
  {
    var err;
    sent, err := ShdlcTx(addr, cmd, txDataLen, txData, writeOk);
    if err != None {
      return sent, Failure(err.value);
    }
    result := ShdlcRx(maxRxDataLen, data, reply);
  }

  /**
   * The verdict of an exchange that expects no payload and does not look at
   * the status byte (wake-up and start measurement).
   */
  function Acknowledge(writeOk: bool, reply: ReadOutcome): Option<Error>
    requires WellFormedRead(reply)
  {
    ErrorOf(Exchange(0, [], writeOk, reply).result)
  }

  /**
   * An exchange without payload accepts every well-formed empty response,
   * whatever its address, command and status byte.
   */
  lemma AcknowledgeIgnoresStatus(rx: seq<byte>, frameLen: int, h: RxHeader)
    requires h.dataLen == 0
    requires |rx| == MaxRxFrameSize && |ResponseFrame(h, [])| <= frameLen <= |rx|
    requires rx[..|ResponseFrame(h, [])|] == ResponseFrame(h, [])
    ensures Acknowledge(true, Read(rx, frameLen)) == None
  {
    ReceiveResponseFrame(rx, frameLen, 0, [], h, []);
  }

  /** An exchange without payload fails on a corrupted checksum byte. */
  lemma AcknowledgeRejectsBadChecksum(rx: seq<byte>, frameLen: int, h: RxHeader)
    requires h.dataLen == 0
    requires |rx| == MaxRxFrameSize && |ResponseFrame(h, [])| <= frameLen <= |rx|
    requires rx[..|ResponsePrefix(h, [])|] == ResponsePrefix(h, [])
    requires rx[|ResponsePrefix(h, [])|] != ResponseCrc(h, [])
    ensures Acknowledge(true, Read(rx, frameLen)) == Some(ChecksumMismatch)
  {
    ReceiveResponse(rx, frameLen, 0, [], h, []);
  }

  // ---------------------------------------------------------------------------
  // Wakeup and StartMeasurement
  // ---------------------------------------------------------------------------

  /**
   * Wakeup: writes the raw wake byte, then, if that write succeeded, sends the
   * wake-up command and waits for its (empty) response. The status byte of
   * the response is never inspected.
   */
  method Wakeup(wakeOk: bool, writeOk: bool, reply: ReadOutcome) returns (sent: seq<byte>, err: Option<Error>)
    requires WellFormedRead(reply)
    ensures !wakeOk ==> sent == [WakeByte] && err == Some(WakeupFailed)
    ensures wakeOk ==>
      sent == [WakeByte] + TxFrame(PeripheralAddr, CmdWakeUp, 0, []) && err == Acknowledge(writeOk, reply)
  {
    sent := [WakeByte];
    if !wakeOk {
      return sent, Some(WakeupFailed);
    }
    var data := new byte[0];
    var frame, result := TransmitReceive(PeripheralAddr, CmdWakeUp, 0, [], 0, data, writeOk, reply);
    sent := sent + frame;
    err := ErrorOf(result);
  }

  /** StartMeasurement: sends the start command with its two argument bytes; the status byte is never inspected. */
  method StartMeasurement(writeOk: bool, reply: ReadOutcome) returns (sent: seq<byte>, err: Option<Error>)
    requires WellFormedRead(reply)
    ensures sent == TxFrame(PeripheralAddr, CmdStartMeasurement, 2, StartMeasurementArgs)
    ensures err == Acknowledge(writeOk, reply)
  {
    var data := new byte[0];
    var result;
    sent, result := TransmitReceive(PeripheralAddr, CmdStartMeasurement, 2, StartMeasurementArgs, 0, data, writeOk, reply);
    err := ErrorOf(result);
  }

  // ---------------------------------------------------------------------------
  // ReadVersion
  // ---------------------------------------------------------------------------

  /** Firmware, hardware and protocol versions as the sensor reports them. */
  datatype Version = Version(firmwareMajor: byte, firmwareMinor: byte, hardwareRevision: byte,
                             shdlcMajor: byte, shdlcMinor: byte)

  /** The caller's version record, filled in place by ReadVersion. */
  class VersionInfo {
    var firmwareMajor: byte
    var firmwareMinor: byte
    var hardwareRevision: byte
    var shdlcMajor: byte
    var shdlcMinor: byte

    function Fields(): Version
      reads this
    {
      Version(firmwareMajor, firmwareMinor, hardwareRevision, shdlcMajor, shdlcMinor)
    }
  }

  /** The version fields of a version payload: bytes 0, 1, 3, 5 and 6; bytes 2 and 4 are skipped. */
  function DecodeVersion(p: seq<byte>): (v: Version)
    requires |p| >= VersionLength
    ensures VersionPayload(v, p[2], p[4]) == p[..VersionLength]
  {
    Version(p[0], p[1], p[3], p[5], p[6])
  }

  /** A payload laying out a version record, with the two skipped bytes given. */
  function VersionPayload(v: Version, skipped2: byte, skipped4: byte): (p: seq<byte>)
    ensures |p| == VersionLength
  {
    [v.firmwareMajor, v.firmwareMinor, skipped2, v.hardwareRevision, skipped4, v.shdlcMajor, v.shdlcMinor]
  }

  /** Decoding a laid-out version record gives it back, whatever the skipped bytes hold. */
  lemma DecodeVersionPayload(v: Version, skipped2: byte, skipped4: byte)
    ensures DecodeVersion(VersionPayload(v, skipped2, skipped4)) == v
  {
  }

  /** Two version payloads decode alike exactly when they agree outside the skipped bytes 2 and 4. */
  lemma DecodeVersionSkips(p: seq<byte>, q: seq<byte>)
    requires |p| == VersionLength && |q| == VersionLength
    ensures DecodeVersion(p) == DecodeVersion(q) <==> forall i :: 0 <= i < VersionLength && i != 2 && i != 4 ==> p[i] == q[i]
  {
    if DecodeVersion(p) == DecodeVersion(q) {
      forall i | 0 <= i < VersionLength && i != 2 && i != 4 ensures p[i] == q[i] {
        assert i == 0 || i == 1 || i == 3 || i == 5 || i == 6;
      }
    }
  }

  /**
   * What the two read commands make of a response: a failed exchange, then a
   * declared length other than the expected one, then a non-zero status (with
   * its reason); only a response passing all three yields the payload, read
   * into a zeroed buffer of the expected length.
   */
  function ReadResponse(expected: byte, writeOk: bool, reply: ReadOutcome): (r: Result<seq<byte>, Error>)
    requires WellFormedRead(reply)
    ensures r.Success? ==> |r.value| == expected
    ensures var o := Exchange(expected, seq(expected, _ => 0), writeOk, reply);
      (r.Success? <==> o.result.Success? && o.result.value.dataLen == expected && o.result.value.state == 0)
      && (r.Success? ==> r.value == o.data)
      && (o.result.Failure? ==> r == Failure(o.result.error))
      && (o.result.Success? && o.result.value.dataLen != expected ==> r == Failure(UnexpectedResponseLength))
      && (o.result.Success? && o.result.value.dataLen == expected && o.result.value.state != 0 ==>
            r == Failure(DeviceError(o.result.value.state, Reason(o.result.value.state))))
  {
    var o := Exchange(expected, seq(expected, _ => 0), writeOk, reply);
    if o.result.Failure? then Failure(o.result.error)
    else if o.result.value.dataLen != expected then Failure(UnexpectedResponseLength)
    else if o.result.value.state != 0 then Failure(DeviceError(o.result.value.state, Reason(o.result.value.state)))
    else Success(o.data)
  }

  /** What ReadVersion reports for a response. */
  function VersionResponse(writeOk: bool, reply: ReadOutcome): Result<Version, Error>
    requires WellFormedRead(reply)
  {
    var r := ReadResponse(VersionLength, writeOk, reply);
    if r.Failure? then Failure(r.error) else Success(DecodeVersion(r.value))
  }

  /**
   * ReadVersion: requests the version record into a zeroed 7-byte buffer and,
   * when the response passes the checks, copies its fields into info. On any
   * error info is left untouched.
   */
  method ReadVersion(info: VersionInfo, writeOk: bool, reply: ReadOutcome) returns (sent: seq<byte>, err: Option<Error>)
    requires WellFormedRead(reply)
    modifies info
    ensures sent == TxFrame(PeripheralAddr, CmdReadVersion, 0, [])
    ensures VersionResponse(writeOk, reply).Success? ==>
      err == None && info.Fields() == VersionResponse(writeOk, reply).value
    ensures VersionResponse(writeOk, reply).Failure? ==>
      err == Some(VersionResponse(writeOk, reply).error) && unchanged(info)
  {
    var data := new byte[VersionLength](_ => 0);
    assert data[..] == seq(VersionLength, _ => 0);
    var result;
    sent, result := TransmitReceive(PeripheralAddr, CmdReadVersion, 0, [], VersionLength, data, writeOk, reply);
    if result.Failure? {
      return sent, Some(result.error);
    }
    var h := result.value;
    if h.dataLen != VersionLength {
      return sent, Some(UnexpectedResponseLength);
    }
    if h.state != 0 {
      return sent, Some(DeviceError(h.state, Reason(h.state)));
    }
    info.firmwareMajor := data[0];
    info.firmwareMinor := data[1];
    info.hardwareRevision := data[3];
    info.shdlcMajor := data[5];
    info.shdlcMinor := data[6];
    err := None;
  }

  /** A well-formed version response with status 0 yields its payload's version fields. */
  lemma ReadVersionAccepts(rx: seq<byte>, frameLen: int, h: RxHeader, p: seq<byte>)
    requires h.dataLen == VersionLength && h.state == 0 && |p| == VersionLength
    requires |rx| == MaxRxFrameSize && |ResponseFrame(h, p)| <= frameLen <= |rx|
    requires rx[..|ResponseFrame(h, p)|] == ResponseFrame(h, p)
    ensures VersionResponse(true, Read(rx, frameLen)) == Success(DecodeVersion(p))
  {
    var zeros := seq(VersionLength, _ => 0);
    ReceiveResponseFrame(rx, frameLen, VersionLength, zeros, h, p);
    assert p + zeros[|p|..] == p;
  }

  /**
   * A well-formed response declaring fewer than 7 bytes, read with a count
   * that ends right at its stop marker, is refused for its length, whatever
   * its status byte: the length is checked first. With a longer count the
   * payload loop reads on past the stop marker.
   */
  lemma ReadVersionChecksLengthFirst(rx: seq<byte>, h: RxHeader, p: seq<byte>)
    requires h.dataLen < VersionLength && |p| == h.dataLen
    requires |rx| == MaxRxFrameSize && rx[..|ResponseFrame(h, p)|] == ResponseFrame(h, p)
    ensures VersionResponse(true, Read(rx, |ResponseFrame(h, p)|)) == Failure(UnexpectedResponseLength)
  {
    ReceiveResponseFrame(rx, |ResponseFrame(h, p)|, VersionLength, seq(VersionLength, _ => 0), h, p);
  }

  /** A well-formed 7-byte response with a non-zero status is refused with that status and its reason. */
  lemma ReadVersionReportsStatus(rx: seq<byte>, frameLen: int, h: RxHeader, p: seq<byte>)
    requires h.dataLen == VersionLength && h.state != 0 && |p| == VersionLength
    requires |rx| == MaxRxFrameSize && |ResponseFrame(h, p)| <= frameLen <= |rx|
    requires rx[..|ResponseFrame(h, p)|] == ResponseFrame(h, p)
    ensures VersionResponse(true, Read(rx, frameLen)) == Failure(DeviceError(h.state, Reason(h.state)))
  {
    ReceiveResponseFrame(rx, frameLen, VersionLength, seq(VersionLength, _ => 0), h, p);
  }

  /**
   * A response declaring more than 7 bytes fails before any check of its
   * own: the source's checksum loop runs past the 7-byte buffer.
   */
  lemma ReadVersionOverlong(rx: seq<byte>, frameLen: int, h: RxHeader, p: seq<byte>)
    requires h.dataLen > VersionLength && |p| == h.dataLen
    requires |rx| == MaxRxFrameSize && 1 <= frameLen <= |rx|
    requires |ResponsePrefix(h, p)| <= |rx| && rx[..|ResponsePrefix(h, p)|] == ResponsePrefix(h, p)
    ensures VersionResponse(true, Read(rx, frameLen)) == Failure(IndexOutOfRange)
  {
    ReceiveOverlong(rx, frameLen, VersionLength, seq(VersionLength, _ => 0), h, p);
  }

  // ---------------------------------------------------------------------------
  // ReadMeasurement
  // ---------------------------------------------------------------------------

  /** binary.BigEndian.Uint32: four bytes, most significant first. */
  function BigEndianWord(b: seq<byte>): (w: word)
    requires |b| == 4
    ensures w / 0x100_0000 == b[0] && w % 0x100 == b[3]
  {
    (b[0] as int) * 0x100_0000 + (b[1] as int) * 0x1_0000 + (b[2] as int) * 0x100 + b[3]
  }

  /** The four big-endian bytes of a word. */
  function WordBytes(w: word): (b: seq<byte>)
    ensures |b| == 4
  {
    [w / 0x100_0000, (w / 0x1_0000) % 0x100, (w / 0x100) % 0x100, w % 0x100]
  }

  /** Reading a word back from its bytes gives the word. */
  lemma BigEndianWordOfBytes(w: word)
    ensures BigEndianWord(WordBytes(w)) == w
  {
    var q1 := w / 0x100;
    var q2 := q1 / 0x100;
    DivTwice(w, q1, q2);
    assert w == q1 * 0x100 + w % 0x100 && q1 == q2 * 0x100 + q1 % 0x100 && q2 == (q2 / 0x100) * 0x100 + q2 % 0x100;
  }

  /** Every four bytes are the bytes of the word they spell. */
  lemma WordBytesOfBigEndian(b: seq<byte>)
    requires |b| == 4
    ensures WordBytes(BigEndianWord(b)) == b
  {
    var hi := b[0] as int;
    var hi2 := hi * 0x100 + b[1];
    var hi3 := hi2 * 0x100 + b[2];
    var w := hi3 * 0x100 + b[3];
    assert w == BigEndianWord(b);
    ShiftByte(hi3, b[3]);
    ShiftByte(hi2, b[2]);
    ShiftByte(hi, b[1]);
    assert w / 0x1_0000 == hi2 by { DivTwice(w, hi3, hi2); }
    assert w / 0x100_0000 == hi by { DivTwice(w, hi3, hi2); DivTwice(w / 0x100, hi2, hi); }
  }

  /** Appending one byte below a number and taking it off again. */
  lemma ShiftByte(hi: int, lo: byte)
    ensures (hi * 0x100 + lo) / 0x100 == hi && (hi * 0x100 + lo) % 0x100 == lo
  {
  }

  /** Dividing by 0x100 twice is dividing by 0x1_0000, and once more by 0x100_0000. */
  lemma DivTwice(w: int, q1: int, q2: int)
    requires w >= 0 && w / 0x100 == q1 && q1 / 0x100 == q2
    ensures w / 0x1_0000 == q2 && w / 0x100_0000 == q2 / 0x100
  {
  }

  /**
   * The ten measured values, each the raw 32-bit pattern of an IEEE-754 float:
   * mass concentrations (µg/m³), number concentrations (#/cm³) and the
   * typical particle size.
   */
  datatype Sample = Sample(mc1p0: word, mc2p5: word, mc4p0: word, mc10p0: word,
                           nc0p5: word, nc1p0: word, nc2p5: word, nc4p0: word, nc10p0: word,
                           typicalParticleSize: word)

  /** The caller's measurement record, filled in place by ReadMeasurement. */
  class Measurement {
    var mc1p0: word
    var mc2p5: word
    var mc4p0: word
    var mc10p0: word
    var nc0p5: word
    var nc1p0: word
    var nc2p5: word
    var nc4p0: word
    var nc10p0: word
    var typicalParticleSize: word

    function Values(): Sample
      reads this
    {
      Sample(mc1p0, mc2p5, mc4p0, mc10p0, nc0p5, nc1p0, nc2p5, nc4p0, nc10p0, typicalParticleSize)
    }
  }

  /** The i-th big-endian word of a payload. */
  function WordAt(p: seq<byte>, i: nat): word
    requires 4 * i + 4 <= |p|
  {
    BigEndianWord(p[4 * i..4 * i + 4])
  }

  /** The sample in a measurement payload: ten big-endian words at offsets 0, 4, ..., 36. */
  function DecodeSample(p: seq<byte>): (s: Sample)
    requires |p| >= MeasurementLength
    ensures forall i :: 0 <= i < 10 ==> SampleWords(s)[i] == WordAt(p, i)
  {
    Sample(WordAt(p, 0), WordAt(p, 1), WordAt(p, 2), WordAt(p, 3), WordAt(p, 4),
           WordAt(p, 5), WordAt(p, 6), WordAt(p, 7), WordAt(p, 8), WordAt(p, 9))
  }

  /** The values of a sample in payload order. */
  function SampleWords(s: Sample): seq<word>
  {
    [s.mc1p0, s.mc2p5, s.mc4p0, s.mc10p0, s.nc0p5, s.nc1p0, s.nc2p5, s.nc4p0, s.nc10p0, s.typicalParticleSize]
  }

  /** The big-endian bytes of a sequence of words, one after the other. */
  function Serialize(ws: seq<word>): (p: seq<byte>)
    ensures |p| == 4 * |ws|
  {
    if ws == [] then [] else WordBytes(ws[0]) + Serialize(ws[1..])
  }

  /** The payload a sensor sends for a sample. */
  function SamplePayload(s: Sample): (p: seq<byte>)
    ensures |p| == MeasurementLength
  {
    Serialize(SampleWords(s))
  }

  /** The i-th four bytes of a serialized sequence of words are the bytes of its i-th word. */
  lemma {:induction false} SerializeSlice(ws: seq<word>, i: nat)
    requires i < |ws|
    ensures Serialize(ws)[4 * i..4 * i + 4] == WordBytes(ws[i])
  {
    if i > 0 {
      SerializeSlice(ws[1..], i - 1);
      assert Serialize(ws)[4 * i..4 * i + 4] == Serialize(ws[1..])[4 * (i - 1)..4 * (i - 1) + 4];
    }
  }

  /** The i-th word of a serialized sequence of words reads back as that word. */
  lemma SerializeWordAt(ws: seq<word>, i: nat)
    requires i < |ws|
    ensures WordAt(Serialize(ws), i) == ws[i]
  {
    SerializeSlice(ws, i);
    BigEndianWordOfBytes(ws[i]);
  }

  /** Decoding the payload of a sample gives the sample back. */
  lemma DecodeSamplePayload(s: Sample)
    ensures DecodeSample(SamplePayload(s)) == s
  {
    var ws := SampleWords(s);
    SerializeWordAt(ws, 0); SerializeWordAt(ws, 1); SerializeWordAt(ws, 2); SerializeWordAt(ws, 3);
    SerializeWordAt(ws, 4); SerializeWordAt(ws, 5); SerializeWordAt(ws, 6); SerializeWordAt(ws, 7);
    SerializeWordAt(ws, 8); SerializeWordAt(ws, 9);
  }

  /** What ReadMeasurement reports for a response. */
  function MeasurementResponse(writeOk: bool, reply: ReadOutcome): Result<Sample, Error>
    requires WellFormedRead(reply)
  {
    var r := ReadResponse(MeasurementLength, writeOk, reply);
    if r.Failure? then Failure(r.error) else Success(DecodeSample(r.value))
  }

  /**
   * ReadMeasurement: requests a sample into a zeroed 40-byte buffer and, when
   * the response passes the checks, stores its ten words into m. On any
   * error m is left untouched.
   */
  method ReadMeasurement(m: Measurement, writeOk: bool, reply: ReadOutcome) returns (sent: seq<byte>, err: Option<Error>)
    requires WellFormedRead(reply)
    modifies m
    ensures sent == TxFrame(PeripheralAddr, CmdReadMeasurement, 0, [])
    ensures MeasurementResponse(writeOk, reply).Success? ==>
      err == None && m.Values() == MeasurementResponse(writeOk, reply).value
    ensures MeasurementResponse(writeOk, reply).Failure? ==>
      err == Some(MeasurementResponse(writeOk, reply).error) && unchanged(m)
  {
    var data := new byte[MeasurementLength](_ => 0);
    assert data[..] == seq(MeasurementLength, _ => 0);
    var result;
    sent, result := TransmitReceive(PeripheralAddr, CmdReadMeasurement, 0, [], MeasurementLength, data, writeOk, reply);
    if result.Failure? {
      return sent, Some(result.error);
    }
    var h := result.value;
    if h.dataLen != MeasurementLength {
      return sent, Some(UnexpectedResponseLength);
    }
    if h.state != 0 {
      return sent, Some(DeviceError(h.state, Reason(h.state)));
    }
    var payload := data[..];
    assert ReadResponse(MeasurementLength, writeOk, reply) == Success(payload);
    StoreSample(m, payload);
    err := None;
  }

  /** The ten field assignments of ReadMeasurement: word i of the payload goes to the i-th field. */
  method StoreSample(m: Measurement, payload: seq<byte>)
    requires |payload| >= MeasurementLength
    modifies m
    ensures m.Values() == DecodeSample(payload)
  {
    m.mc1p0 := WordAt(payload, 0);
    m.mc2p5 := WordAt(payload, 1);
    m.mc4p0 := WordAt(payload, 2);
    m.mc10p0 := WordAt(payload, 3);
    m.nc0p5 := WordAt(payload, 4);
    m.nc1p0 := WordAt(payload, 5);
    m.nc2p5 := WordAt(payload, 6);
    m.nc4p0 := WordAt(payload, 7);
    m.nc10p0 := WordAt(payload, 8);
    m.typicalParticleSize := WordAt(payload, 9);
  }

  /** A well-formed 40-byte response with status 0 yields the sample its payload encodes. */
  lemma ReadMeasurementDecodes(rx: seq<byte>, frameLen: int, h: RxHeader, p: seq<byte>)
    requires h.dataLen == MeasurementLength && h.state == 0 && |p| == MeasurementLength
    requires |rx| == MaxRxFrameSize && |ResponseFrame(h, p)| <= frameLen <= |rx|
    requires rx[..|ResponseFrame(h, p)|] == ResponseFrame(h, p)
    ensures MeasurementResponse(true, Read(rx, frameLen)) == Success(DecodeSample(p))
  {
    var zeros := seq(MeasurementLength, _ => 0);
    ReceiveResponseFrame(rx, frameLen, MeasurementLength, zeros, h, p);
    assert p + zeros[|p|..] == p;
  }

  /** A well-formed response carrying a sample's payload with status 0 yields that sample. */
  lemma ReadMeasurementAccepts(rx: seq<byte>, frameLen: int, h: RxHeader, s: Sample)
    requires h.dataLen == MeasurementLength && h.state == 0
    requires |rx| == MaxRxFrameSize && |ResponseFrame(h, SamplePayload(s))| <= frameLen <= |rx|
    requires rx[..|ResponseFrame(h, SamplePayload(s))|] == ResponseFrame(h, SamplePayload(s))
    ensures MeasurementResponse(true, Read(rx, frameLen)) == Success(s)
  {
    ReadMeasurementDecodes(rx, frameLen, h, SamplePayload(s));
    DecodeSamplePayload(s);
  }

  /** A well-formed 40-byte response with a non-zero status is refused with that status and its reason. */
  lemma ReadMeasurementReportsStatus(rx: seq<byte>, frameLen: int, h: RxHeader, p: seq<byte>)
    requires h.dataLen == MeasurementLength && h.state != 0 && |p| == MeasurementLength
    requires |rx| == MaxRxFrameSize && |ResponseFrame(h, p)| <= frameLen <= |rx|
    requires rx[..|ResponseFrame(h, p)|] == ResponseFrame(h, p)
    ensures MeasurementResponse(true, Read(rx, frameLen)) == Failure(DeviceError(h.state, Reason(h.state)))
  {
    ReceiveResponseFrame(rx, frameLen, MeasurementLength, seq(MeasurementLength, _ => 0), h, p);
  }
}
