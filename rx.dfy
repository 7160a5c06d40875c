/** Frame parsing on the receive side (sps30.go, shdlcRx). */
module FrameRx {
  import opened Wire
  import opened Checksum
  import opened Stuffing

  /** The header of a frame sent by the sensor. */
  datatype RxHeader = RxHeader(addr: byte, cmd: byte, state: byte, dataLen: byte)

  /** The logical bytes destuffed by the payload loop and the index after the last one. */
  datatype Run = Run(values: seq<byte>, end: int)

  /** The outcome of receiving one frame: the verdict and the new contents of the caller's payload buffer. */
  datatype Reception = Reception(result: Result<RxHeader, Error>, data: seq<byte>)

  /**
   * The source's payload loop, one iteration per call: while index is below
   * limit and fewer than maxDataLen bytes are stored, destuff the byte at
   * index and store it. Yields the bytes stored and the index after the last
   * byte consumed.
   */
  function PayloadLoop(rx: seq<byte>, index: int, limit: int, stored: seq<byte>, maxDataLen: int): (r: Run)
    requires 0 <= index && limit < |rx| && |stored| <= maxDataLen
    ensures |stored| <= |r.values| <= maxDataLen
    ensures index <= r.end && (r.end == index || r.end <= limit + 1)
    decreases maxDataLen - |stored|
  {
    if index < limit && |stored| < maxDataLen then
      var step := DestuffAt(rx, index);
      PayloadLoop(rx, step.next, limit, stored + [step.value], maxDataLen)
    else
      Run(stored, index)
  }

  /** The header fields of a frame and the run of its payload loop. */
  datatype Parsed = Parsed(header: RxHeader, run: Run)

  /**
   * What shdlcRx reads after the start marker and before the checksum: four
   * header fields destuffed from index 1 on, then the payload loop up to
   * frameLen - 2 and at most maxDataLen bytes.
   */
  function ParseFrame(rx: seq<byte>, frameLen: int, maxDataLen: int): (r: Parsed)
    requires |rx| == MaxRxFrameSize && 1 <= frameLen <= |rx| && 0 <= maxDataLen
    ensures |r.run.values| <= maxDataLen && 0 <= r.run.end < |rx|
  {
    var addr := DestuffAt(rx, 1);
    var cmd := DestuffAt(rx, addr.next);
    var state := DestuffAt(rx, cmd.next);
    var dataLen := DestuffAt(rx, state.next);
    Parsed(RxHeader(addr.value, cmd.value, state.value, dataLen.value),
           PayloadLoop(rx, dataLen.next, frameLen - 2, [], maxDataLen))
  }

  /** The checksum the source computes for a header over the caller's buffer. */
  function HeaderCrc(h: RxHeader, data: seq<byte>): byte
    requires h.dataLen <= |data|
  {
    Crc(AddBytes(AddBytes(h.addr, h.cmd), h.state), h.dataLen, data)
  }

  /**
   * What receiving the first frameLen bytes of the 522-byte buffer rx does,
   * given the caller's payload buffer: the start marker is checked, four header
   * fields are destuffed, then up to maxDataLen payload bytes (not the declared
   * length) are destuffed into the front of the buffer. The checksum of
   * (addr + cmd + state, declared length, buffer) is compared with the raw byte
   * after the payload, and the byte after that must be a stop marker inside
   * frameLen. A declared length beyond the caller's buffer makes the source's
   * checksum loop index out of range.
   */
  function Receive(rx: seq<byte>, frameLen: int, maxDataLen: int, buffer: seq<byte>): (o: Reception)
    requires |rx| == MaxRxFrameSize && 0 <= frameLen <= |rx|
    requires 0 <= maxDataLen <= |buffer|
    ensures |o.data| == |buffer| && o.data[maxDataLen..] == buffer[maxDataLen..]
    ensures o.result == Failure(MissingStartMarker) <==> frameLen < 1 || rx[0] != Start
    ensures frameLen < 1 || rx[0] != Start ==> o.data == buffer
    ensures o.result.Success? ==> 7 <= frameLen
  {
    if frameLen < 1 || rx[0] != Start then Reception(Failure(MissingStartMarker), buffer)
    else
      var parsed := ParseFrame(rx, frameLen, maxDataLen);
      var h, run := parsed.header, parsed.run;
      var data := run.values + buffer[|run.values|..];
      var result :=
        if h.dataLen > |data| then Failure(IndexOutOfRange)
        else if HeaderCrc(h, data) != rx[run.end] then Failure(ChecksumMismatch)
        else if run.end + 1 >= frameLen || rx[run.end + 1] != Stop then Failure(MissingStopMarker)
        else Success(h);
      Reception(result, data)
  }

  /**
   * shdlcRx: reads one frame from the transport and parses it, filling the
   * caller's payload buffer in place. The caller's buffer must hold maxDataLen
   * bytes, since the payload loop writes up to that many.
   */
  method ShdlcRx(maxDataLen: int, data: array<byte>, reply: ReadOutcome) returns (result: Result<RxHeader, Error>)
    requires WellFormedRead(reply)
    requires 0 <= maxDataLen <= data.Length
    modifies data
    ensures reply.ReadError? ==> result == Failure(ReadFailed) && data[..] == old(data[..])
    ensures reply.Read? ==>
      Reception(result, data[..]) == Receive(reply.buffer, reply.count, maxDataLen, old(data[..]))
  {
    if reply.ReadError? {
      return Failure(ReadFailed);
    }
    var rxFrame, frameLen := reply.buffer, reply.count;

    if frameLen < 1 || rxFrame[0] != Start {
      return Failure(MissingStartMarker);
    }

    var headerIndex := 1;
    var addr, cmd, state, dataLen;
    headerIndex, addr := UnstuffByte(rxFrame, headerIndex);
    headerIndex, cmd := UnstuffByte(rxFrame, headerIndex);
    headerIndex, state := UnstuffByte(rxFrame, headerIndex);
    headerIndex, dataLen := UnstuffByte(rxFrame, headerIndex);

    var dataIndex := DestuffPayload(rxFrame, headerIndex, frameLen - 2, maxDataLen, data);

    if dataLen > data.Length {
      // the source's checksum loop would index past the caller's slice here
      return Failure(IndexOutOfRange);
    }
    var crc := ShdlcCrc(AddBytes(AddBytes(addr, cmd), state), dataLen, data[..]);
    if crc != rxFrame[dataIndex] {
      return Failure(ChecksumMismatch);
    }
    dataIndex := dataIndex + 1;

    if dataIndex >= frameLen || rxFrame[dataIndex] != Stop {
      return Failure(MissingStopMarker);
    }
    return Success(RxHeader(addr, cmd, state, dataLen));
  }

  /**
   * The payload loop of shdlcRx: destuffs from index from on, while the index
   * is below limit and fewer than maxDataLen bytes have been stored, into the
   * front of the caller's buffer; returns the index after the last byte
   * consumed.
   */
  method DestuffPayload(rxFrame: seq<byte>, from: int, limit: int, maxDataLen: int, data: array<byte>) returns (dataIndex: int)
    requires 0 <= from && limit < |rxFrame|
    requires 0 <= maxDataLen <= data.Length
    modifies data
    ensures var run := PayloadLoop(rxFrame, from, limit, [], maxDataLen);
      dataIndex == run.end && data[..] == run.values + old(data[..])[|run.values|..]
  {
    ghost var run := PayloadLoop(rxFrame, from, limit, [], maxDataLen);
    dataIndex := from;
    var i := 0;
    while dataIndex < limit && i < maxDataLen
      invariant 0 <= i <= maxDataLen && 0 <= dataIndex
      invariant PayloadLoop(rxFrame, dataIndex, limit, data[..i], maxDataLen) == run
      invariant data[i..] == old(data[i..])
      decreases maxDataLen - i
    {
      var value;
      var next;
      next, value := UnstuffByte(rxFrame, dataIndex);
      ghost var before := data[..];
      TakeUpdate(before, i, value);
      data[i] := value;
      assert data[..] == before[i := value];
      assert data[i + 1..] == before[i + 1..] == old(data[i..])[1..];
      dataIndex := next;
      i := i + 1;
    }
    assert data[..] == data[..i] + data[i..];
    assert old(data[..])[i..] == old(data[i..]);
  }

  // ---------------------------------------------------------------------------
  // Frames the decoder accepts
  // ---------------------------------------------------------------------------

  /** The checksum a response must carry: over addr + cmd + state, the declared length and the payload. */
  function ResponseCrc(h: RxHeader, p: seq<byte>): byte
    requires |p| == h.dataLen
  {
    HeaderCrc(h, p)
  }

  /** A response up to its checksum: start marker, then header and payload stuffed as the protocol intends. */
  function ResponsePrefix(h: RxHeader, p: seq<byte>): (f: seq<byte>)
    requires |p| == h.dataLen
    ensures 5 <= |f| <= 1 + 2 * (4 + |p|)
  {
    StuffedLength([h.addr, h.cmd, h.state, h.dataLen] + p);
    [Start] + Stuffed([h.addr, h.cmd, h.state, h.dataLen] + p)
  }

  /**
   * A response frame as the decoder expects it: the stuffed header and
   * payload, then the checksum as a raw byte, then the stop marker. This is
   * what "well-formed" means throughout: the checksum is never stuffed.
   */
  function ResponseFrame(h: RxHeader, p: seq<byte>): (f: seq<byte>)
    requires |p| == h.dataLen
    ensures |f| == |ResponsePrefix(h, p)| + 2 <= 521 < MaxRxFrameSize
  {
    ResponsePrefix(h, p) + [ResponseCrc(h, p), Stop]
  }

  /** Destuffing the intended stuffing of a payload gives the payload back. */
  lemma {:induction false} PayloadLoopStuffed(rx: seq<byte>, from: int, to: int, p: seq<byte>, limit: int, stored: seq<byte>, maxDataLen: int)
    requires 0 <= from <= to <= limit < |rx|
    requires rx[from..to] == Stuffed(p)
    requires |stored| + |p| <= maxDataLen
    requires |stored| + |p| == maxDataLen || to == limit
    ensures PayloadLoop(rx, from, limit, stored, maxDataLen) == Run(stored + p, to)
    decreases p
  {
    if p == [] {
      assert stored + p == stored;
    } else {
      var x, rest := p[0], p[1..];
      var next := PayloadLoopStuffedStep(rx, from, to, x, rest, limit, stored, maxDataLen);
      PayloadLoopStuffed(rx, next, to, rest, limit, stored + [x], maxDataLen);
      assert stored + [x] + rest == stored + p;
    }
  }

  /** One turn of the payload loop over a stuffed byte stores that byte and moves past its stuffing. */
  lemma PayloadLoopStuffedStep(rx: seq<byte>, from: int, to: int, x: byte, rest: seq<byte>, limit: int, stored: seq<byte>, maxDataLen: int)
    returns (next: int)
    requires 0 <= from <= to <= limit < |rx|
    requires rx[from..to] == Stuffed([x] + rest)
    requires |stored| < maxDataLen
    ensures from < next <= to && rx[next..to] == Stuffed(rest)
    ensures PayloadLoop(rx, from, limit, stored, maxDataLen) == PayloadLoop(rx, next, limit, stored + [x], maxDataLen)
  {
    DestuffStuffedHead(rx, from, to, x, rest);
    next := from + |StuffByte(x)|;
  }

  /**
   * Destuffing four header fields stuffed as the protocol intends gives them
   * back; the payload's stuffing starts where the fourth field ends.
   */
  lemma DestuffHeader(rx: seq<byte>, h: RxHeader, p: seq<byte>) returns (i1: int, i2: int, i3: int, from: int)
    requires |p| == h.dataLen
    requires |ResponsePrefix(h, p)| <= |rx| && rx[..|ResponsePrefix(h, p)|] == ResponsePrefix(h, p)
    ensures CanDestuffAt(rx, 1) && DestuffAt(rx, 1) == Destuffed(h.addr, i1)
    ensures CanDestuffAt(rx, i1) && DestuffAt(rx, i1) == Destuffed(h.cmd, i2)
    ensures CanDestuffAt(rx, i2) && DestuffAt(rx, i2) == Destuffed(h.state, i3)
    ensures CanDestuffAt(rx, i3) && DestuffAt(rx, i3) == Destuffed(h.dataLen, from)
    ensures 0 <= from <= |ResponsePrefix(h, p)|
    ensures rx[from..|ResponsePrefix(h, p)|] == Stuffed(p)
  {
    var k := |ResponsePrefix(h, p)|;
    var q3 := [h.dataLen] + p;
    var q2 := [h.state] + q3;
    var q1 := [h.cmd] + q2;
    assert [h.addr, h.cmd, h.state, h.dataLen] + p == [h.addr] + q1;
    assert rx[1..k] == ResponsePrefix(h, p)[1..] == Stuffed([h.addr] + q1);
    DestuffStuffedHead(rx, 1, k, h.addr, q1);
    i1 := 1 + |StuffByte(h.addr)|;
    DestuffStuffedHead(rx, i1, k, h.cmd, q2);
    i2 := i1 + |StuffByte(h.cmd)|;
    DestuffStuffedHead(rx, i2, k, h.state, q3);
    i3 := i2 + |StuffByte(h.state)|;
    DestuffStuffedHead(rx, i3, k, h.dataLen, p);
    from := i3 + |StuffByte(h.dataLen)|;
  }

  /**
   * Receiving a buffer that begins with a response's start marker, stuffed
   * header and stuffed payload: the header and the payload come back intact,
   * and the verdict depends only on the two bytes after them. The checksum
   * must follow as a raw byte and the stop marker after it; a wrong checksum
   * byte is always reported as a checksum mismatch. The payload loop stops
   * either at maxDataLen bytes or at frameLen - 2, so either the caller asks
   * for exactly the declared length or frameLen ends right after the stop
   * marker.
   */
  lemma ReceiveResponse(rx: seq<byte>, frameLen: int, maxDataLen: int, buffer: seq<byte>, h: RxHeader, p: seq<byte>)
    requires |p| == h.dataLen
    requires |rx| == MaxRxFrameSize && |ResponsePrefix(h, p)| + 2 <= frameLen <= |rx|
    requires rx[..|ResponsePrefix(h, p)|] == ResponsePrefix(h, p)
    requires |p| <= maxDataLen <= |buffer|
    requires maxDataLen == |p| || frameLen == |ResponsePrefix(h, p)| + 2
    ensures var k := |ResponsePrefix(h, p)|;
      Receive(rx, frameLen, maxDataLen, buffer) ==
        Reception(if rx[k] != ResponseCrc(h, p) then Failure(ChecksumMismatch)
                  else if rx[k + 1] != Stop then Failure(MissingStopMarker)
                  else Success(h),
                  p + buffer[|p|..])
  {
    var k := |ResponsePrefix(h, p)|;
    assert rx[0] == ResponsePrefix(h, p)[0] == Start;
    var i1, i2, i3, from := DestuffPrefix(rx, frameLen, maxDataLen, h, p);
    ReceiveDecoded(rx, frameLen, maxDataLen, buffer, h, i1, i2, i3, from, Run(p, k));
    var data := p + buffer[|p|..];
    assert Crc(AddBytes(AddBytes(h.addr, h.cmd), h.state), h.dataLen, data) == ResponseCrc(h, p) by {
      assert data[..h.dataLen] == p[..h.dataLen];
      CrcIgnoresTrailingBytes(AddBytes(AddBytes(h.addr, h.cmd), h.state), h.dataLen, data, p);
    }
  }

  /** The header fields and the payload loop recover the header and the payload of a response's prefix. */
  lemma DestuffPrefix(rx: seq<byte>, frameLen: int, maxDataLen: int, h: RxHeader, p: seq<byte>) returns (i1: int, i2: int, i3: int, from: int)
    requires |p| == h.dataLen
    requires |ResponsePrefix(h, p)| + 2 <= frameLen <= |rx|
    requires rx[..|ResponsePrefix(h, p)|] == ResponsePrefix(h, p)
    requires |p| <= maxDataLen
    requires maxDataLen == |p| || frameLen == |ResponsePrefix(h, p)| + 2
    ensures CanDestuffAt(rx, 1) && DestuffAt(rx, 1) == Destuffed(h.addr, i1)
    ensures CanDestuffAt(rx, i1) && DestuffAt(rx, i1) == Destuffed(h.cmd, i2)
    ensures CanDestuffAt(rx, i2) && DestuffAt(rx, i2) == Destuffed(h.state, i3)
    ensures CanDestuffAt(rx, i3) && DestuffAt(rx, i3) == Destuffed(h.dataLen, from)
    ensures 0 <= from && PayloadLoop(rx, from, frameLen - 2, [], maxDataLen) == Run(p, |ResponsePrefix(h, p)|)
  {
    i1, i2, i3, from := DestuffHeader(rx, h, p);
    PayloadLoopStuffed(rx, from, |ResponsePrefix(h, p)|, p, frameLen - 2, [], maxDataLen);
    assert [] + p == p;
  }

  /**
   * Once the header fields and the payload run are known, the verdict is
   * decided by the declared length, the checksum byte and the stop marker.
   */
  lemma ReceiveDecoded(rx: seq<byte>, frameLen: int, maxDataLen: int, buffer: seq<byte>, h: RxHeader,
                       i1: int, i2: int, i3: int, from: int, run: Run)
    requires |rx| == MaxRxFrameSize && 1 <= frameLen <= |rx| && rx[0] == Start
    requires 0 <= maxDataLen <= |buffer|
    requires CanDestuffAt(rx, 1) && DestuffAt(rx, 1) == Destuffed(h.addr, i1)
    requires CanDestuffAt(rx, i1) && DestuffAt(rx, i1) == Destuffed(h.cmd, i2)
    requires CanDestuffAt(rx, i2) && DestuffAt(rx, i2) == Destuffed(h.state, i3)
    requires CanDestuffAt(rx, i3) && DestuffAt(rx, i3) == Destuffed(h.dataLen, from)
    requires 0 <= from && PayloadLoop(rx, from, frameLen - 2, [], maxDataLen) == run
    ensures var data := run.values + buffer[|run.values|..];
      Receive(rx, frameLen, maxDataLen, buffer) ==
        Reception(if h.dataLen > |data| then Failure(IndexOutOfRange)
                  else if Crc(AddBytes(AddBytes(h.addr, h.cmd), h.state), h.dataLen, data) != rx[run.end] then Failure(ChecksumMismatch)
                  else if run.end + 1 >= frameLen || rx[run.end + 1] != Stop then Failure(MissingStopMarker)
                  else Success(h),
                  data)
  {
  }

  /**
   * A response whose header arrives intact but declares more payload bytes
   * than the caller's buffer holds fails whatever follows the header: the
   * source's checksum loop indexes past the buffer.
   */
  lemma ReceiveOverlong(rx: seq<byte>, frameLen: int, maxDataLen: int, buffer: seq<byte>, h: RxHeader, p: seq<byte>)
    requires |p| == h.dataLen
    requires |rx| == MaxRxFrameSize && 1 <= frameLen <= |rx|
    requires 0 <= maxDataLen <= |buffer| < h.dataLen
    requires |ResponsePrefix(h, p)| <= |rx| && rx[..|ResponsePrefix(h, p)|] == ResponsePrefix(h, p)
    ensures Receive(rx, frameLen, maxDataLen, buffer).result == Failure(IndexOutOfRange)
  {
    assert rx[0] == ResponsePrefix(h, p)[0] == Start;
    var i1, i2, i3, from := DestuffHeader(rx, h, p);
    ReceiveDecoded(rx, frameLen, maxDataLen, buffer, h, i1, i2, i3, from, PayloadLoop(rx, from, frameLen - 2, [], maxDataLen));
  }

  /**
   * A well-formed response (raw checksum), in a buffer of any content after
   * it, is accepted with its header and payload, provided the payload loop
   * stops at the end of the payload: either the caller asks for exactly the
   * declared length or the read count ends right after the stop marker.
   */
  lemma ReceiveResponseFrame(rx: seq<byte>, frameLen: int, maxDataLen: int, buffer: seq<byte>, h: RxHeader, p: seq<byte>)
    requires |p| == h.dataLen
    requires |rx| == MaxRxFrameSize && |ResponseFrame(h, p)| <= frameLen <= |rx|
    requires rx[..|ResponseFrame(h, p)|] == ResponseFrame(h, p)
    requires |p| <= maxDataLen <= |buffer|
    requires maxDataLen == |p| || frameLen == |ResponseFrame(h, p)|
    ensures Receive(rx, frameLen, maxDataLen, buffer) == Reception(Success(h), p + buffer[|p|..])
  {
    var k := |ResponsePrefix(h, p)|;
    assert rx[..k] == ResponseFrame(h, p)[..k];
    assert rx[k] == ResponseFrame(h, p)[k] && rx[k + 1] == ResponseFrame(h, p)[k + 1];
    ReceiveResponse(rx, frameLen, maxDataLen, buffer, h, p);
  }

  /**
   * Over bytes that hold no escape, the payload loop copies the bytes it still
   * has room for verbatim, a stop marker among them included: it stops at the
   * count, not at a marker.
   */
  lemma {:induction false} PayloadLoopCopiesPlain(rx: seq<byte>, from: int, limit: int, stored: seq<byte>, maxDataLen: int)
    requires 0 <= from && limit < |rx| && |stored| <= maxDataLen
    requires from + (maxDataLen - |stored|) <= limit
    requires forall i :: from <= i < from + (maxDataLen - |stored|) ==> rx[i] != Escape
    ensures var n := maxDataLen - |stored|;
      PayloadLoop(rx, from, limit, stored, maxDataLen) == Run(stored + rx[from..from + n], from + n)
    decreases maxDataLen - |stored|
  {
    var n := maxDataLen - |stored|;
    if n == 0 {
      assert stored + rx[from..from] == stored;
    } else {
      PayloadLoopCopiesPlain(rx, from + 1, limit, stored + [rx[from]], maxDataLen);
      assert stored + [rx[from]] + rx[from + 1..from + n] == stored + rx[from..from + n];
    }
  }

  /**
   * The payload loop run over the source's own stuffing of p, up to the end
   * of it, gives back the bytes that stuffing kept: p itself exactly when p
   * holds none of 0x11, 0x13 and 0x7D.
   */
  lemma DestuffStuffedAsWritten(rx: seq<byte>, from: int, to: int, p: seq<byte>)
    requires 0 <= from <= to < |rx|
    requires rx[from..to] == StuffedAsWritten(p)
    ensures PayloadLoop(rx, from, to, [], |p|) == Run(Kept(p), to)
    ensures PayloadLoop(rx, from, to, [], |p|).values == p <==> forall i :: 0 <= i < |p| ==> !IsDropped(p[i])
  {
    StuffedAsWrittenIsStuffedKept(p);
    PayloadLoopStuffed(rx, from, to, Kept(p), to, [], |p|);
    assert [] + Kept(p) == Kept(p);
  }

  // ---------------------------------------------------------------------------
  // A stuffed checksum
  // ---------------------------------------------------------------------------

  /**
   * A response frame stuffed as the protocol intends it: every byte between
   * the markers, the checksum included, is stuffed. It differs from
   * ResponseFrame only when the checksum is a reserved byte.
   */
  function EncodedResponseFrame(h: RxHeader, p: seq<byte>): (f: seq<byte>)
    requires |p| == h.dataLen
    ensures f == ResponsePrefix(h, p) + StuffByte(ResponseCrc(h, p)) + [Stop]
    ensures |f| <= MaxRxFrameSize
    ensures !IsReserved(ResponseCrc(h, p)) ==> f == ResponseFrame(h, p)
  {
    var q := [h.addr, h.cmd, h.state, h.dataLen] + p;
    var crc := ResponseCrc(h, p);
    StuffedAppend(q, [crc]);
    assert Stuffed([crc]) == StuffByte(crc) + Stuffed([]);
    [Start] + Stuffed(q + [crc]) + [Stop]
  }

  /**
   * The source compares the raw byte after the payload with the checksum, so
   * a response whose checksum is a reserved byte, sent stuffed as the
   * protocol intends, is always rejected: 0x7D as a missing stop marker (the
   * escape byte matches, the byte after it does not), 0x11, 0x13 and 0x7E as
   * a checksum mismatch.
   */
  lemma ReceiveRejectsStuffedChecksum(rx: seq<byte>, frameLen: int, buffer: seq<byte>, h: RxHeader, p: seq<byte>)
    requires |p| == h.dataLen && IsReserved(ResponseCrc(h, p))
    requires |rx| == MaxRxFrameSize && |EncodedResponseFrame(h, p)| <= frameLen <= |rx|
    requires rx[..|EncodedResponseFrame(h, p)|] == EncodedResponseFrame(h, p)
    requires |p| <= |buffer|
    ensures Receive(rx, frameLen, |p|, buffer).result ==
      if ResponseCrc(h, p) == Escape then Failure(MissingStopMarker) else Failure(ChecksumMismatch)
  {
    var f := EncodedResponseFrame(h, p);
    var k := |ResponsePrefix(h, p)|;
    assert rx[..k] == f[..k] == ResponsePrefix(h, p);
    assert rx[k] == f[k] == Escape;
    assert rx[k + 1] == f[k + 1] == Escaped(ResponseCrc(h, p));
    assert Escaped(Escape) == 0x5D;
    ReceiveResponse(rx, frameLen, |p|, buffer, h, p);
  }

  /**
   * The decoder as the protocol intends it: the same as Receive, except that
   * the checksum is destuffed like the bytes before it before it is compared,
   * and the stop marker is looked for after it.
   */
  function ReceiveEncoded(rx: seq<byte>, frameLen: int, maxDataLen: int, buffer: seq<byte>): (o: Reception)
    requires |rx| == MaxRxFrameSize && 0 <= frameLen <= |rx|
    requires 0 <= maxDataLen <= |buffer|
    ensures |o.data| == |buffer| && o.data[maxDataLen..] == buffer[maxDataLen..]
    ensures o.result == Failure(MissingStartMarker) <==> frameLen < 1 || rx[0] != Start
    ensures o.result.Success? ==> 7 <= frameLen
  {
    if frameLen < 1 || rx[0] != Start then Reception(Failure(MissingStartMarker), buffer)
    else
      var parsed := ParseFrame(rx, frameLen, maxDataLen);
      var h, run := parsed.header, parsed.run;
      var data := run.values + buffer[|run.values|..];
      var result :=
        if h.dataLen > |data| then Failure(IndexOutOfRange)
        else if !CanDestuffAt(rx, run.end) then Failure(MissingStopMarker)
        else
          var crc := DestuffAt(rx, run.end);
          if HeaderCrc(h, data) != crc.value then Failure(ChecksumMismatch)
          else if crc.next >= frameLen || rx[crc.next] != Stop then Failure(MissingStopMarker)
          else Success(h);
      Reception(result, data)
  }

  /**
   * The intended decoder accepts every response stuffed as the protocol
   * intends it, whatever its checksum, with its header and payload.
   */
  lemma ReceiveEncodedAccepts(rx: seq<byte>, frameLen: int, buffer: seq<byte>, h: RxHeader, p: seq<byte>)
    requires |p| == h.dataLen
    requires |rx| == MaxRxFrameSize && |EncodedResponseFrame(h, p)| <= frameLen <= |rx|
    requires rx[..|EncodedResponseFrame(h, p)|] == EncodedResponseFrame(h, p)
    requires |p| <= |buffer|
    ensures ReceiveEncoded(rx, frameLen, |p|, buffer) == Reception(Success(h), p + buffer[|p|..])
  {
    var f := EncodedResponseFrame(h, p);
    var k := |ResponsePrefix(h, p)|;
    var crc := ResponseCrc(h, p);
    var n := k + |StuffByte(crc)|;
    assert rx[..k] == f[..k] == ResponsePrefix(h, p);
    assert rx[0] == f[0] == Start;
    var i1, i2, i3, from := DestuffPrefix(rx, frameLen, |p|, h, p);
    assert rx == rx[..k] + StuffByte(crc) + rx[n..] by {
      assert rx[k..n] == f[k..n] == StuffByte(crc);
    }
    DestuffStuffedByte(rx[..k], crc, rx[n..]);
    assert rx[n] == f[n] == Stop;
    var data := p + buffer[|p|..];
    assert Crc(AddBytes(AddBytes(h.addr, h.cmd), h.state), h.dataLen, data) == crc by {
      assert data[..h.dataLen] == p[..h.dataLen];
      CrcIgnoresTrailingBytes(AddBytes(AddBytes(h.addr, h.cmd), h.state), h.dataLen, data, p);
    }
  }
}
