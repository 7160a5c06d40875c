/**
 * The repository's test vectors (sps30_test.go), stated against the model.
 * Where a vector disagrees with the source as written, the lemma states what
 * the source produces and says so.
 */
module Vectors {
  import opened Wire
  import opened Checksum
  import opened Stuffing
  import opened FrameTx
  import opened FrameRx
  import opened Sps30

  // ---------------------------------------------------------------------------
  // Checksum (sps30_test.go:209-214)
  // ---------------------------------------------------------------------------

  /** Stop measurement, start measurement and start fan cleaning. */
  lemma CrcCommandVectors()
    ensures Crc(AddBytes(0, 1), 0, []) == 254
    ensures Crc(AddBytes(0, 0), 2, [1, 3]) == 0xF9
    ensures Crc(AddBytes(0, 0x56), 0, []) == 0xA9
  {
    var a: seq<byte> := [1, 3];
    assert a[..2] == a;
    assert a[..1][..0] == [];
    assert Sum(a[..1]) == 1;
    assert a[..1] == a[..|a| - 1];
    assert Sum(a) == 4;
  }

  /** Only the first dataLen bytes count: 0xFF + 0xFF wraps to 0xFE, and 0xFE + 1 + 0xFF wraps to 0xFE again. */
  lemma CrcTrailingBytesVector()
    ensures Crc(AddBytes(0xFF, 0xFF), 1, [0xFF, 0xFF, 0xFF]) == 0x01
  {
    var b: seq<byte> := [0xFF, 0xFF, 0xFF];
    assert b[..1][..0] == [];
    assert Sum(b[..1]) == 0xFF;
  }

  /** The header sum 200 + 100 wraps to 44 before the length and payload are added. */
  lemma CrcWrapVector()
    ensures Crc(AddBytes(200, 100), 4, [50, 50, 50, 50]) == 0x07
  {
    var c: seq<byte> := [50, 50, 50, 50];
    assert c[..4] == c;
    assert c[..4][..3] == c[..3];
    assert c[..3][..2] == c[..2];
    assert c[..2][..1] == c[..1];
    assert c[..1][..0] == [];
    assert Sum(c[..1]) == 50;
    assert Sum(c[..2]) == 100;
    assert Sum(c[..3]) == 150;
    assert Sum(c[..4]) == 200;
  }

  // ---------------------------------------------------------------------------
  // Transmit frames (sps30_test.go:153-157)
  // ---------------------------------------------------------------------------

  /** The start-measurement request carries its two argument bytes unchanged. */
  lemma TxStartMeasurementVector()
    ensures TxFrame(0x00, 0x00, 2, [0x01, 0x03]) == [0x7E, 0x00, 0x00, 0x02, 0x01, 0x03, 0xF9, 0x7E]
  {
    CrcCommandVectors();
    assert [0x00, 0x00, 0x02] + [0x01, 0x03][..2] == [0x00, 0x00, 0x02, 0x01, 0x03];
    PlainFive(0x00, 0x00, 0x02, 0x01, 0x03);
  }

  /** Five bytes none of which is reserved are transmitted unchanged. */
  lemma PlainFive(a: byte, b: byte, c: byte, d: byte, e: byte)
    requires !IsReserved(a) && !IsReserved(b) && !IsReserved(c) && !IsReserved(d) && !IsReserved(e)
    ensures StuffedAsWritten([a, b, c, d, e]) == [a, b, c, d, e]
  {
    assert StuffedAsWritten([e]) == [e] by { assert [e][1..] == []; }
    assert StuffedAsWritten([d, e]) == [d, e] by { assert [d, e][1..] == [e]; }
    assert StuffedAsWritten([c, d, e]) == [c, d, e] by { assert [c, d, e][1..] == [d, e]; }
    assert StuffedAsWritten([b, c, d, e]) == [b, c, d, e] by { assert [b, c, d, e][1..] == [c, d, e]; }
    assert [a, b, c, d, e][1..] == [b, c, d, e];
  }

  /** Requests without payload: stop measurement, read measurement, sleep and device reset. */
  lemma TxNoPayloadVectors()
    ensures TxFrame(0x00, 0x01, 0, []) == [0x7E, 0x00, 0x01, 0x00, 0xFE, 0x7E]
    ensures TxFrame(0x00, 0x03, 0, []) == [0x7E, 0x00, 0x03, 0x00, 0xFC, 0x7E]
    ensures TxFrame(0x00, 0x10, 0, []) == [0x7E, 0x00, 0x10, 0x00, 0xEF, 0x7E]
    ensures TxFrame(0x00, 0xD3, 0, []) == [0x7E, 0x00, 0xD3, 0x00, 0x2C, 0x7E]
  {
    PlainRequest(0x01);
    PlainRequest(0x03);
    PlainRequest(0x10);
    PlainRequest(0xD3);
  }

  /**
   * The wake-up request as the source writes it: its stuffing loop drops the
   * command byte 0x11, so the frame carries no command at all. Stuffed as the
   * protocol intends, it would be 7E 00 7D 31 00 EE 7E.
   */
  lemma TxWakeupVector()
    ensures TxFrame(0x00, 0x11, 0, []) == [0x7E, 0x00, 0x00, 0xEE, 0x7E]
    ensures EncodedFrame(0x00, 0x11, []) == [0x7E, 0x00, 0x7D, 0x31, 0x00, 0xEE, 0x7E]
  {
    var none: seq<byte> := [];
    assert [0x00, 0x11, 0x00] + none[..0] == [0x00, 0x11, 0x00];
    assert StuffedAsWritten([0x00, 0x11, 0x00]) == [0x00, 0x00] by {
      assert [0x00, 0x11, 0x00][1..] == [0x11, 0x00];
      assert [0x11, 0x00][1..] == [0x00];
      assert [0x00][1..] == [];
    }
    assert [0x00, 0x11, |none|] + none + [0xEE] == [0x00] + [0x11] + [0x00, 0xEE];
    StuffedAroundOne([0x00], 0x11, [0x00, 0xEE]);
  }

  /** A header whose command byte is not reserved is transmitted unchanged. */
  lemma PlainRequest(cmd: byte)
    requires !IsReserved(cmd)
    ensures StuffedAsWritten([0x00, cmd, 0x00] + []) == [0x00, cmd, 0x00]
  {
    assert [0x00, cmd, 0x00] + [] == [0x00, cmd, 0x00];
    assert StuffedAsWritten([0x00]) == [0x00] by { assert [0x00][1..] == []; }
    assert StuffedAsWritten([cmd, 0x00]) == [cmd, 0x00] by { assert [cmd, 0x00][1..] == [0x00]; }
    assert [0x00, cmd, 0x00][1..] == [cmd, 0x00];
  }

  // ---------------------------------------------------------------------------
  // Stuffing (sps30_test.go:234-237)
  // ---------------------------------------------------------------------------

  /** The first, second and fourth stuffing vectors hold for the source as written. */
  lemma StuffDataVectors()
    ensures StuffedAsWritten([0x00]) == [0x00]
    ensures StuffedAsWritten([0x7E]) == [0x7D, 0x5E]
    ensures StuffedAsWritten([0x34, 0x03, 0x00, 0xF1]) == [0x34, 0x03, 0x00, 0xF1]
  {
    assert [0x00][1..] == [] && [0x7E][1..] == [];
    assert [0x34, 0x03, 0x00, 0xF1][1..] == [0x03, 0x00, 0xF1];
    assert [0x03, 0x00, 0xF1][1..] == [0x00, 0xF1];
    assert [0x00, 0xF1][1..] == [0xF1];
    assert [0xF1][1..] == [];
  }

  /**
   * The third stuffing vector expects 7D 5E 7D 5D 7D 31 7D 33 (the protocol's
   * stuffing, which the model reproduces); the source as written writes only
   * 7D 5E and returns index 2 instead of 8.
   */
  lemma StuffDataReservedVector()
    ensures Stuffed([0x7E, 0x7D, 0x11, 0x13]) == [0x7D, 0x5E, 0x7D, 0x5D, 0x7D, 0x31, 0x7D, 0x33]
    ensures StuffedAsWritten([0x7E, 0x7D, 0x11, 0x13]) == [0x7D, 0x5E]
  {
    assert [0x7E, 0x7D, 0x11, 0x13][1..] == [0x7D, 0x11, 0x13];
    assert [0x7D, 0x11, 0x13][1..] == [0x11, 0x13];
    assert [0x11, 0x13][1..] == [0x13];
    assert [0x13][1..] == [];
  }

  // ---------------------------------------------------------------------------
  // Destuffing one byte (sps30_test.go:263-266)
  // ---------------------------------------------------------------------------

  /** Both escape cases, the plain case, and a non-escape byte followed by an escape code. */
  lemma UnstuffByteVectors()
    ensures DestuffAt([0x7D, 0x31, 0x03, 0x05], 0) == Destuffed(0x11, 2)
    ensures DestuffAt([0x7D, 0x31, 0x03, 0x05], 2) == Destuffed(0x03, 3)
    ensures DestuffAt([0x7D, 0x31, 0x7D, 0x33], 2) == Destuffed(0x13, 4)
    ensures DestuffAt([0xFF, 0x31, 0x03, 0x05], 0) == Destuffed(0xFF, 1)
  {
  }

  // ---------------------------------------------------------------------------
  // Received frames (sps30_test.go:181-183)
  // ---------------------------------------------------------------------------
  // The test transport reports the whole 522-byte buffer as read, so each
  // frame is followed by arbitrary bytes up to that length.

  /** The empty read-measurement response: header 00 00 00 00, checksum FF. */
  lemma RxEmptyVector(rest: seq<byte>)
    requires |rest| == MaxRxFrameSize - 7
    ensures var rx := [0x7E, 0x00, 0x00, 0x00, 0x00, 0xFF, 0x7E] + rest;
      Receive(rx, MaxRxFrameSize, 0, []) == Reception(Success(RxHeader(0x00, 0x00, 0x00, 0x00)), [])
  {
    EmptyFrame();
    ReceiveFrameThenRest(RxHeader(0x00, 0x00, 0x00, 0x00), [], rest, 0, []);
  }

  /** The empty response frame, byte by byte. */
  lemma EmptyFrame()
    ensures ResponseFrame(RxHeader(0x00, 0x00, 0x00, 0x00), [])
      == [0x7E, 0x00, 0x00, 0x00, 0x00, 0xFF, 0x7E]
  {
    StuffedPlain([0x00, 0x00, 0x00, 0x00]);
    assert [0x00, 0x00, 0x00, 0x00] + [] == [0x00, 0x00, 0x00, 0x00];
    ResponseFrameIs(RxHeader(0x00, 0x00, 0x00, 0x00), [], [0x00, 0x00, 0x00, 0x00], 0xFF);
  }

  /** The version response with one stuffed payload byte (7D 31 for 0x11). */
  lemma RxStuffedVersionVector(rest: seq<byte>)
    requires |rest| == MaxRxFrameSize - 15
    ensures var rx := [0x7E, 0x00, 0xD1, 0x00, 0x07, 0x02, 0x7D, 0x31, 0x00, 0x07, 0x00, 0x02, 0x00, 0x0B, 0x7E] + rest;
      Receive(rx, MaxRxFrameSize, 7, [0, 0, 0, 0, 0, 0, 0])
        == Reception(Success(RxHeader(0x00, 0xD1, 0x00, 0x07)), [0x02, 0x11, 0x00, 0x07, 0x00, 0x02, 0x00])
  {
    var h := RxHeader(0x00, 0xD1, 0x00, 0x07);
    var p: seq<byte> := [0x02, 0x11, 0x00, 0x07, 0x00, 0x02, 0x00];
    var zeros: seq<byte> := [0, 0, 0, 0, 0, 0, 0];
    StuffedVersionFrame();
    ReceiveFrameThenRest(h, p, rest, 7, zeros);
    assert p + zeros[|p|..] == p;
  }

  /** The version response whose payload holds 0x11, byte by byte. */
  lemma StuffedVersionFrame()
    ensures ResponseFrame(RxHeader(0x00, 0xD1, 0x00, 0x07), [0x02, 0x11, 0x00, 0x07, 0x00, 0x02, 0x00])
      == [0x7E, 0x00, 0xD1, 0x00, 0x07, 0x02, 0x7D, 0x31, 0x00, 0x07, 0x00, 0x02, 0x00, 0x0B, 0x7E]
  {
    StuffedVersionStuffing();
    StuffedVersionChecksum();
    ResponseFrameIs(RxHeader(0x00, 0xD1, 0x00, 0x07), [0x02, 0x11, 0x00, 0x07, 0x00, 0x02, 0x00], [0x00, 0xD1, 0x00, 0x07, 0x02, 0x7D, 0x31, 0x00, 0x07, 0x00, 0x02, 0x00], 0x0B);
  }

  /** Only the payload byte 0x11 is escaped, as 7D 31. */
  lemma StuffedVersionStuffing()
    ensures Stuffed([0x00, 0xD1, 0x00, 0x07] + [0x02, 0x11, 0x00, 0x07, 0x00, 0x02, 0x00])
      == [0x00, 0xD1, 0x00, 0x07, 0x02, 0x7D, 0x31, 0x00, 0x07, 0x00, 0x02, 0x00]
  {
    var front: seq<byte>, back: seq<byte> := [0x00, 0xD1, 0x00, 0x07, 0x02], [0x00, 0x07, 0x00, 0x02, 0x00];
    StuffedAroundOne(front, 0x11, back);
    assert [0x00, 0xD1, 0x00, 0x07] + [0x02, 0x11, 0x00, 0x07, 0x00, 0x02, 0x00] == front + [0x11] + back;
  }

  /** Checksum 0B: the complement of (0xD1 + 7 + 0x1C) mod 256. */
  lemma StuffedVersionChecksum()
    ensures ResponseCrc(RxHeader(0x00, 0xD1, 0x00, 0x07), [0x02, 0x11, 0x00, 0x07, 0x00, 0x02, 0x00]) == 0x0B
  {
    var p: seq<byte> := [0x02, 0x11, 0x00, 0x07, 0x00, 0x02, 0x00];
    assert p[..7] == p;
    SumOfSeven(p);
  }

  /** The device-status response: five zero payload bytes, checksum 28. */
  lemma RxStatusVector(rest: seq<byte>)
    requires |rest| == MaxRxFrameSize - 12
    ensures var rx := [0x7E, 0x00, 0xD2, 0x00, 0x05, 0x00, 0x00, 0x00, 0x00, 0x00, 0x28, 0x7E] + rest;
      Receive(rx, MaxRxFrameSize, 5, [0, 0, 0, 0, 0])
        == Reception(Success(RxHeader(0x00, 0xD2, 0x00, 0x05)), [0x00, 0x00, 0x00, 0x00, 0x00])
  {
    var h := RxHeader(0x00, 0xD2, 0x00, 0x05);
    var p: seq<byte> := [0x00, 0x00, 0x00, 0x00, 0x00];
    StatusFrame();
    ReceiveFrameThenRest(h, p, rest, 5, p);
    assert p + p[|p|..] == p;
  }

  /** The device-status response, byte by byte. */
  lemma StatusFrame()
    ensures ResponseFrame(RxHeader(0x00, 0xD2, 0x00, 0x05), [0x00, 0x00, 0x00, 0x00, 0x00])
      == [0x7E, 0x00, 0xD2, 0x00, 0x05, 0x00, 0x00, 0x00, 0x00, 0x00, 0x28, 0x7E]
  {
    StatusStuffing();
    StatusChecksum();
    ResponseFrameIs(RxHeader(0x00, 0xD2, 0x00, 0x05), [0x00, 0x00, 0x00, 0x00, 0x00], [0x00, 0xD2, 0x00, 0x05, 0x00, 0x00, 0x00, 0x00, 0x00], 0x28);
  }

  /** No byte of the status header or payload is reserved. */
  lemma StatusStuffing()
    ensures Stuffed([0x00, 0xD2, 0x00, 0x05] + [0x00, 0x00, 0x00, 0x00, 0x00])
      == [0x00, 0xD2, 0x00, 0x05, 0x00, 0x00, 0x00, 0x00, 0x00]
  {
    var s: seq<byte> := [0x00, 0xD2, 0x00, 0x05, 0x00, 0x00, 0x00, 0x00, 0x00];
    assert [0x00, 0xD2, 0x00, 0x05] + [0x00, 0x00, 0x00, 0x00, 0x00] == s;
    StuffedPlain(s);
  }

  /** Checksum 28: the complement of (0xD2 + 5) mod 256. */
  lemma StatusChecksum()
    ensures ResponseCrc(RxHeader(0x00, 0xD2, 0x00, 0x05), [0x00, 0x00, 0x00, 0x00, 0x00]) == 0x28
  {
    var p: seq<byte> := [0x00, 0x00, 0x00, 0x00, 0x00];
    assert p[..5] == p;
    SumOfZeros(p);
  }

  /**
   * A version response whose checksum is 0x11 (firmware 2.11), sent with the
   * checksum stuffed as 7D 31: the source's decoder refuses it as a checksum
   * mismatch, the intended decoder accepts it.
   */
  lemma RxStuffedChecksumVector(rest: seq<byte>)
    requires |rest| == MaxRxFrameSize - 15
    ensures var rx := [0x7E, 0x00, 0xD1, 0x00, 0x07, 0x02, 0x0B, 0x00, 0x07, 0x00, 0x02, 0x00, 0x7D, 0x31, 0x7E] + rest;
      Receive(rx, MaxRxFrameSize, 7, [0, 0, 0, 0, 0, 0, 0]).result == Failure(ChecksumMismatch)
      && ReceiveEncoded(rx, MaxRxFrameSize, 7, [0, 0, 0, 0, 0, 0, 0])
           == Reception(Success(RxHeader(0x00, 0xD1, 0x00, 0x07)), [0x02, 0x0B, 0x00, 0x07, 0x00, 0x02, 0x00])
  {
    var h := RxHeader(0x00, 0xD1, 0x00, 0x07);
    var p: seq<byte> := [0x02, 0x0B, 0x00, 0x07, 0x00, 0x02, 0x00];
    var zeros: seq<byte> := [0, 0, 0, 0, 0, 0, 0];
    StuffedChecksum();
    StuffedChecksumFrame();
    var f := EncodedResponseFrame(h, p);
    assert (f + rest)[..|f|] == f;
    ReceiveRejectsStuffedChecksum(f + rest, MaxRxFrameSize, zeros, h, p);
    ReceiveEncodedAccepts(f + rest, MaxRxFrameSize, zeros, h, p);
    assert p + zeros[|p|..] == p;
  }

  /** The version response with checksum 0x11, stuffed as the protocol intends, byte by byte. */
  lemma StuffedChecksumFrame()
    ensures EncodedResponseFrame(RxHeader(0x00, 0xD1, 0x00, 0x07), [0x02, 0x0B, 0x00, 0x07, 0x00, 0x02, 0x00])
      == [0x7E, 0x00, 0xD1, 0x00, 0x07, 0x02, 0x0B, 0x00, 0x07, 0x00, 0x02, 0x00, 0x7D, 0x31, 0x7E]
  {
    StuffedChecksumStuffing();
    StuffedChecksum();
    EncodedResponseFrameIs(RxHeader(0x00, 0xD1, 0x00, 0x07), [0x02, 0x0B, 0x00, 0x07, 0x00, 0x02, 0x00], [0x00, 0xD1, 0x00, 0x07, 0x02, 0x0B, 0x00, 0x07, 0x00, 0x02, 0x00], 0x11);
    assert StuffByte(0x11) == [0x7D, 0x31];
  }

  /** No byte of this version header or payload is reserved. */
  lemma StuffedChecksumStuffing()
    ensures Stuffed([0x00, 0xD1, 0x00, 0x07] + [0x02, 0x0B, 0x00, 0x07, 0x00, 0x02, 0x00])
      == [0x00, 0xD1, 0x00, 0x07, 0x02, 0x0B, 0x00, 0x07, 0x00, 0x02, 0x00]
  {
    var s: seq<byte> := [0x00, 0xD1, 0x00, 0x07, 0x02, 0x0B, 0x00, 0x07, 0x00, 0x02, 0x00];
    assert [0x00, 0xD1, 0x00, 0x07] + [0x02, 0x0B, 0x00, 0x07, 0x00, 0x02, 0x00] == s;
    StuffedPlain(s);
  }

  /** Checksum 11: the complement of (0xD1 + 7 + 0x16) mod 256. */
  lemma StuffedChecksum()
    ensures ResponseCrc(RxHeader(0x00, 0xD1, 0x00, 0x07), [0x02, 0x0B, 0x00, 0x07, 0x00, 0x02, 0x00]) == 0x11
  {
    var p: seq<byte> := [0x02, 0x0B, 0x00, 0x07, 0x00, 0x02, 0x00];
    assert p[..7] == p;
    SumOfSeven(p);
  }

  /**
   * A version response too short by its declared length, in a full 522-byte
   * read padded with zeros: the payload loop runs on to seven bytes, through
   * the stop marker, so the byte it takes for the checksum is a padding zero
   * and the response is refused as a checksum mismatch before its length is
   * looked at.
   */
  lemma ShortVersionReplyReadsPastStop(rest: seq<byte>)
    requires |rest| == MaxRxFrameSize - 7
    requires forall i :: 0 <= i < |rest| ==> rest[i] == 0
    ensures VersionResponse(true, Read([0x7E, 0x00, 0xD1, 0x43, 0x00, 0xEB, 0x7E] + rest, MaxRxFrameSize))
      == Failure(ChecksumMismatch)
  {
    var rx := [0x7E, 0x00, 0xD1, 0x43, 0x00, 0xEB, 0x7E] + rest;
    var zeros: seq<byte> := seq(VersionLength, _ => 0);
    var h := RxHeader(0x00, 0xD1, 0x43, 0x00);
    assert forall i :: 7 <= i < 12 ==> rx[i] == rest[i - 7] == 0;
    PayloadLoopCopiesPlain(rx, 5, MaxRxFrameSize - 2, [], 7);
    var run := Run(rx[5..12], 12);
    assert PayloadLoop(rx, 5, MaxRxFrameSize - 2, [], 7) == run;
    ReceiveDecoded(rx, MaxRxFrameSize, 7, zeros, h, 2, 3, 4, 5, run);
    var data := run.values + zeros[|run.values|..];
    assert data[..0] == [];
    assert Crc(AddBytes(AddBytes(0x00, 0xD1), 0x43), 0, data) == 0xEB;
    assert rx[12] == 0;
  }

  // ---------------------------------------------------------------------------
  // Commands (sps30_test.go:77, 95, 114)
  // ---------------------------------------------------------------------------

  /** Wakeup accepts the response 7E 00 7D 31 43 00 AB 7E although its status is 0x43. */
  lemma WakeupVector(rest: seq<byte>)
    requires |rest| == MaxRxFrameSize - 8
    ensures Acknowledge(true, Read([0x7E, 0x00, 0x7D, 0x31, 0x43, 0x00, 0xAB, 0x7E] + rest, MaxRxFrameSize)) == None
  {
    var h := RxHeader(0x00, 0x11, 0x43, 0x00);
    WakeupFrame();
    var frame := ResponseFrame(h, []);
    assert (frame + rest)[..|frame|] == frame;
    AcknowledgeIgnoresStatus(frame + rest, MaxRxFrameSize, h);
  }

  /** The wake-up response: the command byte 0x11 travels escaped, and the status 0x43 is in the checksum. */
  lemma WakeupFrame()
    ensures ResponseFrame(RxHeader(0x00, 0x11, 0x43, 0x00), [])
      == [0x7E, 0x00, 0x7D, 0x31, 0x43, 0x00, 0xAB, 0x7E]
  {
    StuffedAroundOne([0x00], 0x11, [0x43, 0x00]);
    assert [0x00, 0x11, 0x43, 0x00] + [] == [0x00] + [0x11] + [0x43, 0x00];
    ResponseFrameIs(RxHeader(0x00, 0x11, 0x43, 0x00), [], [0x00, 0x7D, 0x31, 0x43, 0x00], 0xAB);
  }

  /** StartMeasurement accepts the response 7E 00 00 43 00 BC 7E although its status is 0x43. */
  lemma StartMeasurementVector(rest: seq<byte>)
    requires |rest| == MaxRxFrameSize - 7
    ensures Acknowledge(true, Read([0x7E, 0x00, 0x00, 0x43, 0x00, 0xBC, 0x7E] + rest, MaxRxFrameSize)) == None
  {
    var h := RxHeader(0x00, 0x00, 0x43, 0x00);
    StartMeasurementFrame();
    var frame := ResponseFrame(h, []);
    assert (frame + rest)[..|frame|] == frame;
    AcknowledgeIgnoresStatus(frame + rest, MaxRxFrameSize, h);
  }

  /** The start-measurement response, byte by byte. */
  lemma StartMeasurementFrame()
    ensures ResponseFrame(RxHeader(0x00, 0x00, 0x43, 0x00), [])
      == [0x7E, 0x00, 0x00, 0x43, 0x00, 0xBC, 0x7E]
  {
    StuffedPlain([0x00, 0x00, 0x43, 0x00]);
    assert [0x00, 0x00, 0x43, 0x00] + [] == [0x00, 0x00, 0x43, 0x00];
    ResponseFrameIs(RxHeader(0x00, 0x00, 0x43, 0x00), [], [0x00, 0x00, 0x43, 0x00], 0xBC);
  }

  /** ReadVersion decodes firmware 2.3, hardware 7, SHDLC 2.0 from its test response. */
  lemma ReadVersionVector(rest: seq<byte>)
    requires |rest| == MaxRxFrameSize - 14
    ensures VersionResponse(true, Read([0x7E, 0x00, 0xD1, 0x00, 0x07, 0x02, 0x03, 0x00, 0x07, 0x00, 0x02, 0x00, 0x19, 0x7E] + rest, MaxRxFrameSize))
      == Success(Version(2, 3, 7, 2, 0))
  {
    var h := RxHeader(0x00, 0xD1, 0x00, 0x07);
    var p: seq<byte> := [0x02, 0x03, 0x00, 0x07, 0x00, 0x02, 0x00];
    VersionFrame();
    var frame := ResponseFrame(h, p);
    assert (frame + rest)[..|frame|] == frame;
    ReadVersionAccepts(frame + rest, MaxRxFrameSize, h, p);
  }

  /** The version response, byte by byte. */
  lemma VersionFrame()
    ensures ResponseFrame(RxHeader(0x00, 0xD1, 0x00, 0x07), [0x02, 0x03, 0x00, 0x07, 0x00, 0x02, 0x00])
      == [0x7E, 0x00, 0xD1, 0x00, 0x07, 0x02, 0x03, 0x00, 0x07, 0x00, 0x02, 0x00, 0x19, 0x7E]
  {
    VersionStuffing();
    VersionChecksum();
    ResponseFrameIs(RxHeader(0x00, 0xD1, 0x00, 0x07), [0x02, 0x03, 0x00, 0x07, 0x00, 0x02, 0x00], [0x00, 0xD1, 0x00, 0x07, 0x02, 0x03, 0x00, 0x07, 0x00, 0x02, 0x00], 0x19);
  }

  /** No byte of the version header or payload is reserved. */
  lemma VersionStuffing()
    ensures Stuffed([0x00, 0xD1, 0x00, 0x07] + [0x02, 0x03, 0x00, 0x07, 0x00, 0x02, 0x00])
      == [0x00, 0xD1, 0x00, 0x07, 0x02, 0x03, 0x00, 0x07, 0x00, 0x02, 0x00]
  {
    var s: seq<byte> := [0x00, 0xD1, 0x00, 0x07, 0x02, 0x03, 0x00, 0x07, 0x00, 0x02, 0x00];
    assert [0x00, 0xD1, 0x00, 0x07] + [0x02, 0x03, 0x00, 0x07, 0x00, 0x02, 0x00] == s;
    StuffedPlain(s);
  }

  /** Checksum 19: the complement of (0xD1 + 7 + 0x0E) mod 256. */
  lemma VersionChecksum()
    ensures ResponseCrc(RxHeader(0x00, 0xD1, 0x00, 0x07), [0x02, 0x03, 0x00, 0x07, 0x00, 0x02, 0x00]) == 0x19
  {
    var p: seq<byte> := [0x02, 0x03, 0x00, 0x07, 0x00, 0x02, 0x00];
    assert p[..7] == p;
    SumOfSeven(p);
  }

  // ---------------------------------------------------------------------------
  // Read measurement (sps30_test.go:132)
  // ---------------------------------------------------------------------------

  /** The ten payload words of the read-measurement test response, four bytes each. */
  const M0: seq<byte> := [0x3D, 0x20, 0x01, 0xE3]
  const M1: seq<byte> := [0x3D, 0x5A, 0xDE, 0xCF]
  const M2: seq<byte> := [0x3D, 0x81, 0xCC, 0x53]
  const M3: seq<byte> := [0x3D, 0x8C, 0x48, 0xAE]
  const M4: seq<byte> := [0x3E, 0x73, 0x39, 0x7E]
  const M5: seq<byte> := [0x3E, 0x97, 0xB9, 0x03]
  const M6: seq<byte> := [0x3E, 0x9E, 0x8B, 0x9F]
  const M7: seq<byte> := [0x3E, 0x9F, 0xF1, 0x71]
  const M8: seq<byte> := [0x3E, 0xA0, 0x4E, 0x18]
  const M9: seq<byte> := [0x3F, 0x36, 0x50, 0x12]

  const MeasurementPayload: seq<byte> := M0 + M1 + M2 + M3 + M4 + M5 + M6 + M7 + M8 + M9

  /**
   * The read-measurement test response (header 00 03 00 28) carries checksum
   * 5A: its payload bytes add up to 4218, and 0x5A is the complement of
   * (3 + 40 + 4218) mod 256.
   */
  lemma MeasurementChecksum()
    ensures |MeasurementPayload| == 40
    ensures ResponseCrc(RxHeader(0x00, 0x03, 0x00, 0x28), MeasurementPayload) == 0x5A
  {
    var p := MeasurementPayload;
    assert p[..40] == p;
    SumOfFour(M0); SumOfFour(M1); SumOfFour(M2); SumOfFour(M3); SumOfFour(M4);
    SumOfFour(M5); SumOfFour(M6); SumOfFour(M7); SumOfFour(M8); SumOfFour(M9);
    SumAppend(M0, M1);
    SumAppend(M0 + M1, M2);
    SumAppend(M0 + M1 + M2, M3);
    SumAppend(M0 + M1 + M2 + M3, M4);
    SumAppend(M0 + M1 + M2 + M3 + M4, M5);
    SumAppend(M0 + M1 + M2 + M3 + M4 + M5, M6);
    SumAppend(M0 + M1 + M2 + M3 + M4 + M5 + M6, M7);
    SumAppend(M0 + M1 + M2 + M3 + M4 + M5 + M6 + M7, M8);
    SumAppend(M0 + M1 + M2 + M3 + M4 + M5 + M6 + M7 + M8, M9);
    assert Sum(p) == 4218;
  }

  /** ReadMeasurement decodes the test payload into its ten big-endian words. */
  lemma MeasurementWords()
    ensures |MeasurementPayload| == 40
    ensures DecodeSample(MeasurementPayload)
      == Sample(0x3D20_01E3, 0x3D5A_DECF, 0x3D81_CC53, 0x3D8C_48AE, 0x3E73_397E,
                0x3E97_B903, 0x3E9E_8B9F, 0x3E9F_F171, 0x3EA0_4E18, 0x3F36_5012)
  {
    var p := MeasurementPayload;
    assert p[0..4] == M0 && p[4..8] == M1 && p[8..12] == M2 && p[12..16] == M3 && p[16..20] == M4;
    assert p[20..24] == M5 && p[24..28] == M6 && p[28..32] == M7 && p[32..36] == M8 && p[36..40] == M9;
  }

  // ---------------------------------------------------------------------------
  // Helpers for the vectors
  // ---------------------------------------------------------------------------

  /** A response frame assembled from its stuffed header and payload and its checksum. */
  lemma ResponseFrameIs(h: RxHeader, p: seq<byte>, stuffed: seq<byte>, crc: byte)
    requires |p| == h.dataLen
    requires Stuffed([h.addr, h.cmd, h.state, h.dataLen] + p) == stuffed
    requires ResponseCrc(h, p) == crc
    ensures ResponseFrame(h, p) == [Start] + stuffed + [crc, Stop]
  {
  }

  /** A response stuffed throughout, assembled from its stuffed header and payload and its checksum. */
  lemma EncodedResponseFrameIs(h: RxHeader, p: seq<byte>, stuffed: seq<byte>, crc: byte)
    requires |p| == h.dataLen
    requires Stuffed([h.addr, h.cmd, h.state, h.dataLen] + p) == stuffed
    requires ResponseCrc(h, p) == crc
    ensures EncodedResponseFrame(h, p) == [Start] + stuffed + StuffByte(crc) + [Stop]
  {
  }

  /** A full 522-byte read holding a well-formed response and then arbitrary bytes decodes to that response. */
  lemma ReceiveFrameThenRest(h: RxHeader, p: seq<byte>, rest: seq<byte>, maxDataLen: int, buffer: seq<byte>)
    requires |p| == h.dataLen
    requires |ResponseFrame(h, p)| + |rest| == MaxRxFrameSize
    requires maxDataLen == |p| <= |buffer|
    ensures Receive(ResponseFrame(h, p) + rest, MaxRxFrameSize, maxDataLen, buffer) == Reception(Success(h), p + buffer[|p|..])
  {
    var frame := ResponseFrame(h, p);
    assert (frame + rest)[..|frame|] == frame;
    ReceiveResponseFrame(frame + rest, MaxRxFrameSize, maxDataLen, buffer, h, p);
  }

  /** One reserved byte between two runs of plain bytes is the only byte stuffing changes. */
  lemma StuffedAroundOne(front: seq<byte>, x: byte, back: seq<byte>)
    requires forall i :: 0 <= i < |front| ==> !IsReserved(front[i])
    requires forall i :: 0 <= i < |back| ==> !IsReserved(back[i])
    ensures Stuffed(front + [x] + back) == front + StuffByte(x) + back
  {
    assert Stuffed([x]) == StuffByte(x) by { assert [x][1..] == []; }
    StuffedPlain(front);
    StuffedPlain(back);
    StuffedAppend(front + [x], back);
    StuffedAppend(front, [x]);
  }

  /** The sum of four bytes. */
  lemma SumOfFour(q: seq<byte>)
    requires |q| == 4
    ensures Sum(q) == q[0] as int + q[1] + q[2] + q[3]
  {
    assert q[..4] == q && q[..4][..3] == q[..3];
    assert q[..3][..2] == q[..2] && q[..2][..1] == q[..1] && q[..1][..0] == [];
    assert Sum(q[..1]) == q[0];
    assert Sum(q[..2]) == q[0] as int + q[1];
    assert Sum(q[..3]) == q[0] as int + q[1] + q[2];
  }

  /** The sum of a seven-byte payload, byte by byte. */
  lemma SumOfSeven(p: seq<byte>)
    requires |p| == 7
    ensures Sum(p) == p[0] as int + p[1] + p[2] + p[3] + p[4] + p[5] + p[6]
  {
    assert p[..6][..5] == p[..5] && p[..5][..4] == p[..4] && p[..4][..3] == p[..3];
    assert p[..3][..2] == p[..2] && p[..2][..1] == p[..1] && p[..1][..0] == [];
    assert Sum(p[..1]) == p[0];
    assert Sum(p[..2]) == p[0] as int + p[1];
    assert Sum(p[..3]) == p[0] as int + p[1] + p[2];
    assert Sum(p[..4]) == p[0] as int + p[1] + p[2] + p[3];
    assert Sum(p[..5]) == p[0] as int + p[1] + p[2] + p[3] + p[4];
    assert Sum(p[..6]) == p[0] as int + p[1] + p[2] + p[3] + p[4] + p[5];
  }

  /** A payload of zero bytes sums to zero. */
  lemma {:induction false} SumOfZeros(p: seq<byte>)
    requires forall i :: 0 <= i < |p| ==> p[i] == 0
    ensures Sum(p) == 0
  {
    if p != [] {
      assert forall i :: 0 <= i < |p| - 1 ==> p[..|p| - 1][i] == p[i];
      SumOfZeros(p[..|p| - 1]);
    }
  }

  /** A sequence with no reserved byte is its own stuffing. */
  lemma {:induction false} StuffedPlain(s: seq<byte>)
    requires forall i :: 0 <= i < |s| ==> !IsReserved(s[i])
    ensures Stuffed(s) == s
  {
    if s != [] {
      assert forall i :: 0 <= i < |s[1..]| ==> s[1..][i] == s[i + 1];
      StuffedPlain(s[1..]);
    }
  }
}
