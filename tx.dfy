/** Frame assembly on the transmit side (sps30.go, shdlcTx). */
module FrameTx {
  import opened Wire
  import opened Checksum
  import opened Stuffing

  /**
   * The frame the source transmits: a start marker, the source's stuffing of
   * addr, cmd, dataLen and the first dataLen payload bytes, the checksum of
   * (addr + cmd, dataLen, data) as a raw byte, and a stop marker.
   */
  function TxFrame(addr: byte, cmd: byte, dataLen: byte, data: seq<byte>): (f: seq<byte>)
    requires dataLen <= |data|
    ensures 3 <= |f| <= 9 + 2 * dataLen
    ensures f[0] == Start && f[|f| - 1] == Stop
    ensures f[|f| - 2] == Crc(AddBytes(addr, cmd), dataLen, data)
  {
    [Start] + StuffedAsWritten([addr, cmd, dataLen] + data[..dataLen])
      + [Crc(AddBytes(addr, cmd), dataLen, data), Stop]
  }

  /** Every frame the source can build fits the 520-byte transmit array. */
  lemma TxFrameFits(addr: byte, cmd: byte, dataLen: byte, data: seq<byte>)
    requires dataLen <= |data|
    ensures |TxFrame(addr, cmd, dataLen, data)| <= 519 < MaxTxFrameSize
  {
  }

  /**
   * shdlcTx: builds the frame in a fixed 520-byte array, advancing a running
   * length, and hands its first len bytes to the transport. The source reads
   * data[0..dataLen) and so needs that many payload bytes.
   */
  method ShdlcTx(addr: byte, cmd: byte, dataLen: byte, data: seq<byte>, writeOk: bool)
    returns (frame: seq<byte>, err: Option<Error>)
    requires dataLen <= |data|
    ensures frame == TxFrame(addr, cmd, dataLen, data)
    ensures err == None <==> writeOk
    ensures err != None ==> err == Some(TransmitFailed)
  {
    var txFrame := new byte[MaxTxFrameSize](_ => 0);
    var len := 0;

    var crc := ShdlcCrc(AddBytes(addr, cmd), dataLen, data);

    txFrame[len] := Start;
    len := len + 1;

    TxFrameFieldByField(addr, cmd, dataLen, data);
    ghost var a, c, n := StuffedAsWritten([addr][..1]), StuffedAsWritten([cmd][..1]), StuffedAsWritten([dataLen][..1]);
    assert txFrame[..len] == [Start];
    len := StuffData(1, [addr], txFrame, len);
    assert txFrame[..len] == [Start] + a;
    len := StuffData(1, [cmd], txFrame, len);
    assert txFrame[..len] == [Start] + a + c;
    len := StuffData(1, [dataLen], txFrame, len);
    assert txFrame[..len] == [Start] + a + c + n;
    len := StuffData(dataLen as int, data, txFrame, len);
    ghost var body := [Start] + a + c + n + StuffedAsWritten(data[..dataLen]);
    assert txFrame[..len] == body;

    TakeUpdate(txFrame[..], len, crc);
    txFrame[len] := crc;
    len := len + 1;
    assert txFrame[..len] == body + [crc];

    TakeUpdate(txFrame[..], len, Stop);
    txFrame[len] := Stop;
    len := len + 1;
    assert txFrame[..len] == body + [crc] + [Stop];

    frame := txFrame[..len];
    if writeOk {
      err := None;
    } else {
      err := Some(TransmitFailed);
    }
  }

  /** Stuffing the header fields one call at a time, then appending checksum and stop marker, gives the frame. */
  lemma TxFrameFieldByField(addr: byte, cmd: byte, dataLen: byte, data: seq<byte>)
    requires dataLen <= |data|
    ensures TxFrame(addr, cmd, dataLen, data)
      == [Start] + StuffedAsWritten([addr][..1]) + StuffedAsWritten([cmd][..1])
         + StuffedAsWritten([dataLen][..1]) + StuffedAsWritten(data[..dataLen])
         + [Crc(AddBytes(addr, cmd), dataLen, data)] + [Stop]
  {
    assert [addr][..1] == [addr] && [cmd][..1] == [cmd] && [dataLen][..1] == [dataLen];
    assert [addr, cmd, dataLen] + data[..dataLen] == [addr] + ([cmd] + ([dataLen] + data[..dataLen]));
    StuffedAsWrittenAppend([addr], [cmd] + ([dataLen] + data[..dataLen]));
    StuffedAsWrittenAppend([cmd], [dataLen] + data[..dataLen]);
    StuffedAsWrittenAppend([dataLen], data[..dataLen]);
    var a, c, n, d := StuffedAsWritten([addr]), StuffedAsWritten([cmd]), StuffedAsWritten([dataLen]), StuffedAsWritten(data[..dataLen]);
    assert StuffedAsWritten([addr, cmd, dataLen] + data[..dataLen]) == a + (c + (n + d));
    assert c + (n + d) == c + n + d;
    assert a + (c + n + d) == a + (c + n) + d;
    assert a + (c + n) == a + c + n;
    assert [Start] + (a + c + n + d) == [Start] + (a + c + n) + d;
    assert [Start] + (a + c + n) == [Start] + (a + c) + n;
    assert [Start] + (a + c) == [Start] + a + c;
    var crc := Crc(AddBytes(addr, cmd), dataLen, data);
    var body := [Start] + a + c + n + d;
    assert body + [crc, Stop] == body + [crc] + [Stop];
  }

  // ---------------------------------------------------------------------------
  // The checksum is sent raw
  // ---------------------------------------------------------------------------

  /**
   * The source never stuffs the checksum byte. When the checksum is 0x7E the
   * frame carries a byte equal to the stop marker before its end: for address
   * 0, command 0x81 and no payload the frame is 7E 00 81 00 7E 7E.
   */
  lemma TxChecksumCanMimicStopMarker()
    ensures TxFrame(0, 0x81, 0, []) == [Start, 0x00, 0x81, 0x00, 0x7E, Stop]
  {
    assert [0, 0x81, 0] + [] == [0, 0x81, 0];
    assert StuffedAsWritten([0, 0x81, 0]) == [0, 0x81, 0] by {
      assert [0, 0x81, 0][1..] == [0x81, 0];
      assert [0x81, 0][1..] == [0];
      assert [0][1..] == [];
    }
  }

  /**
   * The intended transmit frame: everything between the two markers, the
   * checksum included, stuffed by the protocol's escaping.
   */
  function EncodedFrame(addr: byte, cmd: byte, data: seq<byte>): (f: seq<byte>)
    requires |data| <= 255
  {
    [Start] + Stuffed([addr, cmd, |data|] + data + [Crc(AddBytes(addr, cmd), |data|, data)]) + [Stop]
  }

  /** In the intended frame 0x7E occurs only as the first and the last byte. */
  lemma EncodedFrameMarkersOnlyAtEnds(addr: byte, cmd: byte, data: seq<byte>)
    requires |data| <= 255
    ensures var f := EncodedFrame(addr, cmd, data);
      f[0] == Start && f[|f| - 1] == Stop &&
      forall j :: 0 < j < |f| - 1 ==> f[j] != Start
  {
    var body := Stuffed([addr, cmd, |data|] + data + [Crc(AddBytes(addr, cmd), |data|, data)]);
    var f := EncodedFrame(addr, cmd, data);
    StuffedHasNoMarker([addr, cmd, |data|] + data + [Crc(AddBytes(addr, cmd), |data|, data)]);
    forall j | 0 < j < |f| - 1 ensures f[j] != Start {
      assert f[j] == body[j - 1];
    }
  }

  /**
   * The source's frame equals the intended one whenever no header or payload
   * byte is 0x11, 0x13 or 0x7D and the checksum is not reserved.
   */
  lemma TxFrameMatchesEncoded(addr: byte, cmd: byte, dataLen: byte, data: seq<byte>)
    requires dataLen == |data|
    requires forall i :: 0 <= i < |[addr, cmd, dataLen] + data| ==> !IsDropped(([addr, cmd, dataLen] + data)[i])
    requires !IsReserved(Crc(AddBytes(addr, cmd), dataLen, data))
    ensures TxFrame(addr, cmd, dataLen, data) == EncodedFrame(addr, cmd, data)
  {
    var s := [addr, cmd, dataLen] + data;
    var crc := Crc(AddBytes(addr, cmd), dataLen, data);
    assert data[..dataLen] == data;
    StuffedAsWrittenAgreesIffNoDropped(s);
    StuffedAppend(s, [crc]);
    assert Stuffed([crc]) == [crc];
  }
}
