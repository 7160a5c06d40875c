/**
 * Byte stuffing and destuffing (sps30.go, stuffData and unstuffByte).
 *
 * The escape scheme is the control escape of section 4.2 of RFC 1662: a
 * reserved byte b is sent as 0x7D followed by b XOR 0x20. SHDLC reserves
 * 0x11, 0x13, 0x7D and 0x7E. `Stuffed` is that intended encoding;
 * `StuffedAsWritten` is what the source's stuffing loop emits.
 */
module Stuffing {
  import opened Wire

  /** The four byte values SHDLC must escape. */
  predicate IsReserved(b: byte)
  {
    b == 0x11 || b == 0x13 || b == Escape || b == Start
  }

  /** The three reserved bytes whose cases in the source's switch have empty bodies. */
  predicate IsDropped(b: byte)
  {
    b == 0x11 || b == 0x13 || b == Escape
  }

  // ---------------------------------------------------------------------------
  // Stuffing as the source does it
  // ---------------------------------------------------------------------------

  /**
   * What the source's stuffing switch emits for one byte. Go's switch cases do
   * not fall through, so 0x11, 0x13 and 0x7D emit nothing at all; only 0x7E is
   * escaped.
   */
  function StuffByteAsWritten(b: byte): seq<byte>
  {
    if IsDropped(b) then []
    else if b == Start then [Escape, 0x5E]
    else [b]
  }

  /** The bytes the source's stuffing loop writes for s. */
  function StuffedAsWritten(s: seq<byte>): (r: seq<byte>)
    ensures |r| <= 2 * |s|
  {
    if s == [] then [] else StuffByteAsWritten(s[0]) + StuffedAsWritten(s[1..])
  }

  lemma {:induction false} StuffedAsWrittenAppend(a: seq<byte>, b: seq<byte>)
    ensures StuffedAsWritten(a + b) == StuffedAsWritten(a) + StuffedAsWritten(b)
  {
    if a == [] {
      assert a + b == b;
    } else {
      assert (a + b)[0] == a[0];
      assert (a + b)[1..] == a[1..] + b;
      StuffedAsWrittenAppend(a[1..], b);
    }
  }

  /**
   * stuffData: writes the stuffing of data[0..dataLen) into the caller's
   * 520-byte array from position index on, and returns the position after
   * the last byte written. Every write must land inside the array.
   */
  method StuffData(dataLen: int, data: seq<byte>, stuffed: array<byte>, index: int) returns (next: int)
    requires stuffed.Length == MaxTxFrameSize
    requires 0 <= dataLen <= |data|
    requires 0 <= index && index + |StuffedAsWritten(data[..dataLen])| <= stuffed.Length
    modifies stuffed
    ensures next == index + |StuffedAsWritten(data[..dataLen])|
    ensures stuffed[..next] == old(stuffed[..index]) + StuffedAsWritten(data[..dataLen])
    ensures stuffed[next..] == old(stuffed[next..])
  {
    ghost var o := stuffed[..];
    next := index;
    for i := 0 to dataLen
      invariant next == index + |StuffedAsWritten(data[..i])| <= index + |StuffedAsWritten(data[..dataLen])|
      invariant stuffed[..] == o[..index] + StuffedAsWritten(data[..i]) + o[next..]
    {
      StuffStep(data, i, dataLen);
      var b := data[i];
      if b == 0x11 || b == 0x13 || b == Escape {
        // the source's empty case bodies: nothing is written
      } else if b == Start {
        WriteAt(o, index, next, StuffedAsWritten(data[..i]), Escape);
        stuffed[next] := Escape;
        WriteAt(o, index, next + 1, StuffedAsWritten(data[..i]) + [Escape], 0x5E);
        stuffed[next + 1] := 0x5E;
        next := next + 2;
      } else {
        WriteAt(o, index, next, StuffedAsWritten(data[..i]), b);
        stuffed[next] := b;
        next := next + 1;
      }
    }
    PrefixOfSplice(o[..index], StuffedAsWritten(data[..dataLen]), o[next..]);
  }

  /** One more input byte extends the source's stuffing by what the switch emits for it. */
  lemma StuffStep(data: seq<byte>, i: int, n: int)
    requires 0 <= i < n <= |data|
    ensures |StuffedAsWritten(data[..i + 1])| <= |StuffedAsWritten(data[..n])|
    ensures IsDropped(data[i]) ==> StuffedAsWritten(data[..i + 1]) == StuffedAsWritten(data[..i])
    ensures data[i] == Start ==> StuffedAsWritten(data[..i + 1]) == StuffedAsWritten(data[..i]) + [Escape] + [0x5E]
    ensures !IsReserved(data[i]) ==> StuffedAsWritten(data[..i + 1]) == StuffedAsWritten(data[..i]) + [data[i]]
  {
    var out := StuffedAsWritten(data[..i]);
    assert data[..i + 1] == data[..i] + [data[i]];
    StuffedAsWrittenAppend(data[..i], [data[i]]);
    assert data[..n] == data[..i + 1] + data[i + 1..n];
    StuffedAsWrittenAppend(data[..i + 1], data[i + 1..n]);
    if IsDropped(data[i]) {
      assert out + [] == out;
    } else if data[i] == Start {
      assert out + [Escape, 0x5E] == out + [Escape] + [0x5E];
    }
  }

  /** Writing v at position i of a sequence extends its first i elements by v. */
  lemma TakeUpdate(s: seq<byte>, i: int, v: byte)
    requires 0 <= i < |s|
    ensures s[i := v][..i + 1] == s[..i] + [v]
    ensures s[i := v][i + 1..] == s[i + 1..]
  {
  }

  /** The two parts of a sequence spliced around a middle piece. */
  lemma PrefixOfSplice(a: seq<byte>, b: seq<byte>, c: seq<byte>)
    ensures (a + b + c)[..|a| + |b|] == a + b
    ensures (a + b + c)[|a| + |b|..] == c
  {
  }

  /** Writing byte b into the array just after the bytes already stuffed extends them by b. */
  lemma WriteAt(o: seq<byte>, index: int, next: int, out: seq<byte>, b: byte)
    requires 0 <= index <= next < |o| && |out| == next - index
    ensures (o[..index] + out + o[next..])[next := b] == o[..index] + (out + [b]) + o[next + 1..]
  {
  }

  // ---------------------------------------------------------------------------
  // Stuffing as the protocol intends it
  // ---------------------------------------------------------------------------

  /** The escaped form of a byte: b XOR 0x20, which flips bit 5 (the bit worth 32). */
  function Escaped(b: byte): byte
  {
    if (b / 32) % 2 == 1 then b - 32 else b + 32
  }

  /** The intended stuffing of one byte: reserved bytes become 0x7D, b XOR 0x20. */
  function StuffByte(b: byte): seq<byte>
  {
    if IsReserved(b) then [Escape, Escaped(b)] else [b]
  }

  /** The intended stuffing of a byte sequence. */
  function Stuffed(s: seq<byte>): seq<byte>
  {
    if s == [] then [] else StuffByte(s[0]) + Stuffed(s[1..])
  }

  /** Stuffing at most doubles the length and never shortens. */
  lemma {:induction false} StuffedLength(s: seq<byte>)
    ensures |s| <= |Stuffed(s)| <= 2 * |s|
  {
    if s != [] {
      StuffedLength(s[1..]);
    }
  }

  /** Stuffing keeps the length exactly when there is nothing to escape. */
  lemma {:induction false} StuffedLengthIffNoReserved(s: seq<byte>)
    ensures |Stuffed(s)| == |s| <==> forall i :: 0 <= i < |s| ==> !IsReserved(s[i])
  {
    if s != [] {
      StuffedLengthIffNoReserved(s[1..]);
      StuffedLength(s[1..]);
      if !IsReserved(s[0]) {
        if exists i :: 0 <= i < |s| && IsReserved(s[i]) {
          var i :| 0 <= i < |s| && IsReserved(s[i]);
          assert IsReserved(s[1..][i - 1]);
        } else {
          forall i | 0 <= i < |s| - 1 ensures !IsReserved(s[1..][i]) {
            assert s[1..][i] == s[i + 1];
          }
        }
      }
    }
  }

  /** Stuffed data never contains the frame marker 0x7E. */
  lemma {:induction false} StuffedHasNoMarker(s: seq<byte>)
    ensures forall j :: 0 <= j < |Stuffed(s)| ==> Stuffed(s)[j] != Start
  {
    if s != [] {
      StuffedHasNoMarker(s[1..]);
      var head := StuffByte(s[0]);
      assert Escaped(0x11) == 0x31 && Escaped(0x13) == 0x33;
      assert Escaped(0x7D) == 0x5D && Escaped(0x7E) == 0x5E;
      forall j | 0 <= j < |Stuffed(s)| ensures Stuffed(s)[j] != Start {
        if j >= |head| {
          assert Stuffed(s)[j] == Stuffed(s[1..])[j - |head|];
        }
      }
    }
  }

  lemma {:induction false} StuffedAppend(a: seq<byte>, b: seq<byte>)
    ensures Stuffed(a + b) == Stuffed(a) + Stuffed(b)
  {
    if a == [] {
      assert a + b == b;
    } else {
      assert (a + b)[0] == a[0];
      assert (a + b)[1..] == a[1..] + b;
      StuffedAppend(a[1..], b);
    }
  }

  /**
   * The source's stuffing and the intended one agree exactly on the inputs
   * that contain none of 0x11, 0x13 and 0x7D; on every other input the
   * source emits fewer bytes.
   */
  lemma {:induction false} StuffedAsWrittenAgreesIffNoDropped(s: seq<byte>)
    ensures |StuffedAsWritten(s)| <= |Stuffed(s)|
    ensures (exists i :: 0 <= i < |s| && IsDropped(s[i])) ==> |StuffedAsWritten(s)| < |Stuffed(s)|
    ensures StuffedAsWritten(s) == Stuffed(s) <==> forall i :: 0 <= i < |s| ==> !IsDropped(s[i])
  {
    if s != [] {
      StuffedAsWrittenAgreesIffNoDropped(s[1..]);
      if !IsDropped(s[0]) {
        assert Escaped(Start) == 0x5E;
        assert StuffByteAsWritten(s[0]) == StuffByte(s[0]);
        if exists i :: 0 <= i < |s| && IsDropped(s[i]) {
          var i :| 0 <= i < |s| && IsDropped(s[i]);
          assert IsDropped(s[1..][i - 1]);
        } else {
          forall i | 0 <= i < |s| - 1 ensures !IsDropped(s[1..][i]) {
            assert s[1..][i] == s[i + 1];
          }
        }
      }
    }
  }

  /** The bytes of s that the source's stuffing loop does not drop, in order. */
  function Kept(s: seq<byte>): (r: seq<byte>)
    ensures |r| <= |s|
  {
    if s == [] then [] else (if IsDropped(s[0]) then [] else [s[0]]) + Kept(s[1..])
  }

  /**
   * The source's stuffing is the intended stuffing of the bytes it keeps, and
   * it keeps every byte exactly when none is 0x11, 0x13 or 0x7D.
   */
  lemma {:induction false} StuffedAsWrittenIsStuffedKept(s: seq<byte>)
    ensures StuffedAsWritten(s) == Stuffed(Kept(s))
    ensures Kept(s) == s <==> forall i :: 0 <= i < |s| ==> !IsDropped(s[i])
  {
    if s != [] {
      StuffedAsWrittenIsStuffedKept(s[1..]);
      if !IsDropped(s[0]) {
        assert Escaped(Start) == 0x5E;
        assert StuffByteAsWritten(s[0]) == StuffByte(s[0]);
        var k := [s[0]] + Kept(s[1..]);
        assert k[0] == s[0] && k[1..] == Kept(s[1..]);
        assert Stuffed(k) == StuffByte(s[0]) + Stuffed(Kept(s[1..]));
        assert s == [s[0]] + s[1..];
        if exists i :: 0 <= i < |s| && IsDropped(s[i]) {
          var i :| 0 <= i < |s| && IsDropped(s[i]);
          assert IsDropped(s[1..][i - 1]);
        } else {
          forall i | 0 <= i < |s| - 1 ensures !IsDropped(s[1..][i]) {
            assert s[1..][i] == s[i + 1];
          }
        }
      } else {
        assert Kept(s) == [] + Kept(s[1..]) == Kept(s[1..]);
      }
    }
  }

  // ---------------------------------------------------------------------------
  // Destuffing
  // ---------------------------------------------------------------------------

  /**
   * The source's table for the byte after an escape: four substitutions;
   * any other byte passes through unchanged (it is not XORed).
   */
  function Unescape(b: byte): (r: byte)
    ensures r != b ==> IsReserved(r) && Escaped(r) == b
  {
    if b == 0x31 then 0x11
    else if b == 0x33 then 0x13
    else if b == 0x5D then 0x7D
    else if b == 0x5E then 0x7E
    else b
  }

  /** A destuffing step at index i reads only inside s. */
  predicate CanDestuffAt(s: seq<byte>, i: int)
  {
    0 <= i < |s| && (s[i] == Escape ==> i + 1 < |s|)
  }

  /** The result of one destuffing step: a logical byte and the index of the next one. */
  datatype Destuffed = Destuffed(value: byte, next: int)

  /** One destuffing step: the logical byte at index i and the index after it. */
  function DestuffAt(s: seq<byte>, i: int): (r: Destuffed)
    requires CanDestuffAt(s, i)
    ensures i + 1 <= r.next <= i + 2
  {
    if s[i] == Escape then Destuffed(Unescape(s[i + 1]), i + 2) else Destuffed(s[i], i + 1)
  }

  /**
   * unstuffByte: the logical byte at data[index] and the index of the next one.
   * An escape consumes two bytes, any other byte one.
   */
  method UnstuffByte(data: seq<byte>, index: int) returns (next: int, value: byte)
    requires CanDestuffAt(data, index)
    ensures data[index] == Escape ==> next == index + 2 && value == Unescape(data[index + 1])
    ensures data[index] != Escape ==> next == index + 1 && value == data[index]
    ensures Destuffed(value, next) == DestuffAt(data, index)
  {
    if data[index] == Escape {
      var b := data[index + 1];
      if b == 0x31 {
        value := 0x11;
      } else if b == 0x33 {
        value := 0x13;
      } else if b == 0x5D {
        value := 0x7D;
      } else if b == 0x5E {
        value := 0x7E;
      } else {
        value := b;
      }
      next := index + 2;
    } else {
      value := data[index];
      next := index + 1;
    }
  }

  /** Destuffing undoes the intended stuffing of one byte, whatever surrounds it. */
  lemma DestuffStuffedByte(pre: seq<byte>, b: byte, post: seq<byte>)
    ensures CanDestuffAt(pre + StuffByte(b) + post, |pre|)
    ensures DestuffAt(pre + StuffByte(b) + post, |pre|) == Destuffed(b, |pre| + |StuffByte(b)|)
  {
    if IsReserved(b) {
      UnescapeInvertsEscaped(b);
    }
  }

  /**
   * Where rx[from..to] is the intended stuffing of [x] + rest, destuffing at
   * from gives x back, and rx from the next index up to `to` is the stuffing
   * of rest.
   */
  lemma DestuffStuffedHead(rx: seq<byte>, from: int, to: int, x: byte, rest: seq<byte>)
    requires 0 <= from <= to <= |rx|
    requires rx[from..to] == Stuffed([x] + rest)
    ensures CanDestuffAt(rx, from)
    ensures DestuffAt(rx, from) == Destuffed(x, from + |StuffByte(x)|)
    ensures from + |StuffByte(x)| <= to && rx[from + |StuffByte(x)|..to] == Stuffed(rest)
  {
    var q := [x] + rest;
    assert q[0] == x && q[1..] == rest;
    var head := StuffByte(x);
    assert Stuffed(q) == head + Stuffed(rest);
    assert rx[from] == Stuffed(q)[0] == head[0];
    if |head| == 2 {
      assert rx[from + 1] == Stuffed(q)[1] == head[1];
      UnescapeInvertsEscaped(x);
    }
    assert rx[from + |head|..to] == Stuffed(q)[|head|..];
  }

  /** The source's destuffing table inverts the XOR escape on every reserved byte. */
  lemma UnescapeInvertsEscaped(b: byte)
    requires IsReserved(b)
    ensures Unescape(Escaped(b)) == b
  {
  }
}
