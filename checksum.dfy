/** The SHDLC 8-bit checksum (sps30.go, shdlcCRC). */
module Checksum {
  import opened Wire

  /** Sum of a byte sequence as an unbounded integer. */
  function Sum(s: seq<byte>): nat
  {
    if s == [] then 0 else Sum(s[..|s| - 1]) + s[|s| - 1]
  }

  /**
   * The checksum of a frame: the complement of the low byte of
   * headerSum + dataLen + the first dataLen bytes of data.
   * Bytes of data beyond dataLen do not take part.
   */
  function Crc(headerSum: byte, dataLen: byte, data: seq<byte>): byte
    requires dataLen <= |data|
  {
    Complement((headerSum + dataLen + Sum(data[..dataLen])) % 256)
  }

  /**
   * shdlcCRC: accumulates the sum in a wrapping uint8 and returns its complement.
   * The source indexes data[0..dataLen) and so needs that many bytes.
   */
  method ShdlcCrc(headerSum: byte, dataLen: byte, data: seq<byte>) returns (crc: byte)
    requires dataLen <= |data|
    ensures crc == Crc(headerSum, dataLen, data)
    ensures (headerSum + dataLen + Sum(data[..dataLen]) + crc) % 256 == 255
  {
    var sum := AddBytes(headerSum, dataLen);
    for i := 0 to dataLen
      invariant sum == (headerSum + dataLen + Sum(data[..i])) % 256
    {
      assert data[..i + 1][..i] == data[..i];
      sum := AddBytes(sum, data[i]);
    }
    crc := Complement(sum);
  }

  /** Sum distributes over concatenation. */
  lemma {:induction false} SumAppend(a: seq<byte>, b: seq<byte>)
    ensures Sum(a + b) == Sum(a) + Sum(b)
  {
    if b == [] {
      assert a + b == a;
    } else {
      assert (a + b)[..|a + b| - 1] == a + b[..|b| - 1];
      SumAppend(a, b[..|b| - 1]);
    }
  }

  /** Replacing one byte changes the sum by exactly the difference of the two bytes. */
  lemma SumUpdate(s: seq<byte>, i: nat, b: byte)
    requires i < |s|
    ensures Sum(s[i := b]) == Sum(s) - s[i] + b
  {
    assert s == s[..i] + [s[i]] + s[i + 1..];
    assert s[i := b] == s[..i] + [b] + s[i + 1..];
    SumAppend(s[..i] + [s[i]], s[i + 1..]);
    SumAppend(s[..i] + [b], s[i + 1..]);
    SumAppend(s[..i], [s[i]]);
    SumAppend(s[..i], [b]);
  }

  /** The checksum depends only on the first dataLen bytes of the data. */
  lemma CrcIgnoresTrailingBytes(headerSum: byte, dataLen: byte, a: seq<byte>, b: seq<byte>)
    requires dataLen <= |a| && dataLen <= |b|
    requires a[..dataLen] == b[..dataLen]
    ensures Crc(headerSum, dataLen, a) == Crc(headerSum, dataLen, b)
  {
  }

  /** Any single corrupted byte inside the covered data changes the checksum. */
  lemma CrcDetectsSingleByteError(headerSum: byte, dataLen: byte, data: seq<byte>, i: nat, b: byte)
    requires dataLen <= |data| && i < dataLen
    requires b != data[i]
    ensures Crc(headerSum, dataLen, data[i := b]) != Crc(headerSum, dataLen, data)
  {
    assert data[i := b][..dataLen] == data[..dataLen][i := b];
    SumUpdate(data[..dataLen], i, b);
  }

  /**
   * A corrupted header sum always changes the checksum. A corrupted length
   * byte need not: see CrcBlindToLengthOverFF.
   */
  lemma CrcDetectsHeaderError(headerSum: byte, headerSum': byte, dataLen: byte, data: seq<byte>)
    requires dataLen <= |data|
    requires headerSum != headerSum'
    ensures Crc(headerSum, dataLen, data) != Crc(headerSum', dataLen, data)
  {
  }

  /**
   * A length one too large goes unnoticed when the extra byte it covers is
   * 0xFF: the length adds one and the byte adds 255, which wraps to nothing.
   * For instance the checksum of [x, 0xFF] is the same with length 1 and 2.
   */
  lemma CrcBlindToLengthOverFF(headerSum: byte, dataLen: byte, data: seq<byte>)
    requires dataLen < 255 && dataLen < |data| && data[dataLen] == 0xFF
    ensures Crc(headerSum, dataLen + 1, data) == Crc(headerSum, dataLen, data)
  {
    assert data[..dataLen + 1][..dataLen] == data[..dataLen];
    assert Sum(data[..dataLen + 1]) == Sum(data[..dataLen]) + 0xFF;
  }
}
