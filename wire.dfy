/** Wire-level types and constants of the SHDLC link to the SPS30 sensor. */
module Wire {

  /** An octet on the serial link (Go's `uint8`). */
  type byte = b: int | 0 <= b < 256

  /** A 32-bit unsigned word (Go's `uint32`). */
  type word = w: int | 0 <= w < 0x1_0000_0000

  /** Frame delimiters: the same value opens and closes a frame. */
  const Start: byte := 0x7E
  const Stop: byte := 0x7E

  /** The control-escape byte that introduces an escaped byte. */
  const Escape: byte := 0x7D

  /** Capacity of the transmit scratch array. */
  const MaxTxFrameSize: nat := 520

  /** Capacity of the receive buffer handed to the transport's read. */
  const MaxRxFrameSize: nat := 522

  datatype Option<T> = None | Some(value: T)

  datatype Result<T, E> = Success(value: T) | Failure(error: E)

  /** Addition of two `uint8` values, wrapping around at 256. */
  function AddBytes(a: byte, b: byte): (r: byte)
    ensures r == (a + b) % 256
  {
    if a + b < 256 then a + b else a + b - 256
  }

  /** Bitwise complement of a `uint8` (Go's unary `^`): flipping all eight bits of b is 255 - b. */
  function Complement(b: byte): byte
  {
    255 - b
  }

  /** The kinds of failure a command can report; the message wording is not modelled. */
  datatype Error =
    | WakeupFailed                 // the raw wake byte could not be written
    | TransmitFailed               // the transport refused the request frame
    | ReadFailed                   // the transport read failed
    | MissingStartMarker           // no bytes, or the first byte is not 0x7E
    | ChecksumMismatch             // the byte after the payload is not the checksum
    | MissingStopMarker            // the byte after the checksum is missing or not 0x7E
    | IndexOutOfRange              // declared length beyond the caller's buffer: a Go runtime panic
    | UnexpectedResponseLength     // declared length differs from the command's expected length
    | DeviceError(state: byte, reason: string)  // non-zero status byte reported by the device

  /** What the transport's read delivered: the whole receive buffer and the count it reported. */
  datatype ReadOutcome = Read(buffer: seq<byte>, count: int) | ReadError

  /** The transport's own promise: the buffer is the receive buffer and the count fits in it. */
  predicate WellFormedRead(r: ReadOutcome)
  {
    r.Read? ==> |r.buffer| == MaxRxFrameSize && 0 <= r.count <= |r.buffer|
  }
}
