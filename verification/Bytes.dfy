/** Bytes, 16-bit words in network order, and the results the Go functions return. */
module Bytes {

  type byte = x: int | 0 <= x < 0x100

  type uint16 = x: int | 0 <= x < 0x1_0000

  type uint32 = x: int | 0 <= x < 0x1_0000_0000

  /** Conversion to Go's uint16, which wraps. */
  function Wrap16(x: nat): uint16 {
    x % 0x1_0000
  }

  /** Big-endian encoding of a 16-bit word. */
  function Put16(v: uint16): (r: seq<byte>)
    ensures |r| == 2
  {
    [v / 0x100, v % 0x100]
  }

  /** Big-endian word at offset i. */
  function Get16(s: seq<byte>, i: nat): uint16
    requires i + 2 <= |s|
  {
    var high: int := s[i];
    high * 0x100 + s[i + 1]
  }

  lemma Put16OfGet16(s: seq<byte>, i: nat)
    requires i + 2 <= |s|
    ensures Put16(Get16(s, i)) == s[i..i + 2]
  {
  }

  function Pow2(k: nat): nat {
    if k == 0 then 1 else 2 * Pow2(k - 1)
  }

  lemma Pow2Eight()
    ensures Pow2(8) == 0x100
  {
    assert Pow2(4) == 0x10;
  }

  /** Why an operation failed. RuntimePanic stands for a Go index or slice panic. */
  datatype Error =
    | BadQuantity
    | BadState
    | TooLong
    | TooShort
    | BadLength
    | BadStart
    | BadEnd
    | BadHex
    | BadSlave
    | BadTransaction
    | BadProtocol
    | BadChecksum
    | BadEcho
    | BadConformity
    | EmptyReply
    | Unsupported
    | Timeout
    | OutOfBounds
    | EmptyGroup
    | DuplicateTag
    | Closed
    | Exception(functionCode: byte, code: byte)
    | RuntimePanic

  datatype Result<+T> = Ok(value: T) | Err(error: Error)

  /** A Modbus protocol data unit. */
  datatype Pdu = Pdu(functionCode: byte, data: seq<byte>)

  /** A PDU as the bytes that travel on the wire. */
  function Raw(p: Pdu): seq<byte> {
    [p.functionCode] + p.data
  }
}
