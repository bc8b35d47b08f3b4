/** The handler's transporters: Receive parses one frame off a byte stream. */
module Streams {
  import opened Bytes
  import opened ShiftRegister
  import opened Crc
  import opened Line
  import Rtu
  import Tcp

  datatype RtuMessage = RtuMessage(slave: byte, pdu: seq<byte>)

  // ----- RTU -----

  /** The length of the frame at the head of the stream, if its header is there and its function is known. */
  function FrameLength(s: seq<byte>): Result<nat> {
    if |s| < 2 then Err(Timeout)
    else if s[1] in {1, 2, 3, 4} then
      if |s| < 3 then Err(Timeout) else var count: nat := s[2]; Ok(5 + count)
    else if s[1] in {5, 6, 15, 16} then Ok(8)
    else if s[1] == 7 then Ok(5)
    else Err(Unsupported)
  }

  /** One Receive on a stream: its result and what is left. */
  function ReceiveRtu(s: seq<byte>): (Result<RtuMessage>, seq<byte>) {
    var n := FrameLength(s);
    if n.Err? then (Err(n.error), if |s| < 2 || n.error.Timeout? then [] else s[2..])
    else if |s| < n.value then (Err(Timeout), [])
    else if IsSealed(s[..n.value]) then (Ok(RtuMessage(s[0], s[1..n.value - 2])), s[n.value..])
    else (Err(BadChecksum), s[n.value..])
  }

  /** Reads everything before the CRC, piece by piece. */
  method ReadBody(port: Port) returns (r: Result<seq<byte>>)
    modifies port`pending
    ensures var s := old(port.pending);
            var n := FrameLength(s);
            if n.Err? then r == Err(n.error) && port.pending == ReceiveRtu(s).1
            else if |s| < n.value - 2 then r == Err(Timeout) && port.pending == []
            else r == Ok(s[..n.value - 2]) && port.pending == s[n.value - 2..]
  {
    hide IsSealed;
    ghost var s := port.pending;
    var header := port.ReadFull(2);
    if header.Err? {
      return header;
    }
    var functionCode := header.value[1];
    assert header.value + port.pending == s;
    if functionCode in {1, 2, 3, 4} {
      var countByte := port.ReadFull(1);
      if countByte.Err? {
        return countByte;
      }
      assert header.value + countByte.value + port.pending == s;
      r := ReadMore(port, header.value + countByte.value, countByte.value[0]);
    } else if functionCode in {5, 15, 6, 16} {
      r := ReadMore(port, header.value, 4);
    } else if functionCode == 7 {
      r := ReadMore(port, header.value, 1);
    } else {
      r := Err(Unsupported);
    }
  }

  /** Appends n more bytes of the port to a frame. */
  method ReadMore(port: Port, frame: seq<byte>, n: nat) returns (r: Result<seq<byte>>)
    modifies port`pending
    ensures var s := frame + old(port.pending);
            if |s| < |frame| + n then r == Err(Timeout) && port.pending == []
            else r == Ok(s[..|frame| + n]) && port.pending == s[|frame| + n..]
  {
    ghost var s := frame + port.pending;
    var payload := port.ReadFull(n);
    if payload.Err? {
      return payload;
    }
    assert s == (frame + payload.value) + port.pending;
    r := Ok(frame + payload.value);
  }

  /** Receive. */
  method ReceiveRtuFrom(port: Port) returns (r: Result<RtuMessage>)
    modifies port`pending
    ensures (r, port.pending) == ReceiveRtu(old(port.pending))
  {
    hide IsSealed, FrameLength;
    ghost var s := port.pending;
    FrameLengthBound(s);
    var body := ReadBody(port);
    if body.Err? {
      return Err(body.error);
    }
    var frame := body.value;
    var crcBytes := port.ReadFull(2);
    if crcBytes.Err? {
      return Err(crcBytes.error);
    }
    assert s == frame + (crcBytes.value + port.pending);
    CrcBytesTest(s, frame, crcBytes.value, port.pending);
    hide Join, Bits, Swap, Checksum;
    var received := Join(Bits(crcBytes.value[0]), Bits(crcBytes.value[1]));
    var calculated := CRC16(frame);
    if received != calculated {
      return Err(BadChecksum);
    }
    return Ok(RtuMessage(frame[0], frame[1..]));
  }

  lemma FrameLengthBound(s: seq<byte>)
    ensures FrameLength(s).Ok? ==> FrameLength(s).value >= 5 && |s| >= 2
    ensures FrameLength(s).Err? ==> FrameLength(s).error == Timeout || FrameLength(s).error == Unsupported
  {
  }

  /** Big-endian CRC bytes equal CRC16 exactly when frame and CRC together are sealed. */
  lemma CrcBytesTest(s: seq<byte>, frame: seq<byte>, crc: seq<byte>, rest: seq<byte>)
    requires |crc| == 2 && s == frame + (crc + rest)
    ensures Join(Bits(crc[0]), Bits(crc[1])) == Swap(Checksum(frame)) <==> IsSealed(s[..|frame| + 2])
    ensures s[..|frame|] == frame && s[|frame| + 2..] == rest
  {
    TailMatches(frame, crc[0], crc[1]);
    hide Join, Bits, Swap, Checksum, Tail;
    var f := s[..|frame| + 2];
    assert f == frame + crc && f[..|f| - 2] == frame;
    assert crc == [crc[0], crc[1]];
    Rtu.SuffixEqual(frame, crc, Tail(frame));
  }

  // ----- Pack'd frames come back one by one -----

  /** The reply PDUs Receive knows: counted reads, five-byte echoes, the exception status. */
  predicate Receivable(pdu: seq<byte>) {
    && |pdu| >= 2
    && (pdu[0] in {1, 2, 3, 4} ==> |pdu| == 2 + pdu[1] as nat)
    && (pdu[0] in {5, 6, 15, 16} ==> |pdu| == 5)
    && (pdu[0] == 7 ==> |pdu| == 2)
    && pdu[0] in {1, 2, 3, 4, 5, 6, 7, 15, 16}
  }

  /** What one accepted Receive consumed is exactly the packed frame of what it returned, and conversely. */
  lemma ReceiveRtuIff(s: seq<byte>, slave: byte, pdu: seq<byte>, rest: seq<byte>)
    ensures ReceiveRtu(s) == (Ok(RtuMessage(slave, pdu)), rest) <==> Receivable(pdu) && s == Rtu.Pack(slave, pdu) + rest
  {
    if Receivable(pdu) && s == Rtu.Pack(slave, pdu) + rest {
      PackedReceived(slave, pdu, rest);
    }
    if ReceiveRtu(s) == (Ok(RtuMessage(slave, pdu)), rest) {
      ReceivedIsPacked(s);
    }
  }

  lemma PackedReceived(slave: byte, pdu: seq<byte>, rest: seq<byte>)
    requires Receivable(pdu)
    ensures ReceiveRtu(Rtu.Pack(slave, pdu) + rest) == (Ok(RtuMessage(slave, pdu)), rest)
  {
    hide Tail;
    var f := Rtu.Pack(slave, pdu);
    var s := f + rest;
    assert f[..|f| - 2] == [slave] + pdu;
    assert f[0] == slave && f[1] == pdu[0] && f[2] == pdu[1];
    assert s[..|f|] == f && s[|f|..] == rest;
    assert FrameLength(s) == Ok(|f|);
    assert s[1..|f| - 2] == pdu;
  }

  lemma ReceivedIsPacked(s: seq<byte>)
    requires ReceiveRtu(s).0.Ok?
    ensures var m := ReceiveRtu(s).0.value; Receivable(m.pdu) && s == Rtu.Pack(m.slave, m.pdu) + ReceiveRtu(s).1
  {
    hide Tail;
    var n := FrameLength(s).value;
    FrameLengthBound(s);
    var m := ReceiveRtu(s).0.value;
    assert s[..n][..n - 2] == [m.slave] + m.pdu;
    assert s == s[..n] + s[n..];
    assert m.pdu[0] == s[1] && m.pdu[1] == s[2];
  }

  /** A frame of a known function with a wrong checksum is skipped whole, and what follows it is kept. */
  lemma CorruptedSkipped(f: seq<byte>, rest: seq<byte>)
    requires |f| >= 5 && Receivable(f[1..|f| - 2]) && !IsSealed(f)
    ensures ReceiveRtu(f + rest) == (Err(BadChecksum), rest)
  {
    hide IsSealed;
    var s := f + rest;
    var pdu := f[1..|f| - 2];
    assert s[1] == pdu[0] && s[2] == pdu[1];
    assert s[..|f|] == f && s[|f|..] == rest;
    assert FrameLength(s) == Ok(|f|);
  }

  function PackAll(messages: seq<RtuMessage>): seq<byte> {
    if messages == [] then [] else Rtu.Pack(messages[0].slave, messages[0].pdu) + PackAll(messages[1..])
  }

  /** Receive called n times on one stream: the results and what is left. */
  function ReceiveRtuTimes(s: seq<byte>, n: nat): (seq<Result<RtuMessage>>, seq<byte>)
    decreases n
  {
    if n == 0 then ([], s)
    else
      var (first, rest) := ReceiveRtu(s);
      var (others, left) := ReceiveRtuTimes(rest, n - 1);
      ([first] + others, left)
  }

  function Accepted<T>(messages: seq<T>): seq<Result<T>> {
    if messages == [] then [] else [Ok(messages[0])] + Accepted(messages[1..])
  }

  /** A stream of packed frames is received back as the list that was packed, consuming exactly its bytes. */
  lemma {:induction false} RtuStreamRestored(messages: seq<RtuMessage>, rest: seq<byte>)
    requires forall m :: m in messages ==> Receivable(m.pdu)
    ensures ReceiveRtuTimes(PackAll(messages) + rest, |messages|) == (Accepted(messages), rest)
    decreases |messages|
  {
    if messages == [] {
      assert PackAll(messages) + rest == rest;
    } else {
      hide Receivable, ReceiveRtu;
      var m := messages[0];
      var tail := PackAll(messages[1..]) + rest;
      assert PackAll(messages) + rest == Rtu.Pack(m.slave, m.pdu) + tail;
      PackedReceived(m.slave, m.pdu, tail);
      RtuStreamRestored(messages[1..], rest);
    }
  }

  // ----- TCP -----

  const TCP_RECEIVE_MAX := 260

  /** One Receive on a stream: its result and what is left. */
  function ReceiveTcp(s: seq<byte>): (Result<Tcp.Message>, seq<byte>) {
    if |s| < 7 then (Err(Timeout), [])
    else
      var length: nat := Get16(s, 4);
      if Get16(s, 2) != Tcp.TCP_PROTOCOL_IDENTIFIER then (Err(BadProtocol), s[7..])
      else if length == 0 then (Err(BadLength), s[7..])
      else if length > TCP_RECEIVE_MAX then (Err(TooLong), s[7..])
      else if |s| < 6 + length then (Err(Timeout), [])
      else (Ok(Tcp.Message(Get16(s, 0), s[6], s[7..6 + length])), s[6 + length..])
  }

  /** Receive: the header, then the PDU its length field announces. */
  method ReceiveTcpFrom(port: Port) returns (r: Result<Tcp.Message>)
    modifies port`pending
    ensures (r, port.pending) == ReceiveTcp(old(port.pending))
  {
    ghost var s := port.pending;
    var header := port.ReadFull(7);
    if header.Err? {
      return Err(header.error);
    }
    var length: nat := Get16(header.value, 4);
    if Get16(header.value, 2) != Tcp.TCP_PROTOCOL_IDENTIFIER {
      return Err(BadProtocol);
    }
    if length == 0 {
      return Err(BadLength);
    }
    if length > TCP_RECEIVE_MAX {
      return Err(TooLong);
    }
    var pduLength := length - 1;
    var pdu: seq<byte> := [];
    if pduLength > 0 {
      var payload := port.ReadFull(pduLength);
      if payload.Err? {
        return Err(payload.error);
      }
      pdu := payload.value;
    }
    assert s[7..6 + length] == s[7..][..pduLength] && s[6 + length..] == s[7..][pduLength..];
    return Ok(Tcp.Message(Get16(header.value, 0), header.value[6], pdu));
  }

  /** An accepted Receive consumed exactly the packed frame of its message, and every such frame is accepted. */
  lemma ReceiveTcpIff(s: seq<byte>, m: Tcp.Message, rest: seq<byte>)
    ensures ReceiveTcp(s) == (Ok(m), rest) <==>
            |m.pdu| < 260 && s == Tcp.Pack(m.transaction, m.unit, m.pdu) + rest
  {
    hide ReceiveTcp, Tcp.Pack;
    if |m.pdu| < TCP_RECEIVE_MAX && s == Tcp.Pack(m.transaction, m.unit, m.pdu) + rest {
      PackedTcpReceived(m, rest);
    }
    if ReceiveTcp(s) == (Ok(m), rest) {
      ReceivedTcpIsPacked(s);
    }
  }

  lemma PackedTcpReceived(m: Tcp.Message, rest: seq<byte>)
    requires |m.pdu| < TCP_RECEIVE_MAX
    ensures ReceiveTcp(Tcp.Pack(m.transaction, m.unit, m.pdu) + rest) == (Ok(m), rest)
  {
    var f := Tcp.Pack(m.transaction, m.unit, m.pdu);
    var s := f + rest;
    Tcp.HeaderOf(m.transaction, m.unit, m.pdu);
    hide Tcp.Pack;
    assert s[..7] == f[..7];
    assert forall i :: 0 <= i < 7 ==> s[i] == f[i];
    assert s[7..|f|] == f[7..] && s[|f|..] == rest;
  }

  lemma ReceivedTcpIsPacked(s: seq<byte>)
    requires ReceiveTcp(s).0.Ok?
    ensures var m := ReceiveTcp(s).0.value;
            |m.pdu| < TCP_RECEIVE_MAX && s == Tcp.Pack(m.transaction, m.unit, m.pdu) + ReceiveTcp(s).1
  {
    var m := ReceiveTcp(s).0.value;
    var n := 6 + Get16(s, 4) as nat;
    Tcp.HeaderRestores(s[..n]);
    assert s[..n][7..] == m.pdu;
    assert s == s[..n] + s[n..];
  }

  /** A header of another protocol or with a length of 0 or more than 260 is dropped, and what follows it is kept. */
  lemma BadHeaderSkipped(header: seq<byte>, rest: seq<byte>)
    requires |header| == 7
    ensures Get16(header, 2) != 0 ==> ReceiveTcp(header + rest) == (Err(BadProtocol), rest)
    ensures Get16(header, 2) == 0 && Get16(header, 4) == 0 ==> ReceiveTcp(header + rest) == (Err(BadLength), rest)
    ensures Get16(header, 2) == 0 && Get16(header, 4) > 260 ==> ReceiveTcp(header + rest) == (Err(TooLong), rest)
  {
    var s := header + rest;
    assert s[7..] == rest && Get16(s, 2) == Get16(header, 2) && Get16(s, 4) == Get16(header, 4);
  }

  /** On the bytes it consumed, Receive and Unpack agree. */
  lemma ReceiveAgreesWithUnpack(s: seq<byte>)
    requires ReceiveTcp(s).0.Ok?
    ensures var (r, rest) := ReceiveTcp(s);
            |rest| <= |s| && Tcp.Unpack(s[..|s| - |rest|]) == r && s == s[..|s| - |rest|] + rest
  {
    var (r, rest) := ReceiveTcp(s);
    var m := r.value;
    ReceiveTcpIff(s, m, rest);
    Tcp.UnpackInvertsPack(m.transaction, m.unit, m.pdu);
    hide ReceiveTcp, Tcp.Pack, Tcp.Unpack;
    assert s[..|s| - |rest|] == Tcp.Pack(m.transaction, m.unit, m.pdu);
  }

  function PackAllTcp(messages: seq<Tcp.Message>): seq<byte> {
    if messages == [] then []
    else Tcp.Pack(messages[0].transaction, messages[0].unit, messages[0].pdu) + PackAllTcp(messages[1..])
  }

  function ReceiveTcpTimes(s: seq<byte>, n: nat): (seq<Result<Tcp.Message>>, seq<byte>)
    decreases n
  {
    if n == 0 then ([], s)
    else
      var (first, rest) := ReceiveTcp(s);
      var (others, left) := ReceiveTcpTimes(rest, n - 1);
      ([first] + others, left)
  }

  lemma {:induction false} TcpStreamRestored(messages: seq<Tcp.Message>, rest: seq<byte>)
    requires forall m :: m in messages ==> |m.pdu| < TCP_RECEIVE_MAX
    ensures ReceiveTcpTimes(PackAllTcp(messages) + rest, |messages|) == (Accepted(messages), rest)
    decreases |messages|
  {
    if messages == [] {
      assert PackAllTcp(messages) + rest == rest;
    } else {
      hide ReceiveTcp, Tcp.Pack;
      var m := messages[0];
      var tail := PackAllTcp(messages[1..]) + rest;
      assert PackAllTcp(messages) + rest == Tcp.Pack(m.transaction, m.unit, m.pdu) + tail;
      ReceiveTcpIff(PackAllTcp(messages) + rest, m, tail);
      TcpStreamRestored(messages[1..], rest);
    }
  }
}
