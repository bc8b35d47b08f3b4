/** The client's transporters: how many bytes to expect, and the read loops over a fragmented line. */
module Transports {
  import opened Bytes
  import opened Words
  import opened Device
  import opened Requests
  import opened Line
  import Rtu
  import Ascii
  import Tcp

  // ----- RTU -----

  /** Four frame bytes and the data the function code implies. */
  function ResponseLength(adu: seq<byte>): (r: Result<nat>)
    ensures if r.Ok? then |adu| >= 2 else r == Err(RuntimePanic)
  {
    if |adu| < 2 || (adu[1] in {1, 2, 3, 4, 23} && |adu| < 6) then Err(RuntimePanic)
    else if adu[1] in {1, 2} then Ok(5 + CeilDiv8(Get16(adu, 4)))
    else if adu[1] in {3, 4, 23} then Ok(5 + 2 * Get16(adu, 4) as nat)
    else if adu[1] in {5, 6, 15, 16} then Ok(8)
    else if adu[1] == 22 then Ok(10)
    else Ok(4)
  }

  /** calculateResponseLength, and the index panic it has on short requests. */
  method CalculateResponseLength(adu: seq<byte>) returns (r: Result<nat>)
    ensures r == ResponseLength(adu)
  {
    if |adu| < 2 {
      return Err(RuntimePanic);
    }
    var length: nat := Rtu.RTU_MIN_SIZE;
    if adu[1] == 2 || adu[1] == 1 {
      if |adu| < 6 {
        return Err(RuntimePanic);
      }
      var count: nat := Get16(adu, 4);
      length := length + 1 + count / 8;
      if count % 8 != 0 {
        length := length + 1;
      }
    } else if adu[1] == 4 || adu[1] == 3 || adu[1] == 23 {
      if |adu| < 6 {
        return Err(RuntimePanic);
      }
      var count: nat := Get16(adu, 4);
      length := length + 1 + count * 2;
    } else if adu[1] == 5 || adu[1] == 15 || adu[1] == 6 || adu[1] == 16 {
      length := length + 4;
    } else if adu[1] == 22 {
      length := length + 6;
    }
    return Ok(length);
  }

  /** The size of the data in an accepted reply. */
  function ReplySize(r: Request): nat {
    match r
    case ReadCoils(_, q) => 1 + CeilDiv8(q)
    case ReadDiscreteInputs(_, q) => 1 + CeilDiv8(q)
    case ReadHoldingRegisters(_, q) => 1 + 2 * q
    case ReadInputRegisters(_, q) => 1 + 2 * q
    case ReadWriteMultipleRegisters(_, q, _, _, _) => 1 + 2 * q
    case MaskWriteRegister(_, _, _) => 6
    case _ => 4
  }

  /** The predicted length is the length of the reply frame the device sends, for every request served. */
  lemma ResponseLengthIsReplyLength(slave: byte, r: Request, m: Memory)
    requires Admit(r).Ok? && Served(r, m)
    ensures var reply := Rtu.Frame(slave, Serve(m, RequestPdu(r)).1);
            && ResponseLength(Rtu.Frame(slave, RequestPdu(r))) == Ok(|reply|)
            && Rtu.RTU_MIN_SIZE < |reply| <= Rtu.RTU_MAX_SIZE
            && reply[1] == RequestPdu(r).functionCode
  {
    var p := RequestPdu(r);
    var reply := Serve(m, p).1;
    RequestMeaning(r, m);
    AnswerSize(r, m, reply.data);
    PredictedSize(slave, r);
    ReplySizeBound(r);
    Rtu.FrameIsSealed(slave, reply);
    hide Rtu.Frame, Serve, Answer, RequestPdu, Effect, Accept, Admit, ResponseLength, ReplySize, Served;
  }

  lemma PredictedSize(slave: byte, r: Request)
    ensures ResponseLength(Rtu.Frame(slave, RequestPdu(r))) == Ok(4 + ReplySize(r))
  {
    hide Rtu.Frame, RequestPdu, Get16, ResponseLength;
    var p := RequestPdu(r);
    QuantityInRequest(r);
    FunctionCodeOf(r);
    Rtu.FrameIsSealed(slave, p);
    FrameWord(slave, p);
    LengthFromFields(Rtu.Frame(slave, p));
  }

  lemma LengthFromFields(adu: seq<byte>)
    requires |adu| >= 6
    ensures ResponseLength(adu) == Ok(4 + (
              if adu[1] in {1, 2} then 1 + CeilDiv8(Get16(adu, 4))
              else if adu[1] in {3, 4, 23} then 1 + 2 * Get16(adu, 4) as nat
              else if adu[1] in {5, 6, 15, 16} then 4
              else if adu[1] == 22 then 6
              else 0))
  {
    hide Get16;
  }

  lemma ReplySizeBound(r: Request)
    requires Admit(r).Ok?
    ensures 1 <= ReplySize(r) <= 251
  {
  }

  lemma FrameWord(slave: byte, p: Pdu)
    requires |p.data| >= 4
    ensures Get16(Rtu.Frame(slave, p), 4) == Get16(p.data, 2)
  {
    Rtu.FrameIsSealed(slave, p);
    hide Rtu.Frame;
    var f := Rtu.Frame(slave, p);
    assert f[4] == f[2..|p.data| + 2][2] && f[5] == f[2..|p.data| + 2][3];
  }

  lemma QuantityInRequest(r: Request)
    ensures |RequestPdu(r).data| >= 4
    ensures !(r.MaskWriteRegister? || r.WriteSingleCoil? || r.WriteSingleRegister?) ==>
              Get16(RequestPdu(r).data, 2) == r.quantity
  {
    if r.MaskWriteRegister? {
      Triple(r.address, r.andMask, r.orMask);
    } else if r.WriteSingleCoil? {
      Pair(r.address, r.state);
    } else if r.WriteSingleRegister? {
      Pair(r.address, r.word);
    } else if r.ReadWriteMultipleRegisters? {
      Quad(r.address, r.quantity, r.writeAddress, r.writeQuantity);
    } else {
      Pair(r.address, r.quantity);
    }
    hide WordBytes;
  }

  lemma AnswerSize(r: Request, m: Memory, data: seq<byte>)
    requires Served(r, m) && data != [] && Accept(r, data) == Ok(Answer(r, m))
    ensures |data| == ReplySize(r)
  {
    hide PackBits, WordBytes, BytesToWords, UnpackBits, MaskWord;
    assert r.ReadWriteMultipleRegisters? ==> |Effect(r, m).holding| == |m.holding|;
  }

  const RTU_EXCEPTION_SIZE := 5

  /** How many bytes Send wants once its first read has returned n and the function byte is known. */
  function RtuGoal(request: seq<byte>, functionCode: byte, n: nat): nat
    requires ResponseLength(request).Ok?
  {
    var length := ResponseLength(request).value;
    var functionFail: byte := if request[1] >= 0x80 then 0x80 else 0;
    if functionCode == request[1] then
      if n < length && Rtu.RTU_MIN_SIZE < length <= Rtu.RTU_MAX_SIZE then length else n
    else if functionCode == functionFail && n < RTU_EXCEPTION_SIZE then RTU_EXCEPTION_SIZE
    else n
  }

  /** The sizes the first read can have: the line may deliver any non-empty chunks. */
  predicate FirstRead(arrived: seq<byte>, n: nat) {
    Rtu.RTU_MIN_SIZE <= n <= |arrived| && n <= Rtu.RTU_MAX_SIZE
  }

  /** The result of Send and what stays on the line, when its first read returned n of the bytes. */
  function RtuOutcome(request: seq<byte>, arrived: seq<byte>, n: nat): (Result<seq<byte>>, seq<byte>)
    requires ResponseLength(request).Ok? && FirstRead(arrived, n)
  {
    var goal := RtuGoal(request, arrived[1], n);
    if goal > |arrived| then (Err(Timeout), []) else (Ok(arrived[..goal]), arrived[goal..])
  }

  /** All that Send can do with the bytes that arrive. */
  ghost predicate RtuReads(request: seq<byte>, arrived: seq<byte>, r: Result<seq<byte>>, left: seq<byte>) {
    if ResponseLength(request).Err? then r == Err(RuntimePanic) && left == arrived
    else if |arrived| < Rtu.RTU_MIN_SIZE then r == Err(Timeout) && left == []
    else exists n :: FirstRead(arrived, n) && (r, left) == RtuOutcome(request, arrived, n)
  }

  /** Send: write, read at least four bytes, then the rest of a normal reply or of an exception. */
  method RtuSend(port: Port, aduRequest: seq<byte>) returns (r: Result<seq<byte>>, ghost arrived: seq<byte>)
    modifies port
    ensures port.bus == Respond(port.framing, old(port.bus), aduRequest).0
    ensures arrived == old(port.pending) + Respond(port.framing, old(port.bus), aduRequest).1
    ensures RtuReads(aduRequest, arrived, r, port.pending)
  {
    hide Respond;
    port.Write(aduRequest);
    arrived := port.pending;
    var length := CalculateResponseLength(aduRequest);
    if length.Err? {
      return Err(length.error), arrived;
    }
    r := RtuReceive(port, aduRequest, length.value);
  }

  /** The reading half of Send. */
  method RtuReceive(port: Port, aduRequest: seq<byte>, bytesToRead: nat) returns (r: Result<seq<byte>>)
    requires ResponseLength(aduRequest) == Ok(bytesToRead)
    modifies port`pending
    ensures RtuReads(aduRequest, old(port.pending), r, port.pending)
  {
    hide ResponseLength;
    ghost var arrived := port.pending;
    var functionCode := aduRequest[1];
    var functionFail: byte := if aduRequest[1] >= 0x80 then 0x80 else 0;
    var first := port.ReadAtLeast(Rtu.RTU_MAX_SIZE, Rtu.RTU_MIN_SIZE);
    if first.Err? {
      return first;
    }
    var data := first.value;
    ghost var n := |data|;
    assert FirstRead(arrived, n) && data[1] == arrived[1] && data == arrived[..n] && port.pending == arrived[n..];
    var goal := |data|;
    if data[1] == functionCode {
      if |data| < bytesToRead {
        if bytesToRead > Rtu.RTU_MIN_SIZE && bytesToRead <= Rtu.RTU_MAX_SIZE {
          goal := bytesToRead;
        }
      }
    } else if data[1] == functionFail {
      if |data| < RTU_EXCEPTION_SIZE {
        goal := RTU_EXCEPTION_SIZE;
      }
    }
    assert goal == RtuGoal(aduRequest, arrived[1], n);
    if goal > |data| {
      var rest := port.ReadFull(goal - |data|);
      TwoReads(arrived, n, goal);
      if rest.Err? {
        return rest;
      }
      data := data + rest.value;
    }
    r := Ok(data);
    assert (r, port.pending) == RtuOutcome(aduRequest, arrived, n);
  }

  lemma TwoReads(s: seq<byte>, n: nat, goal: nat)
    requires n <= goal && n <= |s|
    ensures goal <= |s| ==> s[..n] + s[n..][..goal - n] == s[..goal] && s[n..][goal - n..] == s[goal..]
  {
  }

  /**
   A reply of another function than the request's is returned as the first read found it. The only exception is
   the function that consists of the request's top bit alone, for which up to five bytes are waited for.
   */
  lemma OtherFunctionRead(request: seq<byte>, arrived: seq<byte>, n: nat)
    requires ResponseLength(request).Ok? && FirstRead(arrived, n) && arrived[1] != request[1]
    ensures n >= 5 || arrived[1] != request[1] / 0x80 * 0x80 ==>
              RtuOutcome(request, arrived, n) == (Ok(arrived[..n]), arrived[n..])
    ensures n == 4 && arrived[1] == request[1] / 0x80 * 0x80 ==>
              RtuOutcome(request, arrived, n)
              == if |arrived| == 4 then (Err(Timeout), []) else (Ok(arrived[..5]), arrived[5..])
  {
    hide ResponseLength;
  }

  /** A reply of the request's function is waited for up to the predicted length, if that is 5 to 256. */
  lemma SameFunctionRead(request: seq<byte>, arrived: seq<byte>, n: nat)
    requires ResponseLength(request).Ok? && FirstRead(arrived, n) && arrived[1] == request[1]
    ensures var length := ResponseLength(request).value;
            RtuOutcome(request, arrived, n)
            == if length <= n || length <= 4 || length > 256 then (Ok(arrived[..n]), arrived[n..])
               else if length > |arrived| then (Err(Timeout), [])
               else (Ok(arrived[..length]), arrived[length..])
  {
    hide ResponseLength;
  }

  /** A reply of the predicted length is returned exactly, however it is split. */
  lemma WholeReplyRead(request: seq<byte>, arrived: seq<byte>, r: Result<seq<byte>>, left: seq<byte>)
    requires ResponseLength(request) == Ok(|arrived|) && Rtu.RTU_MIN_SIZE < |arrived| <= Rtu.RTU_MAX_SIZE
    requires arrived[1] == request[1] && RtuReads(request, arrived, r, left)
    ensures r == Ok(arrived) && left == []
  {
    hide ResponseLength;
    var n :| FirstRead(arrived, n) && (r, left) == RtuOutcome(request, arrived, n);
    assert arrived[..|arrived|] == arrived && arrived[|arrived|..] == [];
  }

  /** The five bytes of an exception: four are returned and the last one stays, or all are returned. */
  lemma ExceptionRead(request: seq<byte>, arrived: seq<byte>, r: Result<seq<byte>>, left: seq<byte>)
    requires ResponseLength(request).Ok? && |arrived| == RTU_EXCEPTION_SIZE
    requires request[1] < 0x80 <= arrived[1]
    ensures RtuReads(request, arrived, r, left) <==>
            (r, left) == (Ok(arrived[..4]), arrived[4..]) || (r, left) == (Ok(arrived), [])
  {
    hide ResponseLength;
    assert RtuOutcome(request, arrived, 4) == (Ok(arrived[..4]), arrived[4..]);
    assert arrived[..5] == arrived && arrived[5..] == [];
    assert RtuOutcome(request, arrived, 5) == (Ok(arrived), []);
    if RtuReads(request, arrived, r, left) {
      var n :| FirstRead(arrived, n) && (r, left) == RtuOutcome(request, arrived, n);
      assert n == 4 || n == 5;
    }
  }

  /** Send returns only a prefix of what arrived and leaves the rest. */
  lemma PrefixRead(request: seq<byte>, arrived: seq<byte>, r: Result<seq<byte>>, left: seq<byte>)
    requires RtuReads(request, arrived, r, left)
    ensures r.Ok? ==> |r.value| >= Rtu.RTU_MIN_SIZE && arrived == r.value + left
    ensures |arrived| < Rtu.RTU_MIN_SIZE ==> r.Err?
    ensures arrived == [] ==> left == []
  {
    hide ResponseLength;
    if ResponseLength(request).Ok? && |arrived| >= Rtu.RTU_MIN_SIZE {
      var n :| FirstRead(arrived, n) && (r, left) == RtuOutcome(request, arrived, n);
    }
  }

  // ----- ASCII -----

  ghost predicate IsFrame(s: seq<byte>) {
    exists slave, p :: s == Ascii.Frame(slave, p) && |p.data| <= 252
  }

  /** Send: write, then read chunks until one ends in CR LF or the buffer is full. */
  method AsciiSend(port: Port, aduRequest: seq<byte>) returns (r: Result<seq<byte>>, ghost arrived: seq<byte>)
    modifies port
    ensures port.bus == Respond(port.framing, old(port.bus), aduRequest).0
    ensures arrived == old(port.pending) + Respond(port.framing, old(port.bus), aduRequest).1
    ensures r.Ok? ==> r.value != [] && arrived == r.value + port.pending
    ensures arrived == [] ==> r == Err(Timeout) && port.pending == []
    ensures r.Err? ==> r == Err(Timeout) && port.pending == []
    ensures r.Ok? ==> |r.value| == 513 || (3 < |r.value| < 513 && r.value[|r.value| - 2..] == [0x0D, 0x0A])
    ensures IsFrame(arrived) ==> r == Ok(arrived) && port.pending == []
  {
    hide Respond, IsFrame;
    port.Write(aduRequest);
    arrived := port.pending;
    var data: seq<byte> := [];
    StartIsNotEnd(arrived);
    while true
      invariant arrived == data + port.pending && |data| < Ascii.ASCII_MAX_SIZE
      invariant port.bus == Respond(port.framing, old(port.bus), aduRequest).0
      invariant IsFrame(arrived) ==> |data| < |arrived|
      decreases |port.pending|
    {
      var chunk := port.Read(Ascii.ASCII_MAX_SIZE - |data|);
      if chunk.Err? {
        return chunk, arrived;
      }
      data := data + chunk.value;
      assert data == arrived[..|data|];
      if |data| >= Ascii.ASCII_MAX_SIZE || chunk.value == [] {
        FullBufferEndsFrame(arrived, |data|);
        break;
      }
      if IsFrame(arrived) {
        EndSeenOnlyAtEnd(arrived, |data|);
      }
      if |data| > Ascii.ASCII_MIN_SIZE {
        if data[|data| - 2..] == [Ascii.CR, Ascii.LF] {
          break;
        }
      }
    }
    assert arrived == data + port.pending;
    assert IsFrame(arrived) ==> |data| == |arrived| && data == arrived && port.pending == [];
    r := Ok(data);
  }

  lemma StartIsNotEnd(s: seq<byte>)
    ensures IsFrame(s) ==> s != []
  {
    hide Ascii.Frame;
  }

  lemma EndSeenOnlyAtEnd(s: seq<byte>, k: nat)
    requires k <= |s| && IsFrame(s)
    ensures if k > Ascii.ASCII_MIN_SIZE then s[..k][k - 2..] == [Ascii.CR, Ascii.LF] <==> k == |s| else k < |s|
  {
    hide Ascii.Frame;
    var slave, p :| s == Ascii.Frame(slave, p) && |p.data| <= 252;
    if k > Ascii.ASCII_MIN_SIZE {
      Ascii.OnlyTheEndLooksLikeTheEnd(slave, p, k);
      assert s[..k][k - 2..] == s[k - 2..k];
    }
  }

  lemma FullBufferEndsFrame(s: seq<byte>, k: nat)
    requires k <= |s|
    ensures IsFrame(s) && k >= Ascii.ASCII_MAX_SIZE ==> k == |s|
  {
    hide Ascii.Frame;
  }

  // ----- TCP -----

  /** The header is gone, and at most one buffer of what followed it. */
  ghost predicate Flushed(arrived: seq<byte>, left: seq<byte>) {
    exists n ::
      Tcp.TCP_HEADER_SIZE <= n <= |arrived| && n <= Tcp.TCP_HEADER_SIZE + Tcp.TCP_MAX_LENGTH && left == arrived[n..]
  }

  /**
   What tcpTransporter.Send makes of the bytes on the connection, and what it leaves there; after a bad length,
   which no conforming device sends, the flush may also leave more.
   */
  function ReadReply(arrived: seq<byte>): (Result<seq<byte>>, seq<byte>) {
    if |arrived| < Tcp.TCP_HEADER_SIZE then (Err(Timeout), [])
    else
      var length: nat := Get16(arrived, 4);
      if length == 0 || length > 254 then (Err(BadLength), [])
      else if |arrived| < 6 + length then (Err(Timeout), [])
      else (Ok(arrived[..6 + length]), arrived[6 + length..])
  }

  /** What is returned is exactly a frame at the head that its header announces and that fits the 260 bytes. */
  lemma ReadReplyIff(arrived: seq<byte>, adu: seq<byte>, rest: seq<byte>)
    ensures ReadReply(arrived) == (Ok(adu), rest) <==>
            arrived == adu + rest && 7 <= |adu| <= 260 && Get16(adu, 4) as nat + 6 == |adu|
  {
    if arrived == adu + rest && |adu| >= 7 {
      assert Get16(arrived, 4) == Get16(adu, 4);
      assert arrived[..|adu|] == adu && arrived[|adu|..] == rest;
    }
    hide Get16;
    if ReadReply(arrived) == (Ok(adu), rest) {
      assert arrived == arrived[..|adu|] + arrived[|adu|..];
    }
  }

  /** Send: write, read the header, check its length field, read the rest. */
  method TcpSend(port: Port, aduRequest: seq<byte>) returns (r: Result<seq<byte>>, ghost arrived: seq<byte>)
    modifies port
    ensures port.bus == Respond(port.framing, old(port.bus), aduRequest).0
    ensures arrived == old(port.pending) + Respond(port.framing, old(port.bus), aduRequest).1
    ensures if |arrived| < Tcp.TCP_HEADER_SIZE then r == Err(Timeout) && port.pending == []
            else
              var length := Get16(arrived, 4) as nat;
              if length == 0 || length > 254 then r == Err(BadLength) && Flushed(arrived, port.pending)
              else if |arrived| < 6 + length then r == Err(Timeout) && port.pending == []
              else r == Ok(arrived[..6 + length]) && port.pending == arrived[6 + length..]
  {
    hide Respond, Get16;
    port.Write(aduRequest);
    arrived := port.pending;
    r := TcpReceive(port);
  }

  /** The reading half of Send. */
  method TcpReceive(port: Port) returns (r: Result<seq<byte>>)
    modifies port`pending
    ensures var arrived := old(port.pending);
            if |arrived| < Tcp.TCP_HEADER_SIZE then r == Err(Timeout) && port.pending == []
            else
              var length := Get16(arrived, 4) as nat;
              if length == 0 || length > 254 then r == Err(BadLength) && Flushed(arrived, port.pending)
              else if |arrived| < 6 + length then r == Err(Timeout) && port.pending == []
              else r == Ok(arrived[..6 + length]) && port.pending == arrived[6 + length..]
  {
    hide Get16;
    ghost var arrived := port.pending;
    var header := port.ReadFull(Tcp.TCP_HEADER_SIZE);
    if header.Err? {
      return header;
    }
    LengthInHeader(arrived);
    var length: nat := Get16(header.value, 4);
    if length <= 0 {
      FlushAfterHeader(port, arrived);
      return Err(BadLength);
    }
    if length > Tcp.TCP_MAX_LENGTH - (Tcp.TCP_HEADER_SIZE - 1) {
      FlushAfterHeader(port, arrived);
      return Err(BadLength);
    }
    var rest := port.ReadFull(length + Tcp.TCP_HEADER_SIZE - 1 - Tcp.TCP_HEADER_SIZE);
    if rest.Err? {
      return rest;
    }
    TwoParts(arrived, 6 + length);
    return Ok(header.value + rest.value);
  }

  method FlushAfterHeader(port: Port, ghost arrived: seq<byte>)
    requires |arrived| >= Tcp.TCP_HEADER_SIZE && port.pending == arrived[Tcp.TCP_HEADER_SIZE..]
    modifies port`pending
    ensures Flushed(arrived, port.pending)
  {
    port.Flush(Tcp.TCP_MAX_LENGTH);
    ghost var n: nat :| n <= |arrived| - Tcp.TCP_HEADER_SIZE && n <= Tcp.TCP_MAX_LENGTH
                        && port.pending == arrived[Tcp.TCP_HEADER_SIZE..][n..];
    assert port.pending == arrived[Tcp.TCP_HEADER_SIZE + n..];
  }

  lemma LengthInHeader(arrived: seq<byte>)
    requires |arrived| >= Tcp.TCP_HEADER_SIZE
    ensures Get16(arrived[..Tcp.TCP_HEADER_SIZE], 4) == Get16(arrived, 4)
  {
  }

  lemma TwoParts(s: seq<byte>, n: nat)
    requires Tcp.TCP_HEADER_SIZE <= n <= |s|
    ensures s[..Tcp.TCP_HEADER_SIZE] + s[Tcp.TCP_HEADER_SIZE..][..n - Tcp.TCP_HEADER_SIZE] == s[..n]
    ensures s[Tcp.TCP_HEADER_SIZE..][n - Tcp.TCP_HEADER_SIZE..] == s[n..]
  {
  }
}
