/** The enhanced handler: requests over RTU or TCP, coil packing and register lists. */
module Handler {
  import opened Bytes
  import opened Words
  import opened Device
  import opened Requests
  import opened Line
  import opened Streams
  import Rtu
  import Tcp
  import C = Client

  /** buildRequestPDU. */
  method BuildRequestPdu(functionCode: byte, data: seq<byte>) returns (pdu: seq<byte>)
    ensures pdu == Raw(Pdu(functionCode, data))
  {
    var buffer := new byte[1 + |data|];
    buffer[0] := functionCode;
    forall i | 0 <= i < |data| {
      buffer[1 + i] := data[i];
    }
    pdu := buffer[..];
  }

  // ----- What the handler does with a reply -----

  /** A reply sendAndReceive returns: same function, below 0x80, of a shape Receive knows. */
  ghost predicate Returned(request: Pdu, reply: Pdu) {
    reply.functionCode == request.functionCode < 0x80 && Receivable(Raw(reply)) && |reply.data| <= 251
  }

  /** What a failed exchange leaves: over RTU, Receive gives up on an exception after the first two bytes. */
  function ErrorLeft(framing: Framing, slave: byte, request: Pdu, bus: Bus): seq<byte> {
    if framing.RtuFraming? && slave in bus && |request.data| <= 252
    then Rtu.Frame(slave, Serve(bus[slave], request).1)[2..] else []
  }

  /** Why an exchange failed: nothing came, Receive does not know the exception's function, or the exception itself. */
  function CallError(framing: Framing, slave: byte, request: Pdu, bus: Bus): Error {
    if slave !in bus || |request.data| > 252 then Timeout
    else if framing.RtuFraming? then Unsupported
    else
      var reply := Serve(bus[slave], request).1;
      Exception(reply.functionCode, if reply.data == [] then 0 else reply.data[0])
  }

  /** The result of one exchange over an idle line, and the devices and the line after it. */
  ghost predicate Exchanged(framing: Framing, slave: byte, request: Pdu, bus: Bus, bus': Bus, left: seq<byte>,
                            r: Result<seq<byte>>)
  {
    && (framing.TcpFraming? ==> left == [])
    && if |request.data| > 252 || slave !in bus then r == Err(Timeout) && bus' == bus && left == []
       else
         var (memory, reply) := Serve(bus[slave], request);
         && bus' == bus[slave := memory]
         && (Returned(request, reply) ==> r == Ok(Raw(reply)) && left == [])
         && (reply.functionCode >= 0x80 ==>
               r == Err(CallError(framing, slave, request, bus)) && left == ErrorLeft(framing, slave, request, bus))
  }

  ghost predicate ExceptionRest(slave: byte, functionCode: byte, left: seq<byte>) {
    exists code: byte :: left == Rtu.Frame(slave, ExceptionReply(functionCode, code))[2..]
  }

  /** Over RTU at most the exception's code and CRC stay behind a call, and nothing over TCP or behind a success. */
  ghost predicate LineAfter(framing: Framing, slave: byte, functionCode: byte, ok: bool, left: seq<byte>) {
    left == [] || (framing.RtuFraming? && !ok && ExceptionRest(slave, functionCode, left))
  }

  /** Receive of the handler's transporter; the transaction id it returns over TCP is dropped. */
  function Received(framing: Framing, s: seq<byte>): (Result<RtuMessage>, seq<byte>) {
    if framing.RtuFraming? then ReceiveRtu(s)
    else
      var (m, rest) := ReceiveTcp(s);
      (if m.Err? then Err(m.error) else Ok(RtuMessage(m.value.unit, m.value.pdu)), rest)
  }

  /** What sendAndReceive makes of a received message: only the slave id and the exception bit are looked at. */
  function Judged(slaveID: byte, m: Result<RtuMessage>): Result<seq<byte>> {
    if m.Err? then Err(m.error)
    else if m.value.slave != slaveID then Err(BadSlave)
    else if m.value.pdu != [] && m.value.pdu[0] >= 0x80
    then Err(Exception(m.value.pdu[0], if |m.value.pdu| > 1 then m.value.pdu[1] else 0))
    else Ok(m.value.pdu)
  }

  /** What the two Receives make of a whole reply frame. */
  lemma ReplyReceived(framing: Framing, slave: byte, request: Pdu, reply: Pdu)
    requires 1 <= |reply.data| <= 251
    ensures Returned(request, reply) ==>
              ReceiveRtu(Rtu.Frame(slave, reply)) == (Ok(RtuMessage(slave, Raw(reply))), [])
    ensures reply.functionCode >= 0x80 ==>
              ReceiveRtu(Rtu.Frame(slave, reply)) == (Err(Unsupported), Rtu.Frame(slave, reply)[2..])
    ensures ReceiveTcp(Tcp.Frame(0, slave, reply)) == (Ok(Tcp.Message(0, slave, Raw(reply))), [])
  {
    var f := Rtu.Frame(slave, reply);
    Rtu.PackIsFrame(slave, reply);
    Rtu.FrameIsSealed(slave, reply);
    hide Rtu.Frame, Tcp.Frame, Rtu.Pack, ReceiveTcp, Tcp.Pack;
    if Returned(request, reply) {
      assert f + [] == f;
      ReceiveRtuIff(f, slave, Raw(reply), []);
    }
    TcpReplyReceived(slave, reply);
  }

  lemma TcpReplyReceived(slave: byte, reply: Pdu)
    requires |reply.data| <= 251
    ensures ReceiveTcp(Tcp.Frame(0, slave, reply)) == (Ok(Tcp.Message(0, slave, Raw(reply))), [])
  {
    var f := Tcp.Frame(0, slave, reply);
    hide ReceiveTcp;
    ReceiveTcpIff(f, Tcp.Message(0, slave, Raw(reply)), []);
    assert f == Tcp.Pack(0, slave, Raw(reply)) + [];
  }

  // ----- Requests the handler sends without checking their bounds -----

  predicate Sendable(r: Request) {
    IsRead(r) || r.WriteMultipleCoils? || r.WriteMultipleRegisters?
  }

  /** Admitted and served, or answered with an exception and no effect. */
  lemma HandlerMeaning(r: Request, m: Memory)
    requires Sendable(r)
    ensures var p := RequestPdu(r);
            var (memory, reply) := Serve(m, p);
            && 1 <= |reply.data| <= 251 && p.functionCode < 0x80
            && if Admit(r).Ok? && Served(r, m) then
                 && memory == Effect(r, m) && |p.data| <= 252 && reply.functionCode == p.functionCode
                 && Returned(p, reply) && Accept(r, reply.data) == Ok(Answer(r, m))
               else
                 && memory == m && reply.functionCode >= 0x80
                 && exists code: byte :: reply == ExceptionReply(p.functionCode, code)
  {
    FunctionCodeOf(r);
    if Admit(r).Err? {
      RefusedByEveryDevice(r, m);
      hide Serve, RequestPdu;
    } else {
      RequestMeaning(r, m);
      if Served(r, m) {
        C.RequestSize(r, m);
        AcceptedIsReceivable(r, m, Serve(m, RequestPdu(r)).1);
      }
      hide Serve, RequestPdu, Answer, Effect, Accept, Served;
    }
  }

  lemma AcceptedIsReceivable(r: Request, m: Memory, reply: Pdu)
    requires Sendable(r) && Served(r, m) && reply.data != [] && |reply.data| <= 251
    requires reply.functionCode == RequestPdu(r).functionCode && Accept(r, reply.data).Ok?
    ensures Receivable(Raw(reply))
  {
    hide WordBytes;
    assert Raw(reply)[1] == reply.data[0];
  }

  /** What arrives on an idle line and what the two Receives make of it. */
  lemma ReplyExchanged(framing: Framing, slave: byte, p: Pdu, bus: Bus)
    requires !framing.AsciiFraming?
    ensures var (bus', arrived) := Respond(framing, bus, FrameOf(framing, 0, slave, p));
            if |p.data| > 252 || slave !in bus then
              bus' == bus && ReceiveRtu(arrived) == (Err(Timeout), []) && ReceiveTcp(arrived) == (Err(Timeout), [])
            else
              var (memory, reply) := Serve(bus[slave], p);
              && bus' == bus[slave := memory]
              && (framing.RtuFraming? && Returned(p, reply) ==>
                    ReceiveRtu(arrived) == (Ok(RtuMessage(slave, Raw(reply))), []))
              && (framing.RtuFraming? && reply.functionCode >= 0x80 ==>
                    ReceiveRtu(arrived) == (Err(Unsupported), Rtu.Frame(slave, reply)[2..]))
              && (framing.TcpFraming? ==> ReceiveTcp(arrived) == (Ok(Tcp.Message(0, slave, Raw(reply))), []))
  {
    if |p.data| > 252 {
      C.LongRequestUnheard(framing, bus, 0, slave, p);
      EmptyReceive();
    } else {
      RequestAnswered(framing, bus, 0, slave, p);
      EmptyReceive();
      if slave in bus {
        ServeShape(bus[slave], p);
        ReplyReceived(framing, slave, p, Serve(bus[slave], p).1);
      }
    }
    hide Serve, Respond, Rtu.Frame, Tcp.Frame, ReceiveRtu, ReceiveTcp, Returned;
  }

  /** One exchange over an idle line. */
  lemma IdleExchanged(framing: Framing, slave: byte, p: Pdu, bus: Bus)
    requires !framing.AsciiFraming?
    ensures var (bus', arrived) := Respond(framing, bus, FrameOf(framing, 0, slave, p));
            var (m, left) := Received(framing, arrived);
            Exchanged(framing, slave, p, bus, bus', left, Judged(slave, m))
  {
    ReplyExchanged(framing, slave, p, bus);
    hide Serve, Respond, FrameOf, Rtu.Frame, ReceiveRtu, ReceiveTcp, Receivable;
  }

  function PayloadOf(functionCode: byte, response: Result<seq<byte>>): Result<seq<byte>> {
    if response.Err? then response
    else
      var pdu := response.value;
      if pdu == [] then Err(RuntimePanic)
      else if pdu[0] != functionCode then Err(Exception(pdu[0], 0))
      else if |pdu| < 2 then Err(TooShort)
      else if |pdu| != 2 + pdu[1] as int then Err(BadLength)
      else Ok(pdu[2..])
  }

  /** A payload is returned exactly from a PDU of the requested function that counts it. */
  lemma PayloadIff(functionCode: byte, pdu: seq<byte>, data: seq<byte>)
    ensures PayloadOf(functionCode, Ok(pdu)) == Ok(data) <==>
            |data| < 0x100 && pdu == [functionCode, |data|] + data
    ensures pdu != [] && pdu[0] != functionCode ==> PayloadOf(functionCode, Ok(pdu)) == Err(Exception(pdu[0], 0))
  {
    if |pdu| >= 2 {
      assert pdu == [pdu[0], pdu[1]] + pdu[2..];
    }
  }

  function EchoOf(functionCode: byte, response: Result<seq<byte>>, expectedLength: nat): (r: Result<seq<byte>>)
    ensures r.Ok? ==> |r.value| == expectedLength
  {
    if response.Err? then response
    else if response.value == [] then Err(RuntimePanic)
    else if response.value[0] != functionCode then Err(Exception(response.value[0], 0))
    else if |response.value| != expectedLength then Err(BadLength)
    else response
  }

  /** The outcome of a handler call: the request's meaning if the device serves it, else an error without effect. */
  ghost predicate Answered(framing: Framing, request: Request, slave: byte, bus: Bus, bus': Bus, left: seq<byte>,
                           r: Result<seq<byte>>)
  {
    if slave in bus && Admit(request).Ok? && Served(request, bus[slave]) then
      r == Ok(Answer(request, bus[slave])) && bus' == bus[slave := Effect(request, bus[slave])] && left == []
    else
      && r == Err(CallError(framing, slave, RequestPdu(request), bus)) && bus' == bus
      && left == ErrorLeft(framing, slave, RequestPdu(request), bus)
  }

  /** The echo of a write is returned exactly from a PDU of the requested function and the expected length. */
  lemma EchoIff(functionCode: byte, pdu: seq<byte>, expectedLength: nat, r: seq<byte>)
    requires expectedLength > 0
    ensures EchoOf(functionCode, Ok(pdu), expectedLength) == Ok(r) <==>
            pdu == r && |r| == expectedLength && r[0] == functionCode
    ensures pdu != [] && pdu[0] != functionCode ==>
              EchoOf(functionCode, Ok(pdu), expectedLength) == Err(Exception(pdu[0], 0))
  {
  }

  lemma ReadAnswered(framing: Framing, request: Request, slave: byte, bus: Bus, bus': Bus, left: seq<byte>,
                     response: Result<seq<byte>>)
    requires IsRead(request)
    requires Exchanged(framing, slave, RequestPdu(request), bus, bus', left, response)
    ensures Answered(framing, request, slave, bus, bus', left, PayloadOf(RequestPdu(request).functionCode, response))
  {
    hide Serve, RequestPdu, Answer, Effect, Served, Admit, Accept, Receivable;
    if slave in bus {
      HandlerMeaning(request, bus[slave]);
      CountedAccept(request, Serve(bus[slave], RequestPdu(request)).1);
      assert bus[slave := bus[slave]] == bus;
    }
  }

  /** The outcome of a write: the reply echoes address and quantity and the device acted, or neither. */
  ghost predicate Written(framing: Framing, request: Request, slave: byte, bus: Bus, bus': Bus, left: seq<byte>,
                          r: Result<seq<byte>>)
    requires request.WriteMultipleCoils? || request.WriteMultipleRegisters?
  {
    if slave in bus && Admit(request).Ok? && Served(request, bus[slave]) then
      && bus' == bus[slave := Effect(request, bus[slave])] && left == []
      && r.Ok? && |r.value| == 5 && Get16(r.value, 1) == request.address && Get16(r.value, 3) == request.quantity
    else
      && r == Err(CallError(framing, slave, RequestPdu(request), bus)) && bus' == bus
      && left == ErrorLeft(framing, slave, RequestPdu(request), bus)
  }

  lemma WriteAnswered(framing: Framing, request: Request, slave: byte, bus: Bus, bus': Bus, left: seq<byte>,
                      response: Result<seq<byte>>)
    requires request.WriteMultipleCoils? || request.WriteMultipleRegisters?
    requires Exchanged(framing, slave, RequestPdu(request), bus, bus', left, response)
    ensures Written(framing, request, slave, bus, bus', left, EchoOf(RequestPdu(request).functionCode, response, 5))
  {
    hide Serve, RequestPdu, Answer, Effect, Served, Admit, Accept, Receivable;
    if slave in bus {
      HandlerMeaning(request, bus[slave]);
      if Admit(request).Ok? && Served(request, bus[slave]) {
        EchoAccept(request, bus[slave], Serve(bus[slave], RequestPdu(request)).1);
      }
      assert bus[slave := bus[slave]] == bus;
    }
  }

  /** SendAndReceive's line is what arrives when nothing was pending. */
  lemma FromIdle(framing: Framing, slave: byte, p: Pdu, bus: Bus)
    requires !framing.AsciiFraming?
    ensures var (bus', arrived) := Respond(framing, bus, FrameOf(framing, 0, slave, p));
            var (m, left) := Received(framing, [] + arrived);
            Exchanged(framing, slave, p, bus, bus', left, Judged(slave, m))
  {
    IdleExchanged(framing, slave, p, bus);
    hide *;
    var arrived := Respond(framing, bus, FrameOf(framing, 0, slave, p)).1;
    assert [] + arrived == arrived;
  }

  // ----- What an exception leaves on an RTU line -----

  /** The rest of a failed call is empty, or code and CRC of the exception of a device that is there. */
  lemma ErrorLeftIff(framing: Framing, slave: byte, r: Request, bus: Bus)
    requires Sendable(r) && !(slave in bus && Admit(r).Ok? && Served(r, bus[slave]))
    ensures var left := ErrorLeft(framing, slave, RequestPdu(r), bus);
            && LineAfter(framing, slave, RequestPdu(r).functionCode, false, left)
            && (|left| == 3 <==> framing.RtuFraming? && slave in bus && |RequestPdu(r).data| <= 252)
            && (left == [] <==> |left| != 3)
  {
    hide Serve, RequestPdu, Rtu.Frame, Served, Admit;
    if slave in bus {
      HandlerMeaning(r, bus[slave]);
      var code: byte :| Serve(bus[slave], RequestPdu(r)).1 == ExceptionReply(RequestPdu(r).functionCode, code);
      RestSize(slave, ExceptionReply(RequestPdu(r).functionCode, code));
    }
  }

  lemma AnsweredLine(framing: Framing, r: Request, slave: byte, bus: Bus, bus': Bus, left: seq<byte>,
                     data: Result<seq<byte>>)
    requires IsRead(r) && Answered(framing, r, slave, bus, bus', left, data)
    ensures LineAfter(framing, slave, RequestPdu(r).functionCode, data.Ok?, left)
  {
    hide ErrorLeft, CallError, Served, Answer, Effect, RequestPdu, Admit, ExceptionRest;
    if !(slave in bus && Admit(r).Ok? && Served(r, bus[slave])) {
      ErrorLeftIff(framing, slave, r, bus);
    }
  }

  lemma WrittenLine(framing: Framing, r: Request, slave: byte, bus: Bus, bus': Bus, left: seq<byte>,
                    data: Result<seq<byte>>)
    requires r.WriteMultipleCoils? || r.WriteMultipleRegisters?
    requires Written(framing, r, slave, bus, bus', left, data)
    ensures LineAfter(framing, slave, RequestPdu(r).functionCode, data.Ok?, left)
  {
    hide ErrorLeft, CallError, Served, Effect, RequestPdu, Admit, ExceptionRest;
    if !(slave in bus && Admit(r).Ok? && Served(r, bus[slave])) {
      ErrorLeftIff(framing, slave, r, bus);
    }
  }

  lemma RestSize(slave: byte, reply: Pdu)
    ensures |Rtu.Frame(slave, reply)[2..]| == |reply.data| + 2
    ensures reply.data != [] ==> Rtu.Frame(slave, reply)[2] == reply.data[0]
  {
  }

  /**
   The next call on that line takes the exception code for a slave id and the low CRC byte for a function: to a slave
   whose id is not the code it always fails, whatever is answered, and for an unknown function it leaves the last byte
   and the whole answer on the line.
   */
  lemma NextCallFails(slave: byte, functionCode: byte, left: seq<byte>, next: byte, arrived: seq<byte>)
    requires ExceptionRest(slave, functionCode, left)
    ensures |left| == 3
    ensures var (m, rest) := Received(RtuFraming, left + arrived);
            && (next != left[0] ==> Judged(next, m).Err?)
            && (left[1] !in {1, 2, 3, 4, 5, 6, 7, 15, 16} ==> m == Err(Unsupported) && rest == left[2..] + arrived)
  {
    hide ReceiveRtu, ExceptionRest;
    RestIsThree(slave, functionCode, left);
    HeadReceived(left + arrived);
    assert (left + arrived)[2..] == left[2..] + arrived;
  }

  lemma RestIsThree(slave: byte, functionCode: byte, left: seq<byte>)
    requires ExceptionRest(slave, functionCode, left)
    ensures |left| == 3
  {
    hide Rtu.Frame;
    var code: byte :| left == Rtu.Frame(slave, ExceptionReply(functionCode, code))[2..];
    RestSize(slave, ExceptionReply(functionCode, code));
  }

  lemma HeadReceived(s: seq<byte>)
    requires |s| >= 2
    ensures ReceiveRtu(s).0.Ok? ==> ReceiveRtu(s).0.value.slave == s[0]
    ensures s[1] !in {1, 2, 3, 4, 5, 6, 7, 15, 16} ==> ReceiveRtu(s) == (Err(Unsupported), s[2..])
  {
  }

  /** The PDU a call is answered with, whatever was on the line before it. */
  function CallReply(framing: Framing, bus: Bus, pending: seq<byte>, slave: byte, p: Pdu): Result<seq<byte>> {
    Judged(slave, Received(framing, pending + Respond(framing, bus, FrameOf(framing, 0, slave, p)).1).0)
  }

  lemma IsCallReply(framing: Framing, bus: Bus, pending: seq<byte>, slave: byte, p: Pdu, response: Result<seq<byte>>)
    requires var arrived := Respond(framing, bus, FrameOf(framing, 0, slave, p)).1;
             response == Judged(slave, Received(framing, pending + arrived).0)
    ensures response == CallReply(framing, bus, pending, slave, p)
  {
  }

  /** What WriteMultipleCoils sends: the list cut to its uint16 length, packed unless the byte count wraps. */
  function CoilPdu(start: uint16, values: seq<bool>): Pdu {
    var quantity := Wrap16(|values|);
    Pdu(15, DataBlockSuffix(if quantity <= 65528 then PackBits(values[..quantity]) else [], [start, quantity]))
  }

  function RegisterPdu(start: uint16, values: seq<uint16>): Pdu {
    Pdu(16, DataBlockSuffix(WordBytes(values), [start, Wrap16(|values|)]))
  }

  /** The five bytes that acknowledge a write. */
  function Acknowledged(functionCode: byte, start: uint16, quantity: uint16): seq<byte> {
    [functionCode] + Put16(start) + Put16(quantity)
  }

  lemma EchoAcknowledges(functionCode: byte, response: Result<seq<byte>>, start: uint16, quantity: uint16)
    ensures var r := EchoOf(functionCode, response, 5);
            response == Ok(Acknowledged(functionCode, start, quantity))
            <==> r.Ok? && Get16(r.value, 1) == start && Get16(r.value, 3) == quantity
  {
    var r := EchoOf(functionCode, response, 5);
    if r.Ok? {
      Put16OfGet16(r.value, 1);
      Put16OfGet16(r.value, 3);
      assert r.value == [r.value[0]] + r.value[1..3] + r.value[3..5];
    }
  }

  // ----- A line that still holds old replies -----

  function Packed(framing: Framing, m: Tcp.Message): seq<byte> {
    if framing.RtuFraming? then Rtu.Pack(m.unit, m.pdu) else Tcp.Pack(m.transaction, m.unit, m.pdu)
  }

  /** Whole frames that were never received, each with any transaction id. */
  function Held(framing: Framing, stale: seq<Tcp.Message>): seq<byte> {
    if stale == [] then [] else Packed(framing, stale[0]) + Held(framing, stale[1..])
  }

  predicate CanHold(framing: Framing, m: Tcp.Message) {
    if framing.RtuFraming? then Receivable(m.pdu) else |m.pdu| < TCP_RECEIVE_MAX
  }

  lemma FirstReceived(framing: Framing, m: Tcp.Message, rest: seq<byte>)
    requires !framing.AsciiFraming? && CanHold(framing, m)
    ensures Received(framing, Packed(framing, m) + rest) == (Ok(RtuMessage(m.unit, m.pdu)), rest)
  {
    hide ReceiveRtu, ReceiveTcp, Rtu.Pack, Tcp.Pack, Receivable;
    if framing.RtuFraming? {
      ReceiveRtuIff(Packed(framing, m) + rest, m.unit, m.pdu, rest);
    } else {
      ReceiveTcpIff(Packed(framing, m) + rest, m, rest);
    }
  }

  /**
   A request whose reply the handler can receive, on a line that holds whole old replies: the call returns the oldest
   of them. It is the answer to this request if and only if there is none or the oldest is the very same message,
   whatever its transaction id; and the line goes on holding as many replies as before, now with this one as the last.
   */
  lemma AnswersThisRequestIff(framing: Framing, slave: byte, p: Pdu, bus: Bus, stale: seq<Tcp.Message>)
    requires !framing.AsciiFraming? && |p.data| <= 252 && slave in bus && Returned(p, Serve(bus[slave], p).1)
    requires forall m :: m in stale ==> CanHold(framing, m)
    ensures var reply := Serve(bus[slave], p).1;
            var line := stale + [Tcp.Message(0, slave, Raw(reply))];
            var arrived := Respond(framing, bus, FrameOf(framing, 0, slave, p)).1;
            var (m, left) := Received(framing, Held(framing, stale) + arrived);
            && m == Ok(RtuMessage(line[0].unit, line[0].pdu)) && left == Held(framing, line[1..])
            && (Judged(slave, m) == Ok(Raw(reply)) <==>
                  stale == [] || (stale[0].unit == slave && stale[0].pdu == Raw(reply)))
  {
    hide Respond, FrameOf, Serve, Received, Held, Packed, Receivable, Judged;
    var reply := Serve(bus[slave], p).1;
    var last := Tcp.Message(0, slave, Raw(reply));
    var line := stale + [last];
    ReplyIsPacked(framing, slave, p, bus);
    HeldSnoc(framing, stale, last);
    assert line[0] == if stale == [] then last else stale[0];
    HeldFirst(framing, line);
    FirstReceived(framing, line[0], Held(framing, line[1..]));
    JudgedIff(slave, line[0].unit, line[0].pdu, Raw(reply));
  }

  /** On a line that holds these old replies, the call returns the reply of this device to this request. */
  predicate ReturnsItsReply(framing: Framing, slave: byte, p: Pdu, bus: Bus, stale: seq<Tcp.Message>)
    requires slave in bus
  {
    var arrived := Respond(framing, bus, FrameOf(framing, 0, slave, p)).1;
    Judged(slave, Received(framing, Held(framing, stale) + arrived).0) == Ok(Raw(Serve(bus[slave], p).1))
  }

  /** Whatever serves this read, on a line that holds these old replies the call returns its reply. */
  ghost predicate AlwaysItsReply(framing: Framing, slave: byte, request: Request, stale: seq<Tcp.Message>) {
    forall bus: Bus :: slave in bus && Served(request, bus[slave]) ==>
      ReturnsItsReply(framing, slave, RequestPdu(request), bus, stale)
  }

  /** A device with every cell of every table the same. */
  function UniformMemory(on: bool): Memory {
    var bits := seq(0x2_0000, _ => on);
    var words: seq<uint16> := seq(0x2_0000, _ => if on then 1 else 0);
    Memory(bits, bits, words, words)
  }

  /** Over all devices that serve a read, the call always returns its reply exactly when the line holds no old one. */
  lemma AlwaysItsReplyIff(framing: Framing, slave: byte, request: Request, stale: seq<Tcp.Message>)
    requires !framing.AsciiFraming? && IsRead(request) && Admit(request).Ok?
    requires forall m :: m in stale ==> CanHold(framing, m)
    ensures AlwaysItsReply(framing, slave, request, stale) <==> stale == []
  {
    hide ReturnsItsReply, CanHold, UniformMemory, RequestPdu, Serve, IsRead, Admit;
    if stale == [] {
      forall bus: Bus | slave in bus && Served(request, bus[slave])
        ensures ReturnsItsReply(framing, slave, RequestPdu(request), bus, stale)
      {
        ItsReplyIff(framing, slave, request, bus, stale);
      }
    } else {
      UniformServes(request, false);
      UniformServes(request, true);
      ItsReplyIff(framing, slave, request, map[slave := UniformMemory(false)], stale);
      ItsReplyIff(framing, slave, request, map[slave := UniformMemory(true)], stale);
      UniformRepliesDiffer(request);
    }
  }

  lemma ItsReplyIff(framing: Framing, slave: byte, request: Request, bus: Bus, stale: seq<Tcp.Message>)
    requires !framing.AsciiFraming? && IsRead(request) && Admit(request).Ok?
    requires forall m :: m in stale ==> CanHold(framing, m)
    requires slave in bus && Served(request, bus[slave])
    ensures ReturnsItsReply(framing, slave, RequestPdu(request), bus, stale) <==>
            stale == [] || (stale[0].unit == slave && stale[0].pdu == Raw(Serve(bus[slave], RequestPdu(request)).1))
  {
    hide Respond, FrameOf, Serve, Received, Held, Receivable, Judged, CanHold, RequestPdu, Served, Admit, Answer,
      Effect, Accept;
    HandlerMeaning(request, bus[slave]);
    AnswersThisRequestIff(framing, slave, RequestPdu(request), bus, stale);
  }

  lemma UniformServes(r: Request, on: bool)
    requires IsRead(r)
    ensures Served(r, UniformMemory(on))
  {
  }

  lemma UniformRepliesDiffer(r: Request)
    requires IsRead(r) && Admit(r).Ok?
    ensures Raw(Serve(UniformMemory(false), RequestPdu(r)).1) != Raw(Serve(UniformMemory(true), RequestPdu(r)).1)
  {
    UniformServes(r, false);
    UniformServes(r, true);
    HandlerMeaning(r, UniformMemory(false));
    HandlerMeaning(r, UniformMemory(true));
    UniformAnswersDiffer(r);
    hide Serve, RequestPdu, UniformMemory, Answer, Effect, Accept, Served, Admit, Receivable;
    assert forall reply: Pdu :: Raw(reply)[1..] == reply.data;
  }

  lemma UniformAnswersDiffer(r: Request)
    requires IsRead(r) && Admit(r).Ok?
    requires Served(r, UniformMemory(false)) && Served(r, UniformMemory(true))
    ensures Answer(r, UniformMemory(false)) != Answer(r, UniformMemory(true))
  {
    hide PackBits, WordBytes, UniformMemory;
    UniformSlicesDiffer(r.address, r.quantity);
  }

  lemma UniformSlicesDiffer(a: nat, q: nat)
    requires 1 <= q && a + q <= 0x2_0000
    ensures var off, on := UniformMemory(false), UniformMemory(true);
            && |off.coils| == |off.discretes| == |off.holding| == |off.inputs| == 0x2_0000
            && |on.coils| == |on.discretes| == |on.holding| == |on.inputs| == 0x2_0000
            && PackBits(off.coils[a..a + q]) != PackBits(on.coils[a..a + q])
            && PackBits(off.discretes[a..a + q]) != PackBits(on.discretes[a..a + q])
            && WordBytes(off.holding[a..a + q]) != WordBytes(on.holding[a..a + q])
            && WordBytes(off.inputs[a..a + q]) != WordBytes(on.inputs[a..a + q])
  {
    var off, on := UniformMemory(false), UniformMemory(true);
    BitsDiffer(off.coils[a..a + q], on.coils[a..a + q]);
    WordsDiffer(off.holding[a..a + q], on.holding[a..a + q]);
    hide PackBits, WordBytes;
  }

  lemma BitsDiffer(a: seq<bool>, b: seq<bool>)
    requires a != [] && b != [] && a[0] != b[0]
    ensures PackBits(a) != PackBits(b)
  {
    PackBitsAt(a, 0);
    PackBitsAt(b, 0);
    hide PackBits;
  }

  lemma WordsDiffer(a: seq<uint16>, b: seq<uint16>)
    requires a != [] && b != [] && a[0] != b[0]
    ensures WordBytes(a) != WordBytes(b)
  {
    WordBytesAt(a, 0);
    WordBytesAt(b, 0);
    hide WordBytes;
  }

  lemma JudgedIff(slaveID: byte, unit: byte, pdu: seq<byte>, answer: seq<byte>)
    requires answer != [] && answer[0] < 0x80
    ensures Judged(slaveID, Ok(RtuMessage(unit, pdu))) == Ok(answer) <==> unit == slaveID && pdu == answer
  {
  }

  /** A message of another slave is refused, and a PDU [f, c, ...] with f >= 0x80 is the exception f with code c. */
  lemma ExceptionJudged(slaveID: byte, unit: byte, functionCode: byte, code: byte, rest: seq<byte>)
    requires functionCode >= 0x80
    ensures Judged(slaveID, Ok(RtuMessage(unit, [functionCode, code] + rest)))
            == if unit != slaveID then Err(BadSlave) else Err(Exception(functionCode, code))
  {
  }

  lemma HeldFirst(framing: Framing, line: seq<Tcp.Message>)
    requires line != []
    ensures Held(framing, line) == Packed(framing, line[0]) + Held(framing, line[1..])
  {
  }

  lemma {:induction false} HeldSnoc(framing: Framing, stale: seq<Tcp.Message>, m: Tcp.Message)
    ensures Held(framing, stale + [m]) == Held(framing, stale) + Packed(framing, m)
    decreases |stale|
  {
    hide Packed;
    if stale == [] {
      assert [m][1..] == [] && Held(framing, []) == [];
      assert Packed(framing, m) + [] == Packed(framing, m) == [] + Packed(framing, m);
    } else {
      assert (stale + [m])[1..] == stale[1..] + [m];
      HeldSnoc(framing, stale[1..], m);
      assert Packed(framing, stale[0]) + (Held(framing, stale[1..]) + Packed(framing, m))
          == (Packed(framing, stale[0]) + Held(framing, stale[1..])) + Packed(framing, m);
    }
  }

  lemma ReplyIsPacked(framing: Framing, slave: byte, p: Pdu, bus: Bus)
    requires !framing.AsciiFraming? && |p.data| <= 252 && slave in bus && Returned(p, Serve(bus[slave], p).1)
    ensures var last := Tcp.Message(0, slave, Raw(Serve(bus[slave], p).1));
            && Respond(framing, bus, FrameOf(framing, 0, slave, p)).1 == Packed(framing, last)
            && CanHold(framing, last)
  {
    var reply := Serve(bus[slave], p).1;
    RequestAnswered(framing, bus, 0, slave, p);
    Rtu.PackIsFrame(slave, reply);
    TcpPackIsFrame(slave, reply);
    hide Respond, Serve, Rtu.Frame, Tcp.Frame, Rtu.Pack, Tcp.Pack, Receivable;
  }

  lemma EmptyReceive()
    ensures ReceiveRtu([]) == (Err(Timeout), []) && ReceiveTcp([]) == (Err(Timeout), [])
  {
  }

  // ----- What the handler's methods return -----

  ghost predicate CoilsRead(bus: Bus, slaveID: uint16, start: uint16, quantity: uint16, r: Result<seq<bool>>) {
    var slave := slaveID % 0x100;
    if slave in bus && 1 <= quantity <= 2000 && start as nat + quantity <= |bus[slave].coils|
    then r == Ok(Slice(bus[slave].coils, start, quantity)) else r.Err?
  }

  ghost predicate DiscretesRead(bus: Bus, slaveID: uint16, start: uint16, quantity: uint16, r: Result<seq<bool>>) {
    var slave := slaveID % 0x100;
    if slave in bus && 1 <= quantity <= 2000 && start as nat + quantity <= |bus[slave].discretes|
    then r == Ok(Slice(bus[slave].discretes, start, quantity)) else r.Err?
  }

  ghost predicate HoldingRead(bus: Bus, slaveID: uint16, start: uint16, quantity: uint16, r: Result<seq<uint16>>) {
    var slave := slaveID % 0x100;
    if slave in bus && 1 <= quantity <= 125 && start as nat + quantity <= |bus[slave].holding|
    then r == Ok(Slice(bus[slave].holding, start, quantity)) else r.Err?
  }

  /** The list length is truncated to uint16 before anything else. */
  ghost predicate CoilsWritten(bus: Bus, bus': Bus, slaveID: uint16, start: uint16, values: seq<bool>, r: Result<()>) {
    var slave, quantity := slaveID % 0x100, Wrap16(|values|);
    if slave in bus && 1 <= quantity <= 1968 && start as nat + quantity <= |bus[slave].coils| then
      && r == Ok(())
      && bus' == bus[slave := bus[slave].(coils := Patch(bus[slave].coils, start, values[..quantity]))]
    else r.Err? && bus' == bus
  }

  ghost predicate RegistersWritten(bus: Bus, bus': Bus, slaveID: uint16, start: uint16, values: seq<uint16>,
                                   r: Result<()>)
  {
    var slave := slaveID % 0x100;
    if slave in bus && 1 <= |values| <= 123 && start as nat + |values| <= |bus[slave].holding| then
      r == Ok(()) && bus' == bus[slave := bus[slave].(holding := Patch(bus[slave].holding, start, values))]
    else r.Err? && bus' == bus
  }

  predicate IsParsed(bits: seq<bool>, data: seq<byte>, quantity: nat) {
    |bits| == quantity && forall i :: 0 <= i < quantity ==> bits[i] == (i < 8 * |data| && PayloadBit(data, i))
  }

  /** The bits a read of coils or discrete inputs makes of its payload. */
  predicate BitsResult(payload: Result<seq<byte>>, quantity: nat, r: Result<seq<bool>>) {
    if payload.Err? then r == Err(payload.error) else r.Ok? && IsParsed(r.value, payload.value, quantity)
  }

  /** The words a read of registers makes of its payload, whose length is not compared with the quantity. */
  function WordsResult(payload: Result<seq<byte>>): Result<seq<uint16>> {
    if payload.Err? then Err(payload.error)
    else if |payload.value| % 2 != 0 then Err(BadLength)
    else Ok(BytesToWords(payload.value))
  }

  class ModbusHandler {
    const port: Port
    /** Never assigned: every TCP request carries transaction id 0. */
    const transmissionID: uint16 := 0

    constructor (port: Port)
      ensures this.port == port
    {
      this.port := port;
    }

    /** rtuTransporter.Send, then Receive. */
    method ExchangeRtu(slaveID: byte, request: seq<byte>, ghost p: Pdu) returns (r: Result<RtuMessage>)
      requires port.framing.RtuFraming? && request == Raw(p)
      modifies port
      ensures var (bus, arrived) := Respond(port.framing, old(port.bus), Rtu.Frame(slaveID, p));
              port.bus == bus && (r, port.pending) == ReceiveRtu(old(port.pending) + arrived)
    {
      hide Respond, Rtu.Frame, Rtu.Pack, ReceiveRtu;
      Rtu.PackIsFrame(slaveID, p);
      var frame := Rtu.PackPdu(slaveID, request);
      port.Write(frame);
      r := ReceiveRtuFrom(port);
    }

    /** tcpTransporter.Send, then Receive. */
    method ExchangeTcp(slaveID: byte, request: seq<byte>, ghost p: Pdu) returns (r: Result<Tcp.Message>)
      requires port.framing.TcpFraming? && request == Raw(p)
      modifies port
      ensures var (bus, arrived) := Respond(port.framing, old(port.bus), Tcp.Frame(0, slaveID, p));
              port.bus == bus && (r, port.pending) == ReceiveTcp(old(port.pending) + arrived)
    {
      hide Respond, Tcp.Frame, Tcp.Pack, ReceiveTcp;
      TcpPackIsFrame(slaveID, p);
      var frame := Tcp.PackPdu(transmissionID, slaveID, request);
      port.Write(frame);
      r := ReceiveTcpFrom(port);
    }

    /** sendAndReceive, for RTU and TCP, whatever is on the line before. */
    method SendAndReceive(slaveID: byte, request: seq<byte>, ghost p: Pdu) returns (r: Result<seq<byte>>)
      requires !port.framing.AsciiFraming? && request == Raw(p)
      modifies port
      ensures var (bus, arrived) := Respond(port.framing, old(port.bus), FrameOf(port.framing, 0, slaveID, p));
              var (m, left) := Received(port.framing, old(port.pending) + arrived);
              port.bus == bus && port.pending == left && r == Judged(slaveID, m)
    {
      hide Respond, Rtu.Frame, Tcp.Frame, ReceiveRtu, ReceiveTcp;
      var responseId: byte;
      var response: seq<byte>;
      if port.framing.RtuFraming? {
        var received := ExchangeRtu(slaveID, request, p);
        if received.Err? {
          return Err(received.error);
        }
        responseId, response := received.value.slave, received.value.pdu;
      } else {
        var received := ExchangeTcp(slaveID, request, p);
        if received.Err? {
          return Err(received.error);
        }
        responseId, response := received.value.unit, received.value.pdu;
      }
      if responseId != slaveID {
        return Err(BadSlave);
      }
      if |response| > 0 && response[0] >= 0x80 {
        return Err(Exception(response[0], if |response| > 1 then response[1] else 0));
      }
      return Ok(response);
    }

    /** readModbusData: the counted payload of a read reply. */
    method ReadModbusData(functionCode: byte, slaveID: uint16, startAddress: uint16, quantity: uint16,
                          ghost request: Request)
      returns (r: Result<seq<byte>>)
      requires !port.framing.AsciiFraming?
      requires IsRead(request)
      requires RequestPdu(request) == Pdu(functionCode, DataBlock([startAddress, quantity]))
      modifies port
      ensures old(port.pending) == [] ==>
                && Answered(port.framing, request, slaveID % 0x100, old(port.bus), port.bus, port.pending, r)
                && LineAfter(port.framing, slaveID % 0x100, functionCode, r.Ok?, port.pending)
      ensures var p, slave := RequestPdu(request), slaveID % 0x100;
              var reply := CallReply(port.framing, old(port.bus), old(port.pending), slave, p);
              r == PayloadOf(functionCode, reply)
    {
      hide *;
      ghost var p, slave, bus, idle := RequestPdu(request), slaveID % 0x100, port.bus, port.pending == [];
      ghost var pending := port.pending;
      var pduData := C.BuildDataBlock([startAddress, quantity]);
      var requestPdu := BuildRequestPdu(functionCode, pduData);
      var response := SendAndReceive(slaveID % 0x100, requestPdu, p);
      IsCallReply(port.framing, bus, pending, slave, p, response);
      r := Payload(functionCode, response);
      if idle {
        FromIdle(port.framing, slave, p, bus);
        ReadAnswered(port.framing, request, slave, bus, port.bus, port.pending, response);
        AnsweredLine(port.framing, request, slave, bus, port.bus, port.pending, r);
      }
    }

    /** writeModbusData: the reply PDU of a write, of the expected length. */
    method WriteModbusData(functionCode: byte, slaveID: uint16, pduData: seq<byte>, expectedLength: nat,
                           ghost request: Request)
      returns (r: Result<seq<byte>>)
      requires !port.framing.AsciiFraming? && expectedLength == 5
      requires request.WriteMultipleCoils? || request.WriteMultipleRegisters?
      requires RequestPdu(request) == Pdu(functionCode, pduData)
      modifies port
      ensures r.Ok? ==> |r.value| == 5
      ensures old(port.pending) == [] ==>
                && Written(port.framing, request, slaveID % 0x100, old(port.bus), port.bus, port.pending, r)
                && LineAfter(port.framing, slaveID % 0x100, functionCode, r.Ok?, port.pending)
      ensures var p, slave := RequestPdu(request), slaveID % 0x100;
              var reply := CallReply(port.framing, old(port.bus), old(port.pending), slave, p);
              r == EchoOf(functionCode, reply, expectedLength)
    {
      hide *;
      ghost var p, slave, bus, idle := RequestPdu(request), slaveID % 0x100, port.bus, port.pending == [];
      ghost var pending := port.pending;
      var requestPdu := BuildRequestPdu(functionCode, pduData);
      var response := SendAndReceive(slaveID % 0x100, requestPdu, p);
      IsCallReply(port.framing, bus, pending, slave, p, response);
      r := Echo(functionCode, response, expectedLength);
      if idle {
        FromIdle(port.framing, slave, p, bus);
        WriteAnswered(port.framing, request, slave, bus, port.bus, port.pending, response);
        WrittenLine(port.framing, request, slave, bus, port.bus, port.pending, r);
      }
    }

    /** The checks of readModbusData on the response. */
    method Payload(functionCode: byte, response: Result<seq<byte>>) returns (r: Result<seq<byte>>)
      ensures r == PayloadOf(functionCode, response)
    {
      if response.Err? {
        return response;
      }
      var pdu := response.value;
      if |pdu| == 0 {
        return Err(RuntimePanic);
      }
      if pdu[0] != functionCode {
        return Err(Exception(pdu[0], 0));
      }
      if |pdu| < 2 {
        return Err(TooShort);
      }
      var byteCount: nat := pdu[1];
      if |pdu| != 2 + byteCount {
        return Err(BadLength);
      }
      assert pdu[2..2 + byteCount] == pdu[2..];
      return Ok(pdu[2..2 + byteCount]);
    }

    /** The checks of writeModbusData. */
    method Echo(functionCode: byte, response: Result<seq<byte>>, expectedLength: nat) returns (r: Result<seq<byte>>)
      ensures r == EchoOf(functionCode, response, expectedLength)
    {
      if response.Err? {
        return response;
      }
      var pdu := response.value;
      if |pdu| == 0 {
        return Err(RuntimePanic);
      }
      if pdu[0] != functionCode {
        return Err(Exception(pdu[0], 0));
      }
      if |pdu| != expectedLength {
        return Err(BadLength);
      }
      return Ok(pdu);
    }

    method ReadCoils(slaveID: uint16, startAddress: uint16, quantity: uint16) returns (r: Result<seq<bool>>)
      requires !port.framing.AsciiFraming?
      modifies port
      ensures old(port.pending) == [] ==>
                && port.bus == old(port.bus) && CoilsRead(port.bus, slaveID, startAddress, quantity, r)
                && LineAfter(port.framing, slaveID % 0x100, 1, r.Ok?, port.pending)
      ensures var p := Pdu(1, DataBlock([startAddress, quantity]));
              var reply := CallReply(port.framing, old(port.bus), old(port.pending), slaveID % 0x100, p);
              BitsResult(PayloadOf(1, reply), quantity, r)
    {
      hide Answered, CoilsRead, PayloadBit, ExceptionRest, CallReply, PayloadOf, IsParsed, DataBlock;
      ghost var request, bus, idle := Request.ReadCoils(startAddress, quantity), port.bus, port.pending == [];
      var data := ReadModbusData(1, slaveID, startAddress, quantity, request);
      if data.Err? {
        if idle {
          BitsAnswered(port.framing, request, slaveID, bus, port.bus, port.pending, data, []);
        }
        return Err(data.error);
      }
      var coils := ParseBits(data.value, quantity);
      if idle {
        BitsAnswered(port.framing, request, slaveID, bus, port.bus, port.pending, data, coils);
      }
      return Ok(coils);
    }

    method ReadDiscreteInputs(slaveID: uint16, startAddress: uint16, quantity: uint16) returns (r: Result<seq<bool>>)
      requires !port.framing.AsciiFraming?
      modifies port
      ensures old(port.pending) == [] ==>
                && port.bus == old(port.bus) && DiscretesRead(port.bus, slaveID, startAddress, quantity, r)
                && LineAfter(port.framing, slaveID % 0x100, 2, r.Ok?, port.pending)
      ensures var p := Pdu(2, DataBlock([startAddress, quantity]));
              var reply := CallReply(port.framing, old(port.bus), old(port.pending), slaveID % 0x100, p);
              BitsResult(PayloadOf(2, reply), quantity, r)
    {
      hide Answered, DiscretesRead, PayloadBit, ExceptionRest, CallReply, PayloadOf, IsParsed, DataBlock;
      ghost var request, bus, idle := Request.ReadDiscreteInputs(startAddress, quantity), port.bus, port.pending == [];
      var data := ReadModbusData(2, slaveID, startAddress, quantity, request);
      if data.Err? {
        if idle {
          BitsAnswered(port.framing, request, slaveID, bus, port.bus, port.pending, data, []);
        }
        return Err(data.error);
      }
      var inputs := ParseBits(data.value, quantity);
      if idle {
        BitsAnswered(port.framing, request, slaveID, bus, port.bus, port.pending, data, inputs);
      }
      return Ok(inputs);
    }

    method ReadHoldingRegisters(slaveID: uint16, startAddress: uint16, quantity: uint16)
      returns (r: Result<seq<uint16>>)
      requires !port.framing.AsciiFraming?
      modifies port
      ensures old(port.pending) == [] ==>
                && port.bus == old(port.bus) && HoldingRead(port.bus, slaveID, startAddress, quantity, r)
                && LineAfter(port.framing, slaveID % 0x100, 3, r.Ok?, port.pending)
      ensures var p := Pdu(3, DataBlock([startAddress, quantity]));
              var reply := CallReply(port.framing, old(port.bus), old(port.pending), slaveID % 0x100, p);
              r == WordsResult(PayloadOf(3, reply))
    {
      hide Answered, HoldingRead, ExceptionRest, CallReply, PayloadOf, DataBlock, BytesToWords;
      ghost var request := Request.ReadHoldingRegisters(startAddress, quantity);
      ghost var bus, idle := port.bus, port.pending == [];
      var data := ReadModbusData(3, slaveID, startAddress, quantity, request);
      if idle {
        WordsAnswered(port.framing, request, slaveID, bus, port.bus, port.pending, data);
      }
      if data.Err? {
        return Err(data.error);
      }
      if |data.value| % 2 != 0 {
        return Err(BadLength);
      }
      var registers := ParseWords(data.value);
      return Ok(registers);
    }

    method WriteMultipleCoils(slaveID: uint16, startAddress: uint16, values: seq<bool>) returns (r: Result<()>)
      requires !port.framing.AsciiFraming?
      modifies port
      ensures old(port.pending) == [] ==>
                && CoilsWritten(old(port.bus), port.bus, slaveID, startAddress, values, r)
                && LineAfter(port.framing, slaveID % 0x100, 15, r.Ok?, port.pending)
      ensures r.Ok? ==>
                var p, slave := CoilPdu(startAddress, values), slaveID % 0x100;
                CallReply(port.framing, old(port.bus), old(port.pending), slave, p)
                == Ok(Acknowledged(15, startAddress, Wrap16(|values|)))
    {
      hide PackBits, UnpackBits, WordBytes, Patch, ExceptionRest, ErrorLeft, CallError, CallReply, EchoOf, Acknowledged;
      ghost var bus, pending := port.bus, port.pending;
      var quantity := Wrap16(|values|);
      var pduData, payload := BuildCoilData(startAddress, values);
      if pduData.Err? {
        return Err(pduData.error);
      }
      ghost var request := Request.WriteMultipleCoils(startAddress, quantity, payload);
      UnpackOfPack(values[..quantity]);
      var response := WriteModbusData(15, slaveID, pduData.value, 5, request);
      ghost var p := CoilPdu(startAddress, values);
      EchoAcknowledges(15, CallReply(port.framing, bus, pending, slaveID % 0x100, p), startAddress, quantity);
      if response.Err? {
        return Err(response.error);
      }
      if Get16(response.value, 1) != startAddress {
        return Err(BadEcho);
      }
      if Get16(response.value, 3) != quantity {
        return Err(BadEcho);
      }
      return Ok(());
    }

    method WriteMultipleRegisters(slaveID: uint16, startAddress: uint16, values: seq<uint16>) returns (r: Result<()>)
      requires !port.framing.AsciiFraming?
      modifies port
      ensures old(port.pending) == [] ==>
                && RegistersWritten(old(port.bus), port.bus, slaveID, startAddress, values, r)
                && LineAfter(port.framing, slaveID % 0x100, 16, r.Ok?, port.pending)
      ensures r.Ok? ==>
                var p, slave := RegisterPdu(startAddress, values), slaveID % 0x100;
                CallReply(port.framing, old(port.bus), old(port.pending), slave, p)
                == Ok(Acknowledged(16, startAddress, Wrap16(|values|)))
    {
      hide WordBytes, BytesToWords, Patch, ExceptionRest, ErrorLeft, CallError, CallReply, EchoOf, Acknowledged;
      ghost var bus, pending := port.bus, port.pending;
      var quantity := Wrap16(|values|);
      var pduData, payload := BuildRegisterData(startAddress, values);
      if pduData.Err? {
        return Err(pduData.error);
      }
      ghost var request := Request.WriteMultipleRegisters(startAddress, quantity, payload);
      BytesToWordsInverts(values);
      var response := WriteModbusData(16, slaveID, pduData.value, 5, request);
      ghost var p := RegisterPdu(startAddress, values);
      EchoAcknowledges(16, CallReply(port.framing, bus, pending, slaveID % 0x100, p), startAddress, quantity);
      if response.Err? {
        return Err(response.error);
      }
      if Get16(response.value, 1) != startAddress {
        return Err(BadEcho);
      }
      if Get16(response.value, 3) != quantity {
        return Err(BadEcho);
      }
      return Ok(());
    }
  }

  // ----- The loops over coils and registers -----

  /** Bits of the payload, false from where it ends. */
  method ParseBits(data: seq<byte>, quantity: uint16) returns (bits: seq<bool>)
    ensures IsParsed(bits, data, quantity)
  {
    var buffer := new bool[quantity](_ => false);
    var byteCount := |data|;
    for i := 0 to quantity
      invariant forall j :: 0 <= j < i ==> buffer[j] == (j < 8 * |data| && PayloadBit(data, j))
      invariant forall j :: i <= j < quantity ==> !buffer[j]
    {
      var byteIndex := i / 8;
      var bitIndex := i % 8;
      if byteIndex < byteCount {
        if GetBit(data[byteIndex], bitIndex) {
          buffer[i] := true;
        }
      } else {
        break;
      }
    }
    bits := buffer[..];
  }

  method ParseWords(data: seq<byte>) returns (registers: seq<uint16>)
    requires |data| % 2 == 0
    ensures registers == BytesToWords(data)
  {
    hide BytesToWords;
    var buffer := new uint16[|data| / 2];
    for i := 0 to |data| / 2
      invariant forall j :: 0 <= j < i ==> buffer[j] == BytesToWords(data)[j]
    {
      BytesToWordsAt(data, i);
      buffer[i] := Get16(data, 2 * i);
    }
    registers := buffer[..];
  }

  /** A true coil lies past the bytes. */
  predicate Overrun(values: seq<bool>, byteCount: nat) {
    exists j :: 8 * byteCount <= j < |values| && values[j]
  }

  /**
   The PDU data of WriteMultipleCoils. Quantity and byte count are uint16: from 65529 coils on the byte count
   wraps to zero, and the first true coil indexes past the buffer.
   */
  method BuildCoilData(startAddress: uint16, values: seq<bool>) returns (r: Result<seq<byte>>, ghost payload: seq<byte>)
    ensures var quantity := Wrap16(|values|);
            var packed := if quantity <= 65528 then PackBits(values[..quantity]) else [];
            if quantity > 65528 && true in values[..quantity] then r == Err(RuntimePanic)
            else r == Ok(DataBlockSuffix(packed, [startAddress, quantity])) && payload == packed
  {
    hide SetBit, GetBit, PackBits, PayloadBit, Overrun, WordBytes;
    var quantity := Wrap16(|values|);
    var byteCount: nat := Wrap16(quantity as nat + 7) / 8;
    payload := [];
    var packed := values[..quantity];
    OverrunIff(packed, byteCount);
    var coilData := SetCoils(packed, byteCount);
    if coilData.Err? {
      return Err(RuntimePanic), payload;
    }
    payload := coilData.value;
    if quantity <= 65528 {
      SamePayload(payload, packed);
    }
    var words := C.BuildDataBlock([startAddress, quantity]);
    r := Ok(words + [byteCount % 0x100] + coilData.value);
  }

  /** The packing loop: one bit per true coil in a zeroed buffer, and the index panic past its end. */
  method SetCoils(values: seq<bool>, byteCount: nat) returns (r: Result<seq<byte>>)
    ensures r.Ok? ==>
              && |r.value| == byteCount
              && forall j :: 0 <= j < 8 * byteCount ==> PayloadBit(r.value, j) == (j < |values| && values[j])
    ensures if Overrun(values, byteCount) then r == Err(RuntimePanic) else r.Ok?
  {
    hide SetBit, GetBit;
    var coilData := new byte[byteCount](_ => 0);
    ZeroPayload(coilData[..]);
    for i := 0 to |values|
      invariant forall j :: 0 <= j < 8 * byteCount ==> PayloadBit(coilData[..], j) == (j < i && values[j])
      invariant forall j :: 8 * byteCount <= j < i ==> !values[j]
    {
      var byteIndex := i / 8;
      var bitIndex := i % 8;
      if values[i] {
        if byteIndex >= byteCount {
          return Err(RuntimePanic);
        }
        SetBitInByte(coilData[byteIndex], bitIndex);
        ghost var before := coilData[..];
        coilData[byteIndex] := SetBit(coilData[byteIndex], bitIndex);
        SetPayloadBit(before, coilData[..], i);
      }
    }
    r := Ok(coilData[..]);
  }

  lemma OverrunIff(values: seq<bool>, byteCount: nat)
    requires |values| < 0x1_0000 && byteCount == Wrap16(|values| + 7) / 8
    ensures |values| <= 65528 ==> byteCount == CeilDiv8(|values|) && !Overrun(values, byteCount)
    ensures |values| > 65528 ==> byteCount == 0 && (Overrun(values, byteCount) <==> true in values)
  {
  }

  lemma ZeroPayload(s: seq<byte>)
    requires forall i :: 0 <= i < |s| ==> s[i] == 0
    ensures forall j :: 0 <= j < 8 * |s| ==> !PayloadBit(s, j)
  {
    hide GetBit;
    forall j | 0 <= j < 8 * |s|
      ensures !PayloadBit(s, j)
    {
      ZeroHasNoBits(j % 8);
    }
  }

  lemma SetBitInByte(b: byte, k: nat)
    requires k < 8
    ensures 0 <= SetBit(b, k) < 0x100
  {
    Pow2Eight();
    SetBitBound(b, k, 8);
    hide SetBit;
  }

  lemma SetPayloadBit(before: seq<byte>, after: seq<byte>, i: nat)
    requires |before| == |after| && i < 8 * |before|
    requires after[i / 8] as nat == SetBit(before[i / 8], i % 8)
    requires forall k :: 0 <= k < |before| && k != i / 8 ==> after[k] == before[k]
    ensures forall j :: 0 <= j < 8 * |after| ==> PayloadBit(after, j) == (j == i || PayloadBit(before, j))
  {
    hide SetBit, GetBit;
    forall j | 0 <= j < 8 * |after|
      ensures PayloadBit(after, j) == (j == i || PayloadBit(before, j))
    {
      GetBitOfSetBit(before[i / 8], i % 8, j % 8);
    }
  }

  lemma SamePayload(data: seq<byte>, bits: seq<bool>)
    requires |data| == CeilDiv8(|bits|)
    requires forall j :: 0 <= j < 8 * |data| ==> PayloadBit(data, j) == (j < |bits| && bits[j])
    ensures data == PackBits(bits)
  {
    hide PackBits, PayloadBit;
    forall j | 0 <= j < 8 * |data|
      ensures PayloadBit(data, j) == PayloadBit(PackBits(bits), j)
    {
      PackBitsAt(bits, j);
    }
    PayloadBitsDetermine(data, PackBits(bits));
  }

  /**
   The PDU data of WriteMultipleRegisters. The buffer size 5 + 2 * quantity is uint16: for 32766 and 32767 words the
   header does not fit, and from 32768 words on the byte count wraps too and the copy runs out of the buffer.
   */
  method BuildRegisterData(startAddress: uint16, values: seq<uint16>)
    returns (r: Result<seq<byte>>, ghost payload: seq<byte>)
    ensures r.Ok? ==>
              && |values| <= 32765 && payload == WordBytes(values)
              && r.value == DataBlockSuffix(payload, [startAddress, |values|])
    ensures if |values| <= 32765 then r.Ok? else r == Err(RuntimePanic)
  {
    hide WordBytes;
    var quantity := Wrap16(|values|);
    var byteCount: nat := Wrap16(2 * quantity as nat);
    payload := [];
    if Wrap16(5 + byteCount) < 5 {
      return Err(RuntimePanic), payload;
    }
    var registerData := new byte[byteCount];
    for i := 0 to |values|
      invariant 2 * i <= byteCount
      invariant registerData[..2 * i] == WordBytes(values[..i])
    {
      if 2 * i + 2 > byteCount {
        return Err(RuntimePanic), payload;
      }
      registerData[2 * i] := values[i] / 0x100;
      registerData[2 * i + 1] := values[i] % 0x100;
      WordBytesSnoc(values[..i], values[i]);
      assert values[..i + 1] == values[..i] + [values[i]];
      assert registerData[..2 * (i + 1)] == registerData[..2 * i] + Put16(values[i]);
    }
    assert values[..|values|] == values && registerData[..byteCount] == registerData[..];
    payload := registerData[..];
    var words := C.BuildDataBlock([startAddress, quantity]);
    r := Ok(words + [byteCount % 0x100] + registerData[..]);
  }

  lemma WordBytesSnoc(ws: seq<uint16>, w: uint16)
    ensures WordBytes(ws + [w]) == WordBytes(ws) + Put16(w)
  {
    WordBytesConcat(ws, [w]);
    assert WordBytes([w]) == Put16(w);
  }

  lemma EchoAccept(r: Request, m: Memory, reply: Pdu)
    requires r.WriteMultipleCoils? || r.WriteMultipleRegisters?
    requires Served(r, m) && reply.data != [] && Accept(r, reply.data).Ok?
    ensures |Raw(reply)| == 5 && Get16(Raw(reply), 1) == r.address && Get16(Raw(reply), 3) == r.quantity
  {
    Pair(r.address, r.quantity);
    assert reply.data == DataBlock([r.address, r.quantity]);
    hide WordBytes;
  }

  /** What the bits of an answered read are. */
  lemma BitsAnswered(framing: Framing, request: Request, slaveID: uint16, bus: Bus, bus': Bus, left: seq<byte>,
                     data: Result<seq<byte>>, bits: seq<bool>)
    requires request.ReadCoils? || request.ReadDiscreteInputs?
    requires Answered(framing, request, slaveID % 0x100, bus, bus', left, data)
    requires data.Ok? ==> IsParsed(bits, data.value, request.quantity)
    ensures bus' == bus
    ensures var r := if data.Err? then Err(data.error) else Ok(bits);
            if request.ReadCoils? then CoilsRead(bus', slaveID, request.address, request.quantity, r)
            else DiscretesRead(bus', slaveID, request.address, request.quantity, r)
  {
    hide PackBits, PayloadBit, IsParsed, ErrorLeft, CallError;
    var slave := slaveID % 0x100;
    if slave in bus {
      assert bus[slave := bus[slave]] == bus;
      if Served(request, bus[slave]) && data.Ok? {
        var table := if request.ReadCoils? then bus[slave].coils else bus[slave].discretes;
        BitsOfAnswer(bits, data.value, request.quantity, Slice(table, request.address, request.quantity));
      }
    }
  }

  /** What the words of an answered read are. */
  lemma WordsAnswered(framing: Framing, request: Request, slaveID: uint16, bus: Bus, bus': Bus, left: seq<byte>,
                      data: Result<seq<byte>>)
    requires request.ReadHoldingRegisters? && Answered(framing, request, slaveID % 0x100, bus, bus', left, data)
    ensures bus' == bus && (data.Ok? ==> left == [])
    ensures HoldingRead(bus', slaveID, request.address, request.quantity, WordsResult(data))
  {
    hide WordBytes, BytesToWords, ErrorLeft, CallError;
    var slave := slaveID % 0x100;
    if slave in bus {
      assert bus[slave := bus[slave]] == bus;
      if Served(request, bus[slave]) {
        BytesToWordsInverts(Slice(bus[slave].holding, request.address, request.quantity));
      }
    }
  }

  lemma BitsOfAnswer(bits: seq<bool>, data: seq<byte>, quantity: nat, cells: seq<bool>)
    requires IsParsed(bits, data, quantity) && |cells| == quantity
    ensures data == PackBits(cells) ==> bits == cells
  {
    hide PackBits, PayloadBit;
    forall i | data == PackBits(cells) && 0 <= i < quantity
      ensures bits[i] == cells[i]
    {
      PackBitsAt(cells, i);
    }
  }

  // ----- Write, then read -----

  /**
   A list of 1 to 1968 coils written to existing addresses reads back as written, with every other coil, table
   and device unchanged.
   */
  lemma CoilsWrittenAreRead(bus: Bus, bus': Bus, slaveID: uint16, start: uint16, values: seq<bool>,
                            w: Result<()>, readBack: Result<seq<bool>>)
    requires 1 <= |values| <= 1968 && slaveID % 0x100 in bus
    requires start as nat + |values| <= |bus[slaveID % 0x100].coils|
    requires CoilsWritten(bus, bus', slaveID, start, values, w)
    requires CoilsRead(bus', slaveID, start, |values|, readBack)
    ensures w == Ok(()) && readBack == Ok(values)
    ensures bus'.Keys == bus.Keys && forall s :: s in bus && s != slaveID % 0x100 ==> bus'[s] == bus[s]
    ensures var before, after := bus[slaveID % 0x100], bus'[slaveID % 0x100];
            && after == before.(coils := after.coils) && |after.coils| == |before.coils|
            && forall i :: 0 <= i < |before.coils| && !(start <= i < start as nat + |values|) ==>
                 after.coils[i] == before.coils[i]
  {
    PatchAt(bus[slaveID % 0x100].coils, start, values);
    assert values[..|values|] == values;
    hide Patch, Slice;
  }

  /**
   A successful write stores the first len % 65536 coils, which is the whole list exactly when it has at most
   1968: a list of 65536 + n coils with n in range reports success having written its first n coils only.
   */
  lemma CoilWriteCompleteIff(bus: Bus, bus': Bus, slaveID: uint16, start: uint16, values: seq<bool>, w: Result<()>)
    requires CoilsWritten(bus, bus', slaveID, start, values, w) && w.Ok?
    ensures var slave, stored := slaveID % 0x100, values[..Wrap16(|values|)];
            && bus' == bus[slave := bus[slave].(coils := Patch(bus[slave].coils, start, stored))]
            && (stored == values <==> |values| <= 1968)
  {
    hide Patch;
  }

  /** Such a list: 65536 + n coils are reported written, and the device holds the first n of them only. */
  lemma LongCoilListLost(bus: Bus, bus': Bus, slaveID: uint16, start: uint16, values: seq<bool>, w: Result<()>)
    requires 0x1_0000 < |values| <= 0x1_0000 + 1968 && slaveID % 0x100 in bus
    requires start as nat + |values| - 0x1_0000 <= |bus[slaveID % 0x100].coils|
    requires CoilsWritten(bus, bus', slaveID, start, values, w)
    ensures var slave, stored := slaveID % 0x100, values[..|values| - 0x1_0000];
            && w == Ok(()) && stored != values
            && bus' == bus[slave := bus[slave].(coils := Patch(bus[slave].coils, start, stored))]
  {
    hide Patch;
  }

  lemma CountedAccept(r: Request, reply: Pdu)
    requires IsRead(r) && reply.data != []
    ensures Accept(r, reply.data).Ok? ==>
              Raw(reply)[1] == |reply.data| - 1 && Raw(reply)[2..] == Accept(r, reply.data).value
  {
  }

  lemma TcpPackIsFrame(slave: byte, p: Pdu)
    ensures Tcp.Pack(0, slave, Raw(p)) == Tcp.Frame(0, slave, p)
  {
  }
}
