/** The client: encode, transmit, verify, decode, and the request methods built on it. */
module Client {
  import opened Bytes
  import opened Words
  import opened Device
  import opened Requests
  import opened Line
  import opened Transports
  import opened Crc
  import Rtu
  import Ascii
  import Tcp

  /** The packager the client was built with. */
  function VerifyAdu(framing: Framing, request: seq<byte>, response: seq<byte>): Result<()> {
    match framing
    case RtuFraming => Rtu.Verify(request, response)
    case AsciiFraming => Ascii.Verify(request, response)
    case TcpFraming => Tcp.Verify(request, response)
  }

  function DecodeAdu(framing: Framing, adu: seq<byte>): Result<Pdu> {
    match framing
    case RtuFraming => Rtu.Decode(adu)
    case AsciiFraming => Ascii.Decode(adu)
    case TcpFraming => Tcp.Decode(adu)
  }

  /** dataBlock: the words in a fresh buffer. */
  method BuildDataBlock(values: seq<uint16>) returns (data: seq<byte>)
    ensures data == DataBlock(values)
  {
    var buffer := new byte[2 * |values|];
    for i := 0 to |values|
      invariant buffer[..2 * i] == WordBytes(values[..i])
    {
      buffer[2 * i] := values[i] / 0x100;
      buffer[2 * i + 1] := values[i] % 0x100;
      assert values[..i + 1] == values[..i] + [values[i]];
      WordBytesConcat(values[..i], [values[i]]);
      assert WordBytes([values[i]]) == Put16(values[i]);
      assert buffer[..2 * (i + 1)] == buffer[..2 * i] + Put16(values[i]);
    }
    assert values[..|values|] == values;
    data := buffer[..];
  }

  /** dataBlockSuffix: the words, the suffix length as a byte, the suffix. */
  method BuildDataBlockSuffix(suffix: seq<byte>, values: seq<uint16>) returns (data: seq<byte>)
    ensures data == DataBlockSuffix(suffix, values)
  {
    var words := BuildDataBlock(values);
    data := words + [|suffix| % 0x100] + suffix;
  }

  /** The PDU each request method builds. */
  method BuildRequest(request: Request) returns (p: Pdu)
    ensures p == RequestPdu(request)
  {
    hide WordBytes;
    var code: byte;
    var data: seq<byte>;
    match request {
      case ReadCoils(a, q) => code := 1; data := BuildDataBlock([a, q]);
      case ReadDiscreteInputs(a, q) => code := 2; data := BuildDataBlock([a, q]);
      case ReadHoldingRegisters(a, q) => code := 3; data := BuildDataBlock([a, q]);
      case ReadInputRegisters(a, q) => code := 4; data := BuildDataBlock([a, q]);
      case WriteSingleCoil(a, v) => code := 5; data := BuildDataBlock([a, v]);
      case WriteSingleRegister(a, v) => code := 6; data := BuildDataBlock([a, v]);
      case WriteMultipleCoils(a, q, v) => code := 15; data := BuildDataBlockSuffix(v, [a, q]);
      case WriteMultipleRegisters(a, q, v) => code := 16; data := BuildDataBlockSuffix(v, [a, q]);
      case MaskWriteRegister(a, x, y) => code := 22; data := BuildDataBlock([a, x, y]);
      case ReadWriteMultipleRegisters(ra, rq, wa, wq, v) =>
        code := 23;
        data := BuildDataBlockSuffix(v, [ra, rq, wa, wq]);
    }
    p := Pdu(code, data);
  }

  // ----- What a received reply amounts to -----

  /** The transporter returns exactly the bytes that arrived, however they were split. */
  ghost predicate Whole(framing: Framing, request: seq<byte>, arrived: seq<byte>) {
    match framing
    case RtuFraming =>
      && ResponseLength(request) == Ok(|arrived|) && Rtu.RTU_MIN_SIZE < |arrived| <= Rtu.RTU_MAX_SIZE
      && arrived[1] == request[1]
    case AsciiFraming => IsFrame(arrived)
    case TcpFraming => 8 <= |arrived| <= 260 && Get16(arrived, 4) as nat + 6 == |arrived|
  }

  /** The reply repeats the function code and has the size its request predicts. */
  ghost predicate Expected(framing: Framing, slave: byte, request: Pdu, reply: Pdu) {
    && reply.functionCode == request.functionCode
    && 1 <= |reply.data| <= 251
    && (framing.RtuFraming? ==>
          && Rtu.SelfCounted(reply) && |reply.data| > 0
          && ResponseLength(Rtu.Frame(slave, request)) == Ok(|Rtu.Frame(slave, reply)|))
  }

  lemma ExpectedArrivesWhole(framing: Framing, transaction: uint16, slave: byte, request: Pdu, reply: Pdu)
    requires Expected(framing, slave, request, reply)
    ensures Whole(framing, FrameOf(framing, transaction, slave, request), FrameOf(framing, transaction, slave, reply))
  {
    match framing
    case RtuFraming =>
      Rtu.FrameIsSealed(slave, request);
      Rtu.FrameIsSealed(slave, reply);
      hide Rtu.Frame, ResponseLength;
    case AsciiFraming =>
      hide Ascii.Frame;
    case TcpFraming =>
      Tcp.FrameHeader(transaction, slave, reply);
      hide Tcp.Frame;
  }

  lemma ExpectedIsAccepted(framing: Framing, transaction: uint16, slave: byte, request: Pdu, reply: Pdu)
    requires Expected(framing, slave, request, reply)
    ensures var requestAdu := FrameOf(framing, transaction, slave, request);
            var replyAdu := FrameOf(framing, transaction, slave, reply);
            VerifyAdu(framing, requestAdu, replyAdu) == Ok(()) && DecodeAdu(framing, replyAdu) == Ok(reply)
  {
    match framing
    case RtuFraming =>
      Rtu.FrameIsSealed(slave, request);
      Rtu.FrameIsSealed(slave, reply);
      Rtu.RoundTripIff(slave, reply);
      hide Rtu.Frame, Rtu.Decode;
    case AsciiFraming =>
      Ascii.DecodeInvertsEncode(slave, request, reply);
      hide Ascii.Frame, Ascii.Decode, Ascii.Verify;
    case TcpFraming =>
      Tcp.VerifyAcceptsEcho(transaction, slave, request, reply);
      Tcp.RoundTripIff(transaction, slave, reply);
      hide Tcp.Frame, Tcp.Decode, Tcp.Verify;
  }

  /** Whatever part of an exception reply was read, it never passes for a reply to the request. */
  lemma ExceptionNeverAccepted(framing: Framing, transaction: uint16, slave: byte, reply: Pdu, adu: seq<byte>)
    requires |reply.data| <= 251
    requires adu <= FrameOf(framing, transaction, slave, reply)
    requires framing.RtuFraming? ==> |adu| >= Rtu.RTU_MIN_SIZE
    requires !framing.RtuFraming? ==> adu == FrameOf(framing, transaction, slave, reply)
    ensures DecodeAdu(framing, adu).Ok? ==> DecodeAdu(framing, adu).value.functionCode == reply.functionCode
  {
    match framing
    case RtuFraming =>
      Rtu.FrameIsSealed(slave, reply);
      assert adu[1] == Rtu.Frame(slave, reply)[1];
      hide Rtu.Frame;
    case AsciiFraming =>
      Ascii.DecodeInvertsEncode(slave, reply, reply);
      hide Ascii.Frame, Ascii.Decode, Ascii.Verify;
    case TcpFraming =>
      Tcp.RoundTripIff(transaction, slave, reply);
      hide Tcp.Frame, Tcp.Decode;
  }

  lemma LongRequestUnheard(framing: Framing, bus: Bus, transaction: uint16, slave: byte, p: Pdu)
    requires |p.data| > 252
    ensures Respond(framing, bus, FrameOf(framing, transaction, slave, p)) == (bus, [])
  {
    match framing
    case RtuFraming => hide Rtu.Frame, Serve;
    case AsciiFraming => hide Ascii.Frame, Serve;
    case TcpFraming => hide Tcp.Frame, Serve;
  }

  /** What one request meets on the line and in the client. */
  lemma Exchange(framing: Framing, bus: Bus, transaction: uint16, slave: byte, request: Pdu)
    requires |request.data| <= 252 && slave in bus
    ensures var (memory, reply) := Serve(bus[slave], request);
            var requestAdu := FrameOf(framing, transaction, slave, request);
            var replyAdu := FrameOf(framing, transaction, slave, reply);
            && Respond(framing, bus, requestAdu) == (bus[slave := memory], replyAdu)
            && 1 <= |reply.data| <= 251
            && (!framing.RtuFraming? ==> Whole(framing, requestAdu, replyAdu))
            && (Expected(framing, slave, request, reply) ==>
                  && reply.functionCode == request.functionCode
                  && Whole(framing, requestAdu, replyAdu)
                  && VerifyAdu(framing, requestAdu, replyAdu) == Ok(())
                  && DecodeAdu(framing, replyAdu) == Ok(reply))
  {
    var reply := Serve(bus[slave], request).1;
    RequestAnswered(framing, bus, transaction, slave, request);
    ServeShape(bus[slave], request);
    hide Respond, FrameOf, Serve, VerifyAdu, DecodeAdu, Whole, Expected;
    if !framing.RtuFraming? {
      UncountedArrivesWhole(framing, transaction, slave, request, reply);
    }
    if Expected(framing, slave, request, reply) {
      ExpectedArrivesWhole(framing, transaction, slave, request, reply);
      ExpectedIsAccepted(framing, transaction, slave, request, reply);
    }
  }

  lemma UncountedArrivesWhole(framing: Framing, transaction: uint16, slave: byte, request: Pdu, reply: Pdu)
    requires !framing.RtuFraming? && |reply.data| <= 251
    ensures Whole(framing, FrameOf(framing, transaction, slave, request), FrameOf(framing, transaction, slave, reply))
  {
    Tcp.FrameHeader(transaction, slave, reply);
    hide Tcp.Frame, Ascii.Frame;
  }

  /** The second half of send. */
  function Concluded(framing: Framing, request: Pdu, requestAdu: seq<byte>, responseAdu: seq<byte>): (r: Result<Pdu>)
    ensures r.Ok? ==> r.value.data != []
  {
    var verified := VerifyAdu(framing, requestAdu, responseAdu);
    if verified.Err? then Err(verified.error)
    else
      var decoded := DecodeAdu(framing, responseAdu);
      if decoded.Err? then decoded
      else if decoded.value.functionCode != request.functionCode
      then Err(Exception(decoded.value.functionCode, if decoded.value.data == [] then 0 else decoded.value.data[0]))
      else if decoded.value.data == [] then Err(EmptyReply)
      else decoded
  }

  /**
   What send makes of any reply frame, in every framing: the frame of another slave is refused, a PDU [f, c] of another
   function is the exception with function f and code c, and only a reply to the function with data is returned.
   */
  lemma ConcludedIff(framing: Framing, transaction: uint16, slave: byte, request: Pdu, unit: byte, reply: Pdu)
    requires framing.RtuFraming? ==>
               reply.functionCode >= 5 || (reply.data != [] && reply.data[0] == |reply.data| - 1)
    requires framing.TcpFraming? ==> |reply.data| < 0xFFFF
    ensures var adu := FrameOf(framing, transaction, slave, request);
            Concluded(framing, request, adu, FrameOf(framing, transaction, unit, reply))
            == if unit != slave then Err(BadSlave)
               else if reply.functionCode != request.functionCode
               then Err(Exception(reply.functionCode, if reply.data == [] then 0 else reply.data[0]))
               else if reply.data == [] then Err(EmptyReply)
               else Ok(reply)
  {
    match framing
    case RtuFraming =>
      Rtu.VerifyIff(slave, request, unit, reply);
      Rtu.RoundTripIff(unit, reply);
      hide Rtu.Frame, Rtu.Decode, Rtu.Verify;
    case AsciiFraming =>
      Ascii.VerifyIff(slave, request, unit, reply);
      Ascii.DecodeInvertsEncode(unit, reply, reply);
      hide Ascii.Frame, Ascii.Decode, Ascii.Verify;
    case TcpFraming =>
      Tcp.VerifyIff(transaction, slave, request, transaction, unit, reply);
      Tcp.RoundTripIff(transaction, unit, reply);
      hide Tcp.Frame, Tcp.Decode, Tcp.Verify;
  }

  /** Over TCP the reply to another request is refused whatever slave it comes from. */
  lemma OtherTransactionRefused(transaction: uint16, slave: byte, request: Pdu, other: uint16, unit: byte, reply: Pdu)
    requires other != transaction
    ensures Concluded(TcpFraming, request, Tcp.Frame(transaction, slave, request), Tcp.Frame(other, unit, reply))
            == Err(BadTransaction)
  {
    Tcp.VerifyIff(transaction, slave, request, other, unit, reply);
    hide Tcp.Frame, Tcp.Decode, Tcp.Verify;
  }

  /** client.send over TCP after the transporter has returned. */
  function SendResult(request: Pdu, requestAdu: seq<byte>, response: Result<seq<byte>>): Result<Pdu> {
    if response.Err? then Err(response.error) else Concluded(TcpFraming, request, requestAdu, response.value)
  }

  /** The request method after that: check and extract. */
  function CallResult(request: Request, requestAdu: seq<byte>, response: Result<seq<byte>>): Result<seq<byte>> {
    var reply := SendResult(RequestPdu(request), requestAdu, response);
    if reply.Err? then Err(reply.error) else Accept(request, reply.value.data)
  }

  /** What the TCP transporter returns on an idle connection to these devices. */
  function TcpResponse(bus: Bus, requestAdu: seq<byte>): Result<seq<byte>> {
    ReadReply(Respond(TcpFraming, bus, requestAdu).1).0
  }

  /** A whole call over an idle TCP connection. */
  function Call(bus: Bus, transaction: uint16, slave: byte, request: Request): Result<seq<byte>> {
    var adu := Tcp.Frame(transaction, slave, RequestPdu(request));
    CallResult(request, adu, TcpResponse(bus, adu))
  }

  // ----- What a request method returns -----

  /**
   The result of a request method and the devices after it: a refused request changes nothing; an admitted one
   returns what its cells mean and has its effect on the addressed memory, or is an error without effect.
   */
  ghost predicate Outcome(request: Request, slave: byte, bus: Bus, bus': Bus, r: Result<seq<byte>>) {
    if Admit(request).Err? then r == Err(Admit(request).error) && bus' == bus
    else if slave in bus && Served(request, bus[slave]) then
      r == Ok(Answer(request, bus[slave])) && bus' == bus[slave := Effect(request, bus[slave])]
    else r.Err? && bus' == bus
  }

  lemma ServedIsExpected(framing: Framing, slave: byte, r: Request, m: Memory)
    requires Admit(r).Ok? && Served(r, m)
    ensures |RequestPdu(r).data| <= 252
    ensures Expected(framing, slave, RequestPdu(r), Serve(m, RequestPdu(r)).1)
  {
    RequestMeaning(r, m);
    FunctionCodeOf(r);
    RequestSize(r, m);
    ResponseLengthIsReplyLength(slave, r, m);
    var reply := Serve(m, RequestPdu(r)).1;
    CountedReply(r, m, reply.data);
    hide Serve, RequestPdu, Answer, Effect, Accept, Served, ResponseLength, Rtu.Frame;
  }

  lemma RequestSize(r: Request, m: Memory)
    requires Admit(r).Ok? && Served(r, m)
    ensures |RequestPdu(r).data| <= 252
  {
    hide WordBytes;
  }

  lemma CountedReply(r: Request, m: Memory, data: seq<byte>)
    requires Served(r, m) && data != [] && Accept(r, data).Ok?
    ensures RequestPdu(r).functionCode < 5 ==> data[0] == |data| - 1
  {
    hide WordBytes;
  }

  predicate IsException(request: Pdu, reply: Pdu) {
    request.functionCode < 0x80 && exists code: byte :: reply == ExceptionReply(request.functionCode, code)
  }

  /**
   The error for an exception reply, and what it leaves: its function and code, unless over RTU the first read took
   four bytes. Those then fail the checksum, or pass for a frame without a code, and the frame's last byte stays.
   */
  predicate ExceptionResult(framing: Framing, slave: byte, reply: Pdu, left: seq<byte>, e: Error) {
    && reply.data != []
    && ((left == [] && e == Exception(reply.functionCode, reply.data[0]))
        || (framing.RtuFraming? && left == Rtu.Frame(slave, reply)[4..]
            && (e == BadChecksum || e == Exception(reply.functionCode, 0))))
  }

  /** What silence amounts to: an RTU request that is too long is not even sent. */
  function NoReply(framing: Framing, slave: byte, request: Pdu): Error {
    if framing.RtuFraming? && |request.data| > 252 then TooLong
    else if framing.RtuFraming? && ResponseLength(Rtu.Frame(slave, request)).Err? then RuntimePanic
    else Timeout
  }

  /**
   The result of sending one request over an idle line, and the devices and the line after it: a reply of the
   expected form is returned exactly, an exception or silence is an error, and only the addressed device acted.
   Only over RTU can anything stay on the line, and after an exception it is nothing or the frame's last byte.
   */
  ghost predicate Sent(framing: Framing, slave: byte, request: Pdu, bus: Bus, bus': Bus, left: seq<byte>,
                       r: Result<Pdu>)
  {
    && (!framing.RtuFraming? ==> left == [])
    && if |request.data| > 252 || slave !in bus then
         r == Err(NoReply(framing, slave, request)) && bus' == bus && left == []
       else
         var (memory, reply) := Serve(bus[slave], request);
         && bus' == bus[slave := memory]
         && (Expected(framing, slave, request, reply) ==> r == Ok(reply) && left == [])
         && (reply.functionCode != request.functionCode ==> r.Err?)
         && (IsException(request, reply) && (framing.RtuFraming? ==> ResponseLength(Rtu.Frame(slave, request)).Ok?) ==>
               r.Err? && ExceptionResult(framing, slave, reply, left, r.error))
  }

  /** What a transporter's Send may do with the bytes that arrive, for the clauses the client needs. */
  ghost predicate Transmitted(framing: Framing, adu: seq<byte>, arrived: seq<byte>, r: Result<seq<byte>>,
                              left: seq<byte>)
  {
    && (framing.RtuFraming? ==> RtuReads(adu, arrived, r, left))
    && (arrived == [] ==>
          r == Err(if framing.RtuFraming? && ResponseLength(adu).Err? then RuntimePanic else Timeout) && left == [])
    && (r.Ok? ==> r.value <= arrived && (framing.RtuFraming? ==> |r.value| >= Rtu.RTU_MIN_SIZE))
    && (framing.TcpFraming? ==> r == ReadReply(arrived).0)
    && (Whole(framing, adu, arrived) ==> r == Ok(arrived) && left == [])
  }

  lemma RtuTransmitted(adu: seq<byte>, arrived: seq<byte>, r: Result<seq<byte>>, left: seq<byte>)
    requires RtuReads(adu, arrived, r, left)
    ensures Transmitted(RtuFraming, adu, arrived, r, left)
  {
    PrefixRead(adu, arrived, r, left);
    if Whole(RtuFraming, adu, arrived) {
      WholeReplyRead(adu, arrived, r, left);
    }
    hide RtuReads, ResponseLength;
  }

  /** A request that is sent and heard and that its device refuses. */
  predicate Refused(request: Request, slave: byte, bus: Bus) {
    && Admit(request).Ok? && |RequestPdu(request).data| <= 252
    && slave in bus && !Served(request, bus[slave])
  }

  /** An RTU request whose device answers with an exception. */
  predicate MeetsException(framing: Framing, request: Request, slave: byte, bus: Bus) {
    framing.RtuFraming? && Refused(request, slave, bus)
  }

  /** An admitted request that no device hears. */
  predicate Unheard(request: Request, slave: byte, bus: Bus) {
    Admit(request).Ok? && (|RequestPdu(request).data| > 252 || slave !in bus)
  }

  class Client {
    const port: Port
    /** One packager per framing; the one of the port's framing is in use. */
    const rtu: Rtu.Packager
    const ascii: Ascii.Packager
    const tcp: Tcp.Packager

    constructor (port: Port)
      ensures this.port == port && SlaveId() == 0 && tcp.transactionId == 0
      ensures fresh(rtu) && fresh(ascii) && fresh(tcp)
    {
      this.port := port;
      rtu := new Rtu.Packager();
      ascii := new Ascii.Packager();
      tcp := new Tcp.Packager();
    }

    function SlaveId(): byte
      reads rtu`slaveId, ascii`slaveId, tcp`slaveId
    {
      match port.framing
      case RtuFraming => rtu.slaveId
      case AsciiFraming => ascii.slaveId
      case TcpFraming => tcp.slaveId
    }

    method SetSlaveId(id: byte)
      modifies rtu, ascii, tcp`slaveId
      ensures SlaveId() == id
    {
      match port.framing
      case RtuFraming => rtu.SetSlaverId(id);
      case AsciiFraming => ascii.SetSlaverId(id);
      case TcpFraming => tcp.SetSlaverId(id);
    }

    method EncodePdu(p: Pdu) returns (r: Result<seq<byte>>)
      modifies tcp`transactionId
      ensures tcp.transactionId
              == if port.framing.TcpFraming? then Tcp.NextCounter(old(tcp.transactionId)) else old(tcp.transactionId)
      ensures r == if port.framing.RtuFraming? && |p.data| > 252 then Err(TooLong)
                   else Ok(FrameOf(port.framing, Wrap16(tcp.transactionId), SlaveId(), p))
    {
      hide Rtu.Frame, Ascii.Frame, Tcp.Frame;
      match port.framing
      case RtuFraming =>
        r := rtu.EncodePdu(p);
      case AsciiFraming =>
        var adu := ascii.EncodePdu(p);
        r := Ok(adu);
      case TcpFraming =>
        var adu := tcp.EncodePdu(p);
        r := Ok(adu);
    }

    method DecodeReply(adu: seq<byte>) returns (r: Result<Pdu>)
      ensures r == DecodeAdu(port.framing, adu)
    {
      if port.framing.RtuFraming? {
        r := rtu.DecodeAdu(adu);
      } else {
        r := DecodeAdu(port.framing, adu);
      }
    }

    method Transmit(adu: seq<byte>) returns (r: Result<seq<byte>>, ghost arrived: seq<byte>)
      modifies port
      ensures port.bus == Respond(port.framing, old(port.bus), adu).0
      ensures arrived == old(port.pending) + Respond(port.framing, old(port.bus), adu).1
      ensures Transmitted(port.framing, adu, arrived, r, port.pending)
    {
      hide Respond, IsFrame, ResponseLength, RtuReads;
      match port.framing
      case RtuFraming =>
        r, arrived := RtuSend(port, adu);
        RtuTransmitted(adu, arrived, r, port.pending);
      case AsciiFraming =>
        r, arrived := AsciiSend(port, adu);
      case TcpFraming =>
        r, arrived := TcpSend(port, adu);
        assert arrived[..|arrived|] == arrived;
    }

    /** send: encode, transmit, verify, decode, and check the function code and that there is data. */
    method Send(request: Pdu) returns (r: Result<Pdu>)
      modifies tcp`transactionId, port
      ensures old(port.pending) == [] ==>
                Sent(port.framing, SlaveId(), request, old(port.bus), port.bus, port.pending, r)
      ensures old(port.pending) == [] && port.framing.TcpFraming? ==>
                var adu := Tcp.Frame(Wrap16(tcp.transactionId), SlaveId(), request);
                r == SendResult(request, adu, TcpResponse(old(port.bus), adu))
      ensures r.Ok? ==> r.value.data != []
    {
      hide Respond, FrameOf, VerifyAdu, DecodeAdu, Transmitted, Sent, SendResult, TcpResponse, Tcp.Frame;
      var encoded := EncodePdu(request);
      ghost var tid := Wrap16(tcp.transactionId);
      ghost var bus, idle := port.bus, port.pending == [];
      if encoded.Err? {
        RefusedIsSent(port.framing, SlaveId(), request, bus, encoded.error);
        return Err(encoded.error);
      }
      var response, arrived := Transmit(encoded.value);
      if response.Err? {
        r := Err(response.error);
        if idle {
          TransmittedIsSent(port.framing, tid, SlaveId(), request, bus, arrived, response, port.pending, r);
        }
        return;
      }
      r := Conclude(request, encoded.value, response.value);
      if idle {
        TransmittedIsSent(port.framing, tid, SlaveId(), request, bus, arrived, response, port.pending, r);
      }
    }

    /** The second half of send. */
    method Conclude(request: Pdu, requestAdu: seq<byte>, responseAdu: seq<byte>) returns (r: Result<Pdu>)
      ensures r == Concluded(port.framing, request, requestAdu, responseAdu)
    {
      hide VerifyAdu, DecodeAdu;
      var verified := VerifyAdu(port.framing, requestAdu, responseAdu);
      if verified.Err? {
        return Err(verified.error);
      }
      var decoded := DecodeReply(responseAdu);
      if decoded.Err? {
        return decoded;
      }
      if decoded.value.functionCode != request.functionCode {
        var code := if decoded.value.data == [] then 0 else decoded.value.data[0];
        return Err(Exception(decoded.value.functionCode, code));
      }
      if decoded.value.data == [] {
        return Err(EmptyReply);
      }
      return decoded;
    }

    /** The request methods: check, send, check the reply. */
    method Perform(request: Request) returns (r: Result<seq<byte>>)
      modifies tcp`transactionId, port
      ensures old(port.pending) == [] ==>
                && Outcome(request, SlaveId(), old(port.bus), port.bus, r)
                && |port.pending| <= (if MeetsException(port.framing, request, SlaveId(), old(port.bus)) then 1 else 0)
      ensures old(port.pending) == [] && Refused(request, SlaveId(), old(port.bus)) ==>
                var reply := ExceptionReply(RequestPdu(request).functionCode, if PayloadFits(request) then 2 else 3);
                r.Err? && ExceptionResult(port.framing, SlaveId(), reply, port.pending, r.error)
      ensures old(port.pending) == [] && Unheard(request, SlaveId(), old(port.bus)) ==>
                r == Err(if port.framing.RtuFraming? && |RequestPdu(request).data| > 252 then TooLong else Timeout)
      ensures old(port.pending) == [] && port.framing.TcpFraming? && Admit(request).Ok? ==>
                r == Call(old(port.bus), Wrap16(tcp.transactionId), SlaveId(), request)
    {
      hide Admit, Accept, Served, Answer, Effect, Serve, RequestPdu, Sent;
      var admitted := Admit(request);
      if admitted.Err? {
        return Err(admitted.error);
      }
      var p := BuildRequest(request);
      ghost var bus, idle := port.bus, port.pending == [];
      var response := Send(p);
      if response.Err? {
        if idle {
          SentIsOutcome(port.framing, request, SlaveId(), bus, port.bus, port.pending, response, Err(response.error));
        }
        return Err(response.error);
      }
      r := Accept(request, response.value.data);
      if idle {
        SentIsOutcome(port.framing, request, SlaveId(), bus, port.bus, port.pending, response, r);
      }
    }
  }

  lemma RefusedIsSent(framing: Framing, slave: byte, request: Pdu, bus: Bus, e: Error)
    requires framing.RtuFraming? && |request.data| > 252 && e == TooLong
    ensures Sent(framing, slave, request, bus, bus, [], Err(e))
  {
  }

  /** Whatever the transporter did with the reply of a conforming device, send's result is as specified. */
  lemma TransmittedIsSent(framing: Framing, tid: uint16, slave: byte, request: Pdu, bus: Bus, arrived: seq<byte>,
                          response: Result<seq<byte>>, left: seq<byte>, r: Result<Pdu>)
    requires framing.RtuFraming? ==> |request.data| <= 252
    requires var adu := FrameOf(framing, tid, slave, request);
             && arrived == Respond(framing, bus, adu).1
             && Transmitted(framing, adu, arrived, response, left)
             && r == if response.Err? then Err(response.error) else Concluded(framing, request, adu, response.value)
    ensures Sent(framing, slave, request, bus, Respond(framing, bus, FrameOf(framing, tid, slave, request)).0, left, r)
    ensures framing.TcpFraming? ==>
              var adu := Tcp.Frame(tid, slave, request); r == SendResult(request, adu, TcpResponse(bus, adu))
  {
    TcpDetermines(framing, tid, slave, request, bus, arrived, response, left, r);
    if |request.data| > 252 || slave !in bus {
      Silence(framing, tid, slave, request, bus, arrived, response, left, r);
    } else {
      ReplyIsSent(framing, tid, slave, request, bus, arrived, response, left, r);
    }
    hide Respond, FrameOf, Serve, Whole, Expected, Transmitted, Concluded, SendResult, TcpResponse, ExceptionResult,
      NoReply;
  }

  lemma Silence(framing: Framing, tid: uint16, slave: byte, request: Pdu, bus: Bus, arrived: seq<byte>,
                response: Result<seq<byte>>, left: seq<byte>, r: Result<Pdu>)
    requires (framing.RtuFraming? ==> |request.data| <= 252) && (|request.data| > 252 || slave !in bus)
    requires var adu := FrameOf(framing, tid, slave, request);
             && arrived == Respond(framing, bus, adu).1
             && Transmitted(framing, adu, arrived, response, left)
             && r == if response.Err? then Err(response.error) else Concluded(framing, request, adu, response.value)
    ensures Respond(framing, bus, FrameOf(framing, tid, slave, request)).0 == bus
    ensures r == Err(NoReply(framing, slave, request)) && left == []
  {
    if |request.data| > 252 {
      LongRequestUnheard(framing, bus, tid, slave, request);
    } else {
      RequestAnswered(framing, bus, tid, slave, request);
    }
    hide Respond, Rtu.Frame, Ascii.Frame, Tcp.Frame, ResponseLength, RtuReads, Whole, ReadReply, Concluded, Serve;
  }

  lemma ReplyIsSent(framing: Framing, tid: uint16, slave: byte, request: Pdu, bus: Bus, arrived: seq<byte>,
                    response: Result<seq<byte>>, left: seq<byte>, r: Result<Pdu>)
    requires |request.data| <= 252 && slave in bus
    requires var adu := FrameOf(framing, tid, slave, request);
             && arrived == Respond(framing, bus, adu).1
             && Transmitted(framing, adu, arrived, response, left)
             && r == if response.Err? then Err(response.error) else Concluded(framing, request, adu, response.value)
    ensures Sent(framing, slave, request, bus, Respond(framing, bus, FrameOf(framing, tid, slave, request)).0, left, r)
  {
    hide Respond, FrameOf, Serve, VerifyAdu, DecodeAdu, Whole, Expected, Rtu.Frame, RtuReads, ResponseLength,
      ExceptionResult, ReadReply;
    Exchange(framing, bus, tid, slave, request);
    var reply := Serve(bus[slave], request).1;
    if response.Ok? {
      ExceptionNeverAccepted(framing, tid, slave, reply, response.value);
    }
    if IsException(request, reply) && (framing.RtuFraming? ==> ResponseLength(Rtu.Frame(slave, request)).Ok?) {
      ExceptionConcluded(framing, tid, slave, request, reply, response, left, r);
    }
  }

  /** Over TCP the bytes that arrive determine the result. */
  lemma TcpDetermines(framing: Framing, tid: uint16, slave: byte, request: Pdu, bus: Bus, arrived: seq<byte>,
                      response: Result<seq<byte>>, left: seq<byte>, r: Result<Pdu>)
    requires var adu := FrameOf(framing, tid, slave, request);
             && arrived == Respond(framing, bus, adu).1
             && Transmitted(framing, adu, arrived, response, left)
             && r == if response.Err? then Err(response.error) else Concluded(framing, request, adu, response.value)
    ensures framing.TcpFraming? ==>
              var adu := Tcp.Frame(tid, slave, request); r == SendResult(request, adu, TcpResponse(bus, adu))
  {
    hide Respond, Concluded, Whole, RtuReads, ReadReply, Tcp.Frame, Rtu.Frame, Ascii.Frame;
  }

  lemma ExceptionConcluded(framing: Framing, tid: uint16, slave: byte, request: Pdu, reply: Pdu,
                           response: Result<seq<byte>>, left: seq<byte>, r: Result<Pdu>)
    requires IsException(request, reply)
    requires var adu, arrived := FrameOf(framing, tid, slave, request), FrameOf(framing, tid, slave, reply);
             && (if framing.RtuFraming?
                 then ResponseLength(Rtu.Frame(slave, request)).Ok? && RtuReads(adu, arrived, response, left)
                 else response == Ok(arrived) && left == [])
             && r == if response.Err? then Err(response.error) else Concluded(framing, request, adu, response.value)
    ensures r.Err? && ExceptionResult(framing, slave, reply, left, r.error)
  {
    ConcludedIff(framing, tid, slave, request, slave, reply);
    if framing.RtuFraming? {
      Rtu.FrameIsSealed(slave, request);
      Rtu.FrameIsSealed(slave, reply);
      ExceptionRead(Rtu.Frame(slave, request), Rtu.Frame(slave, reply), response, left);
      FourBytesConcluded(slave, request, reply);
    }
    hide Rtu.Frame, Ascii.Frame, Tcp.Frame, RtuReads, ResponseLength, Concluded;
  }

  lemma FourBytesConcluded(slave: byte, request: Pdu, reply: Pdu)
    requires IsException(request, reply)
    ensures var r := Concluded(RtuFraming, request, Rtu.Frame(slave, request), Rtu.Frame(slave, reply)[..4]);
            r == Err(BadChecksum) || r == Err(Exception(reply.functionCode, 0))
  {
    Rtu.FrameIsSealed(slave, request);
    Rtu.FrameIsSealed(slave, reply);
    hide Rtu.Frame, Checksum;
    var adu := Rtu.Frame(slave, reply)[..4];
    assert |adu| == 4 && adu[0] == slave && adu[1] == reply.functionCode >= 0x80;
  }

  lemma SentIsOutcome(framing: Framing, request: Request, slave: byte, bus: Bus, bus': Bus, left: seq<byte>,
                      response: Result<Pdu>, r: Result<seq<byte>>)
    requires Admit(request).Ok? && Sent(framing, slave, RequestPdu(request), bus, bus', left, response)
    requires r == if response.Err? then Err(response.error)
                  else if response.value.data == [] then r else Accept(request, response.value.data)
    requires response.Ok? ==> response.value.data != []
    ensures Outcome(request, slave, bus, bus', r)
    ensures |left| <= (if MeetsException(framing, request, slave, bus) then 1 else 0)
    ensures Refused(request, slave, bus) ==>
              var reply := ExceptionReply(RequestPdu(request).functionCode, if PayloadFits(request) then 2 else 3);
              r.Err? && ExceptionResult(framing, slave, reply, left, r.error)
    ensures Unheard(request, slave, bus) ==>
              r == Err(if framing.RtuFraming? && |RequestPdu(request).data| > 252 then TooLong else Timeout)
  {
    hide Accept, Served, Answer, Effect, Serve, Expected, RequestPdu, ResponseLength, Rtu.Frame;
    var p := RequestPdu(request);
    PredictedSize(slave, request);
    if slave in bus {
      RequestMeaning(request, bus[slave]);
      if Served(request, bus[slave]) {
        ServedIsExpected(framing, slave, request, bus[slave]);
      } else {
        assert bus[slave := bus[slave]] == bus;
        ExceptionDiffers(request);
        FunctionBelow0x80(request);
      }
    }
  }

  lemma FunctionBelow0x80(r: Request)
    ensures RequestPdu(r).functionCode < 0x80
  {
    FunctionCodeOf(r);
    hide RequestPdu;
  }

  // ----- What an RTU exception leaves on the line -----

  /** The rests RtuReads allows, as a set of their own. */
  ghost predicate Leaves(adu: seq<byte>, arrived: seq<byte>, left: seq<byte>) {
    exists r :: RtuReads(adu, arrived, r, left)
  }

  /** A run of Send on an idle RTU line that leaves these bytes. */
  ghost predicate CanLeave(request: Request, slave: byte, bus: Bus, left: seq<byte>) {
    var adu := Rtu.Frame(slave, RequestPdu(request));
    Leaves(adu, Respond(RtuFraming, bus, adu).1, left)
  }

  /** The device refuses the request, and this is the last byte of its exception. */
  predicate IsLastByte(request: Request, slave: byte, bus: Bus, left: seq<byte>) {
    && MeetsException(RtuFraming, request, slave, bus)
    && |left| == 1 && left == Rtu.Frame(slave, Serve(bus[slave], RequestPdu(request)).1)[4..]
  }

  /**
   An admitted request can leave something on the RTU line if and only if its slave is there and refuses it; then,
   when the first read returns four bytes, exactly the last byte of the exception stays.
   */
  lemma LeftByteIff(request: Request, slave: byte, bus: Bus)
    requires Admit(request).Ok? && |RequestPdu(request).data| <= 252
    ensures forall left :: CanLeave(request, slave, bus, left) <==> left == [] || IsLastByte(request, slave, bus, left)
  {
    var p := RequestPdu(request);
    var adu := Rtu.Frame(slave, p);
    PredictedSize(slave, request);
    RequestAnswered(RtuFraming, bus, 0, slave, p);
    hide Respond, Serve, RequestPdu, Rtu.Frame, Served, ResponseLength, Admit, RtuReads, Leaves;
    var arrived := Respond(RtuFraming, bus, adu).1;
    if slave !in bus {
      NothingRead(adu);
      OnlyNothingLeft(adu, arrived, Err(Timeout));
    } else if Served(request, bus[slave]) {
      ServedLeavesNothing(request, slave, bus);
      OnlyNothingLeft(adu, arrived, Ok(arrived));
    } else {
      RefusedLeaves(request, slave, bus);
      NothingOrOneLeft(adu, arrived);
    }
  }

  lemma OnlyNothingLeft(adu: seq<byte>, arrived: seq<byte>, r: Result<seq<byte>>)
    requires RtuReads(adu, arrived, r, []) && forall x, left :: RtuReads(adu, arrived, x, left) ==> left == []
    ensures forall left :: Leaves(adu, arrived, left) <==> left == []
  {
    hide RtuReads;
  }

  lemma NothingOrOneLeft(adu: seq<byte>, arrived: seq<byte>)
    requires |arrived| == 5 && RtuReads(adu, arrived, Ok(arrived), [])
    requires RtuReads(adu, arrived, Ok(arrived[..4]), arrived[4..])
    requires forall x, left :: RtuReads(adu, arrived, x, left) ==> left == [] || left == arrived[4..]
    ensures forall left :: Leaves(adu, arrived, left) <==> left == [] || left == arrived[4..]
  {
    hide RtuReads;
  }

  lemma NothingRead(adu: seq<byte>)
    requires ResponseLength(adu).Ok?
    ensures RtuReads(adu, [], Err(Timeout), [])
    ensures forall r, left :: RtuReads(adu, [], r, left) ==> left == []
  {
    hide ResponseLength;
  }

  lemma ServedLeavesNothing(request: Request, slave: byte, bus: Bus)
    requires Admit(request).Ok? && slave in bus && Served(request, bus[slave])
    ensures var adu, reply := Rtu.Frame(slave, RequestPdu(request)), Serve(bus[slave], RequestPdu(request)).1;
            && RtuReads(adu, Rtu.Frame(slave, reply), Ok(Rtu.Frame(slave, reply)), [])
            && forall r, left :: RtuReads(adu, Rtu.Frame(slave, reply), r, left) ==> left == []
  {
    var adu, reply := Rtu.Frame(slave, RequestPdu(request)), Serve(bus[slave], RequestPdu(request)).1;
    ResponseLengthIsReplyLength(slave, request, bus[slave]);
    Rtu.FrameIsSealed(slave, RequestPdu(request));
    hide Serve, RequestPdu, Rtu.Frame, Served, ResponseLength, Admit;
    var arrived := Rtu.Frame(slave, reply);
    forall r, left | RtuReads(adu, arrived, r, left)
      ensures left == []
    {
      WholeReplyRead(adu, arrived, r, left);
    }
    assert FirstRead(arrived, |arrived|) && arrived[..|arrived|] == arrived && arrived[|arrived|..] == [];
    assert RtuOutcome(adu, arrived, |arrived|) == (Ok(arrived), []);
  }

  lemma RefusedLeaves(request: Request, slave: byte, bus: Bus)
    requires Admit(request).Ok? && slave in bus && !Served(request, bus[slave])
    ensures var adu, reply := Rtu.Frame(slave, RequestPdu(request)), Serve(bus[slave], RequestPdu(request)).1;
            var arrived := Rtu.Frame(slave, reply);
            && |arrived| == 5
            && RtuReads(adu, arrived, Ok(arrived), []) && RtuReads(adu, arrived, Ok(arrived[..4]), arrived[4..])
            && forall r, left :: RtuReads(adu, arrived, r, left) ==> left == [] || left == arrived[4..]
  {
    var p := RequestPdu(request);
    RequestMeaning(request, bus[slave]);
    PredictedSize(slave, request);
    FunctionBelow0x80(request);
    var adu, reply := Rtu.Frame(slave, p), Serve(bus[slave], p).1;
    Rtu.FrameIsSealed(slave, p);
    Rtu.FrameIsSealed(slave, reply);
    hide Serve, RequestPdu, Rtu.Frame, Served, ResponseLength, Admit, RtuReads, Accept, Answer, Effect;
    var arrived := Rtu.Frame(slave, reply);
    ExceptionRead(adu, arrived, Ok(arrived), []);
    ExceptionRead(adu, arrived, Ok(arrived[..4]), arrived[4..]);
    forall r, left | RtuReads(adu, arrived, r, left)
      ensures left == [] || left == arrived[4..]
    {
      ExceptionRead(adu, arrived, r, left);
    }
  }

  lemma ExceptionDiffers(r: Request)
    ensures forall code: byte ::
              ExceptionReply(RequestPdu(r).functionCode, code).functionCode != RequestPdu(r).functionCode
  {
    FunctionCodeOf(r);
    hide RequestPdu;
  }
}
