/** One read over an idle TCP connection, as a function of what travels. */
module TcpCall {
  import opened Bytes
  import opened Device
  import opened Requests
  import opened Line
  import opened Transports
  import Tcp
  import C = Client

  /** Only reads are issued, so devices stay as they are and the transaction id does not matter. */
  lemma CallIgnoresTransaction(bus: Bus, transaction: uint16, slave: byte, request: Request)
    requires IsRead(request) && Admit(request).Ok?
    ensures var (bus', arrived) := Respond(TcpFraming, bus, Tcp.Frame(transaction, slave, RequestPdu(request)));
            && bus' == bus
            && ReadReply(arrived).1 == []
            && C.Call(bus, transaction, slave, request) == C.Call(bus, 0, slave, request)
            && C.Outcome(request, slave, bus, bus, C.Call(bus, transaction, slave, request))
  {
    var p := RequestPdu(request);
    ReadSize(request);
    hide Serve, RequestPdu, C.CallResult, Respond, Tcp.Frame, ReadReply;
    if slave in bus {
      var (memory, reply) := Serve(bus[slave], p);
      RequestMeaning(request, bus[slave]);
      ReadsKeepMemory(request, bus[slave]);
      assert bus[slave := bus[slave]] == bus;
      CallOnDevice(bus, transaction, slave, request);
      CallOnDevice(bus, 0, slave, request);
      CallIsOutcome(bus, transaction, slave, request);
    } else {
      RequestAnswered(TcpFraming, bus, transaction, slave, p);
      RequestAnswered(TcpFraming, bus, 0, slave, p);
      NothingArrives(request, Tcp.Frame(transaction, slave, p));
      NothingArrives(request, Tcp.Frame(0, slave, p));
    }
  }

  lemma ReadSize(r: Request)
    ensures IsRead(r) ==> |RequestPdu(r).data| == 4
  {
    if IsRead(r) {
      Pair(r.address, r.quantity);
    }
    hide DataBlock;
  }

  lemma NothingArrives(request: Request, adu: seq<byte>)
    ensures ReadReply([]) == (Err(Timeout), [])
    ensures C.CallResult(request, adu, Err(Timeout)) == Err(Timeout)
  {
  }

  /** The reply frame is read whole, verified and decoded; only the reply PDU is left in the result. */
  function OfReply(request: Request, reply: Pdu): Result<seq<byte>> {
    if reply.functionCode != RequestPdu(request).functionCode
    then Err(Exception(reply.functionCode, if reply.data == [] then 0 else reply.data[0]))
    else if reply.data == [] then Err(EmptyReply)
    else Accept(request, reply.data)
  }

  lemma CallOnDevice(bus: Bus, transaction: uint16, slave: byte, request: Request)
    requires slave in bus && |RequestPdu(request).data| <= 252
    ensures var (memory, reply) := Serve(bus[slave], RequestPdu(request));
            var (bus', arrived) := Respond(TcpFraming, bus, Tcp.Frame(transaction, slave, RequestPdu(request)));
            && bus' == bus[slave := memory]
            && ReadReply(arrived) == (Ok(arrived), [])
            && C.Call(bus, transaction, slave, request) == OfReply(request, reply)
  {
    var p := RequestPdu(request);
    var reply := Serve(bus[slave], p).1;
    RequestAnswered(TcpFraming, bus, transaction, slave, p);
    ServeShape(bus[slave], p);
    hide Serve, RequestPdu, Respond, Tcp.Frame, C.CallResult, ReadReply;
    FrameIsReadWhole(transaction, slave, reply);
    ReplyConcludes(request, transaction, slave, reply);
  }

  lemma FrameIsReadWhole(transaction: uint16, slave: byte, reply: Pdu)
    requires |reply.data| <= 251
    ensures ReadReply(Tcp.Frame(transaction, slave, reply)) == (Ok(Tcp.Frame(transaction, slave, reply)), [])
  {
    var f := Tcp.Frame(transaction, slave, reply);
    Tcp.FrameHeader(transaction, slave, reply);
    hide Tcp.Frame;
    assert Get16(f, 4) as nat + 6 == |f|;
    assert f[..|f|] == f && f[|f|..] == [];
  }

  lemma ReplyConcludes(request: Request, transaction: uint16, slave: byte, reply: Pdu)
    requires |reply.data| <= 251
    ensures var requestAdu := Tcp.Frame(transaction, slave, RequestPdu(request));
            C.CallResult(request, requestAdu, Ok(Tcp.Frame(transaction, slave, reply))) == OfReply(request, reply)
  {
    Tcp.VerifyAcceptsEcho(transaction, slave, RequestPdu(request), reply);
    Tcp.RoundTripIff(transaction, slave, reply);
    hide RequestPdu, Tcp.Frame, Tcp.Verify, Tcp.Decode, Accept;
  }

  lemma CallIsOutcome(bus: Bus, transaction: uint16, slave: byte, request: Request)
    requires slave in bus && Admit(request).Ok? && IsRead(request)
    ensures C.Outcome(request, slave, bus, bus, C.Call(bus, transaction, slave, request))
  {
    RequestMeaning(request, bus[slave]);
    ReadSize(request);
    ReadsKeepMemory(request, bus[slave]);
    CallOnDevice(bus, transaction, slave, request);
    C.ExceptionDiffers(request);
    assert bus[slave := bus[slave]] == bus;
    hide Serve, RequestPdu, Respond, Accept, Answer, Effect, Served, C.Call, Tcp.Frame;
  }
}
