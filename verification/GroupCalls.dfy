/** The group read cut into the pieces that other goroutines can interleave with. */
module GroupCalls {
  import opened Bytes
  import opened Requests
  import opened Line
  import opened Transports
  import opened Grouping
  import opened GroupReads
  import opened TcpCall
  import Tcp
  import C = Client

  /** The group read gets as far as sending a request. */
  predicate Answerable(g: seq<Register>) {
    Requestable(g) && Admit(GroupRequest(g)).Ok?
  }

  function RequestFrame(g: seq<Register>, transaction: uint16, slave: byte): seq<byte>
    requires Answerable(g)
  {
    Tcp.Frame(transaction, slave, RequestPdu(GroupRequest(g)))
  }

  /** What the devices send back; they are only read, so they stay as they are. */
  function Reply(bus: Bus, adu: seq<byte>): seq<byte> {
    Respond(TcpFraming, bus, adu).1
  }

  /** From the received bytes to the group's registers and error. */
  function Complete(g: seq<Register>, adu: seq<byte>, response: Result<seq<byte>>): (seq<Register>, Result<()>)
    requires Answerable(g)
  {
    Finish(g, C.CallResult(GroupRequest(g), adu, response))
  }

  /** A call to the group's own slave completes to the sequential result and leaves nothing on the connection. */
  lemma CallIsSequential(bus: Bus, g: seq<Register>, transaction: uint16)
    requires Answerable(g)
    ensures var adu := RequestFrame(g, transaction, g[0].slaverId);
            var (response, rest) := ReadReply(Reply(bus, adu));
            rest == [] && Complete(g, adu, response) == Sequential(bus, g)
  {
    CallIgnoresTransaction(bus, transaction, g[0].slaverId, GroupRequest(g));
    hide Tcp.Frame, RequestPdu, GroupRequest, Admit, C.CallResult, ReadReply, Respond, Finish;
  }

  /** A call to another slave completes to that slave's result. */
  lemma CallIsOfSlave(bus: Bus, g: seq<Register>, transaction: uint16, slave: byte)
    requires Answerable(g)
    ensures var adu := RequestFrame(g, transaction, slave);
            Complete(g, adu, ReadReply(Reply(bus, adu)).0) == Finish(g, C.Call(bus, 0, slave, GroupRequest(g)))
  {
    CallIgnoresTransaction(bus, transaction, slave, GroupRequest(g));
    hide Tcp.Frame, RequestPdu, GroupRequest, Admit, C.CallResult, ReadReply, Respond, Finish;
  }
}
