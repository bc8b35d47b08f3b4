/** Reading a group with one request and slicing the reply into its registers. */
module GroupReads {
  import opened Bytes
  import opened Requests
  import opened Line
  import opened Grouping
  import opened TcpCall
  import C = Client

  // ----- What readGroup computes -----

  /** The sum of the quantities as an integer; the source adds in uint16. */
  function TrueTotal(g: seq<Register>): nat {
    if g == [] then 0 else TrueTotal(g[..|g| - 1]) + g[|g| - 1].readQuantity
  }

  function GroupRequest(g: seq<Register>): Request
    requires g != [] && 1 <= g[0].functionCode <= 4
  {
    var start, quantity := g[0].readAddress, Wrap16(TrueTotal(g));
    if g[0].functionCode == 1 then ReadCoils(start, quantity)
    else if g[0].functionCode == 2 then ReadDiscreteInputs(start, quantity)
    else if g[0].functionCode == 3 then ReadHoldingRegisters(start, quantity)
    else ReadInputRegisters(start, quantity)
  }

  /** int(ReadQuantity * 2), doubled in uint16. */
  function ExpectedLength(r: Register): nat {
    Wrap16(2 * r.readQuantity as nat)
  }

  /** Slices of the reply, register by register, until one does not fit. */
  function Distribute(g: seq<Register>, data: seq<byte>, offset: nat): (seq<Register>, Result<()>)
    requires offset <= |data|
    decreases |g|
  {
    if g == [] then ([], Ok(()))
    else
      var end := offset + ExpectedLength(g[0]);
      if end > |data| then ([g[0].(status := Invalid(OutOfBounds))] + g[1..], Err(OutOfBounds))
      else
        var (rest, r) := Distribute(g[1..], data, end);
        ([g[0].(value := data[offset..end], status := Valid)] + rest, r)
  }

  function AllInvalid(g: seq<Register>, e: Error): (r: seq<Register>)
    ensures |r| == |g|
  {
    seq(|g|, i requires 0 <= i < |g| => g[i].(status := Invalid(e)))
  }

  function Finish(g: seq<Register>, read: Result<seq<byte>>): (seq<Register>, Result<()>) {
    if read.Err? then (AllInvalid(g, read.error), Err(read.error)) else Distribute(g, read.value, 0)
  }

  lemma {:induction false} DistributeLength(g: seq<Register>, data: seq<byte>, offset: nat)
    requires offset <= |data|
    ensures |Distribute(g, data, offset).0| == |g|
    decreases |g|
  {
    if g != [] && offset + ExpectedLength(g[0]) <= |data| {
      DistributeLength(g[1..], data, offset + ExpectedLength(g[0]));
    }
  }

  method SumQuantities(group: array<Register>) returns (totalQuantity: uint16)
    ensures totalQuantity == Wrap16(TrueTotal(group[..]))
  {
    totalQuantity := 0;
    for i := 0 to group.Length
      invariant totalQuantity == Wrap16(TrueTotal(group[..i]))
    {
      assert group[..i + 1][..i] == group[..i];
      totalQuantity := Wrap16(totalQuantity as nat + group[i].readQuantity);
    }
    assert group[..group.Length] == group[..];
  }

  /** Registers already filled, followed by what the loop makes of the rest. */
  function After(filled: seq<Register>, rest: (seq<Register>, Result<()>)): (seq<Register>, Result<()>) {
    (filled + rest.0, rest.1)
  }

  lemma DistributeStep(filled: seq<Register>, g: seq<Register>, data: seq<byte>, offset: nat)
    requires offset <= |data| && g != []
    ensures var end := offset + ExpectedLength(g[0]);
            After(filled, Distribute(g, data, offset))
            == if end > |data| then (filled + ([g[0].(status := Invalid(OutOfBounds))] + g[1..]), Err(OutOfBounds))
               else After(filled + [g[0].(value := data[offset..end], status := Valid)], Distribute(g[1..], data, end))
  {
    hide ExpectedLength;
    var end := offset + ExpectedLength(g[0]);
    if end <= |data| {
      var first := [g[0].(value := data[offset..end], status := Valid)];
      assert filled + (first + Distribute(g[1..], data, end).0) == (filled + first) + Distribute(g[1..], data, end).0;
    }
  }

  /** The copying loop, in place. */
  method SliceReply(group: array<Register>, data: seq<byte>) returns (r: Result<()>)
    modifies group
    ensures (group[..], r) == Distribute(old(group[..]), data, 0)
  {
    hide ExpectedLength, Distribute;
    ghost var g := group[..];
    var offset: nat := 0;
    Nothing(g, data);
    for i := 0 to group.Length
      invariant offset <= |data|
      invariant group[i..] == g[i..]
      invariant Distribute(g, data, 0) == After(group[..i], Distribute(g[i..], data, offset))
    {
      DistributeStep(group[..i], g[i..], data, offset);
      var expectedLength := ExpectedLength(group[i]);
      assert group[i] == g[i..][0] && g[i..][1..] == g[i + 1..];
      if offset + expectedLength > |data| {
        group[i] := group[i].(status := Invalid(OutOfBounds));
        assert group[..] == group[..i] + ([group[i]] + g[i + 1..]);
        return Err(OutOfBounds);
      }
      group[i] := group[i].(value := data[offset..offset + expectedLength], status := Valid);
      offset := offset + expectedLength;
      assert group[..i + 1] == group[..i] + [group[i]];
    }
    assert g[group.Length..] == [];
    EndOfGroup(group[..], data, offset);
    assert group[..group.Length] == group[..];
    return Ok(());
  }

  lemma Nothing(g: seq<Register>, data: seq<byte>)
    ensures After([], Distribute(g, data, 0)) == Distribute(g, data, 0) && g[0..] == g
  {
    hide Distribute;
    var d := Distribute(g, data, 0);
    assert [] + d.0 == d.0;
  }

  lemma EndOfGroup(filled: seq<Register>, data: seq<byte>, offset: nat)
    requires offset <= |data|
    ensures After(filled, Distribute([], data, offset)) == (filled, Ok(()))
  {
    assert filled + [] == filled;
  }

  method Invalidate(group: array<Register>, e: Error)
    modifies group
    ensures forall i :: 0 <= i < group.Length ==> group[i] == old(group[i]).(status := Invalid(e))
    ensures group[..] == AllInvalid(old(group[..]), e)
  {
    for i := 0 to group.Length
      invariant forall j :: 0 <= j < i ==> group[j] == old(group[j]).(status := Invalid(e))
      invariant forall j :: i <= j < group.Length ==> group[j] == old(group[j])
    {
      group[i] := group[i].(status := Invalid(e));
    }
  }

  /** A possible outcome of reading a group from conforming devices, which reads leave unchanged. */
  ghost predicate GroupRead(bus: Bus, before: seq<Register>, after: seq<Register>, r: Result<()>) {
    if before == [] then after == before && r == Err(EmptyGroup)
    else if !(1 <= before[0].functionCode <= 4) then after == before && r == Err(Unsupported)
    else
      exists read: Result<seq<byte>> ::
        C.Outcome(GroupRequest(before), before[0].slaverId, bus, bus, read) && (after, r) == Finish(before, read)
  }

  lemma ReadsChangeNothing(request: Request, slave: byte, bus: Bus, bus': Bus, read: Result<seq<byte>>)
    requires IsRead(request)
    requires C.Outcome(request, slave, bus, bus', read)
    ensures bus' == bus
  {
    hide Answer;
  }

  /** The list readGroup returns: nil for an empty group and for a function it does not know. */
  function Returned(before: seq<Register>, after: seq<Register>): seq<Register> {
    if before == [] || !(1 <= before[0].functionCode <= 4) then [] else after
  }

  /** The group's request is answered with an exception on an RTU line. */
  predicate GroupMeetsException(framing: Framing, bus: Bus, g: seq<Register>) {
    && g != [] && 1 <= g[0].functionCode <= 4
    && C.MeetsException(framing, GroupRequest(g), g[0].slaverId, bus)
  }

  predicate Requestable(g: seq<Register>) {
    g != [] && 1 <= g[0].functionCode <= 4
  }

  /** What readGroup yields for a group when nothing interferes; the source's nil result is the empty list. */
  function Sequential(bus: Bus, g: seq<Register>): (seq<Register>, Result<()>) {
    if g == [] then ([], Err(EmptyGroup))
    else if !Requestable(g) then ([], Err(Unsupported))
    else
      var request := GroupRequest(g);
      if Admit(request).Err? then Finish(g, Err(Admit(request).error))
      else Finish(g, C.Call(bus, 0, g[0].slaverId, request))
  }

  /** The sequential result of a group is one a client over conforming devices gives. */
  lemma SequentialIsGroupRead(bus: Bus, g: seq<Register>)
    requires Requestable(g)
    ensures GroupRead(bus, g, Sequential(bus, g).0, Sequential(bus, g).1)
  {
    var request := GroupRequest(g);
    var read := if Admit(request).Err? then Err(Admit(request).error) else C.Call(bus, 0, g[0].slaverId, request);
    hide Finish, C.Call, GroupRequest;
    if Admit(request).Ok? {
      CallIgnoresTransaction(bus, 0, g[0].slaverId, request);
    }
    assert C.Outcome(request, g[0].slaverId, bus, bus, read);
  }

  /** The PDU that asks for a group: the first register's function and address, and the wrapped total. */
  lemma GroupRequestIs(g: seq<Register>)
    requires Requestable(g)
    ensures IsRead(GroupRequest(g))
    ensures RequestPdu(GroupRequest(g))
            == Pdu(g[0].functionCode, Put16(g[0].readAddress) + Put16(Wrap16(TrueTotal(g))))
  {
    Pair(g[0].readAddress, Wrap16(TrueTotal(g)));
    hide TrueTotal, DataBlock;
  }

  /** Over TCP the result of a read call determines the group's, whatever the transaction id. */
  lemma TcpReadIsSequential(bus: Bus, transaction: uint16, g: seq<Register>, read: Result<seq<byte>>)
    requires Requestable(g)
    requires read == if Admit(GroupRequest(g)).Err? then Err(Admit(GroupRequest(g)).error)
                     else C.Call(bus, transaction, g[0].slaverId, GroupRequest(g))
    ensures Finish(g, read) == Sequential(bus, g)
  {
    hide Finish, C.Call, GroupRequest, Admit;
    GroupRequestIs(g);
    if Admit(GroupRequest(g)).Ok? {
      CallIgnoresTransaction(bus, transaction, g[0].slaverId, GroupRequest(g));
    }
  }

  /** readGroup once the call is back: the slices, or the call's error in every register. */
  method Fill(group: array<Register>, data: Result<seq<byte>>) returns (r: Result<()>)
    modifies group
    ensures (group[..], r) == Finish(old(group[..]), data)
  {
    hide Distribute, AllInvalid;
    if data.Err? {
      Invalidate(group, data.error);
      return Err(data.error);
    }
    r := SliceReply(group, data.value);
  }

  /** The client method that reads the group's table. */
  method BuildGroupRequest(group: array<Register>, totalQuantity: uint16) returns (request: Request)
    requires Requestable(group[..]) && totalQuantity == Wrap16(TrueTotal(group[..]))
    ensures request == GroupRequest(group[..])
  {
    var start, functionCode := group[0].readAddress, group[0].functionCode;
    if functionCode == 1 {
      request := ReadCoils(start, totalQuantity);
    } else if functionCode == 2 {
      request := ReadDiscreteInputs(start, totalQuantity);
    } else if functionCode == 3 {
      request := ReadHoldingRegisters(start, totalQuantity);
    } else {
      request := ReadInputRegisters(start, totalQuantity);
    }
  }

  lemma FinishIsGroupRead(bus: Bus, bus': Bus, g: seq<Register>, data: Result<seq<byte>>, after: seq<Register>,
                          r: Result<()>)
    requires Requestable(g) && C.Outcome(GroupRequest(g), g[0].slaverId, bus, bus', data)
    requires (after, r) == Finish(g, data)
    ensures bus' == bus && GroupRead(bus, g, after, r)
  {
    hide C.Outcome, Finish, GroupRequest;
    GroupRequestIs(g);
    ReadsChangeNothing(GroupRequest(g), g[0].slaverId, bus, bus', data);
  }

  /** The rest of readGroup, once the function is known: the request and what becomes of its reply. */
  method ReadRequestable(client: C.Client, group: array<Register>, totalQuantity: uint16) returns (r: Result<()>)
    requires Requestable(group[..]) && totalQuantity == Wrap16(TrueTotal(group[..]))
    requires client.SlaveId() == group[0].slaverId
    modifies client.tcp`transactionId, client.port, group
    ensures old(client.port.pending) == [] ==>
              && GroupRead(old(client.port.bus), old(group[..]), group[..], r)
              && client.port.bus == old(client.port.bus)
              && |client.port.pending|
                 <= (if GroupMeetsException(client.port.framing, old(client.port.bus), old(group[..])) then 1 else 0)
    ensures old(client.port.pending) == [] && client.port.framing.TcpFraming? ==>
              (group[..], r) == Sequential(old(client.port.bus), old(group[..]))
  {
    ghost var before, bus, idle := group[..], client.port.bus, client.port.pending == [];
    hide C.Outcome, C.MeetsException, C.Call, C.ExceptionResult, C.Refused, C.Unheard, Finish, AllInvalid, TrueTotal,
      GroupRead, GroupRequest, Admit;
    var request := BuildGroupRequest(group, totalQuantity);
    var data := client.Perform(request);
    r := Fill(group, data);
    if idle {
      FinishIsGroupRead(bus, client.port.bus, before, data, group[..], r);
      if client.port.framing.TcpFraming? {
        TcpReadIsSequential(bus, Wrap16(client.tcp.transactionId), before, data);
      }
    }
  }

  /** readGroup: one request for the whole group. */
  method ReadGroup(client: C.Client, group: array<Register>) returns (result: seq<Register>, r: Result<()>)
    modifies client.rtu, client.ascii, client.tcp, client.port, group
    ensures result == if group.Length > 0 && 1 <= old(group[0]).functionCode <= 4 then group[..] else []
    ensures group.Length == 0 ==> r == Err(EmptyGroup)
    ensures group.Length > 0 && !(1 <= old(group[0]).functionCode <= 4) ==>
              r == Err(Unsupported) && group[..] == old(group[..])
    ensures old(client.port.pending) == [] ==>
              && GroupRead(old(client.port.bus), old(group[..]), group[..], r)
              && client.port.bus == old(client.port.bus)
              && |client.port.pending|
                 <= (if GroupMeetsException(client.port.framing, old(client.port.bus), old(group[..])) then 1 else 0)
    ensures old(client.port.pending) == [] && client.port.framing.TcpFraming? ==>
              (result, r) == Sequential(old(client.port.bus), old(group[..]))
  {
    if group.Length == 0 {
      return [], Err(EmptyGroup);
    }
    client.SetSlaveId(group[0].slaverId);
    var totalQuantity := SumQuantities(group);
    if !(group[0].functionCode in {1, 2, 3, 4}) {
      return [], Err(Unsupported);
    }
    hide GroupRead, Sequential, C.MeetsException, GroupRequest;
    r := ReadRequestable(client, group, totalQuantity);
    result := group[..];
  }
}
