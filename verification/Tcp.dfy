/** The TCP packagers: MBAP header and PDU, and the client's transaction ids. */
module Tcp {
  import opened Bytes

  const TCP_PROTOCOL_IDENTIFIER: uint16 := 0
  const TCP_HEADER_SIZE := 7
  const TCP_MAX_LENGTH := 260

  /** The header of section 3.1.3 of MODBUS Messaging on TCP/IP Implementation Guide V1.0b. */
  function Mbap(transaction: uint16, length: uint16, unit: byte): (h: seq<byte>)
    ensures |h| == 7 && h[6] == unit
    ensures Get16(h, 0) == transaction && Get16(h, 2) == TCP_PROTOCOL_IDENTIFIER && Get16(h, 4) == length
  {
    Put16(transaction) + Put16(TCP_PROTOCOL_IDENTIFIER) + Put16(length) + [unit]
  }

  /** TCPPackager.Pack: a header whose length field counts unit id and PDU, in uint16. */
  function Pack(transaction: uint16, unit: byte, pdu: seq<byte>): (f: seq<byte>)
    ensures |f| == 7 + |pdu|
  {
    Mbap(transaction, Wrap16(|pdu| + 1), unit) + pdu
  }

  function Frame(transaction: uint16, slave: byte, p: Pdu): (f: seq<byte>)
    ensures |f| == 8 + |p.data|
  {
    Pack(transaction, slave, Raw(p))
  }

  lemma HeaderOf(transaction: uint16, unit: byte, pdu: seq<byte>)
    ensures var f := Pack(transaction, unit, pdu);
            && Get16(f, 0) == transaction && Get16(f, 2) == TCP_PROTOCOL_IDENTIFIER
            && Get16(f, 4) == Wrap16(|pdu| + 1) && f[6] == unit && f[7..] == pdu
  {
  }

  lemma FrameHeader(transaction: uint16, slave: byte, p: Pdu)
    ensures var f := Frame(transaction, slave, p);
            && Get16(f, 0) == transaction && Get16(f, 2) == TCP_PROTOCOL_IDENTIFIER
            && Get16(f, 4) == Wrap16(|p.data| + 2) && f[6] == slave
            && f[7] == p.functionCode && f[8..] == p.data
  {
    HeaderOf(transaction, slave, Raw(p));
    hide Pack;
    var f := Frame(transaction, slave, p);
    assert f[7] == f[7..][0] && f[8..] == f[7..][1..];
  }

  lemma HeaderRestores(f: seq<byte>)
    requires |f| >= 7 && Get16(f, 2) == TCP_PROTOCOL_IDENTIFIER
    ensures f == Mbap(Get16(f, 0), Get16(f, 4), f[6]) + f[7..]
  {
    Put16OfGet16(f, 0);
    Put16OfGet16(f, 2);
    Put16OfGet16(f, 4);
    assert f == f[0..2] + f[2..4] + f[4..6] + [f[6]] + f[7..];
  }

  // ----- TCPPackager -----

  datatype Message = Message(transaction: uint16, unit: byte, pdu: seq<byte>)

  function Unpack(frame: seq<byte>): Result<Message> {
    if |frame| < 7 then Err(TooShort)
    else if Get16(frame, 2) != TCP_PROTOCOL_IDENTIFIER then Err(BadProtocol)
    else if Get16(frame, 4) != Wrap16(|frame[7..]| + 1) then Err(BadLength)
    else Ok(Message(Get16(frame, 0), frame[6], frame[7..]))
  }

  /** Pack fills a buffer field by field. */
  method PackPdu(transaction: uint16, unit: byte, pdu: seq<byte>) returns (frame: seq<byte>)
    ensures frame == Pack(transaction, unit, pdu)
  {
    var length := Wrap16(|pdu| + 1);
    var buffer := new byte[7 + |pdu|];
    PutUint16(buffer, 0, transaction);
    PutUint16(buffer, 2, TCP_PROTOCOL_IDENTIFIER);
    PutUint16(buffer, 4, length);
    buffer[6] := unit;
    forall i | 0 <= i < |pdu| {
      buffer[7 + i] := pdu[i];
    }
    frame := buffer[..];
    assert frame[7..] == pdu;
    HeaderRestores(frame);
  }

  method PutUint16(buffer: array<byte>, at: nat, v: uint16)
    requires at + 2 <= buffer.Length
    modifies buffer
    ensures buffer[at] == v / 0x100 && buffer[at + 1] == v % 0x100
    ensures forall i :: 0 <= i < buffer.Length && i != at && i != at + 1 ==> buffer[i] == old(buffer[i])
  {
    buffer[at] := v / 0x100;
    buffer[at + 1] := v % 0x100;
  }

  /** Unpack inverts Pack for PDUs of every length: both wrap the length field alike. */
  lemma UnpackInvertsPack(transaction: uint16, unit: byte, pdu: seq<byte>)
    ensures Unpack(Pack(transaction, unit, pdu)) == Ok(Message(transaction, unit, pdu))
  {
    HeaderOf(transaction, unit, pdu);
  }

  /** Packing what Unpack accepted gives the frame back. */
  lemma PackInvertsUnpack(frame: seq<byte>)
    requires Unpack(frame).Ok?
    ensures var m := Unpack(frame).value; Pack(m.transaction, m.unit, m.pdu) == frame
  {
    HeaderRestores(frame);
  }

  // ----- The client's packager -----

  function Verify(request: seq<byte>, response: seq<byte>): Result<()> {
    if |response| < 2 || |request| < 2 then Err(RuntimePanic)
    else if Get16(response, 0) != Get16(request, 0) then Err(BadTransaction)
    else if |response| < 4 || |request| < 4 then Err(RuntimePanic)
    else if Get16(response, 2) != Get16(request, 2) then Err(BadProtocol)
    else if |response| < 7 || |request| < 7 then Err(RuntimePanic)
    else if response[6] != request[6] then Err(BadSlave)
    else Ok(())
  }

  /** The length field is decremented in uint16, so zero becomes 65535. */
  function Decode(adu: seq<byte>): Result<Pdu> {
    if |adu| < 6 then Err(RuntimePanic)
    else
      var pduLength := |adu| - TCP_HEADER_SIZE;
      if pduLength <= 0 || pduLength != Wrap16(Get16(adu, 4) as nat + 0xFFFF) then Err(BadLength)
      else Ok(Pdu(adu[7], adu[8..]))
  }

  function NextCounter(counter: uint32): uint32 {
    (counter as nat + 1) % 0x1_0000_0000
  }

  class Packager {
    var transactionId: uint32
    var slaveId: byte

    constructor ()
      ensures transactionId == 0 && slaveId == 0
    {
      transactionId, slaveId := 0, 0;
    }

    method SetSlaverId(id: byte)
      modifies this`slaveId
      ensures slaveId == id
    {
      slaveId := id;
    }

    method EncodePdu(p: Pdu) returns (adu: seq<byte>)
      modifies this`transactionId
      ensures transactionId == NextCounter(old(transactionId))
      ensures adu == Frame(Wrap16(transactionId), slaveId, p)
    {
      var buffer := new byte[TCP_HEADER_SIZE + 1 + |p.data|];
      transactionId := (transactionId as nat + 1) % 0x1_0000_0000;
      PutUint16(buffer, 0, Wrap16(transactionId));
      PutUint16(buffer, 2, TCP_PROTOCOL_IDENTIFIER);
      PutUint16(buffer, 4, Wrap16(1 + 1 + |p.data|));
      buffer[6] := slaveId;
      buffer[TCP_HEADER_SIZE] := p.functionCode;
      forall i | 0 <= i < |p.data| {
        buffer[TCP_HEADER_SIZE + 1 + i] := p.data[i];
      }
      adu := buffer[..];
      assert adu[7..] == Raw(p);
      HeaderRestores(adu);
    }
  }

  /** Decode inverts Encode exactly on PDUs whose length fits the header field. */
  lemma RoundTripIff(transaction: uint16, slave: byte, p: Pdu)
    ensures Decode(Frame(transaction, slave, p)) == Ok(p) <==> |p.data| < 0xFFFF
  {
    FrameHeader(transaction, slave, p);
    hide Frame;
  }

  /** Re-encoding an accepted Modbus frame gives it back. */
  lemma EncodeInvertsDecode(adu: seq<byte>)
    requires Decode(adu).Ok? && Get16(adu, 2) == TCP_PROTOCOL_IDENTIFIER
    ensures Frame(Get16(adu, 0), adu[6], Decode(adu).value) == adu
  {
    var length := Get16(adu, 4);
    assert |adu| >= 8 && length == Wrap16(1 + 1 + |Decode(adu).value.data|);
    assert Raw(Decode(adu).value) == adu[7..];
    hide Get16, Decode;
    HeaderRestores(adu);
  }

  /** The reply of the addressed unit to this very request is accepted. */
  lemma VerifyAcceptsEcho(transaction: uint16, slave: byte, request: Pdu, reply: Pdu)
    ensures Verify(Frame(transaction, slave, request), Frame(transaction, slave, reply)) == Ok(())
  {
    FrameHeader(transaction, slave, request);
    FrameHeader(transaction, slave, reply);
    hide Frame;
  }

  /** On any two byte strings, Verify accepts exactly those that agree in id, protocol and unit. */
  lemma VerifyComparesHeader(request: seq<byte>, response: seq<byte>)
    ensures Verify(request, response) == Ok(()) <==>
            |request| >= 7 && |response| >= 7 && request[..4] == response[..4] && request[6] == response[6]
  {
    if |request| >= 7 && |response| >= 7 {
      Put16OfGet16(request, 0);
      Put16OfGet16(request, 2);
      Put16OfGet16(response, 0);
      Put16OfGet16(response, 2);
      assert request[..4] == request[0..2] + request[2..4];
      assert response[..4] == response[0..2] + response[2..4];
      if request[..4] == response[..4] {
        assert request[0..2] == request[..4][..2] && response[0..2] == response[..4][..2];
        assert request[2..4] == request[..4][2..] && response[2..4] == response[..4][2..];
      }
    }
  }

  // ----- Transaction ids over runs -----

  /** The counter after n encodings. */
  function CounterAfter(counter: uint32, n: nat): uint32 {
    if n == 0 then counter else NextCounter(CounterAfter(counter, n - 1))
  }

  /** The frames of consecutive encodings. */
  function Run(counter: uint32, slave: byte, pdus: seq<Pdu>): (frames: seq<seq<byte>>)
    ensures |frames| == |pdus| && forall i :: 0 <= i < |frames| ==> |frames[i]| >= 8
    decreases |pdus|
  {
    if pdus == [] then []
    else [Frame(Wrap16(NextCounter(counter)), slave, pdus[0])] + Run(NextCounter(counter), slave, pdus[1..])
  }

  lemma {:induction false} CounterAfterIs(counter: uint32, n: nat)
    ensures CounterAfter(counter, n) == (counter as nat + n) % 0x1_0000_0000
  {
    if n > 0 {
      CounterAfterIs(counter, n - 1);
      StepModulo(counter as nat + (n - 1));
    }
  }

  lemma StepModulo(x: nat)
    ensures NextCounter(x % 0x1_0000_0000) == (x + 1) % 0x1_0000_0000
  {
  }

  lemma {:induction false} CounterAfterNext(counter: uint32, n: nat)
    ensures CounterAfter(NextCounter(counter), n) == CounterAfter(counter, n + 1)
  {
    if n > 0 {
      CounterAfterNext(counter, n - 1);
    }
  }

  lemma {:induction false} RunAt(counter: uint32, slave: byte, pdus: seq<Pdu>, k: nat)
    requires k < |pdus|
    ensures Run(counter, slave, pdus)[k] == Frame(Wrap16(CounterAfter(counter, k + 1)), slave, pdus[k])
    decreases |pdus|
  {
    hide Frame, NextCounter;
    if k > 0 {
      RunAt(NextCounter(counter), slave, pdus[1..], k - 1);
      CounterAfterNext(counter, k);
    } else {
      assert CounterAfter(counter, 0) == counter;
    }
  }

  /** Two encodings of a run share an id exactly when a multiple of 65536 apart, across the uint32 wrap. */
  lemma IdsCollideIff(counter: uint32, j: nat, k: nat)
    requires j <= k
    ensures Wrap16(CounterAfter(counter, j)) == Wrap16(CounterAfter(counter, k)) <==> (k - j) % 0x1_0000 == 0
  {
    CounterAfterIs(counter, j);
    CounterAfterIs(counter, k);
    var x: nat, y: nat := counter as nat + j, counter as nat + k;
    LowWord(x);
    LowWord(y);
    SameResidue(x, y);
    hide CounterAfter;
  }

  lemma LowWord(x: nat)
    ensures (x % 0x1_0000_0000) % 0x1_0000 == x % 0x1_0000
  {
    DropMultiple(x % 0x1_0000_0000, 0x1_0000 * (x / 0x1_0000_0000));
  }

  lemma DropMultiple(x: nat, k: nat)
    ensures (x + 0x1_0000 * k) % 0x1_0000 == x % 0x1_0000
  {
  }

  lemma SameResidue(x: nat, y: nat)
    requires x <= y
    ensures x % 0x1_0000 == y % 0x1_0000 <==> (y - x) % 0x1_0000 == 0
  {
  }

  /**
   In every run, request k accepts a reply to request j, whatever the reply carries, exactly when the
   reply is from its unit and j is k or a multiple of 65536 requests earlier; a reply to any of the
   previous 65535 requests is rejected by its id.
   */
  lemma RepliesAcceptedIff(counter: uint32, slave: byte, pdus: seq<Pdu>, j: nat, k: nat, unit: byte, reply: Pdu)
    requires j <= k < |pdus|
    ensures var frames := Run(counter, slave, pdus);
            var echo := Frame(Get16(frames[j], 0), unit, reply);
            && (Verify(frames[k], echo) == Ok(()) <==> (k - j) % 0x1_0000 == 0 && unit == slave)
            && (j < k < j + 0x1_0000 ==> Verify(frames[k], echo) == Err(BadTransaction))
  {
    RunAt(counter, slave, pdus, j);
    RunAt(counter, slave, pdus, k);
    var a, b := Wrap16(CounterAfter(counter, j + 1)), Wrap16(CounterAfter(counter, k + 1));
    FrameHeader(a, slave, pdus[j]);
    VerifyIff(b, slave, pdus[k], a, unit, reply);
    IdsCollideIff(counter, j + 1, k + 1);
    hide Frame, CounterAfter, Run, Wrap16, Verify, Get16;
    assert Get16(Run(counter, slave, pdus)[j], 0) == a;
    Distance(j, k);
  }

  lemma Distance(j: nat, k: nat)
    ensures j < k < j + 0x1_0000 ==> (k - j) % 0x1_0000 != 0
  {
  }

  /** Verify compares exactly the ids and the units of frames that either side built. */
  lemma VerifyIff(requested: uint16, slave: byte, request: Pdu, replied: uint16, unit: byte, reply: Pdu)
    ensures var result := Verify(Frame(requested, slave, request), Frame(replied, unit, reply));
            && (result == Ok(()) <==> requested == replied && slave == unit)
            && (requested != replied ==> result == Err(BadTransaction))
            && (requested == replied && slave != unit ==> result == Err(BadSlave))
  {
    FrameHeader(requested, slave, request);
    FrameHeader(replied, unit, reply);
    hide Frame;
  }
}
