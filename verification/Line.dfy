/**
 The line to the slaves: a byte stream delivered in arbitrary non-empty chunks, with conforming slaves at
 the far end that answer every complete request addressed to them.
 */
module Line {
  import opened Bytes
  import opened Device
  import opened Crc
  import Rtu
  import Ascii
  import Tcp

  datatype Framing = RtuFraming | AsciiFraming | TcpFraming

  type Bus = map<byte, Memory>

  /** A request as a slave sees it. */
  datatype Heard = Nothing | Heard(transaction: uint16, slave: byte, pdu: Pdu)

  /** The frame that carries p; only TCP frames have a transaction id. */
  function FrameOf(framing: Framing, transaction: uint16, slave: byte, p: Pdu): seq<byte> {
    match framing
    case RtuFraming => Rtu.Frame(slave, p)
    case AsciiFraming => Ascii.Frame(slave, p)
    case TcpFraming => Tcp.Frame(transaction, slave, p)
  }

  // ----- The slaves -----

  function HearRtu(f: seq<byte>): Heard {
    if 4 <= |f| <= 256 && IsSealed(f) then Heard(0, f[0], Pdu(f[1], f[2..|f| - 2])) else Nothing
  }

  function HearAscii(f: seq<byte>): Heard {
    if |f| < 9 || |f| > 513 || |f| % 2 != 1 || f[0] != Ascii.COLON || f[|f| - 2..] != [Ascii.CR, Ascii.LF] then Nothing
    else
      var body := Ascii.HexDecode(f[1..|f| - 2]);
      if body.Err? || Ascii.Sum(body.value) != 0 then Nothing
      else Heard(0, body.value[0], Pdu(body.value[1], body.value[2..|body.value| - 1]))
  }

  function HearTcp(f: seq<byte>): Heard {
    if 8 <= |f| <= 260 && Get16(f, 2) == 0 && Get16(f, 4) as nat + 6 == |f|
    then Heard(Get16(f, 0), f[6], Pdu(f[7], f[8..])) else Nothing
  }

  function Hear(framing: Framing, f: seq<byte>): Heard {
    match framing
    case RtuFraming => HearRtu(f)
    case AsciiFraming => HearAscii(f)
    case TcpFraming => HearTcp(f)
  }

  /** What the slaves do with a request frame, and the bytes that come back. */
  function Respond(framing: Framing, bus: Bus, f: seq<byte>): (Bus, seq<byte>) {
    var h := Hear(framing, f);
    if h.Nothing? || h.slave !in bus then (bus, [])
    else
      var (memory, reply) := Serve(bus[h.slave], h.pdu);
      (bus[h.slave := memory], FrameOf(framing, h.transaction, h.slave, reply))
  }

  /** Every request frame with at most 252 data bytes is heard as it was meant. */
  lemma RequestHeard(framing: Framing, transaction: uint16, slave: byte, p: Pdu)
    requires |p.data| <= 252
    ensures var h := Hear(framing, FrameOf(framing, transaction, slave, p));
            h.Heard? && h.slave == slave && h.pdu == p && (framing.TcpFraming? ==> h.transaction == transaction)
  {
    match framing
    case RtuFraming =>
      Rtu.FrameIsSealed(slave, p);
      hide Rtu.Frame;
    case AsciiFraming =>
      AsciiHeard(slave, p);
    case TcpFraming =>
      Tcp.FrameHeader(transaction, slave, p);
      hide Tcp.Frame;
  }

  lemma AsciiHeard(slave: byte, p: Pdu)
    requires |p.data| <= 252
    ensures HearAscii(Ascii.Frame(slave, p)) == Heard(0, slave, p)
  {
    var f := Ascii.Frame(slave, p);
    var b := Ascii.Body(slave, p);
    assert f[1..|f| - 2] == Ascii.Hex(b);
    Ascii.HexDecodeOfHex(b);
    Ascii.LrcCompletes([slave] + Raw(p), Ascii.Lrc([slave] + Raw(p)));
    hide Ascii.Hex, Ascii.HexDecode, Ascii.Lrc, Ascii.Sum;
    assert b[1] == p.functionCode && b[2..|b| - 1] == p.data;
  }

  lemma RequestAnswered(framing: Framing, bus: Bus, transaction: uint16, slave: byte, p: Pdu)
    requires |p.data| <= 252
    ensures Respond(framing, bus, FrameOf(framing, transaction, slave, p))
            == if slave in bus then
                 (bus[slave := Serve(bus[slave], p).0], FrameOf(framing, transaction, slave, Serve(bus[slave], p).1))
               else (bus, [])
  {
    RequestHeard(framing, transaction, slave, p);
    hide Hear, Serve, Rtu.Frame, Ascii.Frame, Tcp.Frame;
  }

  // ----- The port -----

  class Port {
    const framing: Framing
    var bus: Bus
    var pending: seq<byte>

    constructor (framing: Framing, bus: Bus)
      ensures this.framing == framing && this.bus == bus && pending == []
    {
      this.framing, this.bus, pending := framing, bus, [];
    }

    /** Writing a request makes the slaves act and their reply frame arrive behind what is pending. */
    method Write(adu: seq<byte>)
      modifies this
      ensures (bus, pending) == (Respond(framing, old(bus), adu).0, old(pending) + Respond(framing, old(bus), adu).1)
    {
      var (bus', reply) := Respond(framing, bus, adu);
      bus, pending := bus', pending + reply;
    }

    /** One Read: a non-empty chunk of any size up to max, or a timeout when nothing is pending. */
    method Read(max: nat) returns (r: Result<seq<byte>>)
      requires max > 0
      modifies this`pending
      ensures old(pending) == [] ==> r == Err(Timeout) && pending == []
      ensures old(pending) != [] ==> r.Ok? && 0 < |r.value| <= max && old(pending) == r.value + pending
    {
      if pending == [] {
        return Err(Timeout);
      }
      var n :| 0 < n <= max && n <= |pending|;
      r := Ok(pending[..n]);
      pending := pending[n..];
    }

    /** io.ReadAtLeast: reads until min bytes have arrived; on failure everything pending has been consumed. */
    method ReadAtLeast(max: nat, min: nat) returns (r: Result<seq<byte>>)
      requires min <= max
      modifies this`pending
      ensures |old(pending)| >= min <==> r.Ok?
      ensures r.Ok? ==> min <= |r.value| <= max && old(pending) == r.value + pending
      ensures r.Err? ==> r == Err(Timeout) && pending == []
    {
      var data: seq<byte> := [];
      while |data| < min
        invariant |data| <= max && old(pending) == data + pending
        decreases |pending|
      {
        var chunk := Read(max - |data|);
        if chunk.Err? {
          return chunk;
        }
        data := data + chunk.value;
      }
      return Ok(data);
    }

    /** io.ReadFull. */
    method ReadFull(n: nat) returns (r: Result<seq<byte>>)
      modifies this`pending
      ensures |old(pending)| >= n ==> r == Ok(old(pending)[..n]) && pending == old(pending)[n..]
      ensures |old(pending)| < n ==> r == Err(Timeout) && pending == []
    {
      r := ReadAtLeast(n, n);
    }

    /** Drops some of what is pending. */
    method Flush(max: nat)
      modifies this`pending
      ensures exists n: nat :: n <= |old(pending)| && n <= max && pending == old(pending)[n..]
    {
      var n :| 0 <= n <= max && n <= |pending|;
      pending := pending[n..];
    }
  }
}
