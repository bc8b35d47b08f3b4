/**
 The requests the client issues, the checks it makes on them and on the replies,
 and what each request means for a device's memory.
 */
module Requests {
  import opened Bytes
  import opened Words
  import opened Device

  datatype Request =
    | ReadCoils(address: uint16, quantity: uint16)
    | ReadDiscreteInputs(address: uint16, quantity: uint16)
    | ReadHoldingRegisters(address: uint16, quantity: uint16)
    | ReadInputRegisters(address: uint16, quantity: uint16)
    | WriteSingleCoil(address: uint16, state: uint16)
    | WriteSingleRegister(address: uint16, word: uint16)
    | WriteMultipleCoils(address: uint16, quantity: uint16, value: seq<byte>)
    | WriteMultipleRegisters(address: uint16, quantity: uint16, value: seq<byte>)
    | MaskWriteRegister(address: uint16, andMask: uint16, orMask: uint16)
    | ReadWriteMultipleRegisters(
        address: uint16, quantity: uint16, writeAddress: uint16, writeQuantity: uint16, value: seq<byte>)

  function DataBlock(values: seq<uint16>): seq<byte> {
    WordBytes(values)
  }

  /** The suffix is preceded by its length, which Go truncates to a byte. */
  function DataBlockSuffix(suffix: seq<byte>, values: seq<uint16>): seq<byte> {
    WordBytes(values) + [|suffix| % 0x100] + suffix
  }

  function RequestPdu(r: Request): Pdu {
    match r
    case ReadCoils(a, q) => Pdu(1, DataBlock([a, q]))
    case ReadDiscreteInputs(a, q) => Pdu(2, DataBlock([a, q]))
    case ReadHoldingRegisters(a, q) => Pdu(3, DataBlock([a, q]))
    case ReadInputRegisters(a, q) => Pdu(4, DataBlock([a, q]))
    case WriteSingleCoil(a, v) => Pdu(5, DataBlock([a, v]))
    case WriteSingleRegister(a, v) => Pdu(6, DataBlock([a, v]))
    case WriteMultipleCoils(a, q, v) => Pdu(15, DataBlockSuffix(v, [a, q]))
    case WriteMultipleRegisters(a, q, v) => Pdu(16, DataBlockSuffix(v, [a, q]))
    case MaskWriteRegister(a, x, y) => Pdu(22, DataBlock([a, x, y]))
    case ReadWriteMultipleRegisters(ra, rq, wa, wq, v) => Pdu(23, DataBlockSuffix(v, [ra, rq, wa, wq]))
  }

  /** The checks a client method makes before sending. */
  function Admit(r: Request): Result<Pdu> {
    match r
    case ReadCoils(_, q) => if 1 <= q <= 2000 then Ok(RequestPdu(r)) else Err(BadQuantity)
    case ReadDiscreteInputs(_, q) => if 1 <= q <= 2000 then Ok(RequestPdu(r)) else Err(BadQuantity)
    case ReadHoldingRegisters(_, q) => if 1 <= q <= 125 then Ok(RequestPdu(r)) else Err(BadQuantity)
    case ReadInputRegisters(_, q) => if 1 <= q <= 125 then Ok(RequestPdu(r)) else Err(BadQuantity)
    case WriteSingleCoil(_, v) => if v == 0xFF00 || v == 0 then Ok(RequestPdu(r)) else Err(BadState)
    case WriteSingleRegister(_, _) => Ok(RequestPdu(r))
    case WriteMultipleCoils(_, q, _) => if 1 <= q <= 1968 then Ok(RequestPdu(r)) else Err(BadQuantity)
    case WriteMultipleRegisters(_, q, _) => if 1 <= q <= 123 then Ok(RequestPdu(r)) else Err(BadQuantity)
    case MaskWriteRegister(_, _, _) => Ok(RequestPdu(r))
    case ReadWriteMultipleRegisters(_, rq, _, wq, _) =>
      if 1 <= rq <= 125 && 1 <= wq <= 121 then Ok(RequestPdu(r)) else Err(BadQuantity)
  }

  /** The counted payload of a read reply. */
  function AcceptCounted(data: seq<byte>): Result<seq<byte>>
    requires data != []
  {
    if data[0] == |data| - 1 then Ok(data[1..]) else Err(BadLength)
  }

  /** A write reply echoes the given words; the first is the address. */
  function AcceptEcho(data: seq<byte>, words: seq<uint16>): Result<seq<byte>>
    requires words != []
  {
    if |data| != 2 * |words| then Err(BadLength)
    else if data != WordBytes(words) then Err(BadEcho)
    else Ok(data[2..])
  }

  /** The checks a client method makes on a reply that has the right function code. */
  function Accept(r: Request, data: seq<byte>): Result<seq<byte>>
    requires data != []
  {
    match r
    case ReadCoils(_, _) => AcceptCounted(data)
    case ReadDiscreteInputs(_, _) => AcceptCounted(data)
    case ReadHoldingRegisters(_, _) => AcceptCounted(data)
    case ReadInputRegisters(_, _) => AcceptCounted(data)
    case WriteSingleCoil(a, v) => AcceptEcho(data, [a, v])
    case WriteSingleRegister(a, v) => AcceptEcho(data, [a, v])
    case WriteMultipleCoils(a, q, _) => AcceptEcho(data, [a, q])
    case WriteMultipleRegisters(a, q, _) => AcceptEcho(data, [a, q])
    case MaskWriteRegister(a, x, y) => AcceptEcho(data, [a, x, y])
    case ReadWriteMultipleRegisters(_, _, _, _, _) => AcceptCounted(data)
  }

  // ----- What a request means for the memory it is addressed to -----

  predicate IsRead(r: Request) {
    r.ReadCoils? || r.ReadDiscreteInputs? || r.ReadHoldingRegisters? || r.ReadInputRegisters?
  }

  /** The addressed cells exist and the payload has the size the quantity calls for. */
  predicate Served(r: Request, m: Memory) {
    match r
    case ReadCoils(a, q) => a + q <= |m.coils|
    case ReadDiscreteInputs(a, q) => a + q <= |m.discretes|
    case ReadHoldingRegisters(a, q) => a + q <= |m.holding|
    case ReadInputRegisters(a, q) => a + q <= |m.inputs|
    case WriteSingleCoil(a, _) => a < |m.coils|
    case WriteSingleRegister(a, _) => a < |m.holding|
    case WriteMultipleCoils(a, q, v) => a + q <= |m.coils| && |v| == CeilDiv8(q)
    case WriteMultipleRegisters(a, q, v) => a + q <= |m.holding| && |v| == 2 * q
    case MaskWriteRegister(a, _, _) => a < |m.holding|
    case ReadWriteMultipleRegisters(ra, rq, wa, wq, v) =>
      ra + rq <= |m.holding| && wa + wq <= |m.holding| && |v| == 2 * wq
  }

  function Effect(r: Request, m: Memory): Memory
    requires Served(r, m)
  {
    match r
    case WriteSingleCoil(a, v) => m.(coils := m.coils[a := v == 0xFF00])
    case WriteSingleRegister(a, v) => m.(holding := m.holding[a := v])
    case WriteMultipleCoils(a, q, v) => m.(coils := Patch(m.coils, a, UnpackBits(v, q)))
    case WriteMultipleRegisters(a, q, v) => m.(holding := Patch(m.holding, a, BytesToWords(v)))
    case MaskWriteRegister(a, x, y) => m.(holding := m.holding[a := MaskWord(m.holding[a], x, y)])
    case ReadWriteMultipleRegisters(_, _, wa, _, v) => m.(holding := Patch(m.holding, wa, BytesToWords(v)))
    case _ => m
  }

  /** The bytes the client method returns. */
  function Answer(r: Request, m: Memory): seq<byte>
    requires Served(r, m)
  {
    match r
    case ReadCoils(a, q) => PackBits(m.coils[a..a + q])
    case ReadDiscreteInputs(a, q) => PackBits(m.discretes[a..a + q])
    case ReadHoldingRegisters(a, q) => WordBytes(m.holding[a..a + q])
    case ReadInputRegisters(a, q) => WordBytes(m.inputs[a..a + q])
    case WriteSingleCoil(_, v) => Put16(v)
    case WriteSingleRegister(_, v) => Put16(v)
    case WriteMultipleCoils(_, q, _) => Put16(q)
    case WriteMultipleRegisters(_, q, _) => Put16(q)
    case MaskWriteRegister(_, x, y) => Put16(x) + Put16(y)
    case ReadWriteMultipleRegisters(ra, rq, _, _, _) => WordBytes(Effect(r, m).holding[ra..ra + rq])
  }

  /** The payload has the size the quantity calls for. */
  predicate PayloadFits(r: Request) {
    && (r.WriteMultipleCoils? ==> |r.value| == CeilDiv8(r.quantity))
    && (r.WriteMultipleRegisters? ==> |r.value| == 2 * r.quantity)
    && (r.ReadWriteMultipleRegisters? ==> |r.value| == 2 * r.writeQuantity)
  }

  /**
   Round trip through PDUs: the device serves an admitted request exactly when its cells exist and its
   payload fits; then its memory takes the request's effect and the client reads the request's answer
   out of the reply. Otherwise the memory is untouched and the reply is an exception.
   */
  ghost predicate Meaning(r: Request, m: Memory) {
    var p := RequestPdu(r);
    var (m', reply) := Serve(m, p);
    && 1 <= |reply.data| <= 251
    && if Served(r, m) then
         && m' == Effect(r, m)
         && reply.functionCode == p.functionCode
         && Accept(r, reply.data) == Ok(Answer(r, m))
       else
         m' == m && reply == ExceptionReply(p.functionCode, if PayloadFits(r) then 2 else 3)
  }

  lemma Pair(a: uint16, b: uint16)
    ensures DataBlock([a, b]) == Put16(a) + Put16(b)
    ensures |DataBlock([a, b])| == 4
    ensures Get16(DataBlock([a, b]), 0) == a && Get16(DataBlock([a, b]), 2) == b
  {
    assert [a, b][1..] == [b];
    assert WordBytes([b]) == Put16(b);
  }

  lemma Triple(a: uint16, b: uint16, c: uint16)
    ensures |DataBlock([a, b, c])| == 6
    ensures DataBlock([a, b, c]) == Put16(a) + (Put16(b) + Put16(c))
    ensures Get16(DataBlock([a, b, c]), 0) == a
    ensures Get16(DataBlock([a, b, c]), 2) == b
    ensures Get16(DataBlock([a, b, c]), 4) == c
  {
    assert [a, b, c][1..] == [b, c];
    Pair(b, c);
  }

  lemma Quad(a: uint16, b: uint16, c: uint16, d: uint16)
    ensures |DataBlock([a, b, c, d])| == 8
    ensures Get16(DataBlock([a, b, c, d]), 0) == a
    ensures Get16(DataBlock([a, b, c, d]), 2) == b
    ensures Get16(DataBlock([a, b, c, d]), 4) == c
    ensures Get16(DataBlock([a, b, c, d]), 6) == d
  {
    assert [a, b, c, d][1..] == [b, c, d];
    Triple(b, c, d);
  }

  lemma ReadBitsMeaning(r: Request, m: Memory)
    requires (r.ReadCoils? || r.ReadDiscreteInputs?) && Admit(r).Ok?
    ensures Meaning(r, m)
  {
    Pair(r.address, r.quantity);
    hide DataBlock, PackBits, ServeReadWords, ServeWriteCoil, ServeWriteRegister, ServeWriteCoils, ServeWriteRegisters,
      ServeMaskWrite, ServeReadWrite, Effect, AcceptEcho;
    assert Served(r, m) ==> Effect(r, m) == m by {
      ReadsKeepMemory(r, m);
    }
    var code: byte := 2;
    assert !Served(r, m) ==> Serve(m, RequestPdu(r)) == (m, ExceptionReply(RequestPdu(r).functionCode, code));
  }

  lemma ReadsKeepMemory(r: Request, m: Memory)
    requires IsRead(r)
    ensures Served(r, m) ==> Effect(r, m) == m
  {
  }

  lemma ReadWordsMeaning(r: Request, m: Memory)
    requires (r.ReadHoldingRegisters? || r.ReadInputRegisters?) && Admit(r).Ok?
    ensures Meaning(r, m)
  {
    Pair(r.address, r.quantity);
    hide DataBlock, WordBytes, Get16;
    var code: byte := 2;
    assert !Served(r, m) ==> Serve(m, RequestPdu(r)) == (m, ExceptionReply(RequestPdu(r).functionCode, code));
  }

  lemma WriteSingleMeaning(r: Request, m: Memory)
    requires r.WriteSingleCoil? || r.WriteSingleRegister?
    requires Admit(r).Ok?
    ensures Meaning(r, m)
  {
    var v := if r.WriteSingleCoil? then r.state else r.word;
    Pair(r.address, v);
    if Served(r, m) {
      if r.WriteSingleCoil? {
        PatchOne(m.coils, r.address, v == 0xFF00);
      } else {
        PatchOne(m.holding, r.address, v);
      }
    }
    hide WordBytes, Patch;
    var code: byte := 2;
    assert !Served(r, m) ==> Serve(m, RequestPdu(r)) == (m, ExceptionReply(RequestPdu(r).functionCode, code));
    assert Accept(r, DataBlock([r.address, v])) == Ok(Put16(v));
  }

  lemma PatchOne<T>(s: seq<T>, address: nat, v: T)
    requires address < |s|
    ensures Patch(s, address, [v]) == s[address := v]
  {
  }

  lemma WriteMultipleMeaning(r: Request, m: Memory)
    requires r.WriteMultipleCoils? || r.WriteMultipleRegisters?
    requires Admit(r).Ok?
    ensures Meaning(r, m)
  {
    SuffixParts(r);
    hide DataBlock, WordBytes, BytesToWords, UnpackBits, PackBits, Get16, Patch;
    var p := RequestPdu(r);
    var words := WordBytes([r.address, r.quantity]);
    var size := if r.WriteMultipleCoils? then CeilDiv8(r.quantity) else 2 * r.quantity;
    var code: byte := if |r.value| == size then 2 else 3;
    assert !Served(r, m) ==> Serve(m, p) == (m, ExceptionReply(p.functionCode, code));
  }

  /** Where address, quantity, byte count and payload lie in a write of several cells. */
  lemma SuffixParts(r: Request)
    requires r.WriteMultipleCoils? || r.WriteMultipleRegisters?
    ensures var data, words := RequestPdu(r).data, WordBytes([r.address, r.quantity]);
            && |words| == 4 && |data| == 5 + |r.value| && data[..4] == words && data[5..] == r.value
            && data[4] == |r.value| % 0x100
            && Get16(data, 0) == r.address && Get16(data, 2) == r.quantity && words[2..] == Put16(r.quantity)
  {
    Pair(r.address, r.quantity);
    hide WordBytes;
    var data, words := RequestPdu(r).data, WordBytes([r.address, r.quantity]);
    assert words == DataBlock([r.address, r.quantity]);
    assert data == words + [|r.value| % 0x100] + r.value;
    assert data[..4] == words;
  }

  lemma MaskWriteMeaning(r: Request, m: Memory)
    requires r.MaskWriteRegister?
    ensures Meaning(r, m)
  {
    Triple(r.address, r.andMask, r.orMask);
    if Served(r, m) {
      PatchOne(m.holding, r.address, MaskWord(m.holding[r.address], r.andMask, r.orMask));
    }
    hide WordBytes, MaskWord, Patch;
    var code: byte := 2;
    assert !Served(r, m) ==> Serve(m, RequestPdu(r)) == (m, ExceptionReply(RequestPdu(r).functionCode, code));
    assert DataBlock([r.address, r.andMask, r.orMask])[2..] == Put16(r.andMask) + Put16(r.orMask);
  }

  /** A mask write takes each bit from the register where the AND mask has it, and from the OR mask elsewhere. */
  lemma MaskWordBits(current: uint16, andMask: uint16, orMask: uint16, k: nat)
    requires k < 16
    ensures GetBit(MaskWord(current, andMask, orMask), k)
            <==> if GetBit(andMask, k) then GetBit(current, k) else GetBit(orMask, k)
  {
    MaskBitsAt(current, andMask, orMask, 16, k);
  }

  lemma {:induction false} MaskBitsAt(current: nat, andMask: nat, orMask: nat, bits: nat, k: nat)
    requires k < bits
    ensures GetBit(MaskBits(current, andMask, orMask, bits), k)
            <==> if GetBit(andMask, k) then GetBit(current, k) else GetBit(orMask, k)
    decreases k
  {
    var rest := MaskBits(current / 2, andMask / 2, orMask / 2, bits - 1);
    var low := if andMask % 2 == 1 then current % 2 else orMask % 2;
    assert MaskBits(current, andMask, orMask, bits) == 2 * rest + low;
    BitOfDouble(rest, low, k);
    if k > 0 {
      MaskBitsAt(current / 2, andMask / 2, orMask / 2, bits - 1, k - 1);
    }
    hide MaskBits;
  }

  lemma BitOfDouble(rest: nat, low: nat, k: nat)
    requires low < 2
    ensures GetBit(2 * rest + low, k) == if k == 0 then low == 1 else GetBit(rest, k - 1)
  {
    assert (2 * rest + low) / 2 == rest && (2 * rest + low) % 2 == low;
  }

  lemma ReadWriteMeaning(r: Request, m: Memory)
    requires r.ReadWriteMultipleRegisters? && Admit(r).Ok?
    ensures Meaning(r, m)
  {
    Quad(r.address, r.quantity, r.writeAddress, r.writeQuantity);
    var p := RequestPdu(r);
    assert p.data[9..] == r.value && p.data[8] == |r.value| % 0x100;
    assert Get16(p.data, 0) == r.address && Get16(p.data, 2) == r.quantity;
    assert Get16(p.data, 4) == r.writeAddress && Get16(p.data, 6) == r.writeQuantity;
    hide DataBlock, WordBytes, BytesToWords, Get16, Patch;
    var code: byte := if |r.value| == 2 * r.writeQuantity then 2 else 3;
    assert !Served(r, m) ==> Serve(m, p) == (m, ExceptionReply(p.functionCode, code));
  }

  lemma RequestMeaning(r: Request, m: Memory)
    requires Admit(r).Ok?
    ensures Meaning(r, m)
  {
    hide Meaning;
    if r.ReadCoils? || r.ReadDiscreteInputs? {
      ReadBitsMeaning(r, m);
    } else if r.ReadHoldingRegisters? || r.ReadInputRegisters? {
      ReadWordsMeaning(r, m);
    } else if r.WriteSingleCoil? || r.WriteSingleRegister? {
      WriteSingleMeaning(r, m);
    } else if r.WriteMultipleCoils? || r.WriteMultipleRegisters? {
      WriteMultipleMeaning(r, m);
    } else if r.MaskWriteRegister? {
      MaskWriteMeaning(r, m);
    } else {
      ReadWriteMeaning(r, m);
    }
  }

  // ----- What the client accepts and refuses -----

  lemma FunctionCodeOf(r: Request)
    ensures RequestPdu(r).functionCode ==
            match r
            case ReadCoils(_, _) => 1
            case ReadDiscreteInputs(_, _) => 2
            case ReadHoldingRegisters(_, _) => 3
            case ReadInputRegisters(_, _) => 4
            case WriteSingleCoil(_, _) => 5
            case WriteSingleRegister(_, _) => 6
            case WriteMultipleCoils(_, _, _) => 15
            case WriteMultipleRegisters(_, _, _) => 16
            case MaskWriteRegister(_, _, _) => 22
            case ReadWriteMultipleRegisters(_, _, _, _, _) => 23
  {
  }

  /**
   A read reply is accepted exactly when its first byte counts the rest, which is returned; the reply to a write exactly
   when it repeats the request's words, all but the first of which are returned.
   */
  lemma AcceptIff(r: Request, data: seq<byte>)
    requires data != []
    ensures IsRead(r) || r.ReadWriteMultipleRegisters? ==>
              Accept(r, data) == if data[0] == |data| - 1 then Ok(data[1..]) else Err(BadLength)
    ensures r.WriteSingleCoil? || r.WriteSingleRegister? || r.MaskWriteRegister? ==>
              Accept(r, data) == if data == RequestPdu(r).data then Ok(data[2..])
                                 else if |data| == |RequestPdu(r).data| then Err(BadEcho) else Err(BadLength)
    ensures r.WriteMultipleCoils? || r.WriteMultipleRegisters? ==>
              |RequestPdu(r).data| >= 5 &&
              Accept(r, data) == if data == RequestPdu(r).data[..4] then Ok(data[2..])
                                 else if |data| == 4 then Err(BadEcho) else Err(BadLength)
  {
    hide WordBytes;
    if r.WriteMultipleCoils? || r.WriteMultipleRegisters? {
      assert RequestPdu(r).data[..4] == WordBytes([r.address, r.quantity]);
    }
  }

  /** Where a refusal comes from: the quantities and the coil state the standard allows. */
  lemma AdmitsOrRefuses(r: Request)
    ensures Admit(r) == Ok(RequestPdu(r)) || Admit(r) == Err(if r.WriteSingleCoil? then BadState else BadQuantity)
    ensures r.WriteSingleRegister? || r.MaskWriteRegister? ==> Admit(r).Ok?
  {
    hide RequestPdu;
  }

  lemma RefusedRead(r: Request, m: Memory)
    requires Admit(r).Err? && IsRead(r)
    ensures Serve(m, RequestPdu(r)) == (m, ExceptionReply(RequestPdu(r).functionCode, 3))
  {
    Pair(r.address, r.quantity);
    hide DataBlock;
  }

  lemma RefusedWrite(r: Request, m: Memory)
    requires Admit(r).Err? && (r.WriteMultipleCoils? || r.WriteMultipleRegisters?)
    ensures Serve(m, RequestPdu(r)) == (m, ExceptionReply(RequestPdu(r).functionCode, 3))
  {
    Pair(r.address, r.quantity);
    hide DataBlock, WordBytes;
    var p := RequestPdu(r);
    var words := WordBytes([r.address, r.quantity]);
    assert words == DataBlock([r.address, r.quantity]);
    assert p.data[..4] == words;
    assert Get16(p.data, 2) == r.quantity;
  }

  lemma RefusedReadWrite(r: Request, m: Memory)
    requires Admit(r).Err? && r.ReadWriteMultipleRegisters?
    ensures Serve(m, RequestPdu(r)) == (m, ExceptionReply(RequestPdu(r).functionCode, 3))
  {
    Quad(r.address, r.quantity, r.writeAddress, r.writeQuantity);
    hide DataBlock, WordBytes;
    var p := RequestPdu(r);
    var words := WordBytes([r.address, r.quantity, r.writeAddress, r.writeQuantity]);
    assert p.data[..8] == words;
    assert Get16(p.data, 2) == r.quantity && Get16(p.data, 6) == r.writeQuantity;
  }

  /** What the client refuses to send, every device would refuse with exception 3, and nothing would change. */
  lemma RefusedByEveryDevice(r: Request, m: Memory)
    requires Admit(r).Err?
    ensures Serve(m, RequestPdu(r)) == (m, ExceptionReply(RequestPdu(r).functionCode, 3))
  {
    if IsRead(r) {
      RefusedRead(r, m);
    } else if r.WriteMultipleCoils? || r.WriteMultipleRegisters? {
      RefusedWrite(r, m);
    } else if r.ReadWriteMultipleRegisters? {
      RefusedReadWrite(r, m);
    } else {
      Pair(r.address, r.state);
    }
    hide WordBytes, Serve;
  }

  /** The client admits a request with a payload of the right size exactly if some device serves it. */
  lemma AdmitsIffServable(r: Request)
    requires PayloadFits(r)
    ensures Admit(r).Ok? <==> exists m :: Serve(m, RequestPdu(r)).1.functionCode == RequestPdu(r).functionCode
  {
    if Admit(r).Ok? {
      var bits, words := seq(0x2_0000, _ => false), seq(0x2_0000, _ => 0);
      var m := Memory(bits, bits, words, words);
      RequestMeaning(r, m);
      assert Served(r, m);
      hide Serve, RequestPdu, Accept, Answer, Effect;
      assert Serve(m, RequestPdu(r)).1.functionCode == RequestPdu(r).functionCode;
    } else {
      hide Serve, RequestPdu;
      forall m
        ensures Serve(m, RequestPdu(r)).1.functionCode != RequestPdu(r).functionCode
      {
        RefusedByEveryDevice(r, m);
        FunctionCodeOf(r);
      }
    }
  }
}
