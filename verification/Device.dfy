/**
 A device that answers as section 6 of MODBUS Application Protocol V1.1b3 says:
 it parses the request PDU, acts on its memory and builds the reply PDU.
 */
module Device {
  import opened Bytes
  import opened Words

  datatype Memory = Memory(coils: seq<bool>, discretes: seq<bool>, holding: seq<uint16>, inputs: seq<uint16>)

  function Slice<T>(s: seq<T>, address: nat, quantity: nat): (r: seq<T>)
    requires address + quantity <= |s|
    ensures |r| == quantity
  {
    s[address..address + quantity]
  }

  function Patch<T>(s: seq<T>, address: nat, values: seq<T>): (r: seq<T>)
    requires address + |values| <= |s|
    ensures |r| == |s|
  {
    s[..address] + values + s[address + |values|..]
  }

  lemma PatchAt<T>(s: seq<T>, address: nat, values: seq<T>)
    requires address + |values| <= |s|
    ensures Slice(Patch(s, address, values), address, |values|) == values
    ensures forall i :: 0 <= i < |s| && !(address <= i < address + |values|) ==> Patch(s, address, values)[i] == s[i]
  {
  }

  function ExceptionReply(functionCode: byte, code: byte): Pdu {
    Pdu(if functionCode < 0x80 then functionCode + 0x80 else functionCode, [code])
  }

  /** (current & andMask) | (orMask & ^andMask), bit by bit. */
  function MaskBits(current: nat, andMask: nat, orMask: nat, bits: nat): (r: nat)
    ensures r < Pow2(bits)
    decreases bits
  {
    if bits == 0 then 0
    else
      2 * MaskBits(current / 2, andMask / 2, orMask / 2, bits - 1)
      + (if andMask % 2 == 1 then current % 2 else orMask % 2)
  }

  function MaskWord(current: uint16, andMask: uint16, orMask: uint16): uint16 {
    assert Pow2(16) == 0x1_0000 by {
      Pow2Eight();
      assert Pow2(12) == 0x10 * Pow2(8);
    }
    MaskBits(current, andMask, orMask, 16)
  }

  function ServeReadBits(m: Memory, bits: seq<bool>, p: Pdu): (Memory, Pdu) {
    if |p.data| != 4 then (m, ExceptionReply(p.functionCode, 3))
    else
      var address, quantity := Get16(p.data, 0), Get16(p.data, 2);
      if quantity < 1 || quantity > 2000 then (m, ExceptionReply(p.functionCode, 3))
      else if address + quantity > |bits| then (m, ExceptionReply(p.functionCode, 2))
      else (m, Pdu(p.functionCode, [CeilDiv8(quantity)] + PackBits(Slice(bits, address, quantity))))
  }

  function ServeReadWords(m: Memory, words: seq<uint16>, p: Pdu): (Memory, Pdu) {
    if |p.data| != 4 then (m, ExceptionReply(p.functionCode, 3))
    else
      var address, quantity := Get16(p.data, 0), Get16(p.data, 2);
      if quantity < 1 || quantity > 125 then (m, ExceptionReply(p.functionCode, 3))
      else if address + quantity > |words| then (m, ExceptionReply(p.functionCode, 2))
      else (m, Pdu(p.functionCode, [2 * quantity] + WordBytes(Slice(words, address, quantity))))
  }

  function ServeWriteCoil(m: Memory, p: Pdu): (Memory, Pdu) {
    if |p.data| != 4 then (m, ExceptionReply(p.functionCode, 3))
    else
      var address, value := Get16(p.data, 0), Get16(p.data, 2);
      if value != 0xFF00 && value != 0 then (m, ExceptionReply(p.functionCode, 3))
      else if address >= |m.coils| then (m, ExceptionReply(p.functionCode, 2))
      else (m.(coils := Patch(m.coils, address, [value == 0xFF00])), p)
  }

  function ServeWriteRegister(m: Memory, p: Pdu): (Memory, Pdu) {
    if |p.data| != 4 then (m, ExceptionReply(p.functionCode, 3))
    else
      var address, value := Get16(p.data, 0), Get16(p.data, 2);
      if address >= |m.holding| then (m, ExceptionReply(p.functionCode, 2))
      else (m.(holding := Patch(m.holding, address, [value])), p)
  }

  function ServeWriteCoils(m: Memory, p: Pdu): (Memory, Pdu) {
    if |p.data| < 5 then (m, ExceptionReply(p.functionCode, 3))
    else
      var address, quantity := Get16(p.data, 0), Get16(p.data, 2);
      if quantity < 1 || quantity > 1968 || p.data[4] != CeilDiv8(quantity) || |p.data| != 5 + p.data[4]
      then (m, ExceptionReply(p.functionCode, 3))
      else if address + quantity > |m.coils| then (m, ExceptionReply(p.functionCode, 2))
      else (m.(coils := Patch(m.coils, address, UnpackBits(p.data[5..], quantity))), Pdu(p.functionCode, p.data[..4]))
  }

  function ServeWriteRegisters(m: Memory, p: Pdu): (Memory, Pdu) {
    if |p.data| < 5 then (m, ExceptionReply(p.functionCode, 3))
    else
      var address, quantity := Get16(p.data, 0), Get16(p.data, 2);
      if quantity < 1 || quantity > 123 || p.data[4] != 2 * quantity || |p.data| != 5 + p.data[4]
      then (m, ExceptionReply(p.functionCode, 3))
      else if address + quantity > |m.holding| then (m, ExceptionReply(p.functionCode, 2))
      else (m.(holding := Patch(m.holding, address, BytesToWords(p.data[5..]))), Pdu(p.functionCode, p.data[..4]))
  }

  function ServeMaskWrite(m: Memory, p: Pdu): (Memory, Pdu) {
    if |p.data| != 6 then (m, ExceptionReply(p.functionCode, 3))
    else
      var address := Get16(p.data, 0);
      if address >= |m.holding| then (m, ExceptionReply(p.functionCode, 2))
      else
        var word := MaskWord(m.holding[address], Get16(p.data, 2), Get16(p.data, 4));
        (m.(holding := Patch(m.holding, address, [word])), p)
  }

  /** The write takes effect before the read. */
  function ServeReadWrite(m: Memory, p: Pdu): (Memory, Pdu) {
    if |p.data| < 9 then (m, ExceptionReply(p.functionCode, 3))
    else
      var readAddress, readQuantity := Get16(p.data, 0), Get16(p.data, 2);
      var writeAddress, writeQuantity := Get16(p.data, 4), Get16(p.data, 6);
      if readQuantity < 1 || readQuantity > 125 || writeQuantity < 1 || writeQuantity > 121
         || p.data[8] != 2 * writeQuantity || |p.data| != 9 + p.data[8]
      then (m, ExceptionReply(p.functionCode, 3))
      else if readAddress + readQuantity > |m.holding| || writeAddress + writeQuantity > |m.holding|
      then (m, ExceptionReply(p.functionCode, 2))
      else
        var holding := Patch(m.holding, writeAddress, BytesToWords(p.data[9..]));
        (m.(holding := holding),
         Pdu(p.functionCode, [2 * readQuantity] + WordBytes(Slice(holding, readAddress, readQuantity))))
  }

  function Serve(m: Memory, p: Pdu): (Memory, Pdu) {
    if p.functionCode == 1 then ServeReadBits(m, m.coils, p)
    else if p.functionCode == 2 then ServeReadBits(m, m.discretes, p)
    else if p.functionCode == 3 then ServeReadWords(m, m.holding, p)
    else if p.functionCode == 4 then ServeReadWords(m, m.inputs, p)
    else if p.functionCode == 5 then ServeWriteCoil(m, p)
    else if p.functionCode == 6 then ServeWriteRegister(m, p)
    else if p.functionCode == 15 then ServeWriteCoils(m, p)
    else if p.functionCode == 16 then ServeWriteRegisters(m, p)
    else if p.functionCode == 22 then ServeMaskWrite(m, p)
    else if p.functionCode == 23 then ServeReadWrite(m, p)
    else (m, ExceptionReply(p.functionCode, 1))
  }

  /** Every reply either repeats the function code or is an exception that left the memory alone. */
  lemma ServeShape(m: Memory, p: Pdu)
    ensures Serve(m, p).1.functionCode == p.functionCode ||
            exists code: byte :: Serve(m, p) == (m, ExceptionReply(p.functionCode, code))
    ensures 1 <= |Serve(m, p).1.data| <= 251
  {
    hide WordBytes, PackBits, BytesToWords, UnpackBits, Patch, MaskWord;
  }
}
