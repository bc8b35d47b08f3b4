/** The ASCII packager: colon, hexadecimal address, function, data and LRC, CR LF. */
module Ascii {
  import opened Bytes

  const COLON: byte := 0x3A
  const CR: byte := 0x0D
  const LF: byte := 0x0A
  const ASCII_MIN_SIZE := 3
  const ASCII_MAX_SIZE := 513

  /** The characters 0 to 9 and A to F. */
  const HEX_TABLE: seq<byte> := [
    0x30, 0x31, 0x32, 0x33, 0x34, 0x35, 0x36, 0x37, 0x38, 0x39, 0x41, 0x42, 0x43, 0x44, 0x45, 0x46
  ]

  // ----- Longitudinal redundancy check -----

  /** Addition in Go's uint8, which wraps. */
  function Add8(a: byte, b: byte): byte {
    if a as int + b < 0x100 then a + b else a + b - 0x100
  }

  /** Sum of the bytes in uint8. */
  function Sum(s: seq<byte>): byte {
    if s == [] then 0 else Add8(s[0], Sum(s[1..]))
  }

  /** uint8(-int8(sum)) */
  function Negate(sum: byte): byte {
    var signed: int := if sum < 0x80 then sum else sum as int - 0x100;
    var negated: int := if signed == -0x80 then signed else -signed;
    if negated < 0 then negated + 0x100 else negated
  }

  function Lrc(s: seq<byte>): byte {
    Negate(Sum(s))
  }

  lemma {:induction false} SumConcat(s: seq<byte>, t: seq<byte>)
    ensures Sum(s + t) == Add8(Sum(s), Sum(t))
  {
    if s == [] {
      assert s + t == t;
    } else {
      assert (s + t)[1..] == s[1..] + t;
      SumConcat(s[1..], t);
    }
  }

  /** A body followed by its LRC sums to zero, and no other last byte does. */
  lemma LrcCompletes(s: seq<byte>, b: byte)
    ensures Sum(s + [b]) == 0 <==> b == Lrc(s)
  {
    SumConcat(s, [b]);
    assert Sum([b]) == b;
  }

  lemma CompletesIff(sum: byte, b: byte)
    ensures Add8(sum, b) == 0 <==> b == Negate(sum)
  {
  }

  /** The running sum of the source. */
  class LrcCalculator {
    var sum: byte

    constructor ()
    {
      sum := 0;
    }

    method Reset()
      modifies this
      ensures sum == 0
    {
      sum := 0;
    }

    method PushByte(b: byte)
      modifies this
      ensures sum == Add8(old(sum), b)
    {
      sum := Add8(sum, b);
    }

    method PushBytes(data: seq<byte>)
      modifies this
      ensures sum == Add8(old(sum), Sum(data))
    {
      for k := 0 to |data|
        invariant sum == Add8(old(sum), Sum(data[..k]))
      {
        assert data[..k + 1] == data[..k] + [data[k]];
        SumConcat(data[..k], [data[k]]);
        assert Sum([data[k]]) == data[k];
        sum := Add8(sum, data[k]);
      }
      assert data[..|data|] == data;
    }

    /** The one byte that completes what was pushed to a sum of zero. */
    method Value() returns (r: byte)
      ensures Add8(sum, r) == 0
    {
      var signed: int := if sum < 0x80 then sum else sum as int - 0x100;
      var negated: int := if signed == -0x80 then signed else -signed;
      r := if negated < 0 then negated + 0x100 else negated;
    }
  }

  // ----- Hexadecimal -----

  function HexByte(b: byte): (r: seq<byte>)
    ensures |r| == 2
  {
    [HEX_TABLE[b / 16], HEX_TABLE[b % 16]]
  }

  function Hex(s: seq<byte>): (r: seq<byte>)
    ensures |r| == 2 * |s|
  {
    if s == [] then [] else HexByte(s[0]) + Hex(s[1..])
  }

  /** The digit a character stands for, in either case, or -1. */
  function DigitOf(c: byte): (d: int)
    ensures -1 <= d < 16
  {
    if 0x30 <= c <= 0x39 then c as int - 0x30
    else if 0x61 <= c <= 0x66 then c as int - 0x61 + 10
    else if 0x41 <= c <= 0x46 then c as int - 0x41 + 10
    else -1
  }

  /** hex.Decode of Go's encoding/hex: pairs of digits; a lone last character is an error. */
  function HexDecode(s: seq<byte>): (r: Result<seq<byte>>)
    ensures r.Ok? ==> 2 * |r.value| == |s|
    ensures r.Err? ==> r.error == BadHex
    decreases |s|
  {
    if s == [] then Ok([])
    else if |s| == 1 || DigitOf(s[0]) < 0 || DigitOf(s[1]) < 0 then Err(BadHex)
    else
      var rest := HexDecode(s[2..]);
      if rest.Err? then rest else Ok([16 * DigitOf(s[0]) + DigitOf(s[1])] + rest.value)
  }

  /** readHex: the byte in the first two characters. */
  function ReadHex(s: seq<byte>): Result<byte> {
    if |s| < 2 then Err(RuntimePanic)
    else
      var r := HexDecode(s[..2]);
      if r.Err? then Err(BadHex) else Ok(r.value[0])
  }

  function UpperChar(c: byte): byte {
    if 0x61 <= c <= 0x66 then c - 0x20 else c
  }

  function Upper(s: seq<byte>): (r: seq<byte>)
    ensures |r| == |s|
  {
    seq(|s|, i requires 0 <= i < |s| => UpperChar(s[i]))
  }

  lemma DigitOfTable(d: nat)
    requires d < 16
    ensures DigitOf(HEX_TABLE[d]) == d
    ensures HEX_TABLE[d] != LF && HEX_TABLE[d] != CR && HEX_TABLE[d] != COLON
    ensures UpperChar(HEX_TABLE[d]) == HEX_TABLE[d]
  {
  }

  lemma TableOfDigit(c: byte)
    requires DigitOf(c) >= 0
    ensures HEX_TABLE[DigitOf(c)] == UpperChar(c)
  {
  }

  lemma {:induction false} HexDecodeOfHex(s: seq<byte>)
    ensures HexDecode(Hex(s)) == Ok(s)
  {
    if s != [] {
      HexDecodeOfHex(s[1..]);
      DecodeOfHexByte(s[0], Hex(s[1..]));
      hide HEX_TABLE, DigitOf, HexByte, HexDecode;
      assert [s[0]] + s[1..] == s;
    }
  }

  lemma DecodeOfHexByte(b: byte, rest: seq<byte>)
    requires HexDecode(rest).Ok?
    ensures HexDecode(HexByte(b) + rest) == Ok([b] + HexDecode(rest).value)
  {
    HexBytePair(b);
    HexDecodeConcat(HexByte(b), rest);
    hide HexDecode, HexByte;
  }

  lemma HexBytePair(b: byte)
    ensures HexDecode(HexByte(b)) == Ok([b])
  {
    DigitOfTable(b / 16);
    DigitOfTable(b % 16);
    HexDecodePair(HEX_TABLE[b / 16], HEX_TABLE[b % 16]);
    hide HEX_TABLE, DigitOf, HexDecode;
  }

  lemma {:induction false} HexOfHexDecode(s: seq<byte>)
    requires HexDecode(s).Ok?
    ensures Hex(HexDecode(s).value) == Upper(s)
    decreases |s|
  {
    if s != [] {
      hide HEX_TABLE, DigitOf;
      TableOfDigit(s[0]);
      TableOfDigit(s[1]);
      HexOfHexDecode(s[2..]);
      var b := HexDecode(s).value[0];
      assert b / 16 == DigitOf(s[0]) && b % 16 == DigitOf(s[1]);
      assert Upper(s) == [UpperChar(s[0]), UpperChar(s[1])] + Upper(s[2..]);
    }
  }

  /** The digits in either case: 0 to 9, A to F, a to f. */
  lemma DigitIff(c: byte, n: nat)
    requires n < 16
    ensures DigitOf(c) == n <==> if n < 10 then c == 0x30 + n else c == 0x41 + n - 10 || c == 0x61 + n - 10
  {
  }

  /** A text decodes to some bytes if and only if it is their writing but for the case of its digits. */
  lemma {:induction false} HexDecodeIff(t: seq<byte>, s: seq<byte>)
    ensures HexDecode(t) == Ok(s) <==> Upper(t) == Hex(s)
  {
    if HexDecode(t) == Ok(s) {
      HexOfHexDecode(t);
    }
    if Upper(t) == Hex(s) {
      HexDecodeOfHex(s);
      UpperDecodes(t);
    }
  }

  /** Case does not matter to the decoder. */
  lemma {:induction false} UpperDecodes(t: seq<byte>)
    ensures HexDecode(Upper(t)) == HexDecode(t)
    decreases |t|
  {
    if |t| >= 2 {
      hide DigitOf;
      UpperDigit(t[0]);
      UpperDigit(t[1]);
      assert Upper(t)[2..] == Upper(t[2..]);
      UpperDecodes(t[2..]);
    }
  }

  lemma UpperDigit(c: byte)
    ensures DigitOf(UpperChar(c)) == DigitOf(c)
  {
  }

  lemma {:induction false} HexConcat(s: seq<byte>, t: seq<byte>)
    ensures Hex(s + t) == Hex(s) + Hex(t)
  {
    if s == [] {
      assert s + t == t;
    } else {
      assert (s + t)[1..] == s[1..] + t;
      HexConcat(s[1..], t);
    }
  }

  lemma {:induction false} HexDecodeConcat(s: seq<byte>, t: seq<byte>)
    requires |s| % 2 == 0
    ensures HexDecode(s + t).Ok? <==> HexDecode(s).Ok? && HexDecode(t).Ok?
    ensures HexDecode(s + t).Ok? ==> HexDecode(s + t).value == HexDecode(s).value + HexDecode(t).value
    decreases |s|
  {
    if s == [] {
      assert s + t == t;
    } else {
      hide DigitOf;
      assert (s + t)[2..] == s[2..] + t;
      HexDecodeConcat(s[2..], t);
    }
  }

  /** The characters of a frame between the colon and CR LF are digits. */
  lemma {:induction false} HexIsDigits(s: seq<byte>, i: nat)
    requires i < 2 * |s|
    ensures Hex(s)[i] != LF && Hex(s)[i] != CR && Hex(s)[i] != COLON
    decreases |s|
  {
    hide HEX_TABLE;
    DigitOfTable(s[0] / 16);
    DigitOfTable(s[0] % 16);
    if i >= 2 {
      HexIsDigits(s[1..], i - 2);
    }
  }

  // ----- The frame -----

  /** Address, function, data and LRC. */
  function Body(slave: byte, p: Pdu): seq<byte> {
    [slave] + Raw(p) + [Lrc([slave] + Raw(p))]
  }

  /** The frame of section 2.5.2 of MODBUS over Serial Line V1.02. */
  function Frame(slave: byte, p: Pdu): (f: seq<byte>)
    ensures |f| == 2 * |p.data| + 9
  {
    [COLON] + Hex(Body(slave, p)) + [CR, LF]
  }

  function Verify(request: seq<byte>, response: seq<byte>): Result<()> {
    var n := |response|;
    if n < ASCII_MIN_SIZE + 6 then Err(TooShort)
    else if n % 2 != 1 then Err(BadLength)
    else if response[0] != COLON then Err(BadStart)
    else if response[n - 2..] != [CR, LF] then Err(BadEnd)
    else
      var responseId := ReadHex(response[1..]);
      if responseId.Err? then Err(responseId.error)
      else if request == [] then Err(RuntimePanic)
      else
        var requestId := ReadHex(request[1..]);
        if requestId.Err? then Err(requestId.error)
        else if responseId.value != requestId.value then Err(BadSlave)
        else Ok(())
  }

  function Decode(adu: seq<byte>): Result<Pdu> {
    if |adu| < 1 then Err(RuntimePanic)
    else
      var address := ReadHex(adu[1..]);
      if address.Err? then Err(address.error)
      else
        var functionCode := ReadHex(adu[3..]);
        if functionCode.Err? then Err(functionCode.error)
        else if |adu| < 9 then Err(RuntimePanic)
        else
          var dataEnd := |adu| - 4;
          var data := HexDecode(adu[5..dataEnd]);
          if data.Err? then Err(BadHex)
          else
            var lrc := ReadHex(adu[dataEnd..]);
            if lrc.Err? then Err(lrc.error)
            else if lrc.value != Lrc([address.value, functionCode.value] + data.value) then Err(BadChecksum)
            else Ok(Pdu(functionCode.value, data.value))
  }

  /** writeHex: appends two digits per byte. */
  method WriteHex(buf: seq<byte>, value: seq<byte>) returns (r: seq<byte>)
    ensures r == buf + Hex(value)
  {
    r := buf;
    for k := 0 to |value|
      invariant r == buf + Hex(value[..k])
    {
      hide HEX_TABLE;
      assert value[..k + 1] == value[..k] + [value[k]];
      HexConcat(value[..k], [value[k]]);
      assert Hex([value[k]]) == HexByte(value[k]);
      var str := [HEX_TABLE[value[k] / 16], HEX_TABLE[value[k] % 16]];
      r := r + str;
    }
    assert value[..|value|] == value;
  }

  class Packager {
    var slaveId: byte

    constructor ()
      ensures slaveId == 0
    {
      slaveId := 0;
    }

    method SetSlaverId(id: byte)
      modifies this
      ensures slaveId == id
    {
      slaveId := id;
    }

    method EncodePdu(p: Pdu) returns (adu: seq<byte>)
      ensures adu == Frame(slaveId, p)
    {
      hide Hex, Sum, Negate;
      var buf := [COLON];
      buf := WriteHex(buf, [slaveId, p.functionCode]);
      buf := WriteHex(buf, p.data);
      var lrcCalculator := new LrcCalculator();
      lrcCalculator.Reset();
      lrcCalculator.PushByte(slaveId);
      lrcCalculator.PushByte(p.functionCode);
      lrcCalculator.PushBytes(p.data);
      var check := lrcCalculator.Value();
      CompletesIff(lrcCalculator.sum, check);
      ThreePushes(slaveId, p);
      buf := WriteHex(buf, [check]);
      buf := buf + [CR, LF];
      HexConcat([slaveId, p.functionCode], p.data);
      HexConcat([slaveId] + Raw(p), [check]);
      assert [slaveId, p.functionCode] + p.data == [slaveId] + Raw(p);
      adu := buf;
    }
  }

  lemma ThreePushes(slave: byte, p: Pdu)
    ensures Sum([slave] + Raw(p)) == Add8(Add8(slave, p.functionCode), Sum(p.data))
  {
    assert ([slave] + Raw(p))[1..] == Raw(p);
    assert Raw(p)[1..] == p.data;
  }

  // ----- The codec is a two-sided inverse -----

  /** How a frame-shaped string decodes, in terms of its whole hexadecimal body. */
  lemma DecodeBody(adu: seq<byte>)
    requires |adu| >= 9 && |adu| % 2 == 1
    ensures var body := HexDecode(adu[1..|adu| - 2]);
            && (Decode(adu).Ok? <==> body.Ok? && Sum(body.value) == 0)
            && (Decode(adu).Ok? ==> body.value == Body(body.value[0], Decode(adu).value))
            && (body.Ok? ==> ReadHex(adu[1..]) == Ok(body.value[0]))
    ensures Decode(adu) != Err(RuntimePanic)
  {
    var n := |adu|;
    hide HexDecode, Sum, Negate;
    var a, f, d, l := adu[1..3], adu[3..5], adu[5..n - 4], adu[n - 4..n - 2];
    assert adu[1..][..2] == a && adu[3..][..2] == f && adu[n - 4..][..2] == l;
    FourParts(adu);
    DecodeParts(a, f, d, l);
    if HexDecode(adu[1..n - 2]).Ok? {
      var s, c, data, check := HexDecode(a).value[0], HexDecode(f).value[0], HexDecode(d).value, HexDecode(l).value[0];
      assert [s, c] + data == [s] + Raw(Pdu(c, data));
      LrcCompletes([s, c] + data, check);
    }
  }

  lemma FourParts(s: seq<byte>)
    requires |s| >= 9
    ensures s[1..|s| - 2] == s[1..3] + (s[3..5] + (s[5..|s| - 4] + s[|s| - 4..|s| - 2]))
  {
    assert s[5..|s| - 2] == s[5..|s| - 4] + s[|s| - 4..|s| - 2];
    assert s[3..|s| - 2] == s[3..5] + s[5..|s| - 2];
    assert s[1..|s| - 2] == s[1..3] + s[3..|s| - 2];
  }

  lemma DecodeParts(a: seq<byte>, f: seq<byte>, d: seq<byte>, l: seq<byte>)
    requires |a| == |f| == |l| == 2 && |d| % 2 == 0
    ensures HexDecode(a + (f + (d + l))).Ok? <==>
            HexDecode(a).Ok? && HexDecode(f).Ok? && HexDecode(d).Ok? && HexDecode(l).Ok?
    ensures HexDecode(a + (f + (d + l))).Ok? ==>
            HexDecode(a + (f + (d + l))).value
            == [HexDecode(a).value[0], HexDecode(f).value[0]] + HexDecode(d).value + [HexDecode(l).value[0]]
  {
    hide HexDecode;
    HexDecodeConcat(a, f + (d + l));
    HexDecodeConcat(f, d + l);
    HexDecodeConcat(d, l);
  }

  /** Every encoded frame is accepted, against any request of the same slave, and decodes to its PDU. */
  lemma DecodeInvertsEncode(slave: byte, request: Pdu, p: Pdu)
    ensures Verify(Frame(slave, request), Frame(slave, p)) == Ok(())
    ensures Decode(Frame(slave, p)) == Ok(p)
  {
    VerifyIff(slave, request, slave, p);
    DecodesFrame(slave, p);
    hide Verify, Decode, Frame;
  }

  /** Two frames pass Verify exactly when they name the same slave. */
  lemma VerifyIff(slave: byte, request: Pdu, other: byte, reply: Pdu)
    ensures Verify(Frame(slave, request), Frame(other, reply)) == if other == slave then Ok(()) else Err(BadSlave)
  {
    hide Hex, ReadHex, Body;
    FrameId(slave, request);
    FrameId(other, reply);
  }

  lemma DecodesFrame(slave: byte, p: Pdu)
    ensures Decode(Frame(slave, p)) == Ok(p)
  {
    hide Decode, HexDecode, Sum, Hex, Lrc, ReadHex, Body, Frame;
    FrameText(slave, p);
    HexDecodeOfHex(Body(slave, p));
    DecodeBody(Frame(slave, p));
    BodySums(slave, p);
    SameBody(slave, p, Body(slave, p)[0], Decode(Frame(slave, p)).value);
  }

  lemma FrameText(slave: byte, p: Pdu)
    ensures Frame(slave, p)[1..|Frame(slave, p)| - 2] == Hex(Body(slave, p))
    ensures Body(slave, p) != [] && Body(slave, p)[0] == slave
  {
    hide Hex;
  }

  lemma FrameId(slave: byte, p: Pdu)
    ensures ReadHex(Frame(slave, p)[1..]) == Ok(slave)
  {
    hide Decode, HexDecode, Hex, ReadHex, Body, Frame;
    FrameText(slave, p);
    HexDecodeOfHex(Body(slave, p));
    DecodeBody(Frame(slave, p));
  }

  lemma BodyInjective(slave: byte, p: Pdu, q: Pdu)
    requires Body(slave, p) == Body(slave, q)
    ensures p == q
  {
    hide Lrc;
    var b := Body(slave, p);
    assert b[1] == p.functionCode && b[2..|b| - 1] == p.data;
    assert b[1] == q.functionCode && b[2..|b| - 1] == q.data;
  }

  /** Decode never runs out of bounds on a verified reply, and re-encoding an accepted one gives it back. */
  lemma EncodeInvertsDecode(request: seq<byte>, adu: seq<byte>)
    requires Verify(request, adu).Ok?
    ensures Decode(adu) != Err(RuntimePanic)
    ensures Decode(adu).Ok? ==> ReadHex(adu[1..]).Ok? && Frame(ReadHex(adu[1..]).value, Decode(adu).value) == Upper(adu)
  {
    var n := |adu|;
    DecodeBody(adu);
    var text := adu[1..n - 2];
    assert adu == [COLON] + text + [CR, LF];
    hide Decode, HexDecode, Hex, Lrc, ReadHex;
    if Decode(adu).Ok? {
      HexOfHexDecode(text);
      UpperConcat(text);
    }
  }

  lemma UpperConcat(text: seq<byte>)
    ensures Upper([COLON] + text + [CR, LF]) == [COLON] + Upper(text) + [CR, LF]
  {
  }

  /** Changing any one byte of an accepted body makes the LRC fail. */
  lemma OneByteDetected(body: seq<byte>, i: nat, b: byte)
    requires i < |body| && Sum(body) == 0 && b != body[i]
    ensures Sum(body[i := b]) != 0
  {
    hide Sum;
    assert body == body[..i] + ([body[i]] + body[i + 1..]);
    assert body[i := b] == body[..i] + ([b] + body[i + 1..]);
    SumConcat(body[..i], [body[i]] + body[i + 1..]);
    SumConcat([body[i]], body[i + 1..]);
    SumConcat(body[..i], [b] + body[i + 1..]);
    SumConcat([b], body[i + 1..]);
    SumOne(b);
    SumOne(body[i]);
  }

  /** The byte with one of its two digits replaced. */
  function WithDigit(b: byte, second: bool, d: nat): (r: byte)
    requires d < 16
  {
    if second then b / 16 * 16 + d else 16 * d + b % 16
  }

  lemma WithDigitSame(b: byte, second: bool, d: nat)
    requires d < 16
    ensures WithDigit(b, second, d) == b <==> d == if second then b % 16 else b / 16
  {
  }

  lemma HexOne(b: byte)
    ensures Hex([b]) == HexByte(b)
  {
    hide HexByte;
  }

  lemma HexAround(before: seq<byte>, b: byte, after: seq<byte>)
    ensures Hex(before + ([b] + after)) == Hex(before) + (HexByte(b) + Hex(after))
  {
    hide Hex, HexByte;
    HexConcat(before, [b] + after);
    HexConcat([b], after);
    HexOne(b);
  }

  lemma ChangeMiddle(x: seq<byte>, y: seq<byte>, z: seq<byte>, j: nat, c: byte, s: seq<byte>, at: nat)
    requires j < |y| && s == x + (y + z) && at == |x| + j
    ensures at < |s| && s[at] == y[j]
    ensures s[at := c] == x + (y[j := c] + z)
  {
    assert (x + (y + z))[|x| + j := c] == x + (y[j := c] + z);
  }

  lemma HexDecodeThree(x: seq<byte>, y: seq<byte>, z: seq<byte>)
    requires |x| % 2 == 0 && |y| % 2 == 0 && HexDecode(x).Ok? && HexDecode(z).Ok?
    ensures HexDecode(x + (y + z)) == if HexDecode(y).Ok?
                                      then Ok(HexDecode(x).value + (HexDecode(y).value + HexDecode(z).value))
                                      else Err(BadHex)
  {
    hide HexDecode;
    HexDecodeConcat(x, y + z);
    HexDecodeConcat(y, z);
  }

  lemma HexDigitAt(before: seq<byte>, b: byte, after: seq<byte>, j: nat, s: seq<byte>)
    requires j < 2 && s == Hex(before) + (HexByte(b) + Hex(after))
    ensures 2 * |before| + j < |s|
    ensures DigitOf(s[2 * |before| + j]) == (if j == 1 then b % 16 else b / 16)
  {
    hide Hex, HexByte, DigitOf;
    ChangeMiddle(Hex(before), HexByte(b), Hex(after), j, 0, s, 2 * |before| + j);
    ChangedHexByte(b, j, 0);
  }

  /** A text with digit j of one byte changed: a bad digit. */
  lemma HexDecodeBad(before: seq<byte>, b: byte, after: seq<byte>, j: nat, c: byte, s: seq<byte>)
    requires j < 2 && s == Hex(before) + (HexByte(b)[j := c] + Hex(after)) && DigitOf(c) < 0
    ensures HexDecode(s).Err?
  {
    hide Hex, HexByte, HexDecode, DigitOf;
    ChangedHexByte(b, j, c);
    HexDecodeOfHex(before);
    HexDecodeOfHex(after);
    HexDecodeThree(Hex(before), HexByte(b)[j := c], Hex(after));
  }

  /** Or the same bytes but for that digit. */
  lemma HexDecodeGood(before: seq<byte>, b: byte, after: seq<byte>, j: nat, c: byte, s: seq<byte>)
    requires j < 2 && s == Hex(before) + (HexByte(b)[j := c] + Hex(after)) && DigitOf(c) >= 0
    ensures HexDecode(s) == Ok(before + ([WithDigit(b, j == 1, DigitOf(c))] + after))
  {
    hide Hex, HexByte, HexDecode, DigitOf, WithDigit;
    ChangedHexByte(b, j, c);
    HexDecodeOfHex(before);
    HexDecodeOfHex(after);
    HexDecodeThree(Hex(before), HexByte(b)[j := c], Hex(after));
  }

  lemma ChangedHexByte(b: byte, j: nat, c: byte)
    requires j < 2
    ensures DigitOf(HexByte(b)[j]) == if j == 1 then b % 16 else b / 16
    ensures DigitOf(c) < 0 ==> HexDecode(HexByte(b)[j := c]).Err?
    ensures DigitOf(c) >= 0 ==> HexDecode(HexByte(b)[j := c]) == Ok([WithDigit(b, j == 1, DigitOf(c))])
  {
    var s := HexByte(b)[j := c];
    DigitOfTable(b / 16);
    DigitOfTable(b % 16);
    hide HEX_TABLE, DigitOf;
    HexDecodePair(s[0], s[1]);
    assert s == [s[0], s[1]] && s[j] == c && s[1 - j] == HexByte(b)[1 - j];
    hide HexDecode;
  }

  lemma HexDecodePair(a: byte, b: byte)
    ensures DigitOf(a) < 0 || DigitOf(b) < 0 ==> HexDecode([a, b]).Err?
    ensures DigitOf(a) >= 0 && DigitOf(b) >= 0 ==> HexDecode([a, b]) == Ok([16 * DigitOf(a) + DigitOf(b)])
  {
    hide DigitOf;
    assert [a, b][2..] == [] && HexDecode([]) == Ok([]);
    if DigitOf(a) >= 0 && DigitOf(b) >= 0 {
      var x: byte := 16 * DigitOf(a) + DigitOf(b);
      assert [x] + [] == [x];
    }
  }

  /**
   A frame with one character between colon and CR LF replaced decodes if and only if it is the same character, or the
   lower case of a letter; it then gives the same PDU.
   */
  lemma ChangedDigitAcceptedIff(slave: byte, p: Pdu, k: nat, c: byte)
    requires 1 <= k < |Frame(slave, p)| - 2
    ensures var f := Frame(slave, p);
            && (Decode(f[k := c]).Ok? <==> c == f[k] || (0x41 <= f[k] <= 0x46 && c == f[k] + 0x20))
            && (Decode(f[k := c]).Ok? ==> Decode(f[k := c]) == Ok(p))
  {
    hide Decode, HexDecode, Sum, Hex, HexByte, Lrc, ReadHex, DigitOf, WithDigit, Body, Frame;
    var b := Body(slave, p);
    var i, j := (k - 1) / 2, (k - 1) % 2;
    FrameChanged(slave, p, k, c);
    Around(b, i);
    HexAround(b[..i], b[i], b[i + 1..]);
    var text := Hex(b)[2 * i + j := c];
    ChangeMiddle(Hex(b[..i]), HexByte(b[i]), Hex(b[i + 1..]), j, c, Hex(b), 2 * i + j);
    HexDigitAt(b[..i], b[i], b[i + 1..], j, Hex(b));
    DecodeBody(Frame(slave, p)[k := c]);
    if DigitOf(c) < 0 {
      HexDecodeBad(b[..i], b[i], b[i + 1..], j, c, text);
    } else {
      HexDecodeGood(b[..i], b[i], b[i + 1..], j, c, text);
      BodyChanged(slave, p, i, WithDigit(b[i], j == 1, DigitOf(c)), Decode(Frame(slave, p)[k := c]));
      WithDigitSame(b[i], j == 1, DigitOf(c));
    }
    FrameDigit(slave, p, k, c);
  }

  lemma FrameDigit(slave: byte, p: Pdu, k: nat, c: byte)
    requires 1 <= k < |Frame(slave, p)| - 2
    ensures var f := Frame(slave, p);
            DigitOf(c) == DigitOf(f[k]) <==> c == f[k] || (0x41 <= f[k] <= 0x46 && c == f[k] + 0x20)
  {
    HexIsTable(Body(slave, p), k - 1);
    hide Hex, Body, HEX_TABLE;
    assert Frame(slave, p)[k] == Hex(Body(slave, p))[k - 1];
  }

  lemma {:induction false} HexIsTable(s: seq<byte>, i: nat)
    requires i < 2 * |s|
    ensures 0x30 <= Hex(s)[i] <= 0x39 || 0x41 <= Hex(s)[i] <= 0x46
    decreases |s|
  {
    if i >= 2 {
      HexIsTable(s[1..], i - 2);
    }
  }

  /** What a changed byte of the body leads to, whichever way the rest is decoded. */
  lemma BodyChanged(slave: byte, p: Pdu, i: nat, x: byte, decoded: Result<Pdu>)
    requires i < |Body(slave, p)|
    requires var body := Body(slave, p)[..i] + ([x] + Body(slave, p)[i + 1..]);
             (decoded.Ok? <==> Sum(body) == 0) && (decoded.Ok? ==> body == Body(body[0], decoded.value))
    ensures decoded.Ok? <==> x == Body(slave, p)[i]
    ensures decoded.Ok? ==> decoded == Ok(p)
  {
    hide Sum, Body, Lrc;
    var b := Body(slave, p);
    assert b[i := x] == b[..i] + ([x] + b[i + 1..]);
    BodySums(slave, p);
    if x == b[i] {
      assert b[i := x] == b;
      SameBody(slave, p, b[0], decoded.value);
    } else {
      OneByteDetected(b, i, x);
    }
  }

  lemma Around(s: seq<byte>, i: nat)
    requires i < |s|
    ensures s == s[..i] + ([s[i]] + s[i + 1..])
  {
  }

  lemma FrameChanged(slave: byte, p: Pdu, k: nat, c: byte)
    requires 1 <= k < |Frame(slave, p)| - 2
    ensures var f, b := Frame(slave, p), Body(slave, p);
            var at := 2 * ((k - 1) / 2) + (k - 1) % 2;
            && (k - 1) / 2 < |b| && at < |Hex(b)|
            && f[k] == Hex(b)[at] && f[k := c][1..|f| - 2] == Hex(b)[at := c]
  {
    hide Hex, Body;
  }

  lemma BodySums(slave: byte, p: Pdu)
    ensures Sum(Body(slave, p)) == 0
  {
    LrcCompletes([slave] + Raw(p), Lrc([slave] + Raw(p)));
  }

  lemma SameBody(slave: byte, p: Pdu, other: byte, q: Pdu)
    requires Body(slave, p) == Body(other, q)
    ensures p == q
  {
    assert Body(slave, p)[0] == slave && Body(other, q)[0] == other;
    BodyInjective(slave, p, q);
  }

  lemma SumOne(b: byte)
    ensures Sum([b]) == b
  {
  }

  /** A frame in characters: ":0107F8", CR LF reads the exception status of slave 1. */
  lemma KnownFrame()
    ensures Frame(1, Pdu(7, [])) == [0x3A, 0x30, 0x31, 0x30, 0x37, 0x46, 0x38, 0x0D, 0x0A]
  {
    KnownBody();
    hide Body;
    HexStep(1, [7, 0xF8]);
    HexStep(7, [0xF8]);
    HexStep(0xF8, []);
    assert [1 as byte] + [7, 0xF8] == [1, 7, 0xF8] && [7 as byte] + [0xF8] == [7, 0xF8];
    assert [0xF8 as byte] + [] == [0xF8];
    assert Hex([]) == [];
    hide Hex;
  }

  lemma KnownBody()
    ensures Body(1, Pdu(7, [])) == [1, 7, 0xF8]
  {
    assert [1 as byte] + Raw(Pdu(7, [])) == [1, 7];
    assert Sum([7]) == 7 && [1 as byte, 7][1..] == [7];
  }

  lemma HexStep(b: byte, rest: seq<byte>)
    ensures Hex([b] + rest) == HexByte(b) + Hex(rest)
  {
    assert ([b] + rest)[1..] == rest;
  }

  // ----- Where a frame ends -----

  /** No proper prefix of a frame ends in CR LF, so the end of frame is seen only at the end. */
  lemma OnlyTheEndLooksLikeTheEnd(slave: byte, p: Pdu, k: nat)
    requires ASCII_MIN_SIZE < k <= |Frame(slave, p)|
    ensures Frame(slave, p)[k - 2..k] == [CR, LF] <==> k == |Frame(slave, p)|
  {
    var f := Frame(slave, p);
    var b := Body(slave, p);
    if k < |f| {
      if k - 2 < |f| - 2 {
        HexIsDigits(b, k - 3);
        assert f[k - 2] == Hex(b)[k - 3];
        assert f[k - 2..k][0] == f[k - 2];
      }
    }
  }

  /** The longest frame with 252 data bytes fills the read buffer exactly. */
  lemma LongestFrame(slave: byte, p: Pdu)
    ensures |Frame(slave, p)| <= ASCII_MAX_SIZE <==> |p.data| <= 252
  {
  }
}
