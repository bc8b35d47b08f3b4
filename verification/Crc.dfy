/** The CRC-16 of MODBUS over Serial Line V1.02, section 6.2.2, in both forms the library has. */
module Crc {
  import opened Bytes
  import opened ShiftRegister

  // ----- Bytes as bit vectors -----

  function Push(t: bv8, b: bool): bv8 {
    (t << 1) | (if b then 1 else 0)
  }

  predicate Lowest(x: bv8) {
    x & 1 == 1
  }

  function Rest(x: bv8): bv8 {
    x >> 1
  }

  function ToBits(n: nat, k: nat): bv8
    decreases k
  {
    if k == 0 then 0 else Push(ToBits(n / 2, k - 1), n % 2 == 1)
  }

  function ToNat(x: bv8, k: nat): nat
    decreases k
  {
    if k == 0 then 0 else (if Lowest(x) then 1 else 0) + 2 * ToNat(Rest(x), k - 1)
  }

  /** x has no bits from position k on. */
  predicate Fits(x: bv8, k: nat)
    decreases k
  {
    if k == 0 then x == 0 else Fits(Rest(x), k - 1)
  }

  lemma FitsSeven(x: bv8)
    requires Fits(x, 7)
    ensures x < 0x80
  {
    var y := Rest(Rest(Rest(x)));
    assert Fits(y, 4);
    assert Fits(Rest(Rest(Rest(Rest(y)))), 0);
  }

  lemma {:induction false} FitsMore(x: bv8, k: nat)
    requires Fits(x, k)
    ensures Fits(x, k + 1)
    decreases k
  {
    if k == 0 {
      assert Fits(Rest(x), 0);
    } else {
      hide Rest;
      FitsMore(Rest(x), k - 1);
    }
  }

  lemma {:induction false} FitsUpTo(x: bv8, k: nat, m: nat)
    requires Fits(x, k) && k <= m
    ensures Fits(x, m)
    decreases m - k
  {
    hide Rest;
    if k < m {
      FitsMore(x, k);
      FitsUpTo(x, k + 1, m);
    }
  }

  lemma AllFitEight(x: bv8)
    ensures Fits(x, 8)
  {
    var y := Rest(Rest(Rest(Rest(x))));
    assert Rest(Rest(Rest(Rest(y)))) == 0;
    hide Rest;
    assert Fits(Rest(Rest(Rest(Rest(y)))), 0);
    assert Fits(Rest(Rest(y)), 2);
    assert Fits(y, 4);
    assert Fits(Rest(Rest(x)), 6);
  }

  lemma PushParts(t: bv8, b: bool)
    requires t < 0x80
    ensures Rest(Push(t, b)) == t && Lowest(Push(t, b)) == b
  {
  }

  lemma PushRest(x: bv8)
    ensures Push(Rest(x), Lowest(x)) == x
  {
  }

  lemma {:induction false} ToBitsFits(n: nat, k: nat)
    requires k <= 8
    ensures Fits(ToBits(n, k), k)
    decreases k
  {
    if k > 0 {
      hide Push, Rest;
      var t := ToBits(n / 2, k - 1);
      ToBitsFits(n / 2, k - 1);
      FitsUpTo(t, k - 1, 7);
      FitsSeven(t);
      PushParts(t, n % 2 == 1);
    }
  }

  lemma {:induction false} ToNatOfToBits(n: nat, k: nat)
    requires k <= 8 && n < Pow2(k)
    ensures ToNat(ToBits(n, k), k) == n
    decreases k
  {
    if k > 0 {
      hide Push, Rest, Lowest;
      var t := ToBits(n / 2, k - 1);
      ToNatOfToBits(n / 2, k - 1);
      ToBitsFits(n / 2, k - 1);
      FitsUpTo(t, k - 1, 7);
      FitsSeven(t);
      PushParts(t, n % 2 == 1);
    }
  }

  lemma {:induction false} ToBitsOfToNat(x: bv8, k: nat)
    requires Fits(x, k)
    ensures ToBits(ToNat(x, k), k) == x
    ensures ToNat(x, k) < Pow2(k)
    decreases k
  {
    hide Push, Rest, Lowest;
    if k > 0 {
      ToBitsOfToNat(Rest(x), k - 1);
      PushRest(x);
    }
  }

  /** The bits of a byte. */
  function Bits(b: byte): bv8 {
    ToBits(b, 8)
  }

  /** The byte with the given bits. */
  function Value(x: bv8): byte {
    AllFitEight(x);
    ToBitsOfToNat(x, 8);
    Pow2Eight();
    ToNat(x, 8)
  }

  lemma ValueOfBits(b: byte)
    ensures Value(Bits(b)) == b
  {
    Pow2Eight();
    ToNatOfToBits(b, 8);
    hide ToNat, ToBits;
  }

  lemma BitsOfValue(x: bv8)
    ensures Bits(Value(x)) == x
  {
    AllFitEight(x);
    ToBitsOfToNat(x, 8);
    hide ToNat, ToBits, Fits;
  }

  // ----- The checksum, one byte at a time -----

  function Widen(x: bv8): bv16 {
    x as bv16
  }

  function Wide(b: byte): bv16 {
    Widen(Bits(b))
  }

  function Feed(c: bv16, b: byte): bv16 {
    Shift8(Xor(c, Wide(b)))
  }

  function Fold(c: bv16, s: seq<byte>): bv16
    decreases |s|
  {
    if s == [] then c else Fold(Feed(c, s[0]), s[1..])
  }

  /** The checksum of a message. */
  function Checksum(s: seq<byte>): bv16 {
    Fold(0xFFFF, s)
  }

  lemma FoldConcat(c: bv16, s: seq<byte>, t: seq<byte>)
    ensures Fold(c, s + t) == Fold(Fold(c, s), t)
    decreases |s|
  {
    hide Feed;
    if s == [] {
      assert s + t == t;
    } else {
      assert (s + t)[1..] == s[1..] + t;
      FoldConcat(Feed(c, s[0]), s[1..], t);
    }
  }

  lemma FoldSnoc(c: bv16, s: seq<byte>, b: byte)
    ensures Fold(c, s + [b]) == Feed(Fold(c, s), b)
  {
    hide Feed;
    FoldConcat(c, s, [b]);
    assert [b][1..] == [];
  }

  // ----- The bitwise implementation -----

  function Swap(c: bv16): bv16 {
    ((c & 0xFF) << 8) | ((c >> 8) & 0xFF)
  }

  function ShiftTimes(c: bv16, n: nat): bv16 {
    if n == 0 then c else Shift(ShiftTimes(c, n - 1))
  }

  lemma ShiftTimes8(c: bv16)
    ensures ShiftTimes(c, 8) == Shift8(c)
  {
    hide Shift;
    assert ShiftTimes(c, 1) == Shift(c);
    assert ShiftTimes(c, 3) == Shift(Shift(ShiftTimes(c, 1)));
    assert ShiftTimes(c, 5) == Shift(Shift(ShiftTimes(c, 3)));
    assert ShiftTimes(c, 7) == Shift(Shift(ShiftTimes(c, 5)));
  }

  /** The eight inner iterations of CRC16 on one byte. */
  method ShiftByte(start: bv16) returns (crc: bv16)
    ensures crc == Shift8(start)
  {
    crc := start;
    for i := 0 to 8
      invariant crc == ShiftTimes(start, i)
    {
      if crc & 0x0001 != 0 {
        crc := crc >> 1;
        crc := crc ^ 0xA001;
      } else {
        crc := crc >> 1;
      }
    }
    ShiftTimes8(start);
  }

  /** CRC16: shift loops over the message, result byte-swapped. */
  method CRC16(data: seq<byte>) returns (r: bv16)
    ensures r == Swap(Checksum(data))
  {
    hide Shift8, Wide;
    var crc: bv16 := 0xFFFF;
    for k := 0 to |data|
      invariant crc == Checksum(data[..k])
    {
      FoldSnoc(0xFFFF, data[..k], data[k]);
      assert data[..k + 1] == data[..k] + [data[k]];
      crc := ShiftByte(Xor(crc, Wide(data[k])));
    }
    assert data[..|data|] == data;
    r := ((crc & 0xFF) << 8) | ((crc >> 8) & 0xFF);
  }

  // ----- The table-driven implementation -----

  const CRC_HIGH_BYTES: seq<seq<bv8>> := [
    [0x00, 0xC1, 0x81, 0x40, 0x01, 0xC0, 0x80, 0x41, 0x01, 0xC0, 0x80, 0x41, 0x00, 0xC1, 0x81, 0x40],
    [0x01, 0xC0, 0x80, 0x41, 0x00, 0xC1, 0x81, 0x40, 0x00, 0xC1, 0x81, 0x40, 0x01, 0xC0, 0x80, 0x41],
    [0x01, 0xC0, 0x80, 0x41, 0x00, 0xC1, 0x81, 0x40, 0x00, 0xC1, 0x81, 0x40, 0x01, 0xC0, 0x80, 0x41],
    [0x00, 0xC1, 0x81, 0x40, 0x01, 0xC0, 0x80, 0x41, 0x01, 0xC0, 0x80, 0x41, 0x00, 0xC1, 0x81, 0x40],
    [0x01, 0xC0, 0x80, 0x41, 0x00, 0xC1, 0x81, 0x40, 0x00, 0xC1, 0x81, 0x40, 0x01, 0xC0, 0x80, 0x41],
    [0x00, 0xC1, 0x81, 0x40, 0x01, 0xC0, 0x80, 0x41, 0x01, 0xC0, 0x80, 0x41, 0x00, 0xC1, 0x81, 0x40],
    [0x00, 0xC1, 0x81, 0x40, 0x01, 0xC0, 0x80, 0x41, 0x01, 0xC0, 0x80, 0x41, 0x00, 0xC1, 0x81, 0x40],
    [0x01, 0xC0, 0x80, 0x41, 0x00, 0xC1, 0x81, 0x40, 0x00, 0xC1, 0x81, 0x40, 0x01, 0xC0, 0x80, 0x41],
    [0x01, 0xC0, 0x80, 0x41, 0x00, 0xC1, 0x81, 0x40, 0x00, 0xC1, 0x81, 0x40, 0x01, 0xC0, 0x80, 0x41],
    [0x00, 0xC1, 0x81, 0x40, 0x01, 0xC0, 0x80, 0x41, 0x01, 0xC0, 0x80, 0x41, 0x00, 0xC1, 0x81, 0x40],
    [0x00, 0xC1, 0x81, 0x40, 0x01, 0xC0, 0x80, 0x41, 0x01, 0xC0, 0x80, 0x41, 0x00, 0xC1, 0x81, 0x40],
    [0x01, 0xC0, 0x80, 0x41, 0x00, 0xC1, 0x81, 0x40, 0x00, 0xC1, 0x81, 0x40, 0x01, 0xC0, 0x80, 0x41],
    [0x00, 0xC1, 0x81, 0x40, 0x01, 0xC0, 0x80, 0x41, 0x01, 0xC0, 0x80, 0x41, 0x00, 0xC1, 0x81, 0x40],
    [0x01, 0xC0, 0x80, 0x41, 0x00, 0xC1, 0x81, 0x40, 0x00, 0xC1, 0x81, 0x40, 0x01, 0xC0, 0x80, 0x41],
    [0x01, 0xC0, 0x80, 0x41, 0x00, 0xC1, 0x81, 0x40, 0x00, 0xC1, 0x81, 0x40, 0x01, 0xC0, 0x80, 0x41],
    [0x00, 0xC1, 0x81, 0x40, 0x01, 0xC0, 0x80, 0x41, 0x01, 0xC0, 0x80, 0x41, 0x00, 0xC1, 0x81, 0x40]
  ]

  const CRC_LOW_BYTES: seq<seq<bv8>> := [
    [0x00, 0xC0, 0xC1, 0x01, 0xC3, 0x03, 0x02, 0xC2, 0xC6, 0x06, 0x07, 0xC7, 0x05, 0xC5, 0xC4, 0x04],
    [0xCC, 0x0C, 0x0D, 0xCD, 0x0F, 0xCF, 0xCE, 0x0E, 0x0A, 0xCA, 0xCB, 0x0B, 0xC9, 0x09, 0x08, 0xC8],
    [0xD8, 0x18, 0x19, 0xD9, 0x1B, 0xDB, 0xDA, 0x1A, 0x1E, 0xDE, 0xDF, 0x1F, 0xDD, 0x1D, 0x1C, 0xDC],
    [0x14, 0xD4, 0xD5, 0x15, 0xD7, 0x17, 0x16, 0xD6, 0xD2, 0x12, 0x13, 0xD3, 0x11, 0xD1, 0xD0, 0x10],
    [0xF0, 0x30, 0x31, 0xF1, 0x33, 0xF3, 0xF2, 0x32, 0x36, 0xF6, 0xF7, 0x37, 0xF5, 0x35, 0x34, 0xF4],
    [0x3C, 0xFC, 0xFD, 0x3D, 0xFF, 0x3F, 0x3E, 0xFE, 0xFA, 0x3A, 0x3B, 0xFB, 0x39, 0xF9, 0xF8, 0x38],
    [0x28, 0xE8, 0xE9, 0x29, 0xEB, 0x2B, 0x2A, 0xEA, 0xEE, 0x2E, 0x2F, 0xEF, 0x2D, 0xED, 0xEC, 0x2C],
    [0xE4, 0x24, 0x25, 0xE5, 0x27, 0xE7, 0xE6, 0x26, 0x22, 0xE2, 0xE3, 0x23, 0xE1, 0x21, 0x20, 0xE0],
    [0xA0, 0x60, 0x61, 0xA1, 0x63, 0xA3, 0xA2, 0x62, 0x66, 0xA6, 0xA7, 0x67, 0xA5, 0x65, 0x64, 0xA4],
    [0x6C, 0xAC, 0xAD, 0x6D, 0xAF, 0x6F, 0x6E, 0xAE, 0xAA, 0x6A, 0x6B, 0xAB, 0x69, 0xA9, 0xA8, 0x68],
    [0x78, 0xB8, 0xB9, 0x79, 0xBB, 0x7B, 0x7A, 0xBA, 0xBE, 0x7E, 0x7F, 0xBF, 0x7D, 0xBD, 0xBC, 0x7C],
    [0xB4, 0x74, 0x75, 0xB5, 0x77, 0xB7, 0xB6, 0x76, 0x72, 0xB2, 0xB3, 0x73, 0xB1, 0x71, 0x70, 0xB0],
    [0x50, 0x90, 0x91, 0x51, 0x93, 0x53, 0x52, 0x92, 0x96, 0x56, 0x57, 0x97, 0x55, 0x95, 0x94, 0x54],
    [0x9C, 0x5C, 0x5D, 0x9D, 0x5F, 0x9F, 0x9E, 0x5E, 0x5A, 0x9A, 0x9B, 0x5B, 0x99, 0x59, 0x58, 0x98],
    [0x88, 0x48, 0x49, 0x89, 0x4B, 0x8B, 0x8A, 0x4A, 0x4E, 0x8E, 0x8F, 0x4F, 0x8D, 0x4D, 0x4C, 0x8C],
    [0x44, 0x84, 0x85, 0x45, 0x87, 0x47, 0x46, 0x86, 0x82, 0x42, 0x43, 0x83, 0x41, 0x81, 0x80, 0x40]
  ]

  lemma TableShape()
    ensures |CRC_HIGH_BYTES| == 16 == |CRC_LOW_BYTES|
    ensures forall r :: 0 <= r < 16 ==> |CRC_HIGH_BYTES[r]| == 16 == |CRC_LOW_BYTES[r]|
  {
  }

  function HighByte(i: bv8): bv8 {
    TableShape();
    assert i >> 4 < 16 && i & 0xF < 16;
    CRC_HIGH_BYTES[(i >> 4) as int][(i & 0xF) as int]
  }

  function LowByte(i: bv8): bv8 {
    TableShape();
    assert i >> 4 < 16 && i & 0xF < 16;
    CRC_LOW_BYTES[(i >> 4) as int][(i & 0xF) as int]
  }

  /** The table entry for i is eight shift steps from i. */
  ghost predicate EntryOk(i: bv8) {
    Join(LowByte(i), HighByte(i)) == Shift8(i as bv16)
  }

  lemma Quarter0(i: bv8)
    requires i >> 6 == 0
    ensures EntryOk(i)
  {
    TableShape();
    assert 0 <= (i >> 4) < 4 && (i & 0xF) < 16;
  }

  lemma Quarter1(i: bv8)
    requires i >> 6 == 1
    ensures EntryOk(i)
  {
    TableShape();
    assert 4 <= (i >> 4) < 8 && (i & 0xF) < 16;
  }

  lemma Quarter2(i: bv8)
    requires i >> 6 == 2
    ensures EntryOk(i)
  {
    TableShape();
    assert 8 <= (i >> 4) < 12 && (i & 0xF) < 16;
  }

  lemma Quarter3(i: bv8)
    requires i >> 6 == 3
    ensures EntryOk(i)
  {
    TableShape();
    assert 12 <= (i >> 4) < 16 && (i & 0xF) < 16;
  }

  lemma TableEntry(i: bv8)
    ensures EntryOk(i)
  {
    hide EntryOk;
    if i >> 6 == 0 {
      Quarter0(i);
    } else if i >> 6 == 1 {
      Quarter1(i);
    } else if i >> 6 == 2 {
      Quarter2(i);
    } else {
      Quarter3(i);
    }
  }

  lemma EntryIsEightSteps(i: bv8)
    ensures Join(LowByte(i), HighByte(i)) == Shift8(Widen(i))
  {
    hide Join, LowByte, HighByte, Shift8;
    TableEntry(i);
  }

  function Xor8(x: bv8, y: bv8): bv8 {
    x ^ y
  }

  /** One table step equals eight shift steps on the joined state. */
  lemma TableStep(high: bv8, low: bv8, b: byte)
    ensures var idx := Xor8(low, Bits(b));
            Join(LowByte(idx), Xor8(high, HighByte(idx))) == Feed(Join(high, low), b)
  {
    hide LowByte, HighByte, Shift8, Xor, Bits, Join;
    var idx := Xor8(low, Bits(b));
    IndexSplit(high, low, Bits(b));
    hide Xor8, Widen;
    EntryIsEightSteps(idx);
    RegisterStep(high, idx, LowByte(idx), HighByte(idx));
  }

  lemma RegisterStep(high: bv8, idx: bv8, entryLow: bv8, entryHigh: bv8)
    requires Join(entryLow, entryHigh) == Shift8(Widen(idx))
    ensures Join(entryLow, Xor8(high, entryHigh)) == Shift8(Xor(Widen(idx), Join(high, 0)))
  {
    hide Shift8, Xor, Join, Widen, Xor8;
    Shift8Upper(Widen(idx), high);
    JoinXor(entryLow, entryHigh, high);
  }

  lemma IndexSplit(high: bv8, low: bv8, b: bv8)
    ensures Xor(Join(high, low), Widen(b)) == Xor(Widen(Xor8(low, b)), Join(high, 0))
  {
  }

  lemma JoinXor(high: bv8, low: bv8, d: bv8)
    ensures Join(high, Xor8(d, low)) == Xor(Join(high, low), Join(0, d))
  {
  }

  /** The running checksum: two bytes updated in place. */
  class Calculator {
    var high: bv8
    var low: bv8

    ghost function State(): bv16
      reads this
    {
      Join(high, low)
    }

    constructor ()
    {
      high, low := 0, 0;
    }

    method Reset()
      modifies this
      ensures State() == 0xFFFF
    {
      high := 0xFF;
      low := 0xFF;
    }

    method PushBytes(bs: seq<byte>)
      modifies this
      ensures State() == Fold(old(State()), bs)
    {
      hide LowByte, HighByte, Bits, Feed;
      for k := 0 to |bs|
        invariant State() == Fold(old(State()), bs[..k])
      {
        FoldSnoc(old(State()), bs[..k], bs[k]);
        assert bs[..k + 1] == bs[..k] + [bs[k]];
        TableStep(high, low, bs[k]);
        var idx := Xor8(low, Bits(bs[k]));
        low := Xor8(high, HighByte(idx));
        high := LowByte(idx);
      }
      assert bs[..|bs|] == bs;
    }

    method Value() returns (r: bv16)
      ensures r == State()
    {
      r := ((high as bv16) << 8) | (low as bv16);
    }
  }

  // ----- The two bytes a frame carries -----

  function High(c: bv16): byte {
    Value(((c >> 8) & 0xFF) as bv8)
  }

  function Low(c: bv16): byte {
    Value((c & 0xFF) as bv8)
  }

  /** A frame ends in the checksum of its body, low byte first. */
  function Tail(body: seq<byte>): (r: seq<byte>)
    ensures |r| == 2
  {
    [Low(Checksum(body)), High(Checksum(body))]
  }

  function Sealed(body: seq<byte>): (r: seq<byte>)
    ensures |r| == |body| + 2
  {
    body + Tail(body)
  }

  predicate IsSealed(frame: seq<byte>) {
    |frame| >= 2 && frame == Sealed(frame[..|frame| - 2])
  }

  lemma BitsInjective(a: byte, b: byte)
    requires Bits(a) == Bits(b)
    ensures a == b
  {
    hide Bits;
    ValueOfBits(a);
    ValueOfBits(b);
  }

  lemma JoinParts(high: bv8, low: bv8)
    ensures (Join(high, low) & 0xFF) as bv8 == low
    ensures ((Join(high, low) >> 8) & 0xFF) as bv8 == high
  {
  }

  lemma PartsJoin(c: bv16)
    ensures Join(((c >> 8) & 0xFF) as bv8, (c & 0xFF) as bv8) == c
    ensures Join((c & 0xFF) as bv8, ((c >> 8) & 0xFF) as bv8) == Swap(c)
  {
  }

  lemma LowHighOfJoin(high: byte, low: byte)
    ensures Low(Join(Bits(high), Bits(low))) == low
    ensures High(Join(Bits(high), Bits(low))) == high
  {
    JoinParts(Bits(high), Bits(low));
    ValueOfBits(high);
    ValueOfBits(low);
    hide Bits, Join, Value;
  }

  lemma JoinOfLowHigh(c: bv16)
    ensures Join(Bits(High(c)), Bits(Low(c))) == c
    ensures Join(Bits(Low(c)), Bits(High(c))) == Swap(c)
  {
    PartsJoin(c);
    BitsOfValue(((c >> 8) & 0xFF) as bv8);
    BitsOfValue((c & 0xFF) as bv8);
    hide Bits, Join, Value, Swap;
  }

  lemma SwapInvolutive(c: bv16)
    ensures Swap(Swap(c)) == c
  {
  }

  /** Comparing the assembled checksum is comparing the two bytes. */
  lemma TailMatches(body: seq<byte>, low: byte, high: byte)
    ensures Join(Bits(high), Bits(low)) == Checksum(body) <==> [low, high] == Tail(body)
    ensures Join(Bits(low), Bits(high)) == Swap(Checksum(body)) <==> [low, high] == Tail(body)
  {
    var c := Checksum(body);
    JoinOfLowHigh(c);
    LowHighOfJoin(high, low);
    LowHighOfJoin(low, high);
    SwapInvolutive(c);
    JoinOfLowHigh(Swap(c));
    hide Bits, Join, Swap, Low, High, Checksum;
    assert Tail(body)[0] == Low(c) && Tail(body)[1] == High(c);
  }
}
