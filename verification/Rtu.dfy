/** The RTU packagers: address, function, data, CRC. */
module Rtu {
  import opened Bytes
  import opened ShiftRegister
  import opened Crc
  import CrcErrors

  const RTU_MIN_SIZE := 4
  const RTU_MAX_SIZE := 256

  /** The frame of section 2.5.1 of MODBUS over Serial Line V1.02. */
  function Frame(slave: byte, p: Pdu): (f: seq<byte>)
    ensures |f| == |p.data| + 4
  {
    Sealed([slave] + Raw(p))
  }

  function Encode(slave: byte, p: Pdu): Result<seq<byte>> {
    if |p.data| + 4 > RTU_MAX_SIZE then Err(TooLong) else Ok(Frame(slave, p))
  }

  function Verify(request: seq<byte>, response: seq<byte>): Result<()> {
    if |response| < RTU_MIN_SIZE then Err(TooShort)
    else if request == [] then Err(RuntimePanic)
    else if response[0] != request[0] then Err(BadSlave)
    else Ok(())
  }

  /** The length Decode works with: for functions below 5 it trusts the byte count. */
  function RealLength(adu: seq<byte>): Result<nat> {
    if |adu| > 1 && adu[1] < 5 then
      if |adu| < 3 then Err(TooShort)
      else
        var count: nat := adu[2];
        if count + 5 > |adu| then Err(BadLength) else Ok(count + 5)
    else Ok(|adu|)
  }

  function Decode(adu: seq<byte>): Result<Pdu> {
    var measured := RealLength(adu);
    if measured.Err? then Err(measured.error)
    else
      var n := measured.value;
      if n < 2 then Err(RuntimePanic)
      else if Join(Bits(adu[n - 1]), Bits(adu[n - 2])) != Checksum(adu[..n - 2]) then Err(BadChecksum)
      else if n < 4 then Err(RuntimePanic)
      else Ok(Pdu(adu[1], adu[2..n - 2]))
  }

  /** RTUPackager.Pack: the PDU is a byte string and there is no size limit. */
  function Pack(slave: byte, pdu: seq<byte>): seq<byte> {
    Sealed([slave] + pdu)
  }

  /** The packager object of the client. */
  class Packager {
    var slaveId: byte

    constructor ()
      ensures slaveId == 0
    {
      slaveId := 0;
    }

    method SetSlaverId(id: byte)
      modifies this
      ensures slaveId == id
    {
      slaveId := id;
    }

    method EncodePdu(p: Pdu) returns (r: Result<seq<byte>>)
      ensures r == Encode(slaveId, p)
    {
      hide Tail, Checksum, High, Low;
      var length := |p.data| + 4;
      if length > RTU_MAX_SIZE {
        return Err(TooLong);
      }
      var adu := new byte[length];
      adu[0] := slaveId;
      adu[1] := p.functionCode;
      forall i | 0 <= i < |p.data| {
        adu[2 + i] := p.data[i];
      }
      var crcCalculator := new Calculator();
      crcCalculator.Reset();
      var body := adu[..length - 2];
      crcCalculator.PushBytes(body);
      var checksum := crcCalculator.Value();
      assert body == [slaveId] + Raw(p);
      ChecksumIsFold(body);
      adu[length - 1] := High(checksum);
      adu[length - 2] := Low(checksum);
      assert Tail(body) == [Low(checksum), High(checksum)] by {
        TailOf(body);
      }
      assert adu[..] == body + Tail(body);
      return Ok(adu[..]);
    }

    method DecodeAdu(adu: seq<byte>) returns (r: Result<Pdu>)
      ensures r == Decode(adu)
    {
      hide Checksum, Join, Bits;
      var length := |adu|;
      if length > 1 && adu[1] < 5 {
        if length < 3 {
          return Err(TooShort);
        } else {
          var count: nat := adu[2];
          var realLength := count + 5;
          if realLength > length {
            return Err(BadLength);
          } else {
            length := realLength;
          }
        }
      }
      if length < 2 {
        return Err(RuntimePanic);
      }
      var crcCalculator := new Calculator();
      crcCalculator.Reset();
      crcCalculator.PushBytes(adu[..length - 2]);
      var checksum := Join(Bits(adu[length - 1]), Bits(adu[length - 2]));
      var expected := crcCalculator.Value();
      assert expected == Checksum(adu[..length - 2]) by {
        ChecksumIsFold(adu[..length - 2]);
      }
      if checksum != expected {
        return Err(BadChecksum);
      }
      if length < 4 {
        return Err(RuntimePanic);
      }
      return Ok(Pdu(adu[1], adu[2..length - 2]));
    }
  }

  /** RTUPackager.Pack, through the bitwise CRC. */
  method PackPdu(slave: byte, pdu: seq<byte>) returns (frame: seq<byte>)
    ensures frame == Pack(slave, pdu)
  {
    var buffer := new byte[1 + |pdu| + 2];
    buffer[0] := slave;
    forall i | 0 <= i < |pdu| {
      buffer[1 + i] := pdu[i];
    }
    var body := buffer[..buffer.Length - 2];
    assert body == [slave] + pdu;
    var crc := CRC16(body);
    SwappedParts(body);
    hide Tail, Checksum, High, Low, Swap;
    buffer[buffer.Length - 1] := Low(crc);
    buffer[buffer.Length - 2] := High(crc);
    assert buffer[..] == body + Tail(body);
    frame := buffer[..];
  }

  lemma TailOf(body: seq<byte>)
    ensures Tail(body) == [Low(Checksum(body)), High(Checksum(body))]
  {
  }

  lemma ChecksumIsFold(s: seq<byte>)
    ensures Checksum(s) == Fold(0xFFFF, s)
  {
  }

  /** CRC16 swaps the checksum's bytes and Pack writes them high byte first. */
  lemma SwappedParts(body: seq<byte>)
    ensures Tail(body) == [High(Swap(Checksum(body))), Low(Swap(Checksum(body)))]
  {
    var c := Checksum(body);
    SwapSwapsParts(c);
    hide Checksum, High, Low, Swap;
  }

  lemma SwapSwapsParts(c: bv16)
    ensures High(Swap(c)) == Low(c) && Low(Swap(c)) == High(c)
  {
    RawSwapParts(c);
    hide Swap, Value;
  }

  lemma RawSwapParts(c: bv16)
    ensures ((Swap(c) >> 8) & 0xFF) as bv8 == (c & 0xFF) as bv8
    ensures (Swap(c) & 0xFF) as bv8 == ((c >> 8) & 0xFF) as bv8
  {
  }

  /** The two frame builders agree. */
  lemma PackIsFrame(slave: byte, p: Pdu)
    ensures Pack(slave, Raw(p)) == Frame(slave, p)
  {
  }

  // ----- What Decode accepts -----

  /** The checksum comparison says that the first n bytes are a sealed frame. */
  lemma ChecksumTest(adu: seq<byte>, n: nat)
    requires 2 <= n <= |adu|
    ensures Join(Bits(adu[n - 1]), Bits(adu[n - 2])) == Checksum(adu[..n - 2]) <==> IsSealed(adu[..n])
  {
    TailMatches(adu[..n - 2], adu[n - 2], adu[n - 1]);
    hide Checksum, Join, Bits, Tail;
    assert adu[..n][..n - 2] == adu[..n - 2];
    assert adu[..n] == adu[..n - 2] + [adu[n - 2], adu[n - 1]];
    assert adu[..n] == adu[..n - 2] + Tail(adu[..n - 2]) <==> [adu[n - 2], adu[n - 1]] == Tail(adu[..n - 2]) by {
      SuffixEqual(adu[..n - 2], [adu[n - 2], adu[n - 1]], Tail(adu[..n - 2]));
    }
  }

  lemma SuffixEqual(a: seq<byte>, x: seq<byte>, y: seq<byte>)
    ensures a + x == a + y <==> x == y
  {
    if a + x == a + y {
      assert x == (a + x)[|a|..];
      assert y == (a + y)[|a|..];
    }
  }

  /** Decode accepts exactly the frames whose first RealLength bytes are sealed, and returns what they carry. */
  lemma DecodeIff(adu: seq<byte>)
    requires |adu| >= RTU_MIN_SIZE
    ensures Decode(adu).Ok? <==> RealLength(adu).Ok? && IsSealed(adu[..RealLength(adu).value])
    ensures Decode(adu).Ok? ==> adu[..RealLength(adu).value] == Frame(adu[0], Decode(adu).value)
    ensures Decode(adu) != Err(RuntimePanic)
  {
    var measured := RealLength(adu);
    if measured.Ok? {
      var n := measured.value;
      ChecksumTest(adu, n);
      hide Checksum, Join, Bits, Tail;
      if Decode(adu).Ok? {
        assert adu[..n][..n - 2] == [adu[0]] + Raw(Decode(adu).value);
      }
    }
  }

  lemma FrameIsSealed(slave: byte, p: Pdu)
    ensures IsSealed(Frame(slave, p))
    ensures Frame(slave, p)[0] == slave && Frame(slave, p)[1] == p.functionCode
    ensures Frame(slave, p)[2..|p.data| + 2] == p.data
  {
    hide Tail;
    assert Frame(slave, p)[..|p.data| + 2] == [slave] + Raw(p);
  }

  /** Verify accepts exactly the frames of at least four bytes that start with the slave id of the request. */
  lemma VerifyIff(slave: byte, request: Pdu, other: byte, reply: Pdu)
    ensures Verify(Frame(slave, request), Frame(other, reply)) == if other == slave then Ok(()) else Err(BadSlave)
  {
    FrameIsSealed(slave, request);
    FrameIsSealed(other, reply);
    hide Frame;
  }

  /** A reply whose function is below 5 carries its own data length. */
  predicate SelfCounted(p: Pdu) {
    p.functionCode >= 5 || (p.data != [] && p.data[0] == |p.data| - 1)
  }

  /** Decode inverts Encode exactly on the PDUs that count themselves; otherwise it never returns p. */
  lemma RoundTripIff(slave: byte, p: Pdu)
    ensures Decode(Frame(slave, p)) == Ok(p) <==> SelfCounted(p)
  {
    var f := Frame(slave, p);
    FrameIsSealed(slave, p);
    DecodeIff(f);
    FrameLength(slave, p);
    hide Frame, Decode, IsSealed, RealLength, SelfCounted;
    assert f[..|f|] == f;
    if Decode(f).Ok? {
      FrameInjective(slave, p, Decode(f).value);
    }
  }

  /** The length adjustment finds the frame's own length exactly when the PDU counts itself. */
  lemma FrameLength(slave: byte, p: Pdu)
    ensures RealLength(Frame(slave, p)) == Ok(|Frame(slave, p)|) <==> SelfCounted(p)
  {
    var f := Frame(slave, p);
    FrameIsSealed(slave, p);
    hide Frame, IsSealed;
    if p.data != [] {
      assert f[2] == f[2..|p.data| + 2][0];
    }
  }

  lemma FrameInjective(slave: byte, p: Pdu, q: Pdu)
    ensures Frame(slave, p) == Frame(slave, q) ==> p == q
  {
    FrameIsSealed(slave, p);
    FrameIsSealed(slave, q);
    hide Frame;
  }

  /** With a correct byte count, anything after the frame is ignored. */
  lemma TrailingBytesIgnored(slave: byte, p: Pdu, junk: seq<byte>)
    requires p.functionCode < 5 && SelfCounted(p)
    ensures Decode(Frame(slave, p) + junk) == Ok(p)
  {
    var f := Frame(slave, p);
    FrameIsSealed(slave, p);
    DecodeIff(f + junk);
    hide Frame, Decode, IsSealed;
    assert f[2] == f[2..|p.data| + 2][0];
    assert (f + junk)[..|f|] == f;
    FrameInjective(slave, p, Decode(f + junk).value);
  }

  // ----- RTUPackager.Unpack -----

  /** It reads the CRC's two bytes in the other order than CRC16 returns and Pack writes them. */
  function Unpack(frame: seq<byte>): Result<(byte, seq<byte>)> {
    var n := |frame|;
    if n < 3 then Err(TooShort)
    else if Join(Bits(frame[n - 1]), Bits(frame[n - 2])) != Swap(Checksum(frame[..n - 2])) then Err(BadChecksum)
    else Ok((frame[0], frame[1..n - 2]))
  }

  /** Unpack accepts exactly the frames that carry the two checksum bytes exchanged. */
  lemma UnpackAcceptsIff(body: seq<byte>, first: byte, second: byte)
    ensures body == [] ==> Unpack(body + [first, second]) == Err(TooShort)
    ensures body != [] ==>
              Unpack(body + [first, second])
              == if [second, first] == Tail(body) then Ok((body[0], body[1..])) else Err(BadChecksum)
  {
    var f := body + [first, second];
    if body != [] {
      assert f[..|f| - 2] == body && f[|f| - 1] == second && f[|f| - 2] == first && f[1..|f| - 2] == body[1..];
      TailMatches(body, second, first);
    }
    hide Checksum, Join, Bits, Tail, Swap;
  }

  /** Unpack inverts Pack exactly on the messages whose checksum has two equal bytes. */
  lemma UnpackInvertsPackIff(slave: byte, pdu: seq<byte>)
    ensures var sum := Tail([slave] + pdu);
            Unpack(Pack(slave, pdu)) == if sum[0] == sum[1] then Ok((slave, pdu)) else Err(BadChecksum)
  {
    var sum := Tail([slave] + pdu);
    UnpackAcceptsIff([slave] + pdu, sum[0], sum[1]);
    hide Tail, Unpack;
    assert sum == [sum[0], sum[1]];
  }

  /** Reading the exception status of slave 1: Unpack refuses what Pack built. */
  lemma UnpackRefusesPacked()
    ensures Pack(1, [7]) == [0x01, 0x07, 0x41, 0xE2] && Unpack(Pack(1, [7])) == Err(BadChecksum)
  {
    hide Unpack, Tail, Pack;
    TailOfOneSeven();
    PackedBytes(1, [7]);
    UnpackInvertsPackIff(1, [7]);
    assert [1 as byte] + [7] == [1, 7];
  }

  lemma PackedBytes(slave: byte, pdu: seq<byte>)
    ensures Pack(slave, pdu) == [slave] + pdu + Tail([slave] + pdu)
  {
  }

  lemma TailOfOneSeven()
    ensures Tail([1, 7]) == [0x41, 0xE2]
  {
    SumOfOneSeven();
    LowHighOfJoin(0xE2, 0x41);
    hide Bits, High, Low, Checksum, Join;
  }

  lemma SumOfOneSeven()
    ensures Checksum([1, 7]) == Join(Bits(0xE2), Bits(0x41))
  {
    assert Bits(1) == 1 && Bits(7) == 7 && Bits(0xE2) == 0xE2 && Bits(0x41) == 0x41;
    hide Bits;
    assert Fold(0xFFFF, [1 as byte]) == Feed(0xFFFF, 1) == 0x807E;
    FoldSnoc(0xFFFF, [1], 7);
  }

  // ----- Which corrupted frames Decode rejects -----

  /** Decode checks the whole of g: its function is not a counted one, or its count does not end early. */
  predicate CheckedWhole(g: seq<byte>)
    requires |g| >= RTU_MIN_SIZE
  {
    g[1] >= 5 || g[2] as int + 5 >= |g|
  }

  /** The bytes up to where its count ends are a valid frame of their own. */
  predicate ShorterFrame(g: seq<byte>)
    requires |g| >= RTU_MIN_SIZE
  {
    !CheckedWhole(g) && IsSealed(g[..g[2] as int + 5])
  }

  /** A frame that is not sealed as a whole is accepted only for a shorter frame inside it. */
  lemma UnsealedAcceptedIff(g: seq<byte>)
    requires |g| >= RTU_MIN_SIZE && !IsSealed(g)
    ensures Decode(g).Ok? <==> ShorterFrame(g)
  {
    hide IsSealed, Decode;
    DecodeIff(g);
    WholePrefix(g);
  }

  lemma WholePrefix(g: seq<byte>)
    ensures g[..|g|] == g
  {
  }

  predicate BytesCorrupted(f: seq<byte>, g: seq<byte>, i: nat) {
    |g| == |f| && g != f && forall j :: 0 <= j < |f| && j != i && j != i + 1 ==> f[j] == g[j]
  }

  predicate BurstCorrupted(f: seq<byte>, g: seq<byte>, start: nat) {
    && |g| == |f| && g != f
    && forall j :: 0 <= j < 8 * |f| && !(start <= j < start + 16) ==>
         CrcErrors.BitStream(f)[j] == CrcErrors.BitStream(g)[j]
  }

  predicate OddFlips(f: seq<byte>, g: seq<byte>) {
    |g| == |f| && CrcErrors.Ones(CrcErrors.ErrorPattern(f, g)) % 2 == 1
  }

  /** An error within sixteen consecutive bits of an encoded frame passes exactly for a shorter frame. */
  lemma BurstAcceptedIff(slave: byte, p: Pdu, g: seq<byte>, start: nat)
    requires BurstCorrupted(Frame(slave, p), g, start)
    ensures Decode(g).Ok? <==> ShorterFrame(g)
  {
    hide Frame, Decode, IsSealed, CrcErrors.BitStream;
    FrameIsSealed(slave, p);
    CrcErrors.BurstDetected(Frame(slave, p), g, start);
    UnsealedAcceptedIff(g);
  }

  /** So does any change of one byte or of two adjacent bytes, CRC bytes included. */
  lemma AdjacentBytesAcceptedIff(slave: byte, p: Pdu, g: seq<byte>, i: nat)
    requires BytesCorrupted(Frame(slave, p), g, i)
    ensures Decode(g).Ok? <==> ShorterFrame(g)
  {
    hide Frame, Decode, IsSealed;
    FrameIsSealed(slave, p);
    CrcErrors.AdjacentBytesDetected(Frame(slave, p), g, i);
    UnsealedAcceptedIff(g);
  }

  /** And any odd number of flipped bits. */
  lemma OddFlipsAcceptedIff(slave: byte, p: Pdu, g: seq<byte>)
    requires OddFlips(Frame(slave, p), g)
    ensures Decode(g).Ok? <==> ShorterFrame(g)
  {
    hide Frame, Decode, IsSealed, CrcErrors.Ones, CrcErrors.ErrorPattern;
    FrameIsSealed(slave, p);
    CrcErrors.OddFlipsDetected(Frame(slave, p), g);
    UnsealedAcceptedIff(g);
  }

  /** Every change of one or two adjacent bytes that is received with function w is rejected. */
  ghost predicate BytesAlwaysRejected(w: byte) {
    forall slave, p, g, i :: BytesCorrupted(Frame(slave, p), g, i) && g[1] == w ==> Decode(g).Err?
  }

  /** Every corruption of the three kinds that is received with function w is rejected. */
  ghost predicate AlwaysRejected(w: byte) {
    && BytesAlwaysRejected(w)
    && (forall slave, p, g, start :: BurstCorrupted(Frame(slave, p), g, start) && g[1] == w ==> Decode(g).Err?)
    && (forall slave, p, g :: OddFlips(Frame(slave, p), g) && g[1] == w ==> Decode(g).Err?)
  }

  /** The functions whose count Decode trusts are exactly those under which a corruption can pass. */
  lemma AlwaysRejectedIff(w: byte)
    ensures AlwaysRejected(w) <==> w >= 5
    ensures BytesAlwaysRejected(w) <==> w >= 5
  {
    if w >= 5 {
      FromFiveRejected(w);
    } else {
      BelowFivePasses(w);
    }
  }

  lemma FromFiveRejected(w: byte)
    requires w >= 5
    ensures AlwaysRejected(w)
  {
    hide Frame, Decode, IsSealed, CrcErrors.BitStream, CrcErrors.Ones, CrcErrors.ErrorPattern;
    forall slave, p, g, i | BytesCorrupted(Frame(slave, p), g, i) && g[1] == w
      ensures Decode(g).Err?
    {
      AdjacentBytesAcceptedIff(slave, p, g, i);
    }
    forall slave, p, g, start | BurstCorrupted(Frame(slave, p), g, start) && g[1] == w
      ensures Decode(g).Err?
    {
      BurstAcceptedIff(slave, p, g, start);
    }
    forall slave, p, g | OddFlips(Frame(slave, p), g) && g[1] == w
      ensures Decode(g).Err?
    {
      OddFlipsAcceptedIff(slave, p, g);
    }
  }

  lemma BelowFivePasses(w: byte)
    requires w < 5
    ensures !BytesAlwaysRejected(w)
  {
    var inner := Sealed([0, w, 0] + []);
    var p := Pdu(5, inner[2..]);
    var f := Frame(0, p);
    FunctionByteCorruptionPasses(0, 5, w, []);
    FrameIsSealed(0, p);
    hide Frame, Decode, Tail;
    assert BytesCorrupted(f, f[1 := w], 1);
  }

  lemma FrameHasEvenParity(slave: byte, p: Pdu)
    ensures CrcErrors.Ones(CrcErrors.BitStream(Frame(slave, p))) % 2 == 0
  {
    hide Frame, CrcErrors.Ones, CrcErrors.BitStream;
    FrameIsSealed(slave, p);
    CrcErrors.SealedHasEvenParity(Frame(slave, p));
  }

  /**
   Without CheckedWhole a single corrupted byte can pass: for every slave, every function byte below 5
   and every counted payload there is an encoded frame of another function that Decode accepts once its
   function byte alone is overwritten.
   */
  lemma FunctionByteCorruptionPasses(slave: byte, functionCode: byte, wrong: byte, payload: seq<byte>)
    requires functionCode >= 5 > wrong && |payload| < 0x100
    ensures var inner := Sealed([slave, wrong, |payload|] + payload);
            var f := Frame(slave, Pdu(functionCode, inner[2..]));
            Decode(f[1 := wrong]) == Ok(Pdu(wrong, [|payload|] + payload))
  {
    var n: byte := |payload|;
    var p := Pdu(wrong, [n] + payload);
    assert [slave, wrong, n] + payload == [slave] + Raw(p);
    var inner := Frame(slave, p);
    var f := Frame(slave, Pdu(functionCode, inner[2..]));
    var g := f[1 := wrong];
    FrameIsSealed(slave, p);
    FrameIsSealed(slave, Pdu(functionCode, inner[2..]));
    hide Frame, Decode, Tail;
    var junk := g[|inner|..];
    assert g == inner + junk by {
      assert f[2..|inner|] == inner[2..];
    }
    assert inner[2] == inner[2..|p.data| + 2][0];
    TrailingBytesIgnored(slave, p, junk);
  }
}
