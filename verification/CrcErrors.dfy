/** What the CRC detects, for messages of every length. */
module CrcErrors {
  import opened Bytes
  import opened ShiftRegister
  import opened Crc

  // ----- The update is a bijection, on states and on two consecutive bytes -----

  function Unfeed(c: bv16, b: byte): bv16 {
    Xor(Unshift8(c), Wide(b))
  }

  lemma FeedBijective(c: bv16, b: byte)
    ensures Unfeed(Feed(c, b), b) == c
    ensures Feed(Unfeed(c, b), b) == c
  {
    hide Shift8, Unshift8, Wide;
    Unshift8Inverts(Xor(c, Wide(b)));
    Unshift8Inverts(c);
    XorLaws(c, Wide(b));
    XorLaws(Unshift8(c), Wide(b));
    hide Xor;
  }

  lemma {:induction false} FoldInjective(c: bv16, d: bv16, s: seq<byte>)
    requires Fold(c, s) == Fold(d, s)
    ensures c == d
    decreases |s|
  {
    hide Feed, Unfeed;
    if s != [] {
      FoldInjective(Feed(c, s[0]), Feed(d, s[0]), s[1..]);
      FeedBijective(c, s[0]);
      FeedBijective(d, s[0]);
    }
  }

  /** Two consecutive bytes enter the register as one word. */
  lemma FeedPair(c: bv16, low: byte, high: byte)
    ensures Feed(Feed(c, low), high) == Shift8(Shift8(Xor(c, Join(Bits(high), Bits(low)))))
  {
    JoinAsXor(Bits(high), Bits(low));
    XorAssoc(c, Wide(low), Join(Bits(high), 0));
    Shift8Upper(Xor(c, Wide(low)), Bits(high));
    hide Shift8, Xor, Bits, Join;
  }

  lemma JoinAsXor(high: bv8, low: bv8)
    ensures Join(high, low) == Xor(Widen(low), Join(high, 0))
    ensures Join(0, high) == Widen(high)
  {
  }

  // ----- A frame is valid exactly when it leaves the register at zero -----

  lemma ResidueZero(body: seq<byte>, low: byte, high: byte)
    ensures Checksum(body + [low, high]) == 0 <==> [low, high] == Tail(body)
  {
    var c := Checksum(body);
    hide Feed;
    FoldConcat(0xFFFF, body, [low, high]);
    assert [low, high][1..] == [high] && [high][1..] == [];
    assert Fold(Feed(Feed(c, low), high), []) == Feed(Feed(c, low), high);
    assert Fold(Feed(c, low), [high]) == Feed(Feed(c, low), high);
    var w := Join(Bits(high), Bits(low));
    FeedPair(c, low, high);
    hide Shift8, Xor, Bits, Join, Tail, Checksum;
    Shift8Zero(Shift8(Xor(c, w)));
    Shift8Zero(Xor(c, w));
    XorLaws(c, w);
    TailMatches(body, low, high);
  }

  lemma SealedIffResidueZero(frame: seq<byte>)
    requires |frame| >= 2
    ensures IsSealed(frame) <==> Checksum(frame) == 0
  {
    var n := |frame| - 2;
    hide Checksum, Tail;
    assert frame == frame[..n] + [frame[n], frame[n + 1]];
    ResidueZero(frame[..n], frame[n], frame[n + 1]);
    assert frame == Sealed(frame[..n]) <==> [frame[n], frame[n + 1]] == Tail(frame[..n]);
  }

  // ----- The message as a stream of bits, lowest bit of each byte first -----

  function WordBits(x: bv16, n: nat): (r: seq<bool>)
    ensures |r| == n
    decreases n
  {
    if n == 0 then [] else [LowBit(x)] + WordBits(Half(x), n - 1)
  }

  function BitStream(s: seq<byte>): (r: seq<bool>)
    ensures |r| == 8 * |s|
  {
    if s == [] then [] else WordBits(Wide(s[0]), 8) + BitStream(s[1..])
  }

  function FoldBits(c: bv16, bits: seq<bool>): bv16
    decreases |bits|
  {
    if bits == [] then c else FoldBits(Shift(Xor(c, Flag(bits[0]))), bits[1..])
  }

  lemma {:induction false} FoldBitsConcat(c: bv16, a: seq<bool>, b: seq<bool>)
    ensures FoldBits(c, a + b) == FoldBits(FoldBits(c, a), b)
    decreases |a|
  {
    hide Shift, Xor, Flag;
    if a == [] {
      assert a + b == b;
    } else {
      assert (a + b)[1..] == a[1..] + b;
      FoldBitsConcat(Shift(Xor(c, Flag(a[0]))), a[1..], b);
    }
  }

  /** x has no bits from position n on. */
  predicate Narrow(x: bv16, n: nat)
    decreases n
  {
    if n == 0 then x == 0 else Narrow(Half(x), n - 1)
  }

  function ShiftBy(c: bv16, n: nat): bv16
    decreases n
  {
    if n == 0 then c else ShiftBy(Shift(c), n - 1)
  }

  lemma {:induction false} FoldWordBits(c: bv16, x: bv16, n: nat)
    requires Narrow(x, n)
    ensures FoldBits(c, WordBits(x, n)) == ShiftBy(Xor(c, x), n)
    decreases n
  {
    XorLaws(c, x);
    hide Shift, Xor, Flag, Half, LowBit;
    if n > 0 {
      ShiftByLowBit(c, x);
      assert WordBits(x, n)[1..] == WordBits(Half(x), n - 1);
      FoldWordBits(Shift(Xor(c, Flag(LowBit(x)))), Half(x), n - 1);
    }
  }

  lemma ByteIsNarrow(x: bv8)
    ensures Narrow(Widen(x), 8)
  {
    var y := Widen(x);
    assert Half(Half(Half(Half(Half(Half(Half(Half(y)))))))) == 0;
    hide Half;
    var y2 := Half(Half(y));
    var y4 := Half(Half(y2));
    var y6 := Half(Half(y4));
    assert Narrow(Half(Half(y6)), 0);
    assert Narrow(y6, 2);
    assert Narrow(y4, 4);
    assert Narrow(y2, 6);
  }

  lemma FeedIsBits(c: bv16, b: byte)
    ensures Feed(c, b) == FoldBits(c, WordBits(Wide(b), 8))
  {
    ByteIsNarrow(Bits(b));
    FoldWordBits(c, Wide(b), 8);
    hide Shift, Xor, Wide;
    var w := Xor(c, Wide(b));
    var w2 := Shift(Shift(w));
    var w4 := Shift(Shift(w2));
    var w6 := Shift(Shift(w4));
    assert ShiftBy(w6, 2) == Shift(Shift(w6));
    assert ShiftBy(w4, 4) == ShiftBy(w6, 2);
    assert ShiftBy(w2, 6) == ShiftBy(w4, 4);
  }

  lemma {:induction false} FoldIsBits(c: bv16, s: seq<byte>)
    ensures Fold(c, s) == FoldBits(c, BitStream(s))
    decreases |s|
  {
    hide Feed, Shift, Xor, Wide;
    if s != [] {
      FeedIsBits(c, s[0]);
      FoldIsBits(Feed(c, s[0]), s[1..]);
      FoldBitsConcat(c, WordBits(Wide(s[0]), 8), BitStream(s[1..]));
    }
  }

  lemma SealedIffBits(frame: seq<byte>)
    requires |frame| >= 2
    ensures IsSealed(frame) <==> FoldBits(0xFFFF, BitStream(frame)) == 0
  {
    hide IsSealed, FoldBits, BitStream;
    SealedIffResidueZero(frame);
    FoldIsBits(0xFFFF, frame);
  }

  // ----- The undetected errors are those the register itself maps to zero -----

  /** The error pattern between two bit streams of one length. */
  function Difference(a: seq<bool>, b: seq<bool>): (e: seq<bool>)
    requires |a| == |b|
    ensures |e| == |a|
  {
    seq(|a|, j requires 0 <= j < |a| => a[j] != b[j])
  }

  lemma {:induction false} FoldBitsXor(c: bv16, d: bv16, a: seq<bool>, b: seq<bool>)
    requires |a| == |b|
    ensures FoldBits(Xor(c, d), Difference(a, b)) == Xor(FoldBits(c, a), FoldBits(d, b))
    decreases |a|
  {
    hide Shift, Xor, Flag;
    if a != [] {
      FlagXor(a[0], b[0]);
      XorSwap(c, d, Flag(a[0]), Flag(b[0]));
      ShiftXor(Xor(c, Flag(a[0])), Xor(d, Flag(b[0])));
      FoldBitsXor(Shift(Xor(c, Flag(a[0]))), Shift(Xor(d, Flag(b[0]))), a[1..], b[1..]);
      assert Difference(a, b)[1..] == Difference(a[1..], b[1..]);
      assert Difference(a, b)[0] == (a[0] != b[0]);
    }
  }

  function ErrorPattern(f: seq<byte>, g: seq<byte>): (e: seq<bool>)
    requires |f| == |g|
    ensures |e| == 8 * |f|
  {
    Difference(BitStream(f), BitStream(g))
  }

  /** Corrupting a valid frame goes unnoticed iff the error pattern has remainder zero. */
  lemma UndetectedIff(f: seq<byte>, g: seq<byte>)
    requires |f| == |g| >= 2 && IsSealed(f)
    ensures IsSealed(g) <==> FoldBits(0, ErrorPattern(f, g)) == 0
  {
    SealedIffBits(f);
    SealedIffBits(g);
    FoldBitsXor(0xFFFF, 0xFFFF, BitStream(f), BitStream(g));
    XorLaws(0xFFFF, 0xFFFF);
    XorLaws(FoldBits(0xFFFF, BitStream(g)), 0);
    hide Xor, IsSealed, FoldBits, BitStream, Difference;
  }

  // ----- Bursts of up to sixteen bits -----

  /** The register ends at zero only if it held the next (at most sixteen) bits. */
  lemma {:induction false} ZeroOnlyFromItself(c: bv16, bits: seq<bool>)
    requires |bits| <= 16 && FoldBits(c, bits) == 0
    ensures forall j :: 0 <= j < 16 ==> BitAt(c, j) == (j < |bits| && bits[j])
    decreases |bits|
  {
    if bits == [] {
      forall j | 0 <= j < 16
        ensures !BitAt(c, j)
      {
        ZeroBits(j);
      }
    } else {
      var x := Xor(c, Flag(bits[0]));
      FlagBits(c, bits[0]);
      TopBitOfShift(x);
      TopBitIsBit15(Shift(x));
      hide Shift, Xor, Flag, Half, LowBit, TopBit;
      ZeroOnlyFromItself(Shift(x), bits[1..]);
      forall j | 0 <= j < 16
        ensures BitAt(c, j) == (j < |bits| && bits[j])
      {
        if j > 0 {
          assert BitAt(c, j) == BitAt(Half(c), j - 1);
        }
      }
    }
  }

  lemma {:induction false} ZerosKeepState(bits: seq<bool>)
    requires forall j :: 0 <= j < |bits| ==> !bits[j]
    ensures FoldBits(0, bits) == 0
  {
    if bits != [] {
      assert Shift(Xor(0, Flag(false))) == 0;
      ZerosKeepState(bits[1..]);
    }
  }

  lemma {:induction false} FoldBitsInjective(c: bv16, d: bv16, bits: seq<bool>)
    requires FoldBits(c, bits) == FoldBits(d, bits)
    ensures c == d
    decreases |bits|
  {
    if bits != [] {
      var f := Flag(bits[0]);
      XorLaws(c, f);
      XorLaws(d, f);
      UnshiftShift(Xor(c, f));
      UnshiftShift(Xor(d, f));
      hide Shift, Xor, Unshift, Flag;
      FoldBitsInjective(Shift(Xor(c, f)), Shift(Xor(d, f)), bits[1..]);
    }
  }

  /** A non-zero pattern within sixteen consecutive bits has a non-zero remainder. */
  lemma BurstRemainder(e: seq<bool>, lo: nat, hi: nat)
    requires lo <= hi <= |e| && hi - lo <= 16
    requires forall j :: 0 <= j < |e| && !(lo <= j < hi) ==> !e[j]
    requires FoldBits(0, e) == 0
    ensures forall j :: 0 <= j < |e| ==> !e[j]
  {
    hide Shift, Xor, Flag;
    assert e == e[..lo] + (e[lo..hi] + e[hi..]);
    FoldBitsConcat(0, e[..lo], e[lo..hi] + e[hi..]);
    ZerosKeepState(e[..lo]);
    FoldBitsConcat(0, e[lo..hi], e[hi..]);
    ZerosKeepState(e[hi..]);
    FoldBitsInjective(FoldBits(0, e[lo..hi]), 0, e[hi..]);
    ZeroOnlyFromItself(0, e[lo..hi]);
    forall j | lo <= j < hi
      ensures !e[j]
    {
      ZeroBits(j - lo);
      assert e[lo..hi][j - lo] == e[j];
    }
  }

  /** Every error confined to sixteen consecutive bits is detected, in frames of any length. */
  lemma BurstDetected(f: seq<byte>, g: seq<byte>, p: nat)
    requires |f| == |g| >= 2 && IsSealed(f) && f != g
    requires forall j :: 0 <= j < 8 * |f| && !(p <= j < p + 16) ==> BitStream(f)[j] == BitStream(g)[j]
    ensures !IsSealed(g)
  {
    hide FoldBits, BitStream, IsSealed;
    if IsSealed(g) {
      var e := ErrorPattern(f, g);
      UndetectedIff(f, g);
      BurstRemainder(e, if p < |e| then p else |e|, if p + 16 < |e| then p + 16 else |e|);
      assert forall j :: 0 <= j < |e| ==> e[j] == (BitStream(f)[j] != BitStream(g)[j]);
      BitStreamInjective(f, g);
    }
  }

  lemma {:induction false} WordBitsInjective(x: bv16, y: bv16, n: nat)
    requires Narrow(x, n) && Narrow(y, n) && WordBits(x, n) == WordBits(y, n)
    ensures x == y
    decreases n
  {
    if n > 0 {
      hide Half, LowBit;
      assert WordBits(x, n)[1..] == WordBits(Half(x), n - 1);
      assert WordBits(y, n)[1..] == WordBits(Half(y), n - 1);
      assert WordBits(x, n)[0] == LowBit(x) && WordBits(y, n)[0] == LowBit(y);
      WordBitsInjective(Half(x), Half(y), n - 1);
      HalfAndLowBit(x, y);
    }
  }

  lemma HalfAndLowBit(x: bv16, y: bv16)
    requires Half(x) == Half(y) && LowBit(x) == LowBit(y)
    ensures x == y
  {
  }

  lemma {:induction false} BitStreamInjective(f: seq<byte>, g: seq<byte>)
    requires |f| == |g| && BitStream(f) == BitStream(g)
    ensures f == g
    decreases |f|
  {
    if f != [] {
      assert BitStream(f)[..8] == WordBits(Wide(f[0]), 8) && BitStream(f)[8..] == BitStream(f[1..]);
      assert BitStream(g)[..8] == WordBits(Wide(g[0]), 8) && BitStream(g)[8..] == BitStream(g[1..]);
      hide BitStream, Wide, WordBits;
      WideBitsInjective(f[0], g[0]);
      BitStreamInjective(f[1..], g[1..]);
    }
  }

  lemma WideBitsInjective(a: byte, b: byte)
    requires WordBits(Wide(a), 8) == WordBits(Wide(b), 8)
    ensures a == b
  {
    ByteIsNarrow(Bits(a));
    ByteIsNarrow(Bits(b));
    WordBitsInjective(Wide(a), Wide(b), 8);
    hide WordBits, Widen;
    WidenInjective(Bits(a), Bits(b));
    BitsInjective(a, b);
  }

  lemma WidenInjective(x: bv8, y: bv8)
    requires Widen(x) == Widen(y)
    ensures x == y
  {
  }

  lemma {:induction false} BitStreamConcat(s: seq<byte>, t: seq<byte>)
    ensures BitStream(s + t) == BitStream(s) + BitStream(t)
  {
    hide WordBits, Wide;
    if s == [] {
      assert s + t == t;
    } else {
      assert (s + t)[1..] == s[1..] + t;
      BitStreamConcat(s[1..], t);
    }
  }

  /** Every change confined to one byte or to two adjacent bytes is detected. */
  lemma AdjacentBytesDetected(f: seq<byte>, g: seq<byte>, i: nat)
    requires |f| == |g| >= 2 && IsSealed(f) && f != g
    requires forall j :: 0 <= j < |f| && j != i && j != i + 1 ==> f[j] == g[j]
    ensures !IsSealed(g)
  {
    hide IsSealed, BitStream;
    var lo := if i < |f| then i else |f|;
    var hi := if i + 2 < |f| then i + 2 else |f|;
    assert f == f[..lo] + (f[lo..hi] + f[hi..]);
    assert g == f[..lo] + (g[lo..hi] + f[hi..]);
    BitStreamConcat(f[..lo], f[lo..hi] + f[hi..]);
    BitStreamConcat(f[lo..hi], f[hi..]);
    BitStreamConcat(f[..lo], g[lo..hi] + f[hi..]);
    BitStreamConcat(g[lo..hi], f[hi..]);
    BurstDetected(f, g, 8 * lo);
  }

  // ----- Parity -----

  function Ones(bits: seq<bool>): nat {
    if bits == [] then 0 else (if bits[0] then 1 else 0) + Ones(bits[1..])
  }

  lemma {:induction false} FoldBitsParity(c: bv16, bits: seq<bool>)
    ensures Odd(FoldBits(c, bits)) <==> (Odd(c) != (Ones(bits) % 2 == 1))
    decreases |bits|
  {
    hide Odd, Shift, Xor, Flag;
    if bits != [] {
      var x := Xor(c, Flag(bits[0]));
      FoldBitsParity(Shift(x), bits[1..]);
      ShiftKeepsParity(x);
      FlipParity(c, bits[0]);
    }
  }

  lemma FlipParity(c: bv16, b: bool)
    ensures Odd(Xor(c, Flag(b))) == (Odd(c) != b)
  {
    hide Xor, Flag, OddBits;
    OddBitsXor(c, Flag(b), 16);
    OddConstants();
  }

  /** Every valid frame has an even number of one bits. */
  lemma SealedHasEvenParity(f: seq<byte>)
    requires |f| >= 2 && IsSealed(f)
    ensures Ones(BitStream(f)) % 2 == 0
  {
    hide Odd, FoldBits, BitStream, IsSealed;
    SealedIffBits(f);
    FoldBitsParity(0xFFFF, BitStream(f));
    OddConstants();
  }

  /** The checksum of a message has the message's own parity. */
  lemma ChecksumParity(s: seq<byte>)
    ensures Odd(Checksum(s)) <==> Ones(BitStream(s)) % 2 == 1
  {
    hide Odd, FoldBits, BitStream;
    FoldIsBits(0xFFFF, s);
    FoldBitsParity(0xFFFF, BitStream(s));
    OddConstants();
  }

  /** Every odd number of flipped bits is detected. */
  lemma OddFlipsDetected(f: seq<byte>, g: seq<byte>)
    requires |f| == |g| >= 2 && IsSealed(f)
    requires Ones(ErrorPattern(f, g)) % 2 == 1
    ensures !IsSealed(g)
  {
    hide Odd, FoldBits, BitStream, IsSealed, Difference;
    UndetectedIff(f, g);
    FoldBitsParity(0, ErrorPattern(f, g));
    OddConstants();
  }
}
