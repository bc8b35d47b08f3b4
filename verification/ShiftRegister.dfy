/** Bit-vector facts about the CRC-16 shift register. */
module ShiftRegister {

  /** The operators on words, named so that proofs can hide their bits. */
  function Xor(x: bv16, y: bv16): bv16 {
    x ^ y
  }

  function Half(x: bv16): bv16 {
    x >> 1
  }

  predicate LowBit(x: bv16) {
    x & 1 == 1
  }

  function Join(high: bv8, low: bv8): bv16 {
    ((high as bv16) << 8) | (low as bv16)
  }

  /** One step of the register with polynomial 0xA001. */
  function Shift(c: bv16): bv16 {
    if c & 1 == 1 then (c >> 1) ^ 0xA001 else c >> 1
  }

  function Shift4(c: bv16): bv16 {
    Shift(Shift(Shift(Shift(c))))
  }

  function Shift8(c: bv16): bv16 {
    Shift4(Shift4(c))
  }

  function Unshift(c: bv16): bv16 {
    if c & 0x8000 == 0x8000 then ((c ^ 0xA001) << 1) | 1 else c << 1
  }

  function Unshift4(c: bv16): bv16 {
    Unshift(Unshift(Unshift(Unshift(c))))
  }

  function Unshift8(c: bv16): bv16 {
    Unshift4(Unshift4(c))
  }

  // ----- Exclusive or -----

  lemma XorLaws(x: bv16, y: bv16)
    ensures Xor(x, y) == Xor(y, x)
    ensures Xor(x, 0) == x && Xor(x, x) == 0
    ensures Xor(x, Xor(x, y)) == y && Xor(Xor(x, y), y) == x
    ensures Xor(x, y) == 0 <==> x == y
  {
  }

  lemma XorAssoc(x: bv16, y: bv16, z: bv16)
    ensures Xor(Xor(x, y), z) == Xor(x, Xor(y, z))
  {
  }

  lemma XorSwap(a: bv16, b: bv16, c: bv16, d: bv16)
    ensures Xor(Xor(a, b), Xor(c, d)) == Xor(Xor(a, c), Xor(b, d))
  {
    XorAssoc(a, b, Xor(c, d));
    XorAssoc(b, c, d);
    XorLaws(b, c);
    XorAssoc(c, b, d);
    XorAssoc(a, c, Xor(b, d));
    hide Xor;
  }

  lemma HalfXor(x: bv16, y: bv16)
    ensures Half(Xor(x, y)) == Xor(Half(x), Half(y))
  {
    RawHalfXor(x, y);
  }

  lemma RawHalfXor(x: bv16, y: bv16)
    ensures (x ^ y) >> 1 == (x >> 1) ^ (y >> 1)
  {
  }

  lemma LowBitXor(x: bv16, y: bv16)
    ensures LowBit(Xor(x, y)) == (LowBit(x) != LowBit(y))
  {
  }

  // ----- The register is linear -----

  /** What a step adds to the halved register. */
  function Feedback(b: bool): bv16 {
    if b then 0xA001 else 0
  }

  lemma ShiftIsHalf(x: bv16)
    ensures Shift(x) == Xor(Half(x), Feedback(LowBit(x)))
  {
    XorLaws(Half(x), 0);
    TopBitOfShift(x);
    hide Xor, Shift, Half, LowBit;
  }

  lemma FeedbackXor(a: bool, b: bool)
    ensures Feedback(a != b) == Xor(Feedback(a), Feedback(b))
  {
  }

  lemma ShiftXor(x: bv16, y: bv16)
    ensures Shift(Xor(x, y)) == Xor(Shift(x), Shift(y))
  {
    ShiftIsHalf(x);
    ShiftIsHalf(y);
    ShiftIsHalf(Xor(x, y));
    HalfXor(x, y);
    LowBitXor(x, y);
    FeedbackXor(LowBit(x), LowBit(y));
    XorSwap(Half(x), Half(y), Feedback(LowBit(x)), Feedback(LowBit(y)));
    hide Shift, Xor, Half, LowBit, Feedback;
  }

  // ----- Eight steps move the high byte down unchanged -----

  function Down4(y: bv16): bv16 {
    y >> 4
  }

  lemma Shift4Upper(x: bv16, y: bv16)
    requires y & 0xF == 0
    ensures Shift4(Xor(x, y)) == Xor(Shift4(x), Down4(y))
  {
    Down4IsHalves(y);
    hide Shift, Xor, Half, LowBit, Down4;
    ShiftEven(x, y);
    ShiftEven(Shift(x), Half(y));
    ShiftEven(Shift(Shift(x)), Half(Half(y)));
    ShiftEven(Shift(Shift(Shift(x))), Half(Half(Half(y))));
  }

  lemma Down4IsHalves(y: bv16)
    requires y & 0xF == 0
    ensures Down4(y) == Half(Half(Half(Half(y))))
    ensures !LowBit(y) && !LowBit(Half(y)) && !LowBit(Half(Half(y))) && !LowBit(Half(Half(Half(y))))
  {
  }

  lemma Shift8Upper(x: bv16, high: bv8)
    ensures Shift8(Xor(x, Join(high, 0))) == Xor(Shift8(x), Join(0, high))
  {
    var y := Join(high, 0);
    assert y & 0xF == 0 && Down4(y) & 0xF == 0 && Down4(Down4(y)) == Join(0, high);
    hide Shift4, Xor, Down4, Join;
    Shift4Upper(x, y);
    Shift4Upper(Shift4(x), Down4(y));
  }

  // ----- The register is a bijection -----

  lemma UnshiftShift(c: bv16)
    ensures Unshift(Shift(c)) == c
  {
  }

  lemma ShiftUnshiftHigh(c: bv16)
    requires c & 0x8000 == 0x8000
    ensures Shift(((c ^ 0xA001) << 1) | 1) == c
  {
  }

  lemma ShiftUnshiftLow(c: bv16)
    requires c & 0x8000 == 0
    ensures Shift(c << 1) == c
  {
  }

  lemma ShiftUnshift(c: bv16)
    ensures Shift(Unshift(c)) == c
  {
    hide Shift;
    if c & 0x8000 == 0x8000 {
      ShiftUnshiftHigh(c);
    } else {
      ShiftUnshiftLow(c);
    }
  }

  lemma Unshift4Inverts(c: bv16)
    ensures Unshift4(Shift4(c)) == c
    ensures Shift4(Unshift4(c)) == c
  {
    hide Shift, Unshift;
    UnshiftShift(c);
    UnshiftShift(Shift(c));
    UnshiftShift(Shift(Shift(c)));
    UnshiftShift(Shift(Shift(Shift(c))));
    ShiftUnshift(c);
    ShiftUnshift(Unshift(c));
    ShiftUnshift(Unshift(Unshift(c)));
    ShiftUnshift(Unshift(Unshift(Unshift(c))));
  }

  lemma Unshift8Inverts(c: bv16)
    ensures Unshift8(Shift8(c)) == c
    ensures Shift8(Unshift8(c)) == c
  {
    hide Shift4, Unshift4;
    Unshift4Inverts(c);
    Unshift4Inverts(Shift4(c));
    Unshift4Inverts(Unshift4(c));
  }

  lemma Shift8Zero(c: bv16)
    ensures Shift8(c) == 0 <==> c == 0
  {
    assert Shift8(0) == 0;
    hide Shift8;
    Unshift8Inverts(c);
    Unshift8Inverts(0);
  }

  // ----- Single bits -----

  function Flag(b: bool): bv16 {
    if b then 1 else 0
  }

  /** Bit j of x, counted from the lowest. */
  predicate BitAt(x: bv16, j: nat) {
    if j == 0 then LowBit(x) else BitAt(Half(x), j - 1)
  }

  predicate TopBit(x: bv16) {
    x & 0x8000 == 0x8000
  }

  function Half5(x: bv16): bv16 {
    Half(Half(Half(Half(Half(x)))))
  }

  lemma BitAtHalf5(x: bv16, j: nat)
    ensures BitAt(x, j + 5) == BitAt(Half5(x), j)
  {
    hide Half, LowBit;
    var y := Half(Half(x));
    assert BitAt(x, j + 5) == BitAt(y, j + 3);
    assert BitAt(y, j + 3) == BitAt(Half(Half(y)), j + 1);
  }

  lemma TopBitIsBit15(x: bv16)
    ensures BitAt(x, 15) == TopBit(x)
  {
    RawTopBit(x);
    hide Half5, LowBit, TopBit, Half;
    BitAtHalf5(x, 10);
    BitAtHalf5(Half5(x), 5);
    BitAtHalf5(Half5(Half5(x)), 0);
  }

  lemma RawTopBit(x: bv16)
    ensures TopBit(x) == LowBit(Half5(Half5(Half5(x))))
  {
  }

  lemma TopBitOfShift(x: bv16)
    ensures TopBit(Shift(x)) == LowBit(x)
    ensures !LowBit(x) ==> Shift(x) == Half(x)
    ensures LowBit(x) ==> Shift(x) == Xor(Half(x), 0xA001)
    ensures !TopBit(Half(x))
  {
  }

  lemma FlagBits(c: bv16, b: bool)
    ensures Half(Xor(c, Flag(b))) == Half(c)
    ensures LowBit(Xor(c, Flag(b))) == (LowBit(c) != b)
  {
  }

  lemma FlagXor(a: bool, b: bool)
    ensures Flag(a != b) == Xor(Flag(a), Flag(b))
  {
  }

  lemma ZeroBits(j: nat)
    ensures !BitAt(0, j)
  {
  }

  /** Feeding a word is feeding its lowest bit, then the rest of the word. */
  lemma ShiftByLowBit(c: bv16, x: bv16)
    ensures Shift(Xor(c, x)) == Xor(Shift(Xor(c, Flag(LowBit(x)))), Half(x))
  {
    SplitLowBit(x);
    XorAssoc(c, Flag(LowBit(x)), Xor(x, Flag(LowBit(x))));
    ShiftEven(Xor(c, Flag(LowBit(x))), Xor(x, Flag(LowBit(x))));
    hide Xor, Shift, Flag, LowBit, Half;
  }

  lemma SplitLowBit(x: bv16)
    ensures x == Xor(Flag(LowBit(x)), Xor(x, Flag(LowBit(x))))
    ensures !LowBit(Xor(x, Flag(LowBit(x))))
    ensures Half(Xor(x, Flag(LowBit(x)))) == Half(x)
  {
  }

  lemma ShiftEven(c: bv16, y: bv16)
    requires !LowBit(y)
    ensures Shift(Xor(c, y)) == Xor(Shift(c), Half(y))
  {
    ShiftXor(c, y);
    TopBitOfShift(y);
    hide Xor, Shift, Half;
  }

  // ----- Parity of a word -----

  /** Whether the n lowest bits of x hold an odd number of ones. */
  predicate OddBits(x: bv16, n: nat) {
    n > 0 && LowBit(x) != OddBits(Half(x), n - 1)
  }

  predicate Odd(x: bv16) {
    OddBits(x, 16)
  }

  lemma {:induction false} OddBitsXor(x: bv16, y: bv16, n: nat)
    ensures OddBits(Xor(x, y), n) == (OddBits(x, n) != OddBits(y, n))
    decreases n
  {
    hide Xor, Half, LowBit;
    if n > 0 {
      HalfXor(x, y);
      LowBitXor(x, y);
      OddBitsXor(Half(x), Half(y), n - 1);
    }
  }

  lemma {:induction false} OddBitsSnoc(x: bv16, n: nat)
    ensures OddBits(x, n + 1) == (OddBits(x, n) != BitAt(x, n))
    decreases n
  {
    hide Half, LowBit;
    if n > 0 {
      OddBitsSnoc(Half(x), n - 1);
    }
  }

  lemma OddConstants()
    ensures Odd(0xA001) && !Odd(0xFFFF) && !Odd(0) && !Odd(Flag(false)) && Odd(Flag(true))
  {
    assert !OddBits(0, 3) && !OddBits(0, 4);
    assert !OddBits(0, 7) && !OddBits(0, 8);
    assert !OddBits(0, 11) && !OddBits(0, 12);
    assert !OddBits(0, 15);
    assert !OddBits(0x5, 3) && !OddBits(0xF, 4);
    assert !OddBits(0x50, 7) && !OddBits(0xFF, 8);
    assert !OddBits(0x500, 11) && !OddBits(0xFFF, 12);
    assert !OddBits(0x5000, 15);
  }

  /** A step keeps the parity: 0xA001 has three ones and replaces the one shifted out. */
  lemma ShiftKeepsParity(c: bv16)
    ensures Odd(Shift(c)) == Odd(c)
  {
    TopBitOfShift(c);
    hide Shift, Half, Xor, LowBit;
    TopBitIsBit15(Half(c));
    OddBitsSnoc(Half(c), 15);
    OddBitsXor(Half(c), 0xA001, 16);
    OddConstants();
    assert Odd(c) == (LowBit(c) != OddBits(Half(c), 15));
  }
}
