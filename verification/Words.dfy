/** Register words and coil bits as the byte payloads of a PDU. */
module Words {
  import opened Bytes

  // ----- 16-bit words, big-endian -----

  function WordBytes(ws: seq<uint16>): (r: seq<byte>)
    ensures |r| == 2 * |ws|
  {
    if ws == [] then [] else Put16(ws[0]) + WordBytes(ws[1..])
  }

  function BytesToWords(s: seq<byte>): (r: seq<uint16>)
    requires |s| % 2 == 0
    ensures |r| == |s| / 2
  {
    if s == [] then [] else [Get16(s, 0)] + BytesToWords(s[2..])
  }

  lemma {:induction false} WordBytesAt(ws: seq<uint16>, i: nat)
    requires i < |ws|
    ensures WordBytes(ws)[2 * i] == ws[i] / 0x100
    ensures WordBytes(ws)[2 * i + 1] == ws[i] % 0x100
    ensures Get16(WordBytes(ws), 2 * i) == ws[i]
  {
    if i > 0 {
      WordBytesAt(ws[1..], i - 1);
    }
  }

  lemma {:induction false} WordBytesConcat(a: seq<uint16>, b: seq<uint16>)
    ensures WordBytes(a + b) == WordBytes(a) + WordBytes(b)
  {
    if a == [] {
      assert a + b == b;
    } else {
      assert (a + b)[1..] == a[1..] + b;
      WordBytesConcat(a[1..], b);
    }
  }

  lemma WordBytesSplit(ws: seq<uint16>, i: nat)
    requires i <= |ws|
    ensures WordBytes(ws)[..2 * i] == WordBytes(ws[..i])
    ensures WordBytes(ws)[2 * i..] == WordBytes(ws[i..])
  {
    assert ws[..i] + ws[i..] == ws;
    WordBytesConcat(ws[..i], ws[i..]);
    hide WordBytes;
    TakeDrop(WordBytes(ws[..i]), WordBytes(ws[i..]));
  }

  lemma TakeDrop(a: seq<byte>, b: seq<byte>)
    ensures (a + b)[..|a|] == a && (a + b)[|a|..] == b
  {
  }

  lemma WordBytesSlice(ws: seq<uint16>, lo: nat, hi: nat)
    requires lo <= hi <= |ws|
    ensures WordBytes(ws)[2 * lo..2 * hi] == WordBytes(ws[lo..hi])
  {
    hide WordBytes;
    WordBytesSplit(ws, hi);
    WordBytesSplit(ws[..hi], lo);
    assert WordBytes(ws)[2 * lo..2 * hi] == WordBytes(ws)[..2 * hi][2 * lo..];
    assert ws[..hi][lo..] == ws[lo..hi];
  }

  lemma {:induction false} BytesToWordsAt(s: seq<byte>, i: nat)
    requires |s| % 2 == 0 && i < |s| / 2
    ensures BytesToWords(s)[i] == Get16(s, 2 * i)
    decreases |s|
  {
    if i > 0 {
      BytesToWordsAt(s[2..], i - 1);
    }
  }

  lemma {:induction false} BytesToWordsInverts(ws: seq<uint16>)
    ensures BytesToWords(WordBytes(ws)) == ws
  {
    if ws != [] {
      assert WordBytes(ws)[2..] == WordBytes(ws[1..]);
      BytesToWordsInverts(ws[1..]);
    }
  }

  lemma {:induction false} WordBytesInverts(s: seq<byte>)
    requires |s| % 2 == 0
    ensures WordBytes(BytesToWords(s)) == s
    decreases |s|
  {
    if s != [] {
      WordBytesInverts(s[2..]);
      Put16OfGet16(s, 0);
      assert s == s[0..2] + s[2..];
    }
  }

  // ----- Bits of a byte, lowest first -----

  predicate GetBit(b: nat, k: nat)
    decreases k
  {
    if k == 0 then b % 2 == 1 else GetBit(b / 2, k - 1)
  }

  /** b | (1 << k) */
  function SetBit(b: nat, k: nat): nat
    decreases k
  {
    if k == 0 then (if b % 2 == 1 then b else b + 1) else 2 * SetBit(b / 2, k - 1) + b % 2
  }

  lemma {:induction false} GetBitOfSetBit(b: nat, k: nat, j: nat)
    ensures GetBit(SetBit(b, k), j) == (j == k || GetBit(b, j))
    decreases k
  {
    if k > 0 && j > 0 {
      GetBitOfSetBit(b / 2, k - 1, j - 1);
    }
  }

  lemma {:induction false} SetBitBound(b: nat, k: nat, n: nat)
    requires k < n && b < Pow2(n)
    ensures SetBit(b, k) < Pow2(n)
    decreases k
  {
    assert Pow2(n) == 2 * Pow2(n - 1);
    hide Pow2;
    if k > 0 {
      SetBitBound(b / 2, k - 1, n - 1);
    }
  }

  lemma {:induction false} SameBits(a: nat, b: nat, n: nat)
    requires a < Pow2(n) && b < Pow2(n)
    requires forall k :: 0 <= k < n ==> GetBit(a, k) == GetBit(b, k)
    ensures a == b
  {
    if n > 0 {
      forall k | 0 <= k < n - 1
        ensures GetBit(a / 2, k) == GetBit(b / 2, k)
      {
        assert GetBit(a, k + 1) == GetBit(b, k + 1);
      }
      SameBits(a / 2, b / 2, n - 1);
      assert GetBit(a, 0) == GetBit(b, 0);
    }
  }

  // ----- Coil payloads: bit i of the list is bit i % 8 of byte i / 8 -----

  function BitsToNat(bits: seq<bool>): (n: nat)
    ensures n < Pow2(|bits|)
  {
    if bits == [] then 0 else (if bits[0] then 1 else 0) + 2 * BitsToNat(bits[1..])
  }

  lemma {:induction false} BitsToNatBit(bits: seq<bool>, k: nat)
    ensures GetBit(BitsToNat(bits), k) == (k < |bits| && bits[k])
    decreases k
  {
    if bits == [] {
      ZeroHasNoBits(k);
    } else if k > 0 {
      BitsToNatBit(bits[1..], k - 1);
    }
  }

  lemma {:induction false} ZeroHasNoBits(k: nat)
    ensures !GetBit(0, k)
  {
    if k > 0 {
      ZeroHasNoBits(k - 1);
    }
  }

  function CeilDiv8(n: nat): nat {
    (n + 7) / 8
  }

  lemma {:induction false} Pow2Monotone(m: nat, n: nat)
    requires m <= n
    ensures Pow2(m) <= Pow2(n)
    decreases n - m
  {
    if m < n {
      Pow2Monotone(m + 1, n);
    }
  }

  function PackByte(bits: seq<bool>): byte
    requires |bits| <= 8
  {
    Pow2Eight();
    Pow2Monotone(|bits|, 8);
    BitsToNat(bits)
  }

  /** Bits packed into bytes, padded with zeros. */
  function PackBits(bits: seq<bool>): (r: seq<byte>)
    ensures |r| == CeilDiv8(|bits|)
    decreases |bits|
  {
    if bits == [] then []
    else if |bits| <= 8 then [PackByte(bits)]
    else [PackByte(bits[..8])] + PackBits(bits[8..])
  }

  /** Bit j of a payload. */
  predicate PayloadBit(data: seq<byte>, j: nat)
    requires j < 8 * |data|
  {
    GetBit(data[j / 8], j % 8)
  }

  function UnpackBits(data: seq<byte>, n: nat): (r: seq<bool>)
    requires n <= 8 * |data|
    ensures |r| == n
  {
    seq(n, j requires 0 <= j < n => PayloadBit(data, j))
  }

  lemma {:induction false} PackBitsAt(bits: seq<bool>, j: nat)
    requires j < 8 * CeilDiv8(|bits|)
    ensures PayloadBit(PackBits(bits), j) == (j < |bits| && bits[j])
    decreases |bits|
  {
    if |bits| <= 8 {
      BitsToNatBit(bits, j);
    } else if j < 8 {
      BitsToNatBit(bits[..8], j);
    } else {
      PackBitsAt(bits[8..], j - 8);
      assert PackBits(bits)[j / 8] == PackBits(bits[8..])[(j - 8) / 8];
    }
  }

  lemma UnpackOfPack(bits: seq<bool>)
    ensures UnpackBits(PackBits(bits), |bits|) == bits
  {
    forall j | 0 <= j < |bits|
      ensures UnpackBits(PackBits(bits), |bits|)[j] == bits[j]
    {
      PackBitsAt(bits, j);
    }
  }

  /** A payload is determined by its bits. */
  lemma PayloadBitsDetermine(a: seq<byte>, b: seq<byte>)
    requires |a| == |b|
    requires forall j :: 0 <= j < 8 * |a| ==> PayloadBit(a, j) == PayloadBit(b, j)
    ensures a == b
  {
    forall i | 0 <= i < |a|
      ensures a[i] == b[i]
    {
      Pow2Eight();
      forall k | 0 <= k < 8
        ensures GetBit(a[i], k) == GetBit(b[i], k)
      {
        assert PayloadBit(a, 8 * i + k) == PayloadBit(b, 8 * i + k);
      }
      SameBits(a[i], b[i], 8);
    }
  }
}
