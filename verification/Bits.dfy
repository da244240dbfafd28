/** Fixed-width words, their little-endian byte layout, bitwise AND/XOR, the bit and byte
    swaps of libRSU_misc.c and the CRC-32 (clause 3.2.9 of IEEE 802.3).

    Bytes and words are bounded integers; wrap-around is always written out. */
module Bits {

  type byte = b: int | 0 <= b < 0x100
  type u32 = w: int | 0 <= w < 0x1_0000_0000
  type u64 = w: int | 0 <= w < 0x1_0000_0000_0000_0000

  const U64_MOD: int := 0x1_0000_0000_0000_0000

  // ---- bitwise operations on naturals of any width ----

  function And(a: nat, b: nat): (r: nat)
    ensures r <= a && r <= b
  {
    if a == 0 || b == 0 then 0
    else (if a % 2 == 1 && b % 2 == 1 then 1 else 0) + 2 * And(a / 2, b / 2)
  }

  function Pow2(k: nat): (p: nat)
    ensures p >= 1
  {
    if k == 0 then 1 else 2 * Pow2(k - 1)
  }

  function Xor(a: nat, b: nat, k: nat): (r: nat)
    ensures r < Pow2(k)
  {
    if k == 0 then 0
    else (if a % 2 != b % 2 then 1 else 0) + 2 * Xor(a / 2, b / 2, k - 1)
  }

  lemma {:induction false} AndSelf(a: nat)
    ensures And(a, a) == a
  {
    if a != 0 { AndSelf(a / 2); }
  }

  lemma {:induction false} AndOnes(k: nat, a: nat)
    requires a < Pow2(k)
    ensures And(Pow2(k) - 1, a) == a
  {
    if a != 0 {
      assert (Pow2(k) - 1) / 2 == Pow2(k - 1) - 1;
      AndOnes(k - 1, a / 2);
    }
  }

  lemma AndFF(a: byte)
    ensures And(0xFF, a) == a
  {
    assert Pow2(8) == 0x100;
    AndOnes(8, a);
  }

  lemma AndZero(a: nat)
    ensures And(a, 0) == 0 && And(0, a) == 0
  {
  }

  lemma {:induction false} AndComm(a: nat, b: nat)
    ensures And(a, b) == And(b, a)
  {
    if a != 0 && b != 0 { AndComm(a / 2, b / 2); }
  }

  lemma {:induction false} AndAssoc(a: nat, b: nat, c: nat)
    ensures And(And(a, b), c) == And(a, And(b, c))
    decreases a
  {
    if a != 0 && b != 0 && c != 0 {
      AndAssoc(a / 2, b / 2, c / 2);
      assert And(a, b) / 2 == And(a / 2, b / 2) && And(b, c) / 2 == And(b / 2, c / 2);
    }
  }

  // The low k bits of n, and the rest.
  function Low(n: nat, k: nat): nat {
    if k == 0 then 0 else n % 2 + 2 * Low(n / 2, k - 1)
  }

  function Shr(n: nat, k: nat): nat {
    if k == 0 then n else Shr(n / 2, k - 1)
  }

  // AND acts on the low k bits and on the rest independently.
  lemma {:induction false} AndSplit(a: nat, b: nat, k: nat)
    ensures Shr(And(a, b), k) == And(Shr(a, k), Shr(b, k))
    ensures Low(And(a, b), k) == And(Low(a, k), Low(b, k))
  {
    hide And;
    if k > 0 {
      AndSplit(a / 2, b / 2, k - 1);
      AndHalves(a, b);
      AndHalves(Low(a, k), Low(b, k));
      assert Low(a, k) / 2 == Low(a / 2, k - 1) && Low(b, k) / 2 == Low(b / 2, k - 1);
    } else {
      AndZero(0);
    }
  }

  lemma AndHalves(a: nat, b: nat)
    ensures And(a, b) == (if a % 2 == 1 && b % 2 == 1 then 1 else 0) + 2 * And(a / 2, b / 2)
  {
  }

  lemma AndDoubled(x: nat, y: nat)
    ensures And(2 * x, 2 * y) == 2 * And(x, y)
  {
  }

  lemma {:induction false} AndScaled(a: nat, b: nat, k: nat)
    ensures And(a * Pow2(k), b * Pow2(k)) == And(a, b) * Pow2(k)
  {
    if k > 0 {
      hide And;
      AndScaled(a, b, k - 1);
      DoubledProduct(a, Pow2(k - 1));
      DoubledProduct(b, Pow2(k - 1));
      DoubledProduct(And(a, b), Pow2(k - 1));
      AndDoubled(a * Pow2(k - 1), b * Pow2(k - 1));
    }
  }

  lemma DoubledProduct(a: nat, p: nat)
    ensures a * (2 * p) == 2 * (a * p)
  {
  }

  function Or(a: nat, b: nat): nat {
    if a == 0 then b else if b == 0 then a
    else (if a % 2 == 1 || b % 2 == 1 then 1 else 0) + 2 * Or(a / 2, b / 2)
  }

  lemma {:induction false} OrDisjoint(a: nat, b: nat)
    requires And(a, b) == 0
    ensures Or(a, b) == a + b
  {
    if a != 0 && b != 0 { OrDisjoint(a / 2, b / 2); }
  }

  // n is its low k bits and the rest.
  lemma {:induction false} LowShr(n: nat, k: nat)
    ensures n == Low(n, k) + Pow2(k) * Shr(n, k) && Low(n, k) < Pow2(k)
  {
    if k > 0 {
      LowShr(n / 2, k - 1);
      Twice(Pow2(k - 1), Shr(n / 2, k - 1));
    }
  }

  lemma Twice(p: nat, s: nat)
    ensures 2 * p * s == 2 * (p * s)
  {
  }

  lemma TwoBits(n: nat, k: nat)
    ensures Low(n, k + 2) == n % 4 + 4 * Low(n / 4, k) && Shr(n, k + 2) == Shr(n / 4, k)
  {
    assert n / 2 / 2 == n / 4;
    assert Low(n, k + 2) == n % 2 + 2 * Low(n / 2, k + 1);
  }

  lemma FourBits(n: nat, k: nat)
    ensures Low(n, k + 4) == n % 16 + 16 * Low(n / 16, k) && Shr(n, k + 4) == Shr(n / 16, k)
  {
    TwoBits(n, k + 2);
    TwoBits(n / 4, k);
    assert n / 4 / 4 == n / 16;
  }

  lemma ByteOf(n: nat)
    ensures Low(n, 8) == n % 0x100 && Shr(n, 8) == n / 0x100
  {
    FourBits(n, 4);
    FourBits(n / 16, 0);
    assert n / 16 / 16 == n / 0x100;
  }

  // ---- little-endian layout ----

  function Pow256(k: nat): (p: nat)
    ensures p >= 1
  {
    if k == 0 then 1 else 0x100 * Pow256(k - 1)
  }

  function LE(n: nat, k: nat): (s: seq<byte>)
    ensures |s| == k
  {
    if k == 0 then [] else [n % 0x100] + LE(n / 0x100, k - 1)
  }

  function FromLE(s: seq<byte>): (n: nat)
    ensures n < Pow256(|s|)
  {
    if |s| == 0 then 0 else s[0] + 0x100 * FromLE(s[1..])
  }

  lemma {:induction false} FromToLE(n: nat, k: nat)
    requires n < Pow256(k)
    ensures FromLE(LE(n, k)) == n
  {
    if k > 0 {
      FromToLE(n / 0x100, k - 1);
      assert LE(n, k)[1..] == LE(n / 0x100, k - 1);
    }
  }

  lemma {:induction false} ToFromLE(s: seq<byte>)
    ensures LE(FromLE(s), |s|) == s
  {
    if |s| > 0 {
      ToFromLE(s[1..]);
      assert FromLE(s) % 0x100 == s[0] && FromLE(s) / 0x100 == FromLE(s[1..]);
    }
  }

  /** Byte i is the digit of 256 to the i: the lowest byte comes first. */
  lemma {:induction false} LEDigits(n: nat, k: nat, i: nat)
    requires i < k
    ensures LE(n, k)[i] == n / Pow256(i) % 0x100
  {
    if i > 0 {
      LEDigits(n / 0x100, k - 1, i - 1);
      DivTwice(n, Pow256(i - 1));
    }
  }

  lemma DivTwice(n: nat, p: nat)
    requires p > 0
    ensures n / 0x100 / p == n / (0x100 * p)
  {
    var q, r := n / 0x100 / p, n / 0x100 % p;
    assert n / 0x100 == p * q + r;
    assert 0x100 * (p * q) == q * (0x100 * p);
    QuotientIs(n, 0x100 * p, q, 0x100 * r + n % 0x100);
  }

  lemma AtLeastOnce(k: int, d: nat)
    requires k >= 1
    ensures k * d >= d
  {
    assert (k - 1) * d >= 0;
  }

  lemma Division(n: nat, d: nat)
    requires d > 0
    ensures n == (n / d) * d + n % d && n % d < d && n / d >= 0
  {
  }

  lemma QuotientIs(n: nat, d: nat, q: nat, r: nat)
    requires n == q * d + r && r < d
    ensures n / d == q
  {
    Division(n, d);
    var p, s := n / d, n % d;
    SameQuotient(p, s, q, r, d);
  }

  lemma SameQuotient(p: nat, s: nat, q: nat, r: nat, d: nat)
    requires p * d + s == q * d + r && s < d && r < d
    ensures p == q
  {
    assert (p - q) * d == r - s;
    if p > q {
      AtLeastOnce(p - q, d);
    } else if q > p {
      AtLeastOnce(q - p, d);
    }
  }

  lemma WordBounds()
    ensures Pow256(4) == 0x1_0000_0000 && Pow256(8) == U64_MOD
  {
    assert Pow256(2) == 0x1_0000;
    assert Pow256(4) == 0x1_0000_0000;
    assert Pow256(6) == 0x1_0000_0000_0000;
  }

  function FromLE32(s: seq<byte>): (w: u32)
    requires |s| == 4
  {
    WordBounds(); FromLE(s)
  }

  function FromLE64(s: seq<byte>): (w: u64)
    requires |s| == 8
  {
    WordBounds(); FromLE(s)
  }

  lemma LE64RoundTrip(w: u64)
    ensures FromLE64(LE(w, 8)) == w
  {
    WordBounds();
    FromToLE(w, 8);
  }

  lemma LE32RoundTrip(w: u32)
    ensures FromLE32(LE(w, 4)) == w
  {
    WordBounds();
    FromToLE(w, 4);
  }

  // Programming a word byte by byte is a word-wide AND.
  lemma {:induction false} AndLE(a: nat, b: nat, k: nat)
    ensures forall i :: 0 <= i < k ==> And(LE(a, k)[i], LE(b, k)[i]) == LE(And(a, b), k)[i]
  {
    if k > 0 {
      AndSplit(a, b, 8);
      ByteOf(a);
      ByteOf(b);
      ByteOf(And(a, b));
      AndLE(a / 0x100, b / 0x100, k - 1);
    }
  }

  // ---- swap_bits and swap_endian32 ----

  // tmp collects the low bits of b, first bit highest, n times.
  function RevBits(b: nat, n: nat, tmp: nat): nat
    decreases n
  {
    if n == 0 then tmp else RevBits(b / 2, n - 1, 2 * tmp + b % 2)
  }

  function BitsOf(b: nat, n: nat): (s: seq<bool>)
    ensures |s| == n
  {
    if n == 0 then [] else [b % 2 == 1] + BitsOf(b / 2, n - 1)
  }

  function Val(s: seq<bool>): (v: nat)
    ensures v < Pow2(|s|)
  {
    if |s| == 0 then 0 else (if s[0] then 1 else 0) + 2 * Val(s[1..])
  }

  function Rev(s: seq<bool>): (r: seq<bool>)
    ensures |r| == |s|
  {
    if |s| == 0 then [] else Rev(s[1..]) + [s[0]]
  }

  lemma {:induction false} RevSnoc(s: seq<bool>, x: bool)
    ensures Rev(s + [x]) == [x] + Rev(s)
  {
    if |s| == 0 {
      assert s + [x] == [x];
    } else {
      assert (s + [x])[1..] == s[1..] + [x];
      RevSnoc(s[1..], x);
    }
  }

  lemma {:induction false} RevRev(s: seq<bool>)
    ensures Rev(Rev(s)) == s
  {
    if |s| > 0 {
      RevRev(s[1..]);
      RevSnoc(Rev(s[1..]), s[0]);
    }
  }

  lemma {:induction false} RevBitsIsRev(b: nat, n: nat, acc: seq<bool>)
    ensures RevBits(b, n, Val(acc)) == Val(Rev(BitsOf(b, n)) + acc)
  {
    var s := BitsOf(b, n);
    if n == 0 {
      assert Rev(s) + acc == acc;
    } else {
      assert s[1..] == BitsOf(b / 2, n - 1);
      var acc' := [s[0]] + acc;
      assert acc'[1..] == acc;
      RevBitsIsRev(b / 2, n - 1, acc');
      assert Rev(s) + acc == Rev(s[1..]) + acc';
    }
  }

  lemma {:induction false} BitsVal(s: seq<bool>)
    ensures BitsOf(Val(s), |s|) == s
  {
    if |s| > 0 {
      BitsVal(s[1..]);
      assert Val(s) / 2 == Val(s[1..]);
    }
  }

  lemma {:induction false} ValBits(b: nat, n: nat)
    requires b < Pow2(n)
    ensures Val(BitsOf(b, n)) == b
  {
    if n > 0 {
      ValBits(b / 2, n - 1);
      assert BitsOf(b, n)[1..] == BitsOf(b / 2, n - 1);
    }
  }

  lemma SwapByteIsRev(b: byte)
    ensures RevBits(b, 8, 0) == Val(Rev(BitsOf(b, 8))) < 0x100
  {
    assert Pow2(8) == 0x100;
    RevBitsIsRev(b, 8, []);
    assert Rev(BitsOf(b, 8)) + [] == Rev(BitsOf(b, 8));
  }

  function SwapByte(b: byte): (r: byte) {
    SwapByteIsRev(b); RevBits(b, 8, 0)
  }

  lemma SwapByteInvolution(b: byte)
    ensures SwapByte(SwapByte(b)) == b
  {
    assert Pow2(8) == 0x100;
    var s := BitsOf(b, 8);
    SwapByteIsRev(b);
    SwapByteIsRev(SwapByte(b));
    BitsVal(Rev(s));
    RevRev(s);
    ValBits(b, 8);
  }

  function SwapSeq(s: seq<byte>): (r: seq<byte>)
    ensures |r| == |s|
  {
    seq(|s|, i requires 0 <= i < |s| => SwapByte(s[i]))
  }

  lemma SwapSeqInvolution(s: seq<byte>)
    ensures SwapSeq(SwapSeq(s)) == s
  {
    forall i | 0 <= i < |s| ensures SwapSeq(SwapSeq(s))[i] == s[i] {
      SwapByteInvolution(s[i]);
    }
  }

  // The in-place bit swap of a buffer, as the C loops do it.
  method SwapBits(data: array<byte>, len: nat)
    requires len <= data.Length
    modifies data
    ensures data[..] == SwapSeq(old(data[..len])) + old(data[len..])
  {
    for x := 0 to len
      invariant forall i :: 0 <= i < x ==> data[i] == SwapByte(old(data[i]))
      invariant forall i :: x <= i < data.Length ==> data[i] == old(data[i])
    {
      var tmp: nat, v: nat := 0, data[x];
      for y := 0 to 8
        invariant RevBits(v, 8 - y, tmp) == RevBits(data[x], 8, 0)
      {
        tmp := 2 * tmp + v % 2;
        v := v / 2;
      }
      assert tmp == SwapByte(data[x]);
      data[x] := tmp;
    }
  }

  function Reverse4(s: seq<byte>): (r: seq<byte>)
    requires |s| == 4
    ensures |r| == 4
  {
    [s[3], s[2], s[1], s[0]]
  }

  function SwapEndian32(w: u32): u32 {
    FromLE32(Reverse4(LE(w, 4)))
  }

  /** The bytes of a swapped word are those of the word in reverse order; swapping twice gives it back. */
  lemma SwapEndian32Involution(w: u32)
    ensures SwapEndian32(SwapEndian32(w)) == w
    ensures forall i :: 0 <= i < 4 ==> LE(SwapEndian32(w), 4)[i] == LE(w, 4)[3 - i]
  {
    var s := LE(w, 4);
    ToFromLE(Reverse4(s));
    assert Reverse4(Reverse4(s)) == s;
    LE32RoundTrip(w);
  }

  // memcpy
  method PutBytes(block: array<byte>, at: nat, w: seq<byte>)
    requires at + |w| <= block.Length
    modifies block
    ensures block[..] == old(block[..at]) + w + old(block[at + |w|..])
  {
    ghost var before := block[..];
    for i := 0 to |w|
      invariant forall k :: 0 <= k < block.Length ==> block[k] == if at <= k < at + i then w[k - at] else before[k]
    {
      block[at + i] := w[i];
    }
    assert block[..] == before[..at] + w + before[at + |w|..];
  }

  // ---- CRC-32, reflected, as zlib and Zephyr's crc32_ieee compute it ----

  lemma Pow2_32()
    ensures Pow2(32) == 0x1_0000_0000
  {
    assert Pow2(8) == 0x100;
    assert Pow2(16) == 0x1_0000;
    assert Pow2(24) == 0x100_0000;
  }

  lemma Pow2_64()
    ensures Pow2(64) == U64_MOD
  {
    Pow2_32();
    assert Pow2(40) == 0x100_0000_0000;
    assert Pow2(48) == 0x1_0000_0000_0000;
    assert Pow2(56) == 0x100_0000_0000_0000;
  }

  function CrcShift(c: u32, n: nat): u32
    decreases n
  {
    if n == 0 then c
    else Pow2_32(); CrcShift(if c % 2 == 1 then Xor(c / 2, 0xEDB88320, 32) else c / 2, n - 1)
  }

  function CrcUpdate(data: seq<byte>): u32 {
    if |data| == 0 then 0xFFFF_FFFF
    else Pow2_32(); CrcShift(Xor(CrcUpdate(data[..|data| - 1]), data[|data| - 1], 32), 8)
  }

  function Crc32(data: seq<byte>): u32 {
    0xFFFF_FFFF - CrcUpdate(data)
  }
}
