/** What the CRC-32 of clause 3.2.9 of IEEE 802.3 is, and what it detects: the function of `Bits`, which works on
    a reflected register byte by byte, is the complemented remainder of the message polynomial by the generator,
    and two messages that differ within 32 bits never have the same one. */
module Crc {
  import opened Bits

  // ---- polynomials over two elements: the coefficients, highest power first ----

  type Poly = seq<bool>

  function Zero(n: nat): (p: Poly)
    ensures |p| == n
  {
    seq(n, _ => false)
  }

  function Sum(p: Poly, q: Poly): (r: Poly)
    requires |p| == |q|
    ensures |r| == |p|
  {
    seq(|p|, i requires 0 <= i < |p| => p[i] != q[i])
  }

  // the generator, as the powers of x that clause 3.2.9 lists
  predicate InGenerator(power: int) {
    power in {32, 26, 23, 22, 16, 12, 11, 10, 8, 7, 5, 4, 2, 1, 0}
  }

  function Generator(): (g: Poly)
    ensures |g| == 33
  {
    seq(33, i => InGenerator(32 - i))
  }

  // q times the generator
  function Multiple(q: Poly): (p: Poly)
    ensures |p| == |q| + 32
  {
    if |q| == 0 then Zero(32)
    else Sum((if q[0] then Generator() else Zero(33)) + Zero(|q| - 1), [false] + Multiple(q[1..]))
  }

  /** r is the remainder of p by the generator: p is a multiple of it plus r, which has degree below 32. */
  ghost predicate Remainder(p: Poly, r: Poly) {
    |r| == 32 && exists q: Poly :: |q| + 32 == |p| && p == Sum(Multiple(q), Zero(|q|) + r)
  }

  lemma SumLaws(a: Poly, b: Poly, c: Poly)
    requires |a| == |b| == |c|
    ensures Sum(a, Sum(b, c)) == Sum(Sum(a, b), c)
    ensures Sum(a, b) == Sum(b, a) && Sum(a, a) == Zero(|a|) && Sum(a, Zero(|a|)) == a
  {
  }

  // ---- there is exactly one remainder ----

  // A multiple plus a remainder has the leading coefficient of the factor.
  lemma Leading(q: Poly, r: Poly)
    requires |q| > 0 && |r| == 32
    ensures Sum(Multiple(q), Zero(|q|) + r)[0] == q[0]
  {
  }

  lemma SumTail(p: Poly, q: Poly)
    requires |p| == |q|
    ensures Sum([false] + p, [false] + q) == [false] + Sum(p, q)
  {
  }

  lemma Shorter(q: Poly, r: Poly)
    requires |q| > 0 && |r| == 32
    ensures Sum(Multiple(q), Zero(|q|) + r) ==
      Sum((if q[0] then Generator() else Zero(33)) + Zero(|q| - 1),
          [false] + Sum(Multiple(q[1..]), Zero(|q| - 1) + r))
  {
    hide Generator, Sum, Zero;
    ZeroSplit(|q|, r);
    Regroup((if q[0] then Generator() else Zero(33)) + Zero(|q| - 1), Multiple(q[1..]), Zero(|q| - 1) + r);
  }

  lemma ZeroSplit(n: nat, r: Poly)
    requires n > 0
    ensures Zero(n) + r == [false] + (Zero(n - 1) + r)
  {
  }

  lemma Regroup(lead: Poly, m: Poly, z: Poly)
    requires |lead| == |m| + 1 == |z| + 1
    ensures Sum(Sum(lead, [false] + m), [false] + z) == Sum(lead, [false] + Sum(m, z))
  {
    hide Sum;
    SumTail(m, z);
    SumLaws(lead, [false] + m, [false] + z);
  }

  lemma Cancel(a: Poly, b: Poly, c: Poly)
    requires |a| == |b| == |c| && Sum(a, b) == Sum(a, c)
    ensures b == c
  {
    forall i | 0 <= i < |b| ensures b[i] == c[i] {
      assert Sum(a, b)[i] == Sum(a, c)[i];
    }
  }

  lemma {:induction false} UniqueQuotient(q: Poly, r: Poly, q': Poly, r': Poly)
    requires |r| == |r'| == 32 && |q| == |q'|
    requires Sum(Multiple(q), Zero(|q|) + r) == Sum(Multiple(q'), Zero(|q|) + r')
    ensures q == q' && r == r'
  {
    hide Generator;
    if |q| == 0 {
      assert Zero(0) + r == r && Zero(0) + r' == r';
      Cancel(Zero(32), r, r');
    } else {
      hide Multiple;
      Leading(q, r);
      Leading(q', r');
      Shorter(q, r);
      Shorter(q', r');
      var a, a' := Sum(Multiple(q[1..]), Zero(|q| - 1) + r), Sum(Multiple(q'[1..]), Zero(|q| - 1) + r');
      Cancel((if q[0] then Generator() else Zero(33)) + Zero(|q| - 1), [false] + a, [false] + a');
      assert a == ([false] + a)[1..] && a' == ([false] + a')[1..];
      UniqueQuotient(q[1..], r, q'[1..], r');
    }
  }

  /** No polynomial has two remainders. */
  lemma OneRemainder(p: Poly, r: Poly, r': Poly)
    requires Remainder(p, r) && Remainder(p, r')
    ensures r == r'
  {
    hide Multiple;
    var q: Poly :| |q| + 32 == |p| && p == Sum(Multiple(q), Zero(|q|) + r);
    var q': Poly :| |q'| + 32 == |p| && p == Sum(Multiple(q'), Zero(|q'|) + r');
    UniqueQuotient(q, r, q', r');
  }

  // ---- the register, one message bit at a time ----

  // Bit i of the register is the coefficient of x to the 31 - i.
  type Register = s: seq<bool> | |s| == 32 witness Zero(32)

  // the generator without its leading term
  function Taps(): Register {
    Generator()[1..]
  }

  function Shift(c: Register, feed: bool): Register {
    seq(32, i requires 0 <= i < 32 => (i < 31 && c[i + 1]) != (feed && Taps()[i]))
  }

  function Step(c: Register, bit: bool): Register {
    Shift(c, c[0] != bit)
  }

  function Run(c: Register, m: seq<bool>): Register
    decreases |m|
  {
    if |m| == 0 then c else Run(Step(c, m[0]), m[1..])
  }

  lemma {:induction false} RunConcat(c: Register, m: seq<bool>, n: seq<bool>)
    ensures Run(c, m + n) == Run(Run(c, m), n)
    decreases |m|
  {
    hide Step;
    if |m| == 0 {
      assert m + n == n;
    } else {
      assert (m + n)[1..] == m[1..] + n;
      RunConcat(Step(c, m[0]), m[1..], n);
    }
  }

  // the register added to the first 32 coefficients of the message, with 32 zeros behind it
  function Dividend(c: Register, m: seq<bool>): (p: Poly)
    ensures |p| == |m| + 32
  {
    Sum(m + Zero(32), c + Zero(|m|))
  }

  // One bit of the message is one step of the division.
  lemma DivisionStep(c: Register, m: seq<bool>)
    requires |m| > 0
    ensures Dividend(c, m) == Sum((if c[0] != m[0] then Generator() else Zero(33)) + Zero(|m| - 1),
                                  [false] + Dividend(Step(c, m[0]), m[1..]))
  {
    hide InGenerator;
    var f := c[0] != m[0];
    var d, t := Dividend(c, m), Dividend(Step(c, m[0]), m[1..]);
    var g := (if f then Generator() else Zero(33)) + Zero(|m| - 1);
    LeadingTerm();
    forall i | 0 <= i < |d| ensures d[i] == (g[i] != ([false] + t)[i]) {
      if 0 < i <= 32 {
        assert g[i] == (f && Taps()[i - 1]);
        assert ([false] + t)[i] == ((m[1..] + Zero(32))[i - 1] != Step(c, m[0])[i - 1]);
      }
    }
  }

  lemma LeadingTerm()
    ensures Generator()[0]
  {
  }

  /** Shifting the message through the register divides: what is left is the remainder. */
  lemma {:induction false} RunDivides(c: Register, m: seq<bool>)
    ensures Remainder(Dividend(c, m), Run(c, m))
    decreases |m|
  {
    hide Step, Generator, Multiple, Dividend;
    if |m| == 0 {
      NoMessage(c);
    } else {
      RunDivides(Step(c, m[0]), m[1..]);
      var p := Dividend(Step(c, m[0]), m[1..]);
      var q: Poly :| |q| + 32 == |p| && p == Sum(Multiple(q), Zero(|q|) + Run(c, m));
      DivisionStep(c, m);
      NextDigit([c[0] != m[0]] + q, Run(c, m));
    }
  }

  lemma NextDigit(q: Poly, r: Poly)
    requires |q| > 0 && |r| == 32
    ensures Remainder(Sum((if q[0] then Generator() else Zero(33)) + Zero(|q| - 1),
                          [false] + Sum(Multiple(q[1..]), Zero(|q| - 1) + r)), r)
  {
    hide Generator, Multiple;
    Shorter(q, r);
  }

  lemma NoMessage(c: Register)
    ensures Remainder(Dividend(c, []), c)
  {
    var q: Poly := [];
    assert Dividend(c, []) == c;
    assert Sum(Multiple(q), Zero(0) + c) == c;
  }

  // ---- the register as a number ----

  lemma {:induction false} BitOf(n: nat, k: nat, i: nat)
    requires i < k
    ensures BitsOf(n, k)[i] == (Shr(n, i) % 2 == 1)
  {
    if i > 0 { BitOf(n / 2, k - 1, i - 1); }
  }

  lemma {:induction false} ShrSmall(n: nat, k: nat)
    requires n < Pow2(k)
    ensures Shr(n, k) == 0
  {
    if k > 0 { ShrSmall(n / 2, k - 1); }
  }

  // Halving drops the first bit.
  lemma HalfBits(n: nat, i: nat)
    requires n < Pow2(32) && i < 32
    ensures BitsOf(n / 2, 32)[i] == (i < 31 && BitsOf(n, 32)[i + 1])
  {
    hide BitsOf;
    BitOf(n / 2, 32, i);
    assert Shr(n / 2, i) == Shr(n, i + 1);
    if i < 31 {
      BitOf(n, 32, i + 1);
    } else {
      ShrSmall(n, 32);
    }
  }

  lemma {:induction false} XorBits(a: nat, b: nat, k: nat)
    ensures forall i :: 0 <= i < k ==> BitsOf(Xor(a, b, k), k)[i] == (BitsOf(a, k)[i] != BitsOf(b, k)[i])
  {
    if k > 0 {
      XorBits(a / 2, b / 2, k - 1);
      var x := Xor(a, b, k);
      assert x / 2 == Xor(a / 2, b / 2, k - 1) && (x % 2 == 1 <==> a % 2 != b % 2);
    }
  }

  lemma {:induction false} BitsSplit(n: nat, a: nat, k: nat)
    ensures BitsOf(n, a + k) == BitsOf(Low(n, a), a) + BitsOf(Shr(n, a), k)
  {
    if a > 0 {
      BitsSplit(n / 2, a - 1, k);
      assert Low(n, a) / 2 == Low(n / 2, a - 1) && Low(n, a) % 2 == n % 2;
    } else {
      assert BitsOf(Low(n, a), a) == [];
    }
  }

  // A word's bits are those of its bytes, low byte first.
  lemma ByteBits(n: nat, k: nat)
    ensures BitsOf(n, k + 8) == BitsOf(n % 0x100, 8) + BitsOf(n / 0x100, k)
  {
    ByteOf(n);
    BitsSplit(n, 8, k);
  }

  // eight coefficients of the generator, from x to the n downwards
  lemma Coefficients(n: nat)
    requires 8 * n < 32
    ensures Taps()[8 * n..8 * n + 8] == BitsOf(TapsByte(n), 8)
  {
    hide InGenerator, BitsOf;
    var t := Taps()[8 * n..8 * n + 8];
    ByteIs(n);
    forall i | 0 <= i < 8 ensures t[i] == InGenerator(31 - 8 * n - i) {
      assert t[i] == Generator()[8 * n + i + 1];
    }
    PowersIn(n);
  }

  function TapsByte(n: nat): byte {
    if n == 0 then 0x20 else if n == 1 then 0x83 else if n == 2 then 0xB8 else 0xED
  }

  function TapsBits(n: nat): (r: seq<bool>)
    ensures |r| == 8
  {
    if n == 0 then [false, false, false, false, false, true, false, false]
    else if n == 1 then [true, true, false, false, false, false, false, true]
    else if n == 2 then [false, false, false, true, true, true, false, true]
    else [true, false, true, true, false, true, true, true]
  }

  lemma ByteIs(n: nat)
    requires n < 4
    ensures BitsOf(TapsByte(n), 8) == TapsBits(n)
  {
    ByteDigits(TapsByte(n));
  }

  lemma TwoDigits(n: nat, k: nat)
    ensures BitsOf(n, k + 2) == [n % 2 == 1, n / 2 % 2 == 1] + BitsOf(n / 4, k)
  {
    assert n / 2 / 2 == n / 4;
    assert BitsOf(n, k + 2)[1..] == BitsOf(n / 2, k + 1);
  }

  lemma ByteDigits(b: byte)
    ensures BitsOf(b, 8) == [b % 2 == 1, b / 2 % 2 == 1] + ([b / 4 % 2 == 1, b / 4 / 2 % 2 == 1]
      + ([b / 16 % 2 == 1, b / 16 / 2 % 2 == 1] + [b / 64 % 2 == 1, b / 64 / 2 % 2 == 1]))
  {
    hide BitsOf;
    TwoDigits(b, 6);
    TwoDigits(b / 4, 4);
    TwoDigits(b / 16, 2);
    TwoDigits(b / 64, 0);
    assert b / 4 / 4 == b / 16 && b / 16 / 4 == b / 64;
    NoDigits(b / 64 / 4);
  }

  lemma NoDigits(n: nat)
    ensures BitsOf(n, 0) == []
  {
  }

  lemma PowersIn(n: nat)
    requires n < 4
    ensures forall i :: 0 <= i < 8 ==> InGenerator(31 - 8 * n - i) == TapsBits(n)[i]
  {
  }

  // The constant of the reflected algorithm is the generator.
  lemma TapsWord()
    ensures BitsOf(0xEDB88320, 32) == Taps()
  {
    hide BitsOf, Taps;
    ByteBits(0xEDB88320, 24);
    ByteBits(0xEDB883, 16);
    ByteBits(0xEDB8, 8);
    Coefficients(0);
    Coefficients(1);
    Coefficients(2);
    Coefficients(3);
    var t := Taps();
    assert t == t[..8] + (t[8..16] + (t[16..24] + t[24..]));
  }

  function Bits32(c: u32): Register {
    BitsOf(c, 32)
  }

  lemma ShiftWord(c: u32)
    ensures Pow2(32) == 0x1_0000_0000
    ensures var d: u32 := if c % 2 == 1 then Xor(c / 2, 0xEDB88320, 32) else c / 2;
      Bits32(d) == Shift(Bits32(c), c % 2 == 1)
  {
    hide Taps, Xor, BitsOf, Pow2;
    Pow2_32();
    TapsWord();
    XorBits(c / 2, 0xEDB88320, 32);
    forall i | 0 <= i < 32 ensures BitsOf(c / 2, 32)[i] == (i < 31 && Bits32(c)[i + 1]) {
      HalfBits(c, i);
    }
  }

  lemma {:induction false} ShiftsAreRun(c: u32, n: nat)
    ensures Bits32(CrcShift(c, n)) == Run(Bits32(c), Zero(n))
    decreases n
  {
    hide Shift, Xor;
    if n > 0 {
      ShiftWord(c);
      var d: u32 := if c % 2 == 1 then Xor(c / 2, 0xEDB88320, 32) else c / 2;
      FirstBit(c);
      assert Zero(n)[1..] == Zero(n - 1);
      ShiftsAreRun(d, n - 1);
    }
  }

  lemma FirstBit(c: u32)
    ensures Bits32(c)[0] == (c % 2 == 1)
  {
  }

  // Feeding bits is the same as adding them to the register at once and then feeding zeros.
  lemma {:induction false} FeedAhead(c: Register, m: seq<bool>)
    requires |m| <= 32
    ensures Run(c, m) == Run(Sum(c, m + Zero(32 - |m|)), Zero(|m|))
    decreases |m|
  {
    hide Taps;
    if |m| == 0 {
      assert Sum(c, m + Zero(32)) == c;
    } else {
      var d := Sum(c, m + Zero(32 - |m|));
      assert Zero(|m|)[1..] == Zero(|m| - 1);
      FeedAhead(Step(c, m[0]), m[1..]);
      assert Step(d, false) == Sum(Step(c, m[0]), m[1..] + Zero(32 - |m[1..]|));
    }
  }

  // the bits of a message in the order in which clause 3.2.9 takes them: each byte's lowest first
  function MessageBits(data: seq<byte>): (m: seq<bool>)
    ensures |m| == 8 * |data|
  {
    if |data| == 0 then [] else BitsOf(data[0], 8) + MessageBits(data[1..])
  }

  lemma {:induction false} MessageConcat(a: seq<byte>, b: seq<byte>)
    ensures MessageBits(a + b) == MessageBits(a) + MessageBits(b)
  {
    hide BitsOf;
    if |a| == 0 {
      assert a + b == b;
    } else {
      assert (a + b)[1..] == a[1..] + b;
      MessageConcat(a[1..], b);
    }
  }

  lemma MessageSnoc(data: seq<byte>)
    requires |data| > 0
    ensures var n := |data| - 1; MessageBits(data) == MessageBits(data[..n]) + BitsOf(data[n], 8)
  {
    hide BitsOf, MessageBits;
    var n := |data| - 1;
    assert data == data[..n] + [data[n]];
    MessageConcat(data[..n], [data[n]]);
    OneByte(data[n]);
  }

  lemma OneByte(b: byte)
    ensures MessageBits([b]) == BitsOf(b, 8)
  {
    hide BitsOf;
    assert [b][1..] == [];
    assert MessageBits([]) == [];
  }

  lemma ByteFed(c: u32, b: byte)
    ensures Pow2(32) == 0x1_0000_0000
    ensures Bits32(CrcShift(Xor(c, b, 32), 8)) == Run(Bits32(c), BitsOf(b, 8))
  {
    hide BitsOf, Xor, Pow2, Run, CrcShift;
    Pow2_32();
    XorBits(c, b, 32);
    ByteInWord(b);
    assert Bits32(Xor(c, b, 32)) == Sum(Bits32(c), BitsOf(b, 8) + Zero(24));
    ShiftsAreRun(Xor(c, b, 32), 8);
    FeedAhead(Bits32(c), BitsOf(b, 8));
  }

  lemma ByteInWord(b: byte)
    ensures BitsOf(b, 32) == BitsOf(b, 8) + Zero(24)
  {
    ByteBits(b, 24);
    NoBits(24);
  }

  lemma {:induction false} NoBits(k: nat)
    ensures BitsOf(0, k) == Zero(k)
  {
    if k > 0 { NoBits(k - 1); }
  }

  function Ones(n: nat): seq<bool> {
    seq(n, _ => true)
  }

  lemma {:induction false} UpdateIsRun(data: seq<byte>)
    ensures Bits32(CrcUpdate(data)) == Run(Ones(32), MessageBits(data))
  {
    hide BitsOf, Xor, CrcShift, Run;
    if |data| == 0 {
      AllOnes();
      RunNothing(Ones(32));
    } else {
      var n := |data| - 1;
      UpdateIsRun(data[..n]);
      MessageSnoc(data);
      RunConcat(Ones(32), MessageBits(data[..n]), BitsOf(data[n], 8));
      ByteFed(CrcUpdate(data[..n]), data[n]);
    }
  }

  lemma RunNothing(c: Register)
    ensures Run(c, []) == c && MessageBits([]) == []
  {
  }

  lemma {:induction false} OnesBits(k: nat)
    ensures BitsOf(Pow2(k) - 1, k) == Ones(k)
  {
    if k > 0 {
      OnesBits(k - 1);
      assert (Pow2(k) - 1) / 2 == Pow2(k - 1) - 1;
    }
  }

  lemma AllOnes()
    ensures Bits32(0xFFFF_FFFF) == Ones(32)
  {
    Pow2_32();
    OnesBits(32);
  }

  lemma {:induction false} ComplementBits(n: nat, k: nat)
    requires n < Pow2(k)
    ensures forall i :: 0 <= i < k ==> BitsOf(Pow2(k) - 1 - n, k)[i] == !BitsOf(n, k)[i]
  {
    if k > 0 {
      ComplementBits(n / 2, k - 1);
      assert (Pow2(k) - 1 - n) / 2 == Pow2(k - 1) - 1 - n / 2;
    }
  }

  // the bits of the message with 32 zeros behind it and its first 32 bits complemented
  function Protected(data: seq<byte>): (p: Poly)
    ensures |p| == 8 * |data| + 32
  {
    var m := MessageBits(data) + Zero(32);
    seq(|m|, i requires 0 <= i < |m| => if i < 32 then !m[i] else m[i])
  }

  function Complement(s: seq<bool>): (r: seq<bool>)
    ensures |r| == |s|
  {
    seq(|s|, i requires 0 <= i < |s| => !s[i])
  }

  /** What clause 3.2.9 says: the bits of the CRC, lowest first, are the complement of the remainder of the
      protected bits by the generator. */
  lemma CrcIsRemainder(data: seq<byte>)
    ensures Remainder(Protected(data), Complement(Bits32(Crc32(data))))
  {
    hide BitsOf, CrcUpdate, Run, Remainder;
    var m, c := MessageBits(data), CrcUpdate(data);
    UpdateIsRun(data);
    RunDivides(Ones(32), m);
    assert Dividend(Ones(32), m) == Protected(data);
    Pow2_32();
    ComplementBits(c, 32);
    assert Complement(Bits32(Crc32(data))) == Bits32(c);
  }

  /** And nothing else: a word with that property is the CRC. */
  lemma CrcIffRemainder(data: seq<byte>, w: u32)
    ensures Remainder(Protected(data), Complement(Bits32(w))) <==> w == Crc32(data)
  {
    hide BitsOf, Crc32, Remainder, Protected;
    CrcIsRemainder(data);
    if Remainder(Protected(data), Complement(Bits32(w))) {
      OneRemainder(Protected(data), Complement(Bits32(w)), Complement(Bits32(Crc32(data))));
      SameComplement(Bits32(w), Bits32(Crc32(data)));
      SameWord(w, Crc32(data));
    }
  }

  lemma SameComplement(a: seq<bool>, b: seq<bool>)
    requires Complement(a) == Complement(b)
    ensures a == b
  {
    assert |a| == |b|;
    forall i | 0 <= i < |a| ensures a[i] == b[i] {
      assert Complement(a)[i] == Complement(b)[i];
    }
  }

  lemma SameWord(a: u32, b: u32)
    requires Bits32(a) == Bits32(b)
    ensures a == b
  {
    Pow2_32();
    ValBits(a, 32);
    ValBits(b, 32);
  }

  // ---- what it detects ----

  // Two registers in which i-th bits differ exactly where the i-th bits of the messages do, and no others.
  ghost predicate DifferAlike(c: Register, d: Register, m: seq<bool>, n: seq<bool>)
    requires |m| == |n| <= 32
  {
    && (forall i :: 0 <= i < |m| ==> ((c[i] != d[i]) == (m[i] != n[i])))
    && (forall i :: |m| <= i < 32 ==> c[i] == d[i])
  }

  lemma TopTap()
    ensures Taps()[31]
  {
  }

  // Up to 32 bits that end in the same register: what they differ in was in the registers before.
  lemma {:induction false} Backwards(c: Register, d: Register, m: seq<bool>, n: seq<bool>)
    requires |m| == |n| <= 32 && Run(c, m) == Run(d, n)
    ensures DifferAlike(c, d, m, n)
    decreases |m|
  {
    hide Taps;
    if |m| > 0 {
      var c', d' := Step(c, m[0]), Step(d, n[0]);
      Backwards(c', d', m[1..], n[1..]);
      TopTap();
      assert c'[31] == d'[31];
      forall i | 0 < i < 32
        ensures if i < |m| then (c[i] != d[i]) == (m[i] != n[i]) else c[i] == d[i]
      {
        assert (c'[i - 1] != d'[i - 1]) == (c[i] != d[i]);
      }
    }
  }

  // The same bits keep different registers different.
  lemma {:induction false} StayApart(c: Register, d: Register, m: seq<bool>)
    requires Run(c, m) == Run(d, m)
    ensures c == d
    decreases |m|
  {
    hide Step;
    if |m| > 0 {
      StayApart(Step(c, m[0]), Step(d, m[0]), m[1..]);
      OneStepApart(c, d, m[0]);
    }
  }

  lemma OneStepApart(c: Register, d: Register, bit: bool)
    requires Step(c, bit) == Step(d, bit)
    ensures c == d
  {
    hide Step;
    RunOne(c, bit);
    RunOne(d, bit);
    Backwards(c, d, [bit], [bit]);
  }

  lemma RunOne(c: Register, bit: bool)
    ensures Run(c, [bit]) == Step(c, bit)
  {
    hide Step;
    assert [bit][1..] == [];
  }

  /** Bits that differ only within 32 positions end in different registers. */
  lemma BurstApart(c: Register, front: seq<bool>, m: seq<bool>, n: seq<bool>, back: seq<bool>)
    requires |m| == |n| <= 32 && m != n
    ensures Run(c, front + m + back) != Run(c, front + n + back)
  {
    hide Run;
    RunConcat(c, front + m, back);
    RunConcat(c, front + n, back);
    RunConcat(c, front, m);
    RunConcat(c, front, n);
    var d := Run(c, front);
    if Run(c, front + m + back) == Run(c, front + n + back) {
      StayApart(Run(d, m), Run(d, n), back);
      Backwards(d, d, m, n);
    }
  }

  // The messages' bits differ, and only at positions from k on, fewer than k + 32.
  ghost predicate Burst(a: seq<byte>, b: seq<byte>, k: nat) {
    && |a| == |b| && a != b
    && (forall i :: 0 <= i < 8 * |a| && !(k <= i < k + 32) ==> MessageBits(a)[i] == MessageBits(b)[i])
  }

  lemma {:induction false} SameMessage(a: seq<byte>, b: seq<byte>)
    requires |a| == |b| && MessageBits(a) == MessageBits(b)
    ensures a == b
  {
    hide BitsOf;
    if |a| > 0 {
      var m, n := MessageBits(a), MessageBits(b);
      assert m[..8] == BitsOf(a[0], 8) && m[8..] == MessageBits(a[1..]);
      assert n[..8] == BitsOf(b[0], 8) && n[8..] == MessageBits(b[1..]);
      SameByte(a[0], b[0]);
      SameMessage(a[1..], b[1..]);
    }
  }

  lemma SameByte(a: byte, b: byte)
    requires BitsOf(a, 8) == BitsOf(b, 8)
    ensures a == b
  {
    assert Pow2(8) == 0x100;
    ValBits(a, 8);
    ValBits(b, 8);
  }

  /** Two messages of the same length whose bits differ within one burst of at most 32 never have the same
      CRC. */
  lemma BurstDetected(a: seq<byte>, b: seq<byte>, k: nat)
    requires Burst(a, b, k)
    ensures Crc32(a) != Crc32(b)
  {
    hide BitsOf, CrcUpdate, Run, MessageBits;
    var m, n := MessageBits(a), MessageBits(b);
    UpdateIsRun(a);
    UpdateIsRun(b);
    if m == n {
      SameMessage(a, b);
    }
    var lo := if k < |m| then k else |m|;
    var hi := if k + 32 < |m| then k + 32 else |m|;
    assert m[..lo] == n[..lo] && m[hi..] == n[hi..];
    assert m == m[..lo] + m[lo..hi] + m[hi..] && n == n[..lo] + n[lo..hi] + n[hi..];
    BurstApart(Ones(32), m[..lo], m[lo..hi], n[lo..hi], m[hi..]);
  }

  /** In particular messages that differ in up to four bytes in a row, and in no others. */
  lemma BytesDetected(a: seq<byte>, b: seq<byte>, k: nat)
    requires |a| == |b| && a != b && forall i :: 0 <= i < |a| && !(k <= i < k + 4) ==> a[i] == b[i]
    ensures Crc32(a) != Crc32(b)
  {
    hide Crc32, BitsOf, MessageBits;
    var lo := if k < |a| then k else |a|;
    var hi := if k + 4 < |a| then k + 4 else |a|;
    assert a[..lo] == b[..lo] && a[hi..] == b[hi..];
    assert a == (a[..lo] + a[lo..hi]) + a[hi..] && b == (b[..lo] + b[lo..hi]) + b[hi..];
    MessageConcat(a[..lo] + a[lo..hi], a[hi..]);
    MessageConcat(b[..lo] + b[lo..hi], b[hi..]);
    MessageConcat(a[..lo], a[lo..hi]);
    MessageConcat(b[..lo], b[lo..hi]);
    BurstDetected(a, b, 8 * lo);
  }
}
