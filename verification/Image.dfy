/** libRSU_image.c: the block state machine that finds the signature blocks of a bitstream and
    relocates their section pointers to the slot the image is written to. */
module Image {
  import opened Bits
  import opened FlashDev
  import Crc

  const BLOCK: int := 0x1000
  const PTRS: int := 0xF08       // four pointers inside a signature block
  const CRC: int := 0xFFC        // its CRC word
  const CMF_MAGIC: u32 := 0x62294895
  const MAX_SECTIONS: nat := 64

  type Block = b: seq<byte> | |b| == BLOCK witness seq(BLOCK, _ => 0)

  // a slot; its size is the signed word that partition.size returns
  datatype Info = Info(offset: u64, size: int)

  datatype BlockType = SectionBlock | SignatureBlock | RegularBlock

  // offset of the current block, its type, the sections found, image already relocated
  datatype State = State(offset: int, kind: BlockType, sections: seq<u64>, absolute: bool)

  const INIT: State := State(-BLOCK, RegularBlock, [0], false)

  // ---- a signature block ----

  function Ptr(b: Block, x: nat): u64
    requires x < 4
  {
    FromLE64(b[PTRS + 8 * x..PTRS + 8 * x + 8])
  }

  // 64-bit addition and subtraction
  function Plus(a: u64, b: u64): u64 { (a + b) % U64_MOD }

  function Minus(a: u64, b: u64): u64 { (a - b) % U64_MOD }

  function Signed(v: u64): (r: int)
    ensures -0x8000_0000_0000_0000 <= r < 0x8000_0000_0000_0000 && r % U64_MOD == v
  {
    if v < 0x8000_0000_0000_0000 then v else v - U64_MOD
  }

  function Moved(p: u64, offset: u64): u64 {
    if p == 0 then 0 else Plus(p, offset)
  }

  function MovedPtrs(b: Block, offset: u64, n: nat): (r: seq<byte>)
    requires n <= 4
    ensures |r| == 8 * n
  {
    if n == 0 then [] else MovedPtrs(b, offset, n - 1) + LE(Moved(Ptr(b, n - 1), offset), 8)
  }

  // the CRC word, in the bit-swapped domain of the library's CRC function
  function CrcWord(body: seq<byte>): (r: seq<byte>)
    ensures |r| == 4
  {
    SwapSeq(LE(SwapEndian32(Crc32(SwapSeq(body))), 4))
  }

  function Seal(b: Block): Block {
    b[..CRC] + CrcWord(b[..CRC])
  }

  predicate CrcOk(b: Block) {
    SwapEndian32(FromLE32(SwapSeq(b[CRC..]))) == Crc32(SwapSeq(b[..CRC]))
  }

  // pointers moved by the slot offset, CRC recomputed
  function Relocated(b: Block, offset: u64): Block {
    Seal(b[..PTRS] + MovedPtrs(b, offset, 4) + b[PTRS + 32..])
  }

  // ---- one block ----

  function AddSection(sections: seq<u64>, s: u64): seq<u64> {
    if s in sections || |sections| >= MAX_SECTIONS then sections else sections + [s]
  }

  // a signed number taken for a 64-bit word
  function Unsigned(v: int): (r: int)
    ensures -U64_MOD <= v < U64_MOD ==> 0 <= r < U64_MOD && r % U64_MOD == v % U64_MOD
  {
    if v < 0 then v + U64_MOD else v
  }

  predicate SomePtrAbove(b: Block, size: int) {
    exists x :: 0 <= x < 4 && Ptr(b, x) > Unsigned(size)
  }

  // absolute images are recognised at the second block
  predicate AbsoluteAfter(st: State, b: Block, info: Info) {
    st.absolute || (st.offset == BLOCK && SomePtrAbove(b, info.size))
  }

  function AddPtrs(sections: seq<u64>, b: Block, base: u64, n: nat): seq<u64>
    requires n <= 4
  {
    if n == 0 then sections
    else
      var rest := AddPtrs(sections, b, base, n - 1);
      if Ptr(b, n - 1) == 0 then rest else AddSection(rest, Minus(Ptr(b, n - 1), base))
  }

  // the state with the block about to be processed
  function Enter(st: State): State {
    var offset := st.offset + BLOCK;
    State(offset, if 0 <= offset < U64_MOD && offset in st.sections then SectionBlock else st.kind,
          st.sections, st.absolute)
  }

  // the state after block b, from the state that entered it
  function Classify(st: State, b: Block, info: Info): State {
    match st.kind
    case SectionBlock => st.(kind := if FromLE32(b[..4]) == CMF_MAGIC then SignatureBlock else RegularBlock)
    case SignatureBlock =>
      var absolute := AbsoluteAfter(st, b, info);
      st.(kind := RegularBlock, absolute := absolute,
          sections := AddPtrs(st.sections, b, if absolute then info.offset else 0, 4))
    case RegularBlock => st
  }

  // what flash holds for block b
  function Expected(st: State, b: Block, info: Info): Block {
    if st.kind == SignatureBlock && !AbsoluteAfter(st, b, info) then Relocated(b, info.offset) else b
  }

  predicate PtrsInside(b: Block, base: u64, size: int) {
    forall x :: 0 <= x < 4 && Ptr(b, x) != 0 ==> Signed(Minus(Ptr(b, x), base)) <= size
  }

  // what programming checks of a signature block
  predicate Accepts(st: State, b: Block, info: Info) {
    st.kind == SignatureBlock ==>
      CrcOk(b) && PtrsInside(b, if AbsoluteAfter(st, b, info) then info.offset else 0, info.size)
  }

  // ---- whole images ----

  type Image = seq<Block>

  // every block is accepted
  predicate Accepted(st: State, image: Image, info: Info)
    decreases image
  {
    |image| == 0 ||
    (var e := Enter(st);
      Accepts(e, image[0], info) && Accepted(Classify(e, image[0], info), image[1..], info))
  }

  // the image as flash holds it
  function Relocate(st: State, image: Image, info: Info): (r: Image)
    ensures |r| == |image|
    decreases image
  {
    if |image| == 0 then []
    else
      var e := Enter(st);
      [Expected(e, image[0], info)] + Relocate(Classify(e, image[0], info), image[1..], info)
  }

  // the state that enters block i
  function StateAt(st: State, image: Image, info: Info, i: nat): State
    requires i < |image|
    decreases i
  {
    if i == 0 then Enter(st) else StateAt(Classify(Enter(st), image[0], info), image[1..], info, i - 1)
  }

  // ---- properties of one signature block ----

  lemma SealedCrcOk(b: Block)
    ensures CrcOk(Seal(b)) && Seal(b)[..CRC] == b[..CRC]
  {
    var c := Crc32(SwapSeq(b[..CRC]));
    assert Seal(b)[CRC..] == CrcWord(b[..CRC]);
    SwapSeqInvolution(LE(SwapEndian32(c), 4));
    LE32RoundTrip(SwapEndian32(c));
    SwapEndian32Involution(c);
  }

  /** The CRC check on the bytes of a block: with the bits of every byte reversed, the word behind the others is
      their CRC, high byte first. */
  lemma CrcBytes(b: Block)
    ensures CrcOk(b) <==> SwapSeq(b[CRC..]) == Reverse4(LE(Crc32(SwapSeq(b[..CRC])), 4))
  {
    hide LE, SwapEndian32, Crc32, FromLE32, SwapSeq;
    var w, c := SwapSeq(b[CRC..]), Crc32(SwapSeq(b[..CRC]));
    WordOf(w);
    SwapEndian32Involution(FromLE32(w));
    SwapEndian32Involution(c);
    LE32RoundTrip(c);
    assert SwapEndian32(FromLE32(w)) == c ==> w == LE(SwapEndian32(c), 4);
    if w == Reverse4(LE(c, 4)) {
      assert LE(SwapEndian32(FromLE32(w)), 4) == LE(c, 4);
      LE32RoundTrip(SwapEndian32(FromLE32(w)));
    }
  }

  lemma WordOf(w: seq<byte>)
    requires |w| == 4
    ensures LE(FromLE32(w), 4) == w
  {
    ToFromLE(w);
  }

  // A block whose CRC is right is its own seal.
  lemma CrcOkSealed(b: Block)
    requires CrcOk(b)
    ensures Seal(b) == b
  {
    var w := SwapSeq(b[CRC..]);
    SwapEndian32Involution(FromLE32(w));
    ToFromLE(w);
    SwapSeqInvolution(b[CRC..]);
    assert b == b[..CRC] + b[CRC..];
  }

  /** A block that passes the CRC check, damaged in up to four bytes in a row before its CRC word, is refused. */
  lemma DamageRefused(b: Block, b': Block, k: nat)
    requires CrcOk(b) && b' != b && b'[CRC..] == b[CRC..]
    requires forall i :: 0 <= i < CRC && !(k <= i < k + 4) ==> b'[i] == b[i]
    ensures !CrcOk(b')
  {
    hide Crc32, SwapByte;
    var m, m' := b[..CRC], b'[..CRC];
    assert b == m + b[CRC..] && b' == m' + b'[CRC..];
    SwapSeqInvolution(m);
    SwapSeqInvolution(m');
    Crc.BytesDetected(SwapSeq(m), SwapSeq(m'), k);
  }

  lemma {:induction false} MovedPtrAt(b: Block, offset: u64, n: nat, x: nat)
    requires x < n <= 4
    ensures MovedPtrs(b, offset, n)[8 * x..8 * x + 8] == LE(Moved(Ptr(b, x), offset), 8)
  {
    hide Ptr, Moved, LE;
    var r, last := MovedPtrs(b, offset, n - 1), LE(Moved(Ptr(b, n - 1), offset), 8);
    assert MovedPtrs(b, offset, n) == r + last;
    if x < n - 1 {
      MovedPtrAt(b, offset, n - 1, x);
      assert (r + last)[8 * x..8 * x + 8] == r[8 * x..8 * x + 8];
    } else {
      assert (r + last)[8 * x..] == last;
    }
  }

  lemma Pieces(a: seq<byte>, b: seq<byte>, c: seq<byte>, n: nat)
    requires |a| + |b| <= n <= |a| + |b| + |c|
    ensures var s := a + b + c;
      s[..n][..|a|] == a && s[..n][|a|..|a| + |b|] == b && s[..n][|a| + |b|..] == c[..n - |a| - |b|]
  {
  }

  lemma RelocatedLayout(b: Block, offset: u64)
    ensures var r := Relocated(b, offset);
      && r[..CRC][..PTRS] == b[..PTRS] && r[..CRC][PTRS..PTRS + 32] == MovedPtrs(b, offset, 4)
      && r[..CRC][PTRS + 32..] == b[PTRS + 32..][..CRC - PTRS - 32]
      && CrcOk(r)
  {
    hide CrcOk, CrcWord, MovedPtrs;
    SealedCrcOk(b[..PTRS] + MovedPtrs(b, offset, 4) + b[PTRS + 32..]);
    Pieces(b[..PTRS], MovedPtrs(b, offset, 4), b[PTRS + 32..], CRC);
  }

  // r is b with every non-zero pointer moved by exactly the offset and a fresh CRC, nothing else
  ghost predicate MovedExactly(b: Block, r: Block, offset: u64) {
    && (forall i :: 0 <= i < BLOCK && r[i] != b[i] ==> PTRS <= i < PTRS + 32 || CRC <= i)
    && (forall x :: 0 <= x < 4 ==> Ptr(r, x) == if Ptr(b, x) == 0 then 0 else (Ptr(b, x) + offset) % U64_MOD)
    && CrcOk(r)
  }

  lemma SliceOfSlice(s: seq<byte>, a: nat, b: nat, c: nat, d: nat)
    requires a <= b <= |s| && c <= d <= b - a
    ensures s[a..b][c..d] == s[a + c..a + d]
  {
    forall i | 0 <= i < d - c ensures s[a..b][c..d][i] == s[a + c..a + d][i] {
      assert s[a..b][c + i] == s[a + c + i];
    }
  }

  lemma RelocatedPtr(b: Block, offset: u64, x: nat)
    requires x < 4
    ensures Ptr(Relocated(b, offset), x) == Moved(Ptr(b, x), offset)
  {
    hide Relocated, MovedPtrs, FromLE64, CrcOk, LE, Moved, FromLE;
    var r := Relocated(b, offset);
    RelocatedLayout(b, offset);
    MovedPtrAt(b, offset, 4, x);
    SliceOfSlice(r[..CRC], PTRS, PTRS + 32, 8 * x, 8 * x + 8);
    SliceOfSlice(r, 0, CRC, PTRS + 8 * x, PTRS + 8 * x + 8);
    assert r[0..CRC] == r[..CRC];
    LE64RoundTrip(Moved(Ptr(b, x), offset));
  }

  lemma RelocatedKeeps(b: Block, offset: u64, i: nat)
    requires i < PTRS || PTRS + 32 <= i < CRC
    ensures Relocated(b, offset)[i] == b[i]
  {
    hide Relocated, MovedPtrs, CrcOk;
    var r := Relocated(b, offset);
    RelocatedLayout(b, offset);
    if i < PTRS {
      assert r[..CRC][..PTRS][i] == b[..PTRS][i];
    } else {
      assert r[..CRC][PTRS + 32..][i - PTRS - 32] == b[PTRS + 32..][..CRC - PTRS - 32][i - PTRS - 32];
    }
  }

  /** Relocation is exact: only the four pointers and the CRC word change, every non-zero pointer
      moves by exactly the slot offset, zero pointers stay, and the block passes its CRC check. */
  lemma RelocationIsExact(b: Block, offset: u64)
    ensures MovedExactly(b, Relocated(b, offset), offset)
  {
    hide Relocated, Ptr, CrcOk, MovedPtrs;
    var r := Relocated(b, offset);
    RelocatedLayout(b, offset);
    forall x | 0 <= x < 4 ensures Ptr(r, x) == Moved(Ptr(b, x), offset) {
      RelocatedPtr(b, offset, x);
    }
    forall i | 0 <= i < BLOCK && !(PTRS <= i < PTRS + 32) && !(CRC <= i) ensures r[i] == b[i] {
      RelocatedKeeps(b, offset, i);
    }
  }

  // ---- properties of whole images ----

  /** Verification compares block by block and accepts exactly the relocated image. */
  lemma {:induction false} RelocateAt(st: State, image: Image, info: Info, i: nat)
    requires i < |image|
    ensures Relocate(st, image, info)[i] == Expected(StateAt(st, image, info, i), image[i], info)
    decreases i
  {
    if i > 0 {
      RelocateAt(Classify(Enter(st), image[0], info), image[1..], info, i - 1);
    }
  }

  /** Bytes of the flashed image differ from the input only in pointers and CRC words of
      signature blocks of a relative image; everything else is programmed as it came. */
  lemma ImageRelocationIsExact(st: State, image: Image, info: Info, i: nat)
    requires i < |image|
    ensures var e := StateAt(st, image, info, i);
      if e.kind == SignatureBlock && !AbsoluteAfter(e, image[i], info)
      then MovedExactly(image[i], Relocate(st, image, info)[i], info.offset)
      else Relocate(st, image, info)[i] == image[i]
  {
    hide Relocated, MovedExactly, StateAt, Relocate;
    RelocateAt(st, image, info, i);
    RelocationIsExact(image[i], info.offset);
  }
}
