/** Programming an image that is in flash already: when the block state machine of libRSU_image.c leaves a
    relocated image alone, and images that it does not. */
module ImageTwice {
  import opened Bits
  import opened FlashDev
  import opened Image

  predicate NoPtrs(b: Block) {
    forall x :: 0 <= x < 4 ==> Ptr(b, x) == 0
  }

  // Relocating b makes a pointer exceed the slot size: it will be taken for absolute.
  predicate Recognised(b: Block, info: Info) {
    exists x :: 0 <= x < 4 && Ptr(b, x) != 0 && Ptr(b, x) + info.offset > info.size
  }

  // the pointer that becomes zero when the slot offset is added
  function Gone(info: Info): int {
    U64_MOD - info.offset
  }

  // The second pass lists every section but that one.
  function Seen(sections: seq<u64>, gone: int): (r: seq<u64>)
    ensures |r| <= |sections| && (gone !in sections ==> r == sections)
    ensures forall x :: x in r <==> x in sections && x != gone
  {
    if |sections| == 0 then []
    else
      var last := sections[|sections| - 1];
      Seen(sections[..|sections| - 1], gone) + if last == gone then [] else [last]
  }

  // No section of the block is dropped while the vanished pointer holds a place in a full list.
  predicate NoneLost(sections: seq<u64>, b: Block, info: Info, n: nat)
    requires n <= 4
  {
    n == 0 ||
    (var rest, p := AddPtrs(sections, b, 0, n - 1), Ptr(b, n - 1);
      && NoneLost(sections, b, info, n - 1)
      && (p == 0 || p in rest || |rest| < MAX_SECTIONS || Gone(info) !in rest))
  }

  // Both passes look the same sections up at block b, and list the same ones from it if more than one block
  // is left: the last one is never a signature block right after this one.
  predicate Agrees(st: State, b: Block, left: nat, info: Info) {
    && (Gone(info) in st.sections ==> st.offset + BLOCK != Gone(info))
    && (Enter(st).kind == SignatureBlock && !AbsoluteAfter(Enter(st), b, info) && left > 1 ==>
          NoneLost(st.sections, b, info, 4))
  }

  // the same of every block that the first pass programs
  predicate ListsAgree(st: State, image: Image, info: Info)
    decreases image
  {
    |image| == 0 ||
    (Agrees(st, image[0], |image| - 1, info) && ListsAgree(Classify(Enter(st), image[0], info), image[1..], info))
  }

  lemma MinusMoved(p: u64, info: Info)
    requires info.offset > 0
    ensures Moved(p, info.offset) == 0 <==> p == 0 || p == Gone(info)
    ensures p != 0 && p != Gone(info) ==> Minus(Moved(p, info.offset), info.offset) == p
    ensures Minus(p, 0) == p
  {
  }

  lemma SeenSnoc(sections: seq<u64>, x: u64, gone: int)
    ensures Seen(sections + [x], gone) == Seen(sections, gone) + if x == gone then [] else [x]
  {
    assert (sections + [x])[..|sections|] == sections;
  }

  // Both passes list the same sections, except for the vanished one.
  lemma {:induction false} SameSections(sections: seq<u64>, b: Block, info: Info, n: nat)
    requires n <= 4 && info.offset > 0 && NoneLost(sections, b, info, n)
    ensures AddPtrs(Seen(sections, Gone(info)), Relocated(b, info.offset), info.offset, n)
      == Seen(AddPtrs(sections, b, 0, n), Gone(info))
  {
    hide Relocated, Ptr, Moved, Minus, Seen;
    if n > 0 {
      SameSections(sections, b, info, n - 1);
      RelocatedPtr(b, info.offset, n - 1);
      MinusMoved(Ptr(b, n - 1), info);
      SeenSnoc(AddPtrs(sections, b, 0, n - 1), Ptr(b, n - 1), Gone(info));
    }
  }

  lemma SamePtrCheck(b: Block, info: Info)
    requires PtrsInside(b, 0, info.size) && info.offset > 0
    ensures PtrsInside(Relocated(b, info.offset), info.offset, info.size)
  {
    hide Relocated, Ptr;
    forall x | 0 <= x < 4 && Ptr(Relocated(b, info.offset), x) != 0
      ensures Signed(Minus(Ptr(Relocated(b, info.offset), x), info.offset)) <= info.size
    {
      RelocatedPtr(b, info.offset, x);
      MinusMoved(Ptr(b, x), info);
    }
  }

  // With pointers that do not move, a block with a right CRC is relocated to itself.
  lemma {:induction false} UnmovedPtrs(b: Block, offset: u64, n: nat)
    requires n <= 4 && forall x :: 0 <= x < n ==> Moved(Ptr(b, x), offset) == Ptr(b, x)
    ensures MovedPtrs(b, offset, n) == b[PTRS..PTRS + 8 * n]
  {
    hide LE, FromLE, Moved;
    if n > 0 {
      UnmovedPtrs(b, offset, n - 1);
      ToFromLE(b[PTRS + 8 * (n - 1)..PTRS + 8 * n]);
      assert b[PTRS..PTRS + 8 * n] == b[PTRS..PTRS + 8 * (n - 1)] + b[PTRS + 8 * (n - 1)..PTRS + 8 * n];
    }
  }

  lemma UnmovedBlock(b: Block, offset: u64)
    requires CrcOk(b) && forall x :: 0 <= x < 4 ==> Moved(Ptr(b, x), offset) == Ptr(b, x)
    ensures Relocated(b, offset) == b
  {
    UnmovedPtrs(b, offset, 4);
    assert b[..PTRS] + b[PTRS..PTRS + 32] + b[PTRS + 32..] == b;
    CrcOkSealed(b);
  }

  // States of the two passes after the same number of blocks: identical, with no relative
  // signature block to come, or the second pass knows that the image is absolute and has all sections
  // but the vanished one.
  predicate Paired(s: State, t: State, info: Info) {
    s.offset >= BLOCK &&
    if s == t then s.absolute || (s.sections == [0] && s.kind == RegularBlock)
    else !s.absolute && t == s.(absolute := true, sections := Seen(s.sections, Gone(info)))
  }

  // One block of both passes: the second accepts what the first wrote and leaves it alone.
  lemma TwiceStep(s: State, t: State, b: Block, left: nat, info: Info)
    requires Paired(s, t, info) && Accepts(Enter(s), b, info) && Agrees(s, b, left, info) && info.offset > 0
    ensures var r := Expected(Enter(s), b, info);
      var s', t' := Classify(Enter(s), b, info), Classify(Enter(t), r, info);
      && Accepts(Enter(t), r, info) && Expected(Enter(t), r, info) == r
      && if left <= 1 && Enter(s).kind == SignatureBlock then s'.kind == t'.kind == RegularBlock
         else Paired(s', t', info)
  {
    hide Relocated, Ptr, AddPtrs, FromLE32, PtrsInside, CrcOk, Seen, NoneLost;
    if Enter(s).kind == SignatureBlock && s != t {
      if left > 1 {
        SameSections(s.sections, b, info, 4);
      }
      SamePtrCheck(b, info);
      RelocatedLayout(b, info.offset);
    }
  }

  // At most one block after a signature block: it is left as it is.
  lemma LastBlock(s: State, t: State, rest: Image, info: Info)
    requires |rest| <= 1 && s.kind == t.kind == RegularBlock
    ensures Relocate(s, rest, info) == rest && Accepted(t, rest, info) && Relocate(t, rest, info) == rest
  {
  }

  lemma {:induction false} TwiceFrom(s: State, t: State, image: Image, info: Info)
    requires Paired(s, t, info) && Accepted(s, image, info) && ListsAgree(s, image, info) && info.offset > 0
    ensures Accepted(t, Relocate(s, image, info), info)
    ensures Relocate(t, Relocate(s, image, info), info) == Relocate(s, image, info)
    decreases image
  {
    hide Relocated, Classify, Expected, Accepts, Enter, Paired, Ptr, Agrees;
    if |image| > 0 {
      var b := image[0];
      TwiceStep(s, t, b, |image| - 1, info);
      var out := Relocate(s, image, info);
      var s', t' := Classify(Enter(s), b, info), Classify(Enter(t), out[0], info);
      if |image| <= 2 && Enter(s).kind == SignatureBlock {
        LastBlock(s', t', image[1..], info);
      } else {
        TwiceFrom(s', t', image[1..], info);
      }
      assert out[1..] == Relocate(s', image[1..], info);
    }
  }

  // programming an image that is in flash already
  ghost predicate Idempotent(image: Image, info: Info) {
    var out := Relocate(INIT, image, info);
    Accepted(INIT, out, info) && Relocate(INIT, out, info) == out
  }

  // The first pass relocates: the second block is a signature block with all pointers in range.
  predicate Relative(image: Image, info: Info) {
    |image| >= 2 && FromLE32(image[0][..4]) == CMF_MAGIC && !SomePtrAbove(image[1], info.size)
  }

  // the state after the first block, and the one entering the second
  function AfterFirst(image: Image): State
    requires |image| > 0
  {
    State(0, if FromLE32(image[0][..4]) == CMF_MAGIC then SignatureBlock else RegularBlock, [0], false)
  }

  lemma FirstBlock(image: Image, info: Info)
    requires |image| > 0
    ensures Classify(Enter(INIT), image[0], info) == AfterFirst(image)
    ensures Expected(Enter(INIT), image[0], info) == image[0]
    ensures Accepted(INIT, image, info) <==> Accepted(AfterFirst(image), image[1..], info)
    ensures Relocate(INIT, image, info) == [image[0]] + Relocate(AfterFirst(image), image[1..], info)
    ensures ListsAgree(INIT, image, info) ==> ListsAgree(AfterFirst(image), image[1..], info)
  {
  }

  // Idempotence only depends on what follows the first block.
  lemma IdempotentRest(image: Image, info: Info)
    requires |image| > 0
    ensures var rest := Relocate(AfterFirst(image), image[1..], info);
      Idempotent(image, info) <==>
        Accepted(AfterFirst(image), rest, info) && Relocate(AfterFirst(image), rest, info) == rest
  {
    hide Accepted, Relocate;
    var rest := Relocate(AfterFirst(image), image[1..], info);
    var out := Relocate(INIT, image, info);
    FirstBlock(image, info);
    FirstBlock(out, info);
    assert out[1..] == rest && AfterFirst(out) == AfterFirst(image);
    assert ([image[0]] + Relocate(AfterFirst(image), rest, info))[1..] == Relocate(AfterFirst(image), rest, info);
  }

  // a second block that both passes treat alike, or that the second pass recognises
  lemma SecondBlockPairs(st: State, b: Block, info: Info)
    requires st.offset == 0 && st.sections == [0] && !st.absolute && st.kind != SectionBlock
    requires Accepts(Enter(st), b, info) && 0 < info.offset && info.offset + info.size < U64_MOD && 0 <= info.size
    requires st.kind == SignatureBlock && !SomePtrAbove(b, info.size) ==> NoPtrs(b) || Recognised(b, info)
    ensures var r := Expected(Enter(st), b, info);
      && Accepts(Enter(st), r, info) && Expected(Enter(st), r, info) == r
      && Paired(Classify(Enter(st), b, info), Classify(Enter(st), r, info), info)
  {
    hide Relocated, Ptr, FromLE32, AddPtrs, Recognised, NoPtrs, SomePtrAbove, PtrsInside, CrcOk;
    if st.kind == SignatureBlock && !SomePtrAbove(b, info.size) {
      if NoPtrs(b) {
        EmptyPointers(b, info.offset);
        NoSections(st.sections, b, 4);
      } else {
        RecognisedAfter(b, info);
        ShortList(st.sections, b, info, 4);
        SameSections(st.sections, b, info, 4);
        SamePtrCheck(b, info);
        SeenSnoc([], 0, Gone(info));
        RelocatedLayout(b, info.offset);
      }
    }
  }

  lemma {:induction false} ShortList(sections: seq<u64>, b: Block, info: Info, n: nat)
    requires n <= 4 && |sections| + n <= MAX_SECTIONS
    ensures |AddPtrs(sections, b, 0, n)| <= |sections| + n && NoneLost(sections, b, info, n)
  {
    hide Ptr;
    if n > 0 { ShortList(sections, b, info, n - 1); }
  }

  lemma EmptyPointers(b: Block, offset: u64)
    requires NoPtrs(b) && CrcOk(b)
    ensures Relocated(b, offset) == b
  {
    UnmovedBlock(b, offset);
  }

  lemma RecognisedAfter(b: Block, info: Info)
    requires Recognised(b, info) && !SomePtrAbove(b, info.size) && 0 <= info.size && info.offset + info.size < U64_MOD
    ensures SomePtrAbove(Relocated(b, info.offset), info.size)
  {
    hide Relocated, Ptr;
    var x :| 0 <= x < 4 && Ptr(b, x) != 0 && Ptr(b, x) + info.offset > info.size;
    RelocatedPtr(b, info.offset, x);
    assert Ptr(b, x) <= info.size;
    assert Ptr(Relocated(b, info.offset), x) > info.size;
  }

  /** A slot whose offset is at least its size is always recognised: the second pass takes the relocated
      second block of a relative image for that of an absolute one. */
  lemma HighSlotIsRecognised(b: Block, info: Info)
    requires info.offset >= info.size && !NoPtrs(b)
    ensures Recognised(b, info)
    ensures 0 <= info.size && info.offset + info.size < U64_MOD && !SomePtrAbove(b, info.size) ==>
      forall st: State :: st.offset == BLOCK ==> AbsoluteAfter(st, Relocated(b, info.offset), info)
  {
    hide Relocated, Ptr;
    var x :| 0 <= x < 4 && Ptr(b, x) != 0;
    assert Ptr(b, x) + info.offset > info.size;
    if 0 <= info.size && info.offset + info.size < U64_MOD && !SomePtrAbove(b, info.size) {
      RecognisedAfter(b, info);
    }
  }

  lemma {:induction false} NoSections(sections: seq<u64>, b: Block, n: nat)
    requires n <= 4 && NoPtrs(b)
    ensures forall base :: AddPtrs(sections, b, base, n) == sections
  {
    hide Ptr;
    if n > 0 { NoSections(sections, b, n - 1); }
  }

  // a second block that is relocated again by the second pass
  lemma SecondBlockMoves(st: State, b: Block, info: Info)
    requires st.offset == 0 && st.sections == [0] && !st.absolute && st.kind == SignatureBlock
    requires info.offset + info.size < U64_MOD && 0 <= info.size && !SomePtrAbove(b, info.size)
    requires !NoPtrs(b) && !Recognised(b, info) && info.offset != 0
    ensures Expected(Enter(st), Relocated(b, info.offset), info) != Relocated(b, info.offset)
  {
    hide Relocated, Ptr;
    var r := Relocated(b, info.offset);
    var x :| 0 <= x < 4 && Ptr(b, x) != 0;
    assert Ptr(b, x) + info.offset <= info.size;
    forall y | 0 <= y < 4 ensures Ptr(r, y) <= info.size {
      RelocatedPtr(b, info.offset, y);
      assert Ptr(b, y) <= info.size;
    }
    RelocatedPtr(b, info.offset, x);
    RelocatedPtr(r, info.offset, x);
    assert Ptr(Relocated(r, info.offset), x) != Ptr(r, x);
  }

  lemma MovedByZero(p: u64)
    ensures Moved(p, 0) == p
  {
  }

  lemma ZeroOffsetBlock(e: State, b: Block, info: Info)
    requires info.offset == 0 && Accepts(e, b, info)
    ensures Expected(e, b, info) == b
  {
    hide Relocated, Ptr, CrcOk, PtrsInside, SomePtrAbove;
    if e.kind == SignatureBlock {
      forall x | 0 <= x < 4 ensures Moved(Ptr(b, x), 0) == Ptr(b, x) {
        MovedByZero(Ptr(b, x));
      }
      UnmovedBlock(b, 0);
    }
  }

  lemma {:induction false} ZeroOffsetKeeps(st: State, image: Image, info: Info)
    requires info.offset == 0 && Accepted(st, image, info)
    ensures Relocate(st, image, info) == image
    decreases image
  {
    hide Expected, Accepts, Classify;
    if |image| > 0 {
      ZeroOffsetBlock(Enter(st), image[0], info);
      ZeroOffsetKeeps(Classify(Enter(st), image[0], info), image[1..], info);
    }
  }

  /** Reprogramming an image that has been relocated into the same slot is accepted and changes
      no byte exactly when the slot is at offset 0, or the second block has no pointers, or one of
      its relocated pointers exceeds the slot size. The last always holds when the slot's
      offset is at least its size (HighSlotIsRecognised). */
  lemma RelocatingTwice(image: Image, info: Info)
    requires 0 <= info.size && info.offset + info.size < U64_MOD
    requires Accepted(INIT, image, info) && ListsAgree(INIT, image, info)
    ensures Idempotent(image, info) <==>
      (Relative(image, info) ==> info.offset == 0 || NoPtrs(image[1]) || Recognised(image[1], info))
  {
    if |image| >= 2 && info.offset != 0 {
      IdempotentRest(image, info);
      FirstBlock(image, info);
      RelocatingRestTwice(AfterFirst(image), image[1..], info);
    } else if |image| == 1 {
      IdempotentRest(image, info);
    } else {
      ZeroOffsetOrEmpty(image, info);
    }
  }

  lemma ZeroOffsetOrEmpty(image: Image, info: Info)
    requires Accepted(INIT, image, info) && (|image| == 0 || info.offset == 0)
    ensures Idempotent(image, info)
  {
    if |image| > 0 {
      ZeroOffsetKeeps(INIT, image, info);
    }
  }

  // the blocks from the second on
  lemma RelocatingRestTwice(st: State, rest: Image, info: Info)
    requires |rest| > 0 && Accepted(st, rest, info)
    requires 0 <= info.size && info.offset + info.size < U64_MOD && info.offset != 0
    requires ListsAgree(st, rest, info)
    requires st.offset == 0 && st.sections == [0] && !st.absolute && st.kind != SectionBlock
    ensures var out := Relocate(st, rest, info);
      (Accepted(st, out, info) && Relocate(st, out, info) == out) <==>
      (st.kind == SignatureBlock && !SomePtrAbove(rest[0], info.size) ==> NoPtrs(rest[0]) || Recognised(rest[0], info))
  {
    hide Ptr, Relocated, Classify, Paired, SomePtrAbove, NoPtrs, Recognised, Accepts, Enter, Expected;
    var b, out := rest[0], Relocate(st, rest, info);
    if st.kind == SignatureBlock && !SomePtrAbove(b, info.size) && !NoPtrs(b) && !Recognised(b, info) {
      SecondBlockMoves(st, b, info);
      SecondIsRelocated(st, b, info);
      assert Relocate(st, out, info)[0] == Expected(Enter(st), out[0], info);
    } else {
      SecondBlockPairs(st, b, info);
      var s', t' := Classify(Enter(st), b, info), Classify(Enter(st), out[0], info);
      TwiceFrom(s', t', rest[1..], info);
      assert out[1..] == Relocate(s', rest[1..], info);
    }
  }

  lemma SecondIsRelocated(st: State, b: Block, info: Info)
    requires st.offset == 0 && st.sections == [0] && !st.absolute && st.kind == SignatureBlock
    requires !SomePtrAbove(b, info.size)
    ensures Expected(Enter(st), b, info) == Relocated(b, info.offset)
  {
  }

  // ---- when the lists agree ----

  // No pointer of the block becomes zero when the slot offset is added.
  predicate PtrsStay(b: Block, info: Info) {
    forall x :: 0 <= x < 4 ==> Ptr(b, x) != Gone(info)
  }

  predicate NoneDropped(sections: seq<u64>, b: Block, n: nat)
    requires n <= 4
  {
    n == 0 ||
    (var rest, p := AddPtrs(sections, b, 0, n - 1), Ptr(b, n - 1);
      NoneDropped(sections, b, n - 1) && (p == 0 || p in rest || |rest| < MAX_SECTIONS))
  }

  // in no signature block that programming the image relocates
  predicate NoPtrVanishes(st: State, image: Image, info: Info)
    decreases image
  {
    |image| == 0 ||
    (var e := Enter(st);
      && (e.kind == SignatureBlock && !AbsoluteAfter(e, image[0], info) ==> PtrsStay(image[0], info))
      && NoPtrVanishes(Classify(e, image[0], info), image[1..], info))
  }

  predicate NoSectionDropped(st: State, image: Image, info: Info)
    decreases image
  {
    |image| == 0 ||
    (var e := Enter(st);
      && (e.kind == SignatureBlock && !AbsoluteAfter(e, image[0], info) ==> NoneDropped(e.sections, image[0], 4))
      && NoSectionDropped(Classify(e, image[0], info), image[1..], info))
  }

  lemma {:induction false} GoneStaysOut(sections: seq<u64>, b: Block, info: Info, absolute: bool, n: nat)
    requires n <= 4 && Gone(info) !in sections && (absolute || PtrsStay(b, info))
    ensures Gone(info) !in AddPtrs(sections, b, if absolute then info.offset else 0, n)
    ensures !absolute ==> NoneLost(sections, b, info, n)
  {
    hide Ptr;
    if n > 0 { GoneStaysOut(sections, b, info, absolute, n - 1); }
  }

  lemma {:induction false} NoneVanishes(st: State, image: Image, info: Info)
    requires NoPtrVanishes(st, image, info) && Gone(info) !in st.sections
    ensures ListsAgree(st, image, info)
    decreases image
  {
    hide Ptr, AddPtrs, PtrsStay, FromLE32;
    if |image| > 0 {
      var e, b := Enter(st), image[0];
      if e.kind == SignatureBlock {
        GoneStaysOut(st.sections, b, info, AbsoluteAfter(e, b, info), 4);
      }
      NoneVanishes(Classify(e, b, info), image[1..], info);
    }
  }

  lemma {:induction false} KeptIsNotLost(sections: seq<u64>, b: Block, info: Info, n: nat)
    requires n <= 4 && NoneDropped(sections, b, n)
    ensures NoneLost(sections, b, info, n)
  {
    hide Ptr;
    if n > 0 { KeptIsNotLost(sections, b, info, n - 1); }
  }

  lemma {:induction false} NoneDrops(st: State, image: Image, info: Info)
    requires NoSectionDropped(st, image, info) && st.offset + BLOCK * (|image| + 1) <= Gone(info)
    ensures ListsAgree(st, image, info)
    decreases image
  {
    hide Ptr, AddPtrs, NoneLost, NoneDropped, FromLE32;
    if |image| > 0 {
      var e, b := Enter(st), image[0];
      if e.kind == SignatureBlock && !AbsoluteAfter(e, b, info) {
        KeptIsNotLost(st.sections, b, info, 4);
      }
      NoneDrops(Classify(e, b, info), image[1..], info);
    }
  }

  /** No pointer vanishes, or the image fits the slot and the first pass drops no section: then both passes
      list the same sections. */
  lemma ListsAgreeWhen(image: Image, info: Info)
    requires info.offset + info.size < U64_MOD && 0 <= info.size
    requires NoPtrVanishes(INIT, image, info)
      || (BLOCK * |image| <= info.size && NoSectionDropped(INIT, image, info))
    ensures ListsAgree(INIT, image, info)
  {
    if NoPtrVanishes(INIT, image, info) {
      NoneVanishes(INIT, image, info);
    } else {
      NoneDrops(INIT, image, info);
    }
  }

  // ---- images that cannot be programmed twice ----

  // a block with four pointers
  function PointerBlock(p: seq<u64>): Block
    requires |p| == 4
  {
    seq(PTRS, _ => 0) + (LE(p[0], 8) + LE(p[1], 8) + LE(p[2], 8) + LE(p[3], 8)) + seq(BLOCK - PTRS - 32, _ => 0)
  }

  function CmfBlock(): Block {
    LE(CMF_MAGIC, 4) + seq(BLOCK - 4, _ => 0)
  }

  lemma CmfIsMagic()
    ensures FromLE32(CmfBlock()[..4]) == CMF_MAGIC
  {
    LE32RoundTrip(CMF_MAGIC);
    assert CmfBlock()[..4] == LE(CMF_MAGIC, 4);
  }

  lemma SealedPtr(b: Block, x: nat)
    requires x < 4
    ensures Ptr(Seal(b), x) == Ptr(b, x)
  {
    hide Seal, CrcOk, FromLE64;
    SealedCrcOk(b);
    SliceOfSlice(Seal(b), 0, CRC, PTRS + 8 * x, PTRS + 8 * x + 8);
    SliceOfSlice(b, 0, CRC, PTRS + 8 * x, PTRS + 8 * x + 8);
    assert Seal(b)[0..CRC] == Seal(b)[..CRC] && b[0..CRC] == b[..CRC];
  }

  // the block with a good CRC
  function SigBlock(p: seq<u64>): Block
    requires |p| == 4
  {
    Seal(PointerBlock(p))
  }

  lemma SigBlockPtr(p: seq<u64>, x: nat)
    requires |p| == 4 && x < 4
    ensures Ptr(SigBlock(p), x) == p[x] && CrcOk(SigBlock(p))
  {
    hide LE, FromLE64, Seal, CrcOk;
    LE64RoundTrip(p[x]);
    assert PointerBlock(p)[PTRS + 8 * x..PTRS + 8 * x + 8] == LE(p[x], 8);
    SealedPtr(PointerBlock(p), x);
    SealedCrcOk(PointerBlock(p));
  }
}
