/** Images that are accepted into a slot and are refused or changed when they are programmed there again. */
module ImageFails {
  import opened Bits
  import opened FlashDev
  import opened Image
  import opened ImageTwice

  // ---- a short one, for slots that begin below their own size ----

  lemma SmallPtrsInside(b: Block, size: nat)
    requires size < U64_MOD / 2 && forall x :: 0 <= x < 4 ==> Ptr(b, x) <= size
    ensures PtrsInside(b, 0, size) && !SomePtrAbove(b, size)
  {
    hide Ptr;
  }

  // the state machine on an image of two blocks
  lemma TwoBlocks(image: Image, info: Info)
    requires |image| == 2 && FromLE32(image[0][..4]) == CMF_MAGIC && CrcOk(image[1]) && 0 <= info.size < U64_MOD / 2
    requires forall x :: 0 <= x < 4 ==> Ptr(image[1], x) <= info.size
    ensures Accepted(INIT, image, info) && Relative(image, info)
  {
    hide Ptr, CrcOk, FromLE32, PtrsInside, SomePtrAbove, AddPtrs, Relocate;
    SmallPtrsInside(image[1], info.size);
    FirstBlock(image, info);
    var e, rest := Enter(AfterFirst(image)), image[1..];
    assert rest[0] == image[1] && !AbsoluteAfter(e, image[1], info);
    assert Accepts(e, rest[0], info);
    assert Accepted(Classify(e, rest[0], info), rest[1..], info);
  }

  lemma TwoBlocksAgree(image: Image, info: Info)
    requires |image| == 2 && 0 < info.offset && info.offset + info.size < U64_MOD / 2 && 0 <= info.size
    ensures ListsAgree(INIT, image, info)
  {
    hide Ptr, FromLE32, AddPtrs, SomePtrAbove, NoneLost;
    var s1 := Classify(Enter(INIT), image[0], info);
    ShortList([0], image[1], info, 4);
    assert image[1..][0] == image[1] && s1.sections == [0];
    assert ListsAgree(s1, image[1..], info);
  }

  function ShortImage(): Image {
    [CmfBlock(), SigBlock([1, 0, 0, 0])]
  }

  lemma ShortImageFails(info: Info)
    requires 0 < info.offset < info.size && info.offset + info.size < U64_MOD / 2
    ensures var image := ShortImage();
      Accepted(INIT, image, info) && ListsAgree(INIT, image, info) && !Idempotent(image, info)
  {
    hide Idempotent, Ptr, CrcOk, SigBlock, CmfBlock, Accepted, FromLE32, ListsAgree;
    var image, b := ShortImage(), SigBlock([1, 0, 0, 0]);
    forall x | 0 <= x < 4 ensures Ptr(b, x) == [1, 0, 0, 0][x] && CrcOk(b) {
      SigBlockPtr([1, 0, 0, 0], x);
    }
    CmfIsMagic();
    assert Ptr(b, 0) == 1;
    TwoBlocks(image, info);
    TwoBlocksAgree(image, info);
    RelocatingTwice(image, info);
  }

  /** Where both passes list the same sections, a slot has an image that fails if and only if its offset lies
      between zero and its size. */
  lemma FailsWithSameLists(info: Info)
    requires info.offset + info.size < U64_MOD / 2 && 0 <= info.size
    ensures (exists image: Image ::
               Accepted(INIT, image, info) && ListsAgree(INIT, image, info) && !Idempotent(image, info))
      <==> 0 < info.offset < info.size
  {
    hide Idempotent, Accepted, ListsAgree, Recognised, Ptr, FromLE32, SomePtrAbove;
    if 0 < info.offset < info.size {
      ShortImageFails(info);
    }
    forall image: Image | Accepted(INIT, image, info) && ListsAgree(INIT, image, info) && !(0 < info.offset < info.size)
      ensures Idempotent(image, info)
    {
      RelocatingTwice(image, info);
      if Relative(image, info) && info.offset != 0 && !NoPtrs(image[1]) {
        HighSlotIsRecognised(image[1], info);
      }
    }
  }

  // ---- a long one, for slots of 34 blocks ----

  // The image is UNITS pairs of a section block and its signature block, then one pair more. Unit k names
  // three filler sections and unit k + 1; in unit 1 the first filler is the pointer that vanishes.
  const UNITS: nat := 16

  predicate Roomy(info: Info) {
    && 0 < info.offset && info.offset + info.size < U64_MOD / 2
    && info.offset >= info.size >= BLOCK * (2 * UNITS + 2)
  }

  function Ptrs(k: nat, info: Info): (p: seq<u64>)
    requires k < UNITS && Roomy(info)
    ensures |p| == 4
  {
    [if k == 1 then U64_MOD - info.offset else BLOCK * (2 * k + 1) + 1, BLOCK * (2 * k + 1) + 2,
     BLOCK * (2 * k + 1) + 3, BLOCK * (2 * k + 2)]
  }

  // the signature block of the last pair, whose pointer lies outside the slot wherever it is counted from
  function Outside(info: Info): Block
    requires Roomy(info)
  {
    SigBlock([info.offset + info.size + 1, 0, 0, 0])
  }

  function Units(k: nat, info: Info): (r: Image)
    requires k <= UNITS && Roomy(info)
    ensures |r| == 2 * (UNITS - k) + 2
    decreases UNITS - k
  {
    if k == UNITS then [CmfBlock(), Outside(info)]
    else [CmfBlock(), SigBlock(Ptrs(k, info))] + Units(k + 1, info)
  }

  // ---- sections added to a list ----

  function AddAll(sections: seq<u64>, xs: seq<u64>): seq<u64> {
    if |xs| == 0 then sections else AddSection(AddAll(sections, xs[..|xs| - 1]), xs[|xs| - 1])
  }

  // New sections go in until the list is full.
  lemma {:induction false} AddFresh(sections: seq<u64>, xs: seq<u64>)
    requires |sections| <= MAX_SECTIONS && forall i :: 0 <= i < |xs| ==> xs[i] !in sections
    requires forall i, j :: 0 <= i < j < |xs| ==> xs[i] != xs[j]
    ensures var n := if |xs| < MAX_SECTIONS - |sections| then |xs| else MAX_SECTIONS - |sections|;
      AddAll(sections, xs) == sections + xs[..n]
  {
    if |xs| > 0 {
      AddFresh(sections, xs[..|xs| - 1]);
    }
  }

  // what a signature block adds: its non-zero pointers, less the base
  function Added(b: Block, base: u64, n: nat): seq<u64>
    requires n <= 4
  {
    if n == 0 then []
    else Added(b, base, n - 1) + if Ptr(b, n - 1) == 0 then [] else [Minus(Ptr(b, n - 1), base)]
  }

  lemma AddAllSnoc(sections: seq<u64>, xs: seq<u64>, x: u64)
    ensures AddAll(sections, xs + [x]) == AddSection(AddAll(sections, xs), x)
  {
    assert (xs + [x])[..|xs|] == xs;
  }

  lemma {:induction false} AddsThem(sections: seq<u64>, b: Block, base: u64, n: nat)
    requires n <= 4
    ensures AddPtrs(sections, b, base, n) == AddAll(sections, Added(b, base, n))
  {
    hide Ptr;
    if n > 0 {
      AddsThem(sections, b, base, n - 1);
      AddAllSnoc(sections, Added(b, base, n - 1), Minus(Ptr(b, n - 1), base));
      assert Added(b, base, n - 1) + [] == Added(b, base, n - 1);
    }
  }

  // ---- one unit ----

  lemma UnitPtrs(k: nat, info: Info, x: nat)
    requires k < UNITS && Roomy(info) && x < 4
    ensures Ptr(SigBlock(Ptrs(k, info)), x) == Ptrs(k, info)[x] && CrcOk(SigBlock(Ptrs(k, info)))
  {
    SigBlockPtr(Ptrs(k, info), x);
  }

  // the block of unit k as the first or the second pass meets it
  function Met(k: nat, info: Info, second: bool): Block
    requires k < UNITS && Roomy(info)
  {
    if second then Relocated(SigBlock(Ptrs(k, info)), info.offset) else SigBlock(Ptrs(k, info))
  }

  // what it adds
  function News(k: nat, info: Info, second: bool): seq<u64>
    requires k < UNITS && Roomy(info)
  {
    if second && k == 1 then Ptrs(k, info)[1..] else Ptrs(k, info)
  }

  lemma FirstInside(k: nat, info: Info)
    requires k < UNITS && Roomy(info)
    ensures var b := SigBlock(Ptrs(k, info));
      CrcOk(b) && PtrsInside(b, 0, info.size) && (k == 0 ==> !SomePtrAbove(b, info.size))
  {
    hide Ptr, SigBlock, CrcOk;
    var b := SigBlock(Ptrs(k, info));
    forall x | 0 <= x < 4 ensures Ptr(b, x) == Ptrs(k, info)[x] && CrcOk(b) {
      UnitPtrs(k, info, x);
    }
    assert Ptr(b, 0) == Ptrs(k, info)[0];
  }

  lemma UnitInside(k: nat, info: Info, second: bool)
    requires k < UNITS && Roomy(info)
    ensures CrcOk(Met(k, info, second))
    ensures PtrsInside(Met(k, info, second), if second then info.offset else 0, info.size)
    ensures k == 0 ==> SomePtrAbove(Met(0, info, second), info.size) == second
  {
    hide Ptr, SigBlock, Relocated, CrcOk, PtrsInside;
    var b := SigBlock(Ptrs(k, info));
    FirstInside(k, info);
    if second {
      SamePtrCheck(b, info);
      RelocatedLayout(b, info.offset);
      UnitPtrs(k, info, 3);
      RelocatedPtr(b, info.offset, 3);
    }
  }

  lemma UnitAdds(k: nat, info: Info, second: bool)
    requires k < UNITS && Roomy(info)
    ensures Added(Met(k, info, second), if second then info.offset else 0, 4) == News(k, info, second)
  {
    hide Ptr, SigBlock, Relocated, Moved, Minus;
    var b, p := SigBlock(Ptrs(k, info)), Ptrs(k, info);
    forall x | 0 <= x < 4 ensures Ptr(b, x) == p[x] && Ptr(Relocated(b, info.offset), x) == Moved(p[x], info.offset) {
      UnitPtrs(k, info, x);
      RelocatedPtr(b, info.offset, x);
    }
    MinusMoved(p[0], info);
    MinusMoved(p[1], info);
    MinusMoved(p[2], info);
    MinusMoved(p[3], info);
    var base, m := if second then info.offset else 0, Met(k, info, second);
    assert Added(m, base, 1) == if second && k == 1 then [] else [p[0]];
    assert Added(m, base, 2) == Added(m, base, 1) + [p[1]];
    assert Added(m, base, 3) == Added(m, base, 2) + [p[2]];
    assert Added(m, base, 4) == Added(m, base, 3) + [p[3]];
  }

  // ---- the two passes, unit by unit ----

  // how many sections are listed before unit k
  function Count(k: nat, second: bool): nat {
    if second then (if k < 2 then 1 + 4 * k else 4 * k) else if k < UNITS then 1 + 4 * k else MAX_SECTIONS
  }

  // The state before unit k. The first pass has no room for the last pair.
  ghost predicate Before(st: State, k: nat, info: Info, second: bool) {
    && st.offset == BLOCK * (2 * k - 1) && st.kind == RegularBlock && st.absolute == (second && k > 0)
    && |st.sections| == Count(k, second)
    && (forall v :: v in st.sections ==> v <= BLOCK * 2 * k || (v == Gone(info) && !second && k > 1))
    && (BLOCK * 2 * k in st.sections <==> second || k < UNITS)
  }

  lemma NewsFit(sections: seq<u64>, k: nat, info: Info, second: bool)
    requires k < UNITS && Roomy(info) && |sections| == Count(k, second)
    requires forall v :: v in sections ==> v <= BLOCK * 2 * k || (v == Gone(info) && !second && k > 1)
    ensures var r := AddAll(sections, News(k, info, second));
      && |r| == Count(k + 1, second)
      && (forall v :: v in r ==> v <= BLOCK * 2 * (k + 1) || (v == Gone(info) && !second && k > 0))
      && (BLOCK * 2 * (k + 1) in r <==> second || k + 1 < UNITS)
  {
    AddFresh(sections, News(k, info, second));
  }

  // the state after the section block of unit k
  lemma SectionFound(st: State, k: nat, info: Info, second: bool)
    requires k < UNITS && Roomy(info) && Before(st, k, info, second)
    ensures Enter(st).kind == SectionBlock && Accepts(Enter(st), CmfBlock(), info)
    ensures Classify(Enter(st), CmfBlock(), info) == State(BLOCK * 2 * k, SignatureBlock, st.sections, st.absolute)
    ensures Expected(Enter(st), CmfBlock(), info) == CmfBlock()
  {
    hide CmfBlock, FromLE32;
    CmfIsMagic();
  }

  lemma UnitRuns(st: State, k: nat, info: Info, second: bool)
    requires k < UNITS && Roomy(info) && Before(st, k, info, second)
    ensures var e, b := Enter(State(BLOCK * 2 * k, SignatureBlock, st.sections, st.absolute)), Met(k, info, second);
      && e.kind == SignatureBlock && Accepts(e, b, info) && AbsoluteAfter(e, b, info) == second
      && Before(Classify(e, b, info), k + 1, info, second)
  {
    hide Met, AddPtrs, AddAll, News, SomePtrAbove, PtrsInside, CrcOk, Ptr;
    UnitInside(k, info, second);
    AddsThem(st.sections, Met(k, info, second), if second then info.offset else 0, 4);
    UnitAdds(k, info, second);
    NewsFit(st.sections, k, info, second);
  }

  // Accepted and Relocate on two blocks at once.
  lemma TwoSteps(st: State, image: Image, info: Info)
    requires |image| >= 2
    ensures var s1 := Classify(Enter(st), image[0], info);
      var s2 := Classify(Enter(s1), image[1], info);
      && (Accepted(st, image, info) <==>
            Accepts(Enter(st), image[0], info) && Accepts(Enter(s1), image[1], info) && Accepted(s2, image[2..], info))
      && Relocate(st, image, info)
         == [Expected(Enter(st), image[0], info), Expected(Enter(s1), image[1], info)] + Relocate(s2, image[2..], info)
  {
    hide Classify, Enter, Accepts, Expected;
    var s1 := Classify(Enter(st), image[0], info);
    var s2 := Classify(Enter(s1), image[1], info);
    assert image[1..][0] == image[1] && image[1..][1..] == image[2..];
    assert Relocate(s1, image[1..], info) == [Expected(Enter(s1), image[1], info)] + Relocate(s2, image[2..], info);
  }

  // The first pass takes the last pair for plain data; the second looks at its pointer.
  lemma LastPair(s: State, t: State, info: Info)
    requires Roomy(info) && Before(s, UNITS, info, false) && Before(t, UNITS, info, true)
    ensures var image := [CmfBlock(), Outside(info)];
      Accepted(s, image, info) && Relocate(s, image, info) == image && !Accepted(t, image, info)
  {
    hide CmfBlock, SigBlock, FromLE32, Ptr, CrcOk;
    var image := [CmfBlock(), Outside(info)];
    TwoSteps(s, image, info);
    TwoSteps(t, image, info);
    CmfIsMagic();
    SigBlockPtr([info.offset + info.size + 1, 0, 0, 0], 0);
    assert image[2..] == [];
    var t1 := Classify(Enter(t), image[0], info);
    assert Enter(t1).kind == SignatureBlock && Enter(t1).absolute;
    assert Signed(Minus(Ptr(image[1], 0), info.offset)) > info.size;
  }

  // The first pass accepts the rest of the image from unit k on, and the second refuses what it wrote.
  lemma {:induction false} UnitsFail(s: State, t: State, k: nat, info: Info)
    requires Roomy(info) && k <= UNITS && Before(s, k, info, false) && Before(t, k, info, true)
    ensures Accepted(s, Units(k, info), info)
    ensures !Accepted(t, Relocate(s, Units(k, info), info), info)
    decreases UNITS - k
  {
    hide Before, CmfBlock, SigBlock, Classify, Enter, Accepts, Relocated, AbsoluteAfter, Accepted, Relocate;
    var image := Units(k, info);
    if k == UNITS {
      LastPair(s, t, info);
    } else {
      var out := Relocate(s, image, info);
      TwoSteps(s, image, info);
      TwoSteps(t, out, info);
      SectionFound(s, k, info, false);
      SectionFound(t, k, info, true);
      UnitRuns(s, k, info, false);
      UnitRuns(t, k, info, true);
      var s1, t1 := Classify(Enter(s), image[0], info), Classify(Enter(t), image[0], info);
      var s2, t2 := Classify(Enter(s1), image[1], info), Classify(Enter(t1), out[1], info);
      assert image[2..] == Units(k + 1, info) && out[2..] == Relocate(s2, Units(k + 1, info), info);
      UnitsFail(s2, t2, k + 1, info);
    }
  }

  // ---- fewer than 34 blocks ----

  /** Of `done` blocks, `signed` are signature blocks, each behind a section block, and each has listed four
      sections at most: the list fills up at block 31 at the earliest, which leaves one block of 33. */
  lemma {:induction false} FewBlocks(st: State, image: Image, info: Info, done: nat, signed: nat)
    requires st.offset == BLOCK * (done - 1) && |st.sections| <= 1 + 4 * signed
    requires 2 * signed + (if st.kind == SignatureBlock then 1 else 0) <= done && done + |image| <= 2 * UNITS + 1
    requires BLOCK * (done + |image|) < Gone(info)
    ensures ListsAgree(st, image, info)
    decreases image
  {
    hide Ptr, FromLE32, AddPtrs, NoneLost, SomePtrAbove;
    if |image| > 0 {
      var e, b := Enter(st), image[0];
      var s' := Classify(e, b, info);
      if e.kind == SignatureBlock {
        AddsFour(st.sections, b, if AbsoluteAfter(e, b, info) then info.offset else 0, 4);
        if |image| > 2 {
          ShortList(st.sections, b, info, 4);
        }
        FewBlocks(s', image[1..], info, done + 1, signed + 1);
      } else {
        FewBlocks(s', image[1..], info, done + 1, signed);
      }
    }
  }

  lemma {:induction false} AddsFour(sections: seq<u64>, b: Block, base: u64, n: nat)
    requires n <= 4
    ensures |AddPtrs(sections, b, base, n)| <= |sections| + n
  {
    hide Ptr, Minus;
    if n > 0 { AddsFour(sections, b, base, n - 1); }
  }

  lemma FewBlocksAreFine(image: Image, info: Info)
    requires 0 <= info.size && info.offset + info.size < U64_MOD / 2
    requires Accepted(INIT, image, info) && BLOCK * |image| <= info.size < BLOCK * (2 * UNITS + 2)
    requires |image| < 2 || info.offset >= info.size
    ensures Idempotent(image, info)
  {
    hide Idempotent, Accepted, ListsAgree, Recognised, Ptr, FromLE32, SomePtrAbove;
    FewBlocks(INIT, image, info, 0, 0);
    RelocatingTwice(image, info);
    if Relative(image, info) && !NoPtrs(image[1]) {
      HighSlotIsRecognised(image[1], info);
    }
  }

  /** A slot has an image that fits, is accepted, and is refused or changed when it is programmed again if and
      only if the slot does not begin at zero, has two blocks, and either begins below its own size or has 34
      blocks. */
  lemma SlotsThatFail(info: Info)
    requires 0 <= info.size && info.offset + info.size < U64_MOD / 2
    ensures (exists image: Image ::
               Accepted(INIT, image, info) && BLOCK * |image| <= info.size && !Idempotent(image, info))
      <==> 0 < info.offset && BLOCK * 2 <= info.size && (info.offset < info.size || BLOCK * 34 <= info.size)
  {
    hide Idempotent, Accepted, ShortImage;
    if 0 < info.offset && BLOCK * 2 <= info.size && (info.offset < info.size || BLOCK * 34 <= info.size) {
      if info.offset < info.size {
        ShortImageFails(info);
        ShortLength();
      } else {
        LongImageFails(info);
      }
    } else {
      forall image: Image | Accepted(INIT, image, info) && BLOCK * |image| <= info.size
        ensures Idempotent(image, info)
      {
        if info.offset == 0 {
          ZeroOffsetOrEmpty(image, info);
        } else {
          FewBlocksAreFine(image, info);
        }
      }
    }
  }

  lemma ShortLength()
    ensures |ShortImage()| == 2
  {
  }

  lemma LongImageFails(info: Info)
    requires Roomy(info)
    ensures var image := Units(0, info);
      Accepted(INIT, image, info) && BLOCK * |image| <= info.size && !Idempotent(image, info)
  {
    UnitsFail(INIT, INIT, 0, info);
  }
}
