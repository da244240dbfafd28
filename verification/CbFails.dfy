/** Data that is programmed into a slot and then not verified there: a short last piece behind a signature block. */
module CbFails {
  import opened Bits
  import opened FlashDev
  import opened Tables
  import opened RsuOps
  import opened Image
  import opened ImageTwice
  import opened ImageFails
  import opened CbProgram

  // a section block, its signature block with one pointer, and four bytes
  function ShortTailData(): (d: seq<byte>)
    ensures |d| == 2 * BLOCK + 4
  {
    CmfBlock() + SigBlock([1, 0, 0, 0]) + [0, 0, 0, 0]
  }

  lemma SigPtrs(x: nat)
    requires x < 4
    ensures Ptr(SigBlock([1, 0, 0, 0]), x) == [1, 0, 0, 0][x] && CrcOk(SigBlock([1, 0, 0, 0]))
  {
    SigBlockPtr([1, 0, 0, 0], x);
  }

  // the signature block is relocated, and its end changes
  lemma SigMoves(info: Info)
    requires 0 < info.offset && 0 < info.size < U64_MOD / 2
    ensures var e, b := State(BLOCK, SignatureBlock, [0], false), SigBlock([1, 0, 0, 0]);
      && Accepts(e, b, info) && Expected(e, b, info) == Relocated(b, info.offset)
      && Relocated(b, info.offset)[4..] != b[4..]
      && Classify(e, b, info) == State(BLOCK, RegularBlock, [0, 1], false)
  {
    hide SigBlock, Ptr, CrcOk, Relocated;
    var b := SigBlock([1, 0, 0, 0]);
    forall x | 0 <= x < 4 ensures Ptr(b, x) == [1, 0, 0, 0][x] && CrcOk(b) {
      SigPtrs(x);
    }
    assert Ptr(b, 0) == 1 && Ptr(b, 1) == 0 && Ptr(b, 2) == 0 && Ptr(b, 3) == 0;
    RelocatedPtr(b, info.offset, 0);
    assert Ptr(Relocated(b, info.offset), 0) != Ptr(b, 0);
    SamePtrs(b, Relocated(b, info.offset));
    assert AddPtrs([0], b, 0, 1) == [0, 1];
    assert AddPtrs([0], b, 0, 2) == AddPtrs([0], b, 0, 3) == AddPtrs([0], b, 0, 4) == [0, 1];
  }

  lemma SamePtrs(b: Block, c: Block)
    ensures b[4..] == c[4..] ==> Ptr(b, 0) == Ptr(c, 0)
  {
    if b[4..] == c[4..] {
      assert b[PTRS..PTRS + 8] == b[4..][PTRS - 4..PTRS + 4] && c[PTRS..PTRS + 8] == c[4..][PTRS - 4..PTRS + 4];
      assert b[PTRS + 8 * 0..PTRS + 8 * 0 + 8] == c[PTRS + 8 * 0..PTRS + 8 * 0 + 8];
    }
  }

  lemma CmfTurns(info: Info)
    ensures Accepts(Enter(INIT), CmfBlock(), info)
    ensures Classify(Enter(INIT), CmfBlock(), info) == State(0, SignatureBlock, [0], false)
    ensures Expected(Enter(INIT), CmfBlock(), info) == CmfBlock()
  {
    hide CmfBlock, FromLE32;
    CmfIsMagic();
  }

  lemma Pieces(stale: Block)
    ensures var d := ShortTailData();
      && d[..BLOCK] == CmfBlock() && d[BLOCK..][..BLOCK] == SigBlock([1, 0, 0, 0])
      && d[BLOCK..][BLOCK..] == [0, 0, 0, 0] && Filled([0, 0, 0, 0], stale)[4..] == stale[4..]
  {
    hide CmfBlock, SigBlock;
  }

  lemma StepsOver(d: seq<byte>, info: Info, stale: Block)
    requires d == ShortTailData() && 0 < info.offset && 0 < info.size < U64_MOD / 2
    ensures var e, b := State(BLOCK, SignatureBlock, [0], false), SigBlock([1, 0, 0, 0]);
      var rest, s1 := d[BLOCK..], State(0, SignatureBlock, [0], false);
      && After(INIT, d, info, stale) == s1 && Turned(INIT, d, info, stale) == CmfBlock()
      && After(s1, rest, info, CmfBlock()) == State(BLOCK, RegularBlock, [0, 1], false)
      && Turned(s1, rest, info, CmfBlock()) == Relocated(b, info.offset)
      && Accepts(Enter(INIT), Filled(d, stale), info) && Accepts(Enter(s1), Filled(rest, CmfBlock()), info)
  {
    hide CmfBlock, SigBlock, Classify, Expected, Accepts, Relocated;
    Pieces(stale);
    SigMoves(info);
    CmfTurns(info);
    StepIs(INIT, d, info, stale);
    StepIs(State(0, SignatureBlock, [0], false), d[BLOCK..], info, CmfBlock());
    assert Filled(d, stale) == CmfBlock() && Filled(d[BLOCK..], CmfBlock()) == SigBlock([1, 0, 0, 0]);
  }

  lemma LastTurns(info: Info, stale: Block)
    ensures var st := State(BLOCK, RegularBlock, [0, 1], false);
      && Turned(st, [0, 0, 0, 0], info, stale)[4..] == stale[4..]
      && Accepts(Enter(st), Filled([0, 0, 0, 0], stale), info)
  {
    Pieces(stale);
  }

  /** Every partition that this data can be written to and that does not begin at zero takes it and never verifies
      it, whatever the buffers hold. */
  lemma ProgramsUnverified(p: Part, size: nat, stale: Block, vstale: Block)
    requires 0 < p.offset && Placed(p, size, 2 * BLOCK + 4)
    ensures Fits(p, false, ShortTailData(), size) && !TailAgrees(INIT, ShortTailData(), InfoOf(p), stale, vstale)
  {
    hide CmfBlock, SigBlock, Relocated, Turned, After, Accepts, Enter, Filled;
    var d, info := ShortTailData(), InfoOf(p);
    var s1, s2 := State(0, SignatureBlock, [0], false), State(BLOCK, RegularBlock, [0, 1], false);
    var b, rest := SigBlock([1, 0, 0, 0]), d[BLOCK..];
    Pieces(stale);
    SigMoves(info);
    StepsOver(d, info, stale);
    StepsOver(d, info, Zeros());
    LastTurns(info, b);
    LastTurns(info, Relocated(b, info.offset));
    TailStep(INIT, d, info, stale, vstale);
    TailStep(s1, rest, info, CmfBlock(), CmfBlock());
    assert !TailAgrees(s2, [0, 0, 0, 0], info, b, Relocated(b, info.offset));
    assert Programmable(false, s2, [0, 0, 0, 0], info, Relocated(b, info.offset));
    assert Programmable(false, s1, rest, info, CmfBlock());
  }
}
