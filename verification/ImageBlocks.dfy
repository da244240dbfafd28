/** The block state machine of libRSU_image.c as it runs: one mutable state and one 4 KB buffer,
    relocated in place. */
module ImageBlocks {
  import opened Bits
  import opened FlashDev
  import opened Image

  lemma SwapConcat(a: seq<byte>, b: seq<byte>)
    ensures SwapSeq(a + b) == SwapSeq(a) + SwapSeq(b)
  {
    hide SwapByte;
    forall i | 0 <= i < |a| + |b| ensures SwapSeq(a + b)[i] == (SwapSeq(a) + SwapSeq(b))[i] {
      assert (a + b)[i] == if i < |a| then a[i] else b[i - |a|];
    }
  }

  // swap, compute the CRC, store it, swap back
  method Reseal(block: array<byte>)
    requires block.Length == BLOCK
    modifies block
    ensures block[..] == Seal(old(block[..]))
  {
    ghost var b: Block := block[..];
    SwapBits(block, BLOCK);
    assert block[..] == SwapSeq(b);
    var crc := SwapEndian32(Crc32(block[..CRC]));
    PutBytes(block, CRC, LE(crc, 4));
    ghost var body, word := SwapSeq(b[..CRC]), LE(crc, 4);
    assert SwapSeq(b)[..CRC] == body;
    assert block[..] == body + word;
    SwapBits(block, BLOCK);
    SwapConcat(body, word);
    SwapSeqInvolution(b[..CRC]);
    assert block[..] == SwapSeq(body + word);
  }

  // What the block looks like when its first x pointers have been moved.
  ghost function PartlyMoved(b: Block, offset: u64, x: nat): Block
    requires x <= 4
  {
    b[..PTRS] + MovedPtrs(b, offset, x) + b[PTRS + 8 * x..]
  }

  method MovePtr(block: array<byte>, offset: u64, x: nat, ghost b: Block)
    requires block.Length == BLOCK && x < 4 && block[..] == PartlyMoved(b, offset, x)
    modifies block
    ensures block[..] == PartlyMoved(b, offset, x + 1)
  {
    hide LE, FromLE64, MovedPtrs, PartlyMoved, Ptr;
    ghost var before: Block := block[..];
    PtrUntouched(b, before, offset, x);
    PtrPlaced(b, before, offset, x);
    var p := Ptr(block[..], x);
    if p != 0 {
      PutBytes(block, PTRS + 8 * x, LE(Plus(p, offset), 8));
    } else {
      ZeroPtrPlaced(b, before, offset, x);
    }
  }

  // the pointer update shared by adjusting and comparing
  method MovePtrs(block: array<byte>, offset: u64)
    requires block.Length == BLOCK
    modifies block
    ensures var b: Block := old(block[..]); block[..] == b[..PTRS] + MovedPtrs(b, offset, 4) + b[PTRS + 32..]
  {
    ghost var b: Block := block[..];
    for x := 0 to 4
      invariant block[..] == PartlyMoved(b, offset, x)
    {
      MovePtr(block, offset, x, b);
    }
  }

  lemma PtrUntouched(b: Block, c: Block, offset: u64, x: nat)
    requires x < 4 && c == PartlyMoved(b, offset, x)
    ensures Ptr(c, x) == Ptr(b, x)
  {
    hide MovedPtrs, FromLE64;
    assert c[PTRS + 8 * x..PTRS + 8 * x + 8] == b[PTRS + 8 * x..PTRS + 8 * x + 8];
  }

  lemma ZeroPtr(b: Block, x: nat)
    requires x < 4 && Ptr(b, x) == 0
    ensures b[PTRS + 8 * x..PTRS + 8 * x + 8] == LE(0, 8)
  {
    ToFromLE(b[PTRS + 8 * x..PTRS + 8 * x + 8]);
  }

  lemma PtrPlaced(b: Block, c: Block, offset: u64, x: nat)
    requires x < 4 && c == PartlyMoved(b, offset, x)
    ensures c[..PTRS + 8 * x] + LE(Moved(Ptr(b, x), offset), 8) + c[PTRS + 8 * x + 8..] == PartlyMoved(b, offset, x + 1)
  {
    hide LE, FromLE64, Ptr;
    var m, w, tail := MovedPtrs(b, offset, x), LE(Moved(Ptr(b, x), offset), 8), b[PTRS + 8 * x + 8..];
    assert c[..PTRS + 8 * x] == b[..PTRS] + m;
    assert c[PTRS + 8 * x + 8..] == tail;
    assert (b[..PTRS] + m) + w + tail == b[..PTRS] + (m + w) + tail;
  }

  // A zero pointer is left where it is.
  lemma ZeroPtrPlaced(b: Block, c: Block, offset: u64, x: nat)
    requires x < 4 && c == PartlyMoved(b, offset, x) && Ptr(b, x) == 0
    ensures c == c[..PTRS + 8 * x] + LE(0, 8) + c[PTRS + 8 * x + 8..]
  {
    hide LE, FromLE64, MovedPtrs, Ptr;
    assert c[PTRS + 8 * x..PTRS + 8 * x + 8] == b[PTRS + 8 * x..PTRS + 8 * x + 8];
    ZeroPtr(b, x);
  }

  class ImageState {
    var offset: int
    var kind: BlockType
    var sections: seq<u64>
    var absolute: bool

    function View(): State
      reads this
    {
      State(offset, kind, sections, absolute)
    }

    constructor ()
      ensures View() == INIT
    {
      offset, kind, sections, absolute := -BLOCK, RegularBlock, [0], false;
    }

    method FindSection(section: int) returns (found: bool)
      ensures found <==> 0 <= section < U64_MOD && section in sections
    {
      for x := 0 to |sections|
        invariant section !in sections[..x]
      {
        if section == sections[x] {
          return true;
        }
      }
      assert sections[..|sections|] == sections;
      return false;
    }

    method AddOne(section: u64)
      modifies this`sections
      ensures sections == AddSection(old(sections), section)
    {
      var found := FindSection(section);
      if !found && |sections| < MAX_SECTIONS {
        sections := sections + [section];
      }
    }

    /** Recognises an absolute image at its second block and collects the section pointers. */
    method SigBlockProcess(block: array<byte>, info: Info)
      requires block.Length == BLOCK
      modifies this`sections, this`absolute
      ensures absolute == AbsoluteAfter(old(View()), block[..], info)
      ensures sections == AddPtrs(old(sections), block[..], if absolute then info.offset else 0, 4)
    {
      hide Ptr;
      ghost var st := View();
      if offset == BLOCK {
        for x := 0 to 4
          invariant absolute == st.absolute
          invariant forall y :: 0 <= y < x ==> Ptr(block[..], y) <= Unsigned(info.size)
        {
          if Ptr(block[..], x) > Unsigned(info.size) {
            absolute := true;
            break;
          }
        }
      }
      assert absolute == AbsoluteAfter(st, block[..], info);
      for x := 0 to 4
        invariant absolute == AbsoluteAfter(st, block[..], info)
        invariant sections == AddPtrs(st.sections, block[..], if absolute then info.offset else 0, x)
      {
        var p := Ptr(block[..], x);
        if p != 0 {
          if absolute {
            AddOne(Minus(p, info.offset));
          } else {
            AddOne(p);
          }
        }
      }
    }

    // the stored CRC word against the CRC of the bit-swapped block; the block is swapped back
    method CheckCrc(block: array<byte>) returns (ok: bool)
      requires block.Length == BLOCK
      modifies block
      ensures ok <==> CrcOk(old(block[..]))
      ensures ok ==> block[..] == old(block[..])
    {
      hide SwapByte;
      ghost var b: Block := block[..];
      SwapBits(block, BLOCK);
      ghost var swapped := block[..];
      assert swapped == SwapSeq(b);
      assert swapped[..CRC] == SwapSeq(b[..CRC]) && swapped[CRC..] == SwapSeq(b[CRC..]);
      if SwapEndian32(FromLE32(block[CRC..])) != Crc32(block[..CRC]) {
        return false;
      }
      SwapBits(block, BLOCK);
      SwapSeqInvolution(b);
      return true;
    }

    method CheckPtrs(block: array<byte>, info: Info) returns (ok: bool)
      requires block.Length == BLOCK
      ensures ok <==> PtrsInside(block[..], if absolute then info.offset else 0, info.size)
    {
      hide Ptr;
      ghost var base := if absolute then info.offset else 0;
      for x := 0 to 4
        invariant forall y :: 0 <= y < x && Ptr(block[..], y) != 0 ==>
          Signed(Minus(Ptr(block[..], y), base)) <= info.size
      {
        var p := Ptr(block[..], x);
        if p != 0 && Signed(if absolute then Minus(p, info.offset) else p) > info.size {
          return false;
        }
      }
      return true;
    }

    /** Checks a signature block's CRC and pointers and, unless the image is absolute, relocates
        it in place. */
    method SigBlockAdjust(block: array<byte>, info: Info) returns (ok: bool)
      requires block.Length == BLOCK
      modifies block
      ensures ok <==>
        CrcOk(old(block[..])) && PtrsInside(old(block[..]), if absolute then info.offset else 0, info.size)
      ensures ok ==> block[..] == if absolute then old(block[..]) else Relocated(old(block[..]), info.offset)
    {
      hide Ptr, CrcOk, PtrsInside;
      ok := CheckCrc(block);
      if ok {
        ok := CheckPtrs(block, info);
      }
      if ok && !absolute {
        MovePtrs(block, info.offset);
        Reseal(block);
      }
    }

    // all 4096 bytes
    method BlockCompare(block: array<byte>, vblock: array<byte>) returns (same: bool)
      requires block.Length == BLOCK && vblock.Length == BLOCK
      ensures same <==> vblock[..] == block[..]
    {
      for x := 0 to BLOCK
        invariant forall i :: 0 <= i < x ==> vblock[i] == block[i]
      {
        if vblock[x] != block[x] {
          assert vblock[..][x] != block[..][x];
          return false;
        }
      }
      return true;
    }

    /** Compares flash with what programming the signature block would have left there. */
    method SigBlockCompare(ublock: array<byte>, vblock: array<byte>, info: Info) returns (same: bool)
      requires ublock.Length == BLOCK && vblock.Length == BLOCK
      ensures same <==> vblock[..] == if absolute then ublock[..] else Relocated(ublock[..], info.offset)
    {
      var block := new byte[BLOCK];
      PutBytes(block, 0, ublock[..]);
      assert block[..] == ublock[..];
      if !absolute {
        MovePtrs(block, info.offset);
        Reseal(block);
      }
      same := BlockCompare(block, vblock);
    }

    /** One 4 KB block. Without vblock it is checked and relocated in place for programming; with
        it, it is compared with what flash holds. Both ways the state moves on alike. */
    method Process(block: array<byte>, vblock: array?<byte>, info: Info) returns (ok: bool)
      requires block.Length == BLOCK && (vblock != null ==> vblock.Length == BLOCK && vblock != block)
      modifies this, block
      ensures View() == Classify(Enter(old(View())), old(block[..]), info)
      ensures vblock == null ==> (ok <==> Accepts(Enter(old(View())), old(block[..]), info))
      ensures vblock == null && ok ==> block[..] == Expected(Enter(old(View())), old(block[..]), info)
      ensures vblock != null ==> block[..] == old(block[..])
      ensures vblock != null ==> (ok <==> vblock[..] == Expected(Enter(old(View())), block[..], info))
    {
      hide Relocated, CrcOk, PtrsInside, AddPtrs, SomePtrAbove;
      offset := offset + BLOCK;
      var found := FindSection(offset);
      if found {
        kind := SectionBlock;
      }
      assert View() == Enter(old(View()));
      ok := true;
      match kind {
        case SectionBlock =>
          kind := if FromLE32(block[..4]) == CMF_MAGIC then SignatureBlock else RegularBlock;
        case SignatureBlock =>
          SigBlockProcess(block, info);
          kind := RegularBlock;
          if vblock != null {
            ok := SigBlockCompare(block, vblock, info);
          } else {
            ok := SigBlockAdjust(block, info);
          }
          return;
        case RegularBlock =>
      }
      if vblock != null {
        ok := BlockCompare(block, vblock);
      }
    }
  }
}
