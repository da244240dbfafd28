/** libRSU_cb.c: streaming an image into a slot, and verifying it there. */
module CbProgram {
  import opened Bits
  import opened FlashDev
  import opened DualCopy
  import opened Tables
  import opened Priority
  import opened SptOps
  import opened RsuOps
  import opened RsuSlots
  import opened Image
  import opened ImageBlocks
  import ImageSections

  // ---- data callbacks ----

  /** A data callback: it hands out the data in order, and says 0 only at the end. A buffer in RAM
      (librsu_cb_buf) gives as much as it is asked for and cannot fail; any other source chooses the size
      of its pieces, and may fail. */
  class Source {
    var data: seq<byte>
    const buffered: bool
    ghost var faults: nat

    constructor (data: seq<byte>, buffered: bool)
      ensures this.data == data && this.buffered == buffered && faults == 0
    {
      this.data, this.buffered, faults := data, buffered, 0;
    }

    // The count has not gone down, and not up if the callback cannot fail.
    ghost predicate FaultsSince(before: nat)
      reads this`faults
    {
      faults >= before && (buffered ==> faults == before)
    }

    method Next(max: nat) returns (ok: bool, piece: seq<byte>)
      requires max > 0
      modifies this
      ensures FaultsSince(old(faults)) && (faults == old(faults) ==> ok)
      ensures |piece| <= max && piece + data == old(data)
      ensures ok ==> (piece == [] <==> old(data) == [])
      ensures buffered ==> |piece| == if old(|data|) < max then old(|data|) else max
    {
      if buffered {
        piece := FromBuffer(max);
        return true, piece;
      }
      var fault: bool, n: int := *, *;
      if fault {
        faults := faults + 1;
        return false, [];
      }
      if !(0 < n <= max && n <= |data|) {
        n := if |data| < max then |data| else max;
      }
      ok, piece := true, data[..n];
      data := data[n..];
    }

    // librsu_cb_buf: as many bytes as asked for, or all that are left
    method FromBuffer(max: nat) returns (piece: seq<byte>)
      modifies this`data
      ensures piece + data == old(data) && |piece| == if old(|data|) < max then old(|data|) else max
    {
      if |data| == 0 {
        return [];
      }
      var n := if |data| < max then |data| else max;
      piece, data := data[..n], data[n..];
    }
  }

  // ---- one buffer of data ----

  // how much of the data goes into the buffer
  function Chunk(d: seq<byte>): nat {
    if |d| < BLOCK then |d| else BLOCK
  }

  // the buffer afterwards: behind a short last piece it holds what it held before
  function Filled(d: seq<byte>, stale: Block): Block {
    d[..Chunk(d)] + stale[Chunk(d)..]
  }

  /** The inner loop of both paths: fills the 4 KB buffer from as many pieces as it takes. */
  method FillBlock(source: Source, buf: array<byte>) returns (ok: bool, cnt: nat, done: bool)
    requires buf.Length == BLOCK
    modifies source, buf
    ensures source.FaultsSince(old(source.faults)) && (source.faults == old(source.faults) ==> ok)
    ensures ok ==> cnt == Chunk(old(source.data)) && buf[..] == Filled(old(source.data), old(buf[..]))
    ensures ok ==> source.data == old(source.data[Chunk(source.data)..])
    ensures ok && done ==> source.data == []
    ensures ok ==> done || cnt == BLOCK
  {
    ghost var d, stale := source.data, buf[..];
    cnt, done := 0, false;
    while cnt < BLOCK
      invariant cnt <= BLOCK && cnt <= |d| && source.FaultsSince(old(source.faults))
      invariant buf[..] == d[..cnt] + stale[cnt..] && source.data == d[cnt..]
    {
      var piece;
      ok, piece := source.Next(BLOCK - cnt);
      if !ok {
        return;
      }
      if |piece| == 0 {
        done := true;
        return;
      }
      ghost var before := buf[..];
      PutBytes(buf, cnt, piece);
      assert d[cnt..] == piece + source.data;
      assert d[..cnt + |piece|] == d[..cnt] + piece;
      assert before[..cnt] == d[..cnt] && before[cnt + |piece|..] == stale[cnt + |piece|..];
      cnt := cnt + |piece|;
    }
    ok := true;
  }

  // ---- images as byte streams ----

  function Blocks(d: seq<byte>): Image {
    if |d| < BLOCK then [] else [d[..BLOCK]] + Blocks(d[BLOCK..])
  }

  function Bytes(image: Image): (r: seq<byte>)
    ensures |r| == BLOCK * |image|
  {
    if |image| == 0 then [] else image[0] + Bytes(image[1..])
  }

  lemma {:induction false} BlocksLength(d: seq<byte>)
    requires |d| % BLOCK == 0
    ensures BLOCK * |Blocks(d)| == |d|
  {
    if |d| >= BLOCK {
      assert |d[BLOCK..]| % BLOCK == 0;
      BlocksLength(d[BLOCK..]);
    }
  }

  // the buffer after one block, and the state
  function Turned(st: State, d: seq<byte>, info: Info, stale: Block): Block {
    Expected(Enter(st), Filled(d, stale), info)
  }

  function After(st: State, d: seq<byte>, info: Info, stale: Block): State {
    Classify(Enter(st), Filled(d, stale), info)
  }

  /** What flash must hold for the rest d of the data, from state st, with the buffer as it is. Each block is
      relocated if the state machine says so; a short last one is processed together with what is behind it in
      the buffer, and cut off again. */
  function Target(raw: bool, st: State, d: seq<byte>, info: Info, stale: Block): (r: seq<byte>)
    ensures |r| == |d|
    decreases |d|
  {
    if raw || d == [] then d
    else
      Turned(st, d, info, stale)[..Chunk(d)]
      + Target(raw, After(st, d, info, stale), d[Chunk(d)..], info, Turned(st, d, info, stale))
  }

  // The state machine accepts every block.
  predicate Programmable(raw: bool, st: State, d: seq<byte>, info: Info, stale: Block)
    decreases |d|
  {
    raw || d == [] ||
    (Accepts(Enter(st), Filled(d, stale), info)
     && Programmable(raw, After(st, d, info, stale), d[Chunk(d)..], info, Turned(st, d, info, stale)))
  }

  /** Data in whole blocks is an image: what flash must hold is the relocated image, whatever the buffer
      holds. */
  lemma {:induction false} WholeIsImage(st: State, d: seq<byte>, info: Info, stale: Block)
    requires |d| % BLOCK == 0
    ensures Target(false, st, d, info, stale) == Bytes(Relocate(st, Blocks(d), info))
    ensures Programmable(false, st, d, info, stale) <==> Accepted(st, Blocks(d), info)
    decreases |d|
  {
    hide Expected, Classify, Accepts, Enter;
    if |d| > 0 {
      var b, rest, r := d[..BLOCK], d[BLOCK..], Relocate(st, Blocks(d), info);
      assert Filled(d, stale) == b && Blocks(d)[1..] == Blocks(rest);
      assert r[1..] == Relocate(Classify(Enter(st), b, info), Blocks(rest), info);
      WholeIsImage(Classify(Enter(st), b, info), rest, info, Expected(Enter(st), b, info));
    }
  }

  // The first block is never a signature block: what the buffer holds at first does not matter.
  lemma StartUnused(raw: bool, d: seq<byte>, info: Info, one: Block, other: Block)
    ensures Target(raw, INIT, d, info, one) == Target(raw, INIT, d, info, other)
    ensures Programmable(raw, INIT, d, info, one) <==> Programmable(raw, INIT, d, info, other)
  {
    hide FromLE32;
    if |d| >= BLOCK {
      assert Filled(d, one) == Filled(d, other);
    } else if d != [] && !raw {
      assert Enter(INIT).kind == SectionBlock;
      ShortData(d, info, one);
      ShortData(d, info, other);
    }
  }

  // less than one block
  lemma ShortData(d: seq<byte>, info: Info, stale: Block)
    requires |d| < BLOCK
    ensures Target(false, INIT, d, info, stale) == d && Programmable(false, INIT, d, info, stale)
  {
    hide FromLE32;
  }

  // a buffer to state things with
  function Zeros(): Block {
    seq(BLOCK, _ => 0)
  }

  // ---- programming one partition ----

  // what partition.size returns: the length as a signed word
  function SizeOf(p: Part): (n: int)
    ensures -0x8000_0000 <= n < 0x8000_0000 && n % 0x1_0000_0000 == p.length
  {
    if p.length < 0x8000_0000 then p.length else p.length - 0x1_0000_0000
  }

  function InfoOf(p: Part): Info {
    Info(p.offset, SizeOf(p))
  }

  // bytes [offset, offset + |d|) of the partition
  ghost predicate Contains(m: Mem, p: Part, offset: nat, d: seq<byte>) {
    d == [] || (p.offset + offset + |d| <= |m| && m[p.offset + offset..p.offset + offset + |d|] == d)
  }

  // Bytes [offset, offset + n) of the partition are erased.
  ghost predicate BlankAt(m: Mem, p: Part, offset: nat, n: nat) {
    var a := p.offset + offset;
    n == 0 || (a + n <= |m| && forall j :: a <= j < a + n ==> m[j] == 0xFF)
  }

  // n bytes can be written to the partition, and it is not too large for partition.size.
  predicate Placed(p: Part, size: nat, n: nat) {
    n == 0 || (SizeOf(p) >= 0 && n <= p.length && Writable(size, p.offset, n))
  }

  // What writing d at offset leaves of the partition, however it ends.
  ghost predicate Wrote(m: Mem, m': Mem, p: Part, offset: nat, d: seq<byte>, ok: bool) {
    && SameOutside(m, m', p.offset + offset, |d|)
    && (ok ==> Contains(m', p, offset, d))
    && (m' != m ==> offset + |d| <= p.length)
  }

  lemma BlankProgram(m: Mem, p: Part, offset: nat, d: seq<byte>)
    requires |d| > 0 && BlankAt(m, p, offset, |d|)
    ensures Contains(Programmed(m, p.offset + offset, d), p, offset, d)
  {
    var a := p.offset + offset;
    var r := Programmed(m, a, d);
    forall i | 0 <= i < |d| ensures r[a..a + |d|][i] == d[i] {
      assert m[a + i] == 0xFF;
      AndFF(d[i]);
    }
  }

  lemma WroteBuffer(m: Mem, m': Mem, p: Part, offset: nat, d: seq<byte>, ok: bool)
    requires p.offset + offset + |d| <= |m| && offset + |d| <= p.length
    requires m' == m || TornProgram(m, m', p.offset + offset, d) || m' == Programmed(m, p.offset + offset, d)
    requires ok ==> Contains(m', p, offset, d)
    ensures Wrote(m, m', p, offset, d, ok)
  {
  }

  // the byte-by-byte comparison of the first cnt bytes
  method SameBytes(buf: array<byte>, vbuf: array<byte>, cnt: nat) returns (same: bool)
    requires cnt <= buf.Length && cnt <= vbuf.Length
    ensures same <==> vbuf[..cnt] == buf[..cnt]
  {
    for x := 0 to cnt
      invariant forall i :: 0 <= i < x ==> vbuf[i] == buf[i]
    {
      if vbuf[x] != buf[x] {
        assert vbuf[..cnt][x] != buf[..cnt][x];
        return false;
      }
    }
    return true;
  }

  // Reads the bytes back and compares them with what was written.
  method ReadBack(db: Database, x: nat, offset: nat, buf: array<byte>, vbuf: array<byte>, cnt: nat) returns (ok: bool)
    requires db.spt.partitions <= MAX_PARTITIONS && x < db.spt.partitions
    requires 0 < cnt <= BLOCK == buf.Length == vbuf.Length && buf != vbuf
    modifies db.flash`faults, vbuf
    ensures db.flash.faults >= old(db.flash.faults)
    ensures ok ==> Contains(db.flash.mem, db.spt.part[x], offset, buf[..cnt])
    ensures db.flash.faults == old(db.flash.faults) && CanRead(db.spt.part[x], |db.flash.mem|, offset, cnt) ==>
      (Contains(db.flash.mem, db.spt.part[x], offset, buf[..cnt]) ==> ok)
  {
    hide Contains, CanRead;
    var data;
    ok, data := db.ReadPart(x, offset, cnt);
    if ok {
      PutBytes(vbuf, 0, data);
      assert vbuf[..cnt] == data;
      ContainsIs(db.flash.mem, db.spt.part[x], offset, buf[..cnt], data);
      ok := SameBytes(buf, vbuf, cnt);
    }
  }

  /** The size checks, the write, the read-back and the comparison of one filled buffer. On erased
      flash it fails only if the buffer cannot be written there. */
  method WriteBuffer(db: Database, x: nat, offset: nat, buf: array<byte>, vbuf: array<byte>,
                     cnt: nat) returns (ok: bool)
    requires db.spt.partitions <= MAX_PARTITIONS && x < db.spt.partitions
    requires 0 < cnt <= BLOCK == buf.Length == vbuf.Length && buf != vbuf
    modifies db.flash, vbuf
    ensures db.flash.faults >= old(db.flash.faults) && |db.flash.mem| == old(|db.flash.mem|)
    ensures Wrote(old(db.flash.mem), db.flash.mem, db.spt.part[x], offset, buf[..cnt], ok)
    ensures ok ==> SizeOf(db.spt.part[x]) >= 0 && CanWrite(db.spt.part[x], |db.flash.mem|, offset, cnt)
    ensures db.flash.faults == old(db.flash.faults) && BlankAt(old(db.flash.mem), db.spt.part[x], offset, cnt) ==>
      SizeOf(db.spt.part[x]) >= 0 && CanWrite(db.spt.part[x], |db.flash.mem|, offset, cnt) ==> ok
  {
    hide Wrote, BlankAt, Contains, TornProgram, CanRead, CanWrite;
    ghost var m, p, d := db.flash.mem, db.spt.part[x], buf[..cnt];
    NotWrote(m, p, offset, d);
    if BlankAt(m, p, offset, cnt) {
      BlankProgram(m, p, offset, d);
    }
    BufferAccess(p, |m|, offset, cnt);
    if SizeOf(db.spt.part[x]) < 0 {
      return false;
    }
    if offset + cnt > db.spt.part[x].length {
      return false;
    }
    ok := db.WritePart(x, offset, buf[..cnt]);
    ghost var m1 := db.flash.mem;
    if !ok {
      if m1 != m {
        WroteBuffer(m, m1, p, offset, d, false);
      }
      return;
    }
    ok := ReadBack(db, x, offset, buf, vbuf, cnt);
    WroteBuffer(m, m1, p, offset, d, ok);
  }

  lemma BufferAccess(p: Part, size: nat, offset: nat, cnt: nat)
    requires cnt > 0
    ensures CanWrite(p, size, offset, cnt) ==>
      CanRead(p, size, offset, cnt) && offset + cnt <= p.length && p.offset + offset + cnt <= size
  {
  }

  lemma ContainsIs(m: Mem, p: Part, offset: nat, d: seq<byte>, data: seq<byte>)
    requires d != [] && p.offset + offset + |d| <= |m| && data == m[p.offset + offset..p.offset + offset + |d|]
    ensures Contains(m, p, offset, d) <==> data == d
  {
  }

  lemma NotWrote(m: Mem, p: Part, offset: nat, d: seq<byte>)
    ensures Wrote(m, m, p, offset, d, false)
  {
  }

  // ---- the programming loop ----

  // After `offset` bytes: `written` is in flash, `rest` of the data d0 is to come, the block state machine is
  // in state st, and the buffer holds `stale`. Only the partition changed, and its tail is as it was.
  ghost predicate Streaming(m0: Mem, m: Mem, p: Part, raw: bool, d0: seq<byte>, st: State, rest: seq<byte>,
                            written: seq<byte>, stale: Block) {
    var info, offset := InfoOf(p), |written|;
    && SameOutside(m0, m, p.offset, p.length)
    && Contains(m, p, 0, written) && offset <= p.length && offset + |rest| == |d0|
    && Target(raw, INIT, d0, info, Zeros()) == written + Target(raw, st, rest, info, stale)
    && (Programmable(raw, INIT, d0, info, Zeros()) <==> Programmable(raw, st, rest, info, stale))
    && (rest != [] ==> offset % BLOCK == 0)
    && Placed(p, |m0|, offset) && (BlankAt(m0, p, 0, |d0|) ==> BlankAt(m, p, offset, |rest|))
  }

  lemma StreamingStart(m: Mem, p: Part, raw: bool, d: seq<byte>, stale: Block)
    ensures Streaming(m, m, p, raw, d, INIT, d, [], stale)
  {
    hide Target, Programmable;
    StartUnused(raw, d, InfoOf(p), stale, Zeros());
    assert [] + Target(raw, INIT, d, InfoOf(p), stale) == Target(raw, INIT, d, InfoOf(p), stale);
  }

  lemma WroteMore(m0: Mem, m: Mem, m1: Mem, p: Part, written: seq<byte>, d: seq<byte>, n: nat)
    requires SameOutside(m0, m, p.offset, p.length) && Contains(m, p, 0, written)
    requires Wrote(m, m1, p, |written|, d, true) && |written| + |d| <= p.length && 0 < |d| <= n
    ensures SameOutside(m0, m1, p.offset, p.length) && Contains(m1, p, 0, written + d)
    ensures BlankAt(m, p, |written|, n) ==> BlankAt(m1, p, |written + d|, n - |d|)
  {
    var a, n := p.offset, |written|;
    assert m1[a..a + n] == m[a..a + n];
    assert m1[a..a + n + |d|] == m1[a..a + n] + m1[a + n..a + n + |d|];
  }

  // one iteration: the filled buffer was processed, and as much of it as is data was written
  lemma StreamingStep(m0: Mem, m: Mem, m1: Mem, p: Part, raw: bool, d0: seq<byte>, st: State, rest: seq<byte>,
                      written: seq<byte>, stale: Block, x: Block, st': State)
    requires Streaming(m0, m, p, raw, d0, st, rest, written, stale) && rest != []
    requires Wrote(m, m1, p, |written|, x[..Chunk(rest)], true)
    requires SizeOf(p) >= 0 && CanWrite(p, |m1|, |written|, Chunk(rest))
    requires BlockTurns(raw, st, st', Filled(rest, stale), x, InfoOf(p))
    ensures Streaming(m0, m1, p, raw, d0, st', rest[Chunk(rest)..], written + x[..Chunk(rest)], x)
  {
    hide Contains, BlankAt, SameOutside, Wrote, CanWrite, Placed, SizeOf, InfoOf, Target, Programmable, BlockTurns,
      Chunk, Filled;
    var cnt := Chunk(rest);
    NextOffset(|written|, rest);
    var d := x[..cnt];
    assert SameSizes(m0, m, m1) by { SizesKept(m0, m, m1, p, |written|, d); }
    StillPlaced(p, |m0|, |written|, cnt);
    WroteMore(m0, m, m1, p, written, d, |rest|);
    TargetTurns(raw, st, rest, InfoOf(p), written, stale, x, st');
  }

  lemma NextOffset(n: nat, rest: seq<byte>)
    requires rest != [] && n % BLOCK == 0
    ensures 0 < Chunk(rest) <= |rest| && Chunk(rest) <= BLOCK && n % 4 == 0
    ensures rest[Chunk(rest)..] != [] ==> (n + Chunk(rest)) % BLOCK == 0
  {
    BlocksAreWords(n);
  }

  // what is still to come is one block less
  lemma TargetTurns(raw: bool, st: State, rest: seq<byte>, info: Info, written: seq<byte>, stale: Block, x: Block,
                    st': State)
    requires BlockTurns(raw, st, st', Filled(rest, stale), x, info) && rest != []
    ensures Target(raw, st, rest, info, stale) == x[..Chunk(rest)] + Target(raw, st', rest[Chunk(rest)..], info, x)
    ensures written + Target(raw, st, rest, info, stale)
      == (written + x[..Chunk(rest)]) + Target(raw, st', rest[Chunk(rest)..], info, x)
    ensures Programmable(raw, st, rest, info, stale) <==> Programmable(raw, st', rest[Chunk(rest)..], info, x)
  {
    hide Expected, Classify, Accepts, Enter;
    var cnt := Chunk(rest);
    if raw {
      assert Filled(rest, stale)[..cnt] == rest[..cnt];
    }
  }

  predicate SameSizes(m0: Mem, m: Mem, m1: Mem) {
    |m0| == |m| == |m1|
  }

  lemma SizesKept(m0: Mem, m: Mem, m1: Mem, p: Part, offset: nat, d: seq<byte>)
    requires SameOutside(m0, m, p.offset, p.length) && Wrote(m, m1, p, offset, d, true)
    ensures SameSizes(m0, m, m1)
  {
  }

  lemma StillPlaced(p: Part, size: nat, n: nat, cnt: nat)
    requires Placed(p, size, n) && n % 4 == 0 && SizeOf(p) >= 0 && CanWrite(p, size, n, cnt)
    ensures Placed(p, size, n + cnt) && n + cnt <= p.length && (n + cnt) % 4 == 0
  {
  }

  // Data that fits can be written piece by piece.
  lemma PieceFits(p: Part, size: nat, n: nat, cnt: nat, all: nat)
    requires Placed(p, size, all) && size < MAX_FLASH && n % 4 == 0 && cnt > 0
    requires n + cnt == all || (n + cnt < all && cnt % 4 == 0)
    ensures SizeOf(p) >= 0 && CanWrite(p, size, n, cnt)
  {
  }

  lemma StreamingStopped(m0: Mem, m: Mem, m1: Mem, p: Part, offset: nat, d: seq<byte>, ok: bool)
    requires SameOutside(m0, m, p.offset, p.length) && Wrote(m, m1, p, offset, d, ok)
    ensures SameOutside(m0, m1, p.offset, p.length)
  {
  }

  // The partition starts with the relocated image, or with the raw data.
  ghost predicate HoldsImage(m: Mem, p: Part, raw: bool, d: seq<byte>) {
    |d| <= p.length && Contains(m, p, 0, Target(raw, INIT, d, InfoOf(p), Zeros()))
  }

  predicate Fits(p: Part, raw: bool, d: seq<byte>, size: nat) {
    Programmable(raw, INIT, d, InfoOf(p), Zeros()) && Placed(p, size, |d|)
  }

  // ---- what that means for data in whole blocks, block by block ----

  // block i of the data
  function BlockAt(d: seq<byte>, i: nat): Block
    requires BLOCK * i + BLOCK <= |d|
  {
    d[BLOCK * i..BLOCK * i + BLOCK]
  }

  lemma {:induction false} BlocksAt(d: seq<byte>, i: nat)
    requires BLOCK * i + BLOCK <= |d|
    ensures i < |Blocks(d)| && Blocks(d)[i] == BlockAt(d, i)
  {
    if i > 0 {
      BlocksAt(d[BLOCK..], i - 1);
      assert BlockAt(d[BLOCK..], i - 1) == BlockAt(d, i);
    }
  }

  lemma {:induction false} BytesAt(image: Image, i: nat)
    requires i < |image|
    ensures Bytes(image)[BLOCK * i..BLOCK * i + BLOCK] == image[i]
  {
    if i > 0 {
      BytesAt(image[1..], i - 1);
      var s := Bytes(image[1..]);
      assert Bytes(image)[BLOCK * i..BLOCK * i + BLOCK] == s[BLOCK * (i - 1)..BLOCK * (i - 1) + BLOCK];
    }
  }

  // the slot as the state machine is told of it
  function SlotInfo(p: Part): Info {
    Info(p.offset, if p.length >= 0x8000_0000 then p.length - 0x1_0000_0000 else p.length)
  }

  lemma HeldAt(m: Mem, p: Part, image: Image, i: nat)
    requires Contains(m, p, 0, Bytes(image)) && i < |image|
    ensures p.offset + BLOCK * i + BLOCK <= |m|
    ensures m[p.offset + BLOCK * i..p.offset + BLOCK * i + BLOCK] == image[i]
  {
    hide Bytes, Contains;
    var s, n := Bytes(image), BLOCK * i;
    assert n + BLOCK <= |s| && s[n..n + BLOCK] == image[i] by { BytesAt(image, i); }
    PieceAt(m, p, s, n);
  }

  lemma PieceAt(m: Mem, p: Part, s: seq<byte>, n: nat)
    requires Contains(m, p, 0, s) && n + BLOCK <= |s|
    ensures p.offset + n + BLOCK <= |m| && m[p.offset + n..p.offset + n + BLOCK] == s[n..n + BLOCK]
  {
    SliceOfSlice(m, p.offset, p.offset + |s|, n, n + BLOCK);
  }

  /** Flash holds the image: block i of the slot is block i of the data, but in an image that is not absolute the
      pointers of a signature block are moved by the slot's offset, and its CRC is renewed. */
  lemma HeldExactly(m: Mem, p: Part, d: seq<byte>, i: nat)
    requires HoldsImage(m, p, false, d) && |d| % BLOCK == 0 && BLOCK * i + BLOCK <= |d|
    ensures p.offset + BLOCK * i + BLOCK <= |m| && i < |Blocks(d)| && Blocks(d)[i] == BlockAt(d, i)
    ensures
      var r := m[p.offset + BLOCK * i..p.offset + BLOCK * i + BLOCK];
      if ImageSections.IsSignature(Blocks(d), SlotInfo(p), i) && !ImageSections.IsAbsolute(Blocks(d), SlotInfo(p))
      then MovedExactly(BlockAt(d, i), r, p.offset)
      else r == BlockAt(d, i)
  {
    hide Target, Blocks, Relocate, MovedExactly, ImageSections.IsSignature, ImageSections.IsAbsolute, Contains, Bytes;
    var info := InfoOf(p);
    assert info == SlotInfo(p);
    WholeIsImage(INIT, d, info, Zeros());
    BlocksAt(d, i);
    HeldAt(m, p, Relocate(INIT, Blocks(d), info), i);
    ImageSections.ProgrammedExactly(Blocks(d), info, i);
  }

  /** Data in whole blocks fits exactly if all its signature blocks are sound, and there is room for it. */
  lemma FitsExactly(p: Part, d: seq<byte>, size: nat)
    requires |d| % BLOCK == 0 && d != []
    ensures Fits(p, false, d, size) <==>
      && p.offset % 4 == 0 && p.offset + |d| <= size && |d| <= p.length < 0x8000_0000
      && (forall i :: 0 <= i < |Blocks(d)| && ImageSections.IsSignature(Blocks(d), SlotInfo(p), i) ==>
            ImageSections.Sound(Blocks(d)[i], ImageSections.Base(Blocks(d), SlotInfo(p)), p.length))
  {
    hide Programmable, Blocks, ImageSections.IsSignature, ImageSections.Sound, ImageSections.Base, Accepted;
    WholeIsImage(INIT, d, InfoOf(p), Zeros());
    ImageSections.AcceptedExactly(Blocks(d), InfoOf(p));
    BlocksAreWords(|d|);
    assert InfoOf(p) == SlotInfo(p);
    if p.length < 0x8000_0000 {
      assert SlotInfo(p).size == p.length;
    }
  }

  lemma StreamingDone(m0: Mem, m: Mem, p: Part, raw: bool, d0: seq<byte>, st: State, written: seq<byte>, stale: Block)
    requires Streaming(m0, m, p, raw, d0, st, [], written, stale)
    ensures HoldsImage(m, p, raw, d0) && SameOutside(m0, m, p.offset, p.length) && Fits(p, raw, d0, |m|)
  {
    assert written + [] == written;
  }

  // the next block is refused
  lemma StreamingRefused(m0: Mem, m: Mem, p: Part, d0: seq<byte>, st: State, rest: seq<byte>, written: seq<byte>,
                         stale: Block)
    requires rest != [] && !Accepts(Enter(st), Filled(rest, stale), InfoOf(p))
    requires Streaming(m0, m, p, false, d0, st, rest, written, stale)
    ensures !Fits(p, false, d0, |m0|)
  {
    hide Accepts, Expected, Classify, Enter, Contains, BlankAt, SameOutside, Target;
  }

  // the next block cannot be written
  lemma StreamingTooLong(m0: Mem, m: Mem, p: Part, raw: bool, d0: seq<byte>, st: State, rest: seq<byte>,
                         written: seq<byte>, stale: Block)
    requires rest != [] && (SizeOf(p) < 0 || !CanWrite(p, |m0|, |written|, Chunk(rest)))
    requires Streaming(m0, m, p, raw, d0, st, rest, written, stale) && |m0| < MAX_FLASH
    ensures !Fits(p, raw, d0, |m0|)
  {
    hide Streaming, Programmable, Placed, CanWrite, SizeOf;
    StreamingFacts(m0, m, p, raw, d0, st, rest, written, stale);
    BlocksAreWords(|written|);
    if Placed(p, |m0|, |d0|) {
      PieceFits(p, |m0|, |written|, Chunk(rest), |d0|);
    }
  }

  lemma BlocksAreWords(n: nat)
    requires n % BLOCK == 0
    ensures n % 4 == 0
  {
    var k := 1024 * (n / BLOCK);
    assert n == 4 * k;
  }

  // The state moves over the filled buffer b (raw data leaves it alone), which becomes x.
  ghost predicate BlockTurns(raw: bool, st: State, st': State, b: Block, x: Block, info: Info) {
    if raw then x == b && st' == st else
      Accepts(Enter(st), b, info) && x == Expected(Enter(st), b, info) && st' == Classify(Enter(st), b, info)
  }

  // one iteration: process the filled buffer, then write it
  method ProgramBlock(db: Database, x: nat, raw: bool, state: ImageState, offset: nat, buf: array<byte>,
                      vbuf: array<byte>, cnt: nat)
    returns (ok: bool)
    requires db.spt.partitions <= MAX_PARTITIONS && x < db.spt.partitions
    requires 0 < cnt <= BLOCK == buf.Length == vbuf.Length && buf != vbuf
    modifies db.flash, state, buf, vbuf
    ensures db.flash.faults >= old(db.flash.faults) && |db.flash.mem| == old(|db.flash.mem|)
    ensures Wrote(old(db.flash.mem), db.flash.mem, db.spt.part[x], offset, buf[..cnt], ok)
    ensures ok ==> SizeOf(db.spt.part[x]) >= 0 && CanWrite(db.spt.part[x], |db.flash.mem|, offset, cnt)
    ensures ok ==>
      BlockTurns(raw, old(state.View()), state.View(), old(buf[..]), buf[..], InfoOf(db.spt.part[x]))
    ensures !ok && BlankAt(old(db.flash.mem), db.spt.part[x], offset, cnt) ==>
      || db.flash.faults > old(db.flash.faults)
      || (!raw && !Accepts(Enter(old(state.View())), old(buf[..]), InfoOf(db.spt.part[x])))
      || SizeOf(db.spt.part[x]) < 0 || !CanWrite(db.spt.part[x], |db.flash.mem|, offset, cnt)
  {
    hide Wrote, BlankAt, Contains, Expected, Classify, Accepts, Enter, CanWrite;
    if !raw {
      ok := state.Process(buf, null, InfoOf(db.spt.part[x]));
      NotWrote(db.flash.mem, db.spt.part[x], offset, buf[..cnt]);
      if !ok {
        return;
      }
    }
    ok := WriteBuffer(db, x, offset, buf, vbuf, cnt);
  }

  /** The loop of librsu_cb_program_common over one partition: on success flash holds exactly the
      relocated image (or the raw data), every signature block has been accepted, and the data fits. Where
      the flash for it is erased, these two are enough. */
  method ProgramPart(db: Database, x: nat, source: Source, raw: bool) returns (ok: bool)
    requires db.spt.partitions <= MAX_PARTITIONS && x < db.spt.partitions
    requires |db.flash.mem| < MAX_FLASH
    modifies source, db.flash
    ensures db.flash.faults >= old(db.flash.faults) && source.FaultsSince(old(source.faults))
    ensures SameOutside(old(db.flash.mem), db.flash.mem, db.spt.part[x].offset, db.spt.part[x].length)
    ensures ok ==> HoldsImage(db.flash.mem, db.spt.part[x], raw, old(source.data))
    ensures ok ==> Fits(db.spt.part[x], raw, old(source.data), |db.flash.mem|)
    ensures db.flash.faults == old(db.flash.faults) && source.faults == old(source.faults)
            && Fits(db.spt.part[x], raw, old(source.data), |db.flash.mem|)
            && BlankAt(old(db.flash.mem), db.spt.part[x], 0, old(|source.data|)) ==>
      ok
  {
    hide Wrote, BlankAt, Contains, SameOutside, Streaming, HoldsImage, Fits, BlockTurns, Accepts, Enter, CanWrite,
      SizeOf, InfoOf, Chunk, Filled;
    ghost var m0, p, d0 := db.flash.mem, db.spt.part[x], source.data;
    var state := new ImageState();
    var buf, vbuf := new byte[BLOCK], new byte[BLOCK];
    var offset, done := 0, false;
    ghost var written: seq<byte> := [];
    StreamingStart(m0, p, raw, d0, buf[..]);
    StreamingFacts(m0, m0, p, raw, d0, INIT, d0, [], buf[..]);
    while !done
      invariant Streaming(m0, db.flash.mem, p, raw, d0, state.View(), source.data, written, buf[..])
      invariant offset == |written| && (done ==> source.data == [])
      invariant db.flash.faults >= old(db.flash.faults) && source.FaultsSince(old(source.faults))
      invariant |db.flash.mem| == |m0| && SameOutside(m0, db.flash.mem, p.offset, p.length)
      decreases |source.data|, !done
    {
      ghost var m, st, rest, stale := db.flash.mem, state.View(), source.data, buf[..];
      ChunkSize(rest, stale);
      var cnt;
      ok, cnt, done := FillBlock(source, buf);
      if !ok {
        return;
      }
      if cnt == 0 {
        break;
      }
      ok := ProgramBlock(db, x, raw, state, offset, buf, vbuf, cnt);
      StreamingStopped(m0, m, db.flash.mem, p, offset, buf[..cnt], ok);
      if !ok {
        NextIsBlank(m0, m, p, raw, d0, st, rest, written, stale);
        if !raw && !Accepts(Enter(st), Filled(rest, stale), InfoOf(p)) {
          StreamingRefused(m0, m, p, d0, st, rest, written, stale);
        } else if SizeOf(p) < 0 || !CanWrite(p, |m0|, offset, cnt) {
          StreamingTooLong(m0, m, p, raw, d0, st, rest, written, stale);
        }
        return;
      }
      StreamingStep(m0, m, db.flash.mem, p, raw, d0, st, rest, written, stale, buf[..], state.View());
      written := written + buf[..cnt];
      offset := offset + cnt;
    }
    StreamingDone(m0, db.flash.mem, p, raw, d0, state.View(), written, buf[..]);
    ok := true;
  }

  lemma ChunkSize(d: seq<byte>, stale: Block)
    ensures Chunk(d) <= |d| && Chunk(d) <= BLOCK && (Chunk(d) == 0 <==> d == [])
    ensures d == [] ==> Filled(d, stale) == stale
  {
  }

  lemma StreamingFacts(m0: Mem, m: Mem, p: Part, raw: bool, d0: seq<byte>, st: State, rest: seq<byte>,
                       written: seq<byte>, stale: Block)
    requires Streaming(m0, m, p, raw, d0, st, rest, written, stale)
    ensures |m| == |m0| && SameOutside(m0, m, p.offset, p.length) && |written| <= p.length
    ensures |written| + |rest| == |d0| && (rest != [] ==> |written| % BLOCK == 0)
  {
  }

  lemma NextIsBlank(m0: Mem, m: Mem, p: Part, raw: bool, d0: seq<byte>, st: State, rest: seq<byte>, written: seq<byte>,
                    stale: Block)
    requires Streaming(m0, m, p, raw, d0, st, rest, written, stale)
    ensures BlankAt(m0, p, 0, |d0|) ==> BlankAt(m, p, |written|, Chunk(rest))
  {
  }

  // ---- the verifying loop ----

  // the bytes of flash behind a piece of n bytes, read into the second buffer
  function ReadOver(m: Mem, p: Part, offset: nat, n: nat, vstale: Block): Block
    requires n <= BLOCK && p.offset + offset + n <= |m|
  {
    m[p.offset + offset..p.offset + offset + n] + vstale[n..]
  }

  // one piece of n bytes, with b in the first buffer
  ghost predicate Matches(m: Mem, p: Part, offset: nat, raw: bool, st: State, b: Block, n: nat, vstale: Block)
    requires n <= BLOCK
  {
    && offset + n <= p.length && p.offset + offset + n <= |m|
    && if raw then m[p.offset + offset..p.offset + offset + n] == b[..n]
       else ReadOver(m, p, offset, n, vstale) == Expected(Enter(st), b, InfoOf(p))
  }

  /** What the verifying loop decides of the rest d of the data: raw data is compared as it is, any other block by
      block over both whole buffers, and so a short last one together with what is behind it in either. */
  ghost predicate Verifies(m: Mem, p: Part, offset: nat, raw: bool, st: State, d: seq<byte>, stale: Block,
                           vstale: Block)
    decreases |d|
  {
    if d == [] then true
    else if raw then offset + |d| <= p.length && Contains(m, p, offset, d)
    else
      && Matches(m, p, offset, raw, st, Filled(d, stale), Chunk(d), vstale)
      && Verifies(m, p, offset + Chunk(d), raw, After(st, d, InfoOf(p), stale), d[Chunk(d)..], Filled(d, stale),
                  ReadOver(m, p, offset, Chunk(d), vstale))
  }

  lemma VerifiesStep(m: Mem, p: Part, offset: nat, raw: bool, st: State, d: seq<byte>, stale: Block, vstale: Block,
                     st': State, v: Block)
    requires d != []
    requires var b, n := Filled(d, stale), Chunk(d); Matches(m, p, offset, raw, st, b, n, vstale) ==>
      v == ReadOver(m, p, offset, n, vstale) && (!raw ==> st' == Classify(Enter(st), b, InfoOf(p)))
    ensures var b, n := Filled(d, stale), Chunk(d);
      Verifies(m, p, offset, raw, st, d, stale, vstale) <==>
        Matches(m, p, offset, raw, st, b, n, vstale) && Verifies(m, p, offset + n, raw, st', d[n..], b, v)
  {
    hide Expected, Classify, Enter;
    if raw {
      var n, a := Chunk(d), p.offset + offset;
      assert Filled(d, stale)[..n] == d[..n] && d == d[..n] + d[n..];
      if a + |d| <= |m| {
        assert m[a..a + |d|] == m[a..a + n] + m[a + n..a + |d|];
        assert d == m[a..a + |d|] ==> d[..n] == m[a..a + |d|][..n] && d[n..] == m[a..a + |d|][n..];
      }
    }
  }

  // Behind a short last piece, the two buffers hold the same once the first has been processed.
  predicate TailAgrees(st: State, d: seq<byte>, info: Info, stale: Block, vstale: Block)
    decreases |d|
  {
    if d == [] then true
    else if |d| < BLOCK then Turned(st, d, info, stale)[|d|..] == vstale[|d|..]
    else TailAgrees(After(st, d, info, stale), d[BLOCK..], info, d[..BLOCK], Turned(st, d, info, stale))
  }

  // Only a section block, which is left as it is, comes right before a signature block.
  lemma BeforeSignature(st: State, d: seq<byte>, info: Info, stale: Block)
    requires |d| >= BLOCK && After(st, d, info, stale).kind == SignatureBlock
    ensures Turned(st, d, info, stale) == d[..BLOCK] == Filled(d, stale)
  {
    hide FromLE32, Relocated;
  }

  // the last piece, with the buffer that programming had and the one that verifying has
  lemma LastPiece(st: State, d: seq<byte>, info: Info, stale: Block, pstale: Block)
    requires 0 < |d| < BLOCK && (st.kind == SignatureBlock ==> stale == pstale)
    ensures Target(false, st, d, info, pstale) == Turned(st, d, info, stale)[..|d|]
  {
    hide FromLE32, Relocated, SomePtrAbove;
    assert d[Chunk(d)..] == [] && d[..|d|] == d;
    if Enter(st).kind != SignatureBlock {
      assert Filled(d, stale)[..|d|] == d && Filled(d, pstale)[..|d|] == d;
    }
  }

  lemma Halves(a: Block, x: Block, n: nat)
    requires n <= BLOCK
    ensures a == x <==> a[..n] == x[..n] && a[n..] == x[n..]
  {
    assert a == a[..n] + a[n..] && x == x[..n] + x[n..];
  }

  lemma ContainsSplit(m: Mem, p: Part, offset: nat, x: seq<byte>, y: seq<byte>)
    ensures Contains(m, p, offset, x + y) <==> Contains(m, p, offset, x) && Contains(m, p, offset + |x|, y)
  {
    var a := p.offset + offset;
    if x == [] {
      assert x + y == y;
    } else if y == [] {
      assert x + y == x;
    } else if a + |x| + |y| <= |m| {
      var f := m[a..a + |x| + |y|];
      assert f == m[a..a + |x|] + m[a + |x|..a + |x| + |y|];
      assert (x + y)[..|x|] == x && (x + y)[|x|..] == y;
      assert f[..|x|] == m[a..a + |x|] && f[|x|..] == m[a + |x|..a + |x| + |y|];
    }
  }

  // one whole block
  lemma VerifiesWhole(m: Mem, p: Part, offset: nat, st: State, d: seq<byte>, stale: Block, vstale: Block)
    requires |d| >= BLOCK
    ensures var x := Turned(st, d, InfoOf(p), stale);
      Verifies(m, p, offset, false, st, d, stale, vstale) <==>
        offset + BLOCK <= p.length && Contains(m, p, offset, x)
        && Verifies(m, p, offset + BLOCK, false, After(st, d, InfoOf(p), stale), d[BLOCK..], d[..BLOCK], x)
  {
    hide Expected, Classify, Enter, InfoOf, Contains;
    var x, a := Turned(st, d, InfoOf(p), stale), p.offset + offset;
    assert Filled(d, stale) == d[..BLOCK] && Chunk(d) == BLOCK;
    ContainsIsAt(m, p, offset, x);
    if a + BLOCK <= |m| {
      assert ReadOver(m, p, offset, BLOCK, vstale) == m[a..a + BLOCK];
    }
  }

  lemma TargetWhole(st: State, d: seq<byte>, info: Info, stale: Block, pstale: Block)
    requires |d| >= BLOCK
    ensures var x := Turned(st, d, info, stale);
      Target(false, st, d, info, pstale) == x + Target(false, After(st, d, info, stale), d[BLOCK..], info, x)
  {
    hide Expected, Classify, Enter;
    assert Filled(d, stale) == Filled(d, pstale) == d[..BLOCK];
  }

  // the last piece
  lemma VerifiesLast(m: Mem, p: Part, offset: nat, st: State, d: seq<byte>, stale: Block, pstale: Block, vstale: Block)
    requires 0 < |d| < BLOCK && (st.kind == SignatureBlock ==> stale == pstale)
    ensures Verifies(m, p, offset, false, st, d, stale, vstale) <==>
      offset + |d| <= p.length && Contains(m, p, offset, Target(false, st, d, InfoOf(p), pstale))
      && TailAgrees(st, d, InfoOf(p), stale, vstale)
  {
    hide Expected, Classify, Enter, InfoOf, Contains, Target, Filled;
    var x, a, n := Turned(st, d, InfoOf(p), stale), p.offset + offset, |d|;
    LastPiece(st, d, InfoOf(p), stale, pstale);
    ContainsIsAt(m, p, offset, x[..n]);
    if a + n <= |m| {
      var v := ReadOver(m, p, offset, n, vstale);
      assert v[..n] == m[a..a + n] && v[n..] == vstale[n..];
      Halves(v, x, n);
    }
  }

  lemma {:induction false} VerifiesFrom(m: Mem, p: Part, offset: nat, st: State, d: seq<byte>, stale: Block,
                                        pstale: Block, vstale: Block)
    requires st.kind == SignatureBlock ==> stale == pstale
    ensures Verifies(m, p, offset, false, st, d, stale, vstale) <==>
      (d == [] || offset + |d| <= p.length) && Contains(m, p, offset, Target(false, st, d, InfoOf(p), pstale))
      && TailAgrees(st, d, InfoOf(p), stale, vstale)
    decreases |d|
  {
    hide Turned, After, InfoOf, Contains, Verifies, Target, TailAgrees;
    if d == [] {
      NothingLeft(m, p, offset, st, stale, pstale, vstale);
    } else if |d| < BLOCK {
      VerifiesLast(m, p, offset, st, d, stale, pstale, vstale);
    } else {
      var info := InfoOf(p);
      var x, st', rest := Turned(st, d, info, stale), After(st, d, info, stale), d[BLOCK..];
      VerifiesWhole(m, p, offset, st, d, stale, vstale);
      TargetWhole(st, d, info, stale, pstale);
      ContainsSplit(m, p, offset, x, Target(false, st', rest, info, x));
      TailStep(st, d, info, stale, vstale);
      if st'.kind == SignatureBlock {
        BeforeSignature(st, d, info, stale);
      }
      VerifiesFrom(m, p, offset + BLOCK, st', rest, d[..BLOCK], x, x);
    }
  }

  lemma TailStep(st: State, d: seq<byte>, info: Info, stale: Block, vstale: Block)
    requires |d| >= BLOCK
    ensures TailAgrees(st, d, info, stale, vstale)
      <==> TailAgrees(After(st, d, info, stale), d[BLOCK..], info, d[..BLOCK], Turned(st, d, info, stale))
  {
  }

  lemma NothingLeft(m: Mem, p: Part, offset: nat, st: State, stale: Block, pstale: Block, vstale: Block)
    ensures Verifies(m, p, offset, false, st, [], stale, vstale)
    ensures Contains(m, p, offset, Target(false, st, [], InfoOf(p), pstale))
    ensures TailAgrees(st, [], InfoOf(p), stale, vstale)
  {
  }

  lemma ContainsNone(m: Mem, p: Part, offset: nat)
    ensures Contains(m, p, offset, [])
  {
  }

  lemma ContainsIsAt(m: Mem, p: Part, offset: nat, d: seq<byte>)
    requires d != []
    ensures Contains(m, p, offset, d) <==>
      p.offset + offset + |d| <= |m| && m[p.offset + offset..p.offset + offset + |d|] == d
  {
  }

  /** Verifying accepts exactly a partition that holds the image, if what is behind a short last piece agrees
      too. */
  lemma VerifiesIff(m: Mem, p: Part, raw: bool, d: seq<byte>, stale: Block, vstale: Block)
    ensures Verifies(m, p, 0, raw, INIT, d, stale, vstale) <==>
      HoldsImage(m, p, raw, d) && (raw || TailAgrees(INIT, d, InfoOf(p), stale, vstale))
  {
    hide TailAgrees, Contains;
    if !raw {
      VerifiesFrom(m, p, 0, INIT, d, stale, Zeros(), vstale);
    } else if d == [] {
      ContainsNone(m, p, 0);
    }
  }

  /** It always does for data in whole blocks. */
  lemma {:induction false} WholeTailAgrees(st: State, d: seq<byte>, info: Info, stale: Block, vstale: Block)
    requires |d| % BLOCK == 0
    ensures TailAgrees(st, d, info, stale, vstale)
    decreases |d|
  {
    hide Turned, After;
    if |d| > 0 {
      WholeTailAgrees(After(st, d, info, stale), d[BLOCK..], info, d[..BLOCK], Turned(st, d, info, stale));
    }
  }

  // what the tail depends on: the last whole block b, entered in state e, and the short piece
  predicate LastAgrees(e: State, b: Block, tail: seq<byte>, info: Info)
    requires |tail| < BLOCK
  {
    Turned(Classify(e, b, info), tail, info, b)[|tail|..] == Expected(e, b, info)[|tail|..]
  }

  lemma {:induction false} TailAgreesFrom(st: State, d: seq<byte>, info: Info, stale: Block, vstale: Block)
    requires |d| > BLOCK && |d| % BLOCK != 0
    ensures var k := |d| / BLOCK;
      && 0 < k == |Blocks(d)| && BLOCK * k <= |d|
      && (TailAgrees(st, d, info, stale, vstale)
          <==> LastAgrees(StateAt(st, Blocks(d), info, k - 1), Blocks(d)[k - 1], d[BLOCK * k..], info))
    decreases |d|
  {
    hide Turned, Expected, Classify, Enter, LastAgrees;
    var b, rest := d[..BLOCK], d[BLOCK..];
    assert Filled(d, stale) == b;
    TailStep(st, d, info, stale, vstale);
    OneBlockLess(d);
    StepIs(st, d, info, stale);
    if |rest| < BLOCK {
      assert LastAgrees(Enter(st), b, rest, info) <==> TailAgrees(After(st, d, info, stale), rest, info, b,
        Turned(st, d, info, stale)) by { LastIs(st, d, info, stale); }
    } else {
      TailAgreesFrom(After(st, d, info, stale), rest, info, b, Turned(st, d, info, stale));
      assert rest[BLOCK * (|d| / BLOCK - 1)..] == d[BLOCK * (|d| / BLOCK)..];
    }
  }

  lemma OneBlockLess(d: seq<byte>)
    requires |d| > BLOCK && |d| % BLOCK != 0
    ensures var rest, k := d[BLOCK..], |d| / BLOCK;
      && Blocks(d) == [d[..BLOCK]] + Blocks(rest) && |rest| % BLOCK != 0 && |rest| / BLOCK == k - 1
      && (|rest| < BLOCK ==> k == 1 && Blocks(rest) == []) && BLOCK * k <= |d|
  {
    OneLess(|d|);
  }

  lemma OneLess(n: nat)
    requires n > BLOCK
    ensures (n - BLOCK) % BLOCK == n % BLOCK && (n - BLOCK) / BLOCK == n / BLOCK - 1 && BLOCK * (n / BLOCK) <= n
    ensures n < 2 * BLOCK ==> n / BLOCK == 1
  {
  }

  lemma StepIs(st: State, d: seq<byte>, info: Info, stale: Block)
    requires |d| >= BLOCK
    ensures After(st, d, info, stale) == Classify(Enter(st), d[..BLOCK], info)
    ensures Turned(st, d, info, stale) == Expected(Enter(st), d[..BLOCK], info)
  {
    assert Filled(d, stale) == d[..BLOCK];
  }

  lemma LastIs(st: State, d: seq<byte>, info: Info, stale: Block)
    requires BLOCK < |d| < 2 * BLOCK
    ensures LastAgrees(Enter(st), d[..BLOCK], d[BLOCK..], info)
      <==> TailAgrees(After(st, d, info, stale), d[BLOCK..], info, d[..BLOCK], Turned(st, d, info, stale))
  {
    StepIs(st, d, info, stale);
  }

  /** When the tail agrees, for data that is not whole blocks. Less than a block is compared together with what the
      two buffers happened to hold. Otherwise the last whole block decides: if no signature block follows it, the
      end of it must be what relocating leaves there. */
  lemma TailAgreesIff(d: seq<byte>, info: Info, stale: Block, vstale: Block)
    requires |d| % BLOCK != 0
    ensures |d| < BLOCK ==> (TailAgrees(INIT, d, info, stale, vstale) <==> stale[|d|..] == vstale[|d|..])
    ensures |d| > BLOCK ==> var k := |d| / BLOCK;
      && 0 < k == |Blocks(d)| && BLOCK * k <= |d|
      && (var e, b, tail := StateAt(INIT, Blocks(d), info, k - 1), Blocks(d)[k - 1], d[BLOCK * k..];
        && |tail| < BLOCK && (TailAgrees(INIT, d, info, stale, vstale) <==> LastAgrees(e, b, tail, info))
        && (Enter(Classify(e, b, info)).kind != SignatureBlock ==>
              (LastAgrees(e, b, tail, info) <==> b[|tail|..] == Expected(e, b, info)[|tail|..])))
  {
    hide Classify, Enter, FromLE32, Relocated;
    if |d| < BLOCK {
      ShortTail(d, info, stale);
    } else {
      TailAgreesFrom(INIT, d, info, stale, vstale);
      var k := |d| / BLOCK;
      var e, b, tail := StateAt(INIT, Blocks(d), info, k - 1), Blocks(d)[k - 1], d[BLOCK * k..];
      assert |tail| == |d| % BLOCK;
      if Enter(Classify(e, b, info)).kind != SignatureBlock {
        assert Filled(tail, b)[|tail|..] == b[|tail|..];
      }
    }
  }

  lemma ShortTail(d: seq<byte>, info: Info, stale: Block)
    requires 0 < |d| < BLOCK
    ensures Turned(INIT, d, info, stale)[|d|..] == stale[|d|..]
  {
    assert Filled(d, stale)[|d|..] == stale[|d|..];
  }

  // one iteration: read the flash behind the filled buffer and compare
  method VerifyBlock(db: Database, x: nat, raw: bool, state: ImageState, offset: nat, buf: array<byte>,
                     vbuf: array<byte>, cnt: nat)
    returns (ok: bool)
    requires db.spt.partitions <= MAX_PARTITIONS && x < db.spt.partitions && |db.flash.mem| < MAX_FLASH
    requires 0 < cnt <= BLOCK == buf.Length == vbuf.Length && buf != vbuf
    modifies db.flash`faults, state, buf, vbuf
    ensures db.flash.faults >= old(db.flash.faults) && buf[..] == old(buf[..])
    ensures ok ==>
      Matches(db.flash.mem, db.spt.part[x], offset, raw, old(state.View()), buf[..], cnt, old(vbuf[..]))
    ensures ok ==> vbuf[..] == ReadOver(db.flash.mem, db.spt.part[x], offset, cnt, old(vbuf[..]))
    ensures ok && !raw ==> state.View() == Classify(Enter(old(state.View())), buf[..], InfoOf(db.spt.part[x]))
    ensures db.flash.faults == old(db.flash.faults) ==>
      (ok <==> Matches(db.flash.mem, db.spt.part[x], offset, raw, old(state.View()), buf[..], cnt, old(vbuf[..])))
  {
    hide Expected, Classify, Enter;
    var data;
    ok, data := db.ReadPart(x, offset, cnt);
    if !ok {
      return;
    }
    PutBytes(vbuf, 0, data);
    assert vbuf[..] == ReadOver(db.flash.mem, db.spt.part[x], offset, cnt, old(vbuf[..]));
    if raw {
      assert vbuf[..cnt] == data;
      ok := SameBytes(buf, vbuf, cnt);
    } else {
      ok := state.Process(buf, vbuf, InfoOf(db.spt.part[x]));
    }
  }

  /** The loop of librsu_cb_verify_common over one partition: without faults it accepts exactly the flash contents
      that are the relocated image (or the raw data), if what is behind a short last piece in the two buffers
      agrees. The buffers start with whatever they hold. */
  method VerifyPart(db: Database, x: nat, source: Source, raw: bool)
    returns (ok: bool, ghost stale: Block, ghost vstale: Block)
    requires db.spt.partitions <= MAX_PARTITIONS && x < db.spt.partitions && |db.flash.mem| < MAX_FLASH
    modifies source, db.flash`faults
    ensures db.flash.faults >= old(db.flash.faults) && source.FaultsSince(old(source.faults))
    ensures ok ==> HoldsImage(db.flash.mem, db.spt.part[x], raw, old(source.data))
    ensures db.flash.faults == old(db.flash.faults) && source.faults == old(source.faults) ==>
      (ok <==> HoldsImage(db.flash.mem, db.spt.part[x], raw, old(source.data))
               && (raw || TailAgrees(INIT, old(source.data), InfoOf(db.spt.part[x]), stale, vstale)))
  {
    hide Verifies, Matches, InfoOf, ReadOver, Chunk, Filled, HoldsImage, TailAgrees;
    ghost var m, p, d0 := db.flash.mem, db.spt.part[x], source.data;
    var state := new ImageState();
    var buf, vbuf := new byte[BLOCK], new byte[BLOCK];
    stale, vstale := buf[..], vbuf[..];
    VerifiesIff(m, p, raw, d0, stale, vstale);
    var offset, done := 0, false;
    while !done
      invariant Verifies(m, p, 0, raw, INIT, d0, stale, vstale)
        <==> Verifies(m, p, offset, raw, state.View(), source.data, buf[..], vbuf[..])
      invariant done ==> source.data == []
      invariant db.flash.faults >= old(db.flash.faults) && source.FaultsSince(old(source.faults))
      decreases |source.data|, !done
    {
      ghost var st, rest, b0, v0 := state.View(), source.data, buf[..], vbuf[..];
      ChunkSize(rest, b0);
      var cnt;
      ok, cnt, done := FillBlock(source, buf);
      if !ok {
        return;
      }
      if cnt == 0 {
        break;
      }
      ok := VerifyBlock(db, x, raw, state, offset, buf, vbuf, cnt);
      if ok || db.flash.faults == old(db.flash.faults) {
        VerifiesStep(m, p, offset, raw, st, rest, b0, v0, state.View(), vbuf[..]);
      }
      if !ok {
        return;
      }
      offset := offset + cnt;
    }
    ok := true;
    VerifiedAll(m, p, offset, raw, state.View(), buf[..], vbuf[..]);
  }

  lemma VerifiedAll(m: Mem, p: Part, offset: nat, raw: bool, st: State, stale: Block, vstale: Block)
    ensures Verifies(m, p, offset, raw, st, [], stale, vstale)
  {
  }
}
