/** rsu_mgmt.c: an image uploaded in chunks into a RAM buffer, then erased, programmed and
    verified in a slot; and the upload loop of update_bitstream.py. */
module RsuMgmt {
  import opened Bits
  import opened FlashDev
  import opened Tables
  import opened Priority
  import opened SptOps
  import opened RsuOps
  import opened RsuSlots
  import opened Image
  import opened ImageBlocks
  import opened CbProgram
  import opened RsuProgram

  const MAX_IMAGE: nat := 0x40_0000
  const NO_OFFSET: u32 := 0xFFFF_FFFF

  // ---- what an upload request does ----

  // the announced length, and the bytes received so far
  datatype Held = Nothing | Held(len: nat, bytes: seq<byte>)

  // `off` is NO_OFFSET and `len` 0 when the message does not carry them
  datatype Request = Request(off: u32, len: u32, data: seq<byte>)

  // whether the HyperRAM is up, and whether it has room for the buffer
  datatype Ram = Ram(ready: bool, room: bool)

  datatype Reply = Offset(off: nat) | Invalid | NoMemory

  function Stored(h: Held, q: Request): (Held, Reply) {
    if h.Nothing? || q.off > |h.bytes| || q.off + |q.data| > h.len then (h, Invalid)
    else
      var n := q.off + |q.data|;
      var bytes := h.bytes[..q.off] + q.data + if n < |h.bytes| then h.bytes[n..] else [];
      (Held(h.len, bytes), Offset(|bytes|))
  }

  function Served(h: Held, q: Request, ram: Ram): (Held, Reply) {
    if q.off == NO_OFFSET then (h, Invalid)
    else if q.off > 0 then Stored(h, q)
    else if q.len == 0 || q.len > MAX_IMAGE then (h, Invalid)
    else if !ram.ready then (h, NoMemory)
    else if !ram.room then (Nothing, NoMemory)
    else Stored(Held(q.len, []), q)
  }

  /** The handler case by case. A refused request leaves the upload as it is, but for one that starts a new upload:
      it drops the old one as soon as the RAM is up. Bytes that are taken stand at their offset, and every other
      byte received stays. */
  lemma ServedExactly(h: Held, q: Request, ram: Ram)
    ensures var (h', reply) := Served(h, q, ram);
      var starts := q.off == 0 && 0 < q.len <= MAX_IMAGE;
      && (q.off == NO_OFFSET || (q.off == 0 && !starts) ==> reply == Invalid && h' == h)
      && (starts && !ram.ready ==> reply == NoMemory && h' == h)
      && (starts && ram.ready && !ram.room ==> reply == NoMemory && h' == Nothing)
      && (starts && ram == Ram(true, true) ==>
            if |q.data| > q.len then reply == Invalid && h' == Held(q.len, [])
            else reply == Offset(|q.data|) && h' == Held(q.len, q.data))
      && (0 < q.off < NO_OFFSET ==>
            if h.Nothing? || q.off > |h.bytes| || q.off + |q.data| > h.len then reply == Invalid && h' == h
            else Overwritten(h, h', q) && reply == Offset(|h'.bytes|))
  {
  }

  // The data stands at its offset, and every other byte received stays.
  ghost predicate Overwritten(h: Held, h': Held, q: Request) {
    && h.Held? && h'.Held? && h'.len == h.len
    && |h'.bytes| == (if q.off + |q.data| < |h.bytes| then |h.bytes| else q.off + |q.data|)
    && (forall i :: 0 <= i < |q.data| ==> h'.bytes[q.off + i] == q.data[i])
    && (forall i :: 0 <= i < |h.bytes| && !(q.off <= i < q.off + |q.data|) ==> h'.bytes[i] == h.bytes[i])
  }

  // one of the chunks an image may be sent in
  predicate ChunkOf(q: Request, img: seq<byte>) {
    q.off + |q.data| <= |img| && q.data == img[q.off..q.off + |q.data|] && (q.off == 0 ==> q.len == |img|)
  }

  predicate PrefixHeld(h: Held, img: seq<byte>) {
    h.Held? ==> h.len == |img| && |h.bytes| <= h.len && h.bytes == img[..|h.bytes|]
  }

  /** Any chunk of the image, new, repeated or out of order, leaves the board with a prefix of the
      image; a first chunk does so whatever was there before. It is taken unless the board has
      nothing to append it to, and then the board has everything up to its end. */
  lemma ChunkServed(h: Held, q: Request, ram: Ram, img: seq<byte>)
    requires ChunkOf(q, img) && q.off != NO_OFFSET
    requires q.off == 0 || PrefixHeld(h, img)
    ensures var (h', reply) := Served(h, q, ram);
      && (PrefixHeld(h, img) || reply.Offset? ==> PrefixHeld(h', img))
      && (reply.Offset? ==> h'.Held? && reply.off == |h'.bytes| >= q.off + |q.data|)
      && (q.off > 0 ==> (reply.Offset? <==> h.Held? && q.off <= |h.bytes|))
      && (q.off > 0 && h.Held? ==> h'.Held? && |h'.bytes| >= |h.bytes|)
      && (q.off == 0 && ram == Ram(true, true) ==> (reply.Offset? <==> 0 < |img| <= MAX_IMAGE))
  {
    var h0 := if q.off == 0 then Held(q.len, []) else h;
    if h0.Held? && q.off <= |h0.bytes| {
      var n, bytes := q.off + |q.data|, Stored(h0, q).0.bytes;
      assert img[..n] == img[..q.off] + q.data;
      if n < |h0.bytes| {
        assert bytes == img[..|h0.bytes|];
      } else {
        assert bytes == img[..n];
      }
    }
  }

  function AfterRequests(h: Held, requests: seq<(Request, Ram)>): Held {
    if |requests| == 0 then h
    else
      var last := requests[|requests| - 1];
      Served(AfterRequests(h, requests[..|requests| - 1]), last.0, last.1).0
  }

  /** In every run of chunks of one image, in any order and with any repeats, the board holds a
      prefix of it. */
  lemma {:induction false} RunHoldsPrefix(h: Held, requests: seq<(Request, Ram)>, img: seq<byte>)
    requires PrefixHeld(h, img)
    requires forall i :: 0 <= i < |requests| ==> ChunkOf(requests[i].0, img)
    ensures PrefixHeld(AfterRequests(h, requests), img)
  {
    hide ChunkOf, PrefixHeld, Served;
    if |requests| > 0 {
      var n := |requests| - 1;
      var h0 := AfterRequests(h, requests[..n]);
      RunHoldsPrefix(h, requests[..n], img);
      assert ChunkOf(requests[n].0, img);
      if requests[n].0.off == NO_OFFSET {
        AbsentOffset(h0, requests[n].0, requests[n].1);
      } else {
        ChunkServed(h0, requests[n].0, requests[n].1, img);
      }
    }
  }

  lemma AbsentOffset(h: Held, q: Request, ram: Ram)
    requires q.off == NO_OFFSET
    ensures Served(h, q, ram) == (h, Invalid)
  {
  }

  // ---- erase, program, verify ----

  // 0, or the step that failed: 1 erase, 2 program, 3 verify
  datatype Outcome = Refused | Step(failed: nat)

  lemma ErasedIsBlank(m: Mem, p: Part, data: seq<byte>)
    requires ErasedPart(m, p)
    ensures Fits(p, false, data, |m|) ==> BlankAt(m, p, 0, |data|)
  {
  }

  lemma IsolatedTwice(m: Mem, m1: Mem, m2: Mem, slot: Part, p: Part, q: Part)
    requires Isolated(m, m1, slot, p, q) && Isolated(m1, m2, slot, p, q)
    ensures Isolated(m, m2, slot, p, q)
  {
  }

  lemma IsolatedSize(m: Mem, m': Mem, slot: Part, p: Part, q: Part)
    requires Isolated(m, m', slot, p, q)
    ensures |m'| == |m|
  {
  }

  // Verifying may find something else behind a short last piece than programming left there.
  ghost predicate TailMayDiffer(p: Part, data: seq<byte>) {
    exists stale: Block, vstale: Block :: !TailAgrees(INIT, data, InfoOf(p), stale, vstale)
  }

  // whole blocks never do
  lemma WholeNeverDiffers(p: Part, data: seq<byte>)
    requires |data| % BLOCK == 0
    ensures !TailMayDiffer(p, data)
  {
    forall stale: Block, vstale: Block ensures TailAgrees(INIT, data, InfoOf(p), stale, vstale) {
      WholeTailAgrees(INIT, data, InfoOf(p), stale, vstale);
    }
  }

  // the slot can be erased
  predicate Erases(rsu: Rsu, slot: int, size: nat)
    reads rsu.db`spt
  {
    rsu.IsSlotNumber(slot) && !rsu.Protected(slot) && CanErase(rsu.SlotPart(slot), size)
  }

  // the data fits the slot, is accepted, and the slot can be put in the boot order
  predicate Programs(rsu: Rsu, slot: int, data: seq<byte>, size: nat)
    reads rsu.db`spt
  {
    Fits(rsu.SlotPart(slot), false, data, size) && MayBoot(rsu, rsu.SlotPart(slot), false)
  }

  /** What a step number says when no flash operation has failed: the first step that cannot be done, and 0 if
      all can. Only verifying data that is not whole blocks may go either way. */
  ghost predicate StepFits(rsu: Rsu, slot: int, data: seq<byte>, size: nat, failed: nat)
    reads rsu.db`spt
  {
    var p := rsu.SlotPart(slot);
    && (failed == 1 <==> !Erases(rsu, slot, size))
    && (failed == 2 <==> Erases(rsu, slot, size) && !Programs(rsu, slot, data, size))
    && (failed == 3 ==> !IsLive(p.offset) || TailMayDiffer(p, data))
    && (failed == 0 ==> IsLive(p.offset))
    && failed <= 3
  }

  /** Wherever an update stops, no boot order in flash has a slot that is half written: its bytes are what they
      were, or the order is without it, or it holds the whole image. */
  ghost predicate NeverHalfWritten(m: Mem, m': Mem, s: Spt, p: Part, data: seq<byte>, order: seq<u64>)
    requires s.partitions <= MAX_PARTITIONS
  {
    || SamePart(m, m', p) || HoldsImage(m', p, false, data)
    || OrdersLeft(m', s, {Without(order, p.offset)})
  }

  lemma NotWritten(m: Mem, s: Spt, p: Part, data: seq<byte>, order: seq<u64>)
    requires s.partitions <= MAX_PARTITIONS
    ensures NeverHalfWritten(m, m, s, p, data, order)
  {
  }

  /** Without faults the update is done exactly if the slot can be erased and programmed and its offset is no
      marker value, for data in whole blocks. */
  lemma DoneIff(rsu: Rsu, slot: int, data: seq<byte>, size: nat, failed: nat)
    requires StepFits(rsu, slot, data, size, failed) && |data| % BLOCK == 0
    ensures failed == 0 <==>
      Erases(rsu, slot, size) && Programs(rsu, slot, data, size) && IsLive(rsu.SlotPart(slot).offset)
  {
    hide TailMayDiffer, CanErase, Fits, Rsu.IsSlotNumber, Rsu.SlotPart;
    WholeNeverDiffers(rsu.SlotPart(slot), data);
  }

  /** The three steps of an update. Without faults the number returned is that of the first step that cannot be
      done: whatever programming wrote, verifying finds, but for a marker offset, which no boot order has, and
      what is behind a short last block. Only the slot's partition and the two CPB partitions change. */
  method EraseProgramVerify(rsu: Rsu, slot: int, data: seq<byte>) returns (failed: nat)
    requires Ready(rsu.db)
    modifies rsu.db`cpb, rsu.db`cpbCorrupted, rsu.db`cpb0Part, rsu.db`cpb1Part, rsu.db.flash
    ensures rsu.db.flash.faults >= old(rsu.db.flash.faults) && failed <= 3
    ensures Isolated(old(rsu.db.flash.mem), rsu.db.flash.mem, rsu.SlotPart(slot), rsu.db.Cpb0(), rsu.db.Cpb1())
    ensures failed == 0 ==> Ready(rsu.db) && HoldsImage(rsu.db.flash.mem, rsu.SlotPart(slot), false, data)
    ensures failed == 0 ==>
      Order(rsu.db) == Front(rsu.SlotPart(slot).offset) + Without(old(Order(rsu.db)), rsu.SlotPart(slot).offset)
    ensures failed == 0 ==> var v := rsu.SlotPart(slot).offset;
      Reached(old(BootState(rsu.db)), [Op.Remove(v), Op.Add(v)], BootState(rsu.db))
    ensures rsu.db.flash.faults == old(rsu.db.flash.faults) ==>
      StepFits(rsu, slot, data, |rsu.db.flash.mem|, failed)
    ensures NeverHalfWritten(old(rsu.db.flash.mem), rsu.db.flash.mem, rsu.db.spt, rsu.SlotPart(slot), data,
              old(Order(rsu.db)))
  {
    hide PartsOk, Layout, CpbGood, SptGood, PointerOk, Isolated, EncCpb, EncSpt, BlankAt, HoldsImage, Fits, Prio,
      Without, PartNamed, Wf, IsSlot, ErasedPart, CanErase, Reached, Listed, TailAgrees, InfoOf, SameOutside,
      Rsu.IsSlotNumber, Rsu.SlotPart;
    ghost var m, p, s := rsu.db.flash.mem, rsu.SlotPart(slot), BootState(rsu.db);
    var ok := rsu.SlotErase(slot);
    if !ok {
      return 1;
    }
    ghost var m1, s1 := rsu.db.flash.mem, BootState(rsu.db);
    ErasedIsBlank(m1, p, data);
    IsolatedSize(m, m1, p, rsu.db.Cpb0(), rsu.db.Cpb1());
    var source := new Source(data, true);
    ok := ProgramCommon(rsu, slot, source, false);
    IsolatedTwice(m, m1, rsu.db.flash.mem, p, rsu.db.Cpb0(), rsu.db.Cpb1());
    if !ok {
      return 2;
    }
    TwoSteps(s, Op.Remove(p.offset), s1, Op.Add(p.offset), BootState(rsu.db));
    source := new Source(data, true);
    ghost var stale, vstale;
    ok, stale, vstale := VerifyCommon(rsu, slot, source, false);
    return if ok then 0 else 3;
  }

  // ---- the handlers ----

  class Mgmt {
    const rsu: Rsu
    var image: array?<byte>
    var imageLen: nat
    var imageHave: nat

    constructor (rsu: Rsu)
      ensures this.rsu == rsu && Valid() && View() == Nothing
    {
      this.rsu := rsu;
      image, imageLen, imageHave := null, 0, 0;
    }

    ghost predicate Valid()
      reads this
    {
      image != null ==> image.Length == imageLen && imageHave <= imageLen
    }

    ghost function View(): Held
      reads this, image
      requires Valid()
    {
      if image == null then Nothing else Held(imageLen, image[..imageHave])
    }

    method Upload(q: Request, ram: Ram) returns (reply: Reply)
      requires Valid()
      modifies this, image
      ensures Valid() && (image == old(image) || image == null || fresh(image))
      ensures (View(), reply) == Served(old(View()), q, ram)
    {
      hide Stored;
      if q.off == NO_OFFSET {
        return Invalid;
      }
      if q.off == 0 {
        if q.len == 0 || q.len > MAX_IMAGE {
          return Invalid;
        }
        if !ram.ready {
          return NoMemory;
        }
        image := null;
        if !ram.room {
          return NoMemory;
        }
        image := new byte[q.len];
        imageLen, imageHave := q.len, 0;
      }
      reply := Append(q);
    }

    // the data of a request behind what has been received, or over it
    method Append(q: Request) returns (reply: Reply)
      requires Valid()
      modifies this`imageHave, image
      ensures Valid() && (View(), reply) == Stored(old(View()), q)
    {
      ghost var h := View();
      if image == null || q.off > imageHave || q.off + |q.data| > imageLen {
        return Invalid;
      }
      var n := q.off + |q.data|;
      PutBytes(image, q.off, q.data);
      imageHave := if imageHave < n then n else imageHave;
      assert image[..imageHave] == Stored(h, q).0.bytes;
      return Offset(imageHave);
    }

    /** Programs nothing but a complete image whose CRC is right; the buffer is released only when
        all three steps have succeeded. */
    method Program(slot: int, crc: u32) returns (outcome: Outcome)
      requires Valid() && Ready(rsu.db)
      modifies this, rsu.db`cpb, rsu.db`cpbCorrupted, rsu.db`cpb0Part, rsu.db`cpb1Part, rsu.db.flash
      ensures Valid() && View() == (if outcome == Step(0) then Nothing else old(View()))
      ensures outcome.Refused? <==>
        !(old(View()).Held? && old(View()).len == |old(View()).bytes| && Crc32(old(View()).bytes) == crc)
      ensures outcome.Refused? ==> rsu.db.flash.mem == old(rsu.db.flash.mem) && Order(rsu.db) == old(Order(rsu.db))
      ensures Isolated(old(rsu.db.flash.mem), rsu.db.flash.mem, rsu.SlotPart(slot), rsu.db.Cpb0(), rsu.db.Cpb1())
      ensures outcome == Step(0) ==>
        Ready(rsu.db) && HoldsImage(rsu.db.flash.mem, rsu.SlotPart(slot), false, old(View()).bytes)
      ensures outcome == Step(0) ==>
        Order(rsu.db) == Front(rsu.SlotPart(slot).offset) + Without(old(Order(rsu.db)), rsu.SlotPart(slot).offset)
      ensures outcome.Step? && rsu.db.flash.faults == old(rsu.db.flash.faults) ==>
        StepFits(rsu, slot, old(View()).bytes, |rsu.db.flash.mem|, outcome.failed)
      ensures outcome.Step? ==> outcome.failed <= 3
      ensures old(View()).Held? ==>
        NeverHalfWritten(old(rsu.db.flash.mem), rsu.db.flash.mem, rsu.db.spt, rsu.SlotPart(slot), old(View()).bytes,
          old(Order(rsu.db)))
      ensures old(View()).Held? && old(View()).len == |old(View()).bytes| && Crc32(old(View()).bytes) == crc
              && rsu.db.flash.faults == old(rsu.db.flash.faults)
              && Erases(rsu, slot, |rsu.db.flash.mem|)
              && Programs(rsu, slot, old(View()).bytes, |rsu.db.flash.mem|)
              && IsLive(rsu.SlotPart(slot).offset) && !TailMayDiffer(rsu.SlotPart(slot), old(View()).bytes) ==>
        outcome == Step(0)
    {
      hide PartsOk, Layout, CpbGood, SptGood, PointerOk, Isolated, EncCpb, EncSpt, HoldsImage, Fits, Prio,
        Without, PartNamed, Wf, IsSlot, CanErase, Crc32, TailMayDiffer, Reached, Listed, Rsu.IsSlotNumber,
        Rsu.SlotPart, Erases, Programs, NeverHalfWritten;
      if View().Held? {
        NotWritten(rsu.db.flash.mem, rsu.db.spt, rsu.SlotPart(slot), View().bytes, Order(rsu.db));
      }
      IsolatedSelf(rsu.db.flash.mem, rsu.SlotPart(slot), rsu.db.Cpb0(), rsu.db.Cpb1());
      if image == null || imageHave != imageLen {
        return Refused;
      }
      if Crc32(image[..imageLen]) != crc {
        return Refused;
      }
      var step := EraseProgramVerify(rsu, slot, image[..imageLen]);
      if step == 0 {
        image, imageLen, imageHave := null, 0, 0;
      }
      return Step(step);
    }
  }

  // ---- the host ----

  // the board can append at this offset
  predicate Reaches(h: Held, off: nat) {
    h.Held? && off <= |h.bytes|
  }

  lemma StaleServed(h: Held, q: Request, stale: Request, ram: Ram, img: seq<byte>)
    requires ChunkOf(stale, img) && stale.off != NO_OFFSET
    requires q.off > 0 ==> PrefixHeld(h, img)
    ensures q.off > 0 ==> PrefixHeld(Served(h, stale, ram).0, img)
    ensures q.off > 0 && stale.off > 0 ==> Reaches(h, q.off) ==> Reaches(Served(h, stale, ram).0, q.off)
  {
    if q.off > 0 { ChunkServed(h, stale, ram, img); }
  }

  /** One request as the host sees it: the board may first serve stale repeats of earlier chunks
      whose replies were lost, then serves this one, and its reply arrives. The exchange is smooth if the
      HyperRAM is up and has room, and no repeated first chunk starts the upload again. */
  method Exchange(board: Mgmt, img: seq<byte>, q: Request, smooth: bool) returns (reply: Reply)
    requires board.Valid() && ChunkOf(q, img) && q.off != NO_OFFSET && |img| < NO_OFFSET
    requires q.off > 0 ==> PrefixHeld(board.View(), img)
    modifies board, board.image
    ensures board.Valid() && (board.image == old(board.image) || board.image == null || fresh(board.image))
    ensures reply.Offset? ==> PrefixHeld(board.View(), img)
    ensures reply.Offset? ==> board.View().Held? && reply.off == |board.View().bytes| >= q.off + |q.data|
    ensures smooth && 0 < |img| <= MAX_IMAGE && (q.off == 0 || old(Reaches(board.View(), q.off))) ==> reply.Offset?
  {
    hide PrefixHeld, Served;
    var repeats: nat, ram: Ram := *, *;
    for i := 0 to repeats
      invariant board.Valid() && (q.off > 0 ==> PrefixHeld(board.View(), img))
      invariant smooth && q.off > 0 && old(Reaches(board.View(), q.off)) ==> Reaches(board.View(), q.off)
      invariant board.image == old(board.image) || board.image == null || fresh(board.image)
    {
      var at: u32, size: nat := *, *;
      var stale := if at < NO_OFFSET && at + size <= |img| && !(smooth && at == 0)
                   then Request(at, |img|, img[at..at + size]) else q;
      StaleServed(board.View(), q, stale, ram, img);
      var _ := board.Upload(stale, ram);
      ram := *;
    }
    if smooth {
      ram := Ram(true, true);
    }
    ChunkServed(board.View(), q, ram, img);
    reply := board.Upload(q, ram);
  }

  /** The upload loop. Its offset grows with every reply, and when it ends the board holds exactly
      the image, whatever it held before. It does get there if its exchanges are smooth and the image is
      not longer than the board takes. */
  method UploadImage(board: Mgmt, img: seq<byte>, chunk: nat, smooth: bool) returns (ok: bool, ghost offsets: seq<nat>)
    requires board.Valid() && chunk > 0 && 0 < |img| < NO_OFFSET
    modifies board, board.image
    ensures board.Valid() && (ok ==> board.View() == Held(|img|, img))
    ensures smooth && |img| <= MAX_IMAGE ==> ok
    ensures forall i, j :: 0 <= i < j < |offsets| ==> offsets[i] < offsets[j]
  {
    hide Served;
    var off := 0;
    offsets := [0];
    while off < |img|
      invariant board.Valid() && (off > 0 ==> PrefixHeld(board.View(), img))
      invariant board.image == old(board.image) || board.image == null || fresh(board.image)
      invariant off > 0 ==> board.View().Held? && off == |board.View().bytes|
      invariant |offsets| > 0 && offsets[|offsets| - 1] == off
      invariant forall i, j :: 0 <= i < j < |offsets| ==> offsets[i] < offsets[j]
    {
      var end := if off + chunk < |img| then off + chunk else |img|;
      var reply := Exchange(board, img, Request(off, |img|, img[off..end]), smooth);
      if !reply.Offset? {
        return false, offsets;
      }
      off := reply.off;
      offsets := offsets + [off];
    }
    ok := true;
  }
}
