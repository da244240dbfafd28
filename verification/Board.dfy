/** The AXC3000 board's flash layout: everything the slot API asks of its tables holds there, and which
    boot-order updates can be torn into another slot's. */
module Board {
  import opened Bits
  import opened FlashDev
  import opened DualCopy
  import opened Tables
  import opened CpbUpdate
  import opened Priority
  import opened SptOps
  import opened RsuOps
  import opened RsuSlots
  import opened RsuBoot
  import Image
  import ImageTwice
  import ImageFails
  import Protection

  const FLASH_SIZE: nat := 0x200_0000
  const SPT0_ADDRESS: u64 := 0x60_0000
  const SPT1_ADDRESS: u64 := 0x61_0000
  const FACTORY: u64 := 0x21_0000
  const P1: u64 := 0x80_0000
  const P2: u64 := 0xC0_0000
  const PARTS: nat := 8

  function PartName(i: nat): (n: seq<byte>)
    ensures |n| < NAME_LENGTH && 0 !in n
  {
    if i == 0 then BOOT_INFO else if i == 1 then FACTORY_IMAGE else if i == 2 then SPT0 else if i == 3 then SPT1
    else if i == 4 then CPB0 else if i == 5 then CPB1 else if i == 6 then [0x50, 0x31] else [0x50, 0x32]
  }

  function Start(i: nat): u64 {
    if i == 0 then 0 else if i == 1 then FACTORY else if i == 2 then SPT0_ADDRESS else if i == 3 then SPT1_ADDRESS
    else if i == 4 then 0x62_0000 else if i == 5 then 0x63_0000 else if i == 6 then P1 else P2
  }

  function Length(i: nat): u32 {
    if i == 0 then 0x21_0000 else if i == 1 then 0x3F_0000 else if i <= 5 then 0x1_0000 else 0x40_0000
  }

  function NameOf(n: seq<byte>): Name
    requires |n| < NAME_LENGTH
  {
    n + [0] + seq(NAME_LENGTH - |n| - 1, _ => 0)
  }

  // all but the factory image, P1 and P2 have the reserved flag
  function PartAt(i: nat): Part {
    Part(NameOf(PartName(i)), Start(i), Length(i), if i == 1 || i > 5 then 0 else 1)
  }

  function BoardParts(): seq<Part> {
    seq(PARTS, i requires 0 <= i < PARTS => PartAt(i))
  }

  function BoardSpt(): Spt {
    Spt(SPT_MAGIC, SPT_VERSION, PARTS, 0, seq(NAME_LENGTH, _ => 0), seq(MAX_PARTITIONS, i requires 0 <= i => PartAt(i)))
  }

  lemma {:induction false} NoZeros(n: seq<byte>)
    requires 0 !in n
    ensures CStr(n) == n
  {
    if |n| > 0 { NoZeros(n[1..]); }
  }

  lemma NameIs(i: nat)
    ensures CStr(PartAt(i).name) == PartName(i)
  {
    hide PartName, CStr;
    var n := PartName(i);
    NoZeros(n);
    CStrOf(n, seq(NAME_LENGTH - |n| - 1, _ => 0));
  }

  lemma NamesDiffer(i: nat, j: nat)
    requires i < j < PARTS
    ensures PartName(i) != PartName(j)
  {
    assert i != 0 ==> |PartName(i)| != 9;
    assert i != 1 ==> |PartName(i)| != 13;
    assert SPT0[3] != SPT1[3] && SPT0[0] != CPB0[0] && SPT0[0] != CPB1[0] && SPT1[0] != CPB0[0] && SPT1[0] != CPB1[0];
    assert CPB0[3] != CPB1[3] && PartName(6)[1] != PartName(7)[1];
  }

  lemma PartsApartHere(i: nat, j: nat)
    requires i < j < PARTS
    ensures CStr(PartAt(i).name) != CStr(PartAt(j).name)
    ensures !Overlap(PartAt(i), PartAt(j)) && !Overlap(PartAt(j), PartAt(i))
  {
    hide CStr, PartName, NameOf;
    NameIs(i);
    NameIs(j);
    NamesDiffer(i, j);
    assert Start(i) + Length(i) <= Start(j);
  }

  lemma HasHere(i: nat, name: seq<byte>)
    requires i < PARTS && PartName(i) == name
    ensures HasName(BoardParts(), name)
  {
    hide CStr, PartName;
    NameIs(i);
    assert BoardParts()[i] == PartAt(i) && BoardParts()[i] in BoardParts();
  }

  // What the slot API asks of a partition table holds.
  lemma BoardOk()
    ensures PartsOk(BoardParts()) && Layout(BoardParts(), SPT0_ADDRESS, SPT1_ADDRESS, FLASH_SIZE)
  {
    hide CStr, NameOf, Overlap, HasName, Layout;
    HasHere(2, SPT0);
    HasHere(3, SPT1);
    HasHere(4, CPB0);
    HasHere(5, CPB1);
    var ps := BoardParts();
    forall x, y | 0 <= x < |ps| && 0 <= y < |ps| && x != y
      ensures CStr(ps[x].name) != CStr(ps[y].name) && !Overlap(ps[x], ps[y])
    {
      if x < y { PartsApartHere(x, y); } else { PartsApartHere(y, x); }
    }
    BoardLayout();
  }

  lemma LayoutHere(i: nat)
    requires i < PARTS
    ensures PartAt(i).offset + PartAt(i).length < U64_MOD && |CStr(PartAt(i).name)| < NAME_LENGTH
    ensures CStr(PartAt(i).name) in [SPT0, SPT1, CPB0, CPB1] ==> TablePart(PartAt(i), FLASH_SIZE)
    ensures CStr(PartAt(i).name) == SPT0 ==> PartAt(i).offset == SPT0_ADDRESS
    ensures CStr(PartAt(i).name) == SPT1 ==> PartAt(i).offset == SPT1_ADDRESS
  {
    hide CStr, NameOf;
    NameIs(i);
    if i < 2 { NamesDiffer(i, 2); }
    if i < 3 { NamesDiffer(i, 3); }
    if i < 4 { NamesDiffer(i, 4); }
    if i < 5 { NamesDiffer(i, 5); }
    if i > 2 { NamesDiffer(2, i); }
    if i > 3 { NamesDiffer(3, i); }
    if i > 4 { NamesDiffer(4, i); }
    if i > 5 { NamesDiffer(5, i); }
  }

  lemma BoardLayout()
    ensures Layout(BoardParts(), SPT0_ADDRESS, SPT1_ADDRESS, FLASH_SIZE)
  {
    hide CStr, PartAt, TablePart;
    var ps := BoardParts();
    forall i | 0 <= i < |ps|
      ensures ps[i].offset + ps[i].length < U64_MOD && |CStr(ps[i].name)| < NAME_LENGTH
      ensures CStr(ps[i].name) in [SPT0, SPT1, CPB0, CPB1] ==> TablePart(ps[i], FLASH_SIZE)
      ensures CStr(ps[i].name) == SPT0 ==> ps[i].offset == SPT0_ADDRESS
      ensures CStr(ps[i].name) == SPT1 ==> ps[i].offset == SPT1_ADDRESS
    {
      LayoutHere(i);
    }
  }

  lemma BoardIs(checksumEnabled: bool)
    ensures var s := Sealed(BoardSpt(), checksumEnabled);
      && s.partitions == PARTS && Parts(s) == BoardParts() && s.magic == SPT_MAGIC && Parts(BoardSpt()) == BoardParts()
      && forall y :: 0 <= y < PARTS ==> s.part[y] == PartAt(y)
  {
    hide PartAt, SptCrc;
    assert Parts(BoardSpt()) == BoardParts();
  }

  lemma PartsPositive(i: nat)
    requires i < PARTS
    ensures PartAt(i).length > 0 && PartAt(i).offset + PartAt(i).length < U64_MOD
    ensures i > 0 ==> IsLive(PartAt(i).offset)
    ensures (IsSlot(PartAt(i)) <==> i > 5) && (i > 5 ==> !PartAt(i).Reserved())
  {
    hide CStr, NameOf;
    NameIs(i);
    if i > 5 {
      assert |PartName(i)| == 2;
    }
  }

  lemma BoardSlots(checksumEnabled: bool)
    ensures var s := Sealed(BoardSpt(), checksumEnabled);
      && s.partitions == PARTS && Parts(s) == BoardParts() && s.magic == SPT_MAGIC && SptOk(s, checksumEnabled)
      && SlotOffsetsOk(s)
  {
    hide CStr, PartAt, PartsOk, Layout, PointerOk, BoardSpt, Sealed, IsSlot, SptOk;
    BoardOk();
    BoardIs(checksumEnabled);
    var s := Sealed(BoardSpt(), checksumEnabled);
    SealedIsOk(BoardSpt(), checksumEnabled);
    forall y | 0 <= y < PARTS ensures PartAt(y).length > 0 && PartAt(y).offset + PartAt(y).length < U64_MOD {
      PartsPositive(y);
    }
    forall x | 0 <= x < s.partitions && IsSlot(s.part[x])
      ensures IsLive(s.part[x].offset) && PointerOk(s.part[x].offset, s)
    {
      PartsPositive(x);
      NonEmptySlotPointers(s, x);
    }
  }

  // ---- a board with its partition table in place ----

  // both SPT copies and nothing else
  function FactoryFlash(t: Table): Mem {
    seq(SPT0_ADDRESS, _ => 0xFF) + t + seq(0x1_0000 - TABLE, _ => 0xFF) + t
    + seq(FLASH_SIZE - SPT1_ADDRESS - TABLE, _ => 0xFF)
  }

  lemma FactoryCopies(t: Table)
    ensures var m := FactoryFlash(t); |m| == FLASH_SIZE && At(m, SPT0_ADDRESS) == t && At(m, SPT1_ADDRESS) == t
  {
  }

  lemma BoardAssumption(s: Spt, checksumEnabled: bool)
    requires s == Sealed(BoardSpt(), checksumEnabled)
    ensures SptAssumption(EncSpt(s), checksumEnabled, SPT0_ADDRESS, SPT1_ADDRESS, FLASH_SIZE)
    ensures SptGood(EncSpt(s), checksumEnabled)
    ensures SptPlaces(SPT0_ADDRESS, SPT1_ADDRESS, FLASH_SIZE)
  {
    hide CStr, NameOf, EncSpt, SptOk, Layout, PartsOk, TablePart;
    BoardSlots(checksumEnabled);
    BoardOk();
    SptRoundTrip(s);
    forall i | 0 <= i < s.partitions ensures |CStr(s.part[i].name)| < NAME_LENGTH {
      LayoutHere(i);
    }
    SptRegions();
  }

  lemma SptRegions()
    ensures SptPlaces(SPT0_ADDRESS, SPT1_ADDRESS, FLASH_SIZE)
  {
  }

  lemma FactoryLoads(t: Table, checksumEnabled: bool)
    requires SptGood(t, checksumEnabled)
    ensures Loads(FactoryFlash(t), SptRegion(SPT0_ADDRESS), SptRegion(SPT1_ADDRESS), SptCheck(checksumEnabled)) ==
      Use(t)
  {
    hide SptGood, FactoryFlash;
    FactoryCopies(t);
  }

  /** With both SPT copies in flash, the tables are opened and an empty boot order is made
      (rsu_create_empty_cpb), and then the library is ready for the slot API. */
  method NewBoard(checksumEnabled: bool) returns (db: Database, ok: bool)
    ensures fresh(db) && fresh(db.flash) && (db.flash.faults == 0 ==> ok)
    ensures ok ==> Ready(db) && Order(db) == [] && db.spt == Sealed(BoardSpt(), checksumEnabled)
    ensures ok ==> Used(db.cpb.slots) == 0
    ensures ok ==> |db.flash.mem| == FLASH_SIZE
  {
    hide CStr, PartsOk, Layout, CpbGood, EncCpb, EncSpt, IndexNamed, SptAssumption, Loads, Sealed, SptGood,
      SlotOffsetsOk, Wf, PartNamed, FactoryFlash, BoardSpt, Prio;
    var s := Sealed(BoardSpt(), checksumEnabled);
    var t: Table := EncSpt(s);
    BoardAssumption(s, checksumEnabled);
    BoardSlots(checksumEnabled);
    FactoryCopies(t);
    FactoryLoads(t, checksumEnabled);
    var flash := new Flash(FactoryFlash(t));
    db := new Database(flash, SPT0_ADDRESS, SPT1_ADDRESS, checksumEnabled);
    ok := Open(db);
    if ok {
      SptRoundTrip(s);
      SptRoundTrip(db.spt);
      if db.sptCorrupted {
        return db, false;
      }
      ok := EmptyOrder(db);
    }
  }

  // ---- torn boot-order updates on this board ----

  lemma SlotBits()
    ensures And(P2, P1) == P1 && And(P1, P2) == P1
  {
    assert Pow2(22) == 0x40_0000 by {
      assert Pow2(4) == 16;
      assert Pow2(8) == 0x100;
      assert Pow2(12) == 0x1000;
      assert Pow2(16) == 0x1_0000;
      assert Pow2(20) == 0x10_0000;
    }
    hide Pow2;
    assert And(3, 2) == 2;
    AndScaled(3, 2, 22);
    AndComm(P1, P2);
  }

  lemma OddStep(a: nat, b: nat)
    ensures And(2 * a, 2 * b + 1) == 2 * And(a, b)
  {
  }

  lemma SmallBits()
    ensures And(4, 1) == 0 && And(6, 1) == 0 && Pow2(4) == 16
  {
  }

  lemma Pow2_16()
    ensures Pow2(16) == 0x1_0000
  {
    assert Pow2(4) == 16;
    assert Pow2(8) == 0x100;
    assert Pow2(12) == 0x1000;
  }

  // The factory image's offset has no bit in common with a slot's.
  lemma FactoryBits()
    ensures And(P1, FACTORY) == And(P2, FACTORY) == 0 && And(FACTORY, P1) == And(FACTORY, P2) == 0
  {
    hide And, Pow2;
    Pow2_16();
    SmallBits();
    AndScaled(4, 1, 4);
    AndScaled(6, 1, 4);
    OddStep(0x40, 0x10);
    OddStep(0x60, 0x10);
    AndScaled(0x80, 0x21, 16);
    AndScaled(0xC0, 0x21, 16);
    AndComm(P1, FACTORY);
    AndComm(P2, FACTORY);
  }

  lemma WhichPart(i: nat)
    requires i < PARTS
    ensures PartAt(i).offset == Start(i) && (PartAt(i).Reserved() <==> i <= 5 && i != 1)
    ensures (Start(i) == P1 <==> i == 6) && (Start(i) == P2 <==> i == 7) && (Start(i) == FACTORY <==> i == 1)
  {
  }

  // The offsets that check_cpb accepts are those of the two slots and of the factory image.
  lemma BoardPointers(checksumEnabled: bool, u: u64)
    ensures var s := Sealed(BoardSpt(), checksumEnabled); IsLive(u) ==> (PointerOk(u, s) <==> u in {FACTORY, P1, P2})
  {
    var s := Sealed(BoardSpt(), checksumEnabled);
    assert s.partitions == PARTS && forall y :: 0 <= y < PARTS ==> s.part[y] == PartAt(y);
    var y := FirstAt(s, u, 0);
    hide PartAt, Start, BoardSpt, Sealed;
    WhichPart(1);
    WhichPart(6);
    WhichPart(7);
    if y < PARTS {
      WhichPart(y);
    }
  }

  /** Of the four changes to the boot order, adding P2 and removing P1 cannot be torn into another slot;
      adding P1 and removing P2 can. */
  lemma BoardUpdates(checksumEnabled: bool)
    ensures var s := Sealed(BoardSpt(), checksumEnabled);
      && EntrySafe(ERASED_ENTRY, P2, s) && EntrySafe(P1, SPENT_ENTRY, s)
      && !EntrySafe(ERASED_ENTRY, P1, s) && !EntrySafe(P2, SPENT_ENTRY, s)
  {
    hide And, Sealed, BoardSpt, PointerOk;
    var s := Sealed(BoardSpt(), checksumEnabled);
    BoardSlots(checksumEnabled);
    forall u: u64 | IsLive(u) ensures PointerOk(u, s) <==> u in {FACTORY, P1, P2} {
      BoardPointers(checksumEnabled, u);
    }
    assert s.part[6] == BoardParts()[6] && s.part[7] == BoardParts()[7] by {
      assert Parts(s)[6] == s.part[6] && Parts(s)[7] == s.part[7];
    }
    SlotBits();
    FactoryBits();
    EntryCanChange(P1);
    EntryCanChange(P2);
    assert Between(P2, SPENT_ENTRY, P1) by { AndZero(P1); }
    assert Between(ERASED_ENTRY, P1, P2);
  }

  lemma OneEntry(u: u64)
    requires IsLive(u)
    ensures Prio(WithEntry(EMPTY_CPB, 0, u).slots) == [u] && Wf(WithEntry(EMPTY_CPB, 0, u).slots)
  {
    var r := WithEntry(EMPTY_CPB, 0, u).slots;
    assert r == [u] + r[1..];
    PrioConcat([u], r[1..]);
    PrioNoLive(r[1..]);
    PrioSingle(u);
  }

  /** Stopping the removal of P2 can leave a copy that passes every check and boots P1 instead. The next
      load then finds two good copies that differ, one of which nobody wrote. */
  lemma RemovalTornIntoP1(checksumEnabled: bool)
    ensures var s, c := Sealed(BoardSpt(), checksumEnabled), WithEntry(EMPTY_CPB, 0, P2);
      var before, t, torn := EncCpb(c), EncCpb(WithEntry(c, 0, SPENT_ENTRY)), EncCpb(WithEntry(c, 0, P1));
      && s.partitions <= MAX_PARTITIONS && Prio(c.slots) == [P2] && Prio(WithEntry(c, 0, P1).slots) == [P1]
      && StoppedUpdate(before, t, torn, before) && CpbGood(torn, s) && torn != before && torn != t
      && LoadOutcome(torn, before, CpbCheck(s)) == Mismatch
  {
    hide And, Sealed, BoardSpt, PointerOk, EncCpb, DecCpb, TornTable;
    var s, c := Sealed(BoardSpt(), checksumEnabled), WithEntry(EMPTY_CPB, 0, P2);
    BoardSlots(checksumEnabled);
    BoardPointers(checksumEnabled, P1);
    BoardPointers(checksumEnabled, P2);
    SlotBits();
    EntryCanChange(P2);
    AndZero(P1);
    OneEntry(P1);
    OneEntry(P2);
    EmptyIsGood(s);
    EntryDecidesCheck(EMPTY_CPB, 0, P2, s);
    EntryDecidesCheck(EMPTY_CPB, 0, P1, s);
    assert WithEntry(c, 0, P1) == WithEntry(EMPTY_CPB, 0, P1);
    EntryIsTorn(c, 0, SPENT_ENTRY, P1);
    OtherEntry(c, 0, P1, P2);
    OtherEntry(c, 0, P1, SPENT_ENTRY);
    assert WithEntry(c, 0, P2) == c;
  }

  lemma EmptyIsGood(s: Spt)
    requires s.partitions <= MAX_PARTITIONS
    ensures CpbGood(EncCpb(EMPTY_CPB), s)
  {
    hide EncCpb, DecCpb;
    CpbRoundTrip(EMPTY_CPB);
  }

  // ---- slots that cannot be booted ----

  const X: seq<byte> := [0x58]

  lemma XIsNew(i: nat)
    ensures PartName(i) != X && !ReservedName(CStr(X)) && CStr(X) == X && |X| == 1
  {
    NoZeros(X);
  }

  /** Slots of length zero pass every check of rsu_slot_create at the two marker values and at the offset of
      SPT0, where a reserved partition comes first. */
  lemma ZeroLengthSlots(checksumEnabled: bool, a: u64)
    requires a in {SPENT_ENTRY, ERASED_ENTRY, SPT0_ADDRESS}
    ensures var s := Sealed(BoardSpt(), checksumEnabled);
      CanCreate(s, X, a, 0) && !ReservedName(CStr(X)) && !Bootable(s, a)
  {
    hide CStr, PartAt, Sealed, BoardSpt, PartName, ReservedName, FirstPart;
    var s := Sealed(BoardSpt(), checksumEnabled);
    BoardIs(checksumEnabled);
    XIsNew(0);
    forall i | 0 <= i < |Parts(s)| ensures CStr(Parts(s)[i].name) != CStr(X) {
      NameIs(i);
      XIsNew(i);
    }
    forall i | 0 <= i < PARTS ensures !(a < s.part[i].End() && a > s.part[i].offset) {
      NoStraddle(i, a);
    }
    if a == SPT0_ADDRESS {
      FirstIsSpt0(checksumEnabled);
    }
  }

  lemma NoStraddle(i: nat, a: u64)
    requires i < PARTS && a in {SPENT_ENTRY, ERASED_ENTRY, SPT0_ADDRESS}
    ensures !(a < PartAt(i).End() && a > PartAt(i).offset)
  {
    hide CStr, NameOf, PartName;
  }

  lemma FirstIsSpt0(checksumEnabled: bool)
    ensures var s := Sealed(BoardSpt(), checksumEnabled);
      && s.partitions <= MAX_PARTITIONS && !PointerOk(SPT0_ADDRESS, s)
      && FirstPart(Parts(s), SPT0_ADDRESS) != [] && FirstPart(Parts(s), SPT0_ADDRESS)[0].Reserved()
  {
    hide Sealed, BoardSpt;
    var s := Sealed(BoardSpt(), checksumEnabled);
    BoardIs(checksumEnabled);
    BoardPointers(checksumEnabled, SPT0_ADDRESS);
    PointerOkByParts(s, SPT0_ADDRESS);
    assert Parts(s)[0..] == Parts(s);
    FirstAtIsFirstPart(s, SPT0_ADDRESS, 0);
    assert s.part[2].offset == SPT0_ADDRESS;
  }

  // A slot's place in the list is its number.
  lemma SlotHere(rsu: Rsu, s: Spt, k: nat)
    requires s == rsu.db.spt && s.partitions <= MAX_PARTITIONS && k < |rsu.SlotList()|
    ensures rsu.IsSlotNumber(k) && rsu.SlotPart(k) == rsu.SlotList()[k]
  {
    SlotOfPart(s.part, s.partitions);
  }

  /** A slot created at the offset of SPT0 and enabled: without faults the call fails, and from then on the CPB
      counts as corrupted, so that no call on the boot order works any more. */
  method BlockedByEnable(checksumEnabled: bool) returns (db: Database, created: bool, enabled: bool)
    ensures fresh(db) && fresh(db.flash)
    ensures db.flash.faults == 0 ==> created && !enabled && db.cpbCorrupted
  {
    hide CStr, PartsOk, Layout, CpbGood, EncCpb, EncSpt, IndexNamed, Sealed, SptGood, Wf, PartNamed, BoardSpt, Prio,
      Slots, OrdersLeft, EntrySafe, OnlyIn, CanCreate, Bootable, PointerOk, ReservedName, SlotOffsetsOk,
      Rsu.IsSlotNumber, Rsu.SlotPart, X, Reached, Listed, StillAccepted;
    created, enabled := false, false;
    var ok;
    db, ok := NewBoard(checksumEnabled);
    if !ok {
      return;
    }
    ZeroLengthSlots(checksumEnabled, SPT0_ADDRESS);
    var rsu := new Rsu(db, 0);
    created := rsu.SlotCreate(X, SPT0_ADDRESS, 0);
    if !created {
      return;
    }
    SlotHere(rsu, db.spt, |rsu.SlotList()| - 1);
    var count := rsu.SlotCount();
    enabled := rsu.SlotEnable(count - 1);
  }

  // ---- wear without adds ----

  lemma {:induction false} NoSlots(ps: seq<Part>)
    requires forall p :: p in ps ==> !IsSlot(p)
    ensures Slots(ps) == []
  {
    if |ps| > 0 { NoSlots(ps[1..]); }
  }

  lemma SlotsHere()
    ensures Slots(BoardParts()) == [PartAt(6), PartAt(7)]
  {
    hide PartAt, IsSlot;
    var ps := BoardParts();
    forall i | 0 <= i < PARTS ensures IsSlot(PartAt(i)) <==> i > 5 {
      PartsPositive(i);
    }
    NoSlots(ps[..6]);
    assert ps == ps[..6] + ([ps[6]] + [ps[7]]);
    SlotsConcat(ps[..6], [ps[6]] + [ps[7]]);
    SlotsConcat([ps[6]], [ps[7]]);
    assert [ps[6]][1..] == [] && [ps[7]][1..] == [];
  }

  // The library is ready, slots 0 and 1 are P1 and P2 and can be booted, and slot 2 stands at the marker of an
  // erased entry.
  ghost predicate OddSlot(rsu: Rsu)
    reads rsu.db, rsu.db.flash
  {
    && Ready(rsu.db) && rsu.db.spt.partitions <= MAX_PARTITIONS
    && rsu.IsSlotNumber(0) && rsu.IsSlotNumber(1) && rsu.IsSlotNumber(2)
    && rsu.SlotPart(0).offset == P1 && rsu.SlotPart(1).offset == P2 && rsu.SlotPart(2).offset == ERASED_ENTRY
    && PointerOk(P1, rsu.db.spt) && PointerOk(P2, rsu.db.spt)
  }

  // A new board, and a slot of length zero created at 2^64-1.
  method OddBoard(checksumEnabled: bool) returns (rsu: Rsu, ok: bool)
    ensures fresh(rsu) && fresh(rsu.db) && fresh(rsu.db.flash)
    ensures rsu.db.flash.faults == 0 ==> ok
    ensures ok ==> OddSlot(rsu)
  {
    hide CStr, PartsOk, Layout, CpbGood, EncCpb, EncSpt, IndexNamed, Sealed, SptGood, Wf, PartNamed, BoardSpt, Prio,
      Slots, OnlyIn, CanCreate, Bootable, PointerOk, ReservedName, SlotOffsetsOk, Rsu.IsSlotNumber, Rsu.SlotPart, X,
      Reached, CanBoot, PartAt;
    var db;
    db, ok := NewBoard(checksumEnabled);
    rsu := new Rsu(db, 0);
    if !ok {
      return;
    }
    ZeroLengthSlots(checksumEnabled, ERASED_ENTRY);
    BoardPointers(checksumEnabled, P1);
    BoardPointers(checksumEnabled, P2);
    BoardIs(checksumEnabled);
    SlotsHere();
    ok := rsu.SlotCreate(X, ERASED_ENTRY, 0);
    if ok {
      SlotHere(rsu, db.spt, 0);
      SlotHere(rsu, db.spt, 1);
      SlotHere(rsu, db.spt, 2);
      WhichPart(6);
      WhichPart(7);
    }
  }

  // Disables slot 2 until no entry is erased; the run of the slot API goes on with removals.
  method WearOut(rsu: Rsu, ghost run0: seq<Boot>, ghost ops0: seq<Op>)
    returns (ok: bool, ghost run: seq<Boot>, ghost ops: seq<Op>)
    requires OddSlot(rsu) && RunTo(run0, ops0, BootState(rsu.db))
    modifies rsu.db`cpb, rsu.db`cpbCorrupted, rsu.db`cpb0Part, rsu.db`cpb1Part, rsu.db.flash
    ensures rsu.db.flash.faults >= old(rsu.db.flash.faults)
    ensures rsu.db.flash.faults == old(rsu.db.flash.faults) ==> ok
    ensures ok ==> OddSlot(rsu) && Used(rsu.db.cpb.slots) == CPB_NSLOTS
    ensures ok ==> RunTo(run, ops, BootState(rsu.db)) && run0 <= run && ops0 <= ops
    ensures ok ==> forall i :: |ops0| <= i < |ops| ==> ops[i] == Op.Remove(ERASED_ENTRY)
  {
    hide Ready, PointerOk, Rsu.IsSlotNumber, Rsu.SlotPart, Reached, Used, ApiState, HasRoom, Removed, Without, Prio,
      OnlyIn, OrdersLeft, EntrySafe, Listed, RunTo, ApiRun;
    run, ops := run0, ops0;
    while Used(rsu.db.cpb.slots) < CPB_NSLOTS
      invariant OddSlot(rsu) && rsu.db.flash.faults >= old(rsu.db.flash.faults)
      invariant RunTo(run, ops, BootState(rsu.db)) && run0 <= run && ops0 <= ops
      invariant forall i :: |ops0| <= i < |ops| ==> ops[i] == Op.Remove(ERASED_ENTRY)
      decreases CPB_NSLOTS - Used(rsu.db.cpb.slots)
    {
      ghost var s := BootState(rsu.db);
      ok := rsu.SlotDisable(2);
      if !ok {
        return;
      }
      Disabled(s, BootState(rsu.db));
      RunThen(run, ops, s, Op.Remove(ERASED_ENTRY), BootState(rsu.db));
      run, ops := run + [BootState(rsu.db)], ops + [Op.Remove(ERASED_ENTRY)];
    }
    ok := true;
  }

  lemma Disabled(s: Boot, t: Boot)
    requires Reached(s, [Op.Remove(ERASED_ENTRY)], t) && Used(s.slots) < CPB_NSLOTS
    ensures Used(t.slots) == Used(s.slots) + 1
  {
    hide Used, Removed;
    ReachedOne(s, Op.Remove(ERASED_ENTRY), t);
    RemovedUsed(s.slots, ERASED_ENTRY);
  }

  // A slot enabled when no entry is erased: its removal, then a compaction.
  lemma EnabledCompacts(s: Boot, v: u64, t: Boot)
    requires Reached(s, [Op.Remove(v), Op.Add(v)], t) && IsLive(v) && Used(s.slots) == CPB_NSLOTS
    ensures HasRoom(s.slots) && Compacts(Apply(s, Op.Remove(v)), Op.Add(v))
    ensures ApiState(Apply(s, Op.Remove(v)))
    ensures Reached(s, [Op.Remove(v)], Apply(s, Op.Remove(v))) && Reached(Apply(s, Op.Remove(v)), [Op.Add(v)], t)
  {
    hide Used, Removed, Reached;
    ReachedTwo(s, Op.Remove(v), Op.Add(v), t);
    RemovedUsed(s.slots, v);
  }

  lemma WornTwice(run: seq<Boot>, ops: seq<Op>, t: Boot)
    requires RunTo(run, ops, t) && |ops| >= 2 && Compacts(run[0], ops[0]) && Compacts(run[|ops| - 1], ops[|ops| - 1])
    requires forall i :: 0 < i < |ops| - 1 ==> ops[i].Remove?
    ensures TwoCompactions(run, ops) && Adds(Middle(ops)) == 0
  {
    hide Used;
    forall op | op in Middle(ops) ensures op.Remove? {
      var i :| 0 <= i < |Middle(ops)| && Middle(ops)[i] == op;
      assert op == ops[i + 1];
    }
    NoAdds(Middle(ops));
  }

  /** With a slot at 2^64-1, the slot API compacts twice with no add in between: disabling that slot wears the
      array out. Without faults every call succeeds. */
  method WearWithoutAdds(checksumEnabled: bool)
    returns (rsu: Rsu, ok: bool, ghost run: seq<Boot>, ghost ops: seq<Op>)
    ensures fresh(rsu) && fresh(rsu.db) && fresh(rsu.db.flash)
    ensures rsu.db.flash.faults == 0 ==> ok
    ensures ok ==> RunTo(run, ops, BootState(rsu.db)) && TwoCompactions(run, ops) && Adds(Middle(ops)) == 0
  {
    hide Ready, PointerOk, Rsu.IsSlotNumber, Rsu.SlotPart, Reached, Used, ApiState, HasRoom, Apply, Without, Prio,
      OnlyIn, OrdersLeft, EntrySafe, Listed, TwoCompactions, Adds, Middle, RunTo, ApiRun, Compacts;
    rsu, ok := OddBoard(checksumEnabled);
    run, ops := [BootState(rsu.db)], [];
    if !ok {
      return;
    }
    ReadyIsApiState(rsu.db);
    RunFrom(BootState(rsu.db));
    ok, run, ops := WearOut(rsu, run, ops);
    if !ok {
      return;
    }
    ghost var s := BootState(rsu.db);
    ok := rsu.SlotEnable(0);
    if !ok {
      return;
    }
    EnabledCompacts(s, P1, BootState(rsu.db));
    ghost var s1, t := Apply(s, Op.Remove(P1)), BootState(rsu.db);
    RunFrom(s1);
    RunThen([s1], [], s1, Op.Add(P1), t);
    ok, run, ops := WearOut(rsu, [s1] + [t], [] + [Op.Add(P1)]);
    if !ok {
      return;
    }
    ghost var u := BootState(rsu.db);
    ok := rsu.SlotEnable(1);
    if !ok {
      return;
    }
    EnabledCompacts(u, P2, BootState(rsu.db));
    ghost var u1 := Apply(u, Op.Remove(P2));
    RunThen(run, ops, u, Op.Remove(P2), u1);
    RunThen(run + [u1], ops + [Op.Remove(P2)], u1, Op.Add(P2), BootState(rsu.db));
    run, ops := run + [u1] + [BootState(rsu.db)], ops + [Op.Remove(P2)] + [Op.Add(P2)];
    assert run[0] == s1 && ops[0] == Op.Add(P1) by {
      assert ([s1] + [t])[0] == s1 && ([] + [Op.Add(P1)])[0] == Op.Add(P1);
    }
    assert run[|ops| - 1] == u1 by { RunLength(run, ops, BootState(rsu.db)); }
    WornTwice(run, ops, BootState(rsu.db));
  }

  lemma RunLength(run: seq<Boot>, ops: seq<Op>, t: Boot)
    requires RunTo(run, ops, t)
    ensures |run| == |ops| + 1
  {
  }

  // ---- write protection goes by slot number ----

  lemma ErasableHere(i: nat)
    requires i > 5
    ensures CanErase(PartAt(i), FLASH_SIZE)
  {
    hide NameOf, PartName;
  }

  // A new board whose slot 1 is write-protected.
  method ProtectedBoard(checksumEnabled: bool) returns (rsu: Rsu, ok: bool)
    ensures fresh(rsu.db) && fresh(rsu.db.flash) && rsu.Protected(1) && !rsu.Protected(0)
    ensures rsu.db.flash.faults == 0 ==> ok
    ensures ok ==> Ready(rsu.db) && |rsu.db.flash.mem| == FLASH_SIZE && rsu.SlotList() == [PartAt(6), PartAt(7)]
  {
    hide CStr, PartsOk, Layout, CpbGood, EncCpb, EncSpt, IndexNamed, Sealed, SptGood, Wf, PartNamed, BoardSpt, Prio,
      Slots, OnlyIn, PointerOk, SlotOffsetsOk, PartAt;
    var db;
    db, ok := NewBoard(checksumEnabled);
    var line := Protection.Line.Protect(1);
    var _, mask, _ := Protection.Configure([line]);
    assert Protection.Good([line]) == 1 && [line][..1] == [line];
    assert Protection.Named([line], 1);
    rsu := new Rsu(db, mask);
    if ok {
      BoardIs(checksumEnabled);
      SlotsHere();
    }
  }

  // Deletes slot 0 and erases what is slot 0 then.
  method DeleteThenErase(rsu: Rsu) returns (deleted: bool, erased: bool)
    requires Ready(rsu.db) && |rsu.db.flash.mem| == FLASH_SIZE && rsu.SlotList() == [PartAt(6), PartAt(7)]
    requires !rsu.Protected(0)
    modifies rsu.db, rsu.db.flash
    ensures rsu.db.flash.faults >= old(rsu.db.flash.faults)
    ensures rsu.db.flash.faults == old(rsu.db.flash.faults) ==>
      deleted && erased && ErasedPart(rsu.db.flash.mem, PartAt(7))
  {
    hide Ready, Order, PointerOk, SlotOffsetsOk, Rsu.IsSlotNumber, Rsu.SlotPart, Rsu.SlotList, PartAt, ErasedPart,
      CanErase, Without, Isolated, InTable, Reached, Listed, OrdersLeft, EntrySafe, BootState, Rsu.Protected;
    erased := false;
    ReadyCounts(rsu.db);
    SlotHere(rsu, rsu.db.spt, 0);
    ErasableHere(6);
    ErasableHere(7);
    deleted := rsu.SlotDelete(0);
    if !deleted {
      return;
    }
    assert rsu.SlotList() == [PartAt(7)];
    ReadyCounts(rsu.db);
    SlotHere(rsu, rsu.db.spt, 0);
    erased := rsu.SlotErase(0);
  }

  /** Deleting slot 0, which is not protected, lets the partition behind the protected slot 1 be erased: it has
      become slot 0. */
  method ProtectionMoves(checksumEnabled: bool) returns (db: Database, refused: bool, deleted: bool, erased: bool)
    ensures fresh(db) && fresh(db.flash)
    ensures db.flash.faults == 0 ==> refused && deleted && erased && ErasedPart(db.flash.mem, PartAt(7))
  {
    hide Ready, Order, PointerOk, SlotOffsetsOk, Rsu.IsSlotNumber, Rsu.SlotPart, Rsu.SlotList, PartAt, ErasedPart,
      CanErase, Without, Isolated, InTable, Reached, Listed, OrdersLeft, EntrySafe, BootState, Rsu.Protected;
    refused, deleted, erased := false, false, false;
    var rsu, ok := ProtectedBoard(checksumEnabled);
    db := rsu.db;
    if !ok {
      return;
    }
    ok := rsu.SlotErase(1);
    refused := !ok;
    deleted, erased := DeleteThenErase(rsu);
  }

  lemma ReadyCounts(db: Database)
    requires Ready(db)
    ensures db.spt.partitions <= MAX_PARTITIONS && !db.sptCorrupted && !db.cpbCorrupted
  {
  }

  // ---- images ----

  /** Both slots have images that fit, are accepted, and are refused or changed when they are programmed again. */
  lemma SlotImagesFail(slot: nat)
    requires slot in {6, 7}
    ensures var info := Image.Info(PartAt(slot).offset, PartAt(slot).length);
      exists image: Image.Image :: Image.Accepted(Image.INIT, image, info) && Image.BLOCK * |image| <= info.size
        && !ImageTwice.Idempotent(image, info)
  {
    ImageFails.SlotsThatFail(Image.Info(PartAt(slot).offset, PartAt(slot).length));
  }
}
