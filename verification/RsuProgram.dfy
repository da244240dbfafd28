/** rsu_slot_program_buf, rsu_slot_verify_buf and the update sequence of rsu_mgmt.c over them:
    erase, program, verify. */
module RsuProgram {
  import opened Bits
  import opened FlashDev
  import opened DualCopy
  import opened Tables
  import opened CpbUpdate
  import opened Priority
  import opened SptOps
  import opened RsuOps
  import opened RsuSlots
  import opened Image
  import opened CbProgram

  // Changing only the CPB copies leaves the image in a slot alone.
  lemma ImageKept(s: Spt, x: nat, m: Mem, m': Mem, raw: bool, d: seq<byte>, spt0: u64, spt1: u64)
    requires s.partitions <= MAX_PARTITIONS && PartsOk(Parts(s)) && Layout(Parts(s), spt0, spt1, |m|)
    requires x < s.partitions && IsSlot(s.part[x])
    requires OnlyIn(m, m', PartNamed(s, CPB0), PartNamed(s, CPB1))
    ensures HoldsImage(m, s.part[x], raw, d) ==> HoldsImage(m', s.part[x], raw, d)
  {
    hide Target, PartsOk, Layout, IsSlot;
    SlotApart(s, x, CPB0, spt0, spt1, |m|);
    SlotApart(s, x, CPB1, spt0, spt1, |m|);
    var p := s.part[x];
    if HoldsImage(m, p, raw, d) && d != [] {
      var a, n := p.offset, |d|;
      assert m'[a..a + n] == m[a..a + n] by {
        forall j | a <= j < a + n ensures m'[j] == m[j] {
          assert !Inside(PartNamed(s, CPB0), j) && !Inside(PartNamed(s, CPB1), j);
        }
      }
    }
  }

  // An offset that is not in the boot order is not in the table.
  lemma NotInTable(slots: seq<u64>, v: u64)
    requires v !in Prio(slots)
    ensures Absent(slots, v)
  {
    PrioMembers(slots, v);
  }

  lemma SmallFlash(db: Database)
    requires Ready(db)
    ensures |db.flash.mem| < MAX_FLASH
  {
  }

  /** Wherever programming stops: a slot enters no boot order in flash before it holds the whole image. */
  ghost predicate HeldFirst(m: Mem, s: Spt, p: Part, raw: bool, d: seq<byte>, order: seq<u64>)
    requires s.partitions <= MAX_PARTITIONS
  {
    HoldsImage(m, p, raw, d) || OrdersLeft(m, s, {order})
  }

  // the data into a slot's partition, with both tables as they were
  method ProgramSlotPart(rsu: Rsu, x: nat, source: Source, raw: bool) returns (ok: bool)
    requires Ready(rsu.db) && x < rsu.db.spt.partitions && IsSlot(rsu.db.spt.part[x])
    modifies source, rsu.db.flash
    ensures Ready(rsu.db) && rsu.db.flash.faults >= old(rsu.db.flash.faults) && source.FaultsSince(old(source.faults))
    ensures SameOutside(old(rsu.db.flash.mem), rsu.db.flash.mem, rsu.db.spt.part[x].offset, rsu.db.spt.part[x].length)
    ensures ok ==> HoldsImage(rsu.db.flash.mem, rsu.db.spt.part[x], raw, old(source.data))
    ensures ok ==> Fits(rsu.db.spt.part[x], raw, old(source.data), |rsu.db.flash.mem|)
    ensures rsu.db.flash.faults == old(rsu.db.flash.faults) && source.faults == old(source.faults)
            && Fits(rsu.db.spt.part[x], raw, old(source.data), |rsu.db.flash.mem|)
            && BlankAt(old(rsu.db.flash.mem), rsu.db.spt.part[x], 0, old(|source.data|)) ==>
      ok
  {
    hide PartsOk, Layout, CpbGood, EncCpb, SptGood, EncSpt, PointerOk, IndexNamed, CStr, HoldsImage, Fits, BlankAt;
    ghost var m, p := rsu.db.flash.mem, rsu.db.spt.part[x];
    SmallFlash(rsu.db);
    ok := ProgramPart(rsu.db, x, source, raw);
    assert SameOutside(m, rsu.db.flash.mem, p.offset, p.length);
    SlotChangeKeepsTables(rsu.db, m, x);
  }

  // Its offset is accepted in the boot order, or is not asked for.
  predicate MayBoot(rsu: Rsu, p: Part, raw: bool)
    reads rsu.db`spt
  {
    raw || (rsu.db.spt.partitions <= MAX_PARTITIONS && PointerOk(p.offset, rsu.db.spt))
  }

  // the data into a slot's partition, then the slot into the boot order
  method ProgramAndAdd(rsu: Rsu, x: nat, source: Source, raw: bool) returns (ok: bool)
    requires Ready(rsu.db) && x < rsu.db.spt.partitions && IsSlot(rsu.db.spt.part[x])
    requires Absent(rsu.db.cpb.slots, rsu.db.spt.part[x].offset)
    modifies source, rsu.db`cpb, rsu.db`cpbCorrupted, rsu.db`cpb0Part, rsu.db`cpb1Part, rsu.db.flash
    ensures rsu.db.flash.faults >= old(rsu.db.flash.faults) && source.FaultsSince(old(source.faults))
    ensures Isolated(old(rsu.db.flash.mem), rsu.db.flash.mem, rsu.db.spt.part[x], rsu.db.Cpb0(), rsu.db.Cpb1())
    ensures ok ==> Ready(rsu.db) && HoldsImage(rsu.db.flash.mem, rsu.db.spt.part[x], raw, old(source.data))
    ensures ok ==> Order(rsu.db) == (if raw then [] else Front(rsu.db.spt.part[x].offset)) + old(Order(rsu.db))
    ensures ok ==>
      Reached(old(BootState(rsu.db)), if raw then [] else [Op.Add(rsu.db.spt.part[x].offset)], BootState(rsu.db))
    ensures var v := rsu.db.spt.part[x].offset;
      PointerOk(v, rsu.db.spt) && EntrySafe(ERASED_ENTRY, v, rsu.db.spt) ==>
        OrdersLeft(rsu.db.flash.mem, rsu.db.spt, {old(Order(rsu.db)), Front(v) + old(Order(rsu.db))})
    ensures HeldFirst(rsu.db.flash.mem, rsu.db.spt, rsu.db.spt.part[x], raw, old(source.data), old(Order(rsu.db)))
    ensures ok ==> Fits(rsu.db.spt.part[x], raw, old(source.data), |rsu.db.flash.mem|)
    ensures ok ==> MayBoot(rsu, rsu.db.spt.part[x], raw)
    ensures rsu.db.flash.faults == old(rsu.db.flash.faults) && source.faults == old(source.faults)
            && Fits(rsu.db.spt.part[x], raw, old(source.data), |rsu.db.flash.mem|)
            && MayBoot(rsu, rsu.db.spt.part[x], raw)
            && BlankAt(old(rsu.db.flash.mem), rsu.db.spt.part[x], 0, old(|source.data|)) ==>
      ok
  {
    hide PartsOk, Layout, OnlyIn, CpbGood, SptGood, PointerOk, Isolated, EncCpb, EncSpt, BlankAt, HoldsImage, Fits,
      PartNamed, Wf, IsSlot, SameOutside, Prio, OrdersLeft, EntrySafe, Absent, Reached, Listed, ApiState;
    ReadyIsApiState(rsu.db);
    ReachedNow(BootState(rsu.db));
    ghost var m, p, d, order := rsu.db.flash.mem, rsu.db.spt.part[x], source.data, Order(rsu.db);
    IsolatedSelf(m, p, rsu.db.Cpb0(), rsu.db.Cpb1());
    ok := ProgramSlotPart(rsu, x, source, raw);
    ReadyOrder(rsu.db);
    MoreOrders(rsu.db.flash.mem, rsu.db.spt, {order}, {Front(p.offset) + order});
    assert {order} + {Front(p.offset) + order} == {order, Front(p.offset) + order};
    ghost var m1 := rsu.db.flash.mem;
    SlotStep(m, m, m1, p, rsu.db.Cpb0(), rsu.db.Cpb1());
    assert [] + Order(rsu.db) == Order(rsu.db);
    if ok && !raw {
      ok := rsu.Add(x);
      TableStep(m, m1, rsu.db.flash.mem, p, rsu.db.Cpb0(), rsu.db.Cpb1());
      SameSize(m1, rsu.db.flash.mem, rsu.db.Cpb0(), rsu.db.Cpb1());
      ImageKept(rsu.db.spt, x, m1, rsu.db.flash.mem, raw, d, rsu.db.spt0Address, rsu.db.spt1Address);
    }
  }

  /** librsu_cb_program_common: refuses slots that are protected or in the boot order, streams the
      data into the partition and, unless it is raw, makes the slot first in the boot order. Only
      the slot's partition and the CPB change. */
  method ProgramCommon(rsu: Rsu, slot: int, source: Source, raw: bool) returns (ok: bool)
    requires Ready(rsu.db)
    modifies source, rsu.db`cpb, rsu.db`cpbCorrupted, rsu.db`cpb0Part, rsu.db`cpb1Part, rsu.db.flash
    ensures rsu.db.flash.faults >= old(rsu.db.flash.faults) && source.FaultsSince(old(source.faults))
    ensures Isolated(old(rsu.db.flash.mem), rsu.db.flash.mem, rsu.SlotPart(slot), rsu.db.Cpb0(), rsu.db.Cpb1())
    ensures ok ==> Ready(rsu.db) && rsu.IsSlotNumber(slot) && rsu.SlotPart(slot).offset !in old(Order(rsu.db))
    ensures ok ==> HoldsImage(rsu.db.flash.mem, rsu.SlotPart(slot), raw, old(source.data))
    ensures ok ==> Order(rsu.db) == (if raw then [] else Front(rsu.SlotPart(slot).offset)) + old(Order(rsu.db))
    ensures ok ==>
      Reached(old(BootState(rsu.db)), if raw then [] else [Op.Add(rsu.SlotPart(slot).offset)], BootState(rsu.db))
    ensures rsu.SafeToAdd(slot) ==>
      OrdersLeft(rsu.db.flash.mem, rsu.db.spt,
                 {old(Order(rsu.db)), Front(rsu.SlotPart(slot).offset) + old(Order(rsu.db))})
    ensures HeldFirst(rsu.db.flash.mem, rsu.db.spt, rsu.SlotPart(slot), raw, old(source.data), old(Order(rsu.db)))
    ensures ok ==> !rsu.Protected(slot) && Fits(rsu.SlotPart(slot), raw, old(source.data), |rsu.db.flash.mem|)
    ensures ok ==> MayBoot(rsu, rsu.SlotPart(slot), raw)
    ensures rsu.db.flash.faults == old(rsu.db.flash.faults) && source.faults == old(source.faults)
            && rsu.IsSlotNumber(slot) && !rsu.Protected(slot) && rsu.SlotPart(slot).offset !in old(Order(rsu.db))
            && Fits(rsu.SlotPart(slot), raw, old(source.data), |rsu.db.flash.mem|)
            && MayBoot(rsu, rsu.SlotPart(slot), raw)
            && BlankAt(old(rsu.db.flash.mem), rsu.SlotPart(slot), 0, old(|source.data|)) ==>
      ok
  {
    hide PartsOk, Layout, OnlyIn, CpbGood, SptGood, PointerOk, Isolated, EncCpb, EncSpt, BlankAt, HoldsImage, Fits,
      IndexOf, Prio, PartNamed, Wf, IsSlot, Absent, OrdersLeft, EntrySafe, Reached, Listed;
    IsolatedSelf(rsu.db.flash.mem, rsu.SlotPart(slot), rsu.db.Cpb0(), rsu.db.Cpb1());
    ghost var order := Order(rsu.db);
    ReadyOrder(rsu.db);
    MoreOrders(rsu.db.flash.mem, rsu.db.spt, {order}, {Front(rsu.SlotPart(slot).offset) + order});
    assert {order} + {Front(rsu.SlotPart(slot).offset) + order} == {order, Front(rsu.SlotPart(slot).offset) + order};
    if rsu.Protected(slot) {
      return false;
    }
    var x := rsu.SlotToPart(slot);
    if x < 0 {
      return false;
    }
    var priority := rsu.db.PriorityGet(x);
    if priority > 0 {
      return false;
    }
    NotInTable(rsu.db.cpb.slots, rsu.db.spt.part[x].offset);
    ok := ProgramAndAdd(rsu, x, source, raw);
  }

  /** librsu_cb_verify_common: changes nothing and accepts exactly a slot that is in the boot order
      (unless the data is raw) and holds the relocated image, if what is behind a short last piece in the
      buffers agrees too. */
  method VerifyCommon(rsu: Rsu, slot: int, source: Source, raw: bool)
    returns (ok: bool, ghost stale: Block, ghost vstale: Block)
    requires Ready(rsu.db)
    modifies source, rsu.db.flash`faults
    ensures Ready(rsu.db) && rsu.db.flash.faults >= old(rsu.db.flash.faults) && source.FaultsSince(old(source.faults))
    ensures ok ==> rsu.IsSlotNumber(slot) && HoldsImage(rsu.db.flash.mem, rsu.SlotPart(slot), raw, old(source.data))
    ensures rsu.db.flash.faults == old(rsu.db.flash.faults) && source.faults == old(source.faults) ==>
      (ok <==> (rsu.IsSlotNumber(slot) && (raw || rsu.SlotPart(slot).offset in Order(rsu.db))
        && HoldsImage(rsu.db.flash.mem, rsu.SlotPart(slot), raw, old(source.data))
        && (raw || TailAgrees(INIT, old(source.data), InfoOf(rsu.SlotPart(slot)), stale, vstale))))
  {
    hide PartsOk, Layout, CpbGood, SptGood, PointerOk, EncCpb, EncSpt, HoldsImage, TailAgrees,
      IndexOf, Prio, PartNamed, Wf, IsSlot;
    ok, stale, vstale := false, Zeros(), Zeros();
    var x := rsu.SlotToPart(slot);
    if x < 0 {
      return;
    }
    var priority := rsu.db.PriorityGet(x);
    if !raw && priority <= 0 {
      return;
    }
    SmallFlash(rsu.db);
    ok, stale, vstale := VerifyPart(rsu.db, x, source, raw);
  }
}
