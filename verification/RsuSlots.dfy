/** The slot API of libRSU.c over the tables: slot numbers, priorities, erase, create, rename and
    delete. */
module RsuSlots {
  import opened Bits
  import opened FlashDev
  import opened DualCopy
  import opened Tables
  import opened CpbUpdate
  import opened Priority
  import opened SptOps
  import opened RsuOps
  import Protection

  // The offset can stand in the CPB: it is neither marker value and no reserved partition comes first at it.
  predicate CanBoot(p: Part, s: Spt) {
    s.partitions <= MAX_PARTITIONS && IsLive(p.offset) && PointerOk(p.offset, s)
  }

  ghost predicate SlotOffsetsOk(s: Spt) {
    s.partitions <= MAX_PARTITIONS &&
    forall x :: 0 <= x < s.partitions && IsSlot(s.part[x]) ==> CanBoot(s.part[x], s)
  }

  /** Slots of non-zero length satisfy the second half by themselves. */
  lemma NonEmptySlotPointers(s: Spt, x: nat)
    requires s.partitions <= MAX_PARTITIONS && PartsOk(Parts(s)) && x < s.partitions && !s.part[x].Reserved()
    requires forall y :: 0 <= y < s.partitions ==> s.part[y].length > 0 && s.part[y].offset + s.part[y].length < U64_MOD
    ensures PointerOk(s.part[x].offset, s)
  {
    hide CStr, Overlap;
    var ps, y := Parts(s), FirstAt(s, s.part[x].offset, 0);
    assert y <= x < |ps| && ps[x] == s.part[x] && ps[y] == s.part[y];
    SameOffsetOverlaps(ps[x], ps[y]);
  }

  lemma SameOffsetOverlaps(p: Part, q: Part)
    requires p.offset == q.offset && p.length > 0 && q.length > 0
    requires p.offset + p.length < U64_MOD && q.offset + q.length < U64_MOD
    ensures Overlap(p, q)
  {
  }

  // ---- isolation ----

  // Bytes outside the three partitions are unchanged.
  ghost predicate Isolated(m: Mem, m': Mem, slot: Part, p: Part, q: Part) {
    && |m'| == |m|
    && (forall i :: 0 <= i < |m| && !Inside(slot, i) && !Inside(p, i) && !Inside(q, i) ==> m'[i] == m[i])
  }

  lemma TableStep(m: Mem, m1: Mem, m2: Mem, slot: Part, p: Part, q: Part)
    requires Isolated(m, m1, slot, p, q) && OnlyIn(m1, m2, p, q)
    ensures Isolated(m, m2, slot, p, q)
  {
  }

  lemma SlotStep(m: Mem, m1: Mem, m2: Mem, slot: Part, p: Part, q: Part)
    requires Isolated(m, m1, slot, p, q) && SameOutside(m1, m2, slot.offset, slot.length)
    ensures Isolated(m, m2, slot, p, q)
  {
  }

  // Bytes outside a slot's partition and the four tables are unchanged.
  ghost predicate TablesAndSlot(m: Mem, m': Mem, slot: Part, s: Spt) {
    && |m'| == |m|
    && (forall i :: 0 <= i < |m| && !Inside(slot, i) && !InTable(s, i) ==> m'[i] == m[i])
  }

  predicate InTable(s: Spt, i: nat) {
    || Inside(PartNamed(s, SPT0), i) || Inside(PartNamed(s, SPT1), i)
    || Inside(PartNamed(s, CPB0), i) || Inside(PartNamed(s, CPB1), i)
  }

  lemma DeleteStep(m: Mem, m1: Mem, m2: Mem, slot: Part, s: Spt)
    requires Isolated(m, m1, slot, PartNamed(s, CPB0), PartNamed(s, CPB1))
    requires OnlyIn(m1, m2, PartNamed(s, SPT0), PartNamed(s, SPT1))
    ensures TablesAndSlot(m, m2, slot, s)
  {
  }

  // An erased slot stays erased when the SPT is rewritten.
  lemma StaysErased(s: Spt, x: nat, m: Mem, m': Mem, spt0: u64, spt1: u64)
    requires s.partitions <= MAX_PARTITIONS && PartsOk(Parts(s)) && Layout(Parts(s), spt0, spt1, |m|)
    requires x < s.partitions && IsSlot(s.part[x]) && ErasedPart(m, s.part[x])
    requires OnlyIn(m, m', PartNamed(s, SPT0), PartNamed(s, SPT1))
    ensures ErasedPart(m', s.part[x])
  {
    hide PartsOk, Layout, IsSlot, PartNamed;
    SlotApart(s, x, SPT0, spt0, spt1, |m|);
    SlotApart(s, x, SPT1, spt0, spt1, |m|);
  }

  // A slot's partition is apart from the four tables.
  lemma SlotApart(s: Spt, x: nat, name: seq<byte>, spt0: u64, spt1: u64, size: nat)
    requires s.partitions <= MAX_PARTITIONS && PartsOk(Parts(s)) && Layout(Parts(s), spt0, spt1, size)
    requires x < s.partitions && IsSlot(s.part[x]) && TableName(name)
    ensures Apart(s.part[x], PartNamed(s, name)) && TablePart(PartNamed(s, name), size)
  {
    TableAt(s, name, spt0, spt1, size);
    TableNamesReserved(name);
    PartsApart(Parts(s), x, IndexNamed(s.part, name));
  }

  // A change within one slot leaves both tables as they are.
  lemma SlotChangeKeepsTables(db: Database, m: Mem, x: nat)
    requires db.ValidSpt() && x < db.spt.partitions && IsSlot(db.spt.part[x])
    requires SameOutside(m, db.flash.mem, db.spt.part[x].offset, db.spt.part[x].length)
    ensures var p, q := db.Cpb0().offset as nat, db.Cpb1().offset as nat;
      && p + TABLE <= |m| && q + TABLE <= |m|
      && At(db.flash.mem, p) == At(m, p) && At(db.flash.mem, q) == At(m, q)
    ensures var p, q := db.spt0Address as nat, db.spt1Address as nat;
      && p + TABLE <= |m| && q + TABLE <= |m|
      && At(db.flash.mem, p) == At(m, p) && At(db.flash.mem, q) == At(m, q)
  {
    var s, n := db.spt, |m|;
    var a, l := s.part[x].offset, s.part[x].length;
    SlotApart(s, x, CPB0, db.spt0Address, db.spt1Address, n);
    SlotApart(s, x, CPB1, db.spt0Address, db.spt1Address, n);
    SlotApart(s, x, SPT0, db.spt0Address, db.spt1Address, n);
    SlotApart(s, x, SPT1, db.spt0Address, db.spt1Address, n);
    SptAddresses(s, db.spt0Address, db.spt1Address, n);
    OtherCopy(m, db.flash.mem, a, l, db.Cpb0().offset);
    OtherCopy(m, db.flash.mem, a, l, db.Cpb1().offset);
    OtherCopy(m, db.flash.mem, a, l, db.spt0Address);
    OtherCopy(m, db.flash.mem, a, l, db.spt1Address);
  }

  lemma CpbChangeKeepsSpt(db: Database, m: Mem)
    requires db.ValidSpt() && OnlyIn(m, db.flash.mem, db.Cpb0(), db.Cpb1())
    ensures |db.flash.mem| == |m|
    ensures var p, q := db.spt0Address as nat, db.spt1Address as nat;
      && p + TABLE <= |m| && q + TABLE <= |m|
      && At(db.flash.mem, p) == At(m, p) && At(db.flash.mem, q) == At(m, q)
  {
    TablesApart(db.spt, CPB0, SPT0, db.spt0Address, db.spt1Address, |m|);
    TablesApart(db.spt, CPB0, SPT1, db.spt0Address, db.spt1Address, |m|);
    TablesApart(db.spt, CPB1, SPT0, db.spt0Address, db.spt1Address, |m|);
    TablesApart(db.spt, CPB1, SPT1, db.spt0Address, db.spt1Address, |m|);
    SptAddresses(db.spt, db.spt0Address, db.spt1Address, |m|);
    UntouchedCopy(m, db.flash.mem, db.Cpb0(), db.Cpb1(), PartNamed(db.spt, SPT0));
    UntouchedCopy(m, db.flash.mem, db.Cpb0(), db.Cpb1(), PartNamed(db.spt, SPT1));
  }

  lemma SptChangeKeepsCpb(s: Spt, m: Mem, m': Mem, spt0: u64, spt1: u64)
    requires s.partitions <= MAX_PARTITIONS && PartsOk(Parts(s)) && Layout(Parts(s), spt0, spt1, |m|)
    requires OnlyIn(m, m', PartNamed(s, SPT0), PartNamed(s, SPT1))
    ensures var p, q := PartNamed(s, CPB0).offset as nat, PartNamed(s, CPB1).offset as nat;
      && p + TABLE <= |m| && q + TABLE <= |m| && At(m', p) == At(m, p) && At(m', q) == At(m, q)
  {
    TablesApart(s, SPT0, CPB0, spt0, spt1, |m|);
    TablesApart(s, SPT0, CPB1, spt0, spt1, |m|);
    TablesApart(s, SPT1, CPB0, spt0, spt1, |m|);
    TablesApart(s, SPT1, CPB1, spt0, spt1, |m|);
    UntouchedCopy(m, m', PartNamed(s, SPT0), PartNamed(s, SPT1), PartNamed(s, CPB0));
    UntouchedCopy(m, m', PartNamed(s, SPT0), PartNamed(s, SPT1), PartNamed(s, CPB1));
  }

  lemma TablesApart(s: Spt, a: seq<byte>, b: seq<byte>, spt0: u64, spt1: u64, size: nat)
    requires s.partitions <= MAX_PARTITIONS && PartsOk(Parts(s)) && Layout(Parts(s), spt0, spt1, size)
    requires TableName(a) && TableName(b) && a != b
    ensures Apart(PartNamed(s, a), PartNamed(s, b))
    ensures TablePart(PartNamed(s, a), size) && TablePart(PartNamed(s, b), size)
  {
    TableAt(s, a, spt0, spt1, size);
    TableAt(s, b, spt0, spt1, size);
    PartsApart(Parts(s), IndexNamed(s.part, a), IndexNamed(s.part, b));
  }

  lemma UntouchedCopy(m: Mem, m': Mem, p: Part, q: Part, r: Part)
    requires OnlyIn(m, m', p, q) && Apart(p, r) && Apart(q, r)
    requires r.offset + r.length <= |m| && TABLE <= r.length
    ensures At(m', r.offset) == At(m, r.offset)
  {
    forall i | 0 <= i < TABLE ensures At(m', r.offset)[i] == At(m, r.offset)[i] {
      assert !Inside(p, r.offset + i) && !Inside(q, r.offset + i);
    }
  }

  // ---- the library between two calls ----

  // No corruption is flagged, both tables are sound and equal to their copies in flash.
  ghost predicate Ready(db: Database)
    reads db, db.flash
  {
    !db.sptCorrupted && !db.cpbCorrupted && db.ValidSpt() && db.SptSynced() && db.ValidCpb()
  }

  // the boot order: partition offsets, highest priority first
  function Order(db: Database): seq<u64>
    reads db
  {
    Prio(db.cpb.slots)
  }

  // ---- the slot array and the table as one state of the boot order ----

  // the offsets in the table
  function Listed(s: Spt): (r: set<u64>)
    ensures |r| <= MAX_PARTITIONS
  {
    if s.partitions <= MAX_PARTITIONS then Offsets(s, s.partitions) else {}
  }

  function BootState(db: Database): Boot
    reads db
  {
    Boot(db.cpb.slots, Listed(db.spt))
  }

  lemma PointerIsListed(s: Spt, v: u64)
    requires s.partitions <= MAX_PARTITIONS && PointerOk(v, s) && IsLive(v)
    ensures v in Listed(s)
  {
    assert s.part[FirstAt(s, v, 0)].offset == v;
  }

  /** A library that is ready is in a state of the slot API. */
  lemma ReadyIsApiState(db: Database)
    requires Ready(db)
    ensures ApiState(BootState(db))
  {
    hide PartsOk, Layout, CpbGood, EncCpb, IndexNamed, SptGood, EncSpt, Wf, PointerOk, Listed;
    var s, slots := db.spt, db.cpb.slots;
    forall w | w in slots && IsLive(w) ensures w in Listed(s) {
      var i := IndexOf(slots, w);
      GoodPointer(db.cpb, s, i);
      PointerIsListed(s, w);
    }
  }

  // What a successful removal, addition or edit of the table does is a step of the slot API.
  lemma RemovedStep(s: Boot, spt: Spt, x: nat)
    requires ApiState(s) && x < spt.partitions <= MAX_PARTITIONS && s.offsets == Listed(spt)
    ensures var v := spt.part[x].offset; Reached(s, [Op.Remove(v)], s.(slots := Removed(s.slots, v)))
  {
    hide ApiState;
    ReachedBy(s, Op.Remove(spt.part[x].offset));
  }

  lemma AddedStep(s: Boot, spt: Spt, x: nat)
    requires ApiState(s) && x < spt.partitions <= MAX_PARTITIONS && s.offsets == Listed(spt)
    requires Absent(s.slots, spt.part[x].offset)
    ensures var v := spt.part[x].offset;
      HasRoom(s.slots) && Reached(s, [Op.Add(v)], s.(slots := Added(s.slots, v)))
  {
    hide ApiState;
    ReachedBy(s, Op.Add(spt.part[x].offset));
  }

  lemma TwoSteps(s: Boot, a: Op, t: Boot, b: Op, u: Boot)
    requires Reached(s, [a], t) && Reached(t, [b], u)
    ensures Reached(s, [a, b], u)
  {
    hide Reached;
    ReachedThen(s, [a], t, [b], u);
    assert [a] + [b] == [a, b];
  }

  // ---- boot orders that a stop can leave ----

  // what an add puts in front of the boot order: a marker value is no entry
  function Front(v: u64): seq<u64> {
    if IsLive(v) then [v] else []
  }

  // the boot order that a table stands for
  function OrderOf(t: Table): seq<u64> {
    Prio(DecCpb(t).slots)
  }

  // One copy of the CPB passes check_cpb, and every copy that does stands for one of these boot orders.
  ghost predicate OrdersLeft(m: Mem, s: Spt, orders: set<seq<u64>>)
    requires s.partitions <= MAX_PARTITIONS
  {
    var p, q := PartNamed(s, CPB0), PartNamed(s, CPB1);
    Holds(m, p, q) && OrdersOf(At(m, p.offset), At(m, q.offset), s, orders)
  }

  ghost predicate OrdersOf(d0: Table, d1: Table, s: Spt, orders: set<seq<u64>>)
    requires s.partitions <= MAX_PARTITIONS
  {
    && (CpbGood(d0, s) || CpbGood(d1, s))
    && (CpbGood(d0, s) ==> OrderOf(d0) in orders) && (CpbGood(d1, s) ==> OrderOf(d1) in orders)
  }

  lemma OldOrNewOrders(d0: Table, d1: Table, s: Spt, c: Cpb, e: Cpb)
    requires s.partitions <= MAX_PARTITIONS && OldOrNew(EncCpb(c), EncCpb(e), d0, d1, CpbCheck(s))
    ensures OrdersOf(d0, d1, s, {Prio(c.slots), Prio(e.slots)})
  {
    hide CpbGood, EncCpb, Prio;
    CpbRoundTrip(c);
    CpbRoundTrip(e);
  }

  // An entry changed in place, with no other slot's offset between old and new.
  lemma ChangedOrders(m: Mem, m': Mem, s: Spt, c: Cpb, n: nat, v: u64, ok: bool)
    requires s.partitions <= MAX_PARTITIONS && CpbGood(EncCpb(c), s) && n < CPB_NSLOTS && PointerOk(v, s)
    requires And(c.slots[n], v) == v && EntrySafe(c.slots[n], v, s)
    requires Changed(m, m', PartNamed(s, CPB0), PartNamed(s, CPB1), EncCpb(c), EncCpb(WithEntry(c, n, v)),
               CpbCheck(s), ok)
    ensures |m'| == |m|
    ensures OrdersLeft(m', s, {Prio(c.slots), Prio(WithEntry(c, n, v).slots)})
  {
    hide CpbGood, EncCpb, Prio, PartNamed, TornTable, EntrySafe, PointerOk;
    var p, q := PartNamed(s, CPB0), PartNamed(s, CPB1);
    EntryDecidesCheck(c, n, v, s);
    UpdateSafeIff(c, n, v, s);
    OldOrNewOrders(At(m', p.offset), At(m', q.offset), s, c, WithEntry(c, n, v));
  }

  lemma CommittedOrders(m: Mem, m': Mem, s: Spt, c: Cpb, e: Cpb, ok: bool)
    requires s.partitions <= MAX_PARTITIONS && CpbGood(EncCpb(e), s)
    requires Committed(m, m', PartNamed(s, CPB0), PartNamed(s, CPB1), EncCpb(c), EncCpb(e), CpbCheck(s), ok)
    ensures OrdersLeft(m', s, {Prio(c.slots), Prio(e.slots)})
  {
    hide CpbGood, EncCpb, Prio, PartNamed;
    var p, q := PartNamed(s, CPB0), PartNamed(s, CPB1);
    OldOrNewOrders(At(m', p.offset), At(m', q.offset), s, c, e);
  }

  lemma RemovedOrders(m: Mem, m': Mem, s: Spt, c: Cpb, v: u64, ok: bool)
    requires s.partitions <= MAX_PARTITIONS && CpbGood(EncCpb(c), s) && Wf(c.slots) && EntrySafe(v, SPENT_ENTRY, s)
    requires Changed(m, m', PartNamed(s, CPB0), PartNamed(s, CPB1), EncCpb(c),
               EncCpb(c.(slots := Removed(c.slots, v))), CpbCheck(s), ok)
    ensures OrdersLeft(m', s, {Prio(c.slots), Without(Prio(c.slots), v)})
  {
    hide CpbGood, EncCpb, Prio, PartNamed, EntrySafe, PointerOk, Changed, OrdersLeft, Wf, Without;
    var n := IndexOf(c.slots, v);
    RemoveIsWithout(c.slots, v) by { WfDistinct(c.slots); }
    MarkerOk(s);
    EntryCanChange(v);
    if n < |c.slots| {
      ChangedOrders(m, m', s, c, n, SPENT_ENTRY, ok);
    } else {
      assert c.(slots := Removed(c.slots, v)) == c;
      SameOrders(m, m', s, c, ok);
      assert {Prio(c.slots)} == {Prio(c.slots), Without(Prio(c.slots), v)};
    }
  }

  lemma WfDistinct(s: seq<u64>)
    requires Wf(s)
    ensures LiveDistinct(s)
  {
  }

  // nothing changed, and loaded again
  lemma SameOrders(m: Mem, m': Mem, s: Spt, c: Cpb, ok: bool)
    requires s.partitions <= MAX_PARTITIONS && CpbGood(EncCpb(c), s)
    requires Changed(m, m', PartNamed(s, CPB0), PartNamed(s, CPB1), EncCpb(c), EncCpb(c), CpbCheck(s), ok)
    ensures OrdersLeft(m', s, {Prio(c.slots)})
  {
    hide CpbGood, EncCpb, Prio, PartNamed, TornTable;
    var p, q := PartNamed(s, CPB0), PartNamed(s, CPB1);
    OnlyItself(EncCpb(c));
    OldOrNewOrders(At(m', p.offset), At(m', q.offset), s, c, c);
  }

  lemma AddedOrder(slots: seq<u64>, v: u64)
    requires Wf(slots) && HasRoom(slots)
    ensures Prio(Added(slots, v)) == Front(v) + Prio(slots)
  {
    hide Prio, Added;
    WfDistinct(slots);
    if IsLive(v) {
      AddIsFront(slots, v);
    } else {
      AddVisibleIff(slots, v);
      assert [] + Prio(slots) == Prio(slots);
    }
  }

  lemma AddedOrders(m: Mem, m': Mem, s: Spt, c: Cpb, v: u64, ok: bool)
    requires s.partitions <= MAX_PARTITIONS && CpbGood(EncCpb(c), s) && Wf(c.slots) && HasRoom(c.slots)
    requires PointerOk(v, s) && EntrySafe(ERASED_ENTRY, v, s)
    requires Used(c.slots) == CPB_NSLOTS ==>
      Committed(m, m', PartNamed(s, CPB0), PartNamed(s, CPB1), EncCpb(c), EncCpb(c.(slots := Added(c.slots, v))),
        CpbCheck(s), ok)
    requires Used(c.slots) < CPB_NSLOTS ==>
      Changed(m, m', PartNamed(s, CPB0), PartNamed(s, CPB1), EncCpb(c), EncCpb(WithEntry(c, Used(c.slots), v)),
        CpbCheck(s), ok)
    ensures OrdersLeft(m', s, {Prio(c.slots), Front(v) + Prio(c.slots)})
  {
    hide CpbGood, EncCpb, Prio, PartNamed, EntrySafe, PointerOk, Changed, Committed, OrdersLeft, Wf, Compacted, Live;
    AddedOrder(c.slots, v);
    EntryCanChange(v);
    if Used(c.slots) < CPB_NSLOTS {
      ChangedOrders(m, m', s, c, Used(c.slots), v, ok);
    } else {
      AddedIsGoodIff(c, v, s);
      CommittedOrders(m, m', s, c, c.(slots := Added(c.slots, v)), ok);
    }
  }

  // A library that is ready has one boot order.
  lemma ReadyOrder(db: Database)
    requires Ready(db)
    ensures OrdersLeft(db.flash.mem, db.spt, {Order(db)})
  {
    hide PartsOk, Layout, CpbGood, EncCpb, IndexNamed, Prio, SptGood, EncSpt, Wf;
    TablesAt(db.spt, CPB0, CPB1, db.spt0Address, db.spt1Address, |db.flash.mem|);
    CpbRoundTrip(db.cpb);
  }

  lemma MoreOrders(m: Mem, s: Spt, orders: set<seq<u64>>, more: set<seq<u64>>)
    requires s.partitions <= MAX_PARTITIONS
    ensures OrdersLeft(m, s, orders) ==> OrdersLeft(m, s, orders + more)
  {
    hide CpbGood, OrderOf, PartNamed;
  }

  // A change within one slot leaves the orders.
  lemma SlotChangeKeepsOrders(db: Database, m: Mem, x: nat, orders: set<seq<u64>>)
    requires db.ValidSpt() && x < db.spt.partitions && IsSlot(db.spt.part[x])
    requires SameOutside(m, db.flash.mem, db.spt.part[x].offset, db.spt.part[x].length)
    ensures OrdersLeft(m, db.spt, orders) ==> OrdersLeft(db.flash.mem, db.spt, orders)
  {
    hide PartsOk, Layout, IsSlot, CpbGood, OrderOf, IndexNamed;
    SlotChangeKeepsTables(db, m, x);
  }

  // ---- a slot's bytes and the boot order ----

  // The bytes of a partition are what they were.
  ghost predicate SamePart(m: Mem, m': Mem, p: Part) {
    |m'| == |m| && forall i :: 0 <= i < |m| && Inside(p, i) ==> m'[i] == m[i]
  }

  /** Wherever an operation stops: a slot's bytes are touched only once no boot order in flash has the slot. */
  ghost predicate OutFirst(m: Mem, m': Mem, s: Spt, p: Part, order: seq<u64>)
    requires s.partitions <= MAX_PARTITIONS
  {
    SamePart(m, m', p) || OrdersLeft(m', s, {Without(order, p.offset)})
  }

  lemma SlotUntouched(s: Spt, x: nat, m: Mem, m': Mem, spt0: u64, spt1: u64)
    requires s.partitions <= MAX_PARTITIONS && PartsOk(Parts(s)) && Layout(Parts(s), spt0, spt1, |m|)
    requires x < s.partitions && IsSlot(s.part[x])
    requires OnlyIn(m, m', PartNamed(s, CPB0), PartNamed(s, CPB1))
      || OnlyIn(m, m', PartNamed(s, SPT0), PartNamed(s, SPT1))
    ensures SamePart(m, m', s.part[x])
  {
    hide PartsOk, Layout, IsSlot, PartNamed;
    SlotApart(s, x, CPB0, spt0, spt1, |m|);
    SlotApart(s, x, CPB1, spt0, spt1, |m|);
    SlotApart(s, x, SPT0, spt0, spt1, |m|);
    SlotApart(s, x, SPT1, spt0, spt1, |m|);
  }

  lemma OutFirstSelf(m: Mem, s: Spt, p: Part, order: seq<u64>)
    ensures s.partitions <= MAX_PARTITIONS ==> OutFirst(m, m, s, p, order)
  {
  }

  lemma SamePartTrans(m: Mem, m1: Mem, m2: Mem, p: Part)
    requires SamePart(m, m1, p) && SamePart(m1, m2, p)
    ensures SamePart(m, m2, p)
  {
  }

  // Rewriting the SPT leaves them too.
  lemma SptChangeKeepsOrders(s: Spt, m: Mem, m': Mem, spt0: u64, spt1: u64, orders: set<seq<u64>>)
    requires s.partitions <= MAX_PARTITIONS && PartsOk(Parts(s)) && Layout(Parts(s), spt0, spt1, |m|)
    requires OnlyIn(m, m', PartNamed(s, SPT0), PartNamed(s, SPT1))
    ensures OrdersLeft(m, s, orders) ==> OrdersLeft(m', s, orders)
  {
    hide PartsOk, Layout, CpbGood, OrderOf, PartNamed;
    SptChangeKeepsCpb(s, m, m', spt0, spt1);
  }

  lemma StaysOut(s: Spt, x: nat, m: Mem, m1: Mem, m2: Mem, spt0: u64, spt1: u64, order: seq<u64>)
    requires s.partitions <= MAX_PARTITIONS && PartsOk(Parts(s)) && Layout(Parts(s), spt0, spt1, |m1|)
    requires x < s.partitions && IsSlot(s.part[x])
    requires OutFirst(m, m1, s, s.part[x], order) && OnlyIn(m1, m2, PartNamed(s, SPT0), PartNamed(s, SPT1))
    ensures OutFirst(m, m2, s, s.part[x], order)
  {
    hide PartsOk, Layout, IsSlot, PartNamed, OnlyIn, OrdersLeft, SamePart;
    SlotUntouched(s, x, m1, m2, spt0, spt1);
    SptChangeKeepsOrders(s, m1, m2, spt0, spt1, {Without(order, s.part[x].offset)});
    if SamePart(m, m1, s.part[x]) {
      SamePartTrans(m, m1, m2, s.part[x]);
    }
  }

  class Rsu {
    const db: Database
    const writeProtect: u32

    constructor (db: Database, writeProtect: u32)
      ensures this.db == db && this.writeProtect == writeProtect
    {
      this.db, this.writeProtect := db, writeProtect;
    }

    predicate Protected(slot: int) {
      Protection.Protected(writeProtect, slot)
    }

    // the partition numbers behind the slot numbers
    function SlotTable(): seq<nat>
      reads db`spt
    {
      if db.spt.partitions <= MAX_PARTITIONS then SlotParts(db.spt.part, db.spt.partitions) else []
    }

    predicate IsSlotNumber(slot: int)
      reads db`spt
    {
      0 <= slot < |SlotTable()| && SlotTable()[slot] < MAX_PARTITIONS
    }

    // the partition behind a slot number
    function SlotPart(slot: int): Part
      reads db`spt
    {
      if IsSlotNumber(slot) then db.spt.part[SlotTable()[slot]] else db.spt.part[0]
    }

    method SlotToPart(slot: int) returns (x: int)
      requires db.spt.partitions <= MAX_PARTITIONS
      ensures x < 0 <==> !IsSlotNumber(slot)
      ensures x >= 0 ==> x == SlotTable()[slot] && x < db.spt.partitions && IsSlot(db.spt.part[x])
      ensures x >= 0 ==> SlotPart(slot) == db.spt.part[x]
    {
      SlotNumbersBijective(db.spt.part, db.spt.partitions);
      ghost var ps := db.spt.part;
      var cnt := 0;
      for i := 0 to db.spt.partitions
        invariant cnt == |SlotParts(ps, i)| && !(0 <= slot < cnt)
      {
        if IsSlot(db.spt.part[i]) {
          if slot == cnt {
            Stable(ps, i + 1, db.spt.partitions, slot);
            return i;
          }
          cnt := cnt + 1;
        }
      }
      return -1;
    }

    method SlotCount() returns (count: int)
      requires db.spt.partitions <= MAX_PARTITIONS
      ensures count == if db.sptCorrupted then -1 else |Slots(Parts(db.spt))|
    {
      if db.sptCorrupted {
        return -1;
      }
      count := 0;
      for x := 0 to db.spt.partitions
        invariant count == |SlotParts(db.spt.part, x)|
      {
        if IsSlot(db.spt.part[x]) {
          count := count + 1;
        }
      }
      SlotOfPart(db.spt.part, db.spt.partitions);
    }

    /** The number of the slot with a name: the first whose name matches. */
    method SlotByName(name: seq<byte>) returns (slot: int)
      requires db.spt.partitions <= MAX_PARTITIONS
      ensures slot < 0 <==> db.sptCorrupted || forall p :: p in Slots(Parts(db.spt)) ==> CStr(p.name) != CStr(name)
      ensures slot >= 0 ==> slot < |Slots(Parts(db.spt))| && CStr(Slots(Parts(db.spt))[slot].name) == CStr(name)
    {
      hide CStr, IsSlot;
      if db.sptCorrupted {
        return -1;
      }
      ghost var ps := db.spt.part;
      var cnt := 0;
      for x := 0 to db.spt.partitions
        invariant cnt == |Slots(ps[..x])|
        invariant forall p :: p in Slots(ps[..x]) ==> CStr(p.name) != CStr(name)
      {
        SlotsNext(ps, x, db.spt.partitions);
        if IsSlot(db.spt.part[x]) {
          if CStr(db.spt.part[x].name) == CStr(name) {
            assert Slots(Parts(db.spt))[cnt] == ps[x];
            return cnt;
          }
          cnt := cnt + 1;
        }
      }
      return -1;
    }

    // ---- boot order ----

    // priority.remove on a slot's partition
    method Remove(x: nat) returns (ok: bool)
      requires Ready(db) && x < db.spt.partitions && IsSlot(db.spt.part[x])
      modifies db`cpb, db`cpbCorrupted, db`cpb0Part, db`cpb1Part, db.flash
      ensures db.ValidSpt() && db.flash.faults >= old(db.flash.faults) && |db.flash.mem| == old(|db.flash.mem|)
      ensures OnlyIn(old(db.flash.mem), db.flash.mem, db.Cpb0(), db.Cpb1())
      ensures ok ==> Ready(db) && Absent(db.cpb.slots, db.spt.part[x].offset)
      ensures ok ==> Reached(old(BootState(db)), [Op.Remove(db.spt.part[x].offset)], BootState(db))
      ensures ok ==> Order(db) == Without(old(Order(db)), db.spt.part[x].offset)
      ensures EntrySafe(db.spt.part[x].offset, SPENT_ENTRY, db.spt) ==>
        OrdersLeft(db.flash.mem, db.spt, {old(Order(db)), Without(old(Order(db)), db.spt.part[x].offset)})
      ensures db.flash.faults == old(db.flash.faults) ==> ok
    {
      hide PartsOk, Layout, OnlyIn, CpbGood, EncCpb, SptGood, EncSpt, PointerOk, IndexNamed, Without, Changed,
        OrdersLeft, PartNamed, EntrySafe, Prio, IndexOf, ApiState, Reached, Removed, Listed;
      ghost var m, c, v := db.flash.mem, db.cpb, db.spt.part[x].offset;
      ReadyIsApiState(db);
      RemovedStep(BootState(db), db.spt, x);
      ok := db.PriorityRemove(x);
      CpbChangeKeepsSpt(db, m);
      RemoveIsWithout(c.slots, v);
      AnyRemoveKeepsWf(c.slots, v);
      if EntrySafe(v, SPENT_ENTRY, db.spt) {
        RemovedOrders(m, db.flash.mem, db.spt, c, v, ok);
      }
    }

    // priority.add on a slot's partition that is not in the table
    method Add(x: nat) returns (ok: bool)
      requires Ready(db) && x < db.spt.partitions && IsSlot(db.spt.part[x])
      requires Absent(db.cpb.slots, db.spt.part[x].offset)
      modifies db`cpb, db`cpbCorrupted, db`cpb0Part, db`cpb1Part, db.flash
      ensures db.ValidSpt() && db.flash.faults >= old(db.flash.faults) && |db.flash.mem| == old(|db.flash.mem|)
      ensures OnlyIn(old(db.flash.mem), db.flash.mem, db.Cpb0(), db.Cpb1())
      ensures ok ==> Ready(db) && Order(db) == Front(db.spt.part[x].offset) + old(Order(db))
      ensures ok ==> Reached(old(BootState(db)), [Op.Add(db.spt.part[x].offset)], BootState(db))
      ensures PointerOk(db.spt.part[x].offset, db.spt) && EntrySafe(ERASED_ENTRY, db.spt.part[x].offset, db.spt) ==>
        OrdersLeft(db.flash.mem, db.spt, {old(Order(db)), Front(db.spt.part[x].offset) + old(Order(db))})
      ensures ok ==> PointerOk(db.spt.part[x].offset, db.spt)
      ensures db.flash.faults == old(db.flash.faults) ==>
        if PointerOk(db.spt.part[x].offset, db.spt) then ok else db.cpbCorrupted
    {
      hide PartsOk, Layout, OnlyIn, CpbGood, EncCpb, SptGood, EncSpt, PointerOk, IndexNamed, Committed, Changed,
        OrdersLeft, PartNamed, EntrySafe, Prio, BothAre, Wf, ApiState, Reached, Listed;
      ghost var m, c, v := db.flash.mem, db.cpb, db.spt.part[x].offset;
      ReadyIsApiState(db);
      AddedStep(BootState(db), db.spt, x);
      ok := db.PriorityAdd(x);
      CpbChangeKeepsSpt(db, m);
      AddedOrder(c.slots, v);
      if PointerOk(v, db.spt) && EntrySafe(ERASED_ENTRY, v, db.spt) {
        AddedOrders(m, db.flash.mem, db.spt, c, v, ok);
      }
    }

    /** The boot position of a slot: 1 is tried first, 0 is not in the order. */
    method SlotPriority(slot: int) returns (priority: int)
      requires !db.sptCorrupted && !db.cpbCorrupted ==> Ready(db)
      ensures priority < 0 <==> db.sptCorrupted || db.cpbCorrupted || !IsSlotNumber(slot)
      ensures priority >= 0 ==> var v := SlotPart(slot).offset;
        priority == if v in Order(db) then IndexOf(Order(db), v) + 1 else 0
    {
      if db.sptCorrupted || db.cpbCorrupted {
        return -1;
      }
      hide PartsOk, Layout, CpbGood, SptGood, PointerOk, IndexOf, Prio, IsSlotNumber, SlotPart;
      var x := SlotToPart(slot);
      if x < 0 {
        return -1;
      }
      priority := db.PriorityGet(x);
    }

    // the boot orders that taking a slot out can leave, and that moving it to the front can
    ghost function DisableOrders(slot: int): set<seq<u64>>
      reads db
    {
      {Order(db), Without(Order(db), SlotPart(slot).offset)}
    }

    ghost function EnableOrders(slot: int): set<seq<u64>>
      reads db
    {
      DisableOrders(slot) + {Front(SlotPart(slot).offset) + Without(Order(db), SlotPart(slot).offset)}
    }

    // no other slot's offset lies between the entry and the values it is given
    predicate SafeToDisable(slot: int)
      reads db`spt
    {
      db.spt.partitions <= MAX_PARTITIONS && EntrySafe(SlotPart(slot).offset, SPENT_ENTRY, db.spt)
    }

    predicate SafeToAdd(slot: int)
      reads db`spt
    {
      && db.spt.partitions <= MAX_PARTITIONS && PointerOk(SlotPart(slot).offset, db.spt)
      && EntrySafe(ERASED_ENTRY, SlotPart(slot).offset, db.spt)
    }

    /** Takes a slot out of the boot order. Wherever it stops, the boot order is the old one or that without
        the slot. */
    method SlotDisable(slot: int) returns (ok: bool)
      requires !db.sptCorrupted && !db.cpbCorrupted ==> Ready(db)
      modifies db`cpb, db`cpbCorrupted, db`cpb0Part, db`cpb1Part, db.flash
      ensures db.flash.faults >= old(db.flash.faults)
      ensures ok ==> Ready(db) && IsSlotNumber(slot)
      ensures ok ==> Order(db) == Without(old(Order(db)), SlotPart(slot).offset)
      ensures ok ==> Reached(old(BootState(db)), [Op.Remove(SlotPart(slot).offset)], BootState(db))
      ensures db.flash.mem == old(db.flash.mem) || OnlyIn(old(db.flash.mem), db.flash.mem, db.Cpb0(), db.Cpb1())
      ensures old(Ready(db)) && IsSlotNumber(slot) && SafeToDisable(slot) ==>
        OrdersLeft(db.flash.mem, db.spt, old(DisableOrders(slot)))
      ensures db.flash.faults == old(db.flash.faults) && old(Ready(db)) ==> (ok <==> IsSlotNumber(slot))
    {
      hide PartsOk, Layout, OnlyIn, CpbGood, SptGood, PointerOk, Without, IsSlotNumber, SlotPart, EncCpb, EncSpt,
        IsSlot, OrdersLeft, EntrySafe, Prio, Reached, Listed;
      if db.sptCorrupted || db.cpbCorrupted {
        return false;
      }
      var x := SlotToPart(slot);
      if x < 0 {
        return false;
      }
      ok := Remove(x);
    }

    // priority.remove, then priority.add
    method MoveToFront(x: nat) returns (ok: bool)
      requires Ready(db) && x < db.spt.partitions && IsSlot(db.spt.part[x])
      modifies db`cpb, db`cpbCorrupted, db`cpb0Part, db`cpb1Part, db.flash
      ensures db.flash.faults >= old(db.flash.faults)
      ensures ok ==> Ready(db)
      ensures ok ==> Order(db) == Front(db.spt.part[x].offset) + Without(old(Order(db)), db.spt.part[x].offset)
      ensures ok ==> var v := db.spt.part[x].offset;
        Reached(old(BootState(db)), [Op.Remove(v), Op.Add(v)], BootState(db))
      ensures OnlyIn(old(db.flash.mem), db.flash.mem, db.Cpb0(), db.Cpb1())
      ensures var v := db.spt.part[x].offset;
        EntrySafe(v, SPENT_ENTRY, db.spt) && PointerOk(v, db.spt) && EntrySafe(ERASED_ENTRY, v, db.spt) ==>
          OrdersLeft(db.flash.mem, db.spt, {old(Order(db)), Without(old(Order(db)), v)}
                                           + {Front(v) + Without(old(Order(db)), v)})
      ensures ok ==> PointerOk(db.spt.part[x].offset, db.spt)
      ensures db.flash.faults == old(db.flash.faults) ==>
        if PointerOk(db.spt.part[x].offset, db.spt) then ok else db.cpbCorrupted
    {
      hide PartsOk, Layout, OnlyIn, CpbGood, SptGood, PointerOk, Without, EncCpb, EncSpt, OrdersLeft, EntrySafe, Prio,
        PartNamed, Wf, Reached, Listed;
      ghost var m, v, order, s := db.flash.mem, db.spt.part[x].offset, Order(db), BootState(db);
      ok := Remove(x);
      if !ok {
        MoreOrders(db.flash.mem, db.spt, {order, Without(order, v)}, {Front(v) + Without(order, v)});
      } else {
        ghost var m1, s1 := db.flash.mem, BootState(db);
        ok := Add(x);
        if ok {
          TwoSteps(s, Op.Remove(v), s1, Op.Add(v), BootState(db));
        }
        OnlyInTrans(m, m1, db.flash.mem, db.Cpb0(), db.Cpb1());
        MoreOrders(db.flash.mem, db.spt, {Without(order, v), Front(v) + Without(order, v)}, {order});
        assert {Without(order, v), Front(v) + Without(order, v)} + {order}
          == {order, Without(order, v)} + {Front(v) + Without(order, v)};
      }
    }

    /** Moves a slot to the front of the boot order. Wherever it stops, the boot order is the old one, that
        without the slot, or that with the slot in front. A slot with a reserved partition first at its offset
        cannot be moved there: the table written is refused, and from then on the CPB counts as corrupted. */
    method SlotEnable(slot: int) returns (ok: bool)
      requires !db.sptCorrupted && !db.cpbCorrupted ==> Ready(db)
      modifies db`cpb, db`cpbCorrupted, db`cpb0Part, db`cpb1Part, db.flash
      ensures db.flash.faults >= old(db.flash.faults)
      ensures ok ==> Ready(db) && IsSlotNumber(slot) && PointerOk(SlotPart(slot).offset, db.spt)
      ensures ok ==> Order(db) == Front(SlotPart(slot).offset) + Without(old(Order(db)), SlotPart(slot).offset)
      ensures ok ==> var v := SlotPart(slot).offset;
        Reached(old(BootState(db)), [Op.Remove(v), Op.Add(v)], BootState(db))
      ensures db.flash.mem == old(db.flash.mem) || OnlyIn(old(db.flash.mem), db.flash.mem, db.Cpb0(), db.Cpb1())
      ensures old(Ready(db)) && IsSlotNumber(slot) && SafeToDisable(slot) && SafeToAdd(slot) ==>
        OrdersLeft(db.flash.mem, db.spt, old(EnableOrders(slot)))
      ensures old(Ready(db)) && !IsSlotNumber(slot) ==> !ok
      ensures db.flash.faults == old(db.flash.faults) && old(Ready(db)) && IsSlotNumber(slot) ==>
        if PointerOk(SlotPart(slot).offset, db.spt) then ok else db.cpbCorrupted
    {
      hide PartsOk, Layout, OnlyIn, CpbGood, SptGood, PointerOk, Without, IsSlotNumber, SlotPart, EncCpb, EncSpt,
        IsSlot, OrdersLeft, EntrySafe, Prio, Reached, Listed;
      if db.sptCorrupted || db.cpbCorrupted {
        return false;
      }
      var x := SlotToPart(slot);
      if x < 0 {
        return false;
      }
      ok := MoveToFront(x);
    }

    // priority.remove, then data.erase
    method RemoveAndErase(x: nat) returns (ok: bool)
      requires Ready(db) && x < db.spt.partitions && IsSlot(db.spt.part[x])
      modifies db`cpb, db`cpbCorrupted, db`cpb0Part, db`cpb1Part, db.flash
      ensures db.ValidSpt() && db.flash.faults >= old(db.flash.faults) && |db.flash.mem| == old(|db.flash.mem|)
      ensures ok ==> Ready(db) && ErasedPart(db.flash.mem, db.spt.part[x])
      ensures ok ==> CanErase(db.spt.part[x], |db.flash.mem|)
      ensures ok ==> Absent(db.cpb.slots, db.spt.part[x].offset)
      ensures ok ==> Order(db) == Without(old(Order(db)), db.spt.part[x].offset)
      ensures ok || db.flash.faults == old(db.flash.faults) ==>
        Ready(db) && Reached(old(BootState(db)), [Op.Remove(db.spt.part[x].offset)], BootState(db))
      ensures Isolated(old(db.flash.mem), db.flash.mem, db.spt.part[x], db.Cpb0(), db.Cpb1())
      ensures EntrySafe(db.spt.part[x].offset, SPENT_ENTRY, db.spt) ==>
        OrdersLeft(db.flash.mem, db.spt, {old(Order(db)), Without(old(Order(db)), db.spt.part[x].offset)})
      ensures OutFirst(old(db.flash.mem), db.flash.mem, db.spt, db.spt.part[x], old(Order(db)))
      ensures db.flash.faults == old(db.flash.faults) && CanErase(db.spt.part[x], |db.flash.mem|) ==> ok
    {
      hide PartsOk, Layout, OnlyIn, CpbGood, SptGood, PointerOk, Without, Isolated, CanErase, ErasedPart, OrdersLeft,
        EntrySafe, Prio, EncCpb, EncSpt, Wf, PartNamed, Absent, Reached, Listed, SamePart;
      ghost var m, p := db.flash.mem, db.spt.part[x];
      IsolatedSelf(m, p, db.Cpb0(), db.Cpb1());
      ok := Remove(x);
      ghost var m1 := db.flash.mem;
      TableStep(m, m, m1, p, db.Cpb0(), db.Cpb1());
      SlotUntouched(db.spt, x, m, m1, db.spt0Address, db.spt1Address);
      if ok {
        ReadyOrder(db);
        ok := EraseSlot(x);
        SlotChangeKeepsOrders(db, m1, x, {Without(old(Order(db)), p.offset)});
        SlotStep(m, m1, db.flash.mem, p, db.Cpb0(), db.Cpb1());
        SlotChangeKeepsOrders(db, m1, x, {old(Order(db)), Without(old(Order(db)), p.offset)});
      }
    }

    /** Takes a slot out of the boot order and erases its partition. */
    method SlotErase(slot: int) returns (ok: bool)
      requires !db.sptCorrupted && !db.cpbCorrupted ==> Ready(db)
      modifies db`cpb, db`cpbCorrupted, db`cpb0Part, db`cpb1Part, db.flash
      ensures db.flash.faults >= old(db.flash.faults)
      ensures ok ==> Ready(db) && IsSlotNumber(slot) && ErasedPart(db.flash.mem, SlotPart(slot))
      ensures ok ==> CanErase(SlotPart(slot), |db.flash.mem|)
      ensures |db.flash.mem| == old(|db.flash.mem|)
      ensures ok ==> Order(db) == Without(old(Order(db)), SlotPart(slot).offset)
      ensures var calm := db.flash.faults == old(db.flash.faults) && old(Ready(db)) && IsSlotNumber(slot)
                          && !Protected(slot);
        ok || calm ==> Ready(db) && Reached(old(BootState(db)), [Op.Remove(SlotPart(slot).offset)], BootState(db))
      ensures Isolated(old(db.flash.mem), db.flash.mem, SlotPart(slot), db.Cpb0(), db.Cpb1())
      ensures old(Ready(db)) && IsSlotNumber(slot) && !Protected(slot) && SafeToDisable(slot) ==>
        OrdersLeft(db.flash.mem, db.spt, old(DisableOrders(slot)))
      ensures old(Ready(db)) ==>
        OutFirst(old(db.flash.mem), db.flash.mem, db.spt, SlotPart(slot), old(Order(db)))
      ensures !IsSlotNumber(slot) || Protected(slot) ==>
        !ok && db.flash.mem == old(db.flash.mem) && db.cpb == old(db.cpb) && db.cpbCorrupted == old(db.cpbCorrupted)
        && (old(Ready(db)) ==> Ready(db))
      ensures db.flash.faults == old(db.flash.faults) && old(Ready(db)) && IsSlotNumber(slot) && !Protected(slot) ==>
        (CanErase(SlotPart(slot), |db.flash.mem|) ==> ok)
    {
      hide PartsOk, Layout, OnlyIn, CpbGood, SptGood, PointerOk, Without, Isolated, CanErase, IsSlotNumber, SlotPart,
        ErasedPart, OrdersLeft, EntrySafe, Prio, EncCpb, EncSpt, Reached, Listed, OutFirst;
      IsolatedSelf(db.flash.mem, SlotPart(slot), db.Cpb0(), db.Cpb1());
      OutFirstSelf(db.flash.mem, db.spt, SlotPart(slot), Order(db));
      if db.sptCorrupted || db.cpbCorrupted || Protected(slot) {
        return false;
      }
      var x := SlotToPart(slot);
      if x < 0 {
        return false;
      }
      ok := RemoveAndErase(x);
    }

    // data.erase on a slot's partition
    method EraseSlot(x: nat) returns (ok: bool)
      requires Ready(db) && x < db.spt.partitions && IsSlot(db.spt.part[x])
      modifies db.flash
      ensures Ready(db) && db.flash.faults >= old(db.flash.faults)
      ensures SameOutside(old(db.flash.mem), db.flash.mem, db.spt.part[x].offset, db.spt.part[x].length)
      ensures ok ==> ErasedPart(db.flash.mem, db.spt.part[x]) && CanErase(db.spt.part[x], |db.flash.mem|)
      ensures db.flash.faults == old(db.flash.faults) && CanErase(db.spt.part[x], |db.flash.mem|) ==> ok
    {
      hide PartsOk, Layout, CpbGood, EncCpb, SptGood, EncSpt, PointerOk, IndexNamed, CStr;
      ghost var m, p := db.flash.mem, db.spt.part[x];
      ok := db.ErasePart(x);
      assert SameOutside(m, db.flash.mem, p.offset, p.length);
      SlotChangeKeepsTables(db, m, x);
    }

    // ---- editing the slots ----

    // a sealed edit of the table leaves the library ready, with the same boot order
    lemma EditedReady(m: Mem, s: Spt, e: Spt)
      requires db.ValidSpt() && db.SptSynced() && !db.sptCorrupted && !db.cpbCorrupted
      requires db.spt == Sealed(e, db.checksumEnabled) && SameTables(s, e)
      requires s.partitions <= MAX_PARTITIONS && PartsOk(Parts(s))
      requires Layout(Parts(s), db.spt0Address, db.spt1Address, |m|)
      requires e.partitions <= MAX_PARTITIONS && OnlyIn(m, db.flash.mem, PartNamed(s, SPT0), PartNamed(s, SPT1))
      requires Wf(db.cpb.slots) && CpbHeaderOk(db.cpb)
      requires forall i :: 0 <= i < CPB_NSLOTS ==> PointerOk(db.cpb.slots[i], e)
      requires var p, q := PartNamed(s, CPB0).offset as nat, PartNamed(s, CPB1).offset as nat;
        && p + TABLE <= |m| && q + TABLE <= |m| && At(m, p) == EncCpb(db.cpb) && At(m, q) == EncCpb(db.cpb)
      ensures Ready(db)
    {
      hide PartsOk, Layout, OnlyIn, SptGood, EncSpt, EncCpb, IndexNamed, SptCrc, CStr;
      SptChangeKeepsCpb(s, m, db.flash.mem, db.spt0Address, db.spt1Address);
      CpbRoundTrip(db.cpb);
      assert PartNamed(db.spt, CPB0) == PartNamed(s, CPB0) && PartNamed(db.spt, CPB1) == PartNamed(s, CPB1);
      TablesApart(db.spt, CPB0, CPB1, db.spt0Address, db.spt1Address, |db.flash.mem|);
      forall i | 0 <= i < CPB_NSLOTS ensures PointerOk(db.cpb.slots[i], db.spt) {
        SealedPointer(e, db.checksumEnabled, db.cpb.slots[i]);
      }
    }

    // An edit e of table s, accepted by the checks and written back, keeps the library ready if
    // every pointer of the boot order is still accepted.
    lemma EditReady(m: Mem, s: Spt, e: Spt, cpb: Cpb)
      requires db.ValidSpt() && db.SptSynced() && !db.sptCorrupted && !db.cpbCorrupted && db.cpb == cpb
      requires db.spt == Sealed(e, db.checksumEnabled) && SameTables(s, e)
      requires s.partitions <= MAX_PARTITIONS && PartsOk(Parts(s))
      requires Layout(Parts(s), db.spt0Address, db.spt1Address, |m|)
      requires e.partitions <= MAX_PARTITIONS && Wf(cpb.slots) && CpbGood(EncCpb(cpb), s)
      requires Committed(m, db.flash.mem, PartNamed(s, SPT0), PartNamed(s, SPT1), EncSpt(s), EncSpt(db.spt),
        SptCheck(db.checksumEnabled), true)
      requires var p, q := PartNamed(s, CPB0).offset as nat, PartNamed(s, CPB1).offset as nat;
        && p + TABLE <= |m| && q + TABLE <= |m| && At(m, p) == EncCpb(cpb) && At(m, q) == EncCpb(cpb)
      requires forall v :: v in cpb.slots && IsLive(v) && PointerOk(v, s) ==> PointerOk(v, e)
      ensures Ready(db)
    {
      hide PartsOk, Layout, OnlyIn, SptGood, EncSpt, EncCpb, CpbGood, CStr, SptCrc, Committed, PointerOk,
        IndexNamed, Wf;
      CommittedIn(m, db.flash.mem, PartNamed(s, SPT0), PartNamed(s, SPT1), EncSpt(s), EncSpt(db.spt),
        SptCheck(db.checksumEnabled), true);
      GoodPointer(cpb, s, 0);
      MarkerOk(e);
      forall i | 0 <= i < CPB_NSLOTS ensures PointerOk(cpb.slots[i], e) {
        GoodPointer(cpb, s, i);
      }
      EditedReady(m, s, e);
    }

    // a step of the slot API
    lemma EditedState(before: Boot)
      requires Ready(db) && ApiState(before) && before.slots == db.cpb.slots
      ensures Reached(before, [Op.EditTable(Listed(db.spt))], BootState(db))
    {
      hide Ready, ApiState, Reached, Listed;
      ReadyIsApiState(db);
      ReachedByEdit(before, BootState(db));
    }

    // the slots, by slot number
    function SlotList(): seq<Part>
      reads db`spt
    {
      if db.spt.partitions <= MAX_PARTITIONS then Slots(Parts(db.spt)) else []
    }

    function LastPart(): Part
      reads db`spt
    {
      if 0 < db.spt.partitions <= MAX_PARTITIONS then db.spt.part[db.spt.partitions - 1] else db.spt.part[0]
    }

    /** Creates a slot at the end of the slot list; the boot order and every other slot stay. */
    method SlotCreate(name: seq<byte>, address: u64, size: u32) returns (ok: bool)
      requires !db.sptCorrupted ==> db.ValidSpt() && db.SptSynced() && address + size < U64_MOD
      modifies db`spt, db`sptCorrupted, db.flash
      ensures db.flash.faults >= old(db.flash.faults)
      ensures ok ==> db.ValidSpt() && db.SptSynced() && SlotList() == old(SlotList()) + [LastPart()]
      ensures ok ==> CStr(LastPart().name) == CStr(name) && LastPart().offset == address && LastPart().length == size
      ensures ok && old(Ready(db)) ==> Ready(db)
      ensures ok && old(Ready(db)) ==>
        Reached(old(BootState(db)), [Op.EditTable(Listed(db.spt))], BootState(db))
      ensures ok ==> (CanBoot(LastPart(), db.spt) <==> Bootable(old(db.spt), address))
      ensures ok ==> StillAccepted(old(db.spt), db.spt)
      ensures ok && old(SlotOffsetsOk(db.spt)) ==> (SlotOffsetsOk(db.spt) <==> Bootable(old(db.spt), address))
      ensures db.flash.mem == old(db.flash.mem)
        || OnlyIn(old(db.flash.mem), db.flash.mem, old(db.Spt0()), old(db.Spt1()))
      ensures db.flash.faults == old(db.flash.faults) ==>
        (ok <==> !old(db.sptCorrupted) && !ReservedName(CStr(name)) && CanCreate(old(db.spt), name, address, size))
    {
      hide PartsOk, Layout, OnlyIn, SptGood, EncSpt, EncCpb, CpbGood, CStr, SptCrc, Committed, Slots, PointerOk,
        IndexNamed, Wf, Overlap, SlotOffsetsOk, PartNamed, At, Bootable, CanBoot, StillAccepted, Reached, Listed,
        ApiState;
      if db.sptCorrupted || ReservedName(CStr(name)) {
        return false;
      }
      ghost var m, s, b := db.flash.mem, db.spt, BootState(db);
      if Ready(db) {
        ReadyIsApiState(db);
      }
      TablesApart(s, CPB0, CPB1, db.spt0Address, db.spt1Address, |m|);
      ok := db.PartitionCreate(name, address, size);
      if CanCreate(s, name, address, size) {
        CommittedIn(m, db.flash.mem, PartNamed(s, SPT0), PartNamed(s, SPT1), EncSpt(s),
          EncSpt(Sealed(Created(s, name, address, size), db.checksumEnabled)), SptCheck(db.checksumEnabled), ok);
      }
      if ok {
        ghost var c := Created(s, name, address, size);
        CreateFacts(s, name, address, size, db.spt0Address, db.spt1Address, |m|, db.checksumEnabled);
        if old(Ready(db)) {
          EditReady(m, s, c, db.cpb);
          EditedState(b);
        }
      }
    }

    /** Renames a slot; its number, its range and the boot order stay. */
    method SlotRename(slot: int, name: seq<byte>) returns (ok: bool)
      requires !db.sptCorrupted ==> db.ValidSpt() && db.SptSynced()
      modifies db`spt, db`sptCorrupted, db.flash
      ensures db.flash.faults >= old(db.flash.faults)
      ensures ok ==> db.ValidSpt() && db.SptSynced() && 0 <= slot < |old(SlotList())|
      ensures ok ==> CStr(SlotPart(slot).name) == CStr(name) && SlotList() == old(SlotList())[slot := SlotPart(slot)]
      ensures ok ==>
        SlotPart(slot).offset == old(SlotPart(slot)).offset && SlotPart(slot).length == old(SlotPart(slot)).length
      ensures ok && old(Ready(db)) ==> Ready(db)
      ensures ok && old(Ready(db)) ==>
        Reached(old(BootState(db)), [Op.EditTable(Listed(db.spt))], BootState(db))
      ensures db.flash.mem == old(db.flash.mem)
        || OnlyIn(old(db.flash.mem), db.flash.mem, old(db.Spt0()), old(db.Spt1()))
      ensures db.flash.faults == old(db.flash.faults) ==>
        (ok <==> (!old(db.sptCorrupted) && old(IsSlotNumber(slot)) && !ReservedName(CStr(name))
          && CanRename(old(db.spt), old(SlotTable())[slot], name)))
    {
      hide PartsOk, Layout, OnlyIn, SptGood, EncSpt, EncCpb, CpbGood, CStr, SptCrc, Committed, Slots, SlotParts,
        PointerOk, IndexNamed, Wf, Overlap, CanRename, SlotOffsetsOk, PartNamed, At, Reached, Listed, ApiState;
      if db.sptCorrupted {
        return false;
      }
      var x := SlotToPart(slot);
      if x < 0 || ReservedName(CStr(name)) {
        return false;
      }
      ghost var m, s, b := db.flash.mem, db.spt, BootState(db);
      if Ready(db) {
        ReadyIsApiState(db);
      }
      TablesApart(s, CPB0, CPB1, db.spt0Address, db.spt1Address, |m|);
      ok := db.PartitionRename(x, name);
      if CanRename(s, x, name) {
        CommittedIn(m, db.flash.mem, PartNamed(s, SPT0), PartNamed(s, SPT1), EncSpt(s),
          EncSpt(Sealed(Renamed(s, x, name), db.checksumEnabled)), SptCheck(db.checksumEnabled), ok);
      }
      if ok {
        RenameFacts(s, slot, x, name, db.spt0Address, db.spt1Address, |m|, db.checksumEnabled);
        if old(Ready(db)) {
          EditReady(m, s, Renamed(s, x, name), db.cpb);
          EditedState(b);
        }
      }
    }

    /** Takes a slot out of the boot order, erases its partition and deletes it: exactly this slot
        disappears, later ones shift down by one. */
    method SlotDelete(slot: int) returns (ok: bool)
      requires !db.sptCorrupted && !db.cpbCorrupted ==> Ready(db)
      modifies db`spt, db`sptCorrupted, db`cpb, db`cpbCorrupted, db`cpb0Part, db`cpb1Part, db.flash
      ensures db.flash.faults >= old(db.flash.faults)
      ensures ok ==> old(IsSlotNumber(slot)) && 0 <= slot < |old(SlotList())|
      ensures ok ==> SlotList() == old(SlotList())[..slot] + old(SlotList())[slot + 1..]
      ensures ok ==> Order(db) == Without(old(Order(db)), old(SlotPart(slot)).offset)
      ensures ok ==> ErasedPart(db.flash.mem, old(SlotPart(slot)))
      ensures ok ==> Reached(old(BootState(db)), [Op.Remove(old(SlotPart(slot)).offset), Op.EditTable(Listed(db.spt))],
                             BootState(db))
      ensures TablesAndSlot(old(db.flash.mem), db.flash.mem, old(SlotPart(slot)), old(db.spt))
      ensures ok ==> Ready(db)
      ensures ok && old(SlotOffsetsOk(db.spt)) ==> (SlotOffsetsOk(db.spt) <==> old(LeavesUnshared(slot)))
      ensures old(Ready(db)) && old(IsSlotNumber(slot)) && !Protected(slot) && old(SafeToDisable(slot)) ==>
        OrdersLeft(db.flash.mem, old(db.spt), old(DisableOrders(slot)))
      ensures old(Ready(db)) ==>
        OutFirst(old(db.flash.mem), db.flash.mem, old(db.spt), old(SlotPart(slot)), old(Order(db)))
      ensures db.flash.faults == old(db.flash.faults) && old(Ready(db)) && old(IsSlotNumber(slot))
              && !Protected(slot) && CanErase(old(SlotPart(slot)), |old(db.flash.mem)|) ==>
        ok
    {
      hide PartsOk, Layout, OnlyIn, SptGood, EncSpt, EncCpb, CpbGood, CStr, SptCrc, Committed, Slots, SlotParts,
        PointerOk, IndexNamed, Wf, Overlap, PartNamed, At, CanErase, Without, ErasedPart, TablesAndSlot,
        Isolated, Unshared, Reached, Listed, OutFirst;
      ghost var m, s, b := db.flash.mem, db.spt, BootState(db);
      TablesAndSlotSelf(m, SlotPart(slot), s);
      OutFirstSelf(m, s, SlotPart(slot), Order(db));
      if db.sptCorrupted || db.cpbCorrupted || Protected(slot) {
        return false;
      }
      var x := SlotToPart(slot);
      if x < 0 {
        return false;
      }
      ok := RemoveAndErase(x);
      ghost var m1 := db.flash.mem;
      DeleteStep(m, m1, m1, s.part[x], s) by {
        OnlyInSelf(m1, PartNamed(s, SPT0), PartNamed(s, SPT1));
      }
      if ok {
        ghost var b1 := BootState(db);
        ok := DeletePart(slot, x);
        if ok {
          TwoSteps(b, Op.Remove(s.part[x].offset), b1, Op.EditTable(Listed(db.spt)), BootState(db));
        }
        DeleteStep(m, m1, db.flash.mem, s.part[x], s);
        StaysErased(s, x, m1, db.flash.mem, db.spt0Address, db.spt1Address);
        StaysOut(s, x, m, m1, db.flash.mem, db.spt0Address, db.spt1Address, old(Order(db)));
        SptChangeKeepsOrders(s, m1, db.flash.mem, db.spt0Address, db.spt1Address, old(DisableOrders(slot)));
      }
    }

    // the slots that keep the offset of a deleted one can still stand in the CPB
    ghost predicate LeavesUnshared(slot: int)
      reads db`spt
    {
      IsSlotNumber(slot) && SlotTable()[slot] < db.spt.partitions && Unshared(db.spt, SlotTable()[slot])
    }

    // partition.delete of a slot that no pointer refers to
    method DeletePart(slot: nat, x: nat) returns (ok: bool)
      requires Ready(db) && IsSlotNumber(slot) && x == SlotTable()[slot] && x < db.spt.partitions
      requires IsSlot(db.spt.part[x])
      requires Absent(db.cpb.slots, db.spt.part[x].offset)
      modifies db`spt, db`sptCorrupted, db.flash
      ensures db.flash.faults >= old(db.flash.faults)
      ensures slot < |old(SlotList())|
      ensures ok ==> SlotList() == old(SlotList())[..slot] + old(SlotList())[slot + 1..]
      ensures OnlyIn(old(db.flash.mem), db.flash.mem, old(db.Spt0()), old(db.Spt1()))
      ensures ok ==> Ready(db)
      ensures ok ==> Reached(old(BootState(db)), [Op.EditTable(Listed(db.spt))], BootState(db))
      ensures ok && old(SlotOffsetsOk(db.spt)) ==> (SlotOffsetsOk(db.spt) <==> Unshared(old(db.spt), x))
      ensures db.flash.faults == old(db.flash.faults) ==> ok
    {
      hide PartsOk, Layout, OnlyIn, SptGood, EncSpt, EncCpb, CpbGood, CStr, SptCrc, Committed, Slots, SlotParts,
        PointerOk, IndexNamed, Wf, Overlap, SlotOffsetsOk, PartNamed, At, Unshared, Reached, Listed, ApiState;
      ghost var m, s, b := db.flash.mem, db.spt, BootState(db);
      ReadyIsApiState(db);
      TablesApart(s, CPB0, CPB1, db.spt0Address, db.spt1Address, |m|);
      DeleteFacts(s, slot, x, db.spt0Address, db.spt1Address, |m|, db.checksumEnabled);
      ok := db.PartitionDelete(x);
      CommittedIn(m, db.flash.mem, PartNamed(s, SPT0), PartNamed(s, SPT1), EncSpt(s),
        EncSpt(Sealed(Deleted(s, x), db.checksumEnabled)), SptCheck(db.checksumEnabled), ok);
      if ok {
        EditReady(m, s, Deleted(s, x), db.cpb);
        EditedState(b);
      }
    }
  }

  lemma DeleteFacts(s: Spt, k: nat, x: nat, spt0: u64, spt1: u64, n: nat, checksumEnabled: bool)
    requires s.partitions <= MAX_PARTITIONS && PartsOk(Parts(s)) && Layout(Parts(s), spt0, spt1, n)
    requires k < |SlotParts(s.part, s.partitions)| && x == SlotParts(s.part, s.partitions)[k]
    requires x < s.partitions && IsSlot(s.part[x])
    ensures k < |Slots(Parts(s))|
    ensures var d := Deleted(s, x); var z := Sealed(d, checksumEnabled);
      && d.partitions == z.partitions == s.partitions - 1 && SameTables(s, d)
      && Slots(Parts(z)) == Slots(Parts(s))[..k] + Slots(Parts(s))[k + 1..]
      && (forall v :: PointerOk(v, s) && s.part[x].offset != v ==> PointerOk(v, d))
      && (SlotOffsetsOk(s) ==> (SlotOffsetsOk(z) <==> Unshared(s, x)))
  {
    hide CStr, PartsOk, Layout, Slots, SptCrc, SlotParts, PointerOk, SlotOffsetsOk, Unshared;
    var d := Deleted(s, x);
    SlotsAfterDelete(s, k);
    PartsAfterDelete(s, x);
    DeleteKeepsLayout(s, x, spt0, spt1, n);
    SealedParts(d, checksumEnabled);
    forall v | PointerOk(v, s) && s.part[x].offset != v ensures PointerOk(v, d) {
      DeleteKeepsPointer(s, d, v, x);
    }
    SealedOffsets(d, checksumEnabled);
    if SlotOffsetsOk(s) {
      DeletedOffsets(s, d, x);
    }
  }

  // No slot is left behind a reserved partition at the offset of partition x.
  ghost predicate Unshared(s: Spt, x: nat)
    requires x < s.partitions <= MAX_PARTITIONS
  {
    forall y :: 0 <= y < s.partitions && y != x && IsSlot(s.part[y]) && s.part[y].offset == s.part[x].offset ==>
      PointerOk(s.part[y].offset, Deleted(s, x))
  }

  lemma DeletedOffsets(s: Spt, d: Spt, x: nat)
    requires x < s.partitions <= MAX_PARTITIONS && SlotOffsetsOk(s) && d == Deleted(s, x)
    ensures SlotOffsetsOk(d) <==> Unshared(s, x)
  {
    hide PointerOk, IsSlot;
    PartsAfterDelete(s, x);
    assert forall y :: 0 <= y < x ==> d.part[y] == s.part[y];
    forall y | x <= y < d.partitions ensures d.part[y] == s.part[y + 1] {
      assert Parts(d)[y] == d.part[y];
    }
    forall y | 0 <= y < s.partitions && y != x && IsSlot(s.part[y]) && s.part[y].offset != s.part[x].offset
      ensures PointerOk(s.part[y].offset, d)
    {
      DeleteKeepsPointer(s, d, s.part[y].offset, x);
    }
    if SlotOffsetsOk(d) {
      forall y | 0 <= y < s.partitions && y != x && IsSlot(s.part[y]) ensures PointerOk(s.part[y].offset, d) {
        assert s.part[y] == d.part[if y < x then y else y - 1];
      }
    }
  }

  /** Among partitions of non-zero length a slot shares its offset with none. */
  lemma NonEmptyUnshared(s: Spt, x: nat)
    requires x < s.partitions <= MAX_PARTITIONS && PartsOk(Parts(s))
    requires forall y :: 0 <= y < s.partitions ==> s.part[y].length > 0 && s.part[y].offset + s.part[y].length < U64_MOD
    ensures Unshared(s, x)
  {
    hide CStr, Overlap, PointerOk, Deleted, IsSlot;
    forall y | 0 <= y < s.partitions && y != x ensures s.part[y].offset != s.part[x].offset {
      assert Parts(s)[y] == s.part[y] && Parts(s)[x] == s.part[x];
      if s.part[y].offset == s.part[x].offset {
        SameOffsetOverlaps(s.part[x], s.part[y]);
      }
    }
  }

  lemma RenameFacts(s: Spt, k: nat, x: nat, name: seq<byte>, spt0: u64, spt1: u64, n: nat, checksumEnabled: bool)
    requires s.partitions <= MAX_PARTITIONS && PartsOk(Parts(s)) && Layout(Parts(s), spt0, spt1, n)
    requires k < |SlotParts(s.part, s.partitions)| && x == SlotParts(s.part, s.partitions)[k]
    requires CanRename(s, x, name) && IsSlot(s.part[x]) && !ReservedName(CStr(name))
    ensures k < |Slots(Parts(s))| && k < |SlotParts(Renamed(s, x, name).part, s.partitions)|
    ensures var r := Renamed(s, x, name); var z := Sealed(r, checksumEnabled);
      && r.partitions == z.partitions == s.partitions && SameTables(s, r)
      && SlotParts(z.part, s.partitions)[k] == x
      && Slots(Parts(z)) == Slots(Parts(s))[k := z.part[x]]
      && CStr(z.part[x].name) == CStr(name) && z.part[x].offset == s.part[x].offset
      && z.part[x].length == s.part[x].length
      && (forall v :: PointerOk(v, s) ==> PointerOk(v, r))
      && (SlotOffsetsOk(s) ==> SlotOffsetsOk(z))
  {
    hide CStr, PartsOk, Layout, Slots, SptCrc, PointerOk, SlotParts, SlotOffsetsOk;
    var r := Renamed(s, x, name);
    SlotsAfterRename(s, k, x, name);
    SameSlotParts(s.part, r.part, s.partitions, x);
    RenameKeepsLayout(s, x, name, spt0, spt1, n);
    SealedParts(r, checksumEnabled);
    forall v | PointerOk(v, s) ensures PointerOk(v, r) {
      RenameKeepsPointer(s, r, v, x, r.part[x].name);
    }
    SealedOffsets(r, checksumEnabled);
    if SlotOffsetsOk(s) {
      RenamedOffsets(s, r, x);
    }
  }

  lemma RenamedOffsets(s: Spt, r: Spt, x: nat)
    requires r.partitions == s.partitions <= MAX_PARTITIONS && x < s.partitions
    requires IsSlot(s.part[x]) && r.part == s.part[x := r.part[x]] && r.part[x].offset == s.part[x].offset
    requires SlotOffsetsOk(s) && forall v :: PointerOk(v, s) ==> PointerOk(v, r)
    ensures SlotOffsetsOk(r)
  {
    hide PointerOk, IsSlot;
  }

  lemma {:induction false} SameSlotParts(ps: seq<Part>, qs: seq<Part>, n: nat, x: nat)
    requires n <= |ps| == |qs| && x < |ps| && IsSlot(ps[x]) && IsSlot(qs[x])
    requires forall i :: 0 <= i < |ps| && i != x ==> ps[i] == qs[i]
    ensures SlotParts(qs, n) == SlotParts(ps, n)
  {
    if n > 0 { SameSlotParts(ps, qs, n - 1, x); }
  }

  lemma CreateFacts(s: Spt, name: seq<byte>, address: u64, size: u32, spt0: u64, spt1: u64, n: nat,
                    checksumEnabled: bool)
    requires s.partitions <= MAX_PARTITIONS && PartsOk(Parts(s)) && Layout(Parts(s), spt0, spt1, n)
    requires CanCreate(s, name, address, size) && address + size < U64_MOD && !ReservedName(CStr(name))
    ensures var c := Created(s, name, address, size); var z := Sealed(c, checksumEnabled);
      && c.partitions == z.partitions == s.partitions + 1 && SameTables(s, c)
      && (var p := z.part[s.partitions];
        && Slots(Parts(z)) == Slots(Parts(s)) + [p]
        && CStr(p.name) == CStr(name) && p.offset == address && p.length == size)
      && (forall v :: PointerOk(v, s) ==> PointerOk(v, c)) && StillAccepted(s, z)
      && (CanBoot(z.part[s.partitions], z) <==> Bootable(s, address))
      && (SlotOffsetsOk(s) ==> (SlotOffsetsOk(z) <==> Bootable(s, address)))
  {
    hide CStr, PartsOk, Layout, Slots, SptCrc, PointerOk, SlotOffsetsOk, Bootable;
    var c := Created(s, name, address, size);
    PartsAfterCreate(s, name, address, size);
    SlotsAfterCreate(s, name, address, size);
    CreateKeepsLayout(s, name, address, size, spt0, spt1, n);
    SealedParts(c, checksumEnabled);
    forall v | PointerOk(v, s) ensures PointerOk(v, c) {
      CreateKeepsPointer(s, c, v, c.part[s.partitions]);
    }
    SealedOffsets(c, checksumEnabled);
    forall v ensures PointerOk(v, Sealed(c, checksumEnabled)) <==> PointerOk(v, c) {
      SealedPointer(c, checksumEnabled, v);
    }
    CreatedBootable(s, c, c.part[s.partitions]);
    if SlotOffsetsOk(s) {
      CreatedOffsets(s, c, c.part[s.partitions]);
    }
  }

  // A slot created at this offset can stand in the CPB: the offset is neither marker value, and no
  // reserved partition comes first at it.
  predicate Bootable(s: Spt, v: u64) {
    && s.partitions <= MAX_PARTITIONS && IsLive(v)
    && (FirstPart(Parts(s), v) == [] || !FirstPart(Parts(s), v)[0].Reserved())
  }

  // Every entry that check_cpb accepts with one table it accepts with the other.
  ghost predicate StillAccepted(s: Spt, s': Spt) {
    && s.partitions <= MAX_PARTITIONS && s'.partitions <= MAX_PARTITIONS
    && forall v: u64 :: PointerOk(v, s) ==> PointerOk(v, s')
  }

  lemma CreatedBootable(s: Spt, c: Spt, p: Part)
    requires s.partitions < c.partitions == s.partitions + 1 <= MAX_PARTITIONS && Parts(c) == Parts(s) + [p]
    requires !p.Reserved()
    ensures CanBoot(p, c) <==> Bootable(s, p.offset)
  {
    hide PointerOk, CStr;
    PointerOkByParts(c, p.offset);
    FirstPartConcat(Parts(s), [p], p.offset);
    assert FirstPart([p], p.offset) == [p];
  }

  lemma CreatedOffsets(s: Spt, c: Spt, p: Part)
    requires s.partitions < c.partitions == s.partitions + 1 <= MAX_PARTITIONS && Parts(c) == Parts(s) + [p]
    requires IsSlot(p) && SlotOffsetsOk(s)
    ensures SlotOffsetsOk(c) <==> Bootable(s, p.offset)
  {
    hide PointerOk, CStr, Bootable, FirstPart;
    CreatedBootable(s, c, p);
    assert Parts(c)[s.partitions] == c.part[s.partitions] == p;
    forall x | 0 <= x < s.partitions ensures c.part[x] == s.part[x] {
      assert Parts(c)[x] == Parts(s)[x];
    }
    forall x | 0 <= x < s.partitions && IsSlot(s.part[x]) ensures PointerOk(s.part[x].offset, c) {
      CreateKeepsPointer(s, c, s.part[x].offset, p);
    }
  }

  lemma SealedOffsets(s: Spt, checksumEnabled: bool)
    requires s.partitions <= MAX_PARTITIONS
    ensures SlotOffsetsOk(Sealed(s, checksumEnabled)) <==> SlotOffsetsOk(s)
  {
    forall x | 0 <= x < s.partitions
      ensures PointerOk(s.part[x].offset, Sealed(s, checksumEnabled)) <==> PointerOk(s.part[x].offset, s)
    {
      SealedPointer(s, checksumEnabled, s.part[x].offset);
    }
  }

  lemma GoodPointer(c: Cpb, s: Spt, i: nat)
    requires s.partitions <= MAX_PARTITIONS && CpbGood(EncCpb(c), s) && i < CPB_NSLOTS
    ensures PointerOk(c.slots[i], s) && CpbHeaderOk(c)
  {
    CpbRoundTrip(c);
  }

  lemma SameSize(m: Mem, m': Mem, p: Part, q: Part)
    requires OnlyIn(m, m', p, q)
    ensures |m'| == |m|
  {
  }

  lemma CommittedIn(m: Mem, m': Mem, p: Part, q: Part, before: Table, t: Table, good: Table -> bool, ok: bool)
    requires Committed(m, m', p, q, before, t, good, ok)
    ensures OnlyIn(m, m', p, q) && Holds(m, p, q)
  {
  }

  lemma SealedPointer(s: Spt, checksumEnabled: bool, v: u64)
    requires s.partitions <= MAX_PARTITIONS
    ensures PointerOk(v, Sealed(s, checksumEnabled)) <==> PointerOk(v, s)
  {
    PointerOkByParts(s, v);
    PointerOkByParts(Sealed(s, checksumEnabled), v);
    assert Parts(Sealed(s, checksumEnabled)) == Parts(s);
  }

  ghost predicate ErasedPart(m: Mem, p: Part) {
    p.offset + p.length <= |m| && forall i :: p.offset <= i < p.offset + p.length ==> m[i] == 0xFF
  }

  lemma TablesAndSlotSelf(m: Mem, slot: Part, s: Spt)
    ensures TablesAndSlot(m, m, slot, s)
  {
  }

  lemma IsolatedSelf(m: Mem, slot: Part, p: Part, q: Part)
    ensures Isolated(m, m, slot, p, q)
  {
  }

  // A slot number found among the first n partitions stays valid for more.
  lemma {:induction false} Stable(ps: seq<Part>, n: nat, m: nat, k: nat)
    requires n <= m <= |ps| && k < |SlotParts(ps, n)|
    ensures k < |SlotParts(ps, m)| && SlotParts(ps, m)[k] == SlotParts(ps, n)[k]
    decreases m
  {
    if n < m { Stable(ps, n, m - 1, k); }
  }

  lemma SlotsNext(ps: seq<Part>, x: nat, n: nat)
    requires x < n <= |ps|
    ensures Slots(ps[..x + 1]) == Slots(ps[..x]) + if IsSlot(ps[x]) then [ps[x]] else []
    ensures IsSlot(ps[x]) ==> |Slots(ps[..x])| < |Slots(ps[..n])| && Slots(ps[..n])[|Slots(ps[..x])|] == ps[x]
  {
    assert ps[..x + 1] == ps[..x] + [ps[x]];
    SlotsConcat(ps[..x], [ps[x]]);
    assert [ps[x]][1..] == [];
    assert ps[..n] == ps[..x + 1] + ps[x + 1..n];
    SlotsConcat(ps[..x + 1], ps[x + 1..n]);
  }
}
