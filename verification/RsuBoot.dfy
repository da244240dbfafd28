/** Opening the library on whatever is in flash (rsu_qspi_open), and what the next load makes of a
    rewrite or an update that was stopped. */
module RsuBoot {
  import opened Bits
  import opened FlashDev
  import opened DualCopy
  import opened Tables
  import opened CpbUpdate
  import opened Priority
  import opened SptOps
  import opened RsuOps
  import opened RsuSlots

  /** The next load after a rewrite of both copies was stopped anywhere: either it ends with the old
      or the new table in RAM and in both copies, or it reports corruption and changes nothing, and
      that exactly when one copy is the old and the other the new table. The load may know the copies
      by other, smaller regions at the same places, as load_spt does. */
  lemma LoadAfterStop(m: Mem, m1: Mem, m2: Mem, p: Part, q: Part, r0: Part, r1: Part, before: Table, t: Table,
                      good: Table -> bool, ram: Table, ok: bool)
    requires Holds(m, p, q) && At(m, p.offset) == before && At(m, q.offset) == before
    requires r0.offset == p.offset && r0.length <= p.length && r1.offset == q.offset && r1.length <= q.length
    requires WroteBoth(m, m1, p, q, t, false) && LoadSpec(m1, m2, r0, r1, good, ram, ok, true)
    requires RequiresMagic(good, Magic(t)) && good(before) && good(t)
    ensures Holds(m1, p, q) && Holds(m2, p, q) && OnlyIn(m, m2, p, q)
    ensures ok ==> ram in {before, t} && At(m2, p.offset) == ram && At(m2, q.offset) == ram
    ensures !ok <==> before != t && {At(m1, p.offset), At(m1, q.offset)} == {before, t}
    ensures !ok ==> m2 == m1
  {
    var c0, c1 := At(m1, p.offset), At(m1, q.offset);
    StoppedRewriteIsSafe(before, t, c0, c1, good);
    LoadFacts(m1, m2, r0, r1, good, ram, ok, true);
    WiderOnlyIn(m1, m2, r0, r1, p, q);
  }

  lemma WiderOnlyIn(m: Mem, m': Mem, r0: Part, r1: Part, p: Part, q: Part)
    requires OnlyIn(m, m', r0, r1)
    requires r0.offset == p.offset && r0.length <= p.length && r1.offset == q.offset && r1.length <= q.length
    ensures OnlyIn(m, m', p, q)
  {
    forall i | 0 <= i < |m| && !Inside(p, i) && !Inside(q, i) ensures m'[i] == m[i] {
      assert !Inside(r0, i) && !Inside(r1, i);
    }
  }

  // What load_spt is assumed to find in a copy, of any table without the magic.
  lemma NoMagicAssumed(t: Table, checksumEnabled: bool, spt0: u64, spt1: u64, size: nat)
    requires Magic(t) != SPT_MAGIC
    ensures SptAssumption(t, checksumEnabled, spt0, spt1, size)
  {
    hide SptOk, Layout;
    MagicIsFirst(t);
  }

  /** load_spt after writeback_spt was stopped anywhere, with e the edited table and `before` the old one in
      flash: what load_spt is assumed to find is there, and it settles on the old or the new table or
      reports that one copy is the old and the other the new one. */
  lemma SptAfterStop(m: Mem, m1: Mem, m2: Mem, e: Spt, before: Table, checksumEnabled: bool, spt0: u64, spt1: u64,
                     ram: Table, ok: bool)
    requires e.partitions <= MAX_PARTITIONS && PartsOk(Parts(e)) && e.magic == SPT_MAGIC
    requires Layout(Parts(e), spt0, spt1, |m|)
    requires SptPlaces(spt0, spt1, |m|) && At(m, spt0) == before && At(m, spt1) == before
    requires SptGood(before, checksumEnabled) && SptAssumption(before, checksumEnabled, spt0, spt1, |m|)
    requires WroteBoth(m, m1, PartNamed(e, SPT0), PartNamed(e, SPT1), EncSpt(Sealed(e, checksumEnabled)), false)
    ensures |m1| == |m|
    ensures SptAssumption(At(m1, spt0), checksumEnabled, spt0, spt1, |m|)
    ensures SptAssumption(At(m1, spt1), checksumEnabled, spt0, spt1, |m|)
    ensures LoadSpec(m1, m2, SptRegion(spt0), SptRegion(spt1), SptCheck(checksumEnabled), ram, ok, true) ==>
      var t := EncSpt(Sealed(e, checksumEnabled));
      && (ok ==> ram in {before, t} && BothAre(m2, PartNamed(e, SPT0), PartNamed(e, SPT1), ram))
      && (!ok <==> before != t && {At(m1, spt0), At(m1, spt1)} == {before, t})
      && (!ok ==> m2 == m1)
  {
    hide PartsOk, Layout, EncSpt, SptGood, SptAssumption, LoadSpec, PartNamed, SptCrc, OnlyIn, Apart;
    var p, q, t := PartNamed(e, SPT0), PartNamed(e, SPT1), EncSpt(Sealed(e, checksumEnabled));
    SealedIsGood(e, checksumEnabled, spt0, spt1, |m|);
    SptAddresses(e, spt0, spt1, |m|);
    TablesApart(e, SPT0, SPT1, spt0, spt1, |m|);
    SameSize(m, m1, p, q);
    if At(m1, spt0) !in {before, t} {
      NoMagicAssumed(At(m1, spt0), checksumEnabled, spt0, spt1, |m|);
    }
    if At(m1, spt1) !in {before, t} {
      NoMagicAssumed(At(m1, spt1), checksumEnabled, spt0, spt1, |m|);
    }
    if LoadSpec(m1, m2, SptRegion(spt0), SptRegion(spt1), SptCheck(checksumEnabled), ram, ok, true) {
      LoadAfterStop(m, m1, m2, p, q, SptRegion(spt0), SptRegion(spt1), before, t, SptCheck(checksumEnabled), ram, ok);
    }
  }

  // what a run of loads keeps
  ghost predicate SptLoadable(m: Mem, checksumEnabled: bool, spt0: u64, spt1: u64) {
    && SptPlaces(spt0, spt1, |m|)
    && SptAssumption(At(m, spt0), checksumEnabled, spt0, spt1, |m|)
    && SptAssumption(At(m, spt1), checksumEnabled, spt0, spt1, |m|)
  }

  ghost function SptFound(m: Mem, checksumEnabled: bool, spt0: u64, spt1: u64): Outcome {
    Loads(m, SptRegion(spt0), SptRegion(spt1), SptCheck(checksumEnabled))
  }

  lemma GoodHasMagic(t: Table, checksumEnabled: bool)
    ensures SptGood(t, checksumEnabled) ==> Magic(t) == SPT_MAGIC
    ensures RequiresMagic(SptCheck(checksumEnabled), SPT_MAGIC)
  {
    hide SptOk;
    MagicIsFirst(t);
    forall u: Table | SptGood(u, checksumEnabled) ensures Magic(u) == SPT_MAGIC {
      MagicIsFirst(u);
    }
  }

  lemma SptLoadStep(m: Mem, m': Mem, checksumEnabled: bool, spt0: u64, spt1: u64)
    requires SptLoadable(m, checksumEnabled, spt0, spt1) && SptLoaded(m, m', checksumEnabled, spt0, spt1)
    ensures SptLoadable(m', checksumEnabled, spt0, spt1)
    ensures SptFound(m', checksumEnabled, spt0, spt1) == SptFound(m, checksumEnabled, spt0, spt1)
  {
    hide SptGood, SptAssumption, OnlyIn;
    var p, q, good := SptRegion(spt0), SptRegion(spt1), SptCheck(checksumEnabled);
    var ram: Table, ok: bool :| LoadSpec(m, m', p, q, good, ram, ok, false);
    SameSize(m, m', p, q);
    if m' != m {
      var c0, c1, d0, d1 := At(m, spt0), At(m, spt1), At(m', spt0), At(m', spt1);
      GoodHasMagic(c0, checksumEnabled);
      GoodHasMagic(c1, checksumEnabled);
      LoadStepKeepsOutcome(c0, c1, d0, d1, good, SPT_MAGIC);
      if d0 !in {c0, c1} {
        NoMagicAssumed(d0, checksumEnabled, spt0, spt1, |m|);
      }
      if d1 !in {c0, c1} {
        NoMagicAssumed(d1, checksumEnabled, spt0, spt1, |m|);
      }
    }
  }

  /** However many calls of load_spt are stopped, in a repair or anywhere else: what load_spt is assumed to find
      is there again, and what it settles on, or that the copies differ, is what it was at first. */
  lemma {:induction false} SptAfterRepairs(run: seq<Mem>, checksumEnabled: bool, spt0: u64, spt1: u64)
    requires |run| > 0 && SptLoadable(run[0], checksumEnabled, spt0, spt1)
    requires forall i :: 0 <= i < |run| - 1 ==> SptLoaded(run[i], run[i + 1], checksumEnabled, spt0, spt1)
    ensures SptLoadable(run[|run| - 1], checksumEnabled, spt0, spt1)
    ensures SptFound(run[|run| - 1], checksumEnabled, spt0, spt1) == SptFound(run[0], checksumEnabled, spt0, spt1)
  {
    hide SptLoadable, SptLoaded, SptFound;
    if |run| > 1 {
      var n := |run| - 1;
      SptAfterRepairs(run[..n], checksumEnabled, spt0, spt1);
      SptLoadStep(run[n - 1], run[n], checksumEnabled, spt0, spt1);
    }
  }

  /** The same after an entry's update in place was stopped: old or new in RAM and in both copies, or
      corruption is reported and nothing changed. If no other slot's offset lies between the old entry
      and the new one, that happens exactly when one copy is the old table and the other the new one. */
  lemma LoadAfterStoppedUpdate(m: Mem, m1: Mem, m2: Mem, p: Part, q: Part, c: Cpb, slot: nat, v: u64, s: Spt,
                               ram: Table, ok: bool)
    requires s.partitions <= MAX_PARTITIONS && CpbGood(EncCpb(c), s) && slot < CPB_NSLOTS
    requires And(c.slots[slot], v) == v && PointerOk(v, s)
    requires UpdatedBoth(m, m1, p, q, EncCpb(c), EncCpb(WithEntry(c, slot, v)), false)
    requires LoadSpec(m1, m2, p, q, CpbCheck(s), ram, ok, true)
    ensures var before, t := EncCpb(c), EncCpb(WithEntry(c, slot, v));
      && (ok ==> ram in {before, t} && Holds(m2, p, q) && At(m2, p.offset) == ram && At(m2, q.offset) == ram)
      && (!ok ==> m2 == m1)
      && (EntrySafe(c.slots[slot], v, s) ==>
            (!ok <==> Holds(m1, p, q) && before != t && {At(m1, p.offset), At(m1, q.offset)} == {before, t}))
  {
    hide EncCpb, TornTable, CpbGood, PointerOk, OnlyClears, Between, EntrySafe;
    var before, t := EncCpb(c), EncCpb(WithEntry(c, slot, v));
    EntryUpdateOnlyClears(c, slot, v);
    EntryDecidesCheck(c, slot, v, s);
    StoppedUpdateIsSafe(before, t, At(m1, p.offset), At(m1, q.offset), CpbCheck(s));
    if EntrySafe(c.slots[slot], v, s) {
      UpdateSafeIff(c, slot, v, s);
      TornSafeOutcome(before, t, At(m1, p.offset), At(m1, q.offset), CpbCheck(s));
    }
  }

  // What a load leaves, for a database that has been opened.
  lemma OpenedCpb(db: Database, m: Mem, calm: bool)
    requires db.ValidSpt()
    requires LoadSpec(m, db.flash.mem, db.Cpb0(), db.Cpb1(), CpbCheck(db.spt), EncCpb(db.cpb), true, calm)
    ensures OnlyIn(m, db.flash.mem, db.Cpb0(), db.Cpb1()) && CpbGood(EncCpb(db.cpb), db.spt)
    ensures db.CpbSynced()
  {
    hide PartsOk, Layout, OnlyIn, CpbGood, EncCpb, IndexNamed, LoadSpec;
    LoadFacts(m, db.flash.mem, db.Cpb0(), db.Cpb1(), CpbCheck(db.spt), EncCpb(db.cpb), true, calm);
    TablesAt(db.spt, CPB0, CPB1, db.spt0Address, db.spt1Address, |db.flash.mem|);
  }

  // what a load of the CPB settles on, for the partition table in RAM
  ghost function CpbFound(m: Mem, db: Database): Outcome
    reads db`spt
    requires db.spt.partitions <= MAX_PARTITIONS
  {
    Loads(m, db.Cpb0(), db.Cpb1(), CpbCheck(db.spt))
  }

  lemma LoadSettles(m: Mem, m': Mem, p: Part, q: Part, good: Table -> bool, ram: Table, ok: bool, calm: bool)
    requires LoadSpec(m, m', p, q, good, ram, ok, calm)
    ensures calm ==> (ok <==> Loads(m, p, q, good).Use?)
    ensures ok && Loads(m, p, q, good).Use? ==> ram == Loads(m, p, q, good).table
  {
  }

  // Repairing an SPT leaves the copies of the CPB.
  lemma SptRepairKeepsCpb(s: Spt, m: Mem, m': Mem, spt0: u64, spt1: u64)
    requires s.partitions <= MAX_PARTITIONS && PartsOk(Parts(s)) && Layout(Parts(s), spt0, spt1, |m|)
    requires OnlyIn(m, m', SptRegion(spt0), SptRegion(spt1))
    ensures var p, q := PartNamed(s, CPB0), PartNamed(s, CPB1);
      Loads(m', p, q, CpbCheck(s)) == Loads(m, p, q, CpbCheck(s))
  {
    hide PartsOk, Layout, PartNamed, OnlyIn, CpbCheck;
    var p, q := PartNamed(s, CPB0), PartNamed(s, CPB1);
    TablesApart(s, CPB0, SPT0, spt0, spt1, |m|);
    TablesApart(s, CPB0, SPT1, spt0, spt1, |m|);
    TablesApart(s, CPB1, SPT0, spt0, spt1, |m|);
    TablesApart(s, CPB1, SPT1, spt0, spt1, |m|);
    SptAddresses(s, spt0, spt1, |m|);
    UntouchedCopy(m, m', SptRegion(spt0), SptRegion(spt1), p);
    UntouchedCopy(m, m', SptRegion(spt0), SptRegion(spt1), q);
    SameSize(m, m', SptRegion(spt0), SptRegion(spt1));
  }

  // the CPB half: the SPT copies stay what they are
  method OpenCpb(db: Database) returns (ok: bool)
    requires db.ValidSpt() && db.SptSynced() && !db.cpbCorrupted
    modifies db`cpb, db`cpbCorrupted, db`cpb0Part, db`cpb1Part, db.flash
    ensures db.flash.faults >= old(db.flash.faults) && (db.flash.faults == old(db.flash.faults) ==> ok)
    ensures db.ValidSpt() && db.SptSynced() && OnlyIn(old(db.flash.mem), db.flash.mem, db.Cpb0(), db.Cpb1())
    ensures |db.flash.mem| == old(|db.flash.mem|)
    ensures ok && !db.cpbCorrupted ==> db.CpbSynced()
    ensures db.flash.faults == old(db.flash.faults) ==> (db.cpbCorrupted <==> !CpbFound(old(db.flash.mem), db).Use?)
    ensures ok && !db.cpbCorrupted && CpbFound(old(db.flash.mem), db).Use? ==>
      EncCpb(db.cpb) == CpbFound(old(db.flash.mem), db).table
  {
    hide PartsOk, Layout, OnlyIn, CpbGood, SptGood, EncCpb, EncSpt, IndexNamed, LoadSpec, PartNamed, Loads;
    ghost var m := db.flash.mem;
    var loaded := db.LoadCpb();
    LoadFacts(m, db.flash.mem, db.Cpb0(), db.Cpb1(), CpbCheck(db.spt), EncCpb(db.cpb), loaded,
      db.flash.faults == old(db.flash.faults));
    CpbChangeKeepsSpt(db, m);
    SameSize(m, db.flash.mem, db.Cpb0(), db.Cpb1());
    LoadSettles(m, db.flash.mem, db.Cpb0(), db.Cpb1(), CpbCheck(db.spt), EncCpb(db.cpb), loaded,
      db.flash.faults == old(db.flash.faults));
    if loaded {
      OpenedCpb(db, m, db.flash.faults == old(db.flash.faults));
    }
    ok := loaded || db.cpbCorrupted;
  }

  /** rsu_qspi_open: loads the SPT, then the CPB unless the SPT is corrupted. It fails only on a
      fault; corrupted tables are flagged, and a database that is not flagged is what the slot API
      asks for as far as the checks can tell. */
  method Open(db: Database) returns (ok: bool)
    requires SptPlaces(db.spt0Address, db.spt1Address, |db.flash.mem|) && !db.sptCorrupted && !db.cpbCorrupted
    requires SptAssumption(At(db.flash.mem, db.spt0Address), db.checksumEnabled, db.spt0Address, db.spt1Address,
      |db.flash.mem|)
    requires SptAssumption(At(db.flash.mem, db.spt1Address), db.checksumEnabled, db.spt0Address, db.spt1Address,
      |db.flash.mem|)
    modifies db`spt, db`cpb, db`sptCorrupted, db`cpbCorrupted, db`cpb0Part, db`cpb1Part, db.flash
    ensures db.flash.faults >= old(db.flash.faults) && (db.flash.faults == old(db.flash.faults) ==> ok)
    ensures |db.flash.mem| == old(|db.flash.mem|)
    ensures ok ==> if db.sptCorrupted then db.cpbCorrupted else db.ValidSpt() && db.SptSynced()
    ensures ok && !db.cpbCorrupted && Wf(db.cpb.slots) ==> Ready(db)
    ensures db.flash.faults == old(db.flash.faults) ==> (db.sptCorrupted <==>
      !Loads(old(db.flash.mem), SptRegion(db.spt0Address), SptRegion(db.spt1Address),
        SptCheck(db.checksumEnabled)).Use?)
    ensures var found :=
      Loads(old(db.flash.mem), SptRegion(db.spt0Address), SptRegion(db.spt1Address), SptCheck(db.checksumEnabled));
      ok && !db.sptCorrupted && found.Use? ==> EncSpt(db.spt) == found.table
    ensures ok && !db.sptCorrupted && db.flash.faults == old(db.flash.faults) ==>
      (db.cpbCorrupted <==> !CpbFound(old(db.flash.mem), db).Use?)
    ensures ok && !db.sptCorrupted && !db.cpbCorrupted && CpbFound(old(db.flash.mem), db).Use? ==>
      EncCpb(db.cpb) == CpbFound(old(db.flash.mem), db).table
  {
    hide PartsOk, Layout, OnlyIn, CpbGood, SptGood, EncCpb, EncSpt, IndexNamed, SptAssumption, Loads, Holds, LoadStep,
      SptCheck, Wf;
    ghost var m := db.flash.mem;
    ok := db.LoadSpt();
    LoadFacts(m, db.flash.mem, SptRegion(db.spt0Address), SptRegion(db.spt1Address), SptCheck(db.checksumEnabled),
      EncSpt(db.spt), ok, db.flash.faults == old(db.flash.faults));
    SameSize(m, db.flash.mem, SptRegion(db.spt0Address), SptRegion(db.spt1Address));
    if !ok {
      db.cpbCorrupted := db.sptCorrupted;
      return db.sptCorrupted;
    }
    SptRepairKeepsCpb(db.spt, m, db.flash.mem, db.spt0Address, db.spt1Address);
    ok := OpenCpb(db);
  }

  // an empty boot order on a database whose SPT is in order
  method EmptyOrder(db: Database) returns (ok: bool)
    requires db.ValidSpt() && db.SptSynced() && !db.sptCorrupted
    modifies db`cpb, db`cpbCorrupted, db.flash
    ensures ok ==> Ready(db) && Order(db) == [] && |db.flash.mem| == old(|db.flash.mem|)
    ensures ok ==> Used(db.cpb.slots) == 0
    ensures db.flash.faults >= old(db.flash.faults) && (db.flash.faults == old(db.flash.faults) ==> ok)
  {
    hide PartsOk, Layout, CpbGood, EncCpb, EncSpt, IndexNamed, SptGood, PartNamed, WroteBoth, OnlyIn,
      Prio;
    ghost var m := db.flash.mem;
    ok := db.EmptyCpb();
    if ok {
      WroteFacts(m, db.flash.mem, db.Cpb0(), db.Cpb1(), EncCpb(EMPTY_CPB), ok);
      CpbChangeKeepsSpt(db, m);
    }
  }
}
