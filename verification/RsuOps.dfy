/** libRSU_ops.c: the partition table and the boot-priority table in RAM, kept equal to two
    redundant copies of each in flash. */
module RsuOps {
  import opened Bits
  import opened FlashDev
  import opened DualCopy
  import opened Tables
  import opened CpbUpdate
  import opened Priority
  import opened SptOps

  const SPT_ERASE: nat := 0x8000 // what load_spt erases to repair a copy
  const MAX_FLASH: nat := 0x8000_0000

  const EMPTY_CPB: Cpb := Cpb(CPB_MAGIC, CPB_HEADER_SIZE, 4096, 0, CPB_IMAGE_PTR_OFFSET, CPB_NSLOTS,
    seq(8, _ => 0xFF), seq(CPB_NSLOTS, _ => ERASED_ENTRY))

  /** The CPB without entries, in flash: a header that names its size, 24, and the table's, 4096, and behind the
      header nothing but erased bytes. */
  lemma EmptyBytes(i: nat)
    requires 24 <= i < TABLE
    ensures CpbHeaderOk(EMPTY_CPB)
    ensures EncCpb(EMPTY_CPB)[4..16] == [24, 0, 0, 0, 0, 0x10, 0, 0, 0, 0, 0, 0] && EncCpb(EMPTY_CPB)[i] == 0xFF
  {
    hide EncCpb, LE;
    var t := EncCpb(EMPTY_CPB);
    CpbLayout(EMPTY_CPB, 0);
    EmptyWords();
    assert t[4..16] == t[4..8] + t[8..12] + t[12..16];
    if i < 32 {
      assert t[i] == t[24..32][i - 24];
    } else {
      EmptyEntry((i - 32) / 8, (i - 32) % 8);
    }
  }

  lemma EmptyEntry(k: nat, j: nat)
    requires k < CPB_NSLOTS && j < 8
    ensures EncCpb(EMPTY_CPB)[32 + 8 * k + j] == 0xFF
  {
    hide EncCpb, LE;
    CpbLayout(EMPTY_CPB, k);
    EmptyWords();
    assert EncCpb(EMPTY_CPB)[32 + 8 * k..40 + 8 * k][j] == 0xFF;
  }

  lemma EmptyWords()
    ensures LE(24, 4) == [24, 0, 0, 0] && LE(4096, 4) == [0, 0x10, 0, 0] && LE(0, 4) == [0, 0, 0, 0]
    ensures LE(ERASED_ENTRY, 8) == [0xFF, 0xFF, 0xFF, 0xFF, 0xFF, 0xFF, 0xFF, 0xFF]
  {
  }

  function IndexNamed(ps: seq<Part>, name: seq<byte>): (i: nat)
    ensures i <= |ps|
    ensures i < |ps| ==> CStr(ps[i].name) == name
    ensures forall k :: 0 <= k < i ==> CStr(ps[k].name) != name
  {
    if |ps| == 0 || CStr(ps[0].name) == name then 0 else 1 + IndexNamed(ps[1..], name)
  }

  predicate TablePart(p: Part, size: nat) {
    && p.offset % PAGE == 0 && p.length % PAGE == 0
    && p.length >= SPT_ERASE && p.offset + p.length <= size
  }

  // The board's layout: the four tables lie page-aligned in flash, the two SPT entries are at
  // the addresses the firmware reports, no partition wraps the 64-bit address space, and names
  // are terminated.
  predicate Layout(ps: seq<Part>, spt0: u64, spt1: u64, size: nat) {
    && size < MAX_FLASH
    && (forall i :: 0 <= i < |ps| ==> ps[i].offset + ps[i].length < U64_MOD && |CStr(ps[i].name)| < NAME_LENGTH)
    && (forall i :: 0 <= i < |ps| && CStr(ps[i].name) in [SPT0, SPT1, CPB0, CPB1] ==> TablePart(ps[i], size))
    && (forall i :: 0 <= i < |ps| && CStr(ps[i].name) == SPT0 ==> ps[i].offset == spt0)
    && (forall i :: 0 <= i < |ps| && CStr(ps[i].name) == SPT1 ==> ps[i].offset == spt1)
  }

  // read_part and write_part's own checks (the offset is compared as signed)
  predicate Within(p: Part, off: int, n: nat) {
    p.offset < 0x8000_0000_0000_0000 && n > 0 && 0 <= off && off + n <= p.length
  }

  predicate CanRead(p: Part, size: nat, off: int, n: nat) {
    Within(p, off, n) && p.offset + off + n <= size
  }

  predicate CanWrite(p: Part, size: nat, off: int, n: nat) {
    Within(p, off, n) && Writable(size, p.offset + off, n)
  }

  // erase_part takes a partition of length zero
  predicate CanErase(p: Part, size: nat) {
    p.offset < 0x8000_0000_0000_0000 && Erasable(size, p.offset, p.length)
  }

  lemma TablePartAccess(p: Part, size: nat)
    requires TablePart(p, size) && size < MAX_FLASH
    ensures CanRead(p, size, 0, TABLE) && CanWrite(p, size, 0, TABLE) && CanWrite(p, size, 0, 4) && CanErase(p, size)
  {
    var k := p.offset / PAGE;
    assert p.offset == 4 * (PAGE / 4 * k);
    WholeWords(PAGE / 4 * k);
  }

  lemma WholeWords(n: nat)
    ensures 4 * n % 4 == 0
  {
  }

  predicate Apart(p: Part, q: Part) {
    p.offset + p.length <= q.offset || q.offset + q.length <= p.offset
  }

  predicate Inside(p: Part, i: nat) {
    p.offset <= i < p.offset + p.length
  }

  // Bytes that may differ lie in one of the two partitions.
  ghost predicate OnlyIn(m: Mem, m': Mem, p: Part, q: Part) {
    && |m'| == |m|
    && (forall i :: 0 <= i < |m| && !Inside(p, i) && !Inside(q, i) ==> m'[i] == m[i])
  }

  lemma NamedPart(ps: seq<Part>, name: seq<byte>)
    requires PartsOk(ps) && HasName(ps, name)
    ensures IndexNamed(ps, name) < |ps|
    ensures forall x :: 0 <= x < |ps| && CStr(ps[x].name) == name ==> x == IndexNamed(ps, name)
  {
    var p :| p in ps && CStr(p.name) == name;
  }

  // Partitions that do not overlap and do not wrap are apart.
  lemma PartsApart(ps: seq<Part>, x: nat, y: nat)
    requires PartsOk(ps) && x < |ps| && y < |ps| && x != y
    requires forall i :: 0 <= i < |ps| ==> ps[i].offset + ps[i].length < U64_MOD
    ensures Apart(ps[x], ps[y])
  {
    assert !Overlap(ps[x], ps[y]);
  }

  function PartNamed(s: Spt, name: seq<byte>): Part {
    var i := IndexNamed(s.part, name);
    if i < MAX_PARTITIONS then s.part[i] else s.part[0]
  }

  // Where the two copies of a table are, and that they do not overlap.
  ghost predicate Copies(s: Spt, x: nat, y: nat, a: seq<byte>, b: seq<byte>, size: nat) {
    && x < s.partitions <= MAX_PARTITIONS && y < s.partitions && x != y
    && IndexNamed(s.part, a) == x && IndexNamed(s.part, b) == y
    && (forall i :: 0 <= i < s.partitions && CStr(s.part[i].name) == a ==> i == x)
    && (forall i :: 0 <= i < s.partitions && CStr(s.part[i].name) == b ==> i == y)
    && TablePart(s.part[x], size) && TablePart(s.part[y], size) && Apart(s.part[x], s.part[y])
    && size < MAX_FLASH
  }

  lemma {:induction false} IndexNamedPrefix(ps: seq<Part>, n: nat, name: seq<byte>)
    requires n <= |ps| && IndexNamed(ps[..n], name) < n
    ensures IndexNamed(ps, name) == IndexNamed(ps[..n], name)
  {
    if CStr(ps[0].name) != name {
      assert ps[..n][1..] == ps[1..][..n - 1];
      IndexNamedPrefix(ps[1..], n - 1, name);
    }
  }

  lemma TableAt(s: Spt, a: seq<byte>, spt0: u64, spt1: u64, size: nat)
    requires s.partitions <= MAX_PARTITIONS && PartsOk(Parts(s)) && Layout(Parts(s), spt0, spt1, size)
    requires a in [SPT0, SPT1, CPB0, CPB1]
    ensures var x := IndexNamed(s.part, a);
      && x < s.partitions && CStr(s.part[x].name) == a && TablePart(s.part[x], size)
      && (forall i :: 0 <= i < s.partitions && CStr(s.part[i].name) == a ==> i == x)
  {
    hide TablePart, CStr, Overlap;
    var ps := Parts(s);
    NamedPart(ps, a);
    IndexNamedPrefix(s.part, s.partitions, a);
    var x := IndexNamed(ps, a);
    assert ps[x] == s.part[x];
    forall i | 0 <= i < s.partitions && CStr(s.part[i].name) == a ensures i == x {
      assert ps[i] == s.part[i];
    }
  }

  lemma TablesAt(s: Spt, a: seq<byte>, b: seq<byte>, spt0: u64, spt1: u64, size: nat)
    requires s.partitions <= MAX_PARTITIONS && PartsOk(Parts(s)) && Layout(Parts(s), spt0, spt1, size)
    requires (a == CPB0 && b == CPB1) || (a == SPT0 && b == SPT1)
    ensures Copies(s, IndexNamed(s.part, a), IndexNamed(s.part, b), a, b, size)
  {
    hide TablePart, CStr, PartsOk, Layout, IndexNamed, Apart;
    TableAt(s, a, spt0, spt1, size);
    TableAt(s, b, spt0, spt1, size);
    assert a[3] != b[3];
    LayoutApart(s, IndexNamed(s.part, a), IndexNamed(s.part, b), spt0, spt1, size);
  }

  lemma LayoutApart(s: Spt, x: nat, y: nat, spt0: u64, spt1: u64, size: nat)
    requires s.partitions <= MAX_PARTITIONS && PartsOk(Parts(s)) && Layout(Parts(s), spt0, spt1, size)
    requires x < s.partitions && y < s.partitions && x != y
    ensures Apart(s.part[x], s.part[y]) && size < MAX_FLASH
  {
    hide Overlap, PartsOk, CStr;
    PartsApart(Parts(s), x, y);
  }

  // The SPT check as a function of the raw table.
  ghost function SptCheck(checksumEnabled: bool): Table -> bool {
    (t: Table) => SptGood(t, checksumEnabled)
  }

  // what load_spt erases and writes: 32 KB at the address the firmware reports
  function SptRegion(address: u64): Part {
    Part(seq(NAME_LENGTH, _ => 0), address, SPT_ERASE, 0)
  }

  predicate SptPlaces(spt0: u64, spt1: u64, size: nat) {
    && TablePart(SptRegion(spt0), size) && TablePart(SptRegion(spt1), size)
    && Apart(SptRegion(spt0), SptRegion(spt1)) && size < MAX_FLASH
  }

  // What is assumed of a copy that looks like an SPT: names are terminated, and if it passes the
  // checks its partitions follow the board's layout.
  ghost predicate SptAssumption(t: Table, checksumEnabled: bool, spt0: u64, spt1: u64, size: nat) {
    var s := DecSpt(t);
    s.magic == SPT_MAGIC && s.partitions <= MAX_PARTITIONS ==>
      && (forall i :: 0 <= i < s.partitions ==> |CStr(s.part[i].name)| < NAME_LENGTH)
      && (SptOk(s, checksumEnabled) ==> Layout(Parts(s), spt0, spt1, size))
  }

  ghost predicate Holds(m: Mem, p: Part, q: Part) {
    p.offset + p.length <= |m| && q.offset + q.length <= |m| && TABLE <= p.length && TABLE <= q.length && Apart(p, q)
  }

  // the outcome of loading a table whose copies are in partitions p and q
  ghost function Loads(m: Mem, p: Part, q: Part, good: Table -> bool): Outcome {
    if Holds(m, p, q) then LoadOutcome(At(m, p.offset), At(m, q.offset), good) else NoneGood
  }

  // What a load does to flash and leaves in RAM; `calm` says that no flash operation failed.
  // However it ends, flash changed at most by a (perhaps unfinished) repair of one copy.
  ghost predicate LoadSpec(m: Mem, m': Mem, p: Part, q: Part, good: Table -> bool, ram: Table, ok: bool, calm: bool) {
    && Holds(m, p, q) && OnlyIn(m, m', p, q)
    && LoadStep(At(m, p.offset), At(m, q.offset), At(m', p.offset), At(m', q.offset), good)
    && (ok ==> good(ram) && At(m', p.offset) == ram && At(m', q.offset) == ram)
    && (ok && Loads(m, p, q, good).Use? ==> ram == Loads(m, p, q, good).table)
    && (Loads(m, p, q, good).NoneGood? ==> !ok && m' == m)
    && (calm ==> (ok <==> Loads(m, p, q, good).Use?) && (!ok ==> m' == m))
  }

  // What load_spt makes of flash, wherever it stops: flash is written only if one copy is good and the other
  // is not.
  ghost predicate SptLoaded(m: Mem, m': Mem, checksumEnabled: bool, spt0: u64, spt1: u64) {
    && SptPlaces(spt0, spt1, |m|)
    && (exists ram: Table, ok: bool ::
          LoadSpec(m, m', SptRegion(spt0), SptRegion(spt1), SptCheck(checksumEnabled), ram, ok, false))
    && (m' != m ==> SptGood(At(m, spt0), checksumEnabled) != SptGood(At(m, spt1), checksumEnabled))
  }

  lemma LoadedUnchanged(m: Mem, p: Part, q: Part, good: Table -> bool, ram: Table, ok: bool, calm: bool)
    requires Holds(m, p, q)
    requires ok ==> good(ram) && At(m, p.offset) == ram && At(m, q.offset) == ram
    requires calm ==> (ok <==> LoadOutcome(At(m, p.offset), At(m, q.offset), good).Use?)
    ensures ok ==> Loads(m, p, q, good).Use?
    ensures good(At(m, p.offset)) || good(At(m, q.offset)) ==> !Loads(m, p, q, good).NoneGood?
    ensures LoadSpec(m, m, p, q, good, ram, ok, calm)
  {
  }

  // Whether operations failed is left open.
  lemma LoadedCalmly(m: Mem, m': Mem, p: Part, q: Part, good: Table -> bool, ram: Table, ok: bool, calm: bool)
    requires LoadSpec(m, m', p, q, good, ram, ok, calm)
    ensures LoadSpec(m, m', p, q, good, ram, ok, false)
  {
    hide OnlyIn, LoadStep, Loads;
  }

  lemma OneGoodLoads(m: Mem, p: Part, q: Part, good: Table -> bool)
    requires Holds(m, p, q) && good(At(m, p.offset)) != good(At(m, q.offset))
    ensures Loads(m, p, q, good).Use?
  {
  }

  ghost predicate BothAre(m: Mem, p: Part, q: Part, t: Table) {
    Holds(m, p, q) && At(m, p.offset) == t && At(m, q.offset) == t
  }

  lemma MismatchMeans(m: Mem, p: Part, q: Part, good: Table -> bool)
    requires Loads(m, p, q, good).Mismatch?
    ensures Holds(m, p, q) && good(At(m, p.offset)) && good(At(m, q.offset)) && At(m, p.offset) != At(m, q.offset)
  {
  }

  lemma RepairedSecond(m: Mem, m': Mem, p: Part, q: Part, good: Table -> bool, t: Table, ram: Table, ok: bool,
                       calm: bool)
    requires Holds(m, p, q) && t == At(m, p.offset) && good(t) && (ok ==> ram == t)
    requires Rewrote(m, m', q.offset, q.length, t, ok)
    requires calm ==> ok && !good(At(m, q.offset))
    ensures !Loads(m, p, q, good).NoneGood?
    ensures LoadSpec(m, m', p, q, good, ram, ok, calm)
  {
    OtherCopy(m, m', q.offset, q.length, p.offset);
  }

  lemma RepairedFirst(m: Mem, m': Mem, p: Part, q: Part, good: Table -> bool, t: Table, ram: Table, ok: bool,
                      calm: bool)
    requires Holds(m, p, q) && t == At(m, q.offset) && good(t) && (ok ==> ram == t)
    requires Rewrote(m, m', p.offset, p.length, t, ok)
    requires calm ==> ok && !good(At(m, p.offset))
    ensures !Loads(m, p, q, good).NoneGood?
    ensures LoadSpec(m, m', p, q, good, ram, ok, calm)
  {
    OtherCopy(m, m', p.offset, p.length, q.offset);
  }

  // Rewriting both copies with t: which of the two are done.
  ghost predicate Progress(m: Mem, m': Mem, p: Part, q: Part, t: Table, doneP: bool, doneQ: bool) {
    && Holds(m, p, q) && OnlyIn(m, m', p, q)
    && At(m', p.offset) == (if doneP then t else At(m, p.offset))
    && At(m', q.offset) == (if doneQ then t else At(m, q.offset))
  }

  // Both copies rewritten with t, or stopped on the way.
  ghost predicate WroteBoth(m: Mem, m': Mem, p: Part, q: Part, t: Table, finished: bool) {
    && Holds(m, p, q) && OnlyIn(m, m', p, q)
    && if finished then At(m', p.offset) == t && At(m', q.offset) == t
       else StoppedBoth(At(m, p.offset), At(m, q.offset), t, At(m', p.offset), At(m', q.offset))
  }

  lemma ProgressStep(m: Mem, m1: Mem, m2: Mem, p: Part, q: Part, t: Table, doneQ: bool, finished: bool)
    requires Progress(m, m1, p, q, t, false, doneQ) && Rewrote(m1, m2, p.offset, p.length, t, finished)
    ensures finished ==> Progress(m, m2, p, q, t, true, doneQ)
    ensures !finished ==> WroteBoth(m, m2, p, q, t, false)
  {
    OtherCopy(m1, m2, p.offset, p.length, q.offset);
  }

  lemma Symmetric(m: Mem, m': Mem, p: Part, q: Part, t: Table, doneP: bool, doneQ: bool)
    ensures Progress(m, m', p, q, t, doneP, doneQ) <==> Progress(m, m', q, p, t, doneQ, doneP)
    ensures WroteBoth(m, m', p, q, t, doneP) <==> WroteBoth(m, m', q, p, t, doneP)
  {
  }

  lemma NoProgress(m: Mem, p: Part, q: Part, t: Table)
    requires Holds(m, p, q)
    ensures Progress(m, m, p, q, t, false, false)
  {
  }

  lemma BothDone(m: Mem, m': Mem, p: Part, q: Part, t: Table)
    requires Progress(m, m', p, q, t, true, true)
    ensures WroteBoth(m, m', p, q, t, true)
  {
  }

  // one of the two copies is rewritten next: p, or else q
  lemma BothSteps(m: Mem, m1: Mem, m2: Mem, p: Part, q: Part, t: Table, doneP: bool, doneQ: bool, isP: bool,
                  finished: bool)
    requires Progress(m, m1, p, q, t, doneP, doneQ) && if isP then !doneP else !doneQ
    requires var r := if isP then p else q; Rewrote(m1, m2, r.offset, r.length, t, finished)
    ensures finished ==> Progress(m, m2, p, q, t, doneP || isP, doneQ || !isP)
    ensures !finished ==> WroteBoth(m, m2, p, q, t, false)
  {
    if isP {
      ProgressStep(m, m1, m2, p, q, t, doneQ, finished);
    } else {
      Symmetric(m, m1, p, q, t, doneP, doneQ);
      ProgressStep(m, m1, m2, q, p, t, doneP, finished);
      Symmetric(m, m2, p, q, t, doneP, true);
      Symmetric(m, m2, p, q, t, false, false);
    }
  }

  // Both copies of `before` programmed in place with t, or stopped on the way.
  ghost predicate UpdatedBoth(m: Mem, m': Mem, p: Part, q: Part, before: Table, t: Table, finished: bool) {
    && Holds(m, p, q) && OnlyIn(m, m', p, q)
    && if finished then At(m', p.offset) == t && At(m', q.offset) == t
       else StoppedUpdate(before, t, At(m', p.offset), At(m', q.offset))
  }

  // One entry was changed in place and the table loaded again: both copies are the new table t, or one
  // copy is good and every good copy lies between the old table and t.
  ghost predicate Changed(m: Mem, m': Mem, p: Part, q: Part, before: Table, t: Table, good: Table -> bool, ok: bool) {
    && Holds(m, p, q) && OnlyIn(m, m', p, q)
    && if ok then At(m', p.offset) == t && At(m', q.offset) == t
       else GoodAreTorn(before, t, At(m', p.offset), At(m', q.offset), good)
  }

  lemma UpdateStep(m: Mem, m1: Mem, m2: Mem, p: Part, q: Part, before: Table, t: Table,
                   doneP: bool, doneQ: bool, isP: bool, finished: bool)
    requires Progress(m, m1, p, q, t, doneP, doneQ) && if isP then !doneP else !doneQ
    requires At(m, p.offset) == before && At(m, q.offset) == before && OnlyClears(before, t)
    requires var r := if isP then p else q;
      if finished then m2 == Programmed(m1, r.offset, t) else m2 == m1 || TornProgram(m1, m2, r.offset, t)
    ensures finished ==> Progress(m, m2, p, q, t, doneP || isP, doneQ || !isP)
    ensures !finished ==> UpdatedBoth(m, m2, p, q, before, t, false)
  {
    hide OnlyClears, TornTable;
    var r, o := if isP then p else q, if isP then q else p;
    ProgramInPlace(m1, m2, r.offset, r.length, t, finished);
    OtherCopy(m1, m2, r.offset, r.length, o.offset);
  }

  lemma NotUpdated(m: Mem, p: Part, q: Part, before: Table)
    requires Holds(m, p, q) && At(m, p.offset) == before && At(m, q.offset) == before
    ensures UpdatedBoth(m, m, p, q, before, before, false)
  {
    hide TornTable;
    AndSelfSeq(before);
    TornEnds(before, before);
  }

  lemma UpdatesDone(m: Mem, m': Mem, p: Part, q: Part, before: Table, t: Table)
    requires Progress(m, m', p, q, t, true, true)
    ensures UpdatedBoth(m, m', p, q, before, t, true)
  {
  }

  lemma OnlyInSelf(m: Mem, p: Part, q: Part)
    ensures OnlyIn(m, m, p, q)
  {
  }

  lemma OnlyInTrans(m: Mem, m1: Mem, m2: Mem, p: Part, q: Part)
    requires OnlyIn(m, m1, p, q) && OnlyIn(m1, m2, p, q)
    ensures OnlyIn(m, m2, p, q)
  {
  }

  lemma LoadFacts(m: Mem, m': Mem, p: Part, q: Part, good: Table -> bool, ram: Table, ok: bool, calm: bool)
    requires LoadSpec(m, m', p, q, good, ram, ok, calm)
    ensures Holds(m, p, q) && OnlyIn(m, m', p, q)
    ensures ok ==> good(ram) && At(m', p.offset) == ram && At(m', q.offset) == ram
  {
  }

  lemma LoadedBoth(m: Mem, m': Mem, p: Part, q: Part, good: Table -> bool, ram: Table, calm: bool)
    requires LoadSpec(m, m', p, q, good, ram, true, calm)
    ensures BothAre(m', p, q, ram)
  {
  }

  lemma UpdatedFacts(m: Mem, m': Mem, p: Part, q: Part, before: Table, t: Table, ok: bool)
    requires UpdatedBoth(m, m', p, q, before, t, ok)
    ensures Holds(m, p, q) && Holds(m', p, q) && OnlyIn(m, m', p, q)
    ensures ok ==> At(m', p.offset) == t && At(m', q.offset) == t
  {
  }

  // A stopped update, then a load.
  lemma ChangeStopped(m: Mem, m1: Mem, m2: Mem, p: Part, q: Part, before: Table, t: Table, good: Table -> bool,
                      ram: Table, ok: bool, calm: bool)
    requires UpdatedBoth(m, m1, p, q, before, t, false) && LoadSpec(m1, m2, p, q, good, ram, ok, calm)
    requires good(before) && good(t) && OnlyClears(before, t) && RequiresMagic(good, Magic(t))
    ensures Changed(m, m2, p, q, before, t, good, false)
  {
    hide TornTable, OnlyClears;
    StoppedUpdateIsSafe(before, t, At(m1, p.offset), At(m1, q.offset), good);
    LoadStepKeepsTorn(before, t, At(m1, p.offset), At(m1, q.offset), At(m2, p.offset), At(m2, q.offset), good,
      Magic(t));
  }

  // A finished update, then a load that may fail.
  lemma ChangeLoaded(m: Mem, m': Mem, p: Part, q: Part, before: Table, t: Table, good: Table -> bool, ok: bool)
    requires Holds(m, p, q) && OnlyIn(m, m', p, q) && OnlyClears(before, t)
    requires LoadOutcome(At(m', p.offset), At(m', q.offset), good) == Use(t)
    requires ok ==> At(m', p.offset) == t && At(m', q.offset) == t
    ensures Changed(m, m', p, q, before, t, good, ok)
  {
    hide TornTable, OnlyClears;
    TornEnds(before, t);
  }

  lemma WroteFacts(m: Mem, m': Mem, p: Part, q: Part, t: Table, ok: bool)
    requires WroteBoth(m, m', p, q, t, ok)
    ensures Holds(m, p, q) && Holds(m', p, q) && OnlyIn(m, m', p, q)
    ensures ok ==> At(m', p.offset) == t && At(m', q.offset) == t
  {
  }

  // Loading two equal bad copies settles on none.
  lemma LoadedBad(m: Mem, m': Mem, p: Part, q: Part, good: Table -> bool, t: Table, ram: Table, ok: bool, calm: bool)
    requires LoadSpec(m, m', p, q, good, ram, ok, calm) && BothAre(m, p, q, t) && !good(t)
    ensures Loads(m, p, q, good).NoneGood? && !ok && m' == m
  {
  }

  // Loading two equal good copies settles on that table.
  lemma LoadedNew(m: Mem, m': Mem, p: Part, q: Part, good: Table -> bool, t: Table, ram: Table, ok: bool, calm: bool)
    requires LoadSpec(m, m', p, q, good, ram, ok, calm)
    requires Holds(m, p, q) && At(m, p.offset) == t && At(m, q.offset) == t && good(t)
    ensures OnlyIn(m, m', p, q) && (calm ==> ok)
    ensures ok ==> ram == t && At(m', p.offset) == t && At(m', q.offset) == t
    ensures RequiresMagic(good, Magic(t)) ==> LoadOutcome(At(m', p.offset), At(m', q.offset), good) == Use(t)
  {
    if RequiresMagic(good, Magic(t)) {
      LoadStepKeepsOutcome(t, t, At(m', p.offset), At(m', q.offset), good, Magic(t));
    }
  }

  lemma GoodCpbMagic(c: Cpb, s: Spt)
    requires s.partitions <= MAX_PARTITIONS && CpbGood(EncCpb(c), s)
    ensures RequiresMagic(CpbCheck(s), Magic(EncCpb(c)))
  {
    MagicIsFirst(EncCpb(c));
    CpbMagicRequired(s);
  }

  lemma CpbMagicRequired(s: Spt)
    ensures RequiresMagic(CpbCheck(s), CPB_MAGIC)
  {
    forall t | CpbCheck(s)(t) ensures Magic(t) == CPB_MAGIC {
      MagicIsFirst(t);
    }
  }

  function Offsets(s: Spt, n: nat): (r: set<u64>)
    requires n <= s.partitions <= MAX_PARTITIONS
    ensures |r| <= n
    ensures forall x :: 0 <= x < n ==> s.part[x].offset in r
  {
    if n == 0 then {} else Offsets(s, n - 1) + {s.part[n - 1].offset}
  }

  /** A table that passes check_cpb has at most one live entry per partition, hence room: the
      -EFAULT of priority_add's compaction cannot happen. */
  lemma RoomForAll(slots: SlotArray, v: u64, s: Spt)
    requires s.partitions <= MAX_PARTITIONS && CpbOk(slots, s) && Wf(slots)
    ensures HasRoom(slots) && |Live(slots)| <= MAX_PARTITIONS
  {
    forall w | w in slots && IsLive(w) ensures w in Offsets(s, s.partitions) {
      var i :| 0 <= i < |slots| && slots[i] == w;
      assert PointerOk(slots[i], s);
    }
    NeverRunsOut(slots, v, Offsets(s, s.partitions));
    PrioMembers(slots, v);
  }

  // the table that a compacting add writes
  function Compact(c: Cpb, v: u64): Cpb
    requires |Live(c.slots)| < CPB_NSLOTS
  {
    c.(slots := Compacted(c.slots, v))
  }

  lemma AddedMembers(s: seq<u64>, v: u64, x: nat)
    requires HasRoom(s) && x < |s|
    ensures Added(s, v)[x] in s || Added(s, v)[x] in {v, ERASED_ENTRY}
  {
    PrioOfLive(s);
    if Used(s) == |s| && x < |Live(s)| {
      assert Added(s, v)[x] == Live(s)[x];
    }
  }

  lemma MemberOk(slots: seq<u64>, w: u64, s: Spt)
    requires s.partitions <= MAX_PARTITIONS && CpbOk(slots, s) && w in slots
    ensures PointerOk(w, s)
  {
    var i :| 0 <= i < |slots| && slots[i] == w;
  }

  lemma AddedIsGood(c: Cpb, v: u64, s: Spt)
    requires s.partitions <= MAX_PARTITIONS && HasRoom(c.slots) && CpbGood(EncCpb(c), s) && PointerOk(v, s)
    ensures CpbGood(EncCpb(c.(slots := Added(c.slots, v))), s)
  {
    var r := Added(c.slots, v);
    CpbRoundTrip(c);
    CpbRoundTrip(c.(slots := r));
    hide EncCpb, DecCpb, Added, PointerOk;
    forall x | 0 <= x < |r| ensures PointerOk(r[x], s) {
      AddedMembers(c.slots, v, x);
      MarkerOk(s);
      if r[x] in c.slots {
        MemberOk(c.slots, r[x], s);
      }
    }
  }

  lemma MarkerOk(s: Spt)
    requires s.partitions <= MAX_PARTITIONS
    ensures PointerOk(ERASED_ENTRY, s) && PointerOk(SPENT_ENTRY, s)
  {
  }

  lemma RemovedIsGood(c: Cpb, v: u64, s: Spt)
    requires s.partitions <= MAX_PARTITIONS && CpbGood(EncCpb(c), s)
    ensures CpbGood(EncCpb(c.(slots := Removed(c.slots, v))), s)
  {
    CpbRoundTrip(c);
    CpbRoundTrip(c.(slots := Removed(c.slots, v)));
    var r := Removed(c.slots, v);
    forall x | 0 <= x < |r| ensures PointerOk(r[x], s) {
      assert r[x] == c.slots[x] || r[x] == SPENT_ENTRY;
      assert PointerOk(c.slots[x], s);
    }
  }

  /** The table that an add writes passes check_cpb if and only if no reserved partition comes first at the
      offset added. */
  lemma AddedIsGoodIff(c: Cpb, v: u64, s: Spt)
    requires s.partitions <= MAX_PARTITIONS && HasRoom(c.slots) && CpbGood(EncCpb(c), s)
    ensures CpbGood(EncCpb(c.(slots := Added(c.slots, v))), s) <==> PointerOk(v, s)
  {
    hide EncCpb, DecCpb, PointerOk, Live;
    var r := Added(c.slots, v);
    if PointerOk(v, s) {
      AddedIsGood(c, v, s);
    }
    if CpbGood(EncCpb(c.(slots := r)), s) {
      CpbRoundTrip(c.(slots := r));
      var n := if Used(c.slots) < |c.slots| then Used(c.slots) else |Live(c.slots)|;
      assert r[n] == v;
    }
  }

  lemma AddFacts(c: Cpb, v: u64, s: Spt)
    requires s.partitions <= MAX_PARTITIONS && CpbGood(EncCpb(c), s) && Wf(c.slots)
    ensures HasRoom(c.slots) && |Live(c.slots)| < CPB_NSLOTS
    ensures (IsLive(v) ==> v !in c.slots) ==> Wf(Added(c.slots, v))
    ensures CpbGood(EncCpb(c.(slots := Added(c.slots, v))), s) <==> PointerOk(v, s)
    ensures And(ERASED_ENTRY, v) == v
  {
    hide CpbGood, EncCpb, Wf, Added, PointerOk;
    HasRoomIn(c, v, s);
    if !IsLive(v) {
      AddMarkerKeepsWf(c.slots, v);
    } else if v !in c.slots {
      AddKeepsWf(c.slots, v);
    }
    AddedIsGoodIff(c, v, s);
    EntryCanChange(v);
  }

  lemma HasRoomIn(c: Cpb, v: u64, s: Spt)
    requires s.partitions <= MAX_PARTITIONS && CpbGood(EncCpb(c), s) && Wf(c.slots)
    ensures HasRoom(c.slots) && |Live(c.slots)| < CPB_NSLOTS
  {
    CpbRoundTrip(c);
    RoomForAll(c.slots, v, s);
  }

  lemma RemoveFacts(c: Cpb, v: u64, s: Spt)
    requires s.partitions <= MAX_PARTITIONS && CpbGood(EncCpb(c), s) && Wf(c.slots)
    ensures Wf(Removed(c.slots, v)) && CpbGood(EncCpb(c.(slots := Removed(c.slots, v))), s)
    ensures And(v, SPENT_ENTRY) == SPENT_ENTRY
  {
    if IsLive(v) {
      RemoveKeepsWf(c.slots, v);
    } else {
      RemoveMarkerKeepsWf(c.slots, v);
    }
    RemovedIsGood(c, v, s);
    EntryCanChange(v);
  }

  lemma FoundNext(ps: seq<Part>, x: nat)
    requires x < |ps|
    ensures forall n :: HasName(ps[..x + 1], n) <==> HasName(ps[..x], n) || CStr(ps[x].name) == n
    ensures SPT0 != SPT1 && SPT0 != CPB0 && SPT0 != CPB1 && SPT1 != CPB0 && SPT1 != CPB1 && CPB0 != CPB1
  {
    var r := ps[..x + 1];
    assert r == ps[..x] + [ps[x]];
    forall n ensures HasName(r, n) <==> HasName(ps[..x], n) || CStr(ps[x].name) == n {
      if HasName(ps[..x], n) {
        var p :| p in ps[..x] && CStr(p.name) == n;
        assert p in r;
      }
      assert ps[x] in r;
    }
    assert SPT0[3] != SPT1[3] && SPT0[0] != CPB0[0] && CPB0[3] != CPB1[3];
    assert SPT0[0] != CPB1[0] && SPT1[0] != CPB0[0] && SPT1[0] != CPB1[0];
  }

  lemma GoodParts(s: Spt, checksumEnabled: bool)
    requires SptOk(s, checksumEnabled)
    ensures PartsOk(Parts(s))
  {
    SptOkIsPartsOk(s, checksumEnabled);
  }

  lemma SptAccess(address: u64, size: nat)
    requires TablePart(SptRegion(address), size)
    ensures Erasable(size, address, SPT_ERASE) && Writable(size, address, TABLE) && Writable(size, address, 4)
  {
  }

  // A table was replaced: both copies are the new table t, or one copy is good and every good copy is the
  // old table or the new one.
  ghost predicate Committed(m: Mem, m': Mem, p: Part, q: Part, before: Table, t: Table, good: Table -> bool, ok: bool) {
    && Holds(m, p, q) && OnlyIn(m, m', p, q)
    && if ok then At(m', p.offset) == t && At(m', q.offset) == t
       else OldOrNew(before, t, At(m', p.offset), At(m', q.offset), good)
  }

  lemma NotCommitted(m: Mem, m': Mem, p: Part, q: Part, before: Table, t: Table, good: Table -> bool)
    requires WroteBoth(m, m', p, q, t, false) && RequiresMagic(good, Magic(t)) && good(before) && good(t)
    requires At(m, p.offset) == before && At(m, q.offset) == before
    ensures Committed(m, m', p, q, before, t, good, false)
  {
    StoppedRewriteIsSafe(before, t, At(m', p.offset), At(m', q.offset), good);
  }

  lemma CommitReloaded(m: Mem, m': Mem, p: Part, q: Part, before: Table, t: Table, good: Table -> bool, ok: bool)
    requires Holds(m, p, q) && OnlyIn(m, m', p, q)
    requires LoadOutcome(At(m', p.offset), At(m', q.offset), good) == Use(t)
    requires ok ==> At(m', p.offset) == t && At(m', q.offset) == t
    ensures Committed(m, m', p, q, before, t, good, ok)
  {
  }

  lemma CommitLoaded(m: Mem, m1: Mem, m2: Mem, p: Part, q: Part, before: Table, t: Table, good: Table -> bool,
                  ram: Table, ok: bool, calm: bool)
    requires WroteBoth(m, m1, p, q, t, true) && RequiresMagic(good, Magic(t)) && good(t)
    requires p.offset + p.length <= |m| && q.offset + q.length <= |m|
    requires p.length >= SPT_ERASE && q.length >= SPT_ERASE
    requires LoadSpec(m1, m2, SptRegion(p.offset), SptRegion(q.offset), good, ram, ok, calm)
    ensures Committed(m, m2, p, q, before, t, good, ok)
    ensures calm ==> ok
    ensures ok ==> ram == t
  {
    LoadedNew(m1, m2, SptRegion(p.offset), SptRegion(q.offset), good, t, ram, ok, calm);
    assert OnlyIn(m1, m2, p, q) by {
      forall i | 0 <= i < |m1| && !Inside(p, i) && !Inside(q, i) ensures m2[i] == m1[i] {
        assert !Inside(SptRegion(p.offset), i) && !Inside(SptRegion(q.offset), i);
      }
    }
    OnlyInTrans(m, m1, m2, p, q);
    LoadStepKeepsOutcome(t, t, At(m2, p.offset), At(m2, q.offset), good, Magic(t));
  }

  // The SPT entries of the table are where the firmware says.
  lemma SptAddresses(s: Spt, spt0: u64, spt1: u64, size: nat)
    requires s.partitions <= MAX_PARTITIONS && PartsOk(Parts(s)) && Layout(Parts(s), spt0, spt1, size)
    ensures PartNamed(s, SPT0).offset == spt0 && PartNamed(s, SPT1).offset == spt1
  {
    TableAt(s, SPT0, spt0, spt1, size);
    TableAt(s, SPT1, spt0, spt1, size);
    assert Parts(s)[IndexNamed(s.part, SPT0)] == s.part[IndexNamed(s.part, SPT0)];
    assert Parts(s)[IndexNamed(s.part, SPT1)] == s.part[IndexNamed(s.part, SPT1)];
  }

  lemma SealedIsGood(s: Spt, checksumEnabled: bool, spt0: u64, spt1: u64, size: nat)
    requires s.partitions <= MAX_PARTITIONS && PartsOk(Parts(s)) && s.magic == SPT_MAGIC
    requires Layout(Parts(s), spt0, spt1, size)
    ensures var t := EncSpt(Sealed(s, checksumEnabled));
      && SptGood(t, checksumEnabled) && SptAssumption(t, checksumEnabled, spt0, spt1, size)
      && Magic(t) == SPT_MAGIC && RequiresMagic(SptCheck(checksumEnabled), Magic(t))
  {
    hide SptCrc, CStr, Distinct, Has;
    var z := Sealed(s, checksumEnabled);
    SealedIsOk(s, checksumEnabled);
    SptRoundTrip(z);
    SptMagicBytes(z);
    assert Parts(z) == Parts(s);
    forall i | 0 <= i < z.partitions ensures |CStr(z.part[i].name)| < NAME_LENGTH {
      assert Parts(s)[i] == z.part[i];
    }
    forall t | SptCheck(checksumEnabled)(t) ensures Magic(t) == SPT_MAGIC {
      MagicIsFirst(t);
    }
  }

  function Cut(s: seq<byte>, n: nat): seq<byte> {
    if |s| <= n then s else s[..n]
  }

  predicate CanCreate(s: Spt, name: seq<byte>, start: u64, size: u32) {
    && s.partitions < MAX_PARTITIONS && |CStr(name)| < NAME_LENGTH && NameFree(Parts(s), name)
    && forall i :: 0 <= i < s.partitions ==>
      !(start < s.part[i].End() && (start + size) % U64_MOD > s.part[i].offset)
  }

  predicate CanRename(s: Spt, x: int, name: seq<byte>) {
    0 <= x < s.partitions <= MAX_PARTITIONS && |CStr(name)| < NAME_LENGTH && NameFree(Parts(s), name)
  }

  /** Partitions that are not empty and do not wrap overlap exactly if they share a byte. */
  lemma OverlapIff(p: Part, q: Part)
    requires p.length > 0 && q.length > 0 && p.offset + p.length < U64_MOD && q.offset + q.length < U64_MOD
    ensures Overlap(p, q) <==> exists i: nat :: Inside(p, i) && Inside(q, i)
  {
    if Overlap(p, q) {
      var i := if p.offset < q.offset then q.offset else p.offset;
      assert Inside(p, i) && Inside(q, i);
    }
  }

  lemma CreateAllowed(s: Spt, name: seq<byte>, start: u64, size: u32, p: Part)
    requires CanCreate(s, name, start, size) && PartsOk(Parts(s))
    requires CStr(p.name) == CStr(name) && p.offset == start && p.length == size
    ensures PartsOk(Parts(s) + [p])
  {
    hide CStr, HasName, PartsOk;
    var ps := Parts(s);
    forall x | 0 <= x < |ps| ensures !Overlap(p, ps[x]) && CStr(ps[x].name) != CStr(p.name) {
      assert ps[x] == s.part[x];
    }
    CreateKeepsPartsOk(ps, p);
  }

  lemma OnlyAllowed(ps: seq<Part>, p: Part, x: nat)
    requires PartsOk(ps + [p]) && x < |ps|
    ensures !Overlap(p, ps[x]) && CStr(ps[x].name) != CStr(p.name)
  {
    hide CStr, HasName, Overlap;
    assert (ps + [p])[|ps|] == p && (ps + [p])[x] == ps[x];
  }

  /** partition_create takes exactly what check_spt accepts afterwards. */
  lemma CreateAllowedIff(s: Spt, name: seq<byte>, start: u64, size: u32)
    requires s.partitions < MAX_PARTITIONS && |CStr(name)| < NAME_LENGTH && PartsOk(Parts(s))
    ensures CanCreate(s, name, start, size) <==> PartsOk(Parts(Created(s, name, start, size)))
  {
    hide CStr, HasName, PartsOk, Created;
    var ps, c := Parts(s), Created(s, name, start, size);
    PartsAfterCreate(s, name, start, size);
    var p := c.part[s.partitions];
    if CanCreate(s, name, start, size) {
      CreateAllowed(s, name, start, size, p);
    }
    if PartsOk(Parts(c)) {
      forall x | 0 <= x < |ps| ensures !Overlap(p, s.part[x]) && CStr(ps[x].name) != CStr(name) {
        OnlyAllowed(ps, p, x);
        assert ps[x] == s.part[x];
      }
    }
  }

  /** partition_rename too, but for a name that the partition has already. */
  lemma RenameAllowedIff(s: Spt, x: nat, name: seq<byte>)
    requires x < s.partitions <= MAX_PARTITIONS && |CStr(name)| < NAME_LENGTH && PartsOk(Parts(s))
    requires !TableName(CStr(s.part[x].name))
    ensures CanRename(s, x, name) <==>
      PartsOk(Parts(Renamed(s, x, name))) && CStr(name) != CStr(s.part[x].name)
  {
    hide CStr, HasName, Overlap;
    var ps, r := Parts(s), Renamed(s, x, name);
    PartsAfterRename(s, x, name);
    assert Parts(r) == ps[x := r.part[x]] && ps[x] == s.part[x];
    if CanRename(s, x, name) {
      RenameKeepsPartsOk(ps, x, r.part[x].name);
    }
    if PartsOk(Parts(r)) && CStr(name) != CStr(s.part[x].name) {
      forall y | 0 <= y < |ps| ensures CStr(ps[y].name) != CStr(name) {
        if y != x {
          assert Parts(r)[y] == ps[y] && Parts(r)[x] == r.part[x];
        }
      }
    }
  }

  lemma TableNamesReserved(name: seq<byte>)
    requires TableName(name)
    ensures ReservedName(name)
  {
  }

  // The partition with a table name is the only one, wherever it stands.
  lemma NamedIs(s: Spt, name: seq<byte>, p: Part)
    requires s.partitions <= MAX_PARTITIONS && PartsOk(Parts(s)) && p in Parts(s) && CStr(p.name) == name
    ensures PartNamed(s, name) == p
  {
    var x :| 0 <= x < |Parts(s)| && Parts(s)[x] == p;
    NamedPart(Parts(s), name);
    IndexNamedPrefix(s.part, s.partitions, name);
  }

  // Both tables name the same four partitions.
  ghost predicate SameTables(s: Spt, r: Spt) {
    forall n :: TableName(n) ==> PartNamed(r, n) == PartNamed(s, n)
  }

  lemma KeepsTables(s: Spt, r: Spt)
    requires s.partitions <= MAX_PARTITIONS && PartsOk(Parts(s))
    requires r.partitions <= MAX_PARTITIONS && PartsOk(Parts(r))
    requires forall p :: p in Parts(s) && TableName(CStr(p.name)) ==> p in Parts(r)
    ensures SameTables(s, r)
  {
    forall n | TableName(n) ensures PartNamed(r, n) == PartNamed(s, n) {
      var p :| p in Parts(s) && CStr(p.name) == n;
      NamedIs(s, n, p);
      NamedIs(r, n, p);
    }
  }

  lemma LayoutAppend(ps: seq<Part>, p: Part, spt0: u64, spt1: u64, n: nat)
    requires Layout(ps, spt0, spt1, n) && !TableName(CStr(p.name))
    requires p.offset + p.length < U64_MOD && |CStr(p.name)| < NAME_LENGTH
    ensures Layout(ps + [p], spt0, spt1, n)
  {
    hide CStr, TablePart;
  }

  lemma LayoutRemove(ps: seq<Part>, x: nat, spt0: u64, spt1: u64, n: nat)
    requires x < |ps| && Layout(ps, spt0, spt1, n)
    ensures Layout(ps[..x] + ps[x + 1..], spt0, spt1, n)
  {
    hide CStr, TablePart;
    var r := ps[..x] + ps[x + 1..];
    assert forall i :: 0 <= i < |r| ==> r[i] == ps[if i < x then i else i + 1];
  }

  lemma LayoutReplace(ps: seq<Part>, x: nat, p: Part, spt0: u64, spt1: u64, n: nat)
    requires x < |ps| && Layout(ps, spt0, spt1, n) && !TableName(CStr(p.name))
    requires p.offset == ps[x].offset && p.length == ps[x].length && |CStr(p.name)| < NAME_LENGTH
    ensures Layout(ps[x := p], spt0, spt1, n)
  {
    hide CStr, TablePart;
  }

  // The new partition overlaps none of the others.
  lemma CreatedApart(s: Spt, name: seq<byte>, start: u64, size: u32)
    requires s.partitions <= MAX_PARTITIONS && CanCreate(s, name, start, size) && start + size < U64_MOD
    ensures forall x :: 0 <= x < s.partitions ==>
      !Overlap(Created(s, name, start, size).part[s.partitions], Parts(s)[x])
  {
    forall x | 0 <= x < s.partitions ensures !Overlap(Created(s, name, start, size).part[s.partitions], Parts(s)[x]) {
      assert Parts(s)[x] == s.part[x];
    }
  }

  lemma CreateKeepsLayout(s: Spt, name: seq<byte>, start: u64, size: u32, spt0: u64, spt1: u64, n: nat)
    requires s.partitions <= MAX_PARTITIONS && PartsOk(Parts(s)) && Layout(Parts(s), spt0, spt1, n)
    requires CanCreate(s, name, start, size) && start + size < U64_MOD
    ensures var c := Created(s, name, start, size);
      PartsOk(Parts(c)) && Layout(Parts(c), spt0, spt1, n) && SameTables(s, c)
  {
    hide CStr, PartsOk, Layout, Created, Overlap;
    PartsAfterCreate(s, name, start, size);
    var c := Created(s, name, start, size);
    var p := c.part[s.partitions];
    assert c.partitions == |Parts(c)|;
    CreatedApart(s, name, start, size);
    FreeIsNoTable(Parts(s), name);
    CreateKeepsPartsOk(Parts(s), p);
    LayoutAppend(Parts(s), p, spt0, spt1, n);
    KeepsTables(s, c);
  }

  lemma ReplaceKeepsTables(s: Spt, r: Spt, x: nat, q: Part)
    requires s.partitions <= MAX_PARTITIONS && PartsOk(Parts(s))
    requires r.partitions <= MAX_PARTITIONS && PartsOk(Parts(r))
    requires x < |Parts(s)| && Parts(r) == Parts(s)[x := q] && !TableName(CStr(Parts(s)[x].name))
    ensures SameTables(s, r)
  {
    hide CStr, PartsOk;
    var ps := Parts(s);
    forall p | p in ps && TableName(CStr(p.name)) ensures p in Parts(r) {
      var i :| 0 <= i < |ps| && ps[i] == p;
      assert Parts(r)[i] == p;
    }
    KeepsTables(s, r);
  }

  lemma RenameKeepsLayout(s: Spt, x: nat, name: seq<byte>, spt0: u64, spt1: u64, n: nat)
    requires s.partitions <= MAX_PARTITIONS && PartsOk(Parts(s)) && Layout(Parts(s), spt0, spt1, n)
    requires CanRename(s, x, name) && !TableName(CStr(s.part[x].name))
    ensures var r := Renamed(s, x, name);
      PartsOk(Parts(r)) && Layout(Parts(r), spt0, spt1, n) && SameTables(s, r)
  {
    PartsAfterRename(s, x, name);
    hide CStr, PartsOk, Layout, StrCpy, TableName;
    var r, ps := Renamed(s, x, name), Parts(s);
    FreeIsNoTable(ps, name);
    var q := r.part[x];
    assert Parts(r) == ps[x := q];
    RenameKeepsPartsOk(ps, x, q.name);
    LayoutReplace(ps, x, q, spt0, spt1, n);
    ReplaceKeepsTables(s, r, x, q);
  }

  lemma DeleteKeepsLayout(s: Spt, x: nat, spt0: u64, spt1: u64, n: nat)
    requires s.partitions <= MAX_PARTITIONS && PartsOk(Parts(s)) && Layout(Parts(s), spt0, spt1, n)
    requires x < s.partitions && !TableName(CStr(s.part[x].name))
    ensures var d := Deleted(s, x);
      PartsOk(Parts(d)) && Layout(Parts(d), spt0, spt1, n) && SameTables(s, d)
  {
    hide CStr, PartsOk, Layout;
    PartsAfterDelete(s, x);
    var ps := Parts(s);
    var r := ps[..x] + ps[x + 1..];
    assert Parts(Deleted(s, x)) == r;
    DeleteKeepsPartsOk(ps, x);
    LayoutRemove(ps, x, spt0, spt1, n);
    forall p | p in ps && TableName(CStr(p.name)) ensures p in r {
      var i :| 0 <= i < |ps| && ps[i] == p;
      assert i != x;
      assert r[if i < x then i else i - 1] == p;
    }
    KeepsTables(s, Deleted(s, x));
  }

  lemma HasAll(s: Spt)
    requires s.partitions <= MAX_PARTITIONS
    ensures Parts(s)[..s.partitions] == Parts(s)
    ensures forall n :: Has(s, n) <==> HasName(Parts(s), n)
  {
    forall n ensures Has(s, n) <==> HasName(Parts(s), n) {
      HasIsHasName(s, n);
    }
  }

  lemma SealedParts(s: Spt, checksumEnabled: bool)
    ensures var z := Sealed(s, checksumEnabled);
      z.partitions == s.partitions && z.part == s.part && z.magic == s.magic
    ensures s.partitions <= MAX_PARTITIONS ==> Parts(Sealed(s, checksumEnabled)) == Parts(s)
  {
  }

  lemma TableLength(p: Part, size: nat)
    requires TablePart(p, size)
    ensures p.offset + p.length <= size && TABLE <= p.length && p.length % PAGE == 0 && p.length > 0
  {
  }

  // one entry of a deletion's loop
  lemma MovedOne(part: seq<Part>, ps: seq<Part>, x: nat, i: nat)
    requires |part| == |ps| && x <= i && i + 1 < |ps|
    requires part[..i] == ps[..x] + ps[x + 1..i + 1] && part[i..] == ps[i..]
    ensures var r := part[i := part[i + 1]];
      r[..i + 1] == ps[..x] + ps[x + 1..i + 2] && r[i + 1..] == ps[i + 1..]
  {
    var r := part[i := part[i + 1]];
    assert part[i + 1] == part[i..][1] == ps[i + 1];
    assert r[..i + 1] == part[..i] + [ps[i + 1]];
    assert ps[x + 1..i + 2] == ps[x + 1..i + 1] + [ps[i + 1]];
    assert r[i + 1..] == part[i..][1..] == ps[i..][1..];
  }

  class Database {
    const flash: Flash
    const spt0Address: u64
    const spt1Address: u64
    const checksumEnabled: bool

    var spt: Spt
    var cpb: Cpb
    var sptCorrupted: bool
    var cpbCorrupted: bool
    var cpb0Part: nat
    var cpb1Part: nat

    constructor (flash: Flash, spt0: u64, spt1: u64, checksumEnabled: bool)
      ensures this.flash == flash && spt0Address == spt0 && spt1Address == spt1
      ensures this.checksumEnabled == checksumEnabled && !sptCorrupted && !cpbCorrupted
    {
      this.flash, spt0Address, spt1Address := flash, spt0, spt1;
      this.checksumEnabled := checksumEnabled;
      sptCorrupted, cpbCorrupted := false, false;
      cpb0Part, cpb1Part := 0, 0;
      spt := DecSpt(seq(TABLE, _ => 0));
      cpb := DecCpb(seq(TABLE, _ => 0));
    }

    // ---- views of the state ----

    ghost predicate ValidSpt()
      reads this, flash`mem
    {
      && spt.partitions <= MAX_PARTITIONS && PartsOk(Parts(spt)) && spt.magic == SPT_MAGIC
      && Layout(Parts(spt), spt0Address, spt1Address, |flash.mem|)
    }

    // the partitions holding the two CPB copies
    ghost function Cpb0(): Part
      reads this`spt
    {
      PartNamed(spt, CPB0)
    }

    ghost function Cpb1(): Part
      reads this`spt
    {
      PartNamed(spt, CPB1)
    }

    // both SPT copies in flash are the table in RAM
    ghost predicate SptSynced()
      reads this, flash`mem
    {
      && SptPlaces(spt0Address, spt1Address, |flash.mem|) && SptGood(EncSpt(spt), checksumEnabled)
      && At(flash.mem, spt0Address) == EncSpt(spt) && At(flash.mem, spt1Address) == EncSpt(spt)
    }

    // both copies in flash are the table in RAM
    ghost predicate CpbSynced()
      requires ValidSpt()
      reads this, flash`mem
    {
      CpbGood(EncCpb(cpb), spt) && BothAre(flash.mem, Cpb0(), Cpb1(), EncCpb(cpb))
    }

    // ---- access to a partition ----

    predicate IsPart(x: int)
      requires spt.partitions <= MAX_PARTITIONS
      reads this`spt
    {
      0 <= x < spt.partitions
    }

    method ReadPart(x: int, off: int, n: nat) returns (ok: bool, data: seq<byte>)
      requires spt.partitions <= MAX_PARTITIONS
      modifies flash`faults
      ensures flash.faults >= old(flash.faults)
      ensures ok ==> IsPart(x) && CanRead(spt.part[x], |flash.mem|, off, n)
      ensures ok ==> data == flash.mem[spt.part[x].offset + off..spt.part[x].offset + off + n]
      ensures flash.faults == old(flash.faults) && IsPart(x) && CanRead(spt.part[x], |flash.mem|, off, n) ==> ok
    {
      if !IsPart(x) || !Within(spt.part[x], off, n) {
        return false, [];
      }
      ok, data := flash.Read(spt.part[x].offset + off, n);
    }

    method WritePart(x: int, off: int, data: seq<byte>) returns (ok: bool)
      requires spt.partitions <= MAX_PARTITIONS
      modifies flash
      ensures flash.faults >= old(flash.faults) && |flash.mem| == old(|flash.mem|)
      ensures ok || flash.mem != old(flash.mem) ==> IsPart(x) && CanWrite(spt.part[x], |flash.mem|, off, |data|)
      ensures ok ==> flash.mem == Programmed(old(flash.mem), spt.part[x].offset + off, data)
      ensures !ok && flash.mem != old(flash.mem) ==>
        TornProgram(old(flash.mem), flash.mem, spt.part[x].offset + off, data)
      ensures flash.faults == old(flash.faults) && IsPart(x) && CanWrite(spt.part[x], |flash.mem|, off, |data|) ==> ok
    {
      if !IsPart(x) || !Within(spt.part[x], off, |data|) {
        return false;
      }
      ok := flash.Write(spt.part[x].offset + off, data);
    }

    method ErasePart(x: int) returns (ok: bool)
      requires spt.partitions <= MAX_PARTITIONS
      modifies flash
      ensures flash.faults >= old(flash.faults) && |flash.mem| == old(|flash.mem|)
      ensures ok || flash.mem != old(flash.mem) ==> IsPart(x) && CanErase(spt.part[x], |flash.mem|)
      ensures ok ==> flash.mem == Erased(old(flash.mem), spt.part[x].offset, spt.part[x].length)
      ensures !ok && flash.mem != old(flash.mem) ==>
        exists k: nat ::
          k <= spt.part[x].length && k % PAGE == 0 && flash.mem == Erased(old(flash.mem), spt.part[x].offset, k)
      ensures flash.faults == old(flash.faults) && IsPart(x) && CanErase(spt.part[x], |flash.mem|) ==> ok
    {
      if !IsPart(x) || spt.part[x].offset >= 0x8000_0000_0000_0000 {
        return false;
      }
      ok := flash.Erase(spt.part[x].offset, spt.part[x].length);
    }

    // ---- rewriting the CPB copies ----

    // the erase that every rewrite starts with
    method StartRewrite(x: nat, ghost t: Table) returns (ok: bool)
      requires spt.partitions <= MAX_PARTITIONS && x < spt.partitions && Magic(t) != BLANK_MAGIC
      requires TablePart(spt.part[x], |flash.mem|) && |flash.mem| < MAX_FLASH
      modifies flash
      ensures flash.faults >= old(flash.faults) && |flash.mem| == old(|flash.mem|)
      ensures ok ==> spt.part[x].offset + spt.part[x].length <= old(|flash.mem|)
      ensures ok ==> flash.mem == Erased(old(flash.mem), spt.part[x].offset, spt.part[x].length)
      ensures !ok ==> Rewrote(old(flash.mem), flash.mem, spt.part[x].offset, spt.part[x].length, t, false)
      ensures flash.faults == old(flash.faults) ==> ok
    {
      hide Rewrote, CanErase, Magic, Erased;
      ghost var m, p := flash.mem, spt.part[x];
      TablePartAccess(p, |m|);
      ok := ErasePart(x);
      if !ok {
        StoppedInErase(m, flash.mem, p.offset, p.length, t);
      }
    }

    // erase, table without magic, magic: the sequence writeback_cpb and load_cpb share
    method RewriteCpb(x: nat) returns (ok: bool)
      requires spt.partitions <= MAX_PARTITIONS && x < spt.partitions
      requires TablePart(spt.part[x], |flash.mem|) && |flash.mem| < MAX_FLASH && cpb.magic == CPB_MAGIC
      modifies this`cpb, flash
      ensures flash.faults >= old(flash.faults)
      ensures |flash.mem| == old(|flash.mem|)
      ensures Rewrote(old(flash.mem), flash.mem, spt.part[x].offset, spt.part[x].length, EncCpb(old(cpb)), ok)
      ensures ok ==> cpb == old(cpb)
      ensures flash.faults == old(flash.faults) ==> ok
    {
      hide Rewrote, CanWrite, CanErase, EncCpb, TornProgram, Programmed, Magic, Erased;
      ghost var m, p, t := flash.mem, spt.part[x], EncCpb(cpb);
      TablePartAccess(p, |m|);
      CpbMagicBytes(cpb);
      ok := StartRewrite(x, t);
      if !ok {
        return;
      }
      RewriteFinished(m, p.offset, p.length, t);
      ghost var m1 := flash.mem;
      cpb := cpb.(magic := BLANK_MAGIC);
      ok := WritePart(x, 0, EncCpb(cpb));
      if !ok {
        StoppedInBody(m, m1, flash.mem, p.offset, p.length, t);
        return;
      }
      ghost var m2 := flash.mem;
      cpb := cpb.(magic := CPB_MAGIC);
      ok := WritePart(x, 0, EncCpb(cpb)[..4]);
      if !ok {
        StoppedInMagic(m, m2, flash.mem, p.offset, p.length, t);
      }
    }

    // ---- loading the CPB ----

    method CheckCpb() returns (ok: bool)
      requires spt.partitions <= MAX_PARTITIONS
      ensures ok <==> CpbOk(cpb.slots, spt)
    {
      for x := 0 to CPB_NSLOTS
        invariant forall i :: 0 <= i < x ==> PointerOk(cpb.slots[i], spt)
      {
        if !IsLive(cpb.slots[x]) {
          continue;
        }
        var y := 0;
        while y < spt.partitions && cpb.slots[x] != spt.part[y].offset
          invariant 0 <= y <= spt.partitions
          invariant FirstAt(spt, cpb.slots[x], 0) == FirstAt(spt, cpb.slots[x], y)
        {
          y := y + 1;
        }
        if y >= spt.partitions || spt.part[y].Reserved() {
          return false;
        }
      }
      return true;
    }

    // one copy: read into RAM, then magic, pointer offset and entries checked
    method ReadCpbCopy(x: nat) returns (good: bool)
      requires spt.partitions <= MAX_PARTITIONS && x < spt.partitions
      requires TablePart(spt.part[x], |flash.mem|) && |flash.mem| < MAX_FLASH
      modifies this`cpb, flash`faults
      ensures flash.faults >= old(flash.faults)
      ensures good ==> CpbHeaderOk(DecCpb(At(flash.mem, spt.part[x].offset))) && cpb.magic == CPB_MAGIC
      ensures good ==>
        CpbGood(At(flash.mem, spt.part[x].offset), spt) && EncCpb(cpb) == At(flash.mem, spt.part[x].offset)
      ensures flash.faults == old(flash.faults) && CpbGood(At(flash.mem, spt.part[x].offset), spt) ==> good
    {
      hide CpbOk, CanRead;
      TablePartAccess(spt.part[x], |flash.mem|);
      var ok, data := ReadPart(x, 0, TABLE);
      good := false;
      if ok {
        cpb := DecCpb(data);
        CpbBytesRoundTrip(data);
        if CpbHeaderOk(cpb) {
          good := CheckCpb();
        }
      }
    }

    method FindCpbParts()
      requires ValidSpt()
      modifies this`cpb0Part, this`cpb1Part
      ensures cpb0Part == IndexNamed(spt.part, CPB0) && cpb1Part == IndexNamed(spt.part, CPB1)
    {
      hide PartsOk, Layout;
      TablesAt(spt, CPB0, CPB1, spt0Address, spt1Address, |flash.mem|);
      cpb0Part, cpb1Part := 0xFFFF_FFFF, 0xFFFF_FFFF;
      ghost var x0, x1 := IndexNamed(spt.part, CPB0), IndexNamed(spt.part, CPB1);
      var x := 0;
      while x < spt.partitions && !(cpb0Part < spt.partitions && cpb1Part < spt.partitions)
        invariant 0 <= x <= spt.partitions
        invariant cpb0Part == if x > x0 then x0 else 0xFFFF_FFFF
        invariant cpb1Part == if x > x1 then x1 else 0xFFFF_FFFF
      {
        if CStr(spt.part[x].name) == CPB0 {
          cpb0Part := x;
        } else if CStr(spt.part[x].name) == CPB1 {
          cpb1Part := x;
        }
        x := x + 1;
      }
    }

    method CheckBothCpb() returns (same: bool)
      requires spt.partitions <= MAX_PARTITIONS && cpb0Part < spt.partitions && cpb1Part < spt.partitions
      requires TablePart(spt.part[cpb0Part], |flash.mem|) && TablePart(spt.part[cpb1Part], |flash.mem|)
      requires |flash.mem| < MAX_FLASH
      modifies flash`faults
      ensures flash.faults >= old(flash.faults)
      ensures same ==> At(flash.mem, spt.part[cpb0Part].offset) == At(flash.mem, spt.part[cpb1Part].offset)
      ensures flash.faults == old(flash.faults) ==>
        (same <==> At(flash.mem, spt.part[cpb0Part].offset) == At(flash.mem, spt.part[cpb1Part].offset))
    {
      hide CanRead;
      TablePartAccess(spt.part[cpb0Part], |flash.mem|);
      TablePartAccess(spt.part[cpb1Part], |flash.mem|);
      var ok, data0 := ReadPart(cpb0Part, 0, TABLE);
      if !ok {
        return false;
      }
      var ok', data1 := ReadPart(cpb1Part, 0, TABLE);
      return ok' && data0 == data1;
    }

    // the second read of CPB1
    method ReadCpb1Again() returns (ok: bool)
      requires spt.partitions <= MAX_PARTITIONS && cpb1Part < spt.partitions
      requires TablePart(spt.part[cpb1Part], |flash.mem|) && |flash.mem| < MAX_FLASH
      requires CpbHeaderOk(DecCpb(At(flash.mem, spt.part[cpb1Part].offset)))
      modifies this`cpb, flash`faults
      ensures flash.faults >= old(flash.faults) && (flash.faults == old(flash.faults) ==> ok)
      ensures ok ==> cpb.magic == CPB_MAGIC && EncCpb(cpb) == At(flash.mem, spt.part[cpb1Part].offset)
    {
      hide CanRead;
      TablePartAccess(spt.part[cpb1Part], |flash.mem|);
      var data;
      ok, data := ReadPart(cpb1Part, 0, TABLE);
      if ok {
        cpb := DecCpb(data);
        CpbBytesRoundTrip(data);
        ok := cpb.magic == CPB_MAGIC && cpb.ptrOffset == CPB_IMAGE_PTR_OFFSET;
      }
    }

    // CPB1 is the only good copy: load it again and rewrite CPB0 from it
    method RestoreCpb0(ghost f: nat) returns (ok: bool)
      requires ValidSpt() && f <= flash.faults
      requires cpb0Part == IndexNamed(spt.part, CPB0) && cpb1Part == IndexNamed(spt.part, CPB1)
      requires Holds(flash.mem, Cpb0(), Cpb1()) && CpbCheck(spt)(At(flash.mem, Cpb1().offset))
      requires CpbHeaderOk(DecCpb(At(flash.mem, Cpb1().offset)))
      requires flash.faults == f ==> !CpbCheck(spt)(At(flash.mem, Cpb0().offset))
      modifies this`cpb, flash
      ensures ValidSpt() && flash.faults >= old(flash.faults)
      ensures LoadSpec(old(flash.mem), flash.mem, Cpb0(), Cpb1(), CpbCheck(spt), EncCpb(cpb), ok, flash.faults == f)
      ensures !Loads(old(flash.mem), Cpb0(), Cpb1(), CpbCheck(spt)).NoneGood?
      ensures flash.faults == old(flash.faults) ==> ok
      ensures ok ==> EncCpb(cpb) == old(At(flash.mem, Cpb1().offset))
    {
      hide PartsOk, Layout, CpbGood, LoadSpec, Rewrote, CanRead, CStr, OnlyIn, Loads, IndexNamed, Apart;
      TablesAt(spt, CPB0, CPB1, spt0Address, spt1Address, |flash.mem|);
      ghost var m, p, q, chk := flash.mem, Cpb0(), Cpb1(), CpbCheck(spt);
      ok := ReadCpb1Again();
      if ok {
        ghost var t := EncCpb(cpb);
        ok := RewriteCpb(cpb0Part);
        RepairedFirst(m, flash.mem, p, q, chk, t, EncCpb(cpb), ok, flash.faults == f);
      } else {
        LoadedUnchanged(m, p, q, chk, EncCpb(cpb), ok, flash.faults == f);
      }
    }

    // what load_cpb does once both copies have been read and checked
    method SettleCpb(good0: bool, good1: bool, ghost f: nat) returns (ok: bool)
      requires ValidSpt() && f <= flash.faults
      requires cpb0Part == IndexNamed(spt.part, CPB0) && cpb1Part == IndexNamed(spt.part, CPB1)
      requires Holds(flash.mem, Cpb0(), Cpb1())
      requires good0 ==>
        CpbCheck(spt)(At(flash.mem, Cpb0().offset)) && EncCpb(cpb) == At(flash.mem, Cpb0().offset)
        && cpb.magic == CPB_MAGIC
      requires good1 ==>
        CpbCheck(spt)(At(flash.mem, Cpb1().offset)) && CpbHeaderOk(DecCpb(At(flash.mem, Cpb1().offset)))
      requires flash.faults == f && !good0 ==> !CpbCheck(spt)(At(flash.mem, Cpb0().offset))
      requires flash.faults == f && !good1 ==> !CpbCheck(spt)(At(flash.mem, Cpb1().offset))
      modifies this`cpb, this`cpbCorrupted, flash
      ensures ValidSpt() && flash.faults >= old(flash.faults)
      ensures LoadSpec(old(flash.mem), flash.mem, Cpb0(), Cpb1(), CpbCheck(spt), EncCpb(cpb), ok, flash.faults == f)
      ensures ok ==> cpbCorrupted == old(cpbCorrupted)
      ensures old(cpbCorrupted) || Loads(old(flash.mem), Cpb0(), Cpb1(), CpbCheck(spt)).NoneGood? ==> cpbCorrupted
      ensures flash.faults == f ==> cpbCorrupted == (old(cpbCorrupted) || !ok)
      ensures good0 != good1 && flash.faults == old(flash.faults) ==>
        ok && EncCpb(cpb) == old(At(flash.mem, if good0 then Cpb0().offset else Cpb1().offset))
    {
      hide PartsOk, Layout, CpbGood, LoadSpec, Rewrote, CStr, OnlyIn, Loads, IndexNamed;
      TablesAt(spt, CPB0, CPB1, spt0Address, spt1Address, |flash.mem|);
      ghost var m, p, q, chk := flash.mem, Cpb0(), Cpb1(), CpbCheck(spt);
      if good0 && good1 {
        ok := CheckBothCpb();
        LoadedUnchanged(m, p, q, chk, EncCpb(cpb), ok, flash.faults == f);
        cpbCorrupted := cpbCorrupted || !ok;
      } else if good0 {
        ghost var t := EncCpb(cpb);
        ok := RewriteCpb(cpb1Part);
        RepairedSecond(m, flash.mem, p, q, chk, t, EncCpb(cpb), ok, flash.faults == f);
      } else if good1 {
        ok := RestoreCpb0(f);
      } else {
        ok := false;
        LoadedUnchanged(m, p, q, chk, EncCpb(cpb), ok, flash.faults == f);
        cpbCorrupted := true;
      }
    }

    /** Reads and checks both copies, keeps the one it settles on in RAM and repairs a bad one. */
    method LoadCpb() returns (ok: bool)
      requires ValidSpt()
      modifies this`cpb, this`cpbCorrupted, this`cpb0Part, this`cpb1Part, flash
      ensures ValidSpt() && flash.faults >= old(flash.faults)
      ensures LoadSpec(old(flash.mem), flash.mem, Cpb0(), Cpb1(), CpbCheck(spt), EncCpb(cpb), ok,
                       flash.faults == old(flash.faults))
      ensures ok ==> cpbCorrupted == old(cpbCorrupted)
      ensures old(cpbCorrupted) || Loads(old(flash.mem), Cpb0(), Cpb1(), CpbCheck(spt)).NoneGood? ==> cpbCorrupted
      ensures flash.faults == old(flash.faults) ==> cpbCorrupted == (old(cpbCorrupted) || !ok)
    {
      hide PartsOk, Layout, CpbGood, LoadSpec, CStr, OnlyIn, Loads, IndexNamed;
      TablesAt(spt, CPB0, CPB1, spt0Address, spt1Address, |flash.mem|);
      FindCpbParts();
      ghost var f := flash.faults;
      var good1 := ReadCpbCopy(cpb1Part);
      var good0 := ReadCpbCopy(cpb0Part);
      ok := SettleCpb(good0, good1, f);
    }

    // load_cpb's reads, that of CPB0 or that of CPB1 failing
    method ReadWithout(first: bool) returns (good: bool)
      requires ValidSpt() && CpbFound() && CpbGood(At(flash.mem, if first then Cpb1().offset else Cpb0().offset), spt)
      modifies this`cpb, flash`faults
      ensures flash.faults > old(flash.faults)
      ensures var x := if first then cpb1Part as nat else cpb0Part as nat;
        && (good ==> CpbHeaderOk(DecCpb(At(flash.mem, spt.part[x].offset))) && cpb.magic == CPB_MAGIC)
        && (good ==>
              CpbGood(At(flash.mem, spt.part[x].offset), spt) && EncCpb(cpb) == At(flash.mem, spt.part[x].offset))
      ensures flash.faults == old(flash.faults) + 1 ==> good
    {
      hide PartsOk, Layout, CpbGood, CStr, IndexNamed;
      if first {
        good := ReadCpbCopy(cpb1Part);
        flash.Miss();
      } else {
        flash.Miss();
        good := ReadCpbCopy(cpb0Part);
      }
    }

    // what FindCpbParts finds
    ghost predicate CpbFound()
      reads this, flash
    {
      && spt.partitions <= MAX_PARTITIONS && |flash.mem| < MAX_FLASH
      && cpb0Part == IndexNamed(spt.part, CPB0) && cpb1Part == IndexNamed(spt.part, CPB1)
      && cpb0Part < spt.partitions && cpb1Part < spt.partitions
      && TablePart(spt.part[cpb0Part], |flash.mem|) && TablePart(spt.part[cpb1Part], |flash.mem|)
    }

    /** load_cpb with one failed read, that of CPB0 or that of CPB1, and two good copies that differ. A load
        that reads both reports the mismatch; this one takes the missed copy for a bad one and overwrites it
        with the other, so that either table can win and nothing is reported. */
    method LoadCpbMissing(first: bool, ghost winner: Table) returns (ok: bool)
      requires ValidSpt() && !cpbCorrupted
      requires Loads(flash.mem, Cpb0(), Cpb1(), CpbCheck(spt)).Mismatch?
      requires winner == At(flash.mem, if first then Cpb1().offset else Cpb0().offset)
      modifies this`cpb, this`cpbCorrupted, this`cpb0Part, this`cpb1Part, flash
      ensures flash.faults > old(flash.faults)
      ensures flash.faults == old(flash.faults) + 1 ==>
        ok && !cpbCorrupted && EncCpb(cpb) == winner && BothAre(flash.mem, Cpb0(), Cpb1(), winner)
    {
      hide PartsOk, Layout, CpbGood, LoadSpec, CStr, OnlyIn, IndexNamed, Loads, TablePart, BothAre, EncCpb;
      TablesAt(spt, CPB0, CPB1, spt0Address, spt1Address, |flash.mem|);
      MismatchMeans(flash.mem, Cpb0(), Cpb1(), CpbCheck(spt));
      FindCpbParts();
      ghost var m, f := flash.mem, flash.faults;
      var good := ReadWithout(first);
      ok := SettleCpb(!first && good, first && good, f);
      if ok {
        LoadedBoth(m, flash.mem, Cpb0(), Cpb1(), CpbCheck(spt), EncCpb(cpb), flash.faults == f);
      }
    }

    // ---- writing the CPB ----

    /** Rewrites both copies, each as erase, body, magic. A stop leaves each copy old, new or
        without magic, and at most one of them incomplete. */
    method WritebackCpb() returns (ok: bool)
      requires ValidSpt() && cpb.magic == CPB_MAGIC
      modifies this`cpb, flash
      ensures ValidSpt() && flash.faults >= old(flash.faults)
      ensures WroteBoth(old(flash.mem), flash.mem, Cpb0(), Cpb1(), EncCpb(old(cpb)), ok)
      ensures ok ==> cpb == old(cpb)
      ensures flash.faults == old(flash.faults) ==> ok
    {
      hide PartsOk, Layout, OnlyIn, Progress, WroteBoth, Rewrote, IndexNamed;
      TablesAt(spt, CPB0, CPB1, spt0Address, spt1Address, |flash.mem|);
      ghost var m, p, q, t, c := flash.mem, Cpb0(), Cpb1(), EncCpb(cpb), cpb;
      ghost var x0, x1 := IndexNamed(spt.part, CPB0), IndexNamed(spt.part, CPB1);
      NoProgress(m, p, q, t);
      var updates := 0;
      for x := 0 to spt.partitions
        invariant |flash.mem| == |m| && flash.faults >= old(flash.faults) && cpb == c
        invariant Progress(m, flash.mem, p, q, t, x > x0, x > x1)
        invariant updates == (if x > x0 then 1 else 0) + (if x > x1 then 1 else 0)
      {
        if CStr(spt.part[x].name) != CPB0 && CStr(spt.part[x].name) != CPB1 {
          continue;
        }
        ghost var m1 := flash.mem;
        ok := RewriteCpb(x);
        BothSteps(m, m1, flash.mem, p, q, t, x > x0, x > x1, x == x0, ok);
        if !ok {
          return;
        }
        updates := updates + 1;
      }
      BothDone(m, flash.mem, p, q, t);
      ok := updates == 2;
    }

    // the table in RAM programmed over both copies of `before`
    method ProgramBoth(ghost before: Table) returns (ok: bool)
      requires ValidSpt() && Holds(flash.mem, Cpb0(), Cpb1()) && OnlyClears(before, EncCpb(cpb))
      requires At(flash.mem, Cpb0().offset) == before && At(flash.mem, Cpb1().offset) == before
      modifies flash
      ensures ValidSpt() && flash.faults >= old(flash.faults)
      ensures UpdatedBoth(old(flash.mem), flash.mem, Cpb0(), Cpb1(), before, EncCpb(cpb), ok)
      ensures flash.faults == old(flash.faults) ==> ok
    {
      hide PartsOk, Layout, OnlyIn, Progress, UpdatedBoth, IndexNamed, EncCpb, OnlyClears, CanWrite, CStr, TornProgram,
        At, Apart;
      TablesAt(spt, CPB0, CPB1, spt0Address, spt1Address, |flash.mem|);
      ghost var m, p, q, t := flash.mem, Cpb0(), Cpb1(), EncCpb(cpb);
      ghost var x0, x1 := IndexNamed(spt.part, CPB0), IndexNamed(spt.part, CPB1);
      TablePartAccess(p, |m|);
      TablePartAccess(q, |m|);
      NoProgress(m, p, q, t);
      var updates := 0;
      for x := 0 to spt.partitions
        invariant |flash.mem| == |m| && flash.faults >= old(flash.faults)
        invariant Progress(m, flash.mem, p, q, t, x > x0, x > x1)
        invariant updates == (if x > x0 then 1 else 0) + (if x > x1 then 1 else 0)
      {
        if CStr(spt.part[x].name) != CPB0 && CStr(spt.part[x].name) != CPB1 {
          continue;
        }
        ghost var m1 := flash.mem;
        ok := WritePart(x, 0, EncCpb(cpb));
        UpdateStep(m, m1, flash.mem, p, q, before, t, x > x0, x > x1, x == x0, ok);
        if !ok {
          return;
        }
        updates := updates + 1;
      }
      UpdatesDone(m, flash.mem, p, q, before, t);
      ok := updates == 2;
    }

    /** Programs one entry into both copies without erasing: refused unless it only clears bits. */
    method UpdateCpb(slot: nat, ptr: u64) returns (ok: bool)
      requires ValidSpt() && CpbSynced() && slot < CPB_NSLOTS
      modifies this`cpb, flash
      ensures ValidSpt() && flash.faults >= old(flash.faults)
      ensures cpb == if And(old(cpb).slots[slot], ptr) == ptr then WithEntry(old(cpb), slot, ptr) else old(cpb)
      ensures UpdatedBoth(old(flash.mem), flash.mem, Cpb0(), Cpb1(), EncCpb(old(cpb)), EncCpb(cpb), ok)
      ensures flash.faults == old(flash.faults) ==> (ok <==> And(old(cpb).slots[slot], ptr) == ptr)
    {
      hide PartsOk, Layout, UpdatedBoth, IndexNamed, CpbGood, EncCpb, OnlyClears;
      TablesAt(spt, CPB0, CPB1, spt0Address, spt1Address, |flash.mem|);
      ghost var before := EncCpb(cpb);
      if And(cpb.slots[slot], ptr) != ptr {
        NotUpdated(flash.mem, Cpb0(), Cpb1(), before);
        return false;
      }
      EntryUpdateOnlyClears(cpb, slot, ptr);
      cpb := cpb.(slots := cpb.slots[slot := ptr]);
      ok := ProgramBoth(before);
    }

    // ---- boot priorities ----

    // the SPT is sound, both CPB copies are the table in RAM, and that table is well formed
    ghost predicate ValidCpb()
      reads this, flash`mem
    {
      ValidSpt() && CpbSynced() && Wf(cpb.slots)
    }

    /** The 1-based position in the boot order, 0 if absent, negative for a bad partition. */
    method PriorityGet(x: int) returns (priority: int)
      requires spt.partitions <= MAX_PARTITIONS
      ensures priority < 0 <==> !IsPart(x)
      ensures IsPart(x) ==> var order := Prio(cpb.slots); var v := spt.part[x].offset;
        priority == if v in order then IndexOf(order, v) + 1 else 0
    {
      hide Prio, IndexOf;
      if !IsPart(x) {
        return -1;
      }
      var v := spt.part[x].offset;
      ghost var s := cpb.slots;
      priority := 0;
      var n := CPB_NSLOTS;
      PrioNoLive(s[CPB_NSLOTS..]);
      while n > 0
        invariant 0 <= n <= CPB_NSLOTS
        invariant priority == |Prio(s[n..])| && v !in Prio(s[n..])
      {
        PrioPushed(s, n - 1);
        if IsLive(cpb.slots[n - 1]) {
          priority := priority + 1;
          if cpb.slots[n - 1] == v {
            PrioPlace(s, n - 1, v);
            return;
          }
        }
        n := n - 1;
      }
      assert s[0..] == s;
      return 0;
    }

    // Moves the live entries to the front, adds v behind them and erases the rest.
    method CompressAndAdd(v: u64) returns (room: bool)
      modifies this`cpb
      ensures room <==> |Live(old(cpb).slots)| < CPB_NSLOTS
      ensures room ==> cpb == old(cpb).(slots := Compacted(old(cpb).slots, v))
    {
      var slots: seq<u64> := cpb.slots;
      ghost var s := slots;
      var y := 0;
      assert s[..0] == [];
      for x := 0 to CPB_NSLOTS
        invariant 0 <= y <= x && |slots| == CPB_NSLOTS
        invariant slots[..y] == Live(s[..x]) && slots[x..] == s[x..]
      {
        assert s[..x + 1][..x] == s[..x];
        assert slots[x] == slots[x..][0] == s[x];
        if IsLive(slots[x]) {
          slots := slots[y := slots[x]];
          y := y + 1;
        }
      }
      assert s[..CPB_NSLOTS] == s;
      if y >= CPB_NSLOTS {
        return false;
      }
      slots := slots[y := v];
      y := y + 1;
      while y < CPB_NSLOTS
        invariant |Live(s)| < y <= CPB_NSLOTS == |slots|
        invariant slots[..y] == Compacted(s, v)[..y]
      {
        slots := slots[y := ERASED_ENTRY];
        y := y + 1;
      }
      assert slots[..CPB_NSLOTS] == slots;
      cpb := cpb.(slots := slots);
      return true;
    }

    // load_cpb after both copies have been written with c, which check_cpb accepts or not
    method ReloadCpb(ghost c: Cpb) returns (ok: bool)
      requires ValidSpt() && BothAre(flash.mem, Cpb0(), Cpb1(), EncCpb(c))
      modifies this`cpb, this`cpbCorrupted, this`cpb0Part, this`cpb1Part, flash
      ensures ValidSpt() && flash.faults >= old(flash.faults)
      ensures OnlyIn(old(flash.mem), flash.mem, Cpb0(), Cpb1())
      ensures ok ==> CpbSynced() && cpb == c && cpbCorrupted == old(cpbCorrupted)
      ensures CpbGood(EncCpb(c), spt) ==>
        LoadOutcome(At(flash.mem, Cpb0().offset), At(flash.mem, Cpb1().offset), CpbCheck(spt)) == Use(EncCpb(c))
      ensures CpbGood(EncCpb(c), spt) && flash.faults == old(flash.faults) ==> ok
      ensures !CpbGood(EncCpb(c), spt) ==> !ok && cpbCorrupted && flash.mem == old(flash.mem)
    {
      hide PartsOk, Layout, CpbGood, LoadSpec, EncCpb, CStr, OnlyIn, IndexNamed, Loads;
      ghost var m := flash.mem;
      ok := LoadCpb();
      if CpbGood(EncCpb(c), spt) {
        GoodCpbMagic(c, spt);
        LoadedNew(m, flash.mem, Cpb0(), Cpb1(), CpbCheck(spt), EncCpb(c), EncCpb(cpb), ok,
          flash.faults == old(flash.faults));
      } else {
        LoadedBad(m, flash.mem, Cpb0(), Cpb1(), CpbCheck(spt), EncCpb(c), EncCpb(cpb), ok,
          flash.faults == old(flash.faults));
      }
      LoadFacts(m, flash.mem, Cpb0(), Cpb1(), CpbCheck(spt), EncCpb(cpb), ok, flash.faults == old(flash.faults));
      CpbRoundTrip(c);
      CpbRoundTrip(cpb);
    }

    // One entry changed in place in both copies, then loaded again, also when the change failed: RAM is then
    // what flash holds, or the corruption is flagged. f counts the faults before the load.
    method ChangeEntry(n: nat, v: u64) returns (ok: bool, ghost updated: bool, ghost f: nat)
      requires ValidCpb() && n < CPB_NSLOTS && And(cpb.slots[n], v) == v
      modifies this`cpb, this`cpbCorrupted, this`cpb0Part, this`cpb1Part, flash
      ensures ValidSpt() && flash.faults >= old(flash.faults)
      ensures OnlyIn(old(flash.mem), flash.mem, Cpb0(), Cpb1())
      ensures ok ==> CpbSynced() && cpbCorrupted == old(cpbCorrupted) && cpb == WithEntry(old(cpb), n, v)
      ensures CpbGood(EncCpb(WithEntry(old(cpb), n, v)), spt) ==>
        Changed(old(flash.mem), flash.mem, Cpb0(), Cpb1(), EncCpb(old(cpb)), EncCpb(WithEntry(old(cpb), n, v)),
          CpbCheck(spt), ok)
      ensures CpbGood(EncCpb(WithEntry(old(cpb), n, v)), spt) && flash.faults == old(flash.faults) ==> ok
      ensures !CpbGood(EncCpb(WithEntry(old(cpb), n, v)), spt) ==> !ok
      ensures !CpbGood(EncCpb(WithEntry(old(cpb), n, v)), spt) && flash.faults == old(flash.faults) ==>
        cpbCorrupted && BothAre(flash.mem, Cpb0(), Cpb1(), EncCpb(WithEntry(old(cpb), n, v)))
      ensures old(flash.faults) <= f <= flash.faults && (ok ==> updated)
      ensures flash.faults == f && CpbGood(EncCpb(WithEntry(old(cpb), n, v)), spt) ==>
        if updated then ok else CpbSynced() || cpbCorrupted
    {
      hide PartsOk, Layout, CpbGood, EncCpb, CStr, OnlyIn, IndexNamed, UpdatedBoth, LoadSpec, Changed, OnlyClears,
        PartNamed;
      ghost var m, p, q, before, t := flash.mem, Cpb0(), Cpb1(), EncCpb(cpb), EncCpb(WithEntry(cpb, n, v));
      EntryUpdateOnlyClears(cpb, n, v);
      ok := UpdateCpb(n, v);
      updated, f := ok, flash.faults;
      ghost var m1, f1 := flash.mem, flash.faults;
      UpdatedFacts(m, m1, p, q, before, EncCpb(cpb), ok);
      if !ok {
        var reloaded := LoadCpb();
        LoadFacts(m1, flash.mem, p, q, CpbCheck(spt), EncCpb(cpb), reloaded, flash.faults == f1);
        if reloaded {
          LoadedBoth(m1, flash.mem, p, q, CpbCheck(spt), EncCpb(cpb), flash.faults == f1);
        }
        if CpbGood(t, spt) {
          GoodCpbMagic(WithEntry(old(cpb), n, v), spt);
          ChangeStopped(m, m1, flash.mem, p, q, before, t, CpbCheck(spt), EncCpb(cpb), reloaded, flash.faults == f1);
        }
        OnlyInTrans(m, m1, flash.mem, p, q);
      } else {
        ok := ReloadCpb(cpb);
        OnlyInTrans(m, m1, flash.mem, p, q);
        if CpbGood(t, spt) {
          ChangeLoaded(m, flash.mem, p, q, before, t, CpbCheck(spt), ok);
        }
      }
    }

    // priority_add's slow path: every entry is written
    method AddCompacting(v: u64) returns (ok: bool)
      requires ValidCpb() && |Live(cpb.slots)| < CPB_NSLOTS
      modifies this`cpb, this`cpbCorrupted, this`cpb0Part, this`cpb1Part, flash
      ensures ValidSpt() && flash.faults >= old(flash.faults)
      ensures OnlyIn(old(flash.mem), flash.mem, Cpb0(), Cpb1())
      ensures ok ==> CpbSynced() && cpbCorrupted == old(cpbCorrupted) && cpb == Compact(old(cpb), v)
      ensures CpbGood(EncCpb(Compact(old(cpb), v)), spt) ==>
        Committed(old(flash.mem), flash.mem, Cpb0(), Cpb1(), EncCpb(old(cpb)), EncCpb(Compact(old(cpb), v)),
          CpbCheck(spt), ok)
      ensures CpbGood(EncCpb(Compact(old(cpb), v)), spt) && flash.faults == old(flash.faults) ==> ok
      ensures !CpbGood(EncCpb(Compact(old(cpb), v)), spt) ==> !ok
      ensures !CpbGood(EncCpb(Compact(old(cpb), v)), spt) && flash.faults == old(flash.faults) ==>
        cpbCorrupted && BothAre(flash.mem, Cpb0(), Cpb1(), EncCpb(Compact(old(cpb), v)))
    {
      hide PartsOk, Layout, CpbGood, EncCpb, CStr, OnlyIn, IndexNamed, WroteBoth, Compacted, Live, Committed;
      ghost var m, p, q, before := flash.mem, Cpb0(), Cpb1(), EncCpb(cpb);
      SyncedMagic();
      ok := CompressAndAdd(v);
      if !ok {
        assert false;
      }
      ghost var c, t := cpb, EncCpb(cpb);
      ok := WritebackCpb();
      ghost var m1 := flash.mem;
      WroteFacts(m, m1, p, q, t, ok);
      if !ok {
        if CpbGood(t, spt) {
          GoodCpbMagic(c, spt);
          NotCommitted(m, m1, p, q, before, t, CpbCheck(spt));
        }
      } else {
        ok := ReloadCpb(cpb);
        OnlyInTrans(m, m1, flash.mem, p, q);
        if CpbGood(t, spt) {
          CommitReloaded(m, flash.mem, p, q, before, t, CpbCheck(spt), ok);
        }
      }
    }

    lemma SyncedMagic()
      requires ValidCpb()
      ensures CpbHeaderOk(cpb)
    {
      CpbRoundTrip(cpb);
    }

    /** Puts a partition first in the boot order: into the first erased entry, or by compacting. If a reserved
        partition comes first at its offset, the table written is refused in both copies by the load that
        follows, and the CPB counts as corrupted from then on. */
    method PriorityAdd(x: int) returns (ok: bool)
      requires ValidCpb()
      modifies this`cpb, this`cpbCorrupted, this`cpb0Part, this`cpb1Part, flash
      ensures ValidSpt() && flash.faults >= old(flash.faults)
      ensures OnlyIn(old(flash.mem), flash.mem, Cpb0(), Cpb1())
      ensures ok ==> IsPart(x) && CpbSynced() && cpbCorrupted == old(cpbCorrupted)
      ensures ok ==> HasRoom(old(cpb).slots) && cpb == old(cpb).(slots := Added(old(cpb).slots, spt.part[x].offset))
      ensures ok && (IsLive(spt.part[x].offset) ==> spt.part[x].offset !in old(cpb).slots) ==> ValidCpb()
      ensures IsPart(x) ==> HasRoom(old(cpb).slots)
      ensures IsPart(x) && PointerOk(spt.part[x].offset, spt) && Used(old(cpb).slots) == CPB_NSLOTS ==>
        Committed(old(flash.mem), flash.mem, Cpb0(), Cpb1(), EncCpb(old(cpb)),
          EncCpb(old(cpb).(slots := Added(old(cpb).slots, spt.part[x].offset))), CpbCheck(spt), ok)
      ensures IsPart(x) && PointerOk(spt.part[x].offset, spt) && Used(old(cpb).slots) < CPB_NSLOTS ==>
        Changed(old(flash.mem), flash.mem, Cpb0(), Cpb1(), EncCpb(old(cpb)),
          EncCpb(WithEntry(old(cpb), Used(old(cpb).slots), spt.part[x].offset)), CpbCheck(spt), ok)
      ensures IsPart(x) && !PointerOk(spt.part[x].offset, spt) ==> !ok
      ensures IsPart(x) && !PointerOk(spt.part[x].offset, spt) && flash.faults == old(flash.faults) ==>
        cpbCorrupted && BothAre(flash.mem, Cpb0(), Cpb1(),
                                EncCpb(old(cpb).(slots := Added(old(cpb).slots, spt.part[x].offset))))
      ensures flash.faults == old(flash.faults) ==> (ok <==> IsPart(x) && PointerOk(spt.part[x].offset, spt))
    {
      hide PartsOk, Layout, CpbGood, EncCpb, CStr, OnlyIn, IndexNamed, Compacted, Live, Wf, PointerOk, CpbOk, IndexOf,
        Committed, Changed, BothAre, PartNamed;
      if !IsPart(x) {
        OnlyInSelf(flash.mem, Cpb0(), Cpb1());
        return false;
      }
      var v := spt.part[x].offset;
      AddFacts(cpb, v, spt);
      var n := 0;
      while n < CPB_NSLOTS && cpb.slots[n] != ERASED_ENTRY
        invariant 0 <= n <= Used(cpb.slots)
      {
        n := n + 1;
      }
      if n < CPB_NSLOTS {
        ghost var updated, f;
        ok, updated, f := ChangeEntry(n, v);
      } else {
        ok := AddCompacting(v);
      }
    }

    /** Takes a partition out of the boot order by spending its entry. */
    method PriorityRemove(x: int) returns (ok: bool)
      requires ValidCpb()
      modifies this`cpb, this`cpbCorrupted, this`cpb0Part, this`cpb1Part, flash
      ensures ValidSpt() && flash.faults >= old(flash.faults)
      ensures OnlyIn(old(flash.mem), flash.mem, Cpb0(), Cpb1())
      ensures ok ==> IsPart(x) && ValidCpb() && cpbCorrupted == old(cpbCorrupted)
      ensures ok ==> cpb == old(cpb).(slots := Removed(old(cpb).slots, spt.part[x].offset))
      ensures IsPart(x) ==>
        Changed(old(flash.mem), flash.mem, Cpb0(), Cpb1(), EncCpb(old(cpb)),
          EncCpb(old(cpb).(slots := Removed(old(cpb).slots, spt.part[x].offset))), CpbCheck(spt), ok)
      ensures flash.faults == old(flash.faults) ==> (ok <==> IsPart(x))
    {
      hide PartsOk, Layout, CpbGood, EncCpb, CStr, OnlyIn, IndexNamed, Wf, IndexOf, Changed, OnlyClears, PartNamed,
        BothAre;
      if !IsPart(x) {
        OnlyInSelf(flash.mem, Cpb0(), Cpb1());
        return false;
      }
      var v := spt.part[x].offset;
      RemoveFacts(cpb, v, spt);
      var n := 0;
      while n < CPB_NSLOTS && cpb.slots[n] != v
        invariant 0 <= n <= IndexOf(cpb.slots, v)
      {
        n := n + 1;
      }
      if n < CPB_NSLOTS {
        ghost var updated, f;
        ok, updated, f := ChangeEntry(n, SPENT_ENTRY);
      } else {
        ok := ReloadSame();
      }
    }

    // load_cpb with nothing written
    method ReloadSame() returns (ok: bool)
      requires ValidCpb()
      modifies this`cpb, this`cpbCorrupted, this`cpb0Part, this`cpb1Part, flash
      ensures ValidSpt() && flash.faults >= old(flash.faults)
      ensures OnlyIn(old(flash.mem), flash.mem, Cpb0(), Cpb1())
      ensures ok ==> CpbSynced() && cpb == old(cpb) && cpbCorrupted == old(cpbCorrupted)
      ensures Changed(old(flash.mem), flash.mem, Cpb0(), Cpb1(), EncCpb(old(cpb)), EncCpb(old(cpb)), CpbCheck(spt), ok)
      ensures flash.faults == old(flash.faults) ==> ok
    {
      hide PartsOk, Layout, CpbGood, EncCpb, CStr, OnlyIn, IndexNamed, Changed;
      TablesAt(spt, CPB0, CPB1, spt0Address, spt1Address, |flash.mem|);
      ghost var m, t := flash.mem, EncCpb(cpb);
      AndSelfSeq(t);
      ok := ReloadCpb(cpb);
      ChangeLoaded(m, flash.mem, Cpb0(), Cpb1(), t, t, CpbCheck(spt), ok);
    }

    // ---- loading the SPT ----

    // entry x against every other entry
    method CheckEntry(x: nat) returns (ok: bool)
      requires spt.partitions <= MAX_PARTITIONS && x < spt.partitions
      ensures ok <==> forall y :: 0 <= y < spt.partitions ==> Distinct(spt, x, y)
    {
      hide CStr, Overlap;
      for y := 0 to spt.partitions
        invariant forall b :: 0 <= b < y ==> Distinct(spt, x, b)
      {
        if x != y && (CStr(spt.part[x].name) == CStr(spt.part[y].name) || Overlap(spt.part[x], spt.part[y])) {
          assert !Distinct(spt, x, y);
          return false;
        }
      }
      return true;
    }

    /** check_spt: the checksum, then every pair of entries, then the four required names. */
    method CheckSpt() returns (ok: bool)
      ensures ok <==> SptOk(spt, checksumEnabled)
    {
      hide SptCrc, CStr, Distinct;
      if spt.version > SPT_VERSION && checksumEnabled && SwapEndian32(spt.checksum) != SptCrc(spt) {
        return false;
      }
      if spt.partitions > MAX_PARTITIONS {
        return false;
      }
      ghost var ps := Parts(spt);
      var found0, found1, found2, found3 := false, false, false, false;
      for x := 0 to spt.partitions
        invariant forall a, b :: 0 <= a < x && 0 <= b < spt.partitions ==> Distinct(spt, a, b)
        invariant found0 <==> HasName(ps[..x], SPT0)
        invariant found1 <==> HasName(ps[..x], SPT1)
        invariant found2 <==> HasName(ps[..x], CPB0)
        invariant found3 <==> HasName(ps[..x], CPB1)
      {
        var distinct := CheckEntry(x);
        if !distinct {
          return false;
        }
        FoundNext(ps, x);
        if CStr(spt.part[x].name) == SPT0 {
          found0 := true;
        } else if CStr(spt.part[x].name) == SPT1 {
          found1 := true;
        } else if CStr(spt.part[x].name) == CPB0 {
          found2 := true;
        } else if CStr(spt.part[x].name) == CPB1 {
          found3 := true;
        }
      }
      HasAll(spt);
      return found0 && found1 && found2 && found3;
    }

    // one copy: read into RAM, then magic and checks; a failed read is reported apart
    method ReadSptCopy(address: u64) returns (read: bool, good: bool)
      requires TablePart(SptRegion(address), |flash.mem|)
      requires SptAssumption(At(flash.mem, address), checksumEnabled, spt0Address, spt1Address, |flash.mem|)
      modifies this`spt, flash`faults
      ensures flash.faults >= old(flash.faults)
      ensures flash.faults == old(flash.faults) ==> read
      ensures read ==> EncSpt(spt) == At(flash.mem, address)
      ensures read ==> (good <==> SptGood(At(flash.mem, address), checksumEnabled))
      ensures read && good ==> ValidSpt()
    {
      hide SptOk, Layout, PartsOk;
      var data;
      read, data := flash.Read(address, TABLE);
      good := false;
      if read {
        spt := DecSpt(data);
        SptBytesRoundTrip(data);
        if spt.magic == SPT_MAGIC {
          good := CheckSpt();
          if good {
            GoodParts(spt, checksumEnabled);
          }
        }
      }
    }

    // erase, table without magic, magic, at the address of one copy
    method RewriteSpt(address: u64) returns (ok: bool)
      requires TablePart(SptRegion(address), |flash.mem|) && spt.magic == SPT_MAGIC
      modifies this`spt, flash
      ensures flash.faults >= old(flash.faults)
      ensures |flash.mem| == old(|flash.mem|)
      ensures Rewrote(old(flash.mem), flash.mem, address, SPT_ERASE, EncSpt(old(spt)), ok)
      ensures ok ==> spt == old(spt)
      ensures flash.faults == old(flash.faults) ==> ok
    {
      hide Rewrote, TornProgram, Erasable, Writable, Magic;
      ghost var m, t := flash.mem, EncSpt(spt);
      SptAccess(address, |m|);
      SptMagicBytes(spt);
      ok := flash.Erase(address, SPT_ERASE);
      if !ok {
        StoppedInErase(m, flash.mem, address, SPT_ERASE, t);
        return;
      }
      RewriteFinished(m, address, SPT_ERASE, t);
      ghost var m1 := flash.mem;
      spt := spt.(magic := BLANK_MAGIC);
      ok := flash.Write(address, EncSpt(spt));
      if !ok {
        StoppedInBody(m, m1, flash.mem, address, SPT_ERASE, t);
        return;
      }
      ghost var m2 := flash.mem;
      spt := spt.(magic := SPT_MAGIC);
      ok := flash.Write(address, EncSpt(spt)[..4]);
      if !ok {
        StoppedInMagic(m, m2, flash.mem, address, SPT_ERASE, t);
      }
    }

    // load_spt's comparison of the two copies; a failed read counts as a difference
    method CheckBothSpt() returns (same: bool)
      requires SptPlaces(spt0Address, spt1Address, |flash.mem|)
      modifies flash`faults
      ensures flash.faults >= old(flash.faults)
      ensures same ==> At(flash.mem, spt0Address) == At(flash.mem, spt1Address)
      ensures flash.faults == old(flash.faults) ==> (same <==> At(flash.mem, spt0Address) == At(flash.mem, spt1Address))
    {
      var ok, data0 := flash.Read(spt0Address, TABLE);
      if !ok {
        return false;
      }
      var ok', data1 := flash.Read(spt1Address, TABLE);
      return ok' && data0 == data1;
    }

    // SPT1 is the only good copy: load it again and rewrite SPT0 from it
    method RestoreSpt0(ghost f: nat) returns (ok: bool)
      requires SptPlaces(spt0Address, spt1Address, |flash.mem|) && f <= flash.faults
      requires SptAssumption(At(flash.mem, spt1Address), checksumEnabled, spt0Address, spt1Address, |flash.mem|)
      requires SptGood(At(flash.mem, spt1Address), checksumEnabled)
      requires !SptGood(At(flash.mem, spt0Address), checksumEnabled)
      modifies this`spt, flash
      ensures flash.faults >= old(flash.faults)
      ensures LoadSpec(old(flash.mem), flash.mem, SptRegion(spt0Address), SptRegion(spt1Address),
                SptCheck(checksumEnabled), EncSpt(spt), ok, flash.faults == f)
      ensures ok ==> ValidSpt()
      ensures flash.faults == f ==> ok
    {
      hide SptOk, Layout, PartsOk, LoadSpec, Rewrote, EncSpt, SptAssumption;
      ghost var m, p, q, chk := flash.mem, SptRegion(spt0Address), SptRegion(spt1Address), SptCheck(checksumEnabled);
      var read, good := ReadSptCopy(spt1Address);
      ok := read && good;
      if ok {
        ghost var t := EncSpt(spt);
        ok := RewriteSpt(spt0Address);
        RepairedFirst(m, flash.mem, p, q, chk, t, EncSpt(spt), ok, flash.faults == f);
      } else {
        LoadedUnchanged(m, p, q, chk, EncSpt(spt), ok, flash.faults == f);
      }
    }

    // what load_spt does once both copies have been read and checked
    method SettleSpt(good0: bool, good1: bool, ghost f: nat) returns (ok: bool)
      requires SptPlaces(spt0Address, spt1Address, |flash.mem|) && f <= flash.faults
      requires SptAssumption(At(flash.mem, spt1Address), checksumEnabled, spt0Address, spt1Address, |flash.mem|)
      requires good0 <==> SptGood(At(flash.mem, spt0Address), checksumEnabled)
      requires good1 <==> SptGood(At(flash.mem, spt1Address), checksumEnabled)
      requires EncSpt(spt) == At(flash.mem, spt0Address) && (good0 ==> ValidSpt())
      modifies this`spt, this`sptCorrupted, flash
      ensures flash.faults >= old(flash.faults)
      ensures LoadSpec(old(flash.mem), flash.mem, SptRegion(spt0Address), SptRegion(spt1Address),
                SptCheck(checksumEnabled), EncSpt(spt), ok, flash.faults == f)
      ensures ok ==>
        Loads(old(flash.mem), SptRegion(spt0Address), SptRegion(spt1Address), SptCheck(checksumEnabled)).Use?
      ensures flash.mem != old(flash.mem) ==> good0 != good1
      ensures ok ==> ValidSpt() && sptCorrupted == old(sptCorrupted)
      ensures flash.faults == f ==> sptCorrupted == (old(sptCorrupted) || !ok)
    {
      hide SptOk, Layout, PartsOk, LoadSpec, Rewrote, EncSpt, SptGood, SptAssumption, Loads;
      ghost var m, p, q, chk := flash.mem, SptRegion(spt0Address), SptRegion(spt1Address), SptCheck(checksumEnabled);
      if good0 && good1 {
        ok := CheckBothSpt();
        LoadedUnchanged(m, p, q, chk, EncSpt(spt), ok, flash.faults == f);
        sptCorrupted := sptCorrupted || !ok;
      } else if good0 {
        ghost var t := EncSpt(spt);
        OneGoodLoads(m, p, q, chk);
        ok := RewriteSpt(spt1Address);
        RepairedSecond(m, flash.mem, p, q, chk, t, EncSpt(spt), ok, flash.faults == f);
      } else if good1 {
        OneGoodLoads(m, p, q, chk);
        ok := RestoreSpt0(f);
      } else {
        ok := false;
        LoadedUnchanged(m, p, q, chk, EncSpt(spt), ok, flash.faults == f);
        sptCorrupted := true;
      }
    }

    /** Reads and checks both copies, keeps the one it settles on in RAM and repairs a bad one. A read that
        fails is never taken for a bad copy: whatever fails, a load that succeeds settles on the determined
        table, and flash is written only if exactly one of the two copies is good. */
    method LoadSpt() returns (ok: bool)
      requires SptPlaces(spt0Address, spt1Address, |flash.mem|)
      requires SptAssumption(At(flash.mem, spt0Address), checksumEnabled, spt0Address, spt1Address, |flash.mem|)
      requires SptAssumption(At(flash.mem, spt1Address), checksumEnabled, spt0Address, spt1Address, |flash.mem|)
      modifies this`spt, this`sptCorrupted, flash
      ensures flash.faults >= old(flash.faults)
      ensures LoadSpec(old(flash.mem), flash.mem, SptRegion(spt0Address), SptRegion(spt1Address),
                SptCheck(checksumEnabled), EncSpt(spt), ok, flash.faults == old(flash.faults))
      ensures ok ==>
        Loads(old(flash.mem), SptRegion(spt0Address), SptRegion(spt1Address), SptCheck(checksumEnabled)).Use?
      ensures flash.mem != old(flash.mem) ==>
        SptGood(old(At(flash.mem, spt0Address)), checksumEnabled)
        != SptGood(old(At(flash.mem, spt1Address)), checksumEnabled)
      ensures SptLoaded(old(flash.mem), flash.mem, checksumEnabled, spt0Address, spt1Address)
      ensures ok ==> ValidSpt() && SptSynced() && sptCorrupted == old(sptCorrupted)
      ensures flash.faults == old(flash.faults) ==> sptCorrupted == (old(sptCorrupted) || !ok)
    {
      hide SptOk, Layout, PartsOk, LoadSpec, OnlyIn, EncSpt, SptGood, SptAssumption, Loads;
      ghost var m, f, p, q, chk := flash.mem, flash.faults, SptRegion(spt0Address), SptRegion(spt1Address),
        SptCheck(checksumEnabled);
      var read, good1 := ReadSptCopy(spt1Address);
      if !read {
        LoadedUnchanged(m, p, q, chk, EncSpt(spt), false, false);
        LoadedCalmly(m, m, p, q, chk, EncSpt(spt), false, false);
        return false;
      }
      var good0;
      read, good0 := ReadSptCopy(spt0Address);
      if !read {
        LoadedUnchanged(m, p, q, chk, EncSpt(spt), false, false);
        LoadedCalmly(m, m, p, q, chk, EncSpt(spt), false, false);
        return false;
      }
      ok := SettleSpt(good0, good1, f);
      LoadFacts(m, flash.mem, p, q, chk, EncSpt(spt), ok, flash.faults == f);
      LoadedCalmly(m, flash.mem, p, q, chk, EncSpt(spt), ok, flash.faults == f);
    }

    // ---- writing the SPT ----

    ghost function Spt0(): Part
      reads this`spt
    {
      PartNamed(spt, SPT0)
    }

    ghost function Spt1(): Part
      reads this`spt
    {
      PartNamed(spt, SPT1)
    }

    // the checksum over the table with checksum zero
    method SealTable()
      modifies this`spt
      ensures spt == Sealed(old(spt), checksumEnabled) && spt.magic == old(spt).magic
      ensures Sealed(spt, checksumEnabled) == spt
    {
      hide SptCrc;
      SealedTwice(spt, checksumEnabled);
      if spt.version > SPT_VERSION && checksumEnabled {
        spt := spt.(checksum := 0);
        spt := spt.(checksum := SwapEndian32(SptCrc(spt)));
      }
    }

    // erase, checksum, table without magic, magic: one iteration of writeback_spt
    method RewriteSptPart(x: nat) returns (ok: bool)
      requires spt.partitions <= MAX_PARTITIONS && x < spt.partitions && spt.magic == SPT_MAGIC
      requires TablePart(spt.part[x], |flash.mem|) && |flash.mem| < MAX_FLASH
      modifies this`spt, flash
      ensures flash.faults >= old(flash.faults)
      ensures |flash.mem| == old(|flash.mem|)
      ensures Rewrote(old(flash.mem), flash.mem, old(spt).part[x].offset, old(spt).part[x].length,
                EncSpt(Sealed(old(spt), checksumEnabled)), ok)
      ensures ok ==> spt == Sealed(old(spt), checksumEnabled)
      ensures flash.faults == old(flash.faults) ==> ok
    {
      hide Rewrote, TornProgram, CanWrite, CanErase, SptCrc, Magic, Sealed, EncSpt, Erased, Programmed, TablePart, LE,
        At;
      ghost var m, p, z := flash.mem, spt.part[x], Sealed(spt, checksumEnabled);
      ghost var t := EncSpt(z);
      TablePartAccess(p, |m|);
      TableLength(p, |m|);
      SealedParts(spt, checksumEnabled);
      SptMagicBytes(z);
      ok := StartRewrite(x, t);
      if !ok {
        return;
      }
      RewriteFinished(m, p.offset, p.length, t);
      ghost var m1 := flash.mem;
      SealTable();
      spt := spt.(magic := BLANK_MAGIC);
      ok := WritePart(x, 0, EncSpt(spt));
      if !ok {
        StoppedInBody(m, m1, flash.mem, p.offset, p.length, t);
        return;
      }
      ghost var m2 := flash.mem;
      spt := spt.(magic := SPT_MAGIC);
      ok := WritePart(x, 0, LE(spt.magic, 4));
      if !ok {
        StoppedInMagic(m, m2, flash.mem, p.offset, p.length, t);
      }
    }

    /** Seals the checksum and rewrites both copies, each as erase, body, magic. */
    method WritebackSpt() returns (ok: bool)
      requires ValidSpt()
      modifies this`spt, flash
      ensures flash.faults >= old(flash.faults)
      ensures WroteBoth(old(flash.mem), flash.mem, old(Spt0()), old(Spt1()), EncSpt(Sealed(old(spt), checksumEnabled)),
        ok)
      ensures ok ==> spt == Sealed(old(spt), checksumEnabled)
      ensures flash.faults == old(flash.faults) ==> ok
    {
      hide PartsOk, Layout, OnlyIn, Progress, WroteBoth, Rewrote, IndexNamed, EncSpt, CStr, SptCrc;
      TablesAt(spt, SPT0, SPT1, spt0Address, spt1Address, |flash.mem|);
      ghost var s, z := spt, Sealed(spt, checksumEnabled);
      ghost var m, p, q, t := flash.mem, Spt0(), Spt1(), EncSpt(z);
      ghost var x0, x1 := IndexNamed(spt.part, SPT0), IndexNamed(spt.part, SPT1);
      NoProgress(m, p, q, t);
      SealedTwice(spt, checksumEnabled);
      var updates := 0;
      for x := 0 to spt.partitions
        invariant |flash.mem| == |m| && flash.faults >= old(flash.faults)
        invariant spt == if x > x0 || x > x1 then z else s
        invariant Progress(m, flash.mem, p, q, t, x > x0, x > x1)
        invariant updates == (if x > x0 then 1 else 0) + (if x > x1 then 1 else 0)
      {
        if CStr(spt.part[x].name) != SPT0 && CStr(spt.part[x].name) != SPT1 {
          continue;
        }
        ghost var m1 := flash.mem;
        ok := RewriteSptPart(x);
        BothSteps(m, m1, flash.mem, p, q, t, x > x0, x > x1, x == x0, ok);
        if !ok {
          return;
        }
        updates := updates + 1;
      }
      BothDone(m, flash.mem, p, q, t);
      ok := updates == 2;
    }

    // ---- editing the partition table ----

    // writeback_spt, then load_spt, after the table in RAM was edited; `before` is in flash
    method CommitSpt(ghost before: Table) returns (ok: bool)
      requires ValidSpt() && SptPlaces(spt0Address, spt1Address, |flash.mem|) && SptGood(before, checksumEnabled)
      requires At(flash.mem, spt0Address) == before && At(flash.mem, spt1Address) == before
      modifies this`spt, this`sptCorrupted, flash
      ensures flash.faults >= old(flash.faults)
      ensures Committed(old(flash.mem), flash.mem, old(Spt0()), old(Spt1()), before,
                EncSpt(Sealed(old(spt), checksumEnabled)), SptCheck(checksumEnabled), ok)
      ensures ok ==> ValidSpt() && SptSynced() && sptCorrupted == old(sptCorrupted)
      ensures ok ==> spt == Sealed(old(spt), checksumEnabled)
      ensures flash.faults == old(flash.faults) ==> ok
    {
      hide PartsOk, Layout, OnlyIn, WroteBoth, IndexNamed, EncSpt, CStr, SptCrc, SptGood, LoadSpec, Committed,
        SptAssumption;
      TablesAt(spt, SPT0, SPT1, spt0Address, spt1Address, |flash.mem|);
      SptAddresses(spt, spt0Address, spt1Address, |flash.mem|);
      ghost var z := Sealed(spt, checksumEnabled);
      ghost var m, p, q, t := flash.mem, Spt0(), Spt1(), EncSpt(z);
      SealedIsGood(spt, checksumEnabled, spt0Address, spt1Address, |m|);
      ok := WritebackSpt();
      ghost var m1, f1 := flash.mem, flash.faults;
      WroteFacts(m, m1, p, q, t, ok);
      if !ok {
        NotCommitted(m, m1, p, q, before, t, SptCheck(checksumEnabled));
        return;
      }
      ok := LoadSpt();
      CommitLoaded(m, m1, flash.mem, p, q, before, t, SptCheck(checksumEnabled), EncSpt(spt), ok, flash.faults == f1);
      if ok {
        SptRoundTrip(spt);
        SptRoundTrip(z);
      }
    }

    // the name-in-use loop of partition_create and partition_rename (strncmp over 15 characters)
    method NameInUse(name: seq<byte>) returns (used: bool)
      requires ValidSpt() && |CStr(name)| < NAME_LENGTH
      ensures used <==> !NameFree(Parts(spt), name)
    {
      hide PartsOk, CStr;
      for x := 0 to spt.partitions
        invariant NameFree(Parts(spt)[..x], name)
      {
        assert Parts(spt)[x] == spt.part[x];
        if Cut(CStr(spt.part[x].name), NAME_LENGTH - 1) == Cut(CStr(name), NAME_LENGTH - 1) {
          return true;
        }
      }
      assert Parts(spt)[..spt.partitions] == Parts(spt);
      return false;
    }

    /** Appends a partition; succeeds exactly when the name is short and free, the table has room
        and the range overlaps no partition. */
    method PartitionCreate(name: seq<byte>, start: u64, size: u32) returns (ok: bool)
      requires ValidSpt() && SptSynced()
      requires start + size < U64_MOD
      modifies this`spt, this`sptCorrupted, flash
      ensures flash.faults >= old(flash.faults)
      ensures ok ==> ValidSpt() && SptSynced() && sptCorrupted == old(sptCorrupted)
      ensures ok ==>
        CanCreate(old(spt), name, start, size) && spt == Sealed(Created(old(spt), name, start, size), checksumEnabled)
      ensures flash.faults == old(flash.faults) ==> (ok <==> CanCreate(old(spt), name, start, size))
      ensures !CanCreate(old(spt), name, start, size) ==> flash.mem == old(flash.mem) && spt == old(spt)
      ensures CanCreate(old(spt), name, start, size) ==>
        Committed(old(flash.mem), flash.mem, old(Spt0()), old(Spt1()), EncSpt(old(spt)),
          EncSpt(Sealed(Created(old(spt), name, start, size), checksumEnabled)), SptCheck(checksumEnabled), ok)
    {
      hide PartsOk, Layout, Committed, SptGood, EncSpt, CStr, SptCrc, IndexNamed, PartNamed;
      if |CStr(name)| >= NAME_LENGTH {
        return false;
      }
      var used := NameInUse(name);
      if used || spt.partitions == MAX_PARTITIONS {
        return false;
      }
      var end := (start + size) % U64_MOD;
      for x := 0 to spt.partitions
        invariant forall i :: 0 <= i < x ==> !(start < spt.part[i].End() && end > spt.part[i].offset)
      {
        if start < spt.part[x].End() && end > spt.part[x].offset {
          return false;
        }
      }
      ghost var before, s := EncSpt(spt), spt;
      CreateKeepsLayout(spt, name, start, size, spt0Address, spt1Address, |flash.mem|);
      spt := Created(spt, name, start, size);
      ok := CommitSpt(before);
    }

    /** Renames a partition; succeeds exactly when the name is short and not in use. */
    method PartitionRename(x: int, name: seq<byte>) returns (ok: bool)
      requires ValidSpt() && SptSynced()
      requires IsPart(x) ==> !TableName(CStr(spt.part[x].name))
      modifies this`spt, this`sptCorrupted, flash
      ensures flash.faults >= old(flash.faults)
      ensures ok ==> ValidSpt() && SptSynced() && sptCorrupted == old(sptCorrupted)
      ensures ok ==> CanRename(old(spt), x, name) && spt == Sealed(Renamed(old(spt), x, name), checksumEnabled)
      ensures flash.faults == old(flash.faults) ==> (ok <==> CanRename(old(spt), x, name))
      ensures !CanRename(old(spt), x, name) ==> flash.mem == old(flash.mem) && spt == old(spt)
      ensures CanRename(old(spt), x, name) ==>
        Committed(old(flash.mem), flash.mem, old(Spt0()), old(Spt1()), EncSpt(old(spt)),
          EncSpt(Sealed(Renamed(old(spt), x, name), checksumEnabled)), SptCheck(checksumEnabled), ok)
    {
      hide PartsOk, Layout, Committed, SptGood, EncSpt, CStr, SptCrc, IndexNamed, PartNamed;
      if !IsPart(x) || |CStr(name)| >= NAME_LENGTH {
        return false;
      }
      var used := NameInUse(name);
      if used {
        return false;
      }
      ghost var before := EncSpt(spt);
      RenameKeepsLayout(spt, x, name, spt0Address, spt1Address, |flash.mem|);
      spt := Renamed(spt, x, name);
      ok := CommitSpt(before);
    }

    /** Deletes a partition: the later entries move down by one. */
    method PartitionDelete(x: int) returns (ok: bool)
      requires ValidSpt() && SptSynced()
      requires IsPart(x) ==> !TableName(CStr(spt.part[x].name))
      modifies this`spt, this`sptCorrupted, flash
      ensures flash.faults >= old(flash.faults)
      ensures ok ==> ValidSpt() && SptSynced() && sptCorrupted == old(sptCorrupted)
      ensures ok ==> 0 <= x < old(spt).partitions && spt == Sealed(Deleted(old(spt), x), checksumEnabled)
      ensures flash.faults == old(flash.faults) ==> (ok <==> 0 <= x < old(spt).partitions)
      ensures 0 <= x < old(spt).partitions ==>
        Committed(old(flash.mem), flash.mem, old(Spt0()), old(Spt1()), EncSpt(old(spt)),
          EncSpt(Sealed(Deleted(old(spt), x), checksumEnabled)), SptCheck(checksumEnabled), ok)
      ensures !(0 <= x < old(spt).partitions) ==> flash.mem == old(flash.mem) && spt == old(spt)
    {
      hide PartsOk, Layout, Committed, SptGood, EncSpt, CStr, SptCrc, IndexNamed, PartNamed;
      if !IsPart(x) {
        return false;
      }
      ghost var before, s := EncSpt(spt), spt;
      DeleteKeepsLayout(spt, x, spt0Address, spt1Address, |flash.mem|);
      var part := MoveDown(x);
      spt := spt.(part := part, partitions := spt.partitions - 1);
      ok := CommitSpt(before);
    }

    // the entries after x, one place down each
    method MoveDown(x: nat) returns (part: seq<Part>)
      requires x < spt.partitions <= MAX_PARTITIONS
      ensures |part| == MAX_PARTITIONS && spt.(part := part, partitions := spt.partitions - 1) == Deleted(spt, x)
    {
      hide CStr;
      part := spt.part;
      var i := x;
      while i < spt.partitions && i + 1 < MAX_PARTITIONS
        invariant x <= i <= spt.partitions && i < MAX_PARTITIONS && |part| == MAX_PARTITIONS
        invariant part[..i] == spt.part[..x] + spt.part[x + 1..i + 1]
        invariant part[i..] == spt.part[i..]
      {
        MovedOne(part, spt.part, x, i);
        part := part[i := part[i + 1]];
        i := i + 1;
      }
      assert part == part[..i] + part[i..];
    }

    /** Replaces the CPB, whatever state it is in, by one without entries. */
    method EmptyCpb() returns (ok: bool)
      requires ValidSpt()
      modifies this`cpb, this`cpbCorrupted, flash
      ensures ValidSpt() && flash.faults >= old(flash.faults)
      ensures WroteBoth(old(flash.mem), flash.mem, Cpb0(), Cpb1(), EncCpb(EMPTY_CPB), ok)
        || (sptCorrupted && flash.mem == old(flash.mem))
      ensures ok ==> ValidCpb() && !cpbCorrupted && Prio(cpb.slots) == [] && Used(cpb.slots) == 0
      ensures flash.faults == old(flash.faults) ==> (ok <==> !sptCorrupted)
    {
      hide PartsOk, Layout, EncCpb, WroteBoth, IndexNamed, OnlyIn;
      if sptCorrupted {
        return false;
      }
      cpb := EMPTY_CPB;
      ghost var m, p, q := flash.mem, Cpb0(), Cpb1();
      ok := WritebackCpb();
      WroteFacts(m, flash.mem, p, q, EncCpb(EMPTY_CPB), ok);
      if ok {
        cpbCorrupted := false;
        CpbRoundTrip(EMPTY_CPB);
        PrioNoLive(cpb.slots);
      }
    }
  }
}
