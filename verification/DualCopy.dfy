/** Two redundant copies of a 4 KB table in flash (libRSU_ops.c keeps the SPT and the CPB this
    way): a copy is rewritten as erase, body without magic, magic; a load cross-checks the two
    copies and repairs a bad one. The theory is the same for both tables, so it is stated over
    raw bytes and a `check` that accepts well-formed tables. */
module DualCopy {
  import opened Bits
  import opened FlashDev

  const TABLE: nat := 0x1000

  type Table = t: seq<byte> | |t| == TABLE witness seq(TABLE, _ => 0)

  function At(m: Mem, a: nat): Table
    requires a + TABLE <= |m|
  {
    m[a..a + TABLE]
  }

  function Magic(t: Table): u32 {
    FromLE32(t[..4])
  }

  // the body as first written: the magic number still erased
  function Blank(t: Table): Table {
    [0xFF, 0xFF, 0xFF, 0xFF] + t[4..]
  }

  const BLANK_MAGIC: u32 := 0xFFFF_FFFF

  lemma BlankMagic(t: Table)
    requires t[..4] == [0xFF, 0xFF, 0xFF, 0xFF]
    ensures Magic(t) == BLANK_MAGIC
  {
    assert LE(BLANK_MAGIC, 4) == [0xFF, 0xFF, 0xFF, 0xFF];
    LE32RoundTrip(BLANK_MAGIC);
  }

  // ---- the three operations on one copy ----

  // What an interrupted rewrite leaves of a copy: the old table, the new one, or no magic.
  ghost predicate Stopped(before: Table, t: Table, now: Table) {
    now == before || now == t || Magic(now) != Magic(t)
  }

  lemma EraseCopy(m: Mem, a: nat, n: nat, t: Table)
    requires a + TABLE <= |m| && a + n <= |m| && n % PAGE == 0
    requires Magic(t) != BLANK_MAGIC
    ensures Stopped(At(m, a), t, At(Erased(m, a, n), a))
    ensures if n == 0 then At(Erased(m, a, n), a) == At(m, a) else Magic(At(Erased(m, a, n), a)) == BLANK_MAGIC
    ensures n > 0 ==> At(Erased(m, a, n), a) == seq(TABLE, _ => 0xFF)
  {
    var e := Erased(m, a, n);
    if n == 0 {
      assert At(e, a) == At(m, a);
    } else {
      assert n >= TABLE;
      assert At(e, a) == seq(TABLE, _ => 0xFF);
      BlankMagic(At(e, a));
    }
  }

  lemma ProgramBody(m: Mem, a: nat, t: Table)
    requires a + TABLE <= |m| && At(m, a) == seq(TABLE, _ => 0xFF)
    ensures At(Programmed(m, a, Blank(t)), a) == Blank(t)
  {
    var p := Programmed(m, a, Blank(t));
    forall i | 0 <= i < TABLE ensures At(p, a)[i] == Blank(t)[i] {
      assert m[a + i] == At(m, a)[i] == 0xFF;
      AndFF(Blank(t)[i]);
    }
  }

  lemma TornBody(before: Table, m: Mem, m': Mem, a: nat, t: Table)
    requires a + TABLE <= |m| && At(m, a) == seq(TABLE, _ => 0xFF)
    requires Magic(t) != BLANK_MAGIC
    requires TornProgram(m, m', a, Blank(t))
    ensures Stopped(before, t, At(m', a)) && Magic(At(m', a)) == BLANK_MAGIC
  {
    forall i | 0 <= i < 4 ensures At(m', a)[i] == 0xFF {
      assert m[a + i] == At(m, a)[i] == 0xFF;
      assert TornByte(m[a + i], Blank(t)[i], m'[a + i]);
      TornSame(0xFF, m'[a + i]);
    }
    assert At(m', a)[..4] == [0xFF, 0xFF, 0xFF, 0xFF];
    BlankMagic(At(m', a));
  }

  lemma ProgramMagic(m: Mem, a: nat, t: Table)
    requires a + TABLE <= |m| && At(m, a) == Blank(t)
    ensures At(Programmed(m, a, t[..4]), a) == t
  {
    var p := Programmed(m, a, t[..4]);
    forall i | 0 <= i < TABLE ensures At(p, a)[i] == t[i] {
      assert m[a + i] == At(m, a)[i] == Blank(t)[i];
      AndFF(t[i]);
    }
  }

  lemma TornMagic(before: Table, m: Mem, m': Mem, a: nat, t: Table)
    requires a + TABLE <= |m| && At(m, a) == Blank(t)
    requires TornProgram(m, m', a, t[..4])
    ensures Stopped(before, t, At(m', a))
    ensures At(m', a) == t || Magic(At(m', a)) != Magic(t)
  {
    var now := At(m', a);
    if Magic(now) == Magic(t) {
      ToFromLE(now[..4]);
      ToFromLE(t[..4]);
      forall i | 4 <= i < TABLE ensures now[i] == t[i] {
        assert m'[a + i] == m[a + i] == At(m, a)[i];
      }
      assert now == now[..4] + now[4..] && t == t[..4] + t[4..];
    }
  }

  lemma RewriteFinished(m: Mem, a: nat, n: nat, t: Table)
    requires a + n <= |m| && n % PAGE == 0 && n > 0
    ensures Rewrote(m, Programmed(Programmed(Erased(m, a, n), a, Blank(t)), a, t[..4]), a, n, t, true)
  {
    RewriteDone(m, a, n, t);
  }

  /** Erase, body, magic: the copy is the table and nothing outside the erased range changed. */
  lemma RewriteDone(m: Mem, a: nat, n: nat, t: Table)
    requires a + n <= |m| && n % PAGE == 0 && n > 0
    ensures var m1 := Erased(m, a, n); var m2 := Programmed(m1, a, Blank(t));
      var m3 := Programmed(m2, a, t[..4]);
      && At(m1, a) == seq(TABLE, _ => 0xFF) && At(m2, a) == Blank(t) && At(m3, a) == t
      && SameOutside(m, m1, a, n) && SameOutside(m, m2, a, n) && SameOutside(m, m3, a, n)
  {
    var m1 := Erased(m, a, n);
    assert At(m1, a) == seq(TABLE, _ => 0xFF);
    ProgramBody(m1, a, t);
    ProgramMagic(Programmed(m1, a, Blank(t)), a, t);
  }

  // A rewrite of the copy at a, within the n bytes at a: finished, or stopped on the way.
  ghost predicate Rewrote(m: Mem, m': Mem, a: nat, n: nat, t: Table, finished: bool)
    requires a + n <= |m| && TABLE <= n
  {
    && SameOutside(m, m', a, n)
    && if finished then At(m', a) == t else Stopped(At(m, a), t, At(m', a))
  }

  // Stopping in the erase, in the body or in the magic.
  lemma StoppedInErase(m: Mem, m': Mem, a: nat, n: nat, t: Table)
    requires a + n <= |m| && TABLE <= n && Magic(t) != BLANK_MAGIC
    requires m' == m || exists k: nat :: k <= n && k % PAGE == 0 && m' == Erased(m, a, k)
    ensures Rewrote(m, m', a, n, t, false)
    ensures At(m', a) == At(m, a) || Magic(At(m', a)) == BLANK_MAGIC
  {
    if m' != m {
      var k: nat :| k <= n && k % PAGE == 0 && m' == Erased(m, a, k);
      EraseCopy(m, a, k, t);
    }
  }

  lemma StoppedInBody(m: Mem, m1: Mem, m': Mem, a: nat, n: nat, t: Table)
    requires a + n <= |m| && TABLE <= n && n % PAGE == 0 && Magic(t) != BLANK_MAGIC
    requires m1 == Erased(m, a, n)
    requires m' == m1 || TornProgram(m1, m', a, Blank(t))
    ensures Rewrote(m, m', a, n, t, false)
    ensures Magic(At(m', a)) == BLANK_MAGIC
  {
    RewriteDone(m, a, n, t);
    if m' == m1 {
      BlankMagic(At(m1, a));
    } else {
      TornBody(At(m, a), m1, m', a, t);
    }
  }

  lemma StoppedInMagic(m: Mem, m2: Mem, m': Mem, a: nat, n: nat, t: Table)
    requires a + n <= |m| && TABLE <= n && n % PAGE == 0 && Magic(t) != BLANK_MAGIC
    requires m2 == Programmed(Erased(m, a, n), a, Blank(t))
    requires m' == m2 || TornProgram(m2, m', a, t[..4])
    ensures Rewrote(m, m', a, n, t, false)
    ensures At(m', a) == t || Magic(At(m', a)) != Magic(t)
  {
    RewriteDone(m, a, n, t);
    if m' == m2 {
      BlankMagic(At(m2, a));
    } else {
      TornMagic(At(m, a), m2, m', a, t);
    }
  }

  // Programming a copy in place: no erase, so t may only clear bits of what is there.
  predicate OnlyClears(before: Table, t: Table) {
    AndSeq(before, t) == t
  }

  // Every byte lies between what it was and what it was to become: only bits to be cleared have been.
  ghost predicate TornTable(before: Table, t: Table, now: Table) {
    forall i :: 0 <= i < TABLE ==> TornByte(before[i], t[i], now[i])
  }

  lemma TornEnds(before: Table, t: Table)
    requires OnlyClears(before, t)
    ensures TornTable(before, t, before) && TornTable(before, t, t)
  {
    forall i | 0 <= i < TABLE ensures TornByte(before[i], t[i], before[i]) && TornByte(before[i], t[i], t[i]) {
      assert AndSeq(before, t)[i] == And(before[i], t[i]);
      TornByteNone(before[i], t[i]);
    }
  }

  // Between a table and itself lies nothing else.
  lemma OnlyItself(t: Table)
    ensures forall now: Table :: TornTable(t, t, now) ==> now == t
  {
    forall now: Table | TornTable(t, t, now) ensures now == t {
      forall i | 0 <= i < TABLE ensures now[i] == t[i] {
        TornSame(t[i], now[i]);
      }
    }
  }

  ghost predicate InPlace(m: Mem, m': Mem, a: nat, n: nat, t: Table, finished: bool)
    requires a + n <= |m| && TABLE <= n
  {
    SameOutside(m, m', a, n) && if finished then At(m', a) == t else TornTable(At(m, a), t, At(m', a))
  }

  lemma ProgramInPlace(m: Mem, m': Mem, a: nat, n: nat, t: Table, finished: bool)
    requires a + n <= |m| && TABLE <= n && OnlyClears(At(m, a), t)
    requires if finished then m' == Programmed(m, a, t) else m' == m || TornProgram(m, m', a, t)
    ensures InPlace(m, m', a, n, t, finished)
  {
    hide TornByte;
    if finished {
      forall i | 0 <= i < TABLE ensures At(m', a)[i] == t[i] {
        assert m[a + i] == At(m, a)[i];
        assert AndSeq(At(m, a), t)[i] == And(m[a + i], t[i]);
      }
    } else if m' == m {
      TornEnds(At(m, a), t);
    } else {
      forall i | 0 <= i < TABLE ensures TornByte(At(m, a)[i], t[i], At(m', a)[i]) {
        assert TornByte(m[a + i], t[i], m'[a + i]);
      }
    }
  }

  // A copy outside the changed range is untouched.
  lemma OtherCopy(m: Mem, m': Mem, a: nat, n: nat, b: nat)
    requires SameOutside(m, m', a, n) && b + TABLE <= |m|
    requires b + TABLE <= a || a + n <= b
    ensures At(m', b) == At(m, b)
  {
  }

  // ---- loading a pair of copies ----

  datatype Outcome = Use(table: Table) | Mismatch | NoneGood

  // Which table a load settles on: copy 0 if both are good and equal, else the only good one.
  function LoadOutcome(c0: Table, c1: Table, good: Table -> bool): Outcome {
    if good(c0) && good(c1) then (if c0 == c1 then Use(c0) else Mismatch)
    else if good(c0) then Use(c0)
    else if good(c1) then Use(c1)
    else NoneGood
  }

  // The copies (b0, b1) can have become (d0, d1) when rewriting both with t, the first before
  // the second, was interrupted.
  ghost predicate StoppedPair(b0: Table, b1: Table, t: Table, d0: Table, d1: Table) {
    || (d1 == b1 && Stopped(b0, t, d0))
    || (d0 == t && Stopped(b1, t, d1))
  }

  // the same, in either order
  ghost predicate StoppedBoth(b0: Table, b1: Table, t: Table, d0: Table, d1: Table) {
    StoppedPair(b0, b1, t, d0, d1) || StoppedPair(b1, b0, t, d1, d0)
  }

  ghost predicate RequiresMagic(good: Table -> bool, magic: u32) {
    forall t :: good(t) ==> Magic(t) == magic
  }

  // One copy is good, and every good copy is wholly the old or wholly the new table.
  ghost predicate OldOrNew(before: Table, t: Table, d0: Table, d1: Table, good: Table -> bool) {
    (good(d0) || good(d1)) && (good(d0) ==> d0 in {before, t}) && (good(d1) ==> d1 in {before, t})
  }

  /** Then the next load settles on one of the two, or reports corruption, and that exactly when one copy is
      the old table and the other the new one. */
  lemma OldOrNewLoads(before: Table, t: Table, d0: Table, d1: Table, good: Table -> bool)
    requires OldOrNew(before, t, d0, d1, good) && good(before) && good(t)
    ensures LoadOutcome(d0, d1, good) in {Use(before), Use(t), Mismatch}
    ensures LoadOutcome(d0, d1, good) == Mismatch <==> before != t && {d0, d1} == {before, t}
  {
  }

  /** Stopping a rewrite anywhere leaves at least one good copy, every good copy is wholly the
      old or wholly the new table, and the next load settles on one of the two. It reports
      corruption exactly when the stop fell after the first copy was finished and before the
      second was touched. Which copy is rewritten first does not matter. */
  lemma StoppedRewriteIsSafe(before: Table, t: Table, c0: Table, c1: Table, good: Table -> bool)
    requires RequiresMagic(good, Magic(t)) && good(before) && good(t)
    requires StoppedBoth(before, before, t, c0, c1)
    ensures OldOrNew(before, t, c0, c1, good)
    ensures LoadOutcome(c0, c1, good) in {Use(before), Use(t), Mismatch}
    ensures LoadOutcome(c0, c1, good) == Mismatch <==> before != t && {c0, c1} == {before, t}
  {
    OldOrNewLoads(before, t, c0, c1, good);
  }

  // ---- stopped in-place updates ----

  // Programming t over two copies of `before`, the first before the second, was interrupted.
  ghost predicate TornPair(before: Table, t: Table, d0: Table, d1: Table) {
    (d1 == before && TornTable(before, t, d0)) || (d0 == t && TornTable(before, t, d1))
  }

  // the same, in either order
  ghost predicate StoppedUpdate(before: Table, t: Table, d0: Table, d1: Table) {
    TornPair(before, t, d0, d1) || TornPair(before, t, d1, d0)
  }

  // No table between the two passes the checks.
  ghost predicate TornSafe(before: Table, t: Table, good: Table -> bool) {
    forall now: Table :: TornTable(before, t, now) && good(now) ==> now == before || now == t
  }

  // One copy is good, and good copies lie between the old table and the new one.
  ghost predicate GoodAreTorn(before: Table, t: Table, d0: Table, d1: Table, good: Table -> bool) {
    && (good(d0) || good(d1))
    && (good(d0) ==> TornTable(before, t, d0)) && (good(d1) ==> TornTable(before, t, d1))
  }

  /** Stopping an update in place anywhere leaves at least one copy wholly old or wholly new, and the
      next load settles on the old table, on the new one, or reports that the copies differ. */
  lemma StoppedUpdateIsSafe(before: Table, t: Table, c0: Table, c1: Table, good: Table -> bool)
    requires good(before) && good(t) && OnlyClears(before, t) && StoppedUpdate(before, t, c0, c1)
    ensures GoodAreTorn(before, t, c0, c1, good)
    ensures LoadOutcome(c0, c1, good) in {Use(before), Use(t), Mismatch}
  {
    hide TornTable, OnlyClears;
    TornEnds(before, t);
  }

  /** Every good copy after every stop is wholly old or wholly new, so that corruption is reported
      only between the two copies, exactly when no table between old and new passes the checks. */
  lemma StoppedUpdateExactly(before: Table, t: Table, good: Table -> bool)
    requires good(before) && good(t) && OnlyClears(before, t)
    ensures TornSafe(before, t, good) <==>
      (forall c0: Table, c1: Table :: StoppedUpdate(before, t, c0, c1) && LoadOutcome(c0, c1, good) == Mismatch
        ==> {c0, c1} == {before, t})
  {
    hide TornTable, OnlyClears;
    TornEnds(before, t);
    if !TornSafe(before, t, good) {
      var now: Table :| TornTable(before, t, now) && good(now) && now != before && now != t;
      assert StoppedUpdate(before, t, now, before) && LoadOutcome(now, before, good) == Mismatch;
    }
  }

  // What a load after a stop, and the repairs it may make or leave unfinished, keep.
  lemma LoadStepKeepsTorn(before: Table, t: Table, c0: Table, c1: Table, d0: Table, d1: Table, good: Table -> bool,
                          magic: u32)
    requires RequiresMagic(good, magic) && GoodAreTorn(before, t, c0, c1, good) && LoadStep(c0, c1, d0, d1, good)
    ensures GoodAreTorn(before, t, d0, d1, good)
  {
    hide TornTable;
  }

  /** With no good table in between, the old table or the new one is all that is left to load. */
  lemma TornSafeOutcome(before: Table, t: Table, d0: Table, d1: Table, good: Table -> bool)
    requires TornSafe(before, t, good) && GoodAreTorn(before, t, d0, d1, good) && good(before) && good(t)
    ensures LoadOutcome(d0, d1, good) in {Use(before), Use(t), Mismatch}
    ensures LoadOutcome(d0, d1, good) == Mismatch <==> before != t && {d0, d1} == {before, t}
  {
    hide TornTable;
    OldOrNewLoads(before, t, d0, d1, good);
  }

  // ---- interrupted repairs ----

  // One load that may stop while it repairs: nothing changes, or one copy is rewritten (perhaps
  // not to the end) from the other, which is good. A copy is only rewritten when it was found
  // bad, or when reading it failed.
  ghost predicate LoadStep(c0: Table, c1: Table, d0: Table, d1: Table, good: Table -> bool) {
    || (d0 == c0 && d1 == c1)
    || (good(c0) && d0 == c0 && Stopped(c1, c0, d1))
    || (good(c1) && d1 == c1 && Stopped(c0, c1, d0))
  }

  ghost predicate LoadRun(run: seq<(Table, Table)>, good: Table -> bool) {
    forall i :: 0 <= i < |run| - 1 ==> LoadStepAt(run, i, good)
  }

  ghost predicate LoadStepAt(run: seq<(Table, Table)>, i: nat, good: Table -> bool)
    requires i + 1 < |run|
  {
    LoadStep(run[i].0, run[i].1, run[i + 1].0, run[i + 1].1, good)
  }

  lemma LoadStepKeepsOutcome(c0: Table, c1: Table, d0: Table, d1: Table, good: Table -> bool, magic: u32)
    requires RequiresMagic(good, magic) && LoadStep(c0, c1, d0, d1, good)
    ensures LoadOutcome(c0, c1, good) != Mismatch ==> LoadOutcome(d0, d1, good) == LoadOutcome(c0, c1, good)
    ensures good(c0) && !good(c1) ==> d0 == c0
    ensures good(c1) && !good(c0) ==> d1 == c1
  {
  }

  /** However many repairs are interrupted, the table a load settles on never changes, and a
      load after them that leaves both copies equal (to d) has made them that table. */
  lemma {:induction false} RepairsConverge(run: seq<(Table, Table)>, d: Table, good: Table -> bool, magic: u32)
    requires RequiresMagic(good, magic) && LoadRun(run, good) && |run| > 0
    requires LoadOutcome(run[0].0, run[0].1, good) != Mismatch
    ensures LoadOutcome(run[|run| - 1].0, run[|run| - 1].1, good) == LoadOutcome(run[0].0, run[0].1, good)
    ensures (LoadStep(run[|run| - 1].0, run[|run| - 1].1, d, d, good) && LoadOutcome(run[0].0, run[0].1, good).Use?)
      ==> LoadOutcome(run[0].0, run[0].1, good) == Use(d)
  {
    if |run| > 1 {
      var n := |run| - 1;
      var init := run[..n];
      forall i | 0 <= i < n - 1 ensures LoadStepAt(init, i, good) {
        assert LoadStepAt(run, i, good);
      }
      RepairsConverge(init, d, good, magic);
      assert LoadStepAt(run, n - 1, good);
      LoadStepKeepsOutcome(run[n - 1].0, run[n - 1].1, run[n].0, run[n].1, good, magic);
    }
  }
}
