/** What a stopped in-place update of one CPB entry (update_cpb) leaves: the table with a torn entry, and
    exactly when such a table passes check_cpb. */
module CpbUpdate {
  import opened Bits
  import opened FlashDev
  import opened DualCopy
  import opened Tables

  // u has all bits of new, and no bit that old has not.
  predicate Between(before: u64, after: u64, u: u64) {
    And(before, u) == u && And(u, after) == after
  }

  function WithEntry(c: Cpb, slot: nat, u: u64): Cpb
    requires slot < CPB_NSLOTS
  {
    c.(slots := c.slots[slot := u])
  }

  // ---- one entry ----

  lemma SameWord(a: u64, b: u64)
    requires LE(a, 8) == LE(b, 8)
    ensures a == b
  {
    LE64RoundTrip(a);
    LE64RoundTrip(b);
  }

  lemma {:induction false} EntryBytes(u: u64, v: seq<byte>)
    requires |v| == 8 && u == FromLE64(v)
    ensures LE(u, 8) == v
  {
    ToFromLE(v);
  }

  // Bytes of AND, all at once.
  lemma AndBytes(a: u64, b: u64, r: u64)
    ensures And(a, b) == r <==> forall i :: 0 <= i < 8 ==> And(LE(a, 8)[i], LE(b, 8)[i]) == LE(r, 8)[i]
  {
    hide And, LE;
    AndLE(a, b, 8);
    if forall i :: 0 <= i < 8 ==> And(LE(a, 8)[i], LE(b, 8)[i]) == LE(r, 8)[i] {
      assert LE(And(a, b), 8) == LE(r, 8);
      SameWord(And(a, b), r);
    }
  }

  /** Eight bytes are torn between two words, one of which clears bits of the other, exactly when the word
      they hold lies between the two. */
  lemma TornEntry(a: u64, d: u64, u: u64)
    requires And(a, d) == d
    ensures Between(a, d, u) <==> forall i :: 0 <= i < 8 ==> TornByte(LE(a, 8)[i], LE(d, 8)[i], LE(u, 8)[i])
  {
    hide And, LE;
    AndBytes(a, d, d);
    AndBytes(a, u, u);
    AndBytes(u, d, d);
    forall i | 0 <= i < 8
      ensures TornByte(LE(a, 8)[i], LE(d, 8)[i], LE(u, 8)[i]) <==>
        And(LE(a, 8)[i], LE(u, 8)[i]) == LE(u, 8)[i] && And(LE(u, 8)[i], LE(d, 8)[i]) == LE(d, 8)[i]
    {
      AndComm(LE(u, 8)[i], LE(d, 8)[i]);
    }
  }

  // ---- the table ----

  lemma {:induction false} EncSlotsConcat(v: seq<u64>, w: seq<u64>)
    ensures EncSlots(v + w) == EncSlots(v) + EncSlots(w)
  {
    if |v| == 0 {
      assert v + w == w;
    } else {
      EncSlotsConcat(v[1..], w);
      assert (v + w)[1..] == v[1..] + w;
    }
  }

  // the bytes of an entry in the encoded table
  function EntryAt(slot: nat): nat {
    32 + 8 * slot
  }

  lemma EntryInTable(c: Cpb, slot: nat, u: u64)
    requires slot < CPB_NSLOTS
    ensures var t, a := EncCpb(c), EntryAt(slot);
      t[a..a + 8] == LE(c.slots[slot], 8) && EncCpb(WithEntry(c, slot, u)) == t[..a] + LE(u, 8) + t[a + 8..]
  {
    hide LE, EncSlots;
    var v, w := c.slots[..slot], c.slots[slot + 1..];
    var head := EncWords([c.magic, c.headerSize, c.cpbSize, c.reserved, c.ptrOffset, c.nSlots]) + c.pad;
    EntrySplit(v, c.slots[slot], w);
    EntrySplit(v, u, w);
    assert c.slots == v + [c.slots[slot]] + w && WithEntry(c, slot, u).slots == v + [u] + w;
    assert EncCpb(c) == head + (EncSlots(v) + LE(c.slots[slot], 8) + EncSlots(w));
    assert EncCpb(WithEntry(c, slot, u)) == head + (EncSlots(v) + LE(u, 8) + EncSlots(w));
  }

  lemma EntrySplit(v: seq<u64>, u: u64, w: seq<u64>)
    ensures EncSlots(v + [u] + w) == EncSlots(v) + LE(u, 8) + EncSlots(w)
  {
    EncSlotsConcat(v + [u], w);
    EncSlotsConcat(v, [u]);
    assert [u][1..] == [];
    assert EncSlots([u]) == LE(u, 8);
  }

  // A table with torn bytes at one entry is the table with the word they hold.
  lemma TornIsEntry(c: Cpb, slot: nat, v: u64, now: Table) returns (u: u64)
    requires slot < CPB_NSLOTS && And(c.slots[slot], v) == v
    requires TornTable(EncCpb(c), EncCpb(WithEntry(c, slot, v)), now)
    ensures Between(c.slots[slot], v, u) && now == EncCpb(WithEntry(c, slot, u))
  {
    hide LE, EncCpb, TornByte;
    var t, d, a := EncCpb(c), EncCpb(WithEntry(c, slot, v)), EntryAt(slot);
    u := FromLE64(now[a..a + 8]);
    EntryBytes(u, now[a..a + 8]);
    EntryInTable(c, slot, v);
    EntryInTable(c, slot, u);
    TornEntry(c.slots[slot], v, u);
    forall i | 0 <= i < 8 ensures TornByte(LE(c.slots[slot], 8)[i], LE(v, 8)[i], LE(u, 8)[i]) {
      assert TornByte(t[a + i], d[a + i], now[a + i]);
    }
    TornOnlyThere(t, d, now, a);
  }

  // Torn bytes are where the new table differs.
  lemma TornOnlyThere(t: Table, d: Table, now: Table, a: nat)
    requires a + 8 <= TABLE && TornTable(t, d, now) && d[..a] == t[..a] && d[a + 8..] == t[a + 8..]
    ensures now == t[..a] + now[a..a + 8] + t[a + 8..]
  {
    hide TornByte;
    forall i | 0 <= i < TABLE && !(a <= i < a + 8) ensures now[i] == t[i] {
      assert TornByte(t[i], d[i], now[i]);
      assert d[i] == if i < a then t[..a][i] else t[a + 8..][i - a - 8];
      TornSame(t[i], now[i]);
    }
  }

  lemma EntryIsTorn(c: Cpb, slot: nat, v: u64, u: u64)
    requires slot < CPB_NSLOTS && And(c.slots[slot], v) == v && Between(c.slots[slot], v, u)
    ensures TornTable(EncCpb(c), EncCpb(WithEntry(c, slot, v)), EncCpb(WithEntry(c, slot, u)))
  {
    hide LE, EncCpb, TornByte;
    var t, d, now, a := EncCpb(c), EncCpb(WithEntry(c, slot, v)), EncCpb(WithEntry(c, slot, u)), EntryAt(slot);
    EntryInTable(c, slot, v);
    EntryInTable(c, slot, u);
    TornEntry(c.slots[slot], v, u);
    forall i | 0 <= i < TABLE ensures TornByte(t[i], d[i], now[i]) {
      if a <= i < a + 8 {
        var k := i - a;
        assert t[i] == LE(c.slots[slot], 8)[k] && d[i] == LE(v, 8)[k] && now[i] == LE(u, 8)[k];
      } else {
        assert d[i] == t[i] && now[i] == t[i];
        TornByteNone(t[i], t[i]);
      }
    }
  }

  /** Programming one entry in place can be torn into exactly the tables whose entry lies between the old
      value and the new one, and which are otherwise the old table. */
  lemma TornTables(c: Cpb, slot: nat, v: u64, now: Table)
    requires slot < CPB_NSLOTS && And(c.slots[slot], v) == v
    ensures TornTable(EncCpb(c), EncCpb(WithEntry(c, slot, v)), now) <==>
      exists u: u64 :: Between(c.slots[slot], v, u) && now == EncCpb(WithEntry(c, slot, u))
  {
    hide TornTable, EncCpb, Between;
    if TornTable(EncCpb(c), EncCpb(WithEntry(c, slot, v)), now) {
      var u := TornIsEntry(c, slot, v, now);
    }
    if u: u64 :| Between(c.slots[slot], v, u) && now == EncCpb(WithEntry(c, slot, u)) {
      EntryIsTorn(c, slot, v, u);
    }
  }

  // ---- which torn tables pass check_cpb ----

  lemma EntryDecidesCheck(c: Cpb, slot: nat, u: u64, s: Spt)
    requires s.partitions <= MAX_PARTITIONS && CpbGood(EncCpb(c), s) && slot < CPB_NSLOTS
    ensures CpbGood(EncCpb(WithEntry(c, slot, u)), s) <==> PointerOk(u, s)
  {
    hide EncCpb, DecCpb, PointerOk;
    CpbRoundTrip(c);
    CpbRoundTrip(WithEntry(c, slot, u));
    var r := WithEntry(c, slot, u).slots;
    assert r[slot] == u;
    if PointerOk(u, s) {
      forall x | 0 <= x < |r| ensures PointerOk(r[x], s) {
        assert x != slot ==> r[x] == c.slots[x];
      }
    }
  }

  /** No other slot's offset lies between the old value and the new one: what a caller can look up in
      the partition table before the update. */
  predicate EntrySafe(before: u64, after: u64, s: Spt)
    requires s.partitions <= MAX_PARTITIONS
  {
    forall x :: 0 <= x < s.partitions ==>
      var u := s.part[x].offset;
      IsLive(u) && PointerOk(u, s) && Between(before, after, u) ==> u == before || u == after
  }

  lemma SafePointers(before: u64, after: u64, s: Spt, u: u64)
    requires s.partitions <= MAX_PARTITIONS && EntrySafe(before, after, s)
    requires PointerOk(u, s) && Between(before, after, u)
    ensures u == before || u == after
  {
    if u == ERASED_ENTRY {
      Pow2_64();
      AndUpTo(before, u);
    } else if u == SPENT_ENTRY {
      AndZero(after);
    } else {
      var y := FirstAt(s, u, 0);
      assert s.part[y].offset == u;
    }
  }

  lemma AndUpTo(a: u64, u: u64)
    requires And(a, u) == u && u == ERASED_ENTRY
    ensures a == u
  {
  }

  /** The torn table of no stop passes check_cpb if and only if the update is safe in this sense. */
  lemma UpdateSafeIff(c: Cpb, slot: nat, v: u64, s: Spt)
    requires s.partitions <= MAX_PARTITIONS && CpbGood(EncCpb(c), s) && slot < CPB_NSLOTS
    requires And(c.slots[slot], v) == v
    ensures TornSafe(EncCpb(c), EncCpb(WithEntry(c, slot, v)), CpbCheck(s)) <==> EntrySafe(c.slots[slot], v, s)
  {
    hide TornTable, EncCpb, Between, PointerOk, CpbGood;
    var before, t := EncCpb(c), EncCpb(WithEntry(c, slot, v));
    if EntrySafe(c.slots[slot], v, s) {
      forall now: Table | TornTable(before, t, now) && CpbCheck(s)(now) ensures now == before || now == t {
        var u := TornIsEntry(c, slot, v, now);
        EntryDecidesCheck(c, slot, u, s);
        SafePointers(c.slots[slot], v, s, u);
        assert WithEntry(c, slot, c.slots[slot]) == c;
      }
    } else {
      var x :| 0 <= x < s.partitions && var u := s.part[x].offset;
        IsLive(u) && PointerOk(u, s) && Between(c.slots[slot], v, u) && u != c.slots[slot] && u != v;
      var u := s.part[x].offset;
      EntryIsTorn(c, slot, v, u);
      EntryDecidesCheck(c, slot, u, s);
      OtherEntry(c, slot, u, c.slots[slot]);
      OtherEntry(c, slot, u, v);
      assert WithEntry(c, slot, c.slots[slot]) == c;
    }
  }

  lemma OtherEntry(c: Cpb, slot: nat, u: u64, w: u64)
    requires slot < CPB_NSLOTS && u != w
    ensures EncCpb(WithEntry(c, slot, u)) != EncCpb(WithEntry(c, slot, w))
  {
    hide EncCpb, DecCpb;
    CpbRoundTrip(WithEntry(c, slot, u));
    CpbRoundTrip(WithEntry(c, slot, w));
    assert WithEntry(c, slot, u).slots[slot] == u;
  }
}
