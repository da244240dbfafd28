/** Partition-table edits (partition_create/rename/delete) and slot numbers
    (librsu_misc_is_slot, librsu_misc_slot2part) as functions on the table. */
module SptOps {
  import opened Bits
  import opened DualCopy
  import opened Tables
  import Crc

  // ---- slot numbers ----

  predicate IsSlot(p: Part) {
    !p.ReadOnly() && !p.Reserved() && !ReservedName(CStr(p.name))
  }

  function Ascii(s: string): (r: seq<byte>)
    ensures |r| == |s|
  {
    seq(|s|, i requires 0 <= i < |s| => s[i] as int % 0x100)
  }

  lemma TableNames()
    ensures Ascii("SPT0") == SPT0 && Ascii("SPT1") == SPT1 && Ascii("CPB0") == CPB0 && Ascii("CPB1") == CPB1
    ensures Ascii("SPT") == SPT0[..3] && Ascii("CPB") == CPB0[..3]
  {
  }

  lemma OtherNames()
    ensures Ascii("BOOT_INFO") == BOOT_INFO && Ascii("FACTORY_IMAGE") == FACTORY_IMAGE
  {
  }

  /** A slot has neither of the two lowest flags, reserved and read-only, nor a name that the library keeps. */
  lemma SlotIff(p: Part)
    ensures IsSlot(p) <==>
      p.flags % 4 == 0 && CStr(p.name) !in [Ascii("BOOT_INFO"), Ascii("FACTORY_IMAGE"), Ascii("SPT"), Ascii("SPT0"),
                                            Ascii("SPT1"), Ascii("CPB"), Ascii("CPB0"), Ascii("CPB1")]
  {
    hide CStr, Ascii;
    TableNames();
    OtherNames();
  }

  // partition numbers of the slots among the first n partitions, in table order
  function SlotParts(ps: seq<Part>, n: nat): (r: seq<nat>)
    requires n <= |ps|
    ensures |r| <= n
  {
    if n == 0 then [] else SlotParts(ps, n - 1) + if IsSlot(ps[n - 1]) then [n - 1] else []
  }

  // the partitions behind the slot numbers
  function Slots(ps: seq<Part>): (r: seq<Part>)
    ensures |r| <= |ps|
  {
    if |ps| == 0 then [] else (if IsSlot(ps[0]) then [ps[0]] else []) + Slots(ps[1..])
  }

  // the partitions in use
  function Parts(s: Spt): (r: seq<Part>)
    requires s.partitions <= MAX_PARTITIONS
    ensures |r| == s.partitions
  {
    s.part[..s.partitions]
  }

  /** Slot numbers are an order-preserving bijection onto the non-reserved partitions. */
  lemma {:induction false} SlotNumbersBijective(ps: seq<Part>, n: nat)
    requires n <= |ps|
    ensures forall i, j :: 0 <= i < j < |SlotParts(ps, n)| ==> SlotParts(ps, n)[i] < SlotParts(ps, n)[j]
    ensures forall i :: 0 <= i < |SlotParts(ps, n)| ==> SlotParts(ps, n)[i] < n && IsSlot(ps[SlotParts(ps, n)[i]])
    ensures forall x: nat :: x < n && IsSlot(ps[x]) ==> x in SlotParts(ps, n)
  {
    if n > 0 { SlotNumbersBijective(ps, n - 1); }
  }

  lemma {:induction false} SlotsConcat(a: seq<Part>, b: seq<Part>)
    ensures Slots(a + b) == Slots(a) + Slots(b)
  {
    if |a| == 0 {
      assert a + b == b;
    } else {
      assert (a + b)[1..] == a[1..] + b;
      SlotsConcat(a[1..], b);
    }
  }

  // Slot k is entry k of Slots, found at partition SlotParts[k].
  lemma {:induction false} SlotOfPart(ps: seq<Part>, n: nat)
    requires n <= |ps|
    ensures |Slots(ps[..n])| == |SlotParts(ps, n)|
    ensures forall k :: 0 <= k < |SlotParts(ps, n)| ==>
      SlotParts(ps, n)[k] < n && Slots(ps[..n])[k] == ps[SlotParts(ps, n)[k]]
  {
    if n > 0 {
      SlotOfPart(ps, n - 1);
      assert ps[..n] == ps[..n - 1] + [ps[n - 1]];
      SlotsConcat(ps[..n - 1], [ps[n - 1]]);
      assert [ps[n - 1]][1..] == [];
    }
  }

  // The number of slots before partition x is the slot number of x.
  lemma {:induction false} SlotRank(ps: seq<Part>, n: nat, k: nat)
    requires n <= |ps| && k < |SlotParts(ps, n)|
    ensures SlotParts(ps, n)[k] < n
    ensures |Slots(ps[..SlotParts(ps, n)[k]])| == k && IsSlot(ps[SlotParts(ps, n)[k]])
  {
    var r := SlotParts(ps, n - 1);
    if k < |r| {
      SlotRank(ps, n - 1, k);
    } else {
      SlotOfPart(ps, n - 1);
    }
  }

  // ---- edits ----

  // SAFE_STRCPY: the bytes after the terminator stay what they were
  function StrCpy(dst: Name, src: seq<byte>): (r: Name)
    requires |CStr(src)| < NAME_LENGTH
  {
    CStr(src) + [0] + dst[|CStr(src)| + 1..]
  }

  lemma {:induction false} CStrOf(s: seq<byte>, tail: seq<byte>)
    ensures CStr(CStr(s) + [0] + tail) == CStr(s)
  {
    var c := CStr(s);
    if |c| == 0 {
      assert (c + [0] + tail)[0] == 0;
    } else {
      CStrOf(s[1..], tail);
      assert (c + [0] + tail)[1..] == CStr(s[1..]) + [0] + tail;
    }
  }

  function Created(s: Spt, name: seq<byte>, start: u64, size: u32): Spt
    requires s.partitions < MAX_PARTITIONS && |CStr(name)| < NAME_LENGTH
  {
    var p := Part(StrCpy(s.part[s.partitions].name, name), start, size, 0);
    s.(part := s.part[s.partitions := p], partitions := s.partitions + 1)
  }

  function Renamed(s: Spt, x: nat, name: seq<byte>): Spt
    requires x < s.partitions <= MAX_PARTITIONS && |CStr(name)| < NAME_LENGTH
  {
    s.(part := s.part[x := s.part[x].(name := StrCpy(s.part[x].name, name))])
  }

  // entries from n on move down by one, except that the last array element stays
  function Deleted(s: Spt, n: nat): Spt
    requires n < s.partitions <= MAX_PARTITIONS
  {
    var last := if s.partitions < MAX_PARTITIONS then s.partitions else MAX_PARTITIONS - 1;
    s.(part := s.part[..n] + s.part[n + 1..last + 1] + s.part[last..],
       partitions := s.partitions - 1)
  }

  // the checksum writeback_spt stores
  function Sealed(s: Spt, checksumEnabled: bool): Spt {
    if s.version > SPT_VERSION && checksumEnabled then s.(checksum := SwapEndian32(SptCrc(s))) else s
  }

  // ---- the list of slots after an edit ----

  // everything but the partitions and their number
  predicate SameHeader(s: Spt, t: Spt) {
    t.magic == s.magic && t.version == s.version && t.checksum == s.checksum && t.rsvd == s.rsvd
  }

  lemma PartsAfterCreate(s: Spt, name: seq<byte>, start: u64, size: u32)
    requires s.partitions < MAX_PARTITIONS && |CStr(name)| < NAME_LENGTH
    ensures SameHeader(s, Created(s, name, start, size))
    ensures var c := Created(s, name, start, size); var p := c.part[s.partitions];
      && c.partitions == s.partitions + 1 && Parts(c) == Parts(s) + [p]
      && CStr(p.name) == CStr(name) && p.offset == start && p.length == size && p.flags == 0
  {
    CStrOf(name, s.part[s.partitions].name[|CStr(name)| + 1..]);
  }

  /** A created slot gets the next slot number; no other slot moves. */
  lemma SlotsAfterCreate(s: Spt, name: seq<byte>, start: u64, size: u32)
    requires s.partitions < MAX_PARTITIONS && |CStr(name)| < NAME_LENGTH && !ReservedName(CStr(name))
    ensures var c := Created(s, name, start, size);
      Slots(Parts(c)) == Slots(Parts(s)) + [c.part[s.partitions]]
  {
    var c := Created(s, name, start, size);
    PartsAfterCreate(s, name, start, size);
    var p := c.part[s.partitions];
    SlotsConcat(Parts(s), [p]);
    assert IsSlot(p) && [p][1..] == [];
  }

  lemma SlotsAround(a: seq<Part>, p: Part, b: seq<Part>)
    requires IsSlot(p)
    ensures Slots(a + [p] + b) == Slots(a) + [p] + Slots(b)
  {
    SlotsConcat(a + [p], b);
    SlotsConcat(a, [p]);
    assert [p][1..] == [];
  }

  lemma PartsAfterDelete(s: Spt, n: nat)
    requires n < s.partitions <= MAX_PARTITIONS
    ensures SameHeader(s, Deleted(s, n))
    ensures Parts(s) == s.part[..n] + [s.part[n]] + s.part[n + 1..s.partitions]
    ensures Parts(Deleted(s, n)) == s.part[..n] + s.part[n + 1..s.partitions]
  {
  }

  /** Deleting slot k removes exactly that slot: earlier slots keep their number, later ones
      shift down by one. */
  lemma SlotsAfterDelete(s: Spt, k: nat)
    requires s.partitions <= MAX_PARTITIONS && k < |SlotParts(s.part, s.partitions)|
    ensures SlotParts(s.part, s.partitions)[k] < s.partitions && k < |Slots(Parts(s))|
    ensures Slots(Parts(Deleted(s, SlotParts(s.part, s.partitions)[k])))
      == Slots(Parts(s))[..k] + Slots(Parts(s))[k + 1..]
  {
    SlotRank(s.part, s.partitions, k);
    var n := SlotParts(s.part, s.partitions)[k];
    var a, b := s.part[..n], s.part[n + 1..s.partitions];
    PartsAfterDelete(s, n);
    SlotsAround(a, s.part[n], b);
    SlotsConcat(a, b);
  }

  lemma PartsAfterRename(s: Spt, n: nat, name: seq<byte>)
    requires n < s.partitions <= MAX_PARTITIONS && |CStr(name)| < NAME_LENGTH
    ensures var r := Renamed(s, n, name);
      && SameHeader(s, r) && r.part[n] == s.part[n].(name := r.part[n].name) && CStr(r.part[n].name) == CStr(name)
      && Parts(r) == s.part[..n] + [r.part[n]] + s.part[n + 1..s.partitions]
      && Parts(s) == s.part[..n] + [s.part[n]] + s.part[n + 1..s.partitions]
  {
    hide CStr;
    CStrOf(name, s.part[n].name[|CStr(name)| + 1..]);
    PartsAround(s, n);
    PartsAround(Renamed(s, n, name), n);
  }

  lemma PartsAround(s: Spt, n: nat)
    requires n < s.partitions <= MAX_PARTITIONS
    ensures Parts(s) == s.part[..n] + [s.part[n]] + s.part[n + 1..s.partitions]
  {
  }

  lemma ReplaceMiddle(a: seq<Part>, p: Part, b: seq<Part>, q: Part)
    ensures (a + [p] + b)[|a| := q] == a + [q] + b
  {
  }

  /** Renaming slot k (at partition n) to a name that is not reserved keeps every slot number. */
  lemma SlotsAfterRename(s: Spt, k: nat, n: nat, name: seq<byte>)
    requires s.partitions <= MAX_PARTITIONS && k < |SlotParts(s.part, s.partitions)|
    requires n == SlotParts(s.part, s.partitions)[k] && n < s.partitions
    requires |CStr(name)| < NAME_LENGTH && !ReservedName(CStr(name))
    ensures k < |Slots(Parts(s))| && CStr(Renamed(s, n, name).part[n].name) == CStr(name)
    ensures Slots(Parts(Renamed(s, n, name))) == Slots(Parts(s))[k := Renamed(s, n, name).part[n]]
  {
    SlotRank(s.part, s.partitions, k);
    PartsAfterRename(s, n, name);
    var a, b := s.part[..n], s.part[n + 1..s.partitions];
    var p, q := s.part[n], Renamed(s, n, name).part[n];
    assert IsSlot(q);
    SlotsAround(a, p, b);
    SlotsAround(a, q, b);
    ReplaceMiddle(Slots(a), p, Slots(b), q);
  }

  // ---- well-formedness is preserved ----

  // what SptOk says of the partitions in use, without the checksum
  ghost predicate PartsOk(ps: seq<Part>) {
    && |ps| <= MAX_PARTITIONS
    && (forall x, y :: 0 <= x < |ps| && 0 <= y < |ps| && x != y ==>
          CStr(ps[x].name) != CStr(ps[y].name) && !Overlap(ps[x], ps[y]))
    && HasName(ps, SPT0) && HasName(ps, SPT1) && HasName(ps, CPB0) && HasName(ps, CPB1)
  }

  ghost predicate HasName(ps: seq<Part>, name: seq<byte>) {
    exists p :: p in ps && CStr(p.name) == name
  }

  lemma HasIsHasName(s: Spt, name: seq<byte>)
    requires s.partitions <= MAX_PARTITIONS
    ensures Has(s, name) <==> HasName(Parts(s), name)
  {
    if x :| 0 <= x < s.partitions && CStr(s.part[x].name) == name {
      assert Parts(s)[x] in Parts(s);
    }
    if p :| p in Parts(s) && CStr(p.name) == name {
      var x :| 0 <= x < |Parts(s)| && Parts(s)[x] == p;
    }
  }

  lemma SptOkIsPartsOk(s: Spt, checksumEnabled: bool)
    requires s.partitions <= MAX_PARTITIONS
    ensures SptOk(s, checksumEnabled) <==>
      PartsOk(Parts(s)) && (s.version > SPT_VERSION && checksumEnabled ==> SwapEndian32(s.checksum) == SptCrc(s))
  {
    HasIsHasName(s, SPT0);
    HasIsHasName(s, SPT1);
    HasIsHasName(s, CPB0);
    HasIsHasName(s, CPB1);
    if PartsOk(Parts(s)) {
      forall x, y | 0 <= x < s.partitions && 0 <= y < s.partitions ensures Distinct(s, x, y) {
        assert Parts(s)[x] == s.part[x] && Parts(s)[y] == s.part[y];
      }
    }
    if forall x, y :: 0 <= x < s.partitions && 0 <= y < s.partitions ==> Distinct(s, x, y) {
      var ps := Parts(s);
      forall x, y | 0 <= x < |ps| && 0 <= y < |ps| && x != y
        ensures CStr(ps[x].name) != CStr(ps[y].name) && !Overlap(ps[x], ps[y])
      {
        assert Distinct(s, x, y);
      }
    }
  }

  lemma SealedTwice(s: Spt, checksumEnabled: bool)
    ensures Sealed(Sealed(s, checksumEnabled), checksumEnabled) == Sealed(s, checksumEnabled)
    ensures SptCrc(s.(checksum := 0)) == SptCrc(s)
  {
    assert Sealed(s, checksumEnabled).(checksum := 0) == s.(checksum := 0);
  }

  /** Sealing makes the checksum check pass, whatever the table holds. */
  lemma SealedIsOk(s: Spt, checksumEnabled: bool)
    requires s.partitions <= MAX_PARTITIONS && PartsOk(Parts(s))
    ensures SptOk(Sealed(s, checksumEnabled), checksumEnabled)
  {
    var t := Sealed(s, checksumEnabled);
    SwapEndian32Involution(SptCrc(s));
    assert s.(checksum := 0) == t.(checksum := 0);
    SptOkIsPartsOk(t, checksumEnabled);
  }

  predicate NameFree(ps: seq<Part>, name: seq<byte>) {
    forall x :: 0 <= x < |ps| ==> CStr(ps[x].name) != CStr(name)
  }

  lemma CreateKeepsPartsOk(ps: seq<Part>, p: Part)
    requires PartsOk(ps) && |ps| < MAX_PARTITIONS && NameFree(ps, p.name)
    requires forall x :: 0 <= x < |ps| ==> !Overlap(p, ps[x])
    ensures PartsOk(ps + [p])
  {
    CStrIdempotent(p.name);
    var r := ps + [p];
    assert forall q :: q in ps ==> q in r;
  }

  lemma {:induction false} CStrIdempotent(s: seq<byte>)
    ensures CStr(CStr(s)) == CStr(s)
  {
    if |CStr(s)| > 0 {
      CStrIdempotent(s[1..]);
      assert CStr(s)[1..] == CStr(s[1..]);
    }
  }

  // the names that load_spt asks for
  predicate TableName(name: seq<byte>) {
    name in [SPT0, SPT1, CPB0, CPB1]
  }

  // A name that is free is none of them.
  lemma FreeIsNoTable(ps: seq<Part>, name: seq<byte>)
    requires PartsOk(ps) && NameFree(ps, name)
    ensures !TableName(CStr(name))
  {
    hide CStr, Overlap;
    assert forall p :: p in ps ==> CStr(p.name) != CStr(name);
  }

  lemma SameRange(p: Part, q: Part, name: Name)
    ensures Overlap(p.(name := name), q) == Overlap(p, q) && Overlap(q, p.(name := name)) == Overlap(q, p)
  {
  }

  lemma RenameKeepsName(ps: seq<Part>, x: nat, q: Part, name: seq<byte>)
    requires x < |ps| && HasName(ps, name) && CStr(ps[x].name) != name
    ensures HasName(ps[x := q], name)
  {
    var p :| p in ps && CStr(p.name) == name;
    var i :| 0 <= i < |ps| && ps[i] == p;
    assert ps[x := q][i] == p;
  }

  lemma RenameKeepsPartsOk(ps: seq<Part>, x: nat, name: Name)
    requires PartsOk(ps) && x < |ps| && NameFree(ps, name) && !TableName(CStr(ps[x].name))
    ensures PartsOk(ps[x := ps[x].(name := name)])
  {
    hide CStr, Overlap, HasName;
    var p, r := ps[x].(name := name), ps[x := ps[x].(name := name)];
    RenameKeepsName(ps, x, p, SPT0);
    RenameKeepsName(ps, x, p, SPT1);
    RenameKeepsName(ps, x, p, CPB0);
    RenameKeepsName(ps, x, p, CPB1);
    forall i, j | 0 <= i < |r| && 0 <= j < |r| && i != j
      ensures CStr(r[i].name) != CStr(r[j].name) && !Overlap(r[i], r[j])
    {
      SameRange(ps[x], ps[if i == x then j else i], name);
    }
  }

  lemma DeleteKeepsName(ps: seq<Part>, x: nat, name: seq<byte>)
    requires x < |ps| && HasName(ps, name) && CStr(ps[x].name) != name
    ensures HasName(ps[..x] + ps[x + 1..], name)
  {
    var r := ps[..x] + ps[x + 1..];
    var p :| p in ps && CStr(p.name) == name;
    var i :| 0 <= i < |ps| && ps[i] == p;
    assert p == r[if i < x then i else i - 1];
  }

  lemma DeleteKeepsPartsOk(ps: seq<Part>, x: nat)
    requires PartsOk(ps) && x < |ps| && !TableName(CStr(ps[x].name))
    ensures PartsOk(ps[..x] + ps[x + 1..])
  {
    hide CStr, Overlap, HasName;
    var r := ps[..x] + ps[x + 1..];
    DeleteKeepsName(ps, x, SPT0);
    DeleteKeepsName(ps, x, SPT1);
    DeleteKeepsName(ps, x, CPB0);
    DeleteKeepsName(ps, x, CPB1);
    forall i, j | 0 <= i < |r| && 0 <= j < |r| && i != j
      ensures CStr(r[i].name) != CStr(r[j].name) && !Overlap(r[i], r[j])
    {
      var i', j' := if i < x then i else i + 1, if j < x then j else j + 1;
      assert r[i] == ps[i'] && r[j] == ps[j'] && i' != j';
    }
  }

  // ---- the CPB stays consistent with the table ----

  // the partition a pointer refers to, if any
  function FirstPart(ps: seq<Part>, v: u64): (r: seq<Part>)
    ensures |r| <= 1
  {
    if |ps| == 0 then [] else if ps[0].offset == v then [ps[0]] else FirstPart(ps[1..], v)
  }

  lemma {:induction false} FirstPartConcat(a: seq<Part>, b: seq<Part>, v: u64)
    ensures FirstPart(a + b, v) == if FirstPart(a, v) == [] then FirstPart(b, v) else FirstPart(a, v)
  {
    if |a| == 0 {
      assert a + b == b;
    } else {
      assert (a + b)[1..] == a[1..] + b;
      FirstPartConcat(a[1..], b, v);
    }
  }

  lemma {:induction false} FirstAtIsFirstPart(s: Spt, v: u64, from: nat)
    requires from <= s.partitions <= MAX_PARTITIONS
    ensures FirstPart(Parts(s)[from..], v) ==
      (var y := FirstAt(s, v, from); if y < s.partitions then [s.part[y]] else [])
    decreases s.partitions - from
  {
    if from < s.partitions {
      FirstAtIsFirstPart(s, v, from + 1);
      assert Parts(s)[from..][1..] == Parts(s)[from + 1..];
    }
  }

  // PointerOk depends only on the partitions in use.
  lemma PointerOkByParts(s: Spt, v: u64)
    requires s.partitions <= MAX_PARTITIONS
    ensures PointerOk(v, s) <==>
      (IsLive(v) ==> FirstPart(Parts(s), v) != [] && !FirstPart(Parts(s), v)[0].Reserved())
  {
    FirstAtIsFirstPart(s, v, 0);
    assert Parts(s)[0..] == Parts(s);
  }

  /** Pointers accepted before stay accepted when partitions are appended. */
  lemma CreateKeepsPointer(s: Spt, c: Spt, v: u64, p: Part)
    requires s.partitions <= MAX_PARTITIONS && c.partitions <= MAX_PARTITIONS
    requires Parts(c) == Parts(s) + [p] && PointerOk(v, s)
    ensures PointerOk(v, c)
  {
    PointerOkByParts(s, v);
    PointerOkByParts(c, v);
    FirstPartConcat(Parts(s), [p], v);
  }

  /** Deleting a partition no pointer refers to keeps every pointer accepted. */
  lemma DeleteKeepsPointer(s: Spt, d: Spt, v: u64, x: nat)
    requires x < s.partitions <= MAX_PARTITIONS && d.partitions <= MAX_PARTITIONS
    requires Parts(d) == Parts(s)[..x] + Parts(s)[x + 1..] && PointerOk(v, s) && s.part[x].offset != v
    ensures PointerOk(v, d)
  {
    var a, q, b := Parts(s)[..x], [s.part[x]], Parts(s)[x + 1..];
    PointerOkByParts(s, v);
    PointerOkByParts(d, v);
    assert Parts(s) == a + (q + b);
    FirstPartConcat(a, q + b, v);
    FirstPartConcat(q, b, v);
    assert q[1..] == [];
    FirstPartConcat(a, b, v);
  }

  lemma RenameKeepsPointer(s: Spt, r: Spt, v: u64, x: nat, name: Name)
    requires x < s.partitions == r.partitions <= MAX_PARTITIONS
    requires r.part == s.part[x := s.part[x].(name := name)] && PointerOk(v, s)
    ensures PointerOk(v, r)
  {
    var a, q, b := Parts(s)[..x], [s.part[x]], Parts(s)[x + 1..];
    var q' := [r.part[x]];
    PointerOkByParts(s, v);
    PointerOkByParts(r, v);
    assert Parts(s) == a + (q + b) && Parts(r) == a + (q' + b);
    FirstPartConcat(a, q + b, v);
    FirstPartConcat(q, b, v);
    FirstPartConcat(a, q' + b, v);
    FirstPartConcat(q', b, v);
    assert q[1..] == [] && q'[1..] == [];
  }

  // ---- what the checksum detects ----

  const CHECKSUM: nat := 12 // its offset in the table

  // the table as the checksum sees it
  function Unsummed(t: Table): (r: Table) {
    t[..CHECKSUM] + [0, 0, 0, 0] + t[CHECKSUM + 4..]
  }

  lemma ZeroWord()
    ensures LE(0, 4) == [0, 0, 0, 0]
  {
  }

  lemma ChecksumPlace(t: Table)
    ensures EncSpt(DecSpt(t).(checksum := 0)) == Unsummed(t)
    ensures t[CHECKSUM..CHECKSUM + 4] == LE(DecSpt(t).checksum, 4)
  {
    hide LE, EncWords, EncParts, DecSpt;
    var s := DecSpt(t);
    SptBytesRoundTrip(t);
    FourWords(s.magic, s.version, s.partitions, s.checksum);
    FourWords(s.magic, s.version, s.partitions, 0);
    ZeroWord();
    var head := LE(s.magic, 4) + LE(s.version, 4) + LE(s.partitions, 4);
    var tail := s.rsvd + EncParts(s.part);
    assert t == head + (LE(s.checksum, 4) + tail);
    assert EncSpt(s.(checksum := 0)) == head + ([0, 0, 0, 0] + tail);
  }

  /** check_spt on the bytes in flash, for a table that has a checksum: its partitions are sound, and the checksum is
      the CRC of the table, every byte with its bits reversed and zeros in place of the checksum, high byte
      first. */
  lemma ChecksumBytes(t: Table)
    requires DecSpt(t).version > SPT_VERSION && DecSpt(t).partitions <= MAX_PARTITIONS
    ensures SptOk(DecSpt(t), true) <==>
      PartsOk(Parts(DecSpt(t))) && t[CHECKSUM..CHECKSUM + 4] == Reverse4(LE(Crc32(SwapSeq(Unsummed(t))), 4))
  {
    hide Crc32, SwapSeq, DecSpt, LE, PartsOk, SptOk, FromLE32;
    var s := DecSpt(t);
    SptOkIsPartsOk(s, true);
    ChecksumPlace(t);
    SwapIff(s.checksum, SptCrc(s));
  }

  lemma SwapIff(a: u32, b: u32)
    ensures SwapEndian32(a) == b <==> LE(a, 4) == Reverse4(LE(b, 4))
  {
    hide LE, SwapEndian32;
    SwapEndian32Involution(a);
    LE32RoundTrip(a);
    LE32RoundTrip(SwapEndian32(b));
    SwapEndian32Involution(b);
    assert LE(SwapEndian32(b), 4) == Reverse4(LE(b, 4));
  }

  // One burst of damage: bytes change in up to four places in a row, and not in the checksum.
  ghost predicate Damaged(t: Table, t': Table, k: nat) {
    && t != t' && t'[CHECKSUM..CHECKSUM + 4] == t[CHECKSUM..CHECKSUM + 4]
    && (forall i :: 0 <= i < TABLE && !(k <= i < k + 4) ==> t'[i] == t[i])
  }

  lemma SwapDiffers(a: seq<byte>, b: seq<byte>)
    requires a != b
    ensures SwapSeq(a) != SwapSeq(b)
  {
    SwapSeqInvolution(a);
    SwapSeqInvolution(b);
  }

  lemma DamageShows(t: Table, t': Table, k: nat)
    requires Damaged(t, t', k)
    ensures SptCrc(DecSpt(t)) != SptCrc(DecSpt(t')) && DecSpt(t').checksum == DecSpt(t).checksum
  {
    hide DecSpt, EncSpt, Crc32, SwapByte, LE;
    ChecksumPlace(t);
    ChecksumPlace(t');
    LE32RoundTrip(DecSpt(t).checksum);
    LE32RoundTrip(DecSpt(t').checksum);
    var u, u' := Unsummed(t), Unsummed(t');
    assert t == u[..CHECKSUM] + t[CHECKSUM..CHECKSUM + 4] + u[CHECKSUM + 4..];
    assert t' == u'[..CHECKSUM] + t'[CHECKSUM..CHECKSUM + 4] + u'[CHECKSUM + 4..];
    SwapDiffers(u, u');
    Crc.BytesDetected(SwapSeq(u), SwapSeq(u'), k);
  }

  /** A table that passes check_spt with its checksum, and then damaged in up to four bytes in a row, passes it
      again only if the damage cleared the version: then the checksum is not looked at. */
  lemma DamageRefused(t: Table, t': Table, k: nat)
    requires Damaged(t, t', k) && DecSpt(t).version > SPT_VERSION && SptOk(DecSpt(t), true)
    ensures SptOk(DecSpt(t'), true) ==> DecSpt(t').version == SPT_VERSION
  {
    hide DecSpt, SptCrc, Distinct, Has;
    DamageShows(t, t', k);
  }

  /** And then it does pass, whatever the checksum says: the version decides whether there is one. */
  lemma VersionUnprotected(s: Spt)
    requires SptOk(s, true)
    ensures SptOk(s.(version := SPT_VERSION), true) && forall c: u32 ::
      SptOk(s.(version := SPT_VERSION, checksum := c), true)
  {
    hide SptCrc, CStr;
    forall c: u32 ensures SptOk(s.(version := SPT_VERSION, checksum := c), true) {
      SameParts(s, s.(version := SPT_VERSION, checksum := c));
    }
    assert s.(version := SPT_VERSION) == s.(version := SPT_VERSION, checksum := s.checksum);
  }

  lemma SameParts(s: Spt, s': Spt)
    requires SptOk(s, true) && s' == s.(version := SPT_VERSION, checksum := s'.checksum)
    ensures SptOk(s', true)
  {
    hide SptCrc;
    SptOkIsPartsOk(s, true);
    SptOkIsPartsOk(s', true);
    assert Parts(s) == Parts(s');
  }
}
