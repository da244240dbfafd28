/** The sub-partition table (SPT) and the CMF pointer block (CPB): their C structs, the bytes
    those occupy in flash, and what check_spt and check_cpb accept. */
module Tables {
  import opened Bits
  import opened FlashDev
  import opened DualCopy

  const SPT_MAGIC: u32 := 0x57713427
  const SPT_VERSION: u32 := 0
  const MAX_PARTITIONS: nat := 127
  const NAME_LENGTH: nat := 16

  const CPB_MAGIC: u32 := 0x57789609
  const CPB_HEADER_SIZE: u32 := 24
  const CPB_IMAGE_PTR_OFFSET: u32 := 32
  const CPB_NSLOTS: nat := 508

  const ERASED_ENTRY: u64 := 0xFFFF_FFFF_FFFF_FFFF
  const SPENT_ENTRY: u64 := 0

  type Name = s: seq<byte> | |s| == NAME_LENGTH witness seq(NAME_LENGTH, _ => 0)

  datatype Part = Part(name: Name, offset: u64, length: u32, flags: u32) {
    predicate Reserved() { flags % 2 == 1 }
    predicate ReadOnly() { flags / 2 % 2 == 1 }
    // offset + length in 64-bit arithmetic
    function End(): u64 { (offset + length) % U64_MOD }
  }

  type PartArray = s: seq<Part> | |s| == MAX_PARTITIONS
    witness seq(MAX_PARTITIONS, _ => Part(seq(NAME_LENGTH, _ => 0), 0, 0, 0))

  datatype Spt = Spt(magic: u32, version: u32, partitions: u32, checksum: u32, rsvd: Name, part: PartArray)

  type SlotArray = s: seq<u64> | |s| == CPB_NSLOTS witness seq(CPB_NSLOTS, _ => 0)
  type Pad = s: seq<byte> | |s| == 8 witness seq(8, _ => 0)

  datatype Cpb = Cpb(magic: u32, headerSize: u32, cpbSize: u32, reserved: u32, ptrOffset: u32,
                     nSlots: u32, pad: Pad, slots: SlotArray)

  // ---- layout in flash ----

  function EncWords(ws: seq<u32>): (r: seq<byte>)
    ensures |r| == 4 * |ws|
  {
    if |ws| == 0 then [] else LE(ws[0], 4) + EncWords(ws[1..])
  }

  function DecWords(s: seq<byte>): (r: seq<u32>)
    requires |s| % 4 == 0
    ensures 4 * |r| == |s|
  {
    if |s| == 0 then [] else [FromLE32(s[..4])] + DecWords(s[4..])
  }

  lemma {:induction false} WordsRoundTrip(ws: seq<u32>)
    ensures DecWords(EncWords(ws)) == ws
  {
    if |ws| > 0 {
      var s := EncWords(ws);
      assert s[..4] == LE(ws[0], 4) && s[4..] == EncWords(ws[1..]);
      LE32RoundTrip(ws[0]);
      WordsRoundTrip(ws[1..]);
    }
  }

  lemma {:induction false} WordBytesRoundTrip(s: seq<byte>)
    requires |s| % 4 == 0
    ensures EncWords(DecWords(s)) == s
  {
    if |s| > 0 {
      ToFromLE(s[..4]);
      WordBytesRoundTrip(s[4..]);
      assert DecWords(s)[1..] == DecWords(s[4..]);
      assert s == s[..4] + s[4..];
    }
  }

  function EncSlots(ws: seq<u64>): (r: seq<byte>)
    ensures |r| == 8 * |ws|
  {
    if |ws| == 0 then [] else LE(ws[0], 8) + EncSlots(ws[1..])
  }

  function DecSlots(s: seq<byte>): (r: seq<u64>)
    requires |s| % 8 == 0
    ensures 8 * |r| == |s|
  {
    if |s| == 0 then [] else [FromLE64(s[..8])] + DecSlots(s[8..])
  }

  lemma {:induction false} SlotsRoundTrip(ws: seq<u64>)
    ensures DecSlots(EncSlots(ws)) == ws
  {
    if |ws| > 0 {
      var s := EncSlots(ws);
      assert s[..8] == LE(ws[0], 8) && s[8..] == EncSlots(ws[1..]);
      LE64RoundTrip(ws[0]);
      SlotsRoundTrip(ws[1..]);
    }
  }

  lemma {:induction false} SlotBytesRoundTrip(s: seq<byte>)
    requires |s| % 8 == 0
    ensures EncSlots(DecSlots(s)) == s
  {
    if |s| > 0 {
      ToFromLE(s[..8]);
      SlotBytesRoundTrip(s[8..]);
      assert DecSlots(s)[1..] == DecSlots(s[8..]);
      assert s == s[..8] + s[8..];
    }
  }

  function EncPart(p: Part): (r: seq<byte>)
    ensures |r| == 32
  {
    p.name + LE(p.offset, 8) + EncWords([p.length, p.flags])
  }

  function DecPart(s: seq<byte>): Part
    requires |s| == 32
  {
    var ws := DecWords(s[24..]);
    Part(s[..16], FromLE64(s[16..24]), ws[0], ws[1])
  }

  lemma PartRoundTrip(p: Part)
    ensures DecPart(EncPart(p)) == p
  {
    var s := EncPart(p);
    assert s[..16] == p.name && s[16..24] == LE(p.offset, 8);
    assert s[24..] == EncWords([p.length, p.flags]);
    LE64RoundTrip(p.offset);
    WordsRoundTrip([p.length, p.flags]);
  }

  lemma PartBytesRoundTrip(s: seq<byte>)
    requires |s| == 32
    ensures EncPart(DecPart(s)) == s
  {
    hide LE, FromLE, DecWords, EncWords;
    var p := DecPart(s);
    ToFromLE(s[16..24]);
    WordBytesRoundTrip(s[24..]);
    assert [p.length, p.flags] == DecWords(s[24..]);
    assert s == s[..16] + s[16..24] + s[24..];
  }

  function EncParts(ps: seq<Part>): (r: seq<byte>)
    ensures |r| == 32 * |ps|
  {
    if |ps| == 0 then [] else EncPart(ps[0]) + EncParts(ps[1..])
  }

  function DecParts(s: seq<byte>): (r: seq<Part>)
    requires |s| % 32 == 0
    ensures 32 * |r| == |s|
  {
    if |s| == 0 then [] else [DecPart(s[..32])] + DecParts(s[32..])
  }

  lemma {:induction false} PartsRoundTrip(ps: seq<Part>)
    ensures DecParts(EncParts(ps)) == ps
  {
    if |ps| > 0 {
      var s := EncParts(ps);
      assert s[..32] == EncPart(ps[0]) && s[32..] == EncParts(ps[1..]);
      PartRoundTrip(ps[0]);
      PartsRoundTrip(ps[1..]);
    }
  }

  lemma {:induction false} PartsBytesRoundTrip(s: seq<byte>)
    requires |s| % 32 == 0
    ensures EncParts(DecParts(s)) == s
  {
    if |s| > 0 {
      PartBytesRoundTrip(s[..32]);
      PartsBytesRoundTrip(s[32..]);
      assert DecParts(s)[1..] == DecParts(s[32..]);
      assert s == s[..32] + s[32..];
    }
  }

  function EncSpt(s: Spt): Table {
    EncWords([s.magic, s.version, s.partitions, s.checksum]) + s.rsvd + EncParts(s.part)
  }

  function DecSpt(t: Table): Spt {
    var ws := DecWords(t[..16]);
    Spt(ws[0], ws[1], ws[2], ws[3], t[16..32], DecParts(t[32..]))
  }

  lemma SptRoundTrip(s: Spt)
    ensures DecSpt(EncSpt(s)) == s
  {
    var t := EncSpt(s);
    var ws := [s.magic, s.version, s.partitions, s.checksum];
    assert t[..16] == EncWords(ws) && t[16..32] == s.rsvd && t[32..] == EncParts(s.part);
    WordsRoundTrip(ws);
    PartsRoundTrip(s.part);
  }

  lemma SptBytesRoundTrip(t: Table)
    ensures EncSpt(DecSpt(t)) == t
  {
    var s := DecSpt(t);
    WordBytesRoundTrip(t[..16]);
    assert [s.magic, s.version, s.partitions, s.checksum] == DecWords(t[..16]);
    PartsBytesRoundTrip(t[32..]);
    assert t == t[..16] + t[16..32] + t[32..];
  }

  function EncCpb(c: Cpb): Table {
    EncWords([c.magic, c.headerSize, c.cpbSize, c.reserved, c.ptrOffset, c.nSlots]) + c.pad + EncSlots(c.slots)
  }

  function DecCpb(t: Table): Cpb {
    var ws := DecWords(t[..24]);
    Cpb(ws[0], ws[1], ws[2], ws[3], ws[4], ws[5], t[24..32], DecSlots(t[32..]))
  }

  lemma CpbRoundTrip(c: Cpb)
    ensures DecCpb(EncCpb(c)) == c
  {
    var t := EncCpb(c);
    var ws := [c.magic, c.headerSize, c.cpbSize, c.reserved, c.ptrOffset, c.nSlots];
    assert t[..24] == EncWords(ws) && t[24..32] == c.pad && t[32..] == EncSlots(c.slots);
    WordsRoundTrip(ws);
    SlotsRoundTrip(c.slots);
  }

  lemma CpbBytesRoundTrip(t: Table)
    ensures EncCpb(DecCpb(t)) == t
  {
    var c := DecCpb(t);
    WordBytesRoundTrip(t[..24]);
    assert [c.magic, c.headerSize, c.cpbSize, c.reserved, c.ptrOffset, c.nSlots] == DecWords(t[..24]);
    SlotBytesRoundTrip(t[32..]);
    assert t == t[..24] + t[24..32] + t[32..];
  }

  // ---- where the fields are ----

  lemma FourWords(a: u32, b: u32, c: u32, d: u32)
    ensures EncWords([a, b, c, d]) == LE(a, 4) + LE(b, 4) + LE(c, 4) + LE(d, 4)
  {
    hide LE;
    assert EncWords([d]) == LE(d, 4) + EncWords([]) == LE(d, 4);
    assert [c, d][1..] == [d] && [b, c, d][1..] == [c, d] && [a, b, c, d][1..] == [b, c, d];
    assert EncWords([c, d]) == LE(c, 4) + EncWords([d]);
    assert EncWords([b, c, d]) == LE(b, 4) + EncWords([c, d]);
  }

  lemma TwoWords(a: u32, b: u32)
    ensures EncWords([a, b]) == LE(a, 4) + LE(b, 4)
  {
    hide LE;
    assert EncWords([b]) == LE(b, 4) + EncWords([]) == LE(b, 4);
    assert [a, b][1..] == [b];
  }

  /** A partition in flash: name, offset, length and flags, the numbers low byte first. */
  lemma PartLayout(p: Part)
    ensures var s := EncPart(p);
      s[..16] == p.name && s[16..24] == LE(p.offset, 8) && s[24..28] == LE(p.length, 4) && s[28..] == LE(p.flags, 4)
  {
    hide LE, EncWords;
    TwoWords(p.length, p.flags);
  }

  lemma {:induction false} PartAtPlace(ps: seq<Part>, i: nat)
    requires i < |ps|
    ensures EncParts(ps)[32 * i..32 * i + 32] == EncPart(ps[i])
  {
    hide EncPart;
    if i > 0 {
      PartAtPlace(ps[1..], i - 1);
      var s := EncParts(ps[1..]);
      assert EncParts(ps)[32 * i..32 * i + 32] == s[32 * (i - 1)..32 * (i - 1) + 32];
    }
  }

  /** The SPT in flash: magic, version, number of partitions and checksum, 16 reserved bytes, and partition i at
      32 + 32 * i. */
  lemma SptLayout(s: Spt, i: nat)
    requires i < MAX_PARTITIONS
    ensures var t := EncSpt(s);
      && t[..4] == LE(s.magic, 4) && t[4..8] == LE(s.version, 4) && t[8..12] == LE(s.partitions, 4)
      && t[12..16] == LE(s.checksum, 4) && t[16..32] == s.rsvd && t[32 + 32 * i..64 + 32 * i] == EncPart(s.part[i])
  {
    hide LE, EncWords, EncParts, EncPart;
    FourWords(s.magic, s.version, s.partitions, s.checksum);
    PartAtPlace(s.part, i);
    assert EncSpt(s)[32..] == EncParts(s.part);
    assert EncSpt(s)[32 + 32 * i..64 + 32 * i] == EncParts(s.part)[32 * i..32 * i + 32];
  }

  lemma {:induction false} SlotAtPlace(ws: seq<u64>, i: nat)
    requires i < |ws|
    ensures EncSlots(ws)[8 * i..8 * i + 8] == LE(ws[i], 8)
  {
    hide LE;
    if i > 0 {
      SlotAtPlace(ws[1..], i - 1);
      var s := EncSlots(ws[1..]);
      assert EncSlots(ws)[8 * i..8 * i + 8] == s[8 * (i - 1)..8 * (i - 1) + 8];
    }
  }

  /** The CPB in flash: six words, eight bytes between, and entry i at 32 + 8 * i. */
  lemma CpbLayout(c: Cpb, i: nat)
    requires i < CPB_NSLOTS
    ensures var t := EncCpb(c);
      && t[..4] == LE(c.magic, 4) && t[4..8] == LE(c.headerSize, 4) && t[8..12] == LE(c.cpbSize, 4)
      && t[12..16] == LE(c.reserved, 4) && t[16..20] == LE(c.ptrOffset, 4) && t[20..24] == LE(c.nSlots, 4)
      && t[24..32] == c.pad && t[32 + 8 * i..40 + 8 * i] == LE(c.slots[i], 8)
  {
    hide LE, EncWords, EncSlots;
    var ws := [c.magic, c.headerSize, c.cpbSize, c.reserved, c.ptrOffset, c.nSlots];
    assert ws == [c.magic, c.headerSize, c.cpbSize, c.reserved] + [c.ptrOffset, c.nSlots];
    WordsConcat([c.magic, c.headerSize, c.cpbSize, c.reserved], [c.ptrOffset, c.nSlots]);
    FourWords(c.magic, c.headerSize, c.cpbSize, c.reserved);
    TwoWords(c.ptrOffset, c.nSlots);
    SlotAtPlace(c.slots, i);
    assert EncCpb(c)[32..] == EncSlots(c.slots);
    assert EncCpb(c)[32 + 8 * i..40 + 8 * i] == EncSlots(c.slots)[8 * i..8 * i + 8];
  }

  lemma {:induction false} WordsConcat(a: seq<u32>, b: seq<u32>)
    ensures EncWords(a + b) == EncWords(a) + EncWords(b)
  {
    hide LE;
    if |a| == 0 {
      assert a + b == b;
    } else {
      assert (a + b)[1..] == a[1..] + b;
      WordsConcat(a[1..], b);
    }
  }

  // The first word of either struct is the magic number of its bytes.
  lemma MagicIsFirst(t: Table)
    ensures DecSpt(t).magic == Magic(t) && DecCpb(t).magic == Magic(t)
  {
    assert t[..16][..4] == t[..4] && t[..24][..4] == t[..4];
  }

  lemma BlankBytes()
    ensures LE(BLANK_MAGIC, 4) == [0xFF, 0xFF, 0xFF, 0xFF]
  {
  }

  lemma FirstWord(ws: seq<u32>)
    requires |ws| > 0
    ensures EncWords(ws)[..4] == LE(ws[0], 4) && EncWords(ws)[4..] == EncWords(ws[1..])
  {
  }

  lemma SptMagicBytes(s: Spt)
    ensures EncSpt(s)[..4] == LE(s.magic, 4) && Magic(EncSpt(s)) == s.magic
    ensures s.magic != BLANK_MAGIC ==> EncSpt(s.(magic := BLANK_MAGIC)) == Blank(EncSpt(s))
  {
    hide LE, EncWords, EncParts;
    LE32RoundTrip(s.magic);
    var b := s.(magic := BLANK_MAGIC);
    BlankBytes();
    FirstWord([b.magic, b.version, b.partitions, b.checksum]);
    FirstWord([s.magic, s.version, s.partitions, s.checksum]);
    assert [b.magic, b.version, b.partitions, b.checksum][1..] == [s.magic, s.version, s.partitions, s.checksum][1..];
    assert EncSpt(b)[4..] == EncSpt(s)[4..];
    assert EncSpt(b) == EncSpt(b)[..4] + EncSpt(b)[4..];
  }

  lemma CpbMagicBytes(c: Cpb)
    ensures EncCpb(c)[..4] == LE(c.magic, 4) && Magic(EncCpb(c)) == c.magic
    ensures c.magic != BLANK_MAGIC ==> EncCpb(c.(magic := BLANK_MAGIC)) == Blank(EncCpb(c))
  {
    hide LE, EncWords, EncSlots;
    LE32RoundTrip(c.magic);
    var b := c.(magic := BLANK_MAGIC);
    BlankBytes();
    FirstWord([b.magic, b.headerSize, b.cpbSize, b.reserved, b.ptrOffset, b.nSlots]);
    FirstWord([c.magic, c.headerSize, c.cpbSize, c.reserved, c.ptrOffset, c.nSlots]);
    assert [b.magic, b.headerSize, b.cpbSize, b.reserved, b.ptrOffset, b.nSlots][1..]
        == [c.magic, c.headerSize, c.cpbSize, c.reserved, c.ptrOffset, c.nSlots][1..];
    assert EncCpb(b)[4..] == EncCpb(c)[4..];
    assert EncCpb(b) == EncCpb(b)[..4] + EncCpb(b)[4..];
  }

  // ---- programming a CPB over an older one ----

  lemma AndSelfSeq(s: seq<byte>)
    ensures AndSeq(s, s) == s
  {
    forall i | 0 <= i < |s| ensures AndSeq(s, s)[i] == s[i] {
      AndSelf(s[i]);
    }
  }

  lemma AndConcat(a: seq<byte>, b: seq<byte>, c: seq<byte>, d: seq<byte>)
    requires |a| == |b| && |c| == |d|
    ensures AndSeq(a + c, b + d) == AndSeq(a, b) + AndSeq(c, d)
  {
  }

  lemma {:induction false} AndSlots(v: seq<u64>, w: seq<u64>)
    requires |v| == |w| && forall i :: 0 <= i < |v| ==> And(v[i], w[i]) == w[i]
    ensures AndSeq(EncSlots(v), EncSlots(w)) == EncSlots(w)
  {
    if |v| > 0 {
      AndSlots(v[1..], w[1..]);
      AndLE(v[0], w[0], 8);
      assert AndSeq(LE(v[0], 8), LE(w[0], 8)) == LE(w[0], 8);
      AndConcat(LE(v[0], 8), LE(w[0], 8), EncSlots(v[1..]), EncSlots(w[1..]));
    }
  }

  /** Changing one entry to a value that only clears its bits only clears bits of the table, so
      programming the new table over the old one without erasing yields the new one. */
  lemma EntryUpdateOnlyClears(c: Cpb, slot: nat, v: u64)
    requires slot < CPB_NSLOTS && And(c.slots[slot], v) == v
    ensures OnlyClears(EncCpb(c), EncCpb(c.(slots := c.slots[slot := v])))
  {
    var d := c.(slots := c.slots[slot := v]);
    var ws := EncWords([c.magic, c.headerSize, c.cpbSize, c.reserved, c.ptrOffset, c.nSlots]);
    assert EncCpb(c) == (ws + c.pad) + EncSlots(c.slots);
    assert EncCpb(d) == (ws + c.pad) + EncSlots(d.slots);
    forall i | 0 <= i < CPB_NSLOTS ensures And(c.slots[i], d.slots[i]) == d.slots[i] {
      AndSelf(c.slots[i]);
    }
    AndSlots(c.slots, d.slots);
    AndSelfSeq(ws + c.pad);
    AndConcat(ws + c.pad, ws + c.pad, EncSlots(c.slots), EncSlots(d.slots));
  }

  /** An erased entry can become any pointer, and any entry can be spent. */
  lemma EntryCanChange(v: u64)
    ensures And(ERASED_ENTRY, v) == v && And(v, SPENT_ENTRY) == SPENT_ENTRY
  {
    Pow2_64();
    AndOnes(64, v);
    AndZero(v);
  }

  // ---- names ----

  // the C string held in a buffer
  function CStr(s: seq<byte>): (r: seq<byte>)
    ensures |r| <= |s|
  {
    if |s| == 0 || s[0] == 0 then [] else [s[0]] + CStr(s[1..])
  }

  const SPT0: seq<byte> := [0x53, 0x50, 0x54, 0x30]
  const SPT1: seq<byte> := [0x53, 0x50, 0x54, 0x31]
  const CPB0: seq<byte> := [0x43, 0x50, 0x42, 0x30]
  const CPB1: seq<byte> := [0x43, 0x50, 0x42, 0x31]
  const BOOT_INFO: seq<byte> := [0x42, 0x4F, 0x4F, 0x54, 0x5F, 0x49, 0x4E, 0x46, 0x4F]
  const FACTORY_IMAGE: seq<byte> :=
    [0x46, 0x41, 0x43, 0x54, 0x4F, 0x52, 0x59, 0x5F, 0x49, 0x4D, 0x41, 0x47, 0x45]

  predicate ReservedName(n: seq<byte>) {
    n in [BOOT_INFO, FACTORY_IMAGE, SPT0[..3], SPT0, SPT1, CPB0[..3], CPB0, CPB1]
  }

  // ---- what the checks accept ----

  function SptCrc(s: Spt): u32 {
    Crc32(SwapSeq(EncSpt(s.(checksum := 0))))
  }

  predicate Overlap(p: Part, q: Part) {
    p.offset < q.End() && p.End() > q.offset
  }

  ghost predicate Distinct(s: Spt, x: nat, y: nat)
    requires x < s.partitions <= MAX_PARTITIONS && y < s.partitions
  {
    x == y || (CStr(s.part[x].name) != CStr(s.part[y].name) && !Overlap(s.part[x], s.part[y]))
  }

  ghost predicate Has(s: Spt, name: seq<byte>)
    requires s.partitions <= MAX_PARTITIONS
  {
    exists x :: 0 <= x < s.partitions && CStr(s.part[x].name) == name
  }

  ghost predicate SptOk(s: Spt, checksumEnabled: bool) {
    && (s.version > SPT_VERSION && checksumEnabled ==> SwapEndian32(s.checksum) == SptCrc(s))
    && s.partitions <= MAX_PARTITIONS
    && (forall x, y :: 0 <= x < s.partitions && 0 <= y < s.partitions ==> Distinct(s, x, y))
    && Has(s, SPT0) && Has(s, SPT1) && Has(s, CPB0) && Has(s, CPB1)
  }

  ghost predicate SptGood(t: Table, checksumEnabled: bool) {
    DecSpt(t).magic == SPT_MAGIC && SptOk(DecSpt(t), checksumEnabled)
  }

  // the first partition at this offset, or the number of partitions
  function FirstAt(s: Spt, offset: u64, from: nat): (y: nat)
    requires from <= s.partitions <= MAX_PARTITIONS
    ensures from <= y <= s.partitions
    ensures y < s.partitions ==> s.part[y].offset == offset
    ensures forall k :: from <= k < y ==> s.part[k].offset != offset
    decreases s.partitions - from
  {
    if from == s.partitions || s.part[from].offset == offset then from else FirstAt(s, offset, from + 1)
  }

  predicate IsLive(v: u64) {
    v != ERASED_ENTRY && v != SPENT_ENTRY
  }

  predicate PointerOk(v: u64, s: Spt)
    requires s.partitions <= MAX_PARTITIONS
  {
    IsLive(v) ==> var y := FirstAt(s, v, 0); y < s.partitions && !s.part[y].Reserved()
  }

  ghost predicate CpbOk(slots: seq<u64>, s: Spt)
    requires s.partitions <= MAX_PARTITIONS
  {
    forall x :: 0 <= x < |slots| ==> PointerOk(slots[x], s)
  }

  // image_ptr_slots is taken to be 508 in every table with a good magic number
  predicate CpbHeaderOk(c: Cpb) {
    c.magic == CPB_MAGIC && c.ptrOffset == CPB_IMAGE_PTR_OFFSET && c.nSlots == CPB_NSLOTS
  }

  /** The header that load_cpb accepts, byte by byte: magic number, pointer offset 32 and 508 entries. */
  lemma HeaderBytes(t: Table)
    ensures CpbHeaderOk(DecCpb(t)) <==>
      && t[..4] == [0x09, 0x96, 0x78, 0x57] && t[16..20] == [32, 0, 0, 0] && t[20..24] == [0xFC, 1, 0, 0]
  {
    hide DecCpb, EncCpb;
    var c := DecCpb(t);
    CpbBytesRoundTrip(t);
    CpbLayout(c, 0);
    SameWordIff(c.magic, CPB_MAGIC);
    SameWordIff(c.ptrOffset, CPB_IMAGE_PTR_OFFSET);
    SameWordIff(c.nSlots, CPB_NSLOTS);
    HeaderWords();
  }

  lemma SameWordIff(a: u32, b: u32)
    ensures a == b <==> LE(a, 4) == LE(b, 4)
  {
    LE32RoundTrip(a);
    LE32RoundTrip(b);
  }

  lemma HeaderWords()
    ensures LE(CPB_MAGIC, 4) == [0x09, 0x96, 0x78, 0x57]
    ensures LE(CPB_IMAGE_PTR_OFFSET, 4) == [32, 0, 0, 0] && LE(CPB_NSLOTS, 4) == [0xFC, 1, 0, 0]
  {
  }

  ghost predicate CpbGood(t: Table, s: Spt)
    requires s.partitions <= MAX_PARTITIONS
  {
    CpbHeaderOk(DecCpb(t)) && CpbOk(DecCpb(t).slots, s)
  }

  // The CPB check as a function of the raw table, for a given partition table.
  ghost function CpbCheck(s: Spt): Table -> bool {
    (t: Table) => s.partitions <= MAX_PARTITIONS && CpbGood(t, s)
  }
}
