/** flash_axc3000_sdm_qspi.c: flash requests of any offset and length as bounded mailbox commands
    with retries. The driver's contracts are those of FlashDev.Flash, which the RSU library is
    verified against. */
module QspiDriver {
  import opened Bits
  import opened FlashDev

  const MAX_WORDS: nat := 1024
  const ATTEMPTS: nat := 3

  // ---- mailbox commands ----

  datatype Command =
    | ReadWords(at: nat, words: nat)
    | WriteWords(at: nat, data: seq<byte>)
    | EraseSector(at: nat, sector: nat)

  predicate IsSector(at: nat, sector: nat) {
    (sector == 0x1000 || sector == 0x8000 || sector == 0x10000) && at % sector == 0
  }

  /** What the SDM accepts: whole aligned words, at most 1024 of them, and aligned 4, 32 or 64 KB
      sectors, inside the flash. */
  predicate Acceptable(cmd: Command, size: nat) {
    match cmd
    case ReadWords(at, words) => at % 4 == 0 && 1 <= words <= MAX_WORDS && at + 4 * words <= size
    case WriteWords(at, data) => at % 4 == 0 && |data| % 4 == 0 && 4 <= |data| <= 4 * MAX_WORDS && at + |data| <= size
    case EraseSector(at, sector) => IsSector(at, sector) && at + sector <= size
  }

  ghost function Effect(m: Mem, cmd: Command): (r: Mem)
    requires Acceptable(cmd, |m|)
    ensures |r| == |m|
  {
    match cmd
    case ReadWords(_, _) => m
    case WriteWords(at, data) => Programmed(m, at, data)
    case EraseSector(at, sector) => Erased(m, at, sector)
  }

  // what a failed command may have done
  ghost predicate Partial(m: Mem, m': Mem, cmd: Command)
    requires Acceptable(cmd, |m|)
  {
    match cmd
    case ReadWords(_, _) => m' == m
    case WriteWords(at, data) => TornProgram(m, m', at, data)
    case EraseSector(at, sector) => exists k: nat :: k <= sector && k % PAGE == 0 && m' == Erased(m, at, k)
  }

  function Answer(m: Mem, cmd: Command): seq<byte>
    requires Acceptable(cmd, |m|)
  {
    if cmd.ReadWords? then m[cmd.at..cmd.at + 4 * cmd.words] else []
  }

  lemma TornThenProgram(m: Mem, m1: Mem, at: nat, data: seq<byte>)
    requires at + |data| <= |m| && TornProgram(m, m1, at, data)
    ensures Programmed(m1, at, data) == Programmed(m, at, data)
  {
    hide And, TornByte;
    var r, s := Programmed(m1, at, data), Programmed(m, at, data);
    forall i | 0 <= i < |m| ensures r[i] == s[i] {
      if at <= i < at + |data| {
        var k := i - at;
        assert TornByte(m[at + k], data[k], m1[at + k]);
        TornByteAgain(m[i], data[k], m1[i]);
      }
    }
  }

  /** Repeating a command after any partial effect ends in the same flash as running it once. */
  lemma PartialThenEffect(m: Mem, m1: Mem, cmd: Command)
    requires Acceptable(cmd, |m|) && Partial(m, m1, cmd)
    ensures |m1| == |m| && Effect(m1, cmd) == Effect(m, cmd)
  {
    hide Programmed, TornByte;
    if cmd.WriteWords? {
      TornThenProgram(m, m1, cmd.at, cmd.data);
    }
  }

  lemma AnswerKept(m: Mem, m1: Mem, cmd: Command)
    requires Acceptable(cmd, |m|) && Partial(m, m1, cmd) && |m1| == |m|
    ensures Answer(m1, cmd) == Answer(m, cmd)
  {
  }

  lemma PartialTwice(m: Mem, m1: Mem, m2: Mem, cmd: Command)
    requires Acceptable(cmd, |m|) && Partial(m, m1, cmd) && |m1| == |m| && Partial(m1, m2, cmd)
    ensures Partial(m, m2, cmd)
  {
    match cmd
    case ReadWords(_, _) =>
    case WriteWords(at, data) =>
      forall i | 0 <= i < |data| ensures TornByte(m[at + i], data[i], m2[at + i]) {
        TornByteAgain(m[at + i], data[i], m1[at + i]);
      }
    case EraseSector(at, sector) =>
      var j: nat :| j <= sector && j % PAGE == 0 && m1 == Erased(m, at, j);
      var k: nat :| k <= sector && k % PAGE == 0 && m2 == Erased(m1, at, k);
      var l := if j < k then k else j;
      assert m2 == Erased(m, at, l);
  }

  lemma PartialNone(m: Mem, cmd: Command)
    requires Acceptable(cmd, |m|)
    ensures Partial(m, m, cmd)
  {
    match cmd
    case ReadWords(_, _) =>
    case WriteWords(at, data) =>
      forall i | 0 <= i < |data| ensures TornByte(m[at + i], data[i], m[at + i]) {
        TornByteNone(m[at + i], data[i]);
      }
    case EraseSector(at, _) =>
      assert m == Erased(m, at, 0);
  }

  // ---- the SDM ----

  datatype Session = Closed | Open | Selected

  /** The flash behind the mailbox. Any command may fail, after any partial effect and leaving the
      session in any state; otherwise it fails only for want of a session. */
  class Sdm {
    var mem: Mem
    var session: Session
    ghost var faults: nat

    constructor (contents: Mem)
      ensures mem == contents && session == Closed && faults == 0
    {
      mem, session, faults := contents, Closed, 0;
    }

    // QSPI_CLOSE, QSPI_OPEN, QSPI_SET_CS, and reading the flash's ID: from is the session needed, to the one reached
    method Switch(from: Session, to: Session) returns (ok: bool)
      modifies this`session, this`faults
      ensures faults >= old(faults) && (ok ==> old(session) == from && session == to && faults == old(faults))
      ensures faults == old(faults) ==> (ok <==> old(session) == from) && session == (if ok then to else old(session))
    {
      var fault: bool := *;
      if fault {
        faults := faults + 1;
        session := *;
        return false;
      }
      ok := session == from;
      if ok {
        session := to;
      }
    }

    method Close()
      modifies this`session, this`faults
      ensures faults >= old(faults) && (faults == old(faults) ==> session == Closed)
    {
      var fault: bool := *;
      if fault {
        faults := faults + 1;
        session := *;
      } else {
        session := Closed;
      }
    }

    method Execute(cmd: Command) returns (ok: bool, answer: seq<byte>)
      requires Acceptable(cmd, |mem|)
      modifies this
      ensures faults >= old(faults) && |mem| == old(|mem|)
      ensures ok ==>
        mem == Effect(old(mem), cmd) && answer == Answer(old(mem), cmd) && session == old(session) == Selected
      ensures !ok ==> Partial(old(mem), mem, cmd)
      ensures faults == old(faults) && old(session) == Selected ==> ok
    {
      PartialNone(mem, cmd);
      answer := [];
      if session != Selected {
        return false, [];
      }
      var fault: bool := *;
      if fault {
        faults := faults + 1;
        session := *;
        match cmd {
          case ReadWords(_, _) =>
          case WriteWords(at, data) =>
            var torn: Mem := *;
            if TornProgram(mem, torn, at, data) {
              mem := torn;
            }
          case EraseSector(at, sector) =>
            var k: int := *;
            if 0 <= k <= sector && k % PAGE == 0 {
              mem := Erased(mem, at, k);
            }
        }
        return false, [];
      }
      answer := Answer(mem, cmd);
      match cmd {
        case ReadWords(_, _) =>
        case WriteWords(at, data) => mem := Programmed(mem, at, data);
        case EraseSector(at, sector) => mem := Erased(mem, at, sector);
      }
      return true, answer;
    }
  }
  // ---- whole requests ----

  lemma ProgramMore(m: Mem, a: nat, d: seq<byte>, e: seq<byte>)
    requires a + |d| + |e| <= |m|
    ensures Programmed(Programmed(m, a, d), a + |d|, e) == Programmed(m, a, d + e)
  {
    var m1 := Programmed(m, a, d);
    var l, r := Programmed(m1, a + |d|, e), Programmed(m, a, d + e);
    forall i | 0 <= i < |m| ensures l[i] == r[i] {
      if a <= i < a + |d| + |e| {
        assert (d + e)[i - a] == if i < a + |d| then d[i - a] else e[i - a - |d|];
      }
    }
  }

  // Stopping in the piece e of a longer program, with d written and f still to come.
  lemma TornInside(m: Mem, m': Mem, a: nat, d: seq<byte>, e: seq<byte>, f: seq<byte>)
    requires a + |d| + |e| + |f| <= |m|
    requires TornProgram(Programmed(m, a, d), m', a + |d|, e)
    ensures TornProgram(m, m', a, d + e + f)
  {
    var all, m1, h := d + e + f, Programmed(m, a, d), |d| + |e|;
    forall i | 0 <= i < |all| ensures TornByte(m[a + i], all[i], m'[a + i]) {
      TornByteNone(m[a + i], all[i]);
      if |d| <= i < h {
        var k := i - |d|;
        assert TornByte(m1[a + |d| + k], e[k], m'[a + |d| + k]);
      } else {
        assert m'[a + i] == m1[a + i];
      }
    }
  }

  // One more piece of src, written or torn.
  lemma WriteStep(m: Mem, m1: Mem, m2: Mem, a: nat, src: seq<byte>, done: nat, n: nat, ok: bool)
    requires done + n <= |src| && a + |src| <= |m| && m1 == Programmed(m, a, src[..done])
    requires if ok then m2 == Programmed(m1, a + done, src[done..done + n])
             else TornProgram(m1, m2, a + done, src[done..done + n])
    ensures if ok then m2 == Programmed(m, a, src[..done + n]) else TornProgram(m, m2, a, src)
  {
    hide Programmed, TornProgram;
    var d, e, f := src[..done], src[done..done + n], src[done + n..];
    if ok {
      ProgramMore(m, a, d, e);
      assert d + e == src[..done + n];
    } else {
      TornInside(m, m2, a, d, e, f);
      assert d + e + f == src;
    }
  }

  lemma EraseMore(m: Mem, a: nat, n: nat, k: nat)
    requires a + n + k <= |m|
    ensures Erased(Erased(m, a, n), a + n, k) == Erased(m, a, n + k)
  {
  }

  // One more sector, erased or partly erased.
  lemma EraseStep(m: Mem, m1: Mem, m2: Mem, a: nat, n: nat, sector: nat, ok: bool)
    requires a + n + sector <= |m| && m1 == Erased(m, a, n) && n % PAGE == 0
    requires if ok then m2 == Erased(m1, a + n, sector)
             else exists k: nat :: k <= sector && k % PAGE == 0 && m2 == Erased(m1, a + n, k)
    ensures if ok then m2 == Erased(m, a, n + sector)
            else exists k: nat :: k <= n + sector && k % PAGE == 0 && m2 == Erased(m, a, k)
  {
    hide Erased;
    if ok {
      EraseMore(m, a, n, sector);
    } else {
      var k: nat :| k <= sector && k % PAGE == 0 && m2 == Erased(m1, a + n, k);
      EraseMore(m, a, n, k);
    }
  }

  // ---- how a range is cut into sectors ----

  function Sector(offset: nat, size: nat): nat {
    if offset % 0x10000 == 0 && size >= 0x10000 then 0x10000
    else if offset % 0x8000 == 0 && size >= 0x8000 then 0x8000
    else PAGE
  }

  /** Aligned sectors, one after the other, that together are exactly the range. */
  predicate Tiles(offset: nat, size: nat, sectors: seq<nat>)
    decreases |sectors|
  {
    if |sectors| == 0 then size == 0
    else
      IsSector(offset, sectors[0]) && sectors[0] <= size
      && Tiles(offset + sectors[0], size - sectors[0], sectors[1..])
  }

  function Greedy(offset: nat, size: nat): seq<nat>
    decreases size
  {
    var s := Sector(offset, size);
    if size < s then [] else [s] + Greedy(offset + s, size - s)
  }

  // No sector of a tiling straddles the end of an aligned sector it starts inside.
  lemma {:induction false} NoStraddle(offset: nat, size: nat, sectors: seq<nat>, start: nat,
                                      sector: nat) returns (k: nat)
    requires Tiles(offset, size, sectors) && IsSector(start, sector)
    requires start < offset <= start + sector <= offset + size
    ensures k <= |sectors| && Tiles(start + sector, offset + size - (start + sector), sectors[k..])
    decreases |sectors|
  {
    if offset == start + sector {
      return 0;
    }
    AlignedApart(offset, sectors[0], start, sector);
    k := NoStraddle(offset + sectors[0], size - sectors[0], sectors[1..], start, sector);
    assert sectors[1..][k..] == sectors[k + 1..];
    k := k + 1;
  }

  lemma AlignedApart(a: nat, s: nat, b: nat, t: nat)
    requires IsSector(a, s) && IsSector(b, t) && b < a < b + t
    ensures a + s <= b + t
  {
    if s <= t {
      Coarser(b, s, t);
      MultiplesApart(a, b + t, s);
    } else {
      Coarser(a, t, s);
      MultiplesApart(b, a, t);
    }
  }

  lemma Coarser(a: nat, s: nat, t: nat)
    requires IsSector(a, t) && IsSector(0, s) && s <= t
    ensures a % s == 0 && (a + t) % s == 0
  {
    if t == 0x10000 {
      var q := a / 0x10000;
      assert a == 0x1000 * (16 * q) && a == 0x8000 * (2 * q);
    } else if t == 0x8000 {
      var q := a / 0x8000;
      assert a == 0x1000 * (8 * q);
    }
  }

  lemma MultiplesApart(a: nat, b: nat, s: nat)
    requires IsSector(0, s) && a % s == 0 && b % s == 0 && a < b
    ensures a + s <= b
  {
    if s == 0x1000 {
      assert a / 0x1000 < b / 0x1000;
    } else if s == 0x8000 {
      assert a / 0x8000 < b / 0x8000;
    } else {
      assert a / 0x10000 < b / 0x10000;
    }
  }

  lemma PageSum(a: nat, b: nat)
    requires a % PAGE == 0 && b % PAGE == 0
    ensures (a + b) % PAGE == 0
    ensures a >= b ==> (a - b) % PAGE == 0
  {
    var x, y := a / PAGE, b / PAGE;
    assert a + b == PAGE * (x + y) && a - b == PAGE * (x - y);
  }

  // The sector taken is aligned and fits.
  lemma SectorFits(offset: nat, size: nat)
    requires offset % PAGE == 0 && size % PAGE == 0 && size > 0
    ensures var s := Sector(offset, size);
      IsSector(offset, s) && s <= size && (offset + s) % PAGE == 0 && (size - s) % PAGE == 0
  {
    var s := Sector(offset, size);
    assert s % PAGE == 0;
    assert size >= PAGE;
    PageSum(offset, s);
    PageSum(size, s);
  }

  lemma SectorPositive(offset: nat, s: nat)
    requires IsSector(offset, s)
    ensures s > 0
  {
  }

  // No larger aligned sector fits.
  lemma SectorLargest(offset: nat, size: nat, t: nat)
    requires IsSector(offset, t) && t <= size
    ensures t <= Sector(offset, size)
  {
  }

  lemma GreedyNone(offset: nat)
    ensures Greedy(offset, 0) == []
  {
  }

  lemma GreedyStep(sectors: seq<nat>, offset: nat, size: nat)
    requires offset % PAGE == 0 && size % PAGE == 0 && size > 0
    ensures var s := Sector(offset, size);
      && IsSector(offset, s) && 0 < s <= size && (offset + s) % PAGE == 0 && (size - s) % PAGE == 0
      && sectors + Greedy(offset, size) == (sectors + [s]) + Greedy(offset + s, size - s)
  {
    hide Sector, IsSector;
    SectorFits(offset, size);
    SectorPositive(offset, Sector(offset, size));
  }

  lemma {:induction false} GreedyTiles(offset: nat, size: nat)
    requires offset % PAGE == 0 && size % PAGE == 0
    ensures Tiles(offset, size, Greedy(offset, size))
    decreases size
  {
    hide Sector, IsSector;
    if size > 0 {
      SectorFits(offset, size);
      var s := Sector(offset, size);
      GreedyTiles(offset + s, size - s);
      assert Greedy(offset, size)[1..] == Greedy(offset + s, size - s);
    }
  }

  /** The driver's choice of sectors uses the fewest commands of all tilings. */
  lemma {:induction false} GreedyIsMinimal(offset: nat, size: nat, sectors: seq<nat>)
    requires offset % PAGE == 0 && size % PAGE == 0 && Tiles(offset, size, sectors)
    ensures |Greedy(offset, size)| <= |sectors|
    decreases size
  {
    hide Sector, IsSector;
    if size > 0 {
      SectorFits(offset, size);
      var s := Sector(offset, size);
      var first := sectors[0];
      SectorLargest(offset, size, first);
      SectorPositive(offset, first);
      var k := NoStraddle(offset + first, size - first, sectors[1..], offset, s);
      GreedyIsMinimal(offset + s, size - s, sectors[1..][k..]);
    }
  }

  // The words that cover the next bytes of a read lie in the flash, and hold at least one of them.
  lemma PieceBounds(off: nat, left: nat, size: nat)
    requires 0 < left && off + left <= size && size % 4 == 0
    ensures var skip, start := off % 4, off - off % 4;
      var words := if (skip + left + 3) / 4 < MAX_WORDS then (skip + left + 3) / 4 else MAX_WORDS;
      && start % 4 == 0 && 1 <= words && start + 4 * words <= size && words * 4 > skip
      && (words < MAX_WORDS ==> words * 4 - skip >= left)
  {
  }

  lemma PieceOf(m: Mem, start: nat, len: nat, buf: seq<byte>, skip: nat, n: nat)
    requires start + len <= |m| && len <= |buf| && buf[..len] == m[start..start + len] && skip + n <= len
    ensures buf[skip..skip + n] == m[start + skip..start + skip + n]
  {
    var all, found, wanted := buf[..len], buf[skip..skip + n], m[start + skip..start + skip + n];
    forall i | 0 <= i < n ensures found[i] == wanted[i] {
      assert all[skip + i] == m[start..start + len][skip + i];
    }
  }

  // ---- the driver ----

  // The attempts that the commands of a request lost.
  function Total(losses: seq<nat>): nat {
    if |losses| == 0 then 0 else Total(losses[..|losses| - 1]) + losses[|losses| - 1]
  }

  lemma TotalSnoc(losses: seq<nat>, n: nat)
    ensures Total(losses + [n]) == Total(losses) + n
  {
    assert (losses + [n])[..|losses|] == losses;
  }

  // No command of the request lost all its attempts.
  predicate NoneExhausted(losses: seq<nat>) {
    forall i :: 0 <= i < |losses| ==> losses[i] < ATTEMPTS
  }

  lemma {:induction false} FewLost(losses: seq<nat>)
    ensures Total(losses) < ATTEMPTS ==> NoneExhausted(losses)
  {
    if |losses| > 0 { FewLost(losses[..|losses| - 1]); }
  }

  predicate InRange(size: nat, offset: int, len: nat) {
    offset >= 0 && offset + len <= size
  }

  class Driver {
    const sdm: Sdm
    const size: nat
    const buf: array<byte>
    var open: bool

    constructor (sdm: Sdm)
      requires |sdm.mem| % 4 == 0 && |sdm.mem| < 0x8000_0000
      ensures this.sdm == sdm && Valid() && fresh(buf)
    {
      this.sdm, size, open := sdm, |sdm.mem|, false;
      buf := new byte[4 * MAX_WORDS];
    }

    ghost predicate Valid()
      reads this, sdm
    {
      size == |sdm.mem| && size % 4 == 0 && size < 0x8000_0000 && buf.Length == 4 * MAX_WORDS
    }

    // 1 if the driver believes in a session that the SDM has dropped: the first attempt is lost
    ghost function Stale(): nat
      reads this, sdm
    {
      if open && sdm.session != Selected then 1 else 0
    }

    method OpenFlash() returns (ok: bool)
      requires Valid()
      modifies this`open, sdm`session, sdm`faults
      ensures Valid() && sdm.faults >= old(sdm.faults)
      ensures old(open) ==> ok && sdm.session == old(sdm.session) && sdm.faults == old(sdm.faults)
      ensures ok ==> open && (!old(open) ==> sdm.session == Selected)
      ensures sdm.faults == old(sdm.faults) ==> ok
    {
      if open {
        return true;
      }
      sdm.Close();
      ok := sdm.Switch(Closed, Open);
      if !ok {
        return;
      }
      ok := sdm.Switch(Open, Selected);
      if ok {
        ok := sdm.Switch(Selected, Selected);
      }
      if !ok {
        sdm.Close();
        return;
      }
      open := true;
    }

    /** A command with up to three attempts: all of its effect or a partial one, and all of it if and only if
        fewer attempts than that are lost. Every lost attempt had a fault, except a first one in a session that
        the SDM had dropped. */
    method Retried(cmd: Command) returns (ok: bool, answer: seq<byte>, ghost lost: nat)
      requires Valid() && Acceptable(cmd, size)
      modifies this`open, sdm
      ensures Valid() && sdm.faults >= old(sdm.faults)
      ensures ok ==> sdm.mem == Effect(old(sdm.mem), cmd) && answer == Answer(old(sdm.mem), cmd)
      ensures !ok ==> Partial(old(sdm.mem), sdm.mem, cmd)
      ensures ok ==> Stale() == 0
      ensures (ok <==> lost < ATTEMPTS) && lost <= sdm.faults - old(sdm.faults) + old(Stale())
    {
      hide Effect, Partial, Acceptable;
      ghost var m, stale := sdm.mem, Stale();
      PartialNone(m, cmd);
      answer := [];
      for attempt := 0 to ATTEMPTS
        invariant Valid() && sdm.faults >= old(sdm.faults) && Partial(m, sdm.mem, cmd)
        invariant attempt <= sdm.faults - old(sdm.faults) + stale
        invariant attempt == 0 ==> open == old(open) && sdm.session == old(sdm.session)
      {
        if attempt > 0 {
          open := false;
        }
        ok := OpenFlash();
        if ok {
          ghost var m1 := sdm.mem;
          PartialThenEffect(m, m1, cmd);
          ok, answer := sdm.Execute(cmd);
          if ok {
            AnswerKept(m, m1, cmd);
            lost := attempt;
            return;
          }
          PartialTwice(m, m1, sdm.mem, cmd);
        }
      }
      ok, lost := false, ATTEMPTS;
    }

    // a read command, its words left in buf
    method Fetch(start: nat, words: nat) returns (ok: bool, ghost lost: nat)
      requires Valid() && Acceptable(ReadWords(start, words), size)
      modifies this`open, sdm, buf
      ensures Valid() && sdm.mem == old(sdm.mem) && sdm.faults >= old(sdm.faults)
      ensures ok ==> Stale() == 0 && buf[..4 * words] == sdm.mem[start..start + 4 * words]
      ensures (ok <==> lost < ATTEMPTS) && lost <= sdm.faults - old(sdm.faults) + old(Stale())
    {
      var answer;
      ok, answer, lost := Retried(ReadWords(start, words));
      if ok {
        PutBytes(buf, 0, answer);
      }
    }

    // the next bytes of src to flash, by way of buf
    method Store(at: nat, piece: seq<byte>) returns (ok: bool, ghost lost: nat)
      requires Valid() && Acceptable(WriteWords(at, piece), size)
      modifies this`open, sdm, buf
      ensures Valid() && sdm.faults >= old(sdm.faults) && (ok ==> Stale() == 0)
      ensures if ok then sdm.mem == Programmed(old(sdm.mem), at, piece)
              else TornProgram(old(sdm.mem), sdm.mem, at, piece)
      ensures (ok <==> lost < ATTEMPTS) && lost <= sdm.faults - old(sdm.faults) + old(Stale())
    {
      hide Programmed, TornProgram;
      PutBytes(buf, 0, piece);
      assert buf[..|piece|] == piece;
      var answer;
      ok, answer, lost := Retried(WriteWords(at, buf[..|piece|]));
    }

    // the bytes of one word-aligned command that were asked for
    method ReadPiece(off: nat, dst: array<byte>, out: nat, left: nat)
      returns (ok: bool, n: nat, ghost lost: nat)
      requires Valid() && 0 < left && off + left <= size && out + left <= dst.Length && dst != buf
      modifies this`open, sdm, buf, dst
      ensures Valid() && sdm.mem == old(sdm.mem) && sdm.faults >= old(sdm.faults) && 0 < n <= left
      ensures ok ==> Stale() == 0 && dst[out..out + n] == sdm.mem[off..off + n]
      ensures dst[..out] == old(dst[..out]) && dst[out + n..] == old(dst[out + n..])
      ensures (ok <==> lost < ATTEMPTS) && lost <= sdm.faults - old(sdm.faults) + old(Stale())
    {
      var start := off - off % 4;
      var skip := off - start;
      var words := if (skip + left + 3) / 4 < MAX_WORDS then (skip + left + 3) / 4 else MAX_WORDS;
      n := if left < words * 4 - skip then left else words * 4 - skip;
      PieceBounds(off, left, size);
      ok, lost := Fetch(start, words);
      if ok {
        PieceOf(sdm.mem, start, 4 * words, buf[..], skip, n);
        PutBytes(dst, out, buf[skip..skip + n]);
      }
    }

    /** Any range, of any alignment. A request in range fails if and only if one of its commands loses all its
        attempts, however many attempts the others lose. */
    method Read(offset: int, dst: array<byte>, len: nat) returns (ok: bool, ghost losses: seq<nat>)
      requires Valid() && len <= dst.Length && dst != buf
      modifies this`open, sdm, buf, dst
      ensures Valid() && sdm.mem == old(sdm.mem) && sdm.faults >= old(sdm.faults)
      ensures ok ==> InRange(size, offset, len) && dst[..len] == sdm.mem[offset..offset + len]
      ensures dst[len..] == old(dst[len..])
      ensures InRange(size, offset, len) ==> (ok <==> NoneExhausted(losses))
      ensures Total(losses) <= sdm.faults - old(sdm.faults) + old(Stale())
      ensures InRange(size, offset, len) && sdm.faults - old(sdm.faults) + old(Stale()) < ATTEMPTS ==> ok
    {
      losses := [];
      if !InRange(size, offset, len) {
        return false, [];
      }
      ok := true;
      var off, left, out := offset, len, 0;
      while ok && left > 0
        invariant Valid() && sdm.mem == old(sdm.mem) && sdm.faults >= old(sdm.faults)
        invariant 0 <= out <= len && left == len - out && off == offset + out
        invariant ok ==> dst[..out] == sdm.mem[offset..off]
        invariant dst[len..] == old(dst[len..])
        invariant ok <==> NoneExhausted(losses)
        invariant Total(losses) + (if ok then Stale() else 0) <= sdm.faults - old(sdm.faults) + old(Stale())
        decreases ok, left
      {
        ghost var before := dst[..];
        var n;
        ghost var lost;
        ok, n, lost := ReadPiece(off, dst, out, left);
        TotalSnoc(losses, lost);
        losses := losses + [lost];
        assert losses[|losses| - 1] == lost;
        assert dst[len..] == dst[out + n..][left - n..];
        if ok {
          assert dst[..out + n] == dst[..out] + dst[out..out + n];
          assert sdm.mem[offset..off + n] == sdm.mem[offset..off] + sdm.mem[off..off + n];
          out, off, left := out + n, off + n, left - n;
        }
      }
      FewLost(losses);
    }

    /** Any whole words: the contract the RSU library's flash is assumed to meet. It fails as Read does. */
    method Write(offset: int, src: seq<byte>) returns (ok: bool, ghost losses: seq<nat>)
      requires Valid()
      modifies this`open, sdm, buf
      ensures Valid() && sdm.faults >= old(sdm.faults)
      ensures ok ==> Writable(size, offset, |src|) && sdm.mem == Programmed(old(sdm.mem), offset, src)
      ensures !ok && sdm.mem != old(sdm.mem) ==>
        Writable(size, offset, |src|) && TornProgram(old(sdm.mem), sdm.mem, offset, src)
      ensures Writable(size, offset, |src|) ==> (ok <==> NoneExhausted(losses))
      ensures Total(losses) <= sdm.faults - old(sdm.faults) + old(Stale())
      ensures Writable(size, offset, |src|) && sdm.faults - old(sdm.faults) + old(Stale()) < ATTEMPTS ==> ok
    {
      hide Programmed, TornProgram;
      losses := [];
      if !Writable(size, offset, |src|) {
        return false, [];
      }
      ghost var m := sdm.mem;
      ok := true;
      var done := 0;
      while ok && done < |src|
        invariant Valid() && sdm.faults >= old(sdm.faults) && ok && NoneExhausted(losses)
        invariant Total(losses) + Stale() <= sdm.faults - old(sdm.faults) + old(Stale())
        invariant 0 <= done <= |src| && done % 4 == 0
        invariant sdm.mem == Programmed(m, offset, src[..done])
        decreases |src| - done
      {
        var left := |src| - done;
        var n := if left / 4 < MAX_WORDS then left / 4 * 4 else MAX_WORDS * 4;
        ghost var m1 := sdm.mem;
        ghost var lost;
        ok, lost := Store(offset + done, src[done..done + n]);
        WriteStep(m, m1, sdm.mem, offset, src, done, n, ok);
        TotalSnoc(losses, lost);
        losses := losses + [lost];
        assert losses[|losses| - 1] == lost;
        if !ok {
          FewLost(losses);
          return;
        }
        done := done + n;
      }
      assert src[..done] == src;
    }

    method EraseOne(at: nat, sector: nat) returns (ok: bool, ghost lost: nat)
      requires Valid() && IsSector(at, sector) && at + sector <= size
      modifies this`open, sdm
      ensures Valid() && sdm.faults >= old(sdm.faults) && (ok ==> Stale() == 0)
      ensures if ok then sdm.mem == Erased(old(sdm.mem), at, sector)
              else exists k: nat :: k <= sector && k % PAGE == 0 && sdm.mem == Erased(old(sdm.mem), at, k)
      ensures (ok <==> lost < ATTEMPTS) && lost <= sdm.faults - old(sdm.faults) + old(Stale())
    {
      hide Erased, IsSector;
      var answer;
      ok, answer, lost := Retried(EraseSector(at, sector));
    }

    /** Whole pages: the contract the RSU library's flash is assumed to meet. The sectors erased
        are the ones Greedy lists, so they tile the range in as few commands as possible. It fails as Read does. */
    method Erase(offset: int, length: nat) returns (ok: bool, ghost sectors: seq<nat>, ghost losses: seq<nat>)
      requires Valid()
      modifies this`open, sdm
      ensures Valid() && sdm.faults >= old(sdm.faults)
      ensures ok ==> Erasable(size, offset, length) && sdm.mem == Erased(old(sdm.mem), offset, length)
      ensures ok ==> sectors == Greedy(offset, length)
      ensures !ok && sdm.mem != old(sdm.mem) ==>
        Erasable(size, offset, length)
        && exists k: nat :: k <= length && k % PAGE == 0 && sdm.mem == Erased(old(sdm.mem), offset, k)
      ensures Erasable(size, offset, length) ==> (ok <==> NoneExhausted(losses))
      ensures Total(losses) <= sdm.faults - old(sdm.faults) + old(Stale())
      ensures Erasable(size, offset, length) && sdm.faults - old(sdm.faults) + old(Stale()) < ATTEMPTS ==> ok
    {
      hide Erased, Sector, IsSector, Greedy;
      sectors, losses := [], [];
      if !Erasable(size, offset, length) {
        return false, [], [];
      }
      ghost var m := sdm.mem;
      ok := true;
      var off, left := offset, length;
      while ok && left > 0
        invariant Valid() && sdm.faults >= old(sdm.faults) && ok && NoneExhausted(losses)
        invariant Total(losses) + Stale() <= sdm.faults - old(sdm.faults) + old(Stale())
        invariant 0 <= left <= length && off == offset + length - left && off % PAGE == 0 && left % PAGE == 0
        invariant sdm.mem == Erased(m, offset, off - offset)
        invariant sectors + Greedy(off, left) == Greedy(offset, length)
        decreases left
      {
        var sector := Sector(off, left);
        ghost var m1 := sdm.mem;
        GreedyStep(sectors, off, left);
        ghost var lost;
        ok, lost := EraseOne(off, sector);
        EraseStep(m, m1, sdm.mem, offset, off - offset, sector, ok);
        TotalSnoc(losses, lost);
        losses := losses + [lost];
        assert losses[|losses| - 1] == lost;
        if !ok {
          FewLost(losses);
          return;
        }
        sectors := sectors + [sector];
        assert sectors + Greedy(off + sector, left - sector) == Greedy(offset, length);
        off, left := off + sector, left - sector;
      }
      GreedyNone(off);
    }
  }
}
