/** libRSU_cfg.c: the configuration file, whose write-protect lines fill a mask with one bit for each of the first
    32 slots. */
module Protection {
  import opened Bits

  const MASK_SLOTS: nat := 32

  // a line of the file: write-protect or rsu-spt-checksum with its argument, a line that is passed over, or
  // one of the first two with the wrong number of arguments
  datatype Line = Protect(slot: u32) | Checksum(value: nat) | Other | Malformed

  // the lines that end the reading
  predicate Refused(line: Line) {
    line.Malformed? || (line.Protect? && line.slot >= MASK_SLOTS)
  }

  // how many lines are read
  function Good(lines: seq<Line>): (n: nat)
    ensures n <= |lines| && (n < |lines| ==> Refused(lines[n]))
    ensures forall i :: 0 <= i < n ==> !Refused(lines[i])
  {
    if |lines| == 0 || Refused(lines[0]) then 0 else 1 + Good(lines[1..])
  }

  // what libRSU_cfg answers for a slot number
  predicate Protected(mask: u32, slot: int) {
    slot < 0 || (slot < MASK_SLOTS && And(mask, Pow2(slot)) != 0)
  }

  lemma {:induction false} OneBit(a: nat, k: nat, n: nat)
    requires k < n
    ensures And(a, Pow2(k)) != 0 <==> BitsOf(a, n)[k]
  {
    if k > 0 {
      OneBit(a / 2, k - 1, n - 1);
      AndHalves(a, Pow2(k));
    } else {
      AndHalves(a, 1);
      AndZero(a / 2);
    }
  }

  lemma OrHalves(a: nat, b: nat)
    ensures Or(a, b) / 2 == Or(a / 2, b / 2) && (Or(a, b) % 2 == 1 <==> a % 2 == 1 || b % 2 == 1)
  {
  }

  lemma {:induction false} OrBits(a: nat, b: nat, n: nat, k: nat)
    requires k < n
    ensures BitsOf(Or(a, b), n)[k] <==> BitsOf(a, n)[k] || BitsOf(b, n)[k]
  {
    hide Or;
    OrHalves(a, b);
    if k > 0 { OrBits(a / 2, b / 2, n - 1, k - 1); }
  }

  lemma {:induction false} OrBound(a: nat, b: nat, n: nat)
    requires a < Pow2(n) && b < Pow2(n)
    ensures Or(a, b) < Pow2(n)
  {
    hide Or;
    if n > 0 {
      OrHalves(a, b);
      OrBound(a / 2, b / 2, n - 1);
    } else {
      assert Or(0, 0) == 0 by { OrZero(); }
    }
  }

  lemma OrZero()
    ensures Or(0, 0) == 0
  {
  }

  lemma {:induction false} PowersDiffer(k: nat, j: nat, n: nat)
    requires k < n && j < n
    ensures BitsOf(Pow2(j), n)[k] <==> k == j
  {
    if j == 0 {
      NoBits(n - 1);
    } else if k > 0 {
      PowersDiffer(k - 1, j - 1, n - 1);
    }
  }

  lemma {:induction false} NoBits(n: nat)
    ensures forall k :: 0 <= k < n ==> !BitsOf(0, n)[k]
  {
    if n > 0 { NoBits(n - 1); }
  }

  lemma {:induction false} PowerBound(k: nat, n: nat)
    requires k < n
    ensures Pow2(k) < Pow2(n)
  {
    if k < n - 1 { PowerBound(k, n - 1); }
  }

  // one write-protect line
  lemma SetBit(mask: u32, slot: nat, k: int)
    requires slot < MASK_SLOTS
    ensures Or(mask, Pow2(slot)) < 0x1_0000_0000
    ensures Protected(Or(mask, Pow2(slot)), k) <==> Protected(mask, k) || k == slot
  {
    hide And, Or, Pow2;
    Pow2_32();
    PowerBound(slot, MASK_SLOTS);
    OrBound(mask, Pow2(slot), MASK_SLOTS);
    if 0 <= k < MASK_SLOTS {
      OneBit(mask, k, MASK_SLOTS);
      OneBit(Or(mask, Pow2(slot)), k, MASK_SLOTS);
      OrBits(mask, Pow2(slot), MASK_SLOTS, k);
      PowersDiffer(k, slot, MASK_SLOTS);
    }
  }

  // the last checksum line decides, and without one it is on
  function ChecksumOf(lines: seq<Line>): bool {
    if |lines| == 0 then true
    else
      var last := lines[|lines| - 1];
      if last.Checksum? then last.value != 0 else ChecksumOf(lines[..|lines| - 1])
  }

  /** librsu_common_cfg_parse. Its error is logged and otherwise ignored: what comes before the first bad line
      counts. Protected are exactly the slots that are named there, and the negative numbers. */
  method Configure(lines: seq<Line>) returns (ok: bool, mask: u32, checksumEnabled: bool)
    ensures ok <==> forall line :: line in lines ==> !Refused(line)
    ensures Good(lines) <= |lines|
    ensures forall k: int :: Protected(mask, k) <==> k < 0 || Named(lines[..Good(lines)], k)
    ensures checksumEnabled == ChecksumOf(lines[..Good(lines)])
  {
    hide And, Or, Pow2, Protected;
    ghost var n := Good(lines);
    mask, checksumEnabled := 0, true;
    NoneProtected();
    for i := 0 to |lines|
      invariant i <= n
      invariant forall k: int :: Protected(mask, k) <==> k < 0 || Named(lines[..i], k)
      invariant checksumEnabled == ChecksumOf(lines[..i])
    {
      var line := lines[i];
      assert lines[..i + 1] == lines[..i] + [line];
      assert i == n ==> Refused(line);
      if Refused(line) {
        assert line in lines;
        return false, mask, checksumEnabled;
      }
      if line.Protect? {
        SetBit(mask, line.slot, -1);
        forall k: int
          ensures Protected(Or(mask, Pow2(line.slot)), k) <==> Protected(mask, k) || k == line.slot
        {
          SetBit(mask, line.slot, k);
        }
        mask := Or(mask, Pow2(line.slot));
      } else if line.Checksum? {
        checksumEnabled := line.value != 0;
      }
    }
    assert lines[..|lines|] == lines;
    ok := true;
  }

  // A write-protect line names the slot.
  predicate Named(lines: seq<Line>, k: int) {
    exists i :: 0 <= i < |lines| && lines[i].Protect? && lines[i].slot == k
  }

  lemma NoneProtected()
    ensures forall k: int :: Protected(0, k) <==> k < 0
  {
    forall k: int ensures Protected(0, k) <==> k < 0 {
      if 0 <= k { AndZero(Pow2(k)); }
    }
  }
}
