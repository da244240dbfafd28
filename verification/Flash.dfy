/** The QSPI flash as the RSU library sees it (rsu_plat_zephyr.c over the driver):
    programming clears bits, erasing sets whole 4 KB pages to 0xFF.

    Every operation may fail. A failed program has cleared an arbitrary part of the bits it
    was asked to clear; a failed erase has erased an arbitrary leading run of pages. Since a
    caller that stops at the failure leaves exactly the flash a loss of power would, the
    failure postconditions below are also the crash states. */
module FlashDev {
  import opened Bits

  type Mem = seq<byte>

  const PAGE: nat := 0x1000

  function AndSeq(a: seq<byte>, b: seq<byte>): (r: seq<byte>)
    requires |a| == |b|
    ensures |r| == |a|
    ensures forall i :: 0 <= i < |r| ==> r[i] == And(a[i], b[i])
  {
    seq(|a|, i requires 0 <= i < |a| => And(a[i], b[i]))
  }

  function Programmed(m: Mem, a: nat, d: seq<byte>): (r: Mem)
    requires a + |d| <= |m|
    ensures |r| == |m|
    ensures forall i :: 0 <= i < |m| ==>
      r[i] == if a <= i < a + |d| then And(m[i], d[i - a]) else m[i]
  {
    m[..a] + AndSeq(m[a..a + |d|], d) + m[a + |d|..]
  }

  function Erased(m: Mem, a: nat, n: nat): (r: Mem)
    requires a + n <= |m|
    ensures |r| == |m|
    ensures forall i :: 0 <= i < |m| ==> r[i] == if a <= i < a + n then 0xFF else m[i]
  {
    m[..a] + seq(n, _ => 0xFF) + m[a + n..]
  }

  predicate SameOutside(m: Mem, m': Mem, a: nat, n: nat) {
    |m'| == |m| && forall i :: 0 <= i < |m| && !(a <= i < a + n) ==> m'[i] == m[i]
  }

  // v lies between x and x AND d: only bits that d clears have been cleared.
  predicate TornByte(x: byte, d: byte, v: byte) {
    And(x, v) == v && And(And(x, d), v) == And(x, d)
  }

  predicate TornProgram(m: Mem, m': Mem, a: nat, d: seq<byte>)
    requires a + |d| <= |m|
  {
    && SameOutside(m, m', a, |d|)
    && forall i :: 0 <= i < |d| ==> TornByte(m[a + i], d[i], m'[a + i])
  }

  // Nothing to clear: the byte is what it was.
  lemma TornSame(x: byte, v: byte)
    requires TornByte(x, x, v)
    ensures v == x
  {
    AndSelf(x);
  }

  // What a torn byte can still become.
  lemma TornByteAgain(x: byte, d: byte, v: byte)
    requires TornByte(x, d, v)
    ensures And(v, d) == And(x, d)
    ensures forall w: byte :: TornByte(v, d, w) ==> TornByte(x, d, w)
  {
    AndAssoc(x, v, d);
    AndComm(v, d);
    AndAssoc(x, d, v);
    forall w: byte | TornByte(v, d, w) ensures TornByte(x, d, w) {
      AndAssoc(x, v, w);
    }
  }

  // Nothing cleared yet, and everything cleared.
  lemma TornByteNone(x: byte, d: byte)
    ensures TornByte(x, d, x) && TornByte(x, d, And(x, d))
  {
    AndSelf(x);
    AndSelf(And(x, d));
    AndComm(x, d);
    AndAssoc(d, x, x);
    AndAssoc(x, x, d);
  }

  // the driver's argument checks: range and alignment
  predicate Writable(size: nat, off: int, len: nat) {
    0 <= off && off + len <= size && off % 4 == 0 && len % 4 == 0
  }

  predicate Erasable(size: nat, off: int, len: nat) {
    0 <= off && off + len <= size && off % PAGE == 0 && len % PAGE == 0
  }

  class Flash {
    var mem: Mem
    // operations on valid arguments that failed
    ghost var faults: nat

    constructor (contents: Mem)
      ensures mem == contents && faults == 0
    {
      mem := contents;
      faults := 0;
    }

    method Read(off: int, len: nat) returns (ok: bool, data: seq<byte>)
      modifies this`faults
      ensures ok ==> 0 <= off && off + len <= |mem| && data == mem[off..off + len]
      ensures faults >= old(faults)
      ensures faults == old(faults) && 0 <= off && off + len <= |mem| ==> ok
    {
      if off < 0 || off + len > |mem| {
        return false, [];
      }
      var fault: bool := *;
      if fault {
        faults := faults + 1;
        return false, [];
      }
      return true, mem[off..off + len];
    }

    // a read that fails
    method Miss()
      modifies this`faults
      ensures faults == old(faults) + 1
    {
      faults := faults + 1;
    }

    method Write(off: int, data: seq<byte>) returns (ok: bool)
      modifies this
      ensures faults >= old(faults)
      ensures |mem| == old(|mem|)
      ensures ok ==> Writable(|mem|, off, |data|) && mem == Programmed(old(mem), off, data)
      ensures !ok && mem != old(mem) ==>
        Writable(|mem|, off, |data|) && TornProgram(old(mem), mem, off, data)
      ensures faults == old(faults) && Writable(|mem|, off, |data|) ==> ok
    {
      if !Writable(|mem|, off, |data|) {
        return false;
      }
      var fault: bool := *;
      if fault {
        faults := faults + 1;
        var torn: Mem := *;
        if TornProgram(mem, torn, off, data) {
          mem := torn;
        }
        return false;
      }
      mem := Programmed(mem, off, data);
      return true;
    }

    method Erase(off: int, len: nat) returns (ok: bool)
      modifies this
      ensures faults >= old(faults)
      ensures |mem| == old(|mem|)
      ensures ok ==> Erasable(|mem|, off, len) && mem == Erased(old(mem), off, len)
      ensures !ok && mem != old(mem) ==>
        Erasable(|mem|, off, len) && exists k: nat :: k <= len && k % PAGE == 0 && mem == Erased(old(mem), off, k)
      ensures faults == old(faults) && Erasable(|mem|, off, len) ==> ok
    {
      if !Erasable(|mem|, off, len) {
        return false;
      }
      var fault: bool := *;
      if fault {
        faults := faults + 1;
        var k: int := *;
        if 0 <= k <= len && k % PAGE == 0 {
          mem := Erased(mem, off, k);
        }
        return false;
      }
      mem := Erased(mem, off, len);
      return true;
    }
  }
}
