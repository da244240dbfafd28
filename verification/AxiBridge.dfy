/** hyperram_axi4lite_bridge.vhd: two AXI4-Lite masters (chapter B1 of ARM IHI 0022) in front of
    one memory core with a single command channel and 64-bit beats. */
module AxiBridge {
  import opened Bits
  import Ring

  type Word = w: seq<byte> | |w| == 4 witness [0, 0, 0, 0]
  type Beat = b: seq<byte> | |b| == 8 witness [0, 0, 0, 0, 0, 0, 0, 0]
  type Strobes = s: seq<bool> | |s| == 4 witness [false, false, false, false]
  type BeatStrobes = s: seq<bool> | |s| == 8 witness [false, false, false, false, false, false, false, false]

  const ZERO: Word := [0, 0, 0, 0]
  const OFF: Strobes := [false, false, false, false]
  const DEPTH: nat := 16

  datatype Owner = Data | Instr

  // ---- ports ----

  datatype Master = Master(awvalid: bool, awaddr: u32, wvalid: bool, wdata: Word, wstrb: Strobes,
                           arvalid: bool, araddr: u32, bready: bool, rready: bool)

  // what the core drives
  datatype Native = Native(arwReady: bool, wReady: bool, bValid: bool, bOwner: Owner,
                           rValid: bool, rOwner: Owner, rData: Beat)

  datatype Inputs = Inputs(d: Master, i: Master, core: Native)

  datatype ToMaster = ToMaster(awready: bool, wready: bool, arready: bool, bvalid: bool, rvalid: bool, rdata: Word)

  datatype ToCore = ToCore(arwValid: bool, arwWrite: bool, arwOwner: Owner, arwAddr: u32,
                           wValid: bool, wData: Beat, wStrb: BeatStrobes, bReady: bool, rReady: bool)

  datatype Outputs = Outputs(d: ToMaster, i: ToMaster, core: ToCore)

  // ---- what the bridge remembers ----

  // the accepted write whose data has not been sent, if any, and the half-selects of the reads in flight
  datatype Pending = None | Some(owner: Owner, high: bool)
  datatype Bridge = Bridge(pending: Pending, halves: seq<bool>)

  const RESET := Bridge(None, [])

  // bit 2 of an address: the upper half of the 64-bit beat
  predicate High(addr: u32) {
    addr / 4 % 2 == 1
  }

  function Half(b: Beat, high: bool): Word {
    if high then b[4..] else b[..4]
  }

  function Widen(w: Word, high: bool): Beat {
    if high then ZERO + w else w + ZERO
  }

  function WidenStrobes(s: Strobes, high: bool): BeatStrobes {
    if high then OFF + s else s + OFF
  }

  // ---- the combinational part ----

  datatype Grant = NoGrant | Grant(owner: Owner, write: bool, addr: u32)

  // data write, then data read, then instruction write, then instruction read
  function Arbitrate(wPending: bool, readFull: bool, x: Inputs): Grant {
    if x.d.awvalid && !wPending then Grant(Data, true, x.d.awaddr)
    else if x.d.arvalid && !readFull then Grant(Data, false, x.d.araddr)
    else if x.i.awvalid && !wPending then Grant(Instr, true, x.i.awaddr)
    else if x.i.arvalid && !readFull then Grant(Instr, false, x.i.araddr)
    else NoGrant
  }

  // owner's side of the bridge, whose ports are m
  function MasterSide(owner: Owner, g: Grant, wPending: bool, writeOwner: Owner, rBit2: bool, core: Native): ToMaster {
    var mine := g.Grant? && g.owner == owner && core.arwReady;
    ToMaster(mine && g.write, wPending && writeOwner == owner && core.wReady, mine && !g.write,
             core.bValid && core.bOwner == owner, core.rValid && core.rOwner == owner, Half(core.rData, rBit2))
  }

  function CoreSide(g: Grant, wPending: bool, writeOwner: Owner, writeBit2: bool, x: Inputs): ToCore {
    var m := if writeOwner == Data then x.d else x.i;
    ToCore(g.Grant?, g.Grant? && g.write, if g.Grant? then g.owner else Data, if g.Grant? then g.addr else 0,
           wPending && m.wvalid, Widen(m.wdata, writeBit2), WidenStrobes(m.wstrb, writeBit2),
           if x.core.bOwner == Data then x.d.bready else x.i.bready,
           if x.core.rOwner == Data then x.d.rready else x.i.rready)
  }

  function Combine(wPending: bool, writeOwner: Owner, writeBit2: bool, readFull: bool, rBit2: bool,
                   x: Inputs): Outputs {
    var g := Arbitrate(wPending, readFull, x);
    Outputs(MasterSide(Data, g, wPending, writeOwner, rBit2, x.core),
            MasterSide(Instr, g, wPending, writeOwner, rBit2, x.core),
            CoreSide(g, wPending, writeOwner, writeBit2, x))
  }

  // what the ports show; idle is what the ring shows when it is empty, and last the last write's owner and half
  function Driven(b: Bridge, idle: bool, last: (Owner, bool), x: Inputs): Outputs {
    Combine(b.pending.Some?, if b.pending.Some? then b.pending.owner else last.0,
            if b.pending.Some? then b.pending.high else last.1,
            |b.halves| == DEPTH, if |b.halves| > 0 then b.halves[0] else idle, x)
  }

  // ---- what the masters and the core can rely on, at the ports ----

  // a write or a read that asks and is not held back: writes wait for the pending one's data, reads for the ring
  predicate AsksWrite(b: Bridge, m: Master) {
    m.awvalid && b.pending.None?
  }

  predicate AsksRead(b: Bridge, m: Master) {
    m.arvalid && |b.halves| < DEPTH
  }

  /** Commands: whichever is first of data write, data read, instruction write and instruction read is presented to
      the core with its address, and told that it is accepted exactly when the core is ready; no other is. */
  lemma CommandPorts(b: Bridge, idle: bool, last: (Owner, bool), x: Inputs)
    requires |b.halves| <= DEPTH
    ensures var o, dw, dr, iw, ir := Driven(b, idle, last, x),
              AsksWrite(b, x.d), AsksRead(b, x.d), AsksWrite(b, x.i), AsksRead(b, x.i);
      && (o.core.arwValid <==> dw || dr || iw || ir)
      && (o.d.awready <==> dw && x.core.arwReady)
      && (o.d.arready <==> !dw && dr && x.core.arwReady)
      && (o.i.awready <==> !dw && !dr && iw && x.core.arwReady)
      && (o.i.arready <==> !dw && !dr && !iw && ir && x.core.arwReady)
      && (dw ==> o.core.arwWrite && o.core.arwOwner == Data && o.core.arwAddr == x.d.awaddr)
      && (!dw && dr ==> !o.core.arwWrite && o.core.arwOwner == Data && o.core.arwAddr == x.d.araddr)
      && (!dw && !dr && iw ==> o.core.arwWrite && o.core.arwOwner == Instr && o.core.arwAddr == x.i.awaddr)
      && (!dw && !dr && !iw && ir ==> !o.core.arwWrite && o.core.arwOwner == Instr && o.core.arwAddr == x.i.araddr)
  {
  }

  // what one master's side shows of write data and responses
  predicate Passes(b: Bridge, owner: Owner, m: Master, side: ToMaster, o: ToCore, core: Native) {
    var mine := b.pending.Some? && b.pending.owner == owner;
    && (side.wready <==> mine && core.wReady) && (mine ==> (o.wValid <==> m.wvalid))
    && (side.bvalid <==> core.bValid && core.bOwner == owner) && (core.bOwner == owner ==> (o.bReady <==> m.bready))
    && (side.rvalid <==> core.rValid && core.rOwner == owner) && (core.rOwner == owner ==> (o.rReady <==> m.rready))
  }

  /** Progress: the data of a pending write goes to the core as soon as its master offers it and the core takes it,
      and responses pass between the core and the master that owns them, with the half that the oldest read
      asked for. */
  lemma DataPorts(b: Bridge, idle: bool, last: (Owner, bool), x: Inputs)
    ensures var o := Driven(b, idle, last, x);
      && Passes(b, Data, x.d, o.d, o.core, x.core) && Passes(b, Instr, x.i, o.i, o.core, x.core)
      && (b.pending.None? ==> !o.core.wValid)
      && (|b.halves| > 0 ==>
            o.d.rdata == o.i.rdata == if b.halves[0] then x.core.rData[4..] else x.core.rData[..4])
  {
  }

  // ---- one clock ----

  predicate Pushed(o: Outputs, x: Inputs) {
    o.core.arwValid && x.core.arwReady && !o.core.arwWrite
  }

  predicate Popped(o: Outputs, x: Inputs) {
    x.core.rValid && o.core.rReady
  }

  function Latched(b: Bridge, o: Outputs, x: Inputs): Bridge {
    var halves := b.halves + if Pushed(o, x) then [High(o.core.arwAddr)] else [];
    Bridge(if o.core.wValid && x.core.wReady then None
           else if o.core.arwValid && x.core.arwReady && o.core.arwWrite
           then Some(o.core.arwOwner, High(o.core.arwAddr))
           else b.pending,
           if Popped(o, x) && |halves| > 0 then halves[1..] else halves)
  }

  // A read is only granted when the ring has room for its half-select.
  lemma PushNeedsRoom(b: Bridge, idle: bool, last: (Owner, bool), x: Inputs)
    requires Pushed(Driven(b, idle, last, x), x)
    ensures |b.halves| != DEPTH
  {
  }

  class Registers {
    var wPending: bool
    var writeOwner: Owner
    var writeBit2: bool
    const readBit2: array<bool>
    var readHead: nat
    var readTail: nat
    var readCount: nat
    // the half-selects in the ring, oldest first
    ghost var halves: seq<bool>

    constructor ()
      ensures Valid() && View() == RESET && fresh(readBit2)
    {
      wPending, writeOwner, writeBit2 := false, Data, false;
      readBit2 := new bool[DEPTH];
      readHead, readTail, readCount, halves := 0, 0, 0, [];
    }

    ghost predicate Valid()
      reads this, readBit2
    {
      && readBit2.Length == DEPTH && Ring.Holds(readBit2[..], readHead, halves)
      && readCount == |halves| && readTail == Ring.Wrap(readHead + readCount, DEPTH)
    }

    ghost function View(): Bridge
      reads this
    {
      Bridge(if wPending then Some(writeOwner, writeBit2) else None, halves)
    }

    function Drive(x: Inputs): (o: Outputs)
      requires Valid()
      reads this, readBit2
      ensures o == Driven(View(), readBit2[readHead], (writeOwner, writeBit2), x)
    {
      assert |halves| > 0 ==> readBit2[..][Ring.Wrap(readHead + 0, DEPTH)] == halves[0];
      Combine(wPending, writeOwner, writeBit2, readCount == DEPTH, readBit2[readHead], x)
    }

    // the ring and its counters
    method PushPop(push: bool, bit: bool, pop: bool)
      requires Valid() && (push ==> readCount < DEPTH) && (pop ==> readCount > 0)
      modifies this`readHead, this`readTail, this`readCount, this`halves, readBit2
      ensures Valid()
      ensures halves == (old(halves) + if push then [bit] else [])[if pop then 1 else 0..]
    {
      hide Ring.Holds;
      ghost var before := halves;
      if push {
        Ring.Push(readBit2[..], readHead, halves, bit);
        Ring.WrapIsMod(readTail + 1, DEPTH);
        readBit2[readTail] := bit;
        readTail := (readTail + 1) % DEPTH;
        halves := halves + [bit];
      }
      assert halves == before + if push then [bit] else [];
      if pop {
        Ring.Pop(readBit2[..], readHead, halves);
        Ring.WrapIsMod(readHead + 1, DEPTH);
        readHead := (readHead + 1) % DEPTH;
        halves := halves[1..];
      }
      if push && !pop {
        readCount := readCount + 1;
      } else if pop && !push {
        readCount := readCount - 1;
      }
    }

    /** The clocked process: the ring of half-selects and the write latch are the queue and the
        option that Latched describes. */
    method Clock(x: Inputs, reset: bool)
      requires Valid() && (Popped(Drive(x), x) ==> readCount > 0)
      modifies this, readBit2
      ensures Valid()
      ensures View() == if reset then RESET else Latched(old(View()), old(Drive(x)), x)
    {
      ghost var b, idle, last := View(), readBit2[readHead], (writeOwner, writeBit2);
      hide Ring.Holds, Driven;
      var o := Drive(x);
      if o.core.arwValid && x.core.arwReady && o.core.arwWrite {
        wPending, writeOwner, writeBit2 := true, o.core.arwOwner, High(o.core.arwAddr);
      }
      if o.core.wValid && x.core.wReady {
        wPending := false;
      }
      if Pushed(o, x) {
        PushNeedsRoom(b, idle, last, x);
      }
      PushPop(Pushed(o, x), High(o.core.arwAddr), Popped(o, x));
      if reset {
        wPending, readHead, readTail, readCount, halves := false, 0, 0, 0, [];
        NoneHeld(readBit2[..]);
      }
    }
  }

  lemma NoneHeld(ring: seq<bool>)
    requires |ring| > 0
    ensures Ring.Holds(ring, 0, [])
  {
  }
}
