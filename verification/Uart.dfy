/** uart_axi4lite.vhd: the byte streams through an AXI4-Lite UART with a FIFO each way, over every
    run of its bus, its transmitter and its receiver. */
module Uart {
  import opened Bits
  import opened SyncFifo

  type u16 = n: int | 0 <= n < 0x1_0000

  const EMPTY_FLAG: u32 := 0x100
  const DATA: nat := 0
  const STATUS: nat := 1
  const ERRORS: nat := 6

  /** The ports in one clock: the bus with decoded register numbers, the serial transmitter taking
      a byte, the serial receiver delivering one; other is what registers outside this model read as. */
  datatype Inputs = Inputs(awvalid: bool, wvalid: bool, bready: bool, awReg: nat, wdata: u32, wstrb0: bool,
                           arvalid: bool, rready: bool, arReg: nat, other: u32,
                           take: bool, rxValid: bool, rxData: byte, framingError: bool)

  // a received byte, and whether there was room for it
  datatype Arrival = Arrival(data: byte, kept: bool)

  function Kept(arrivals: seq<Arrival>): seq<byte> {
    if |arrivals| == 0 then []
    else
      var last := arrivals[|arrivals| - 1];
      Kept(arrivals[..|arrivals| - 1]) + if last.kept then [last.data] else []
  }

  // the bytes among the values that DATA reads returned
  function Bytes(replies: seq<u32>): seq<byte> {
    if |replies| == 0 then []
    else
      var last := replies[|replies| - 1];
      Bytes(replies[..|replies| - 1]) + if last < EMPTY_FLAG then [last] else []
  }

  function Saturated(n: nat): u16 {
    if n < 0xFFFF then n else 0xFFFF
  }

  // one clock of an error counter: counting, then the clear
  function Counted(count: u16, event: bool, clear: bool): u16 {
    if clear then 0 else if event then (if count == 0xFFFF then count else count + 1) else count
  }

  datatype Losses = Losses(lost: nat, cleared: nat, unseen: nat) {
    function Total(): nat { lost + cleared + unseen }

    function After(dropped: bool, clear: bool): Losses {
      if clear then Losses(0, cleared + lost, unseen + if dropped then 1 else 0)
      else Losses(lost + if dropped then 1 else 0, cleared, unseen)
    }
  }

  const NO_LOSS := Losses(0, 0, 0)

  function Joined<T>(s: seq<T>, more: bool, x: T): seq<T> {
    if more then s + [x] else s
  }

  lemma KeptSnoc(a: seq<Arrival>, x: Arrival)
    ensures Kept(a + [x]) == Kept(a) + if x.kept then [x.data] else []
  {
    assert (a + [x])[..|a|] == a;
  }

  lemma BytesSnoc(a: seq<u32>, x: u32)
    ensures Bytes(a + [x]) == Bytes(a) + if x < EMPTY_FLAG then [x] else []
  {
    assert (a + [x])[..|a|] == a;
  }

  // every received byte is kept or counted among the losses
  ghost predicate AccountOk(arrived: seq<Arrival>, overflow: u16, losses: Losses) {
    overflow == Saturated(losses.lost) && |arrived| == |Kept(arrived)| + losses.Total()
  }

  lemma AccountStep(arrived: seq<Arrival>, overflow: u16, losses: Losses, valid: bool, data: byte, full: bool,
                    clear: bool)
    requires AccountOk(arrived, overflow, losses)
    ensures AccountOk(Joined(arrived, valid, Arrival(data, !full)), Counted(overflow, valid && full, clear),
                      losses.After(valid && full, clear))
    ensures AccountOk([], 0, NO_LOSS)
  {
    hide Kept;
    NoneYet();
    KeptSnoc(arrived, Arrival(data, !full));
  }

  lemma NoneYet()
    ensures Kept([]) == [] && Bytes([]) == []
  {
  }

  // What is between the bus and the transmitter: hold register, popped byte, FIFO.
  ghost function Stream(full: bool, hold: byte, popped: bool, rdata: byte, q: seq<byte>): seq<byte> {
    (if full then [hold] else []) + (if popped then [rdata] else []) + q
  }

  lemma PopFirst(q: seq<byte>, depth: nat, push: bool, w: byte, pop: bool)
    ensures var r := Clocked(q, depth, push, w, pop);
      q + Entered(q, depth, push, w) == if pop && q != [] then [q[0]] + r else r
  {
  }

  /** One clock of tx_engine neither loses nor repeats a byte: what goes in at one end and comes
      out at the other is all that changes, and the popped byte finds the hold register free. */
  lemma TxStep(accepted: seq<byte>, taken: seq<byte>, full: bool, hold: byte, popped: bool, rdata: byte, q: seq<byte>,
               depth: nat, push: bool, w: byte, take: bool, pop: bool, full': bool, hold': byte, rdata': byte,
               q': seq<byte>)
    requires (popped ==> !full) && (take ==> full)
    requires pop == (q != [] && !popped && (!full || take))
    requires q' == Clocked(q, depth, push, w, pop) && (q != [] ==> rdata' == q[0])
    requires full' == (popped || (full && !take)) && hold' == if popped then rdata else hold
    requires accepted == taken + Stream(full, hold, popped, rdata, q)
    ensures pop ==> !full'
    ensures accepted + Entered(q, depth, push, w) == (taken + if take then [hold] else []) +
      Stream(full', hold', pop, rdata', q')
  {
    var added, out := Entered(q, depth, push, w), if take then [hold] else [];
    PopFirst(q, depth, push, w, pop);
    hide Clocked, Entered;
    var s, s' := Stream(full, hold, popped, rdata, q), Stream(full', hold', pop, rdata', q');
    var front: seq<byte> := if popped then [rdata] else if full then [hold] else [];
    assert s == front + q && (front + q) + added == front + (q + added);
    if popped {
      assert s' == front + (q + added) && out == [];
    } else if pop {
      assert front == out && s' == [q[0]] + q';
    } else {
      assert out + s' == front + (q + added);
    }
    assert s + added == out + s';
    Regroup(taken, Stream(full, hold, popped, rdata, q), added, out, Stream(full', hold', pop, rdata', q'));
  }

  lemma Regroup(a: seq<byte>, b: seq<byte>, c: seq<byte>, d: seq<byte>, e: seq<byte>)
    requires b + c == d + e
    ensures (a + b) + c == (a + d) + e
  {
    assert (a + b) + c == a + (b + c);
    assert (a + d) + e == a + (d + e);
  }

  lemma NothingHeld(hold: byte, rdata: byte)
    ensures Stream(false, hold, false, rdata, []) == []
  {
  }

  lemma WrittenStep(written: seq<Arrival>, q: seq<byte>, depth: nat, push: bool, w: byte)
    ensures Kept(written) + Entered(q, depth, push, w) == Kept(Joined(written, push, Arrival(w, |q| < depth)))
  {
    hide Kept;
    KeptSnoc(written, Arrival(w, |q| < depth));
  }

  // the state of the read channel
  datatype Read = NoRead | Waiting(reg: nat, empty: bool) | Answering(reg: nat, empty: bool)

  // The byte that a DATA read has popped and not yet returned.
  ghost function Popped(r: Read, rdata: byte, rdataR: u32): seq<byte> {
    match r
    case NoRead => []
    case Waiting(reg, empty) => if reg == DATA && !empty then [rdata] else []
    case Answering(reg, empty) => if reg == DATA && !empty && rdataR < EMPTY_FLAG then [rdataR] else []
  }

  // the byte that a DATA read returns in this clock
  ghost function ReturnedByte(r: Read, rready: bool, rdataR: u32): seq<byte> {
    if r.Answering? && r.reg == DATA && rready && rdataR < EMPTY_FLAG then [rdataR] else []
  }

  ghost predicate AnswerOk(r: Read, rdataR: u32) {
    r.Answering? && r.reg == DATA ==> if r.empty then rdataR == EMPTY_FLAG else rdataR < EMPTY_FLAG
  }

  // one clock of the read channel
  ghost predicate ReadStep(r: Read, r': Read, arvalid: bool, arReg: nat, rready: bool, empty: bool,
                           rdata: byte, rdataR: u32, rdataR': u32) {
    match r
    case NoRead => r' == (if arvalid then Waiting(arReg, empty) else NoRead) && rdataR' == rdataR
    case Waiting(reg, e) =>
      r' == Answering(reg, e) && (reg == DATA ==> rdataR' == if e then EMPTY_FLAG else rdata)
    case Answering(_, _) => r' == (if rready then NoRead else r) && rdataR' == rdataR
  }

  // Bytes with room are returned, in flight or in the FIFO, in this order.
  ghost predicate InOrder(kept: seq<byte>, bytes: seq<byte>, inFlight: seq<byte>, q: seq<byte>) {
    kept == bytes + (inFlight + q)
  }

  // what one clock adds to the bytes with room and to the bytes returned
  ghost predicate Grown(x: Inputs, reset: bool, depth: nat, q: seq<byte>, r: Read, rdataR: u32,
                        kept: seq<byte>, bytes: seq<byte>, kept': seq<byte>, bytes': seq<byte>) {
    && kept' == (if reset then [] else kept + Entered(q, depth, x.rxValid, x.rxData))
    && bytes' == (if reset then [] else bytes + ReturnedByte(r, x.rready, rdataR))
  }

  // two halves of a register
  function Halves(high: nat, low: nat): u32 {
    high % 0x1_0000 * 0x1_0000 + low % 0x1_0000
  }

  // a read of this register is accepted in this clock
  predicate ReadsFrom(x: Inputs, r: Read, reg: nat) {
    x.arvalid && r.NoRead? && x.arReg == reg
  }

  // one clock of the receive FIFO and the read channel
  ghost predicate Moved(x: Inputs, reset: bool, depth: nat, q: seq<byte>, rdata: byte, r: Read, rdataR: u32,
                        q': seq<byte>, r': Read, rdataR': u32) {
    if reset then q' == [] && r' == NoRead
    else
      && q' == Clocked(q, depth, x.rxValid, x.rxData, r.NoRead? && x.arvalid && x.arReg == DATA)
      && ReadStep(r, r', x.arvalid, x.arReg, x.rready, q == [], rdata, rdataR, rdataR')
  }

  /** One clock of the receive side neither loses nor repeats a byte that had room. */
  lemma RxStep(x: Inputs, reset: bool, depth: nat, q: seq<byte>, rdata: byte, r: Read, rdataR: u32,
               q': seq<byte>, rdata': byte, r': Read, rdataR': u32,
               kept: seq<byte>, bytes: seq<byte>, kept': seq<byte>, bytes': seq<byte>)
    requires Moved(x, reset, depth, q, rdata, r, rdataR, q', r', rdataR') && (q != [] ==> rdata' == q[0])
    requires AnswerOk(r, rdataR) && InOrder(kept, bytes, Popped(r, rdata, rdataR), q)
    requires Grown(x, reset, depth, q, r, rdataR, kept, bytes, kept', bytes')
    ensures AnswerOk(r', rdataR') && InOrder(kept', bytes', Popped(r', rdata', rdataR'), q')
  {
    hide Clocked, Entered, Popped, ReturnedByte, ReadStep, AnswerOk;
    if reset {
      IdleRead(rdata', rdataR');
      return;
    }
    var added := Entered(q, depth, x.rxValid, x.rxData);
    ReadFlow(x, depth, q, rdata, r, rdataR, q', rdata', r', rdataR');
    var before, out, after := Popped(r, rdata, rdataR), ReturnedByte(r, x.rready, rdataR), Popped(r', rdata', rdataR');
    assert (before + q) + added == before + (q + added);
    Regroup(bytes, before + q, added, out, after + q');
  }

  // the bytes behind the returned ones
  lemma ReadFlow(x: Inputs, depth: nat, q: seq<byte>, rdata: byte, r: Read, rdataR: u32,
                 q': seq<byte>, rdata': byte, r': Read, rdataR': u32)
    requires Moved(x, false, depth, q, rdata, r, rdataR, q', r', rdataR') && (q != [] ==> rdata' == q[0])
    requires AnswerOk(r, rdataR)
    ensures AnswerOk(r', rdataR')
    ensures Popped(r, rdata, rdataR) + (q + Entered(q, depth, x.rxValid, x.rxData)) ==
            ReturnedByte(r, x.rready, rdataR) + (Popped(r', rdata', rdataR') + q')
  {
    hide Clocked, Entered;
    PopFirst(q, depth, x.rxValid, x.rxData, r.NoRead? && x.arvalid && x.arReg == DATA);
  }

  lemma IdleRead(rdata: byte, rdataR: u32)
    ensures Popped(NoRead, rdata, rdataR) == [] && AnswerOk(NoRead, rdataR)
    ensures InOrder([], [], Popped(NoRead, rdata, rdataR), []) && AccountOk([], 0, NO_LOSS)
  {
  }

  /** The transmit FIFO and tx_engine. */
  class Transmitter {
    const fifo: Fifo
    var popped: bool
    var hold: byte
    var holdFull: bool
    // since reset: bytes written to DATA, those of them with room, and bytes the serial side took
    ghost var written: seq<Arrival>
    ghost var accepted: seq<byte>
    ghost var taken: seq<byte>

    constructor (depth: nat)
      requires depth > 0
      ensures Intact() && fifo.depth == depth && fresh(fifo) && fresh(fifo.ram)
      ensures accepted == taken == [] && written == []
    {
      fifo := new Fifo(depth);
      popped, hold, holdFull, accepted, taken, written := false, 0, false, [], [], [];
      NoneYet();
    }

    // bytes accepted and not yet taken
    ghost function Waiting(): seq<byte>
      reads this, fifo
    {
      Stream(holdFull, hold, popped, fifo.rdata, fifo.queue)
    }

    /** Of the bytes written, exactly those that found the FIFO full are lost; the others are sent in order,
        none twice, and the hold register is never overwritten. */
    ghost predicate Intact()
      reads this, fifo, fifo.ram
    {
      fifo.Valid() && accepted == Kept(written) && accepted == taken + Waiting() && (popped ==> !holdFull)
    }

    lemma HasFifo()
      requires Intact()
      ensures fifo.Valid()
    {
    }

    ghost function WrittenAfter(push: bool, w: byte, reset: bool): seq<Arrival>
      reads this, fifo
    {
      if reset then [] else Joined(written, push, Arrival(w, |fifo.queue| < fifo.depth))
    }

    // a byte written to DATA counts as accepted if the FIFO has room
    ghost function AcceptedAfter(push: bool, w: byte, reset: bool): seq<byte>
      reads this, fifo
    {
      if reset then [] else accepted + Entered(fifo.queue, fifo.depth, push, w)
    }

    ghost function TakenAfter(take: bool, reset: bool): seq<byte>
      reads this
    {
      if reset then [] else taken + if take then [hold] else []
    }

    // The next byte leaves the FIFO for the hold register.
    ghost predicate Pops(take: bool)
      reads this, fifo
    {
      fifo.queue != [] && !popped && (!holdFull || take)
    }

    // tx_engine: the popped byte into the hold register, which take frees
    method Engine(pop: bool, rdata: byte, take: bool, reset: bool)
      modifies this`popped, this`hold, this`holdFull
      ensures popped == (!reset && pop)
      ensures holdFull == (!reset && (old(popped) || (old(holdFull) && !take)))
      ensures hold == if old(popped) then rdata else old(hold)
    {
      var popped0 := popped;
      popped := pop;
      if take {
        holdFull := false;
      }
      if popped0 {
        hold, holdFull := rdata, true;
      }
      if reset {
        popped, holdFull := false, false;
      }
    }

    // the transmit FIFO and tx_engine
    method Clock(push: bool, wdata: byte, take: bool, reset: bool)
      requires Intact() && (take ==> holdFull)
      modifies this`popped, this`hold, this`holdFull, this`written, this`accepted, this`taken, fifo, fifo.ram
      ensures Intact()
      ensures written == old(WrittenAfter(push, wdata, reset))
      ensures accepted == old(AcceptedAfter(push, wdata, reset)) && taken == old(TakenAfter(take, reset))
      ensures popped == (!reset && old(Pops(take)))
      ensures fifo.queue == if reset then [] else Clocked(old(fifo.queue), fifo.depth, push, wdata, old(Pops(take)))
      ensures holdFull == (!reset && (old(popped) || (old(holdFull) && !take)))
    {
      hide Stream, Clocked, Entered, Kept;
      ghost var q, hold0, full := fifo.queue, hold, holdFull;
      assert fifo.n == |q|;
      WrittenStep(written, fifo.queue, fifo.depth, push, wdata);
      written := WrittenAfter(push, wdata, reset);
      var popped0, rdata := popped, fifo.rdata;
      var pop := fifo.n != 0 && !popped && (!holdFull || take);
      fifo.Clock(push, wdata, pop, reset);
      Engine(pop, rdata, take, reset);
      if reset {
        accepted, taken := [], [];
        NothingHeld(hold, fifo.rdata);
        NoneYet();
      } else {
        TxStep(accepted, taken, full, hold0, popped0, rdata, q, fifo.depth, push, wdata, take, pop,
          holdFull, hold, fifo.rdata, fifo.queue);
        accepted := accepted + Entered(q, fifo.depth, push, wdata);
        taken := taken + if take then [hold0] else [];
      }
    }
  }

  /** The receive FIFO, the read channel and the error counters. */
  class Receiver {
    const fifo: Fifo
    var rPending: bool
    var rWait: bool
    var rAddr: nat
    var rWasEmpty: bool
    var rdataR: u32
    var overflow: u16
    var framing: u16
    // since reset: bytes received, values returned by DATA reads, and what became of the bytes without room
    ghost var arrived: seq<Arrival>
    ghost var replies: seq<u32>
    ghost var losses: Losses
    // framing errors since the counters were cleared
    ghost var framed: nat

    constructor (depth: nat)
      requires depth > 0
      ensures Intact() && fifo.depth == depth && fresh(fifo) && fresh(fifo.ram)
      ensures arrived == [] && replies == [] && losses == NO_LOSS && Reading() == NoRead && fifo.queue == []
      ensures framed == 0
    {
      hide Kept, Bytes, Popped, AnswerOk, Fifo.Valid, InOrder, AccountOk;
      fifo := new Fifo(depth);
      rPending, rWait, rAddr, rWasEmpty, rdataR := false, false, 0, false, 0;
      overflow, framing, arrived, replies, losses, framed := 0, 0, [], [], NO_LOSS, 0;
      NoneYet();
      new;
      IdleRead(fifo.rdata, rdataR);
    }

    ghost function Reading(): Read
      reads this`rPending, this`rWait, this`rAddr, this`rWasEmpty
    {
      if !rPending then NoRead else if rWait then Waiting(rAddr, rWasEmpty) else Answering(rAddr, rWasEmpty)
    }

    ghost function InFlight(): seq<byte>
      reads this`rPending, this`rWait, this`rAddr, this`rWasEmpty, this`rdataR, fifo`rdata
    {
      Popped(Reading(), fifo.rdata, rdataR)
    }

    /** Every received byte that had room is returned exactly once, in order. */
    ghost predicate Streams()
      reads this, fifo, fifo.ram
    {
      && fifo.Valid() && InOrder(Kept(arrived), Bytes(replies), InFlight(), fifo.queue)
      && (rWait ==> rPending) && AnswerOk(Reading(), rdataR)
    }

    /** Every other received byte is in one of three groups: lost since the counters were cleared, which is
        what the overflow counter shows until it saturates; lost before; or lost in a clock that cleared the
        counters, and never shown. The other counter shows the framing errors. */
    ghost predicate Accounted()
      reads this`arrived, this`overflow, this`losses, this`framing, this`framed
    {
      AccountOk(arrived, overflow, losses) && framing == Saturated(framed)
    }

    ghost predicate Intact()
      reads this, fifo, fifo.ram
    {
      Streams() && Accounted()
    }

    // the answer to a read of any register but DATA
    predicate Shows(reg: nat, status: u32, errors: u32, other: u32)
      reads this`rdataR
    {
      reg != DATA ==> rdataR == if reg == STATUS then status else if reg == ERRORS then errors else other
    }

    // the read channel: an accepted read, a clock for the FIFO, then the answer until it is taken
    method ReadClock(x: Inputs, empty: bool, rdata: byte, status: u32, errors: u32, reset: bool)
      modifies this`rPending, this`rWait, this`rAddr, this`rWasEmpty, this`rdataR
      requires rWait ==> rPending
      ensures rWait ==> rPending
      ensures reset ==> !rPending
      ensures !reset ==>
        ReadStep(old(Reading()), Reading(), x.arvalid, x.arReg, x.rready, empty, rdata, old(rdataR), rdataR)
      ensures old(Reading()).Waiting? ==> Shows(old(Reading()).reg, status, errors, x.other)
    {
      var readNow, wait, addr, wasEmpty := x.arvalid && !rPending, rWait, rAddr, rWasEmpty;
      if rPending && !rWait && x.rready {
        rPending := false;
      }
      if readNow {
        rPending, rWait, rAddr, rWasEmpty := true, true, x.arReg, empty;
      }
      if wait {
        rWait := false;
        if addr == DATA {
          rdataR := if wasEmpty then EMPTY_FLAG else rdata;
        } else if addr == STATUS {
          rdataR := status;
        } else if addr == ERRORS {
          rdataR := errors;
        } else {
          rdataR := x.other;
        }
      }
      if reset {
        rPending, rWait := false, false;
      }
    }

    // a received byte is kept if the FIFO has room
    ghost function ArrivedAfter(x: Inputs, reset: bool): seq<Arrival>
      reads this`arrived, fifo`queue
    {
      if reset then [] else Joined(arrived, x.rxValid, Arrival(x.rxData, |fifo.queue| < fifo.depth))
    }

    // a DATA read is answered when R changes hands
    ghost function RepliesAfter(x: Inputs, reset: bool): seq<u32>
      reads this`replies, this`rPending, this`rWait, this`rAddr, this`rdataR
    {
      if reset then [] else Joined(replies, rPending && !rWait && rAddr == DATA && x.rready, rdataR)
    }

    ghost function FramedAfter(x: Inputs, clear: bool, reset: bool): nat
      reads this`framed
    {
      if clear || reset then 0 else framed + if x.framingError then 1 else 0
    }

    // a byte arrives at a full FIFO
    ghost predicate Drops(x: Inputs)
      reads fifo`queue
    {
      x.rxValid && |fifo.queue| >= fifo.depth
    }

    // the error counters, cleared by any write to ERRORS, and the byte that arrives
    method CountErrors(x: Inputs, full: bool, clear: bool, reset: bool)
      requires Accounted() && full == (|fifo.queue| >= fifo.depth)
      modifies this`overflow, this`framing, this`losses, this`framed, this`arrived
      ensures Accounted() && framed == old(FramedAfter(x, clear, reset))
      ensures losses == if reset then NO_LOSS else old(losses).After(Drops(x), clear)
      ensures !reset && Drops(x) ==> (overflow == old(overflow) + 1 <==> !clear && old(overflow) < 0xFFFF)
      ensures framing == Counted(old(framing), x.framingError, clear || reset)
      ensures arrived == old(ArrivedAfter(x, reset))
    {
      hide Kept, Losses.After, AccountOk;
      NoneYet();
      AccountStep(arrived, overflow, losses, x.rxValid, x.rxData, full, clear);
      overflow := Counted(overflow, x.rxValid && full, clear || reset);
      framing := Counted(framing, x.framingError, clear || reset);
      framed := FramedAfter(x, clear, reset);
      losses := if reset then NO_LOSS else losses.After(x.rxValid && full, clear);
      arrived := ArrivedAfter(x, reset);
    }

    // what the arrivals and the answers add to the streams
    lemma StreamsGrow(x: Inputs, reset: bool)
      requires rWait ==> rPending
      ensures Grown(x, reset, fifo.depth, fifo.queue, Reading(), rdataR, Kept(arrived), Bytes(replies),
                    Kept(ArrivedAfter(x, reset)), Bytes(RepliesAfter(x, reset)))
    {
      hide Kept, Bytes;
      NoneYet();
      BytesSnoc(replies, rdataR);
      KeptSnoc(arrived, Arrival(x.rxData, |fifo.queue| < fifo.depth));
    }

    /** The bytes that arrive and leave in one clock, and the losses. A dropped byte moves the counter if and
        only if this clock does not clear it and it is not saturated. */
    twostate predicate Recorded(x: Inputs, clear: bool, reset: bool)
      reads this`arrived, this`replies, this`losses, this`overflow, this`framed
    {
      && arrived == old(ArrivedAfter(x, reset)) && replies == old(RepliesAfter(x, reset))
      && framed == old(FramedAfter(x, clear, reset))
      && losses == (if reset then NO_LOSS else old(losses).After(old(Drops(x)), clear))
      && (!reset && old(Drops(x)) ==> (overflow == old(overflow) + 1 <==> !clear && old(overflow) < 0xFFFF))
    }

    // everything but the FIFO and the read channel
    method Record(x: Inputs, full: bool, clear: bool, reset: bool)
      requires Accounted() && (rWait ==> rPending) && full == (|fifo.queue| >= fifo.depth)
      modifies this`overflow, this`framing, this`losses, this`framed, this`arrived, this`replies
      ensures Accounted() && Recorded(x, clear, reset)
      ensures Grown(x, reset, fifo.depth, fifo.queue, Reading(), rdataR,
                    Kept(old(arrived)), Bytes(old(replies)), Kept(arrived), Bytes(replies))
    {
      hide Kept, Bytes, Reading, ArrivedAfter, RepliesAfter, Drops, Accounted, Losses.After, Grown;
      StreamsGrow(x, reset);
      replies := RepliesAfter(x, reset);
      CountErrors(x, full, clear, reset);
    }

    // the receive FIFO, the read channel and the error counters
    method Clock(x: Inputs, clear: bool, status: u32, reset: bool)
      requires Intact()
      modifies this`rPending, this`rWait, this`rAddr, this`rWasEmpty, this`rdataR, this`overflow, this`framing,
        this`arrived, this`replies, this`losses, this`framed, fifo, fifo.ram
      ensures Intact() && Recorded(x, clear, reset)
      ensures Moved(x, reset, fifo.depth, old(fifo.queue), old(fifo.rdata), old(Reading()), old(rdataR),
                    fifo.queue, Reading(), rdataR)
      ensures old(fifo.queue) != [] ==> fifo.rdata == old(fifo.queue)[0]
      ensures old(Reading()).Waiting? ==>
        Shows(old(Reading()).reg, status, Halves(Saturated(old(framed)), Saturated(old(losses).lost)), x.other)
    {
      hide Fifo.Valid, Kept, Bytes, AnswerOk, InOrder, Grown, Accounted, Recorded, Moved, Reading, InFlight, Shows;
      Signals();
      Counters();
      ghost var kept, bytes := Kept(arrived), Bytes(replies);
      var errors := framing * 0x1_0000 + overflow;
      Record(x, fifo.n == fifo.depth, clear, reset);
      Move(x, status, errors, reset, kept, bytes, Kept(arrived), Bytes(replies));
    }

    lemma Counters()
      requires Accounted()
      ensures framing * 0x1_0000 + overflow == Halves(Saturated(framed), Saturated(losses.lost))
    {
    }

    // the FIFO and the read channel together, with kept received and bytes returned before this clock,
    // and kept' and bytes' with it
    method Move(x: Inputs, status: u32, errors: u32, reset: bool,
                ghost kept: seq<byte>, ghost bytes: seq<byte>, ghost kept': seq<byte>, ghost bytes': seq<byte>)
      requires fifo.Valid() && (rWait ==> rPending) && AnswerOk(Reading(), rdataR)
      requires InOrder(kept, bytes, InFlight(), fifo.queue)
      requires Grown(x, reset, fifo.depth, fifo.queue, Reading(), rdataR, kept, bytes, kept', bytes')
      modifies this`rPending, this`rWait, this`rAddr, this`rWasEmpty, this`rdataR, fifo, fifo.ram
      ensures fifo.Valid() && (rWait ==> rPending) && AnswerOk(Reading(), rdataR)
      ensures InOrder(kept', bytes', InFlight(), fifo.queue)
      ensures Moved(x, reset, fifo.depth, old(fifo.queue), old(fifo.rdata), old(Reading()), old(rdataR),
                    fifo.queue, Reading(), rdataR)
      ensures old(fifo.queue) != [] ==> fifo.rdata == old(fifo.queue)[0]
      ensures old(Reading()).Waiting? ==> Shows(old(Reading()).reg, status, errors, x.other)
    {
      hide Fifo.Valid, ReadStep, Clocked, Popped, AnswerOk, InOrder, Grown, Shows;
      ghost var q, r, was, answer := fifo.queue, Reading(), fifo.rdata, rdataR;
      Signals();
      var empty, rdata := fifo.n == 0, fifo.rdata;
      var pop := x.arvalid && !rPending && x.arReg == DATA;
      fifo.Clock(x.rxValid, x.rxData, pop, reset);
      ReadClock(x, empty, rdata, status, errors, reset);
      RxStep(x, reset, fifo.depth, q, was, r, answer, fifo.queue, fifo.rdata, Reading(), rdataR,
        kept, bytes, kept', bytes');
    }

    lemma Signals()
      requires fifo.Valid()
      ensures (fifo.n == 0 <==> fifo.queue == []) && (fifo.n == fifo.depth <==> |fifo.queue| == fifo.depth)
      ensures |fifo.queue| <= fifo.depth
    {
    }

    lemma HasFifo()
      requires Intact()
      ensures fifo.Valid()
    {
    }

    // what Intact says of the bytes without room
    lemma Accounts()
      requires Intact()
      ensures |arrived| == |Kept(arrived)| + losses.Total() && overflow == Saturated(losses.lost)
    {
    }
  }

  class Uart {
    const tx: Transmitter
    const rx: Receiver
    var bPending: bool

    constructor (depth: nat)
      requires depth > 0
      ensures Valid() && fresh(tx) && fresh(rx)
      ensures fresh(tx.fifo) && fresh(rx.fifo) && fresh(tx.fifo.ram) && fresh(rx.fifo.ram)
      ensures tx.accepted == tx.taken == [] && tx.written == []
      ensures rx.arrived == [] && rx.replies == [] && rx.losses == NO_LOSS && rx.framed == 0
    {
      hide Transmitter.Intact, Receiver.Intact, Receiver.Reading;
      tx := new Transmitter(depth);
      rx := new Receiver(depth);
      bPending := false;
    }

    ghost predicate Valid()
      reads tx, rx, tx.fifo, rx.fifo, tx.fifo.ram, rx.fifo.ram
    {
      tx.fifo != rx.fifo && tx.fifo.ram != rx.fifo.ram && tx.Intact() && rx.Intact()
    }

    // what STATUS shows: free places and received bytes
    ghost function Status(): u32
      reads this, tx, tx.fifo, rx, rx.fifo
      requires |tx.fifo.queue| <= tx.fifo.depth
    {
      Halves(tx.fifo.depth - |tx.fifo.queue|, |rx.fifo.queue|)
    }

    // what ERRORS shows
    ghost function Errors(): u32
      reads rx`framed, rx`losses
    {
      Halves(Saturated(rx.framed), Saturated(rx.losses.lost))
    }

    /** The read channel in one clock: it is that of the bus inputs, a byte leaves the receive FIFO exactly when a
        read of DATA is accepted, and a read accepted in the clock before is answered with what its register
        shows. */
    twostate predicate ReadsAs(x: Inputs, reset: bool)
      reads rx, rx.fifo
      requires old(|tx.fifo.queue| <= tx.fifo.depth)
    {
      && (if reset then rx.fifo.queue == [] && rx.Reading() == NoRead
          else
            && rx.fifo.queue == Clocked(old(rx.fifo.queue), rx.fifo.depth, x.rxValid, x.rxData,
                                        ReadsFrom(x, old(rx.Reading()), DATA))
            && ReadStep(old(rx.Reading()), rx.Reading(), x.arvalid, x.arReg, x.rready, old(rx.fifo.queue) == [],
                        old(rx.fifo.rdata), old(rx.rdataR), rx.rdataR))
      && (old(rx.fifo.queue) != [] ==> rx.fifo.rdata == old(rx.fifo.queue)[0])
      && (old(rx.Reading()).Waiting? ==> rx.Shows(old(rx.Reading()).reg, old(Status()), old(Errors()), x.other))
    }

    /** One clock of the whole UART: both streams stay intact whatever the bus, the transmitter and
        the receiver do. */
    method Clock(x: Inputs, reset: bool)
      requires Valid() && (x.take ==> tx.holdFull)
      modifies this, tx, rx, tx.fifo, rx.fifo, tx.fifo.ram, rx.fifo.ram
      ensures Valid()
      ensures tx.written == old(tx.WrittenAfter(WritesTo(x, bPending, DATA) && x.wstrb0, x.wdata % 0x100, reset))
      ensures tx.accepted == old(tx.AcceptedAfter(WritesTo(x, bPending, DATA) && x.wstrb0, x.wdata % 0x100, reset))
      ensures tx.taken == old(tx.TakenAfter(x.take, reset))
      ensures rx.arrived == old(rx.ArrivedAfter(x, reset)) && rx.replies == old(rx.RepliesAfter(x, reset))
      ensures rx.losses ==
        if reset then NO_LOSS else old(rx.losses).After(old(rx.Drops(x)), WritesTo(x, old(bPending), ERRORS))
      ensures rx.framed == old(rx.FramedAfter(x, WritesTo(x, bPending, ERRORS), reset))
      ensures bPending == (!reset && ((x.awvalid && x.wvalid && !old(bPending)) || (old(bPending) && !x.bready)))
      ensures old(|tx.fifo.queue| <= tx.fifo.depth) && ReadsAs(x, reset)
      ensures tx.fifo.queue == if reset then [] else
        Clocked(old(tx.fifo.queue), tx.fifo.depth, WritesTo(x, old(bPending), DATA) && x.wstrb0, x.wdata % 0x100,
          old(tx.Pops(x.take)))
      ensures tx.holdFull == (!reset && (old(tx.popped) || (old(tx.holdFull) && !x.take)))
    {
      hide Transmitter.Intact, Receiver.Intact, Transmitter.AcceptedAfter, Transmitter.TakenAfter,
        Transmitter.WrittenAfter, Receiver.ArrivedAfter, Receiver.RepliesAfter, Receiver.FramedAfter, Receiver.Drops,
        StatusWord, Clocked, Transmitter.Pops, ReadsAs, Status, Losses.After, Valid;
      StatusIs();
      var writeNow := x.awvalid && x.wvalid && !bPending;
      Receive(x, writeNow && x.awReg == ERRORS, reset);
      Send(x, writeNow && x.awReg == DATA && x.wstrb0, reset);
      WriteResponse(writeNow, x.bready, reset);
    }

    // the transmit side
    method Send(x: Inputs, push: bool, reset: bool)
      requires Valid() && (x.take ==> tx.holdFull)
      modifies tx, tx.fifo, tx.fifo.ram
      ensures Valid() && unchanged(rx, rx.fifo, rx.fifo.ram)
      ensures tx.written == old(tx.WrittenAfter(push, x.wdata % 0x100, reset))
      ensures tx.accepted == old(tx.AcceptedAfter(push, x.wdata % 0x100, reset))
      ensures tx.taken == old(tx.TakenAfter(x.take, reset))
      ensures tx.fifo.queue == if reset then [] else
        Clocked(old(tx.fifo.queue), tx.fifo.depth, push, x.wdata % 0x100, old(tx.Pops(x.take)))
      ensures tx.holdFull == (!reset && (old(tx.popped) || (old(tx.holdFull) && !x.take)))
    {
      hide Transmitter.Intact, Receiver.Intact, Transmitter.AcceptedAfter, Transmitter.TakenAfter,
        Transmitter.WrittenAfter, Clocked, Transmitter.Pops;
      tx.Clock(push, x.wdata % 0x100, x.take, reset);
    }

    // the receive side, with the bus inputs as they are
    method Receive(x: Inputs, clear: bool, reset: bool)
      requires Valid()
      modifies rx, rx.fifo, rx.fifo.ram
      ensures unchanged(tx, tx.fifo, tx.fifo.ram)
      ensures Valid() && old(|tx.fifo.queue| <= tx.fifo.depth) && ReadsAs(x, reset)
      ensures rx.arrived == old(rx.ArrivedAfter(x, reset)) && rx.replies == old(rx.RepliesAfter(x, reset))
      ensures rx.losses == if reset then NO_LOSS else old(rx.losses).After(old(rx.Drops(x)), clear)
      ensures rx.framed == old(rx.FramedAfter(x, clear, reset))
    {
      hide Transmitter.Intact, Receiver.Intact, Receiver.ArrivedAfter, Receiver.RepliesAfter, Receiver.FramedAfter,
        Receiver.Drops, StatusWord, ReadStep, Clocked, Receiver.Shows, Halves;
      StatusIs();
      rx.Clock(x, clear, StatusWord(), reset);
    }

    lemma StatusIs()
      requires Valid()
      ensures |tx.fifo.queue| <= tx.fifo.depth && StatusWord() == Status()
    {
      hide Transmitter.Intact, Receiver.Intact, Fifo.Valid;
      tx.HasFifo();
      rx.HasFifo();
      Filled(tx.fifo);
      Filled(rx.fifo);
    }

    lemma Filled(fifo: Fifo)
      requires fifo.Valid()
      ensures fifo.n == |fifo.queue| <= fifo.depth
    {
    }

    method WriteResponse(writeNow: bool, bready: bool, reset: bool)
      modifies this`bPending
      ensures bPending == (!reset && (writeNow || (old(bPending) && !bready)))
    {
      if bPending && bready {
        bPending := false;
      }
      if writeNow {
        bPending := true;
      }
      if reset {
        bPending := false;
      }
    }

    function StatusWord(): u32
      reads this, tx, tx.fifo, rx, rx.fifo
    {
      (tx.fifo.depth - tx.fifo.n) % 0x1_0000 * 0x1_0000 + rx.fifo.n % 0x1_0000
    }
  }

  // a write that is accepted in this clock
  predicate WritesTo(x: Inputs, bPending: bool, reg: nat) {
    x.awvalid && x.wvalid && !bPending && x.awReg == reg
  }

  /** A read of the UART over two clocks, whatever else happens in them: DATA gives the oldest received byte, or
      says that there is none; STATUS gives the free places for bytes to send and the number of received bytes, and
      ERRORS the framing errors and the lost bytes, as they were between the two clocks. */
  method ReadRegister(uart: Uart, x: Inputs, y: Inputs)
    requires uart.Valid() && uart.rx.Reading() == NoRead && x.arvalid
    requires (x.take ==> uart.tx.holdFull) && (y.take ==> uart.tx.popped || (uart.tx.holdFull && !x.take))
    modifies uart, uart.tx, uart.rx, uart.tx.fifo, uart.rx.fifo, uart.tx.fifo.ram, uart.rx.fifo.ram
    ensures uart.Valid() && uart.rx.Reading() == Answering(x.arReg, old(uart.rx.fifo.queue) == [])
    ensures x.arReg == DATA ==>
      uart.rx.rdataR == if old(uart.rx.fifo.queue) == [] then EMPTY_FLAG else old(uart.rx.fifo.queue)[0]
    ensures x.arReg == STATUS ==>
      var sending := Clocked(old(uart.tx.fifo.queue), uart.tx.fifo.depth,
        WritesTo(x, old(uart.bPending), DATA) && x.wstrb0, x.wdata % 0x100, old(uart.tx.Pops(x.take)));
      var received := Clocked(old(uart.rx.fifo.queue), uart.rx.fifo.depth, x.rxValid, x.rxData, false);
      |sending| <= uart.tx.fifo.depth && uart.rx.rdataR == Halves(uart.tx.fifo.depth - |sending|, |received|)
    ensures x.arReg == ERRORS ==>
      var clear := WritesTo(x, old(uart.bPending), ERRORS);
      uart.rx.rdataR == Halves(Saturated(old(uart.rx.FramedAfter(x, WritesTo(x, uart.bPending, ERRORS), false))),
                               Saturated(old(uart.rx.losses).After(old(uart.rx.Drops(x)), clear).lost))
  {
    hide Uart.Valid, Transmitter.AcceptedAfter, Transmitter.TakenAfter, Transmitter.WrittenAfter, Receiver.ArrivedAfter,
      Receiver.RepliesAfter, Receiver.FramedAfter, Receiver.Drops, Clocked, Halves, Transmitter.Pops, Receiver.Reading;
    uart.Clock(x, false);
    uart.Clock(y, false);
  }

  // one more byte, on an idle bus
  method Arrive(rx: Receiver, clear: bool)
    requires rx.Intact() && rx.Reading() == NoRead && |rx.fifo.queue| <= rx.fifo.depth
    modifies rx, rx.fifo, rx.fifo.ram
    ensures rx.Intact() && rx.Reading() == NoRead && rx.replies == old(rx.replies)
    ensures |rx.arrived| == old(|rx.arrived|) + 1
    ensures |rx.fifo.queue| == old(|rx.fifo.queue|) + if old(|rx.fifo.queue|) < rx.fifo.depth then 1 else 0
    ensures rx.losses == old(rx.losses).After(old(|rx.fifo.queue|) == rx.fifo.depth, clear)
  {
    hide Receiver.Intact, Losses.After, Popped, AnswerOk;
    rx.Clock(Inputs(false, false, false, 0, 0, false, false, false, 0, 0, false, true, 0, false), clear, 0, false);
  }

  /** A byte lost without trace: the FIFO is filled, and one more byte arrives in the clock of an ERRORS
      write. No read has returned anything and one byte has no room, but no counter shows it. */
  method LoseUnseen(depth: nat) returns (rx: Receiver)
    requires depth > 0
    ensures rx.Intact() && |rx.arrived| == depth + 1 && |Kept(rx.arrived)| == depth && rx.replies == []
    ensures rx.overflow == 0 && rx.losses == Losses(0, 0, 1)
  {
    hide Receiver.Intact, Receiver.Reading;
    rx := new Receiver(depth);
    for i := 0 to depth
      invariant fresh(rx) && fresh(rx.fifo) && fresh(rx.fifo.ram) && rx.fifo.depth == depth
      invariant rx.Intact() && rx.Reading() == NoRead && |rx.arrived| == |rx.fifo.queue| == i
      invariant rx.replies == [] && rx.losses == NO_LOSS
    {
      Arrive(rx, false);
    }
    Arrive(rx, true);
    rx.Accounts();
  }
}
