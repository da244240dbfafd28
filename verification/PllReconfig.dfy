/** hyperram_pll_reconfig.vhd: phase requests from another clock domain become read-modify-writes
    of one PLL counter register over an AXI4-Lite port. */
module PllReconfig {
  import opened Bits

  type phase3 = p: int | 0 <= p < 8

  const REG_ENABLE: nat := 0xA00010
  const COUNTER1: nat := 0xA00060
  const PHASE_MASK: u32 := 0x38_0000

  // ---- the phase field, bits 21:19 ----

  function Phase(w: u32): phase3 {
    w / 0x8_0000 % 8
  }

  // the bits above and below the field
  function Rest(w: u32): (nat, nat) {
    (w / 0x40_0000, w % 0x8_0000)
  }

  function WithPhase(w: u32, p: phase3): u32 {
    w / 0x40_0000 * 0x40_0000 + p * 0x8_0000 + w % 0x8_0000
  }

  lemma WithPhaseIs(w: u32, p: phase3)
    ensures Phase(WithPhase(w, p)) == p && Rest(WithPhase(w, p)) == Rest(w)
  {
    var h, l, v := w / 0x40_0000, w % 0x8_0000, WithPhase(w, p);
    assert v / 0x8_0000 == 8 * h + p;
    assert v / 0x40_0000 == h;
  }

  // A register is its phase and the rest of its bits.
  lemma PhaseAndRest(w: u32, v: u32)
    requires Phase(w) == Phase(v) && Rest(w) == Rest(v)
    ensures w == v
  {
  }

  lemma Powers()
    ensures Pow2(3) == 8 && Pow2(10) == 0x400 && Pow2(19) == 0x8_0000
  {
    assert Pow2(3) == 8;
    assert Pow2(7) == 0x80;
    assert Pow2(10) == 0x400;
    assert Pow2(13) == 0x2000;
    assert Pow2(16) == 0x1_0000;
  }

  lemma LowShr19(n: nat)
    ensures Low(n, 19) == n % 0x8_0000 && Shr(n, 19) == n / 0x8_0000
  {
    hide Low, Shr, Pow2;
    Powers();
    LowShr(n, 19);
  }

  lemma LowShr3(n: nat)
    ensures Low(n, 3) == n % 8 && Shr(n, 3) == n / 8
  {
    hide Low, Shr, Pow2;
    Powers();
    LowShr(n, 3);
  }

  // AND, a field at a time
  lemma AndAt(a: nat, b: nat, k: nat)
    ensures And(a, b) == And(Low(a, k), Low(b, k)) + Pow2(k) * And(Shr(a, k), Shr(b, k))
  {
    hide Low, Shr, And, Pow2;
    AndSplit(a, b, k);
    LowShr(And(a, b), k);
  }

  lemma AndField(x: nat, k: nat)
    requires x < Pow2(k)
    ensures And(x, Pow2(k) - 1) == x
  {
    AndOnes(k, x);
    AndComm(x, Pow2(k) - 1);
  }

  /** The mask arithmetic of the source: AND with the complement of the mask clears the phase field
      and nothing else. */
  lemma MaskClears(w: u32)
    ensures And(w, 0xFFFF_FFFF - PHASE_MASK) == WithPhase(w, 0)
  {
    hide Low, Shr, And, Pow2;
    var k := 0xFFFF_FFFF - PHASE_MASK;
    Powers();
    AndAt(w, k, 19);
    LowShr19(w);
    LowShr19(k);
    var h, g := w / 0x8_0000, k / 0x8_0000;
    AndAt(h, g, 3);
    LowShr3(h);
    LowShr3(g);
    AndField(w % 0x8_0000, 19);
    AndField(h / 8, 10);
    AndZero(h % 8);
    assert g % 8 == 0 && g / 8 == 0x3FF && k % 0x8_0000 == 0x7_FFFF;
    DivDiv(w);
    assert And(h, g) == 8 * (h / 8);
    assert And(w, k) == w % 0x8_0000 + 0x8_0000 * (8 * (w / 0x40_0000));
  }

  // The shifted phase lies within the mask, and outside the rest of the word.
  lemma ShiftedPhase(w: u32, p: phase3)
    ensures And(p * 0x8_0000, PHASE_MASK) == p * 0x8_0000
    ensures And(WithPhase(w, 0), p * 0x8_0000) == 0
  {
    hide Low, Shr, And, Pow2;
    Powers();
    AndField(p, 3);
    AndScaled(p, 7, 19);
    var v, q := WithPhase(w, 0), p * 0x8_0000;
    AndAt(v, q, 19);
    LowShr19(v);
    LowShr19(q);
    assert q % 0x8_0000 == 0 && q / 0x8_0000 == p && v / 0x8_0000 == 8 * (w / 0x40_0000);
    AndAt(8 * (w / 0x40_0000), p, 3);
    LowShr3(8 * (w / 0x40_0000));
    LowShr3(p);
    AndZero(v % 0x8_0000);
    AndZero(p);
    AndZero(w / 0x40_0000);
  }

  /** The whole mask arithmetic: the word read, without the phase field, OR the shifted phase within it, is the
      word with the new phase. */
  lemma MaskAndShift(w: u32, p: phase3)
    ensures Or(And(w, 0xFFFF_FFFF - PHASE_MASK), And(p * 0x8_0000, PHASE_MASK)) == WithPhase(w, p)
  {
    hide And, Or;
    MaskClears(w);
    ShiftedPhase(w, p);
    OrDisjoint(WithPhase(w, 0), p * 0x8_0000);
  }

  lemma DivDiv(w: nat)
    ensures w / 0x8_0000 / 8 == w / 0x40_0000
  {
  }

  // ---- the state machine ----

  datatype Step = Start | EnableReconfig | WaitDps | ReadC1 | WriteC1
  datatype BusPhase = Req | Resp
  datatype Option<T> = None | Some(value: T)

  datatype Inputs = Inputs(reset: bool, locked: bool, shift: phase3, enable: bool,
                           awready: bool, wready: bool, arready: bool, bvalid: bool, rvalid: bool, rdata: u32)

  type Levels = e: seq<bool> | |e| == 4 witness [false, false, false, false]
  type Samples = s: seq<phase3> | |s| == 3 witness [0, 0, 0]

  function ShiftIn(e: Levels, level: bool): Levels {
    [level] + e[..3]
  }

  function SampleIn(s: Samples, sample: phase3): Samples {
    [sample] + s[..2]
  }

  // the phases sampled where the request line rose, oldest first
  ghost function Rises(e: Levels, s: Samples): seq<phase3> {
    (if e[2] && !e[3] then [s[2]] else []) + (if e[1] && !e[2] then [s[1]] else []) +
      (if e[0] && !e[1] then [s[0]] else [])
  }

  // one clock of the requests on their way: the oldest leaves at its edge, a new one joins
  ghost function Moved(r: seq<phase3>, leaves: bool, joins: bool, sample: phase3): seq<phase3> {
    (if leaves && r != [] then r[1..] else r) + if joins then [sample] else []
  }

  lemma RisesShift(e: Levels, s: Samples, level: bool, sample: phase3)
    ensures var r := Rises(e, s);
      && (e[2] && !e[3] ==> r != [] && r[0] == s[2])
      && Rises(ShiftIn(e, level), SampleIn(s, sample)) == Moved(r, e[2] && !e[3], level && !e[0], sample)
  {
  }

  // The phase going through its two flops is the one sampled at the rise it belongs to.
  ghost predicate Aligned(e: Levels, s: Samples, shift0: phase3, shift1: phase3) {
    && shift0 == s[0]
    && (e[1] && !e[2] ==> shift1 == s[1] == shift0)
    && (e[2] && !e[3] ==> shift1 == s[2])
  }

  lemma AlignedShift(e: Levels, s: Samples, shift0: phase3, shift1: phase3, level: bool, sample: phase3)
    requires Aligned(e, s, shift0, shift1) && (e[0] && !e[1] ==> sample == shift0)
    ensures Aligned(ShiftIn(e, level), SampleIn(s, sample), sample, shift0) && ShiftIn(e, level)[0] == level
    ensures e[2] && !e[3] ==> shift1 == s[2]
  {
  }

  /** The synchronisers into this clock domain: lock through two flops, the request's level through
      four and its phase through two. */
  class Crossing {
    var lock0: bool
    var lock1: bool
    var enable: Levels
    var shift0: phase3
    var shift1: phase3
    // lock has been seen at the port; the phases sampled together with the first three levels
    ghost var lockSeen: bool
    ghost var samples: Samples

    constructor ()
      ensures Valid() && Underway() == [] && !lock0 && !lock1 && !lockSeen && !enable[0]
    {
      lock0, lock1, lockSeen := false, false, false;
      enable, samples := [false, false, false, false], [0, 0, 0];
      shift0, shift1 := 0, 0;
    }

    ghost predicate Valid()
      reads this
    {
      (lock0 || lock1 ==> lockSeen) && Aligned(enable, samples, shift0, shift1)
    }

    predicate Edge()
      reads this
    {
      enable[2] && !enable[3]
    }

    // the phases of the requests on their way, oldest first
    ghost function Underway(): seq<phase3>
      reads this
    {
      Rises(enable, samples)
    }

    ghost function UnderwayAfter(x: Inputs): seq<phase3>
      reads this
    {
      Moved(Underway(), Edge(), x.enable && !enable[0], x.shift)
    }

    // the phase is still what it was when the request line rose
    predicate PhaseHeld(x: Inputs)
      reads this
    {
      enable[0] && !enable[1] ==> x.shift == shift0
    }

    method LockClock(locked: bool)
      modifies this`lock0, this`lock1, this`lockSeen
      ensures lock1 == old(lock0) && lock0 == locked && lockSeen == (old(lockSeen) || locked)
    {
      lockSeen := lockSeen || locked;
      lock1, lock0 := lock0, locked;
    }

    method RequestClock(x: Inputs)
      requires Aligned(enable, samples, shift0, shift1) && PhaseHeld(x)
      modifies this`enable, this`samples, this`shift0, this`shift1
      ensures Aligned(enable, samples, shift0, shift1)
      ensures Underway() == old(UnderwayAfter(x))
    {
      hide Rises, Aligned, ShiftIn, SampleIn, Moved;
      RisesShift(enable, samples, x.enable, x.shift);
      AlignedShift(enable, samples, shift0, shift1, x.enable, x.shift);
      enable, samples := ShiftIn(enable, x.enable), SampleIn(samples, x.shift);
      shift1, shift0 := shift0, x.shift;
    }

    // what comes out at an edge is the oldest request
    lemma EdgePhase()
      requires Valid() && Edge()
      ensures Underway() != [] && Underway()[0] == shift1
    {
    }

    /** Every rise of the request line comes out as one edge, with the phase that was at the port
        when it rose, as long as the phase is held for one more clock. */
    method Clock(x: Inputs)
      requires Valid() && PhaseHeld(x)
      modifies this
      ensures Valid() && (lockSeen <==> old(lockSeen) || x.locked)
      ensures Underway() == old(UnderwayAfter(x))
    {
      hide Rises, Aligned, Moved;
      LockClock(x.locked);
      RequestClock(x);
    }
  }

  class Reconfig {
    const sync: Crossing
    var step: Step
    var busPhase: BusPhase
    var isWrite: bool
    var awV: bool
    var wV: bool
    var arV: bool
    var bR: bool
    var rR: bool
    var busAddr: nat
    var busWdata: u32
    var pendingPhase: phase3
    var doneToggle: bool
    var requestPending: bool
    var requestPhase: phase3
    // what the bus slave has accepted and not answered, and its counter register
    ghost var aw: Option<nat>
    ghost var w: Option<u32>
    ghost var ar: Option<nat>
    ghost var counter1: u32
    ghost const original: u32
    // the slave has carried out the write that enables reconfiguration
    ghost var enabled: bool
    // the newest request since the machine was last held
    ghost var newest: Option<phase3>

    constructor (counter: u32)
      ensures Valid() && step == Start && newest == None && counter1 == original == counter && !enabled
      ensures fresh(sync) && sync.Underway() == [] && !sync.lockSeen
    {
      sync := new Crossing();
      step, busPhase, isWrite := Start, Req, true;
      awV, wV, arV, bR, rR := false, false, false, false, false;
      busAddr, busWdata, pendingPhase, doneToggle := REG_ENABLE, 1, 0, false;
      requestPending, requestPhase := false, 0;
      aw, w, ar, counter1, original, newest, enabled := None, None, None, counter, counter, None, false;
    }

    ghost predicate Quiet()
      reads this
    {
      !awV && !wV && !arV && !bR && !rR && aw == None && w == None && ar == None
    }

    // A write of data to addr is under way: each half is either still presented or accepted.
    ghost predicate Writing(addr: nat, data: u32)
      reads this
    {
      && isWrite && busAddr == addr && busWdata == data && !arV && !rR && ar == None
      && aw == (if awV then None else Some(addr)) && w == (if wV then None else Some(data))
      && (if busPhase == Req then (awV || wV) && !bR else !awV && !wV && bR)
    }

    ghost predicate Reading()
      reads this
    {
      && !isWrite && busAddr == COUNTER1 && !awV && !wV && !bR && aw == None && w == None && rR
      && arV == (busPhase == Req) && ar == (if arV then None else Some(COUNTER1))
    }

    ghost predicate BusOk()
      reads this
    {
      match step
      case Start => Quiet()
      case EnableReconfig => Writing(REG_ENABLE, 1)
      case WaitDps => Quiet() && enabled
      case ReadC1 => Reading() && enabled
      case WriteC1 => Writing(COUNTER1, WithPhase(counter1, pendingPhase)) && enabled
    }

    // The newest request is waiting, under way or applied.
    ghost predicate RequestsOk()
      reads this
    {
      && (requestPending ==> newest == Some(requestPhase))
      && (step.ReadC1? || step.WriteC1? ==> newest.Some?)
      && (!requestPending ==>
            match step
            case WaitDps => newest.Some? ==> Phase(counter1) == newest.value
            case ReadC1 => newest == Some(pendingPhase)
            case WriteC1 => newest == Some(pendingPhase)
            case Start => newest == None
            case EnableReconfig => newest == None)
    }

    ghost predicate Valid()
      reads this, sync
    {
      && BusOk() && RequestsOk() && Rest(counter1) == Rest(original)
      && sync.Valid() && (step != Start ==> sync.lockSeen)
    }

    predicate Held(x: Inputs)
      reads sync
    {
      x.reset || !sync.lock1
    }

    /** Before the PLL has locked, nothing is presented on the bus. */
    lemma NothingBeforeLock()
      requires Valid() && !sync.lockSeen
      ensures !awV && !wV && !arV && !bR && !rR
    {
    }

    /** Before reconfiguration is enabled, nothing but the write that enables it is presented. */
    lemma NothingBeforeEnabled()
      requires Valid() && !enabled
      ensures !arV && (awV ==> busAddr == REG_ENABLE) && (wV ==> busWdata == 1)
    {
      hide Rest, WithPhase;
    }

    // The slave answers only what it has accepted, a read with the register's value.
    ghost predicate Legal(x: Inputs)
      reads this
    {
      && (x.bvalid ==> aw.Some? && w.Some?)
      && (x.rvalid ==> ar.Some? && (ar.value == COUNTER1 ==> x.rdata == counter1))
    }

    // the response to the write of 1 to the enabling register
    ghost predicate Enables(x: Inputs)
      reads this
    {
      busPhase == Resp && x.bvalid && aw == Some(REG_ENABLE) && w == Some(1)
    }

    // the response to a write of counter 1
    ghost predicate Completed(x: Inputs)
      reads this
    {
      step == WriteC1 && busPhase == Resp && x.bvalid
    }

    // The lines of a request: each is held until it is accepted, and taken back then; when all have been
    // accepted the response is waited for.
    twostate predicate Presents(x: Inputs)
      reads this`busPhase, this`awV, this`wV, this`arV
    {
      old(busPhase) == Req && old(!step.Start? && !step.WaitDps?) ==>
        && busPhase == (if old(Taken(x)) then Resp else Req)
        && (old(isWrite) ==> awV == (old(awV) && !x.awready) && wV == (old(wV) && !x.wready))
        && (!old(isWrite) ==> arV == (old(arV) && !x.arready))
    }

    // what is presented is accepted in this clock
    ghost predicate Taken(x: Inputs)
      reads this
    {
      if isWrite then (!awV || x.awready) && (!wV || x.wready) else !arV || x.arready
    }

    /** Idle with nothing waiting: counter 1 has the newest request's phase, and no other bit of it
        has ever changed. */
    lemma IdleMeansApplied()
      requires Valid() && step == WaitDps && !requestPending && newest.Some?
      ensures counter1 == WithPhase(original, newest.value)
    {
      WithPhaseIs(original, newest.value);
      PhaseAndRest(counter1, WithPhase(original, newest.value));
    }

    // AW and W are held until each is accepted
    method WriteRequest(x: Inputs, ghost addr: nat, ghost data: u32)
      requires Writing(addr, data) && busPhase == Req
      modifies this`busPhase, this`awV, this`wV, this`bR, this`aw, this`w
      ensures Writing(addr, data) && busPhase == if old(Taken(x)) then Resp else Req
      ensures awV == (old(awV) && !x.awready) && wV == (old(wV) && !x.wready)
    {
      aw := if awV && x.awready then Some(busAddr) else aw;
      w := if wV && x.wready then Some(busWdata) else w;
      if (!awV || x.awready) && (!wV || x.wready) {
        awV, wV, bR, busPhase := false, false, true, Resp;
      } else {
        if awV && x.awready {
          awV := false;
        }
        if wV && x.wready {
          wV := false;
        }
      }
    }

    method ReadRequest(x: Inputs)
      requires Reading() && busPhase == Req
      modifies this`busPhase, this`arV, this`rR, this`ar
      ensures Reading() && busPhase == (if old(Taken(x)) then Resp else Req) && arV == (old(arV) && !x.arready)
    {
      if !arV || x.arready {
        ar := Some(busAddr);
        arV, rR, busPhase := false, true, Resp;
      }
    }

    // the slave carries out the write it answers
    method WriteResponse(x: Inputs, ghost addr: nat, ghost data: u32)
      requires Writing(addr, data) && busPhase == Resp && (step.EnableReconfig? || step.WriteC1?)
      modifies this`step, this`bR, this`doneToggle, this`aw, this`w, this`counter1, this`enabled
      ensures enabled == (old(enabled) || (x.bvalid && addr == REG_ENABLE && data == 1))
      ensures if x.bvalid then Quiet() && step == WaitDps else Writing(addr, data) && step == old(step)
      ensures counter1 == if x.bvalid && addr == COUNTER1 then data else old(counter1)
      ensures doneToggle == (old(doneToggle) != (x.bvalid && old(step) == WriteC1))
    {
      if x.bvalid {
        bR := false;
        if aw == Some(COUNTER1) {
          counter1 := w.value;
        }
        enabled := enabled || (aw == Some(REG_ENABLE) && w == Some(1));
        aw, w := None, None;
        if step == WriteC1 {
          doneToggle := !doneToggle;
        }
        step := WaitDps;
      }
    }

    // only the phase field of what was read changes
    method ReadResponse(x: Inputs)
      requires Reading() && busPhase == Resp && Legal(x) && step == ReadC1
      modifies this`step, this`busPhase, this`isWrite, this`awV, this`wV, this`rR, this`busWdata, this`ar
      ensures if x.rvalid
              then Writing(COUNTER1, WithPhase(counter1, pendingPhase)) && step == WriteC1 && busPhase == Req
              else Reading() && step == ReadC1 && busPhase == Resp
    {
      hide WithPhase, And, Or;
      if x.rvalid {
        rR, ar := false, None;
        MaskAndShift(x.rdata, pendingPhase);
        busWdata := Or(And(x.rdata, 0xFFFF_FFFF - PHASE_MASK), And(pendingPhase * 0x8_0000, PHASE_MASK));
        isWrite, awV, wV, busPhase, step := true, true, true, Req, WriteC1;
      }
    }

    // the request and response phases of one bus transaction
    method Transact(x: Inputs)
      requires BusOk() && Legal(x) && !step.Start? && !step.WaitDps?
      modifies this`step, this`busPhase, this`isWrite, this`awV, this`wV, this`arV, this`bR, this`rR, this`busWdata,
        this`doneToggle, this`aw, this`w, this`ar, this`counter1, this`enabled
      ensures enabled == (old(enabled) || old(Enables(x)))
      ensures BusOk() && doneToggle == (old(doneToggle) != old(Completed(x)))
      ensures Presents(x)
      ensures counter1 == if old(Completed(x)) then WithPhase(old(counter1), pendingPhase) else old(counter1)
      ensures step == if old(busPhase) == Resp && old(isWrite) && x.bvalid then WaitDps
                      else if old(busPhase) == Resp && !old(isWrite) && x.rvalid then WriteC1 else old(step)
    {
      hide WithPhase, Quiet, Legal;
      ghost var addr: nat, data: u32 := if step == EnableReconfig then REG_ENABLE else COUNTER1,
        if step == EnableReconfig then 1 else WithPhase(counter1, pendingPhase);
      DirectionOk();
      if busPhase == Req {
        if isWrite {
          WriteRequest(x, addr, data);
        } else {
          ReadRequest(x);
        }
      } else if isWrite {
        WriteResponse(x, addr, data);
      } else {
        ReadResponse(x);
      }
    }

    lemma DirectionOk()
      requires BusOk() && !step.Start? && !step.WaitDps?
      ensures isWrite == !step.ReadC1?
    {
    }

    // the enable-registers write
    method EnableRegisters()
      requires BusOk() && RequestsOk() && step == Start
      modifies this`step, this`busPhase, this`isWrite, this`awV, this`wV, this`busAddr, this`busWdata
      ensures BusOk() && RequestsOk() && step == EnableReconfig
    {
      busAddr, busWdata, isWrite, awV, wV, busPhase, step := REG_ENABLE, 1, true, true, true, Req, EnableReconfig;
    }

    // the newest request becomes the one being carried out
    method TakeRequest()
      requires BusOk() && RequestsOk() && step == WaitDps && requestPending
      modifies this`step, this`busPhase, this`isWrite, this`arV, this`rR, this`busAddr, this`requestPending,
        this`pendingPhase
      ensures BusOk() && RequestsOk() && step == ReadC1 && !requestPending && newest == Some(pendingPhase)
    {
      requestPending, pendingPhase := false, requestPhase;
      busAddr, isWrite, busPhase, arV, rR, step := COUNTER1, false, Req, true, true, ReadC1;
    }

    // the process without its synchronisers: start, wait for a request, or go on with the bus
    method Advance(x: Inputs)
      requires BusOk() && RequestsOk() && Legal(x)
      modifies this`step, this`busPhase, this`isWrite, this`awV, this`wV, this`arV, this`bR, this`rR, this`busAddr,
        this`busWdata,
        this`doneToggle, this`aw, this`w, this`ar, this`counter1, this`enabled, this`requestPending, this`pendingPhase
      ensures BusOk() && RequestsOk() && Presents(x) && enabled == (old(enabled) || old(Enables(x)))
      ensures doneToggle == (old(doneToggle) != old(Completed(x)))
      ensures counter1 == if old(Completed(x)) then WithPhase(old(counter1), old(pendingPhase)) else old(counter1)
      ensures step == old(NextStep(x))
      ensures requestPending == (old(requestPending) && old(step) != WaitDps)
    {
      hide WithPhase, Phase, Legal;
      if step == Start {
        EnableRegisters();
      } else if step == WaitDps {
        if requestPending {
          TakeRequest();
        }
      } else {
        DirectionOk();
        WithPhaseIs(counter1, pendingPhase);
        Transact(x);
      }
    }

    // where the machine goes next, unless it is held
    ghost function NextStep(x: Inputs): Step
      reads this
    {
      match step
      case Start => EnableReconfig
      case WaitDps => if requestPending then ReadC1 else WaitDps
      case ReadC1 => if busPhase == Resp && x.rvalid then WriteC1 else ReadC1
      case EnableReconfig => if busPhase == Resp && x.bvalid then WaitDps else EnableReconfig
      case WriteC1 => if busPhase == Resp && x.bvalid then WaitDps else WriteC1
    }

    /** One clock. Without being held the newest request is never lost; the done line toggles exactly
        when a write of counter 1 completes. */
    method Clock(x: Inputs)
      requires Valid() && Legal(x) && sync.PhaseHeld(x)
      modifies this, sync
      ensures Valid()
      ensures old(sync.Edge()) ==> old(sync.Underway()) != []
      ensures newest == if old(Held(x)) then None
                        else if old(sync.Edge()) then Some(old(sync.Underway())[0]) else old(newest)
      ensures sync.Underway() == old(sync.UnderwayAfter(x))
      ensures doneToggle == (old(doneToggle) != old(Completed(x)))
      ensures counter1 == if old(Completed(x)) then WithPhase(old(counter1), old(pendingPhase)) else old(counter1)
      ensures step == if old(Held(x)) then Start else old(NextStep(x))
      ensures !old(Held(x)) ==> Presents(x)
      ensures enabled == (old(enabled) || old(Enables(x))) && (counter1 != old(counter1) ==> old(enabled))
    {
      hide WithPhase, Phase, Rest, Legal, BusOk, RequestsOk, NextStep, Presents, Rises, Moved, Aligned;
      WithPhaseIs(counter1, pendingPhase);
      if sync.Edge() {
        sync.EdgePhase();
      }
      Process(x, sync.Edge(), sync.shift1);
      sync.Clock(x);
    }

    // the process behind its synchronisers: edge and shift are what they show
    method Process(x: Inputs, edge: bool, shift: phase3)
      requires BusOk() && RequestsOk() && Legal(x)
      modifies this`step, this`busPhase, this`isWrite, this`awV, this`wV, this`arV, this`bR, this`rR, this`busAddr,
        this`busWdata, this`doneToggle, this`aw, this`w, this`ar, this`counter1, this`enabled, this`requestPending,
        this`requestPhase, this`pendingPhase, this`newest
      ensures BusOk() && RequestsOk()
      ensures newest == if Held(x) then None else if edge then Some(shift) else old(newest)
      ensures doneToggle == (old(doneToggle) != old(Completed(x)))
      ensures counter1 == if old(Completed(x)) then WithPhase(old(counter1), old(pendingPhase)) else old(counter1)
      ensures step == if Held(x) then Start else old(NextStep(x))
      ensures !Held(x) ==> Presents(x)
      ensures enabled == (old(enabled) || old(Enables(x))) && (counter1 != old(counter1) ==> old(enabled))
    {
      hide WithPhase, Legal, RequestsOk, NextStep, Presents, Writing, Reading, Quiet;
      Advance(x);
      if edge {
        NewRequest(shift);
      }
      if x.reset || !sync.lock1 {
        Hold();
      }
    }

    // after the start of an older request in the same clock, so that none is lost
    method NewRequest(shift: phase3)
      requires BusOk() && RequestsOk()
      modifies this`requestPending, this`requestPhase, this`newest
      ensures BusOk() && RequestsOk() && newest == Some(shift)
    {
      requestPending, requestPhase, newest := true, shift, Some(shift);
    }

    // everything back to the start, and nothing on the bus
    method Hold()
      modifies this`requestPending, this`newest, this`step, this`busPhase, this`awV, this`wV, this`arV, this`bR,
        this`rR, this`aw, this`w, this`ar
      ensures BusOk() && RequestsOk() && newest == None && step == Start
    {
      hide WithPhase, Phase;
      step, busPhase, requestPending := Start, Req, false;
      awV, wV, arV, bR, rR := false, false, false, false, false;
      aw, w, ar, newest := None, None, None, None;
    }
  }
}
