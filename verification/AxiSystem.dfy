/** The bridge between two masters and the memory core, over whole runs: each master sees a plain
    32-bit memory. */
module AxiSystem {
  import opened Bits
  import opened AxiBridge

  // ---- handshakes: valid and ready in the same clock ----

  datatype Cmd = Cmd(owner: Owner, write: bool, addr: u32)
  datatype WriteData = WriteData(owner: Owner, data: Word, strb: Strobes)
  datatype CoreBeat = CoreBeat(data: Beat, strb: BeatStrobes)
  datatype CoreRead = CoreRead(owner: Owner, data: Beat)

  // commands, write data, read data and write responses as the masters see them change hands
  function AcceptedOf(owner: Owner, m: Master, o: ToMaster): seq<Cmd> {
    (if m.awvalid && o.awready then [Cmd(owner, true, m.awaddr)] else []) +
    (if m.arvalid && o.arready then [Cmd(owner, false, m.araddr)] else [])
  }

  function Accepted(o: Outputs, x: Inputs): seq<Cmd> {
    AcceptedOf(Data, x.d, o.d) + AcceptedOf(Instr, x.i, o.i)
  }

  function SentOf(owner: Owner, m: Master, o: ToMaster): seq<WriteData> {
    if m.wvalid && o.wready then [WriteData(owner, m.wdata, m.wstrb)] else []
  }

  function Sent(o: Outputs, x: Inputs): seq<WriteData> {
    SentOf(Data, x.d, o.d) + SentOf(Instr, x.i, o.i)
  }

  function ReturnedTo(owner: Owner, m: Master, o: ToMaster): seq<(Owner, Word)> {
    if o.rvalid && m.rready then [(owner, o.rdata)] else []
  }

  function Returned(o: Outputs, x: Inputs): seq<(Owner, Word)> {
    ReturnedTo(Data, x.d, o.d) + ReturnedTo(Instr, x.i, o.i)
  }

  function AckedTo(owner: Owner, m: Master, o: ToMaster): seq<Owner> {
    if o.bvalid && m.bready then [owner] else []
  }

  function Acked(o: Outputs, x: Inputs): seq<Owner> {
    AckedTo(Data, x.d, o.d) + AckedTo(Instr, x.i, o.i)
  }

  // ---- the core ----

  /** The memory core: it takes commands and write beats in order, serves the commands in order,
      each write with the next beat, and answers in order. It decodes 64-bit beats, modulo the
      size of the memory. */
  datatype Core = Core(mem: seq<Beat>, queue: seq<Cmd>, beats: seq<CoreBeat>, answers: seq<CoreRead>, acks: seq<Owner>)

  // responses come from the front of the core's two response queues
  predicate FromCore(c: Core, n: Native) {
    && (n.bValid ==> |c.acks| > 0 && n.bOwner == c.acks[0])
    && (n.rValid ==> |c.answers| > 0 && n.rOwner == c.answers[0].owner && n.rData == c.answers[0].data)
  }

  function CoreClocked(c: Core, o: Outputs, x: Inputs): Core
    requires FromCore(c, x.core)
  {
    Core(c.mem,
         c.queue + if o.core.arwValid && x.core.arwReady
                   then [Cmd(o.core.arwOwner, o.core.arwWrite, o.core.arwAddr)] else [],
         c.beats + if o.core.wValid && x.core.wReady then [CoreBeat(o.core.wData, o.core.wStrb)] else [],
         if Popped(o, x) then c.answers[1..] else c.answers,
         if x.core.bValid && o.core.bReady then c.acks[1..] else c.acks)
  }

  function Merge(was: seq<byte>, data: seq<byte>, strb: seq<bool>): (r: seq<byte>)
    requires |was| == |data| == |strb|
    ensures |r| == |was|
    ensures forall k :: 0 <= k < |r| ==> r[k] == if strb[k] then data[k] else was[k]
  {
    seq(|was|, k requires 0 <= k < |was| => if strb[k] then data[k] else was[k])
  }

  predicate CanServe(c: Core) {
    |c.mem| > 0 && |c.queue| > 0 && (c.queue[0].write ==> |c.beats| > 0)
  }

  function CoreServed(c: Core): Core
    requires CanServe(c)
  {
    var cmd := c.queue[0];
    var at := cmd.addr / 8 % |c.mem|;
    if cmd.write then
      c.(mem := c.mem[at := Merge(c.mem[at], c.beats[0].data, c.beats[0].strb)],
         queue := c.queue[1..], beats := c.beats[1..], acks := c.acks + [cmd.owner])
    else
      c.(queue := c.queue[1..], answers := c.answers + [CoreRead(cmd.owner, c.mem[at])])
  }

  // ---- a plain 32-bit memory ----

  datatype Flat = Flat(words: seq<Word>, replies: seq<(Owner, Word)>, acks: seq<Owner>)

  function Writes(cmds: seq<Cmd>): (r: seq<Cmd>)
    ensures forall k :: 0 <= k < |r| ==> r[k].write
  {
    if |cmds| == 0 then []
    else
      var n := |cmds| - 1;
      Writes(cmds[..n]) + if cmds[n].write then [cmds[n]] else []
  }

  function Reads(cmds: seq<Cmd>): (r: seq<Cmd>)
    ensures forall k :: 0 <= k < |r| ==> !r[k].write
  {
    if |cmds| == 0 then []
    else
      var n := |cmds| - 1;
      Reads(cmds[..n]) + if cmds[n].write then [] else [cmds[n]]
  }

  /** A 32-bit memory with byte strobes that runs the commands one after the other, the k-th write
      with the k-th data: the reference for what the masters see. */
  function Play(words: seq<Word>, cmds: seq<Cmd>, data: seq<WriteData>): (f: Flat)
    requires |words| > 0 && |Writes(cmds)| <= |data|
    ensures |f.words| == |words| && |f.replies| == |Reads(cmds)| && |f.acks| == |Writes(cmds)|
  {
    if |cmds| == 0 then Flat(words, [], [])
    else
      var n := |cmds| - 1;
      var f, cmd, at := Play(words, cmds[..n], data), cmds[n], cmds[n].addr / 4 % |words|;
      if cmd.write then
        var d := data[|Writes(cmds[..n])|];
        f.(words := f.words[at := Merge(f.words[at], d.data, d.strb)], acks := f.acks + [cmd.owner])
      else f.(replies := f.replies + [(cmd.owner, f.words[at])])
  }

  // the memory's beats are the words, two by two
  ghost predicate SameMemory(mem: seq<Beat>, words: seq<Word>) {
    |words| == 2 * |mem| && forall k :: 0 <= k < |mem| ==>
      words[2 * k] == mem[k][..4] && words[2 * k + 1] == mem[k][4..]
  }

  // ---- the whole system ----

  /** served of the accepted commands have been run by the core; the rest of the history is what
      changed hands at the masters' ports. */
  datatype System = System(bridge: Bridge, core: Core, served: nat,
                           cmds: seq<Cmd>, data: seq<WriteData>, returned: seq<(Owner, Word)>, acked: seq<Owner>)

  /** One clock with any inputs that the core's response queues allow, or the core running a
      command between clocks. */
  datatype Step = Clock(x: Inputs, idle: bool, last: (Owner, bool)) | Serve

  predicate Enabled(s: System, step: Step) {
    match step
    case Clock(x, _, _) => FromCore(s.core, x.core)
    case Serve => CanServe(s.core)
  }

  function Next(s: System, step: Step): System
    requires Enabled(s, step)
  {
    match step
    case Clock(x, idle, last) =>
      var o := Driven(s.bridge, idle, last, x);
      System(Latched(s.bridge, o, x), CoreClocked(s.core, o, x), s.served,
             s.cmds + Accepted(o, x), s.data + Sent(o, x), s.returned + Returned(o, x), s.acked + Acked(o, x))
    case Serve => s.(core := CoreServed(s.core), served := s.served + 1)
  }

  // ---- the clock as four handshakes ----

  // 32 bits in their half of a beat, with the other half strobed off
  function BeatOf(d: WriteData, high: bool): CoreBeat {
    CoreBeat(Widen(d.data, high), WidenStrobes(d.strb, high))
  }

  function Accept(s: System, cmd: Cmd): System {
    s.(bridge := if cmd.write then s.bridge.(pending := Some(cmd.owner, High(cmd.addr)))
                 else s.bridge.(halves := s.bridge.halves + [High(cmd.addr)]),
       core := s.core.(queue := s.core.queue + [cmd]), cmds := s.cmds + [cmd])
  }

  function Send(s: System, d: WriteData): System
    requires s.bridge.pending.Some?
  {
    var high := s.bridge.pending.high;
    s.(bridge := s.bridge.(pending := None),
       core := s.core.(beats := s.core.beats + [BeatOf(d, high)]),
       data := s.data + [d])
  }

  function Return(s: System): System
    requires |s.core.answers| > 0 && |s.bridge.halves| > 0
  {
    var a := s.core.answers[0];
    s.(bridge := s.bridge.(halves := s.bridge.halves[1..]), core := s.core.(answers := s.core.answers[1..]),
       returned := s.returned + [(a.owner, Half(a.data, s.bridge.halves[0]))])
  }

  function Ack(s: System): System
    requires |s.core.acks| > 0
  {
    s.(core := s.core.(acks := s.core.acks[1..]), acked := s.acked + [s.core.acks[0]])
  }

  predicate Accepts(o: Outputs, x: Inputs) {
    o.core.arwValid && x.core.arwReady
  }

  predicate Sends(o: Outputs, x: Inputs) {
    o.core.wValid && x.core.wReady
  }

  // the command the bridge presents to the core
  function Presented(o: Outputs): Cmd {
    Cmd(o.core.arwOwner, o.core.arwWrite, o.core.arwAddr)
  }

  // the data of the master whose write is pending
  function Offered(b: Bridge, x: Inputs): WriteData
    requires b.pending.Some?
  {
    var m := if b.pending.owner == Data then x.d else x.i;
    WriteData(b.pending.owner, m.wdata, m.wstrb)
  }

  /** Whatever the inputs, at most one command changes hands in a clock, and it is the one the core
      takes: no master is told its command was accepted when another's was. */
  lemma OneCommand(b: Bridge, idle: bool, last: (Owner, bool), x: Inputs)
    ensures var o := Driven(b, idle, last, x);
      && Accepted(o, x) == (if Accepts(o, x) then [Presented(o)] else [])
      && (Accepts(o, x) ==> if Presented(o).write then b.pending == None else |b.halves| != DEPTH)
  {
  }

  /** Write data is only taken from the master whose write is pending. */
  lemma OneBeat(b: Bridge, idle: bool, last: (Owner, bool), x: Inputs)
    ensures var o := Driven(b, idle, last, x);
      && (Sends(o, x) ==> b.pending.Some? && Sent(o, x) == [Offered(b, x)])
      && (!Sends(o, x) ==> Sent(o, x) == [])
      && (Sends(o, x) ==> CoreBeat(o.core.wData, o.core.wStrb) == BeatOf(Offered(b, x), b.pending.high))
  {
  }

  lemma OneAnswer(b: Bridge, idle: bool, last: (Owner, bool), x: Inputs, c: Core)
    requires FromCore(c, x.core)
    ensures var o := Driven(b, idle, last, x);
      && (Popped(o, x) ==> |c.answers| > 0)
      && (Popped(o, x) && |b.halves| > 0 ==>
            Returned(o, x) == [(c.answers[0].owner, Half(c.answers[0].data, b.halves[0]))])
      && (!Popped(o, x) ==> Returned(o, x) == [])
      && (x.core.bValid && o.core.bReady ==> |c.acks| > 0 && Acked(o, x) == [c.acks[0]])
      && (!(x.core.bValid && o.core.bReady) ==> Acked(o, x) == [])
  {
  }

  function IfAccept(s: System, go: bool, cmd: Cmd): System {
    if go then Accept(s, cmd) else s
  }

  function IfSend(s: System, go: bool, d: WriteData): System
    requires go ==> s.bridge.pending.Some?
  {
    if go then Send(s, d) else s
  }

  function IfReturn(s: System, go: bool): System
    requires go ==> |s.core.answers| > 0 && |s.bridge.halves| > 0
  {
    if go then Return(s) else s
  }

  function IfAck(s: System, go: bool): System
    requires go ==> |s.core.acks| > 0
  {
    if go then Ack(s) else s
  }

  predicate AckTaken(o: Outputs, x: Inputs) {
    x.core.bValid && o.core.bReady
  }

  // Reads that have been answered but not returned are still in the ring.
  predicate RingAhead(s: System) {
    |s.core.answers| > 0 ==> |s.bridge.halves| > 0
  }

  /** A clock is its four handshakes, one after the other. */
  lemma ClockIsHandshakes(s: System, x: Inputs, idle: bool, last: (Owner, bool), o: Outputs)
    requires FromCore(s.core, x.core) && RingAhead(s) && o == Driven(s.bridge, idle, last, x)
    ensures (Sends(o, x) ==> s.bridge.pending.Some?)
    ensures (Popped(o, x) ==> |s.core.answers| > 0) && (AckTaken(o, x) ==> |s.core.acks| > 0)
    ensures Accepts(o, x) ==> if Presented(o).write then s.bridge.pending == None else |s.bridge.halves| != DEPTH
    ensures var s1 := IfSend(s, Sends(o, x), if Sends(o, x) then Offered(s.bridge, x) else WriteData(Data, ZERO, OFF));
      Next(s, Clock(x, idle, last)) ==
        IfAck(IfReturn(IfAccept(s1, Accepts(o, x), Presented(o)), Popped(o, x)), AckTaken(o, x))
  {
    hide Driven, Accepted, Sent, Returned, Acked, Half, High, BeatOf;
    OneBeat(s.bridge, idle, last, x);
    OneAnswer(s.bridge, idle, last, x, s.core);
    OneCommand(s.bridge, idle, last, x);
    var d := if Sends(o, x) then Offered(s.bridge, x) else WriteData(Data, ZERO, OFF);
    var t := IfAck(IfReturn(IfAccept(IfSend(s, Sends(o, x), d), Accepts(o, x), Presented(o)), Popped(o, x)),
      AckTaken(o, x));
    BridgeOfHandshakes(s, x, idle, last, o, d);
    CoreOfHandshakes(s, x, idle, last, o, d);
    assert t.cmds == s.cmds + Accepted(o, x) && t.data == s.data + Sent(o, x);
    assert t.returned == s.returned + Returned(o, x) && t.acked == s.acked + Acked(o, x);
  }

  lemma OwnerOfWrite(b: Bridge, idle: bool, last: (Owner, bool), x: Inputs)
    ensures var o := Driven(b, idle, last, x); o.core.arwWrite ==> o.core.arwValid
  {
  }

  lemma BridgeOfHandshakes(s: System, x: Inputs, idle: bool, last: (Owner, bool), o: Outputs, d: WriteData)
    requires FromCore(s.core, x.core) && RingAhead(s) && o == Driven(s.bridge, idle, last, x)
    requires Sends(o, x) ==> s.bridge.pending.Some?
    requires Popped(o, x) ==> |s.core.answers| > 0
    requires Accepts(o, x) ==> if Presented(o).write then s.bridge.pending == None else |s.bridge.halves| != DEPTH
    ensures IfReturn(IfAccept(IfSend(s, Sends(o, x), d), Accepts(o, x), Presented(o)), Popped(o, x)).bridge ==
      Latched(s.bridge, o, x)
  {
    hide Driven, Half, High, BeatOf;
    OwnerOfWrite(s.bridge, idle, last, x);
  }

  lemma CoreOfHandshakes(s: System, x: Inputs, idle: bool, last: (Owner, bool), o: Outputs, d: WriteData)
    requires FromCore(s.core, x.core) && RingAhead(s) && o == Driven(s.bridge, idle, last, x)
    requires Sends(o, x) ==>
      s.bridge.pending.Some? && CoreBeat(o.core.wData, o.core.wStrb) == BeatOf(d, s.bridge.pending.high)
    requires (Popped(o, x) ==> |s.core.answers| > 0) && (AckTaken(o, x) ==> |s.core.acks| > 0)
    ensures var t := IfReturn(IfAccept(IfSend(s, Sends(o, x), d), Accepts(o, x), Presented(o)), Popped(o, x));
      IfAck(t, AckTaken(o, x)).core == CoreClocked(s.core, o, x)
  {
    hide Driven, Half, High, BeatOf;
  }

  // ---- the invariant ----

  ghost predicate WriteSide(s: System)
    requires s.served <= |s.cmds|
  {
    var ws, c, n := Writes(s.cmds), |Writes(s.cmds[..s.served])|, |s.data|;
    && |ws| == n + (if s.bridge.pending.Some? then 1 else 0)
    && (s.bridge.pending.Some? ==> s.bridge.pending == Some(ws[n].owner, High(ws[n].addr)))
    && (forall k :: 0 <= k < n ==> s.data[k].owner == ws[k].owner)
    && c + |s.core.beats| == n
    && (forall j :: 0 <= j < |s.core.beats| ==> s.core.beats[j] == BeatOf(s.data[c + j], High(ws[c + j].addr)))
  }

  ghost predicate ReadSide(s: System, f: Flat) {
    var rs, n := Reads(s.cmds), |s.returned|;
    && n + |s.core.answers| == |f.replies| <= |rs| && s.returned == f.replies[..n]
    && (forall j :: 0 <= j < |s.core.answers| ==>
          f.replies[n + j] == (s.core.answers[j].owner, Half(s.core.answers[j].data, High(rs[n + j].addr))))
    && |s.bridge.halves| == |rs| - n <= DEPTH
    && (forall k :: 0 <= k < |rs| - n ==> s.bridge.halves[k] == High(rs[n + k].addr))
  }

  ghost function Reference(s: System, words: seq<Word>): Flat
    requires s.served <= |s.cmds| && |words| > 0 && |Writes(s.cmds[..s.served])| <= |s.data|
  {
    Play(words, s.cmds[..s.served], s.data)
  }

  ghost predicate Inv(s: System, words: seq<Word>) {
    && |words| == 2 * |s.core.mem| > 0
    && s.served <= |s.cmds| && s.core.queue == s.cmds[s.served..]
    && WriteSide(s)
    && var f := Reference(s, words);
       ReadSide(s, f) && f.acks == s.acked + s.core.acks && SameMemory(s.core.mem, f.words)
  }

  lemma {:induction false} FilterPrefix(cmds: seq<Cmd>, n: nat)
    requires n <= |cmds|
    ensures Writes(cmds[..n]) <= Writes(cmds) && Reads(cmds[..n]) <= Reads(cmds)
  {
    if n < |cmds| {
      var m := |cmds| - 1;
      FilterPrefix(cmds[..m], n);
      assert cmds[..m][..n] == cmds[..n];
    } else {
      assert cmds[..n] == cmds;
    }
  }

  lemma FilterSnoc(cmds: seq<Cmd>, c: Cmd)
    ensures Writes(cmds + [c]) == Writes(cmds) + if c.write then [c] else []
    ensures Reads(cmds + [c]) == Reads(cmds) + if c.write then [] else [c]
  {
    assert (cmds + [c])[..|cmds|] == cmds;
  }

  // The reference only looks at data of the commands it runs.
  lemma {:induction false} PlayMoreData(words: seq<Word>, cmds: seq<Cmd>, data: seq<WriteData>, d: WriteData)
    requires |words| > 0 && |Writes(cmds)| <= |data|
    ensures Play(words, cmds, data + [d]) == Play(words, cmds, data)
  {
    if |cmds| > 0 {
      PlayMoreData(words, cmds[..|cmds| - 1], data, d);
    }
  }

  lemma AcceptKeeps(s: System, words: seq<Word>, cmd: Cmd)
    requires Inv(s, words) && if cmd.write then s.bridge.pending == None else |s.bridge.halves| < DEPTH
    ensures Inv(Accept(s, cmd), words)
  {
    hide Play, Writes, Reads, SameMemory;
    FilterSnoc(s.cmds, cmd);
    assert (s.cmds + [cmd])[..s.served] == s.cmds[..s.served];
  }

  lemma SendKeeps(s: System, words: seq<Word>, d: WriteData)
    requires Inv(s, words) && s.bridge.pending.Some? && d.owner == s.bridge.pending.owner
    ensures Inv(Send(s, d), words)
  {
    hide Play, Writes, Reads, SameMemory, BeatOf;
    PlayMoreData(words, s.cmds[..s.served], s.data, d);
  }

  lemma ReturnKeeps(s: System, words: seq<Word>)
    requires Inv(s, words) && |s.core.answers| > 0
    ensures |s.bridge.halves| > 0 && Inv(Return(s), words)
  {
    hide Play, Writes, Reads, SameMemory, BeatOf, Half;
    var f, n, t := Reference(s, words), |s.returned|, Return(s);
    assert t.returned == f.replies[..n + 1];
  }

  lemma AckKeeps(s: System, words: seq<Word>)
    requires Inv(s, words) && |s.core.acks| > 0
    ensures Inv(Ack(s), words)
  {
    hide Play, Writes, Reads, SameMemory, BeatOf;
    assert s.acked + s.core.acks == Ack(s).acked + Ack(s).core.acks;
  }

  // ---- the core serving a command ----

  lemma AtLeast(k: int, n: nat)
    requires k >= 1
    ensures k * n >= n
  {
    assert (k - 1) * n >= 0;
  }

  lemma UniqueDivision(n: nat, p: nat, s: nat, q: nat, r: nat)
    requires p * n + s == q * n + r && s < n && r < n
    ensures s == r
  {
    assert (p - q) * n == r - s;
    if p > q {
      AtLeast(p - q, n);
    } else if p < q {
      AtLeast(q - p, n);
    }
  }

  lemma DivMod(a: nat, n: nat)
    requires n > 0
    ensures a / n >= 0 && a == (a / n) * n + a % n
  {
  }

  lemma DoubledDivision(w: nat, e: nat, r: nat, n: nat, q: nat, b: nat, p: nat, t: nat)
    requires w == 2 * e + r && r < 2 && e == q * n + b && b < n && w == p * (2 * n) + t && t < 2 * n
    ensures t == 2 * b + r
  {
    Doubling(q, n);
    UniqueDivision(2 * n, p, t, q, 2 * b + r);
  }

  // The word index and the beat index agree.
  lemma WordInBeat(addr: u32, n: nat)
    requires n > 0
    ensures addr / 4 % (2 * n) == 2 * (addr / 8 % n) + if High(addr) then 1 else 0
  {
    hide High;
    Halving(addr);
    var w: nat, e: nat, r := addr / 4, addr / 8, if High(addr) then 1 else 0;
    DivMod(e, n);
    DivMod(w, 2 * n);
    DoubledDivision(w, e, r, n, e / n, e % n, w / (2 * n), w % (2 * n));
  }

  lemma Halving(addr: u32)
    ensures addr / 4 == 2 * (addr / 8) + if High(addr) then 1 else 0
  {
  }

  lemma Doubling(q: nat, n: nat)
    ensures q * (2 * n) == 2 * (q * n)
  {
  }

  lemma MergeHalves(was: Beat, d: WriteData, high: bool)
    ensures var b: Beat := Merge(was, BeatOf(d, high).data, BeatOf(d, high).strb);
      b == if high then was[..4] + Merge(was[4..], d.data, d.strb) else Merge(was[..4], d.data, d.strb) + was[4..]
  {
  }

  // One write, in the beats and in the words.
  lemma StoreAgrees(mem: seq<Beat>, words: seq<Word>, addr: u32, d: WriteData)
    requires |mem| > 0 && SameMemory(mem, words)
    ensures var at, to, b := addr / 8 % |mem|, addr / 4 % |words|, BeatOf(d, High(addr));
      SameMemory(mem[at := Merge(mem[at], b.data, b.strb)], words[to := Merge(words[to], d.data, d.strb)])
  {
    hide High, Merge, BeatOf;
    WordInBeat(addr, |mem|);
    MergeHalves(mem[addr / 8 % |mem|], d, High(addr));
  }

  lemma LoadAgrees(mem: seq<Beat>, words: seq<Word>, addr: u32)
    requires |mem| > 0 && SameMemory(mem, words)
    ensures Half(mem[addr / 8 % |mem|], High(addr)) == words[addr / 4 % |words|]
  {
    hide High;
    WordInBeat(addr, |mem|);
  }

  lemma PlaySnoc(words: seq<Word>, cmds: seq<Cmd>, data: seq<WriteData>, cmd: Cmd)
    requires |words| > 0 && |Writes(cmds + [cmd])| <= |data| && |Writes(cmds)| <= |data|
    requires cmd.write ==> |Writes(cmds)| < |data|
    ensures var f, g := Play(words, cmds, data), Play(words, cmds + [cmd], data);
      var at := cmd.addr / 4 % |words|;
      if cmd.write then
        var d := data[|Writes(cmds)|];
        g == f.(words := f.words[at := Merge(f.words[at], d.data, d.strb)], acks := f.acks + [cmd.owner])
      else g == f.(replies := f.replies + [(cmd.owner, f.words[at])])
  {
    hide Merge;
    assert (cmds + [cmd])[..|cmds|] == cmds;
  }

  lemma ServeKeeps(s: System, words: seq<Word>)
    requires Inv(s, words) && CanServe(s.core)
    ensures Inv(Next(s, Serve), words)
  {
    hide Play, Writes, Reads, BeatOf, Half, High, Merge, SameMemory;
    var n, cmd, f := s.served, s.cmds[s.served], Reference(s, words);
    assert s.cmds[..n + 1] == s.cmds[..n] + [cmd];
    FilterSnoc(s.cmds[..n], cmd);
    FilterPrefix(s.cmds, n + 1);
    PlaySnoc(words, s.cmds[..n], s.data, cmd);
    if cmd.write {
      StoreAgrees(s.core.mem, f.words, cmd.addr, s.data[|Writes(s.cmds[..n])|]);
    } else {
      LoadAgrees(s.core.mem, f.words, cmd.addr);
    }
  }

  // ---- whole runs ----

  ghost predicate Initial(s: System) {
    && s.bridge == RESET && |s.core.mem| > 0 && s.core == Core(s.core.mem, [], [], [], [])
    && s == System(s.bridge, s.core, 0, [], [], [], [])
  }

  ghost predicate IsRun(run: seq<System>, steps: seq<Step>) {
    && |run| == |steps| + 1 && Initial(run[0])
    && forall i :: 0 <= i < |steps| ==> Enabled(run[i], steps[i]) && run[i + 1] == Next(run[i], steps[i])
  }

  function WordsOf(mem: seq<Beat>): seq<Word> {
    seq(2 * |mem|, k requires 0 <= k < 2 * |mem| => Half(mem[k / 2], k % 2 == 1))
  }

  lemma InitialInv(s: System)
    requires Initial(s)
    ensures Inv(s, WordsOf(s.core.mem))
  {
  }

  lemma ClockKeeps(s: System, words: seq<Word>, x: Inputs, idle: bool, last: (Owner, bool))
    requires Inv(s, words) && FromCore(s.core, x.core)
    ensures Inv(Next(s, Clock(x, idle, last)), words)
  {
    hide Inv, Driven, Latched, CoreClocked, Accepted, Sent, Returned, Acked, Next;
    InvRing(s, words);
    var o := Driven(s.bridge, idle, last, x);
    ClockIsHandshakes(s, x, idle, last, o);
    var d := if Sends(o, x) then Offered(s.bridge, x) else WriteData(Data, ZERO, OFF);
    if Sends(o, x) { SendKeeps(s, words, d); }
    var s1 := IfSend(s, Sends(o, x), d);
    if Accepts(o, x) { AcceptKeeps(s1, words, Presented(o)); }
    var s2 := IfAccept(s1, Accepts(o, x), Presented(o));
    if Popped(o, x) { ReturnKeeps(s2, words); }
    var s3 := IfReturn(s2, Popped(o, x));
    if AckTaken(o, x) { AckKeeps(s3, words); }
  }

  lemma InvRing(s: System, words: seq<Word>)
    requires Inv(s, words)
    ensures RingAhead(s) && |s.bridge.halves| <= DEPTH
  {
    hide Play;
  }

  lemma {:induction false} RunKeepsInv(run: seq<System>, steps: seq<Step>, n: nat)
    requires IsRun(run, steps) && n < |run|
    ensures Inv(run[n], WordsOf(run[0].core.mem))
  {
    hide Inv, Next;
    var words := WordsOf(run[0].core.mem);
    if n == 0 {
      InitialInv(run[0]);
    } else {
      RunKeepsInv(run, steps, n - 1);
      match steps[n - 1] {
        case Clock(x, idle, last) => ClockKeeps(run[n - 1], words, x, idle, last);
        case Serve => ServeKeeps(run[n - 1], words);
      }
    }
  }

  /** In every state of every run: the data returned so far are, in order and owner by owner, the
      answers of a plain 32-bit memory that ran the accepted commands one after the other; the
      k-th write data came from the master of the k-th accepted write; the memory behind the core
      is that plain memory; and the ring has neither overflowed nor can run empty under a
      response. */
  lemma MastersSeePlainMemory(run: seq<System>, steps: seq<Step>, n: nat)
    requires IsRun(run, steps) && n < |run|
    ensures var s, words := run[n], WordsOf(run[0].core.mem);
      && s.served <= |s.cmds| && |words| > 0 && |Writes(s.cmds[..s.served])| <= |s.data| <= |Writes(s.cmds)|
      && s.returned <= Reference(s, words).replies && s.acked <= Reference(s, words).acks
      && (forall k :: 0 <= k < |s.returned| ==> k < |Reads(s.cmds)| && s.returned[k].0 == Reads(s.cmds)[k].owner)
      && (forall k :: 0 <= k < |s.data| ==> s.data[k].owner == Writes(s.cmds)[k].owner)
      && SameMemory(s.core.mem, Reference(s, words).words)
      && RingAhead(s) && |s.bridge.halves| <= DEPTH
      && (s.core.queue == [] && s.core.answers == [] ==>
            s.served == |s.cmds| && s.returned == Reference(s, words).replies)
  {
    hide Play, Writes, Reads, SameMemory, WordsOf, BeatOf, Half, High;
    var s, words := run[n], WordsOf(run[0].core.mem);
    RunKeepsInv(run, steps, n);
    var f := Reference(s, words);
    ReplyOwners(words, s.cmds[..s.served], s.data);
    FilterPrefix(s.cmds, s.served);
    assert f.replies[..|s.returned|] <= f.replies;
    if s.core.queue == [] {
      assert s.cmds[..s.served] == s.cmds;
    }
  }

  lemma {:induction false} ReplyOwners(words: seq<Word>, cmds: seq<Cmd>, data: seq<WriteData>)
    requires |words| > 0 && |Writes(cmds)| <= |data|
    ensures forall k :: 0 <= k < |Reads(cmds)| ==> Play(words, cmds, data).replies[k].0 == Reads(cmds)[k].owner
  {
    if |cmds| > 0 {
      ReplyOwners(words, cmds[..|cmds| - 1], data);
    }
  }

  // ---- nothing gets stuck ----

  lemma {:induction false} WritesAndReads(cmds: seq<Cmd>)
    ensures |Writes(cmds)| + |Reads(cmds)| == |cmds|
  {
    if |cmds| > 0 { WritesAndReads(cmds[..|cmds| - 1]); }
  }

  // every accepted command has been sent its data, served and answered
  predicate Finished(s: System) {
    s.served == |s.cmds| && s.bridge.pending.None? && s.core.answers == [] && s.core.acks == []
  }

  // what is done of the accepted commands
  function Work(s: System): nat {
    |s.data| + s.served + |s.returned| + |s.acked|
  }

  lemma WorkIsBounded(s: System, words: seq<Word>)
    requires Inv(s, words)
    ensures Work(s) <= 4 * |s.cmds|
  {
    hide Play, SameMemory, BeatOf, Half, High;
    WritesAndReads(s.cmds);
    FilterPrefix(s.cmds, s.served);
  }

  // a master that asks for nothing, may offer write data and takes every response
  function Calm(offers: bool): Master {
    Master(false, 0, offers, ZERO, OFF, false, 0, true, true)
  }

  function CalmInputs(offers: bool, core: Native): Inputs {
    Inputs(Calm(offers), Calm(offers), core)
  }

  function NoData(): Beat {
    ZERO + ZERO
  }

  // the core takes write data and answers nothing
  function Taking(): Native {
    Native(true, true, false, Data, false, Data, NoData())
  }

  function Acking(owner: Owner): Native {
    Native(true, false, true, owner, false, Data, NoData())
  }

  function Answering(r: CoreRead): Native {
    Native(true, false, false, Data, true, r.owner, r.data)
  }

  /** As long as something is unfinished, some step is possible that gets on with it, without any new request:
      the core serves a command, or a clock passes data or a response on. */
  lemma NeverStuck(s: System, words: seq<Word>) returns (step: Step)
    requires Inv(s, words) && !Finished(s)
    ensures Enabled(s, step) && Inv(Next(s, step), words)
    ensures Next(s, step).cmds == s.cmds && Work(Next(s, step)) > Work(s)
  {
    hide Inv, Half, BeatOf, Driven, Finished;
    InvRing(s, words);
    if |s.core.acks| > 0 {
      step := Clock(CalmInputs(false, Acking(s.core.acks[0])), false, (Data, false));
      CalmClock(s, words, false, Acking(s.core.acks[0]));
    } else if |s.core.answers| > 0 {
      step := Clock(CalmInputs(false, Answering(s.core.answers[0])), false, (Data, false));
      CalmClock(s, words, false, Answering(s.core.answers[0]));
    } else if CanServe(s.core) {
      step := Serve;
      ServeKeeps(s, words);
    } else {
      DataIsMissing(s, words);
      step := Clock(CalmInputs(true, Taking()), false, (Data, false));
      CalmClock(s, words, true, Taking());
    }
  }

  // a clock without requests: a beat is sent, a response returned, or both
  lemma CalmClock(s: System, words: seq<Word>, offers: bool, core: Native)
    requires Inv(s, words) && FromCore(s.core, core)
    ensures var t := Next(s, Clock(CalmInputs(offers, core), false, (Data, false)));
      && Inv(t, words) && t.cmds == s.cmds
      && Work(t) == Work(s) + (if offers && core.wReady && s.bridge.pending.Some? then 1 else 0)
                    + (if core.rValid then 1 else 0) + (if core.bValid then 1 else 0)
  {
    hide Inv, Half, BeatOf, High, Driven;
    var x := CalmInputs(offers, core);
    var o := Driven(s.bridge, false, (Data, false), x);
    ClockKeeps(s, words, x, false, (Data, false));
    InvRing(s, words);
    CalmPorts(s.bridge, offers, core);
  }

  lemma CalmPorts(b: Bridge, offers: bool, core: Native)
    requires |b.halves| <= DEPTH
    ensures var x := CalmInputs(offers, core); var o := Driven(b, false, (Data, false), x);
      && Accepted(o, x) == [] && |Sent(o, x)| == (if offers && core.wReady && b.pending.Some? then 1 else 0)
      && |Returned(o, x)| == (if core.rValid then 1 else 0) && |Acked(o, x)| == (if core.bValid then 1 else 0)
  {
    hide Driven, Half;
    CommandPorts(b, false, (Data, false), CalmInputs(offers, core));
    DataPorts(b, false, (Data, false), CalmInputs(offers, core));
    if b.pending.Some? {
      assert b.pending.owner == Data || b.pending.owner == Instr;
    }
  }

  // What the core cannot serve is a write whose data has not been sent.
  lemma DataIsMissing(s: System, words: seq<Word>)
    requires Inv(s, words) && !Finished(s) && !CanServe(s.core) && s.core.acks == [] && s.core.answers == []
    ensures s.bridge.pending.Some?
  {
    hide Play, SameMemory, BeatOf, Half, High, Reads;
    if s.served == |s.cmds| {
      assert s.cmds[..s.served] == s.cmds;
    } else {
      var n := s.served;
      assert s.cmds[..n + 1] == s.cmds[..n] + [s.cmds[n]];
      FilterSnoc(s.cmds[..n], s.cmds[n]);
      FilterPrefix(s.cmds, n + 1);
    }
  }

  ghost predicate Leads(s: System, steps: seq<Step>, t: System)
    decreases |steps|
  {
    if |steps| == 0 then t == s
    else Enabled(s, steps[0]) && Leads(Next(s, steps[0]), steps[1..], t)
  }

  /** From every state, and so from every state of every run, all accepted commands can be finished. */
  lemma {:induction false} CanFinish(s: System, words: seq<Word>) returns (steps: seq<Step>, t: System)
    requires Inv(s, words)
    ensures Leads(s, steps, t) && Finished(t) && t.cmds == s.cmds && Inv(t, words)
    decreases 4 * |s.cmds| - Work(s)
  {
    hide Inv, Next, Enabled, Finished, Work;
    if Finished(s) {
      steps, t := [], s;
    } else {
      var step := NeverStuck(s, words);
      WorkIsBounded(s, words);
      WorkIsBounded(Next(s, step), words);
      var rest;
      rest, t := CanFinish(Next(s, step), words);
      steps := [step] + rest;
      assert steps[1..] == rest;
    }
  }

  lemma RunsCanFinish(run: seq<System>, steps: seq<Step>, n: nat) returns (more: seq<Step>, t: System)
    requires IsRun(run, steps) && n < |run|
    ensures Leads(run[n], more, t) && Finished(t) && t.cmds == run[n].cmds
    ensures var words := WordsOf(run[0].core.mem);
      && |words| > 0 && |Writes(t.cmds)| <= |t.data|
      && t.returned == Play(words, t.cmds, t.data).replies && t.acked == Play(words, t.cmds, t.data).acks
  {
    hide Inv, Finished, Leads, Play, WordsOf;
    RunKeepsInv(run, steps, n);
    more, t := CanFinish(run[n], WordsOf(run[0].core.mem));
    AllAnswered(t, WordsOf(run[0].core.mem));
  }

  lemma AllAnswered(t: System, words: seq<Word>)
    requires Inv(t, words) && Finished(t)
    ensures |words| > 0 && |Writes(t.cmds)| <= |t.data|
    ensures t.returned == Play(words, t.cmds, t.data).replies && t.acked == Play(words, t.cmds, t.data).acks
  {
    hide Play, SameMemory, BeatOf, Half, High;
    assert t.cmds[..t.served] == t.cmds;
    assert t.acked + [] == t.acked;
  }
}
