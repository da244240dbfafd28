/** serial_protocol_generic_pkg.vhd and communications.vhd: the byte-serial register protocol, with
    16-bit addresses and 32-bit data, and the host's end of it in test_uart.py. */
module SerialProtocol {
  import opened Bits

  type u16 = n: int | 0 <= n < 0x1_0000
  type Buffer = b: seq<byte> | |b| == 8 witness [0, 0, 0, 0, 0, 0, 0, 0]
  type index = n: int | 0 <= n < 8

  const READ: byte := 2
  const WRITE: byte := 4
  const TIMEOUT: nat := 65535

  datatype Option<T> = None | Some(value: T)

  // ---- big-endian fields ----

  function BigEndian(n: nat, k: nat): (r: seq<byte>)
    ensures |r| == k
  {
    if k == 0 then [] else BigEndian(n / 0x100, k - 1) + [n % 0x100]
  }

  function FromBigEndian(s: seq<byte>): nat {
    if |s| == 0 then 0 else FromBigEndian(s[..|s| - 1]) * 0x100 + s[|s| - 1]
  }

  lemma {:induction false} BigEndianRoundTrip(n: nat, k: nat)
    requires n < Pow256(k)
    ensures FromBigEndian(BigEndian(n, k)) == n
  {
    if k > 0 {
      BigEndianRoundTrip(n / 0x100, k - 1);
      assert BigEndian(n, k)[..k - 1] == BigEndian(n / 0x100, k - 1);
    }
  }

  // The lower field is a suffix.
  lemma {:induction false} BigEndianSplit(n: nat, m: nat, k: nat, j: nat)
    requires m < Pow256(j)
    ensures BigEndian(n * Pow256(j) + m, k + j) == BigEndian(n, k) + BigEndian(m, j)
  {
    if j == 0 {
      assert BigEndian(n, k) + [] == BigEndian(n, k);
    } else {
      var p := Pow256(j - 1);
      BigEndianSplit(n, m / 0x100, k, j - 1);
      assert n * Pow256(j) == 0x100 * (n * p);
      assert (n * Pow256(j) + m) / 0x100 == n * p + m / 0x100;
      assert BigEndian(n, k) + (BigEndian(m / 0x100, j - 1) + [m % 0x100]) ==
        (BigEndian(n, k) + BigEndian(m / 0x100, j - 1)) + [m % 0x100];
    }
  }

  lemma Powers()
    ensures Pow256(2) == 0x1_0000 && Pow256(4) == 0x1_0000_0000
  {
    assert Pow256(2) == 0x1_0000;
  }

  // address and data as one 48-bit number
  function WriteDataToRegister(address: u16, data: u32): (r: seq<byte>)
    ensures |r| == 6
  {
    BigEndian(address * 0x1_0000_0000 + data, 6)
  }

  lemma RegisterFields(address: u16, data: u32)
    ensures WriteDataToRegister(address, data) == BigEndian(address, 2) + BigEndian(data, 4)
  {
    Powers();
    BigEndianSplit(address, data, 2, 4);
  }

  // ---- frames ----

  datatype Frame = Read(address: u16) | Write(address: u16, data: u32)

  // the frames the host sends
  function Encode(f: Frame): (r: seq<byte>)
    ensures |r| == if f.Read? then 3 else 7
  {
    match f
    case Read(address) => [READ] + BigEndian(address, 2)
    case Write(address, data) => [WRITE] + BigEndian(address, 2) + BigEndian(data, 4)
  }

  // ---- the receiver ----

  // a clock without and with a received byte
  datatype Input = Idle | Byte(b: byte)

  datatype Rx = Rx(buffer: Buffer, address: index, remaining: index, ready: bool, timeout: nat)

  function HeaderCount(b: byte): index {
    if b == READ then 2 else if b == WRITE then 6 else if b == 5 || b == 6 then 5 else b % 8
  }

  // one clock of the receive half of create_serial_protocol
  function Step(rx: Rx, x: Input): Rx {
    match x
    case Idle =>
      var reset := rx.timeout == 1;
      rx.(ready := false, timeout := if rx.timeout > 0 then rx.timeout - 1 else 0,
          remaining := if reset then 0 else rx.remaining, address := if reset then 0 else rx.address)
    case Byte(b) =>
      var last := rx.remaining == 1;
      Rx(rx.buffer[rx.address := b], if last then 0 else (rx.address + 1) % 8,
         if rx.remaining > 0 then rx.remaining - 1 else HeaderCount(b), last, if last then 0 else TIMEOUT)
  }

  // get_command, get_command_address and get_command_data
  function Command(buffer: Buffer): byte {
    buffer[0]
  }

  function CommandAddress(buffer: Buffer): u16 {
    (buffer[1] as int) * 0x100 + buffer[2]
  }

  function CommandData(buffer: Buffer): u32 {
    (buffer[3] as int) * 0x100_0000 + (buffer[4] as int) * 0x1_0000 + (buffer[5] as int) * 0x100 + buffer[6]
  }

  // the frame in the buffer, for the two commands modelled here
  function Heard(buffer: Buffer): Option<Frame> {
    if Command(buffer) == READ then Some(Read(CommandAddress(buffer)))
    else if Command(buffer) == WRITE then Some(Write(CommandAddress(buffer), CommandData(buffer)))
    else None
  }

  function Announced(rx: Rx): seq<Option<Frame>> {
    if rx.ready then [Heard(rx.buffer)] else []
  }

  // the state after a run, and what was announced during it
  function Run(rx: Rx, xs: seq<Input>): (Rx, seq<Option<Frame>>)
    decreases |xs|
  {
    if |xs| == 0 then (rx, [])
    else
      var next := Step(rx, xs[0]);
      var (end, heard) := Run(next, xs[1..]);
      (end, Announced(next) + heard)
  }

  lemma {:induction false} RunConcat(rx: Rx, xs: seq<Input>, ys: seq<Input>)
    ensures var (mid, a) := Run(rx, xs); var (end, b) := Run(mid, ys);
      Run(rx, xs + ys) == (end, a + b)
    decreases |xs|
  {
    hide Step, Announced;
    if |xs| == 0 {
      assert xs + ys == ys;
      assert [] + Run(rx, ys).1 == Run(rx, ys).1;
    } else {
      var next := Step(rx, xs[0]);
      var (mid, a) := Run(next, xs[1..]);
      RunConcat(next, xs[1..], ys);
      assert (xs + ys)[1..] == xs[1..] + ys;
      assert Announced(next) + (a + Run(mid, ys).1) == (Announced(next) + a) + Run(mid, ys).1;
    }
  }

  // between frames: the next byte is a header
  predicate Synchronised(rx: Rx) {
    rx.address == 0 && rx.remaining == 0 && rx.timeout == 0
  }

  // ---- bytes with idle clocks in between ----

  function Wait(n: nat): (r: seq<Input>)
    ensures |r| == n
  {
    seq(n, _ => Idle)
  }

  // each byte after its own number of idle clocks
  function Timed(bytes: seq<byte>, gaps: seq<nat>): seq<Input>
    requires |gaps| == |bytes|
  {
    if |bytes| == 0 then [] else Wait(gaps[0]) + [Byte(bytes[0])] + Timed(bytes[1..], gaps[1..])
  }

  // Idle clocks do nothing but run down the timeout, until it is over.
  lemma {:induction false} WaitRuns(rx: Rx, n: nat)
    requires rx.timeout > n || Synchronised(rx)
    ensures var (end, heard) := Run(rx, Wait(n));
      heard == []
      && end == rx.(ready := if n == 0 then rx.ready else false,
                    timeout := if rx.timeout > n then rx.timeout - n else 0)
    decreases n
  {
    if n > 0 {
      WaitRuns(Step(rx, Idle), n - 1);
      assert Wait(n)[1..] == Wait(n - 1);
    }
  }

  /** A gap of TIMEOUT idle clocks inside a frame drops what has arrived of it: the receiver is
      synchronised again. */
  lemma LongGapDropsFrame(rx: Rx, n: nat)
    requires rx.timeout == TIMEOUT && n >= TIMEOUT
    ensures Run(rx, Wait(n)).1 == [] && Synchronised(Run(rx, Wait(n)).0)
  {
    WaitRuns(rx, TIMEOUT - 1);
    var mid := Run(rx, Wait(TIMEOUT - 1)).0;
    RunConcat(rx, Wait(TIMEOUT - 1), Wait(n - (TIMEOUT - 1)));
    assert Wait(TIMEOUT - 1) + Wait(n - (TIMEOUT - 1)) == Wait(n);
    var next := Step(mid, Idle);
    WaitRuns(next, n - TIMEOUT);
    assert Wait(n - (TIMEOUT - 1))[1..] == Wait(n - TIMEOUT);
  }

  // The first k bytes of a frame have arrived.
  ghost predicate Midway(rx: Rx, bytes: seq<byte>, k: nat) {
    && 0 < k < |bytes| <= 8 && rx.address == k && rx.remaining == |bytes| - k && rx.buffer[..k] == bytes[..k]
    && rx.timeout == TIMEOUT && !rx.ready
  }

  // gaps that do not time out
  predicate Prompt(gaps: seq<nat>) {
    forall i :: 0 <= i < |gaps| ==> gaps[i] < TIMEOUT
  }

  lemma ByteArrives(rx: Rx, bytes: seq<byte>, k: nat, gap: nat)
    requires Midway(rx, bytes, k) && gap < TIMEOUT
    ensures var next := Step(Run(rx, Wait(gap)).0, Byte(bytes[k]));
      if k + 1 < |bytes| then Midway(next, bytes, k + 1)
      else next.ready && Synchronised(next) && next.buffer[..|bytes|] == bytes
  {
    WaitRuns(rx, gap);
    var buffer := rx.buffer[k := bytes[k]];
    assert buffer[..k + 1] == rx.buffer[..k] + [bytes[k]];
    assert bytes[..k + 1] == bytes[..k] + [bytes[k]];
    if k + 1 == |bytes| {
      assert bytes[..|bytes|] == bytes;
    }
  }

  // The rest of a frame, once its header has set the count.
  lemma {:induction false} RestArrives(rx: Rx, bytes: seq<byte>, k: nat, gaps: seq<nat>)
    requires Midway(rx, bytes, k) && |gaps| == |bytes| - k && Prompt(gaps)
    ensures var (end, heard) := Run(rx, Timed(bytes[k..], gaps));
      end.ready && Synchronised(end) && end.buffer[..|bytes|] == bytes && heard == [Heard(end.buffer)]
    decreases |bytes| - k
  {
    assert k < |bytes|;
    hide Step, Midway, Synchronised;
    var xs, rest := Wait(gaps[0]) + [Byte(bytes[k])], Timed(bytes[k..][1..], gaps[1..]);
    var next := Step(Run(rx, Wait(gaps[0])).0, Byte(bytes[k]));
    ByteArrives(rx, bytes, k, gaps[0]);
    ArrivalRuns(rx, bytes, k, gaps[0]);
    assert bytes[k..][1..] == bytes[k + 1..];
    RunConcat(rx, xs, rest);
    if k + 1 < |bytes| {
      RestArrives(next, bytes, k + 1, gaps[1..]);
      NotReady(next, bytes, k + 1);
      assert [] + Run(next, rest).1 == Run(next, rest).1;
    } else {
      assert rest == [];
    }
  }

  lemma NotReady(rx: Rx, bytes: seq<byte>, k: nat)
    requires Midway(rx, bytes, k)
    ensures Announced(rx) == []
  {
  }

  // a gap and a byte, as a run
  lemma ArrivalRuns(rx: Rx, bytes: seq<byte>, k: nat, gap: nat)
    requires Midway(rx, bytes, k) && gap < TIMEOUT
    ensures var next := Step(Run(rx, Wait(gap)).0, Byte(bytes[k]));
      Run(rx, Wait(gap) + [Byte(bytes[k])]) == (next, Announced(next))
  {
    WaitRuns(rx, gap);
    OneByte(rx, gap, bytes[k]);
  }

  lemma OneByte(rx: Rx, gap: nat, b: byte)
    requires Run(rx, Wait(gap)).1 == []
    ensures var next := Step(Run(rx, Wait(gap)).0, Byte(b));
      Run(rx, Wait(gap) + [Byte(b)]) == (next, Announced(next))
  {
    hide Step, Announced;
    var mid := Run(rx, Wait(gap)).0;
    RunConcat(rx, Wait(gap), [Byte(b)]);
    assert [Byte(b)][1..] == [];
    var next := Step(mid, Byte(b));
    assert Run(next, []) == (next, []);
    assert Announced(next) + [] == Announced(next);
    assert Run(mid, [Byte(b)]) == (next, Announced(next));
    assert [] + Announced(next) == Announced(next);
  }

  // ---- whole frames ----

  lemma FieldsRead(buffer: Buffer, address: u16, data: u32)
    ensures buffer[1..3] == BigEndian(address, 2) ==> CommandAddress(buffer) == address
    ensures buffer[3..7] == BigEndian(data, 4) ==> CommandData(buffer) == data
  {
    Powers();
    BigEndianRoundTrip(address, 2);
    BigEndianRoundTrip(data, 4);
    TwoBytes(buffer[1..3]);
    FourBytes(buffer[3..7]);
  }

  lemma TwoBytes(s: seq<byte>)
    requires |s| == 2
    ensures FromBigEndian(s) == (s[0] as int) * 0x100 + s[1]
  {
    assert s[..1] == [s[0]];
    assert FromBigEndian(s[..1]) == s[0] by { assert s[..1][..0] == []; }
  }

  lemma FourBytes(s: seq<byte>)
    requires |s| == 4
    ensures FromBigEndian(s) == (s[0] as int) * 0x100_0000 + (s[1] as int) * 0x1_0000 + (s[2] as int) * 0x100 + s[3]
  {
    TwoBytes(s[..2]);
    assert s[..3][..2] == s[..2];
    assert FromBigEndian(s[..3]) == FromBigEndian(s[..2]) * 0x100 + s[2];
  }

  /** The receiver's fields of an encoded frame are the frame. */
  lemma HeardIsEncoded(buffer: Buffer, f: Frame)
    requires buffer[..|Encode(f)|] == Encode(f)
    ensures Heard(buffer) == Some(f)
  {
    var bytes := Encode(f);
    assert buffer[0] == bytes[0];
    assert buffer[1..3] == bytes[1..3] == BigEndian(f.address, 2) by { assert buffer[..|bytes|][1..3] == buffer[1..3]; }
    FieldsRead(buffer, f.address, if f.Write? then f.data else 0);
    if f.Write? {
      assert buffer[3..7] == bytes[3..7] == BigEndian(f.data, 4) by { assert buffer[..|bytes|][3..7] == buffer[3..7]; }
    }
  }

  /** One frame, however its bytes are spaced within the timeout, is announced once, as itself, and
      leaves the receiver synchronised. */
  lemma FrameArrives(rx: Rx, f: Frame, gaps: seq<nat>)
    requires Synchronised(rx) && |gaps| == |Encode(f)| && Prompt(gaps[1..])
    ensures var (end, heard) := Run(rx, Timed(Encode(f), gaps)); Synchronised(end) && heard == [Some(f)]
  {
    var bytes := Encode(f);
    WaitRuns(rx, gaps[0]);
    var idle := Run(rx, Wait(gaps[0])).0;
    var next := Step(idle, Byte(bytes[0]));
    assert next.buffer[..1] == bytes[..1];
    assert Midway(next, bytes, 1);
    hide Step, Midway, Synchronised, Encode, Heard;
    OneByte(rx, gaps[0], bytes[0]);
    NotReady(next, bytes, 1);
    RunConcat(rx, Wait(gaps[0]) + [Byte(bytes[0])], Timed(bytes[1..], gaps[1..]));
    RestArrives(next, bytes, 1, gaps[1..]);
    var end := Run(next, Timed(bytes[1..], gaps[1..])).0;
    HeardIsEncoded(end.buffer, f);
    assert [] + [Heard(end.buffer)] == [Heard(end.buffer)];
  }

  /** A stray byte that announces nothing behind it, one that is a multiple of 8, moves the receiver on all the same:
      the frame after it is heard as no frame, unless it comes only after the timeout. */
  lemma StrayByteIff(rx: Rx, b: byte, f: Frame, gaps: seq<nat>)
    requires Synchronised(rx) && b % 8 == 0 && |gaps| == |Encode(f)| && Prompt(gaps[1..])
    ensures var (end, heard) := Run(Step(rx, Byte(b)), Timed(Encode(f), gaps));
      Synchronised(end) && heard == [if gaps[0] >= TIMEOUT then Some(f) else None]
  {
    var s := Step(rx, Byte(b));
    if gaps[0] >= TIMEOUT {
      FrameAfterTimeout(s, f, gaps);
    } else {
      StrayThenFrame(s, [b] + Encode(f), f, gaps);
    }
  }

  // whatever came before, a frame after the timeout is heard
  lemma FrameAfterTimeout(s: Rx, f: Frame, gaps: seq<nat>)
    requires s.timeout == TIMEOUT && |gaps| == |Encode(f)| && Prompt(gaps[1..]) && gaps[0] >= TIMEOUT
    ensures var (end, heard) := Run(s, Timed(Encode(f), gaps)); Synchronised(end) && heard == [Some(f)]
  {
    hide Step, Encode, Run, Synchronised;
    var bytes, rest := Encode(f), gaps[0 := gaps[0] - TIMEOUT];
    LongGapDropsFrame(s, TIMEOUT);
    assert Wait(gaps[0]) == Wait(TIMEOUT) + Wait(rest[0]) && rest[1..] == gaps[1..];
    assert Timed(bytes, gaps) == Wait(TIMEOUT) + Timed(bytes, rest);
    RunConcat(s, Wait(TIMEOUT), Timed(bytes, rest));
    FrameArrives(Run(s, Wait(TIMEOUT)).0, f, rest);
    assert [] + [Some(f)] == [Some(f)];
  }

  // the frame written behind the stray byte
  lemma StrayThenFrame(s: Rx, all: seq<byte>, f: Frame, gaps: seq<nat>)
    requires |all| > 0 && all == [all[0]] + Encode(f) && all[0] % 8 == 0 && s.buffer[0] == all[0]
    requires s.address == 1 && s.remaining == 0 && s.timeout == TIMEOUT
    requires |gaps| == |Encode(f)| && Prompt(gaps[1..]) && gaps[0] < TIMEOUT
    ensures var (end, heard) := Run(s, Timed(Encode(f), gaps)); Synchronised(end) && heard == [None]
  {
    var bytes := Encode(f);
    WaitRuns(s, gaps[0]);
    var next := Step(Run(s, Wait(gaps[0])).0, Byte(bytes[0]));
    assert next.buffer[..2] == all[..2];
    assert Midway(next, all, 2);
    hide Step, Midway, Synchronised, Encode;
    OneByte(s, gaps[0], bytes[0]);
    NotReady(next, all, 2);
    RunConcat(s, Wait(gaps[0]) + [Byte(bytes[0])], Timed(bytes[1..], gaps[1..]));
    assert all[2..] == bytes[1..];
    RestArrives(next, all, 2, gaps[1..]);
    var end := Run(next, Timed(bytes[1..], gaps[1..])).0;
    assert end.buffer[0] == all[0] by { assert end.buffer[..|all|][0] == all[0]; }
    assert [] + [Heard(end.buffer)] == [Heard(end.buffer)];
  }

  // frames on the line, each byte after its gap
  datatype Sent = Sent(frame: Frame, gaps: seq<nat>)

  ghost predicate OnTime(s: Sent) {
    |s.gaps| == |Encode(s.frame)| && Prompt(s.gaps[1..])
  }

  ghost function Line(sent: seq<Sent>): seq<Input>
    requires forall i :: 0 <= i < |sent| ==> OnTime(sent[i])
  {
    if |sent| == 0 then [] else assert OnTime(sent[0]); Timed(Encode(sent[0].frame), sent[0].gaps) + Line(sent[1..])
  }

  ghost function FramesOf(sent: seq<Sent>): seq<Option<Frame>> {
    seq(|sent|, i requires 0 <= i < |sent| => Some(sent[i].frame))
  }

  /** Any sequence of read and write frames whose bytes are less than TIMEOUT idle clocks apart is
      heard as exactly that sequence, with any gaps between the frames. */
  lemma {:induction false} FramesArrive(rx: Rx, sent: seq<Sent>)
    requires Synchronised(rx) && forall i :: 0 <= i < |sent| ==> OnTime(sent[i])
    ensures var (end, heard) := Run(rx, Line(sent)); Synchronised(end) && heard == FramesOf(sent)
    decreases |sent|
  {
    hide Step, Synchronised, Encode, Timed, Prompt;
    if |sent| > 0 {
      assert OnTime(sent[0]);
      var xs := Timed(Encode(sent[0].frame), sent[0].gaps);
      FrameArrives(rx, sent[0].frame, sent[0].gaps);
      RunConcat(rx, xs, Line(sent[1..]));
      FramesArrive(Run(rx, xs).0, sent[1..]);
      assert FramesOf(sent) == [Some(sent[0].frame)] + FramesOf(sent[1..]);
    }
  }

  // ---- the reply ----

  // respond_to_data_request with the words of a register write to address 0
  function Reply(data: u32): (r: seq<byte>)
    ensures |r| == 7
  {
    [6] + WriteDataToRegister(0, data)
  }

  // test_uart.py takes the bytes after the header and the address
  function HostValue(frame: seq<byte>): nat
    requires |frame| == 7
  {
    FromBigEndian(frame[3..])
  }

  /** What the board answers to a read decodes on the host to the register's value. */
  lemma ReplyDecodes(data: u32)
    ensures HostValue(Reply(data)) == data
  {
    RegisterFields(0, data);
    Powers();
    BigEndianRoundTrip(data, 4);
    assert Reply(data)[3..] == BigEndian(data, 4);
  }

  // ---- the record, as create_serial_protocol and respond_to_data_request change it ----

  class Protocol {
    const transmitBuffer: array<byte>
    const receiveBuffer: array<byte>
    var numberOfTransmittedWords: index
    var isReady: bool
    var isRequested: bool
    var receiveAddress: index
    var numberOfReceivedWords: index
    var receiveIsReady: bool
    var receiveTimeout: nat
    // bytes handed to the transmitter since the last reply was started
    ghost var handed: seq<byte>
    ghost var reply: seq<byte>

    constructor ()
      ensures Valid() && Synchronised(View()) && !receiveIsReady && handed == reply == []
      ensures fresh(transmitBuffer) && fresh(receiveBuffer)
    {
      transmitBuffer, receiveBuffer := new byte[8](_ => 0), new byte[8](_ => 0);
      numberOfTransmittedWords, isReady, isRequested := 0, false, false;
      receiveAddress, numberOfReceivedWords, receiveIsReady, receiveTimeout := 0, 0, false, 0;
      handed, reply := [], [];
    }

    /** A reply goes out whole and in order: what has been handed over and what is left in the
        buffer are the reply. */
    ghost predicate Valid()
      reads this, transmitBuffer
    {
      && transmitBuffer.Length == receiveBuffer.Length == 8 && transmitBuffer != receiveBuffer
      && reply == handed + transmitBuffer[..numberOfTransmittedWords]
    }

    ghost function View(): Rx
      reads this, receiveBuffer
      requires receiveBuffer.Length == 8
    {
      Rx(receiveBuffer[..], receiveAddress, numberOfReceivedWords, receiveIsReady, receiveTimeout)
    }

    // the transmit half of create_serial_protocol: at most one byte to the transmitter
    method Transmit(txReady: bool) returns (sent: Option<byte>)
      requires Valid()
      modifies this`numberOfTransmittedWords, this`isReady, this`isRequested, this`handed, transmitBuffer
      ensures Valid() && !isRequested
      ensures handed == old(handed) + if sent.Some? then [sent.value] else []
      ensures sent.Some? <==> old(numberOfTransmittedWords) > 0 && (txReady || old(isRequested))
      ensures isReady <==> old(numberOfTransmittedWords) == 0 && txReady
      ensures numberOfTransmittedWords == old(numberOfTransmittedWords) - if sent.Some? then 1 else 0
    {
      var requested := isRequested;
      isReady, isRequested, sent := false, false, None;
      if numberOfTransmittedWords > 0 {
        if txReady || requested {
          sent := Some(transmitBuffer[0]);
          ghost var before := transmitBuffer[..];
          forall i | 0 <= i < 8 {
            transmitBuffer[i] := if i < 7 then transmitBuffer[i + 1] else 0;
          }
          assert transmitBuffer[..7] == before[1..];
          assert before[..numberOfTransmittedWords] == [before[0]] + transmitBuffer[..numberOfTransmittedWords - 1];
          handed := handed + [sent.value];
          numberOfTransmittedWords := numberOfTransmittedWords - 1;
        }
      } else if txReady {
        isReady := true;
      }
    }

    // the receive half
    method Receive(x: Input)
      requires receiveBuffer.Length == 8
      modifies this`receiveAddress, this`numberOfReceivedWords, this`receiveIsReady, this`receiveTimeout, receiveBuffer
      ensures View() == Step(old(View()), x)
    {
      var words, timeout := numberOfReceivedWords, receiveTimeout;
      receiveIsReady := false;
      if timeout > 0 {
        receiveTimeout := timeout - 1;
      }
      var address := receiveAddress;
      if timeout == 1 {
        numberOfReceivedWords, receiveAddress := 0, 0;
      }
      if x.Byte? {
        receiveTimeout := TIMEOUT;
        receiveBuffer[address] := x.b;
        receiveAddress := ((address as int) + 1) % 8;
        if words > 0 {
          numberOfReceivedWords := words - 1;
        } else {
          numberOfReceivedWords := HeaderCount(x.b);
        }
        if words == 1 {
          receiveIsReady, receiveTimeout, receiveAddress := true, 0, 0;
        }
      }
    }

    method RespondToDataRequest(words: seq<byte>)
      requires Valid() && |words| < 7
      modifies this`numberOfTransmittedWords, this`isRequested, this`handed, this`reply, transmitBuffer
      ensures Valid() && isRequested && handed == [] && reply == [|words|] + words
      ensures numberOfTransmittedWords == |words| + 1
    {
      numberOfTransmittedWords := |words| + 1;
      transmitBuffer[0] := |words|;
      for i := 1 to |words| + 1
        modifies transmitBuffer
        invariant transmitBuffer[..i] == [|words|] + words[..i - 1]
      {
        transmitBuffer[i] := words[i - 1];
        assert words[..i] == words[..i - 1] + [words[i - 1]];
      }
      assert words[..|words|] == words;
      isRequested, handed, reply := true, [], [|words|] + words;
      assert transmitBuffer[..numberOfTransmittedWords] == reply;
    }
  }

  // ---- communications.vhd, without streams ----

  datatype BusRequest = NoRequest | ReadAt(address: u16) | WriteAt(address: u16, data: u32)

  // the bus request for what has been heard
  function RequestFor(heard: Option<Frame>): BusRequest {
    match heard
    case None => NoRequest
    case Some(Read(address)) => ReadAt(address)
    case Some(Write(address, data)) => WriteAt(address, data)
  }

  /** Frames on the line become the bus requests that the host meant, in order: a write frame a write of its data
      to its address, a read frame a read of its address. */
  lemma FramesBecomeRequests(rx: Rx, sent: seq<Sent>)
    requires Synchronised(rx) && forall i :: 0 <= i < |sent| ==> OnTime(sent[i])
    ensures var heard := Run(rx, Line(sent)).1;
      |heard| == |sent| && forall i :: 0 <= i < |sent| ==>
        var f := sent[i].frame;
        RequestFor(heard[i]) == if f.Write? then WriteAt(f.address, f.data) else ReadAt(f.address)
  {
    hide Run, Line, Encode, OnTime, Synchronised;
    FramesArrive(rx, sent);
  }

  class Communications {
    const protocol: Protocol

    constructor ()
      ensures fresh(protocol) && fresh(protocol.transmitBuffer) && fresh(protocol.receiveBuffer)
      ensures protocol.Valid() && Synchronised(protocol.View()) && !protocol.receiveIsReady
    {
      protocol := new Protocol();
    }

    /** One clock: an announced frame goes to the bus, a word that the bus writes to address 0 goes
        back to the host. */
    method Clock(x: Input, txReady: bool, fromBus: Option<u32>) returns (sent: Option<byte>, request: BusRequest)
      requires protocol.Valid()
      modifies protocol, protocol.transmitBuffer, protocol.receiveBuffer
      ensures protocol.Valid() && protocol.View() == Step(old(protocol.View()), x)
      ensures request == if old(protocol.receiveIsReady) then RequestFor(Heard(old(protocol.View()).buffer))
                         else NoRequest
      ensures fromBus.Some? ==> protocol.reply == Reply(fromBus.value) && protocol.handed == [] && protocol.isRequested
      ensures fromBus.None? ==> protocol.reply == old(protocol.reply)
      ensures fromBus.None? ==>
        protocol.handed == old(protocol.handed) + if sent.Some? then [sent.value] else []
    {
      request := NoRequest;
      if protocol.receiveIsReady {
        var buffer: Buffer := protocol.receiveBuffer[..];
        if Command(buffer) == READ {
          request := ReadAt(CommandAddress(buffer));
        } else if Command(buffer) == WRITE {
          request := WriteAt(CommandAddress(buffer), CommandData(buffer));
        }
      }
      sent := protocol.Transmit(txReady);
      protocol.Receive(x);
      if fromBus.Some? {
        protocol.RespondToDataRequest(WriteDataToRegister(0, fromBus.value));
      }
    }
  }
}
