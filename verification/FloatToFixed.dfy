/** float_to_fixed.vhd: binary32 (section 3.4 of IEEE 754-2019) to signed fixed point through a
    pipeline of bounded shifts. */
module FloatToFixed {
  import opened Bits

  const MANT_LEN: nat := 23

  // a binary32 word's fields
  datatype Fp32 = Fp32(negative: bool, biased: nat, fraction: nat) {
    predicate Valid() {
      biased < 0x100 && fraction < 0x80_0000
    }

    // a normal number whose exponent the conversion takes
    predicate InRange() {
      Valid() && 1 <= biased <= 200
    }
  }

  datatype HFloat = HFloat(negative: bool, exponent: int, mantissa: nat)

  const ZERO := HFloat(false, 0, 0)

  /** fp32_to_hfloat: the implicit one goes to the top of a 23-bit mantissa, so the fraction's last
      bit is dropped; zeros, subnormals and exponents above 200 become zero. */
  function ToHFloat(x: Fp32): HFloat {
    if x.biased != 0 && x.biased <= 200 then HFloat(x.negative, x.biased - 126, 0x40_0000 + x.fraction / 2)
    else HFloat(x.negative, 0, 0)
  }

  function MaxShift(stages: nat): nat
    requires stages > 0
  {
    MANT_LEN / stages
  }

  // one stage: as much of the missing shift as a stage can do
  function DenormStep(h: HFloat, scale: int, maxShift: nat): HFloat {
    var missing := scale - h.exponent;
    var sw := if missing < 0 then 0 else if missing >= maxShift then maxShift else missing;
    HFloat(h.negative, h.exponent + sw, Shr(h.mantissa, sw))
  }

  function Signed(negative: bool, magnitude: int): int {
    if negative then -magnitude else magnitude
  }

  // ---- the pipeline ----

  datatype Input = Input(number: HFloat, radix: nat, requested: bool)

  // the registers of one stage
  datatype Registers = Registers(pipe: HFloat, fthru: HFloat, scale: int, strobe: bool)

  function Enter(x: Input): Registers {
    Registers(x.number, x.number, MANT_LEN - x.radix, x.requested)
  }

  function Advance(r: Registers, maxShift: nat): Registers {
    r.(pipe := DenormStep(r.pipe, r.scale, maxShift))
  }

  // what an input has become in stage i
  function Stage(x: Input, maxShift: nat, i: nat): Registers {
    if i == 0 then Enter(x) else Advance(Stage(x, maxShift, i - 1), maxShift)
  }

  ghost predicate Follows(stage: seq<Registers>, inputs: seq<Input>, maxShift: nat) {
    forall i :: 0 <= i < |stage| && i < |inputs| ==> stage[i] == Stage(inputs[i], maxShift, i)
  }

  lemma FollowsNext(before: seq<Registers>, after: seq<Registers>, inputs: seq<Input>, x: Input, maxShift: nat)
    requires |after| == |before| > 0 && Follows(before, inputs, maxShift)
    requires after[0] == Enter(x) && forall i :: 1 <= i < |after| ==> after[i] == Advance(before[i - 1], maxShift)
    ensures Follows(after, [x] + inputs, maxShift)
  {
    hide Advance, Enter;
    forall i | 0 <= i < |after| && i < 1 + |inputs| ensures after[i] == Stage(([x] + inputs)[i], maxShift, i) {
      if i > 0 {
        assert before[i - 1] == Stage(inputs[i - 1], maxShift, i - 1);
      }
    }
  }

  lemma StrobeMoves(r: Registers, maxShift: nat)
    ensures Advance(r, maxShift).strobe == r.strobe
  {
  }

  class Pipeline {
    const stages: nat
    const stage: array<Registers>
    // the inputs of the past clocks, newest first
    ghost var inputs: seq<Input>

    constructor (stages: nat)
      requires stages > 0
      ensures Valid() && this.stages == stages && inputs == [] && fresh(stage)
    {
      this.stages := stages;
      stage := new Registers[stages + 1](_ => Registers(ZERO, ZERO, 0, false));
      inputs := [];
    }

    /** Stage i holds what the input of i + 1 clocks ago has become. */
    ghost predicate Valid()
      reads this, stage
    {
      && stages > 0 && stage.Length == stages + 1 && Follows(stage[..], inputs, MaxShift(stages))
      && forall i :: |inputs| <= i <= stages ==> !stage[i].strobe
    }

    // the denormalise process: all registers move at once
    method Clock(x: Input)
      requires Valid()
      modifies this, stage
      ensures Valid() && inputs == [x] + old(inputs)
    {
      hide Advance, Enter, MaxShift, Follows;
      ghost var before := stage[..];
      forall i | 1 <= i <= stages {
        stage[i] := Advance(stage[i - 1], MaxShift(stages));
      }
      stage[0] := Enter(x);
      FollowsNext(before, stage[..], inputs, x, MaxShift(stages));
      forall i | 1 <= i <= stages ensures stage[i].strobe == before[i - 1].strobe {
        StrobeMoves(before[i - 1], MaxShift(stages));
      }
      inputs := [x] + inputs;
    }

    function Output(): (int, bool)
      requires Valid()
      reads this, stage
    {
      (Signed(stage[stages].fthru.negative, stage[stages].pipe.mantissa), stage[stages].strobe)
    }
  }

  // ---- what comes out ----

  // the shift that a conversion needs
  function Needed(x: Fp32, radix: nat): int {
    MANT_LEN - radix - ToHFloat(x).exponent
  }

  // the shift that all stages together can do
  function Capacity(stages: nat): nat
    requires stages > 0
  {
    stages * MaxShift(stages)
  }

  function Min(a: nat, b: nat): nat {
    if a < b then a else b
  }

  lemma {:induction false} ShrTwice(n: nat, a: nat, b: nat)
    ensures Shr(Shr(n, a), b) == Shr(n, a + b)
  {
    if a > 0 { ShrTwice(n / 2, a - 1, b); }
  }

  /** Splitting the shift over the stages loses nothing: after i stages it is one shift by what was
      needed, up to what i stages can do. */
  lemma {:induction false} StageShifts(x: Input, maxShift: nat, i: nat)
    requires MANT_LEN - x.radix >= x.number.exponent
    ensures var h, missing := x.number, MANT_LEN - x.radix - x.number.exponent;
      var k := Min(missing, i * maxShift);
      Stage(x, maxShift, i) ==
        Registers(HFloat(h.negative, h.exponent + k, Shr(h.mantissa, k)), h, MANT_LEN - x.radix, x.requested)
  {
    if i > 0 {
      StageShifts(x, maxShift, i - 1);
      var missing := MANT_LEN - x.radix - x.number.exponent;
      var k := Min(missing, (i - 1) * maxShift);
      assert i * maxShift == (i - 1) * maxShift + maxShift;
      var sw := Min(missing - k, maxShift);
      ShrTwice(x.number.mantissa, k, sw);
      assert k + sw == Min(missing, i * maxShift);
    }
  }

  /** The pipeline's answer for one request, when it comes out. */
  function Convert(x: Fp32, radix: nat, stages: nat): int
    requires stages > 0
  {
    var r := Stage(Input(ToHFloat(x), radix, true), MaxShift(stages), stages);
    Signed(r.fthru.negative, r.pipe.mantissa)
  }

  /** As many clocks after the one that took a request in as there are stages, the pipeline shows
      its conversion, whatever else has been requested before and since. */
  lemma PipelineConverts(p: Pipeline, x: Fp32, radix: nat)
    requires p.Valid() && |p.inputs| > p.stages && p.inputs[p.stages] == Input(ToHFloat(x), radix, true)
    ensures p.Output() == (Convert(x, radix, p.stages), true)
  {
    StrobeKept(Input(ToHFloat(x), radix, true), MaxShift(p.stages), p.stages);
  }

  /** In any other clock it does not say that it is ready. */
  lemma ReadyIff(p: Pipeline)
    requires p.Valid()
    ensures p.Output().1 <==> |p.inputs| > p.stages && p.inputs[p.stages].requested
  {
    if |p.inputs| > p.stages {
      StrobeKept(p.inputs[p.stages], MaxShift(p.stages), p.stages);
    }
  }

  lemma {:induction false} StrobeKept(x: Input, maxShift: nat, i: nat)
    ensures Stage(x, maxShift, i).strobe == x.requested
  {
    if i > 0 { StrobeKept(x, maxShift, i - 1); }
  }

  lemma ConvertShifts(x: Fp32, radix: nat, stages: nat)
    requires stages > 0 && Needed(x, radix) >= 0
    ensures Convert(x, radix, stages) ==
      Signed(x.negative, Shr(ToHFloat(x).mantissa, Min(Needed(x, radix), Capacity(stages))))
  {
    StageShifts(Input(ToHFloat(x), radix, true), MaxShift(stages), stages);
  }

  // ---- the number converted ----

  // 2 to any power
  function TwoTo(k: int): (r: real)
    ensures r > 0.0
    decreases if k < 0 then -k else k
  {
    if k == 0 then 1.0 else if k > 0 then 2.0 * TwoTo(k - 1) else TwoTo(k + 1) / 2.0
  }

  function Truncated(r: real): int {
    if r >= 0.0 then r.Floor else -((-r).Floor)
  }

  // the value of a normal binary32 number: 1.fraction times 2 to the unbiased exponent
  function Value(x: Fp32): real {
    if x.negative then -Magnitude(x) else Magnitude(x)
  }

  function Magnitude(x: Fp32): real {
    (1.0 + x.fraction as real / 8388608.0) * TwoTo(x.biased - 127)
  }

  /** What the file's header promises: the value times 2 to the radix, truncated. */
  function Target(x: Fp32, radix: nat): int {
    Truncated(Value(x) * TwoTo(radix))
  }

  lemma {:induction false} TwoToNext(k: int)
    ensures TwoTo(k + 1) == 2.0 * TwoTo(k)
  {
  }

  lemma {:induction false} TwoToSum(a: int, k: nat)
    ensures TwoTo(a + k) == TwoTo(a) * TwoTo(k)
  {
    hide TwoTo;
    if k > 0 {
      TwoToSum(a, k - 1);
      TwoToNext(a + k - 1);
      TwoToNext(k - 1);
      Doubled(TwoTo(a), TwoTo(k - 1));
    } else {
      TwoToZero();
    }
  }

  lemma TwoToZero()
    ensures TwoTo(0) == 1.0
  {
  }

  lemma Doubled(u: real, v: real)
    ensures 2.0 * (u * v) == u * (2.0 * v)
  {
  }

  lemma {:induction false} TwoToNat(k: nat)
    ensures TwoTo(k) == Pow2(k) as real
  {
    if k > 0 { TwoToNat(k - 1); }
  }

  // Dividing by a power of two and taking the floor is a shift.
  lemma FloorIsShift(n: nat, k: nat, r: real)
    requires r * (Pow2(k) as real) == n as real
    ensures r.Floor == Shr(n, k)
  {
    hide Pow2, Shr, Low;
    LowShr(n, k);
    SplitReal(n, Pow2(k), Shr(n, k), Low(n, k));
    FloorBetween(r, Pow2(k) as real, Shr(n, k), Low(n, k) as real);
  }

  lemma SplitReal(n: nat, p: nat, q: nat, l: nat)
    requires n == l + p * q
    ensures n as real == (p as real) * (q as real) + l as real
  {
  }

  lemma FloorBetween(r: real, p: real, q: int, l: real)
    requires p > 0.0 && 0.0 <= l < p && r * p == p * q as real + l
    ensures r.Floor == q
  {
    var u := r - q as real;
    assert u * p == l;
    Quotient(u, p, l);
  }

  lemma NonNegative(u: real, p: real, l: real)
    requires p > 0.0 && l >= 0.0 && u * p == l
    ensures u >= 0.0
  {
    assert u == l / p;
  }

  lemma Quotient(u: real, p: real, l: real)
    requires p > 0.0 && 0.0 <= l < p && u * p == l
    ensures 0.0 <= u < 1.0
  {
    NonNegative(u, p, l);
    assert (1.0 - u) * p == p - l;
    NonNegative(1.0 - u, p, p - l);
    assert u != 1.0;
  }

  lemma Regroup(s: real, t: real, v: real, p: real)
    ensures s * t * v * p == s * (t * v * p)
  {
    assert s * t * v == s * (t * v);
  }

  function Scaled(x: Fp32, radix: nat): real {
    Magnitude(x) * TwoTo(radix)
  }

  // The significand is 24 bits.
  lemma MagnitudeScaled(x: Fp32, radix: nat, k: nat)
    requires x.biased - 127 + radix + k == 23
    ensures Scaled(x, radix) * (Pow2(k) as real) == (0x80_0000 + x.fraction) as real
  {
    hide TwoTo, Pow2;
    var s := 1.0 + x.fraction as real / 8388608.0;
    ScaleTo23(x.biased - 127, radix, k);
    Regroup(s, TwoTo(x.biased - 127), TwoTo(radix), Pow2(k) as real);
    assert s * 8388608.0 == (0x80_0000 + x.fraction) as real;
  }

  lemma ScaledFloor(x: Fp32, radix: nat, k: nat)
    requires x.biased - 127 + radix + k == 23
    ensures Scaled(x, radix) >= 0.0 && Scaled(x, radix).Floor == Shr(0x80_0000 + x.fraction, k)
  {
    hide Scaled, Pow2, Shr;
    MagnitudeScaled(x, radix, k);
    FloorIsShift(0x80_0000 + x.fraction, k, Scaled(x, radix));
    NonNegative(Scaled(x, radix), Pow2(k) as real, (0x80_0000 + x.fraction) as real);
  }

  lemma TruncatedSigned(x: Fp32, radix: nat)
    requires Scaled(x, radix) >= 0.0
    ensures Target(x, radix) == Signed(x.negative, Scaled(x, radix).Floor)
  {
    hide Magnitude;
    Negated(Magnitude(x), TwoTo(radix));
  }

  lemma Negated(a: real, b: real)
    ensures (-a) * b == -(a * b)
  {
  }

  lemma ScaledValue(x: Fp32, radix: nat)
    requires x.InRange() && Needed(x, radix) >= 0
    ensures Target(x, radix) == Signed(x.negative, Shr(0x80_0000 + x.fraction, Needed(x, radix) + 1))
  {
    hide Shr, Scaled, Target;
    ScaledFloor(x, radix, Needed(x, radix) + 1);
    TruncatedSigned(x, radix);
  }

  lemma ScaleTo23(e: int, radix: nat, k: nat)
    requires e + radix + k == 23
    ensures TwoTo(e) * TwoTo(radix) * (Pow2(k) as real) == 8388608.0
  {
    hide TwoTo, Pow2;
    TwoToNat(k);
    TwoToSum(e, radix);
    TwoToSum(e + radix, k);
    TwoTo23();
  }

  lemma TwoTo23()
    ensures TwoTo(23) == 8388608.0
  {
    assert TwoTo(4) == 16.0;
    assert TwoTo(8) == 256.0;
    assert TwoTo(12) == 4096.0;
    assert TwoTo(16) == 65536.0;
    assert TwoTo(20) == 1048576.0;
  }

  // A left shift of the significand.
  lemma ScaledLeft(x: Fp32, radix: nat, j: nat)
    requires x.biased - 127 + radix == 23 + j
    ensures Scaled(x, radix) == ((0x80_0000 + x.fraction) * Pow2(j)) as real
  {
    hide TwoTo, Pow2;
    var s := 1.0 + x.fraction as real / 8388608.0;
    TwoToNat(j);
    TwoToSum(x.biased - 127, radix);
    TwoToSum(23, j);
    TwoTo23();
    assert s * 8388608.0 == (0x80_0000 + x.fraction) as real;
    LeftProduct(s, TwoTo(x.biased - 127), TwoTo(radix), Pow2(j), 0x80_0000 + x.fraction);
  }

  lemma LeftProduct(s: real, t: real, v: real, p: nat, n: nat)
    requires t * v == 8388608.0 * p as real && s * 8388608.0 == n as real
    ensures s * t * v == (n * p) as real
  {
    assert s * t * v == s * (t * v);
    assert s * (8388608.0 * p as real) == (s * 8388608.0) * p as real;
  }

  /** The number to reach is a shift. To the right, dropping the fraction's last bit loses nothing: it is a
      shift of the kept mantissa. To the left, it is a shift of the whole significand. */
  lemma TruncatedIsShift(x: Fp32, radix: nat)
    requires x.InRange()
    ensures Needed(x, radix) >= 0 ==>
      Target(x, radix) == Signed(x.negative, Shr(ToHFloat(x).mantissa, Needed(x, radix)))
    ensures Needed(x, radix) < 0 ==>
      Target(x, radix) == Signed(x.negative, (0x80_0000 + x.fraction) * Pow2(-Needed(x, radix) - 1))
  {
    var n, k := 0x80_0000 + x.fraction, Needed(x, radix);
    if k >= 0 {
      ScaledValue(x, radix);
      assert Shr(n, k + 1) == Shr(n / 2, k);
      assert n / 2 == 0x40_0000 + x.fraction / 2;
    } else {
      hide Scaled, Target, Pow2;
      ScaledLeft(x, radix, -k - 1);
      FloorOfInt(n * Pow2(-k - 1), Scaled(x, radix));
      TruncatedSigned(x, radix);
    }
  }

  lemma FloorOfInt(n: nat, r: real)
    requires r == n as real
    ensures r >= 0.0 && r.Floor == n
  {
  }

  // ---- how good the answer is ----

  lemma {:induction false} ShrBelow(n: nat, k: nat)
    requires n > 0 && k > 0
    ensures Shr(n, k) < n
  {
    if k > 1 && n / 2 > 0 {
      ShrBelow(n / 2, k - 1);
    } else if k > 1 {
      ShrZero(k - 1);
    }
  }

  lemma {:induction false} ShrZero(k: nat)
    ensures Shr(0, k) == 0
  {
    if k > 0 { ShrZero(k - 1); }
  }

  lemma CapacityBounds(stages: nat)
    requires stages > 0
    ensures Capacity(stages) <= MANT_LEN
  {
    var c := MANT_LEN / stages;
    assert stages * c + MANT_LEN % stages == MANT_LEN;
  }

  // A mantissa's top bit is set, so only shifts of 23 and more empty it.
  lemma MantissaShifted(m: nat)
    requires 0x40_0000 <= m < 0x80_0000
    ensures Shr(m, 21) == m / 0x20_0000 && Shr(m, 22) == 1 && Shr(m, 23) == 0
  {
    hide Low, Shr, Pow2;
    Powers();
    LowShr(m, 21);
    LowShr(m, 22);
    LowShr(m, 23);
  }

  lemma Powers()
    ensures Pow2(21) == 0x20_0000 && Pow2(22) == 0x40_0000 && Pow2(23) == 0x80_0000
  {
    assert Pow2(4) == 16;
    assert Pow2(8) == 0x100;
    assert Pow2(12) == 0x1000;
    assert Pow2(16) == 0x1_0000;
    assert Pow2(19) == 0x8_0000;
  }

  // a shift of 22 or less leaves at least the top bit
  lemma NotEmptied(m: nat, k: nat)
    requires 0x40_0000 <= m < 0x80_0000 && k <= 22
    ensures Shr(m, k) > 0
  {
    MantissaShifted(m);
    ShrTwice(m, k, 22 - k);
    if Shr(m, k) == 0 {
      ShrZero(22 - k);
      assert false;
    }
  }

  // The stages never shift left.
  lemma {:induction false} NoShift(x: Input, maxShift: nat, i: nat)
    requires MANT_LEN - x.radix <= x.number.exponent
    ensures Stage(x, maxShift, i).pipe == Stage(x, maxShift, i).fthru == x.number
    ensures Stage(x, maxShift, i).scale == MANT_LEN - x.radix
  {
    if i > 0 {
      NoShift(x, maxShift, i - 1);
      assert Shr(x.number.mantissa, 0) == x.number.mantissa;
    }
  }

  /** Where a left shift is needed the answer is off by 2 to the 22 or more, at every depth. */
  lemma LeftShiftMissed(x: Fp32, radix: nat, stages: nat)
    requires x.InRange() && Needed(x, radix) < 0 && stages > 0
    ensures Distance(Convert(x, radix, stages), Target(x, radix)) >= 0x40_0000
  {
    hide Target, Pow2;
    var n, j := 0x80_0000 + x.fraction, -Needed(x, radix) - 1;
    NoShift(Input(ToHFloat(x), radix, true), MaxShift(stages), stages);
    TruncatedIsShift(x, radix);
    GrownProduct(n, Pow2(j));
    SignedApart(x.negative, ToHFloat(x).mantissa, n * Pow2(j));
  }

  lemma GrownProduct(n: nat, p: nat)
    requires p >= 1
    ensures n * p >= n
  {
  }

  /** Exactly when a conversion is the truncation of value times 2 to the radix: when it needs no left
      shift, and the stages can do the whole right shift or can empty the mantissa. */
  lemma ExactIff(x: Fp32, radix: nat, stages: nat)
    requires x.InRange() && stages > 0
    ensures Convert(x, radix, stages) == Target(x, radix) <==>
      0 <= Needed(x, radix) && (Needed(x, radix) <= Capacity(stages) || Capacity(stages) == MANT_LEN)
  {
    hide Target, Shr;
    var m, need, cap := ToHFloat(x).mantissa, Needed(x, radix), Capacity(stages);
    if need < 0 {
      LeftShiftMissed(x, radix, stages);
      return;
    }
    ConvertShifts(x, radix, stages);
    TruncatedIsShift(x, radix);
    CapacityBounds(stages);
    if need > cap {
      ShrTwice(m, cap, need - cap);
      if cap == MANT_LEN {
        MantissaShifted(m);
        ShrZero(need - cap);
      } else {
        NotEmptied(m, cap);
        ShrBelow(Shr(m, cap), need - cap);
      }
    }
  }

  function Distance(a: int, b: int): nat {
    if a < b then b - a else a - b
  }

  ghost predicate Close(x: Fp32, radix: nat, stages: nat)
    requires stages > 0
  {
    Distance(Convert(x, radix, stages), Target(x, radix)) <= 1
  }

  lemma DistanceIs(x: Fp32, radix: nat, stages: nat)
    requires x.InRange() && Needed(x, radix) >= 0 && stages > 0
    ensures var m, need := ToHFloat(x).mantissa, Needed(x, radix);
      Distance(Convert(x, radix, stages), Target(x, radix)) ==
        Distance(Shr(m, Min(need, Capacity(stages))), Shr(m, need))
  {
    hide Target, Shr;
    ConvertShifts(x, radix, stages);
    TruncatedIsShift(x, radix);
    SignedApart(x.negative, Shr(ToHFloat(x).mantissa, Min(Needed(x, radix), Capacity(stages))),
      Shr(ToHFloat(x).mantissa, Needed(x, radix)));
  }

  lemma SignedApart(negative: bool, a: nat, b: nat)
    ensures Distance(Signed(negative, a), Signed(negative, b)) == Distance(a, b)
  {
  }

  lemma CloseEnough(x: Fp32, radix: nat, stages: nat)
    requires x.InRange() && Needed(x, radix) >= 0 && stages > 0 && Capacity(stages) >= 22
    ensures Close(x, radix, stages)
  {
    hide Target, Shr;
    var m, need, cap := ToHFloat(x).mantissa, Needed(x, radix), Capacity(stages);
    DistanceIs(x, radix, stages);
    CapacityBounds(stages);
    MantissaShifted(m);
    if need > cap {
      ShrTwice(m, cap, need - cap);
      ShrAtMost(Shr(m, cap), need - cap);
    }
  }

  lemma ShrAtMost(n: nat, k: nat)
    ensures 0 <= Shr(n, k) <= n
  {
    if n == 0 { ShrZero(k); } else if k > 0 { ShrBelow(n, k); }
  }

  // The largest fraction, needing one shift more than there is: at least 2 too much.
  lemma TooFar(stages: nat) returns (x: Fp32, radix: nat)
    requires stages > 0 && Capacity(stages) < 22
    ensures x.InRange() && Needed(x, radix) >= 0
    ensures Distance(Convert(x, radix, stages), Target(x, radix)) >= 2 && !Close(x, radix, stages)
  {
    hide Target, Shr;
    var cap := Capacity(stages);
    x, radix := Fp32(false, 148 - cap, 0x7F_FFFF), 0;
    var m := ToHFloat(x).mantissa;
    assert Needed(x, radix) == cap + 1;
    DistanceIs(x, radix, stages);
    ShrTwice(m, cap, 1);
    ShrTwice(m, cap, 21 - cap);
    MantissaShifted(m);
    assert Shr(m, 21) == 3;
    ShrAtMost(Shr(m, cap), 21 - cap);
    HalfOf(Shr(m, cap));
  }

  lemma HalfOf(n: nat)
    requires n >= 3
    ensures n - Shr(n, 1) >= 2
  {
    assert Shr(n, 1) == n / 2;
  }

  // within one, for every number that fits and for no other
  ghost predicate CloseIfFits(x: Fp32, radix: nat, stages: nat)
    requires stages > 0
  {
    x.InRange() ==> (Close(x, radix, stages) <==> Needed(x, radix) >= 0)
  }

  /** A conversion that needs a left shift is within one at no depth. The promise that every other one is
      holds for exactly the depths whose stages can together shift by 22 places or more. */
  lemma WithinOneIff(stages: nat)
    requires stages > 0
    ensures forall x: Fp32, radix: nat :: x.InRange() && Needed(x, radix) < 0 ==> !Close(x, radix, stages)
    ensures (forall x: Fp32, radix: nat :: CloseIfFits(x, radix, stages)) <==> Capacity(stages) >= 22
  {
    hide Capacity, Convert, Target;
    forall x: Fp32, radix: nat | x.InRange() && Needed(x, radix) < 0 ensures !Close(x, radix, stages) {
      LeftShiftMissed(x, radix, stages);
    }
    if Capacity(stages) >= 22 {
      forall x: Fp32, radix: nat ensures CloseIfFits(x, radix, stages) {
        if x.InRange() && Needed(x, radix) >= 0 {
          CloseEnough(x, radix, stages);
        }
      }
    } else {
      var x, radix := TooFar(stages);
      assert !CloseIfFits(x, radix, stages);
    }
  }

  /** Those depths are 1, 2, 11, 22 and 23; the default of 2 is one of them. */
  lemma GoodDepths(stages: nat)
    requires stages > 0
    ensures Capacity(stages) >= 22 <==> stages in {1, 2, 11, 22, 23}
  {
    if stages > 23 {
      assert MANT_LEN / stages == 0;
    }
  }

  /** Zeros, subnormals and numbers too large for the exponent field come out as zero. */
  lemma OutOfRangeIsZero(x: Fp32, radix: nat, stages: nat)
    requires x.biased == 0 || x.biased > 200
    requires stages > 0
    ensures Convert(x, radix, stages) == 0
  {
    EmptyStays(Input(ToHFloat(x), radix, true), MaxShift(stages), stages);
  }

  lemma {:induction false} EmptyStays(x: Input, maxShift: nat, i: nat)
    requires x.number.mantissa == 0
    ensures Stage(x, maxShift, i).pipe.mantissa == 0
  {
    if i > 0 {
      EmptyStays(x, maxShift, i - 1);
      var r := Stage(x, maxShift, i - 1);
      ShrZero(0);
      var missing := r.scale - r.pipe.exponent;
      ShrZero(if missing < 0 then 0 else if missing >= maxShift then maxShift else missing);
    }
  }
}
