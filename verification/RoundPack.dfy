/** Rounding and packing (softfloat/s_roundPackToF32.c, s_roundPackToF64.c, s_roundPackToF128.c),
    proved against the IEEE 754 specification in module Rounding. */
module RoundPack {
  import opened Powers
  import opened Rounding
  import opened Operations
  import opened Sticky
  import opened Words

  /** SoftFloat's global state: the rounding controls and the sticky exception flags. */
  class FloatState {
    var roundingMode: Mode
    var detectTininess: Tininess
    var exceptionFlags: set<Flag>

    constructor ()
      ensures roundingMode == NearEven && detectTininess == AfterRounding && exceptionFlags == {}
    {
      roundingMode, detectTininess, exceptionFlags := NearEven, AfterRounding, {};
    }

    function Env(): (env: Environment)
      reads `roundingMode, `detectTininess
      ensures env.mode == roundingMode && env.tininess == detectTininess
    {
      Environment(roundingMode, detectTininess)
    }

    /** `softfloat_raiseFlags`. */
    method RaiseFlags(flags: set<Flag>)
      modifies this`exceptionFlags
      ensures exceptionFlags == old(exceptionFlags) + flags
    {
      exceptionFlags := exceptionFlags + flags;
    }
  }

  lemma {:induction false} UnionWithNone(flags: set<Flag>)
    ensures flags + {} == flags
  {
  }

  /** Whether a significand `sig` with the bits `bits` below its last place, half a unit of which is
      `half`, rounds to the next one up. */
  predicate RoundsUp(mode: Mode, sign: bool, sig: nat, bits: nat, half: nat) {
    match mode
    case NearEven => half < bits || (bits == half && sig % 2 == 1)
    case NearMaxMag => half <= bits
    case MinMag => false
    case Min => sign && bits != 0
    case Max => !sign && bits != 0
    case Odd => bits != 0 && sig % 2 == 0
  }

  /** The integer `s`, half a unit in the last place of which is 2^g, rounded to that place. */
  function RoundedSig(mode: Mode, sign: bool, s: nat, g: nat): nat {
    var sig := Shr(s, g + 1);
    if RoundsUp(mode, sign, sig, LowBits(s, g + 1), Pow2(g)) then sig + 1 else sig
  }

  /** What a rounding routine is given: an exponent and an integer `s`, half a unit in the last
      place of which is 2^g, faithful at that spacing to the exact magnitude `x`. */
  ghost predicate Represents(f: Format, x: real, exp: int, g: nat, s: nat) {
    Shr(s, g + 1) < 2 * Hidden(f) && Faithful(g, s, Scale(x, g + 1 - exp))
  }

  ghost predicate Normalized(f: Format, g: nat, s: nat) {
    Hidden(f) <= Shr(s, g + 1)
  }

  lemma {:induction false} Located(f: Format, x: real, exp: nat, g: nat, s: nat)
    requires Represents(f, x, exp, g, s) && (exp == 0 || Normalized(f, g, s))
    ensures 0.0 <= x && FloorCode(f, x) == Pack(f, exp, Shr(s, g + 1))
    ensures var c, bits := Pack(f, exp, Shr(s, g + 1)), LowBits(s, g + 1);
      var below, above := x - Quanta(f, c) as real, Quanta(f, c + 1) as real - x;
      (bits == 0 <==> below == 0.0) &&
      (bits < Pow2(g) <==> below < above) && (bits == Pow2(g) <==> below == above)
  {
    ShrSplits(s, g + 1);
    FloorFromFaithful(f, x, exp, g, Shr(s, g + 1), LowBits(s, g + 1));
  }

  lemma {:induction false} RoundedIs(f: Format, mode: Mode, sign: bool, x: real, exp: nat, g: nat, s: nat)
    requires 0 < f.fracBits && Represents(f, x, exp, g, s) && (exp == 0 || Normalized(f, g, s))
    ensures 0.0 <= x && Rounded(f, mode, sign, x) == Pack(f, exp, RoundedSig(mode, sign, s, g))
  {
    var sig, bits := Shr(s, g + 1), LowBits(s, g + 1);
    var c := Pack(f, exp, sig);
    Located(f, x, exp, g, s);
    RoundedAtFloor(f, mode, sign, x, c);
    PackedParity(f, exp, sig);
    RoundedSigAt(mode, sign, s, g);
    hide *;
    PickIs(mode, sign, c, x - Quanta(f, c) as real, Quanta(f, c + 1) as real - x, sig, bits, Pow2(g));
  }

  lemma {:induction false} RoundedAtFloor(f: Format, mode: Mode, sign: bool, x: real, c: nat)
    requires 0.0 <= x && FloorCode(f, x) == c
    ensures 0.0 <= x - Quanta(f, c) as real
    ensures Rounded(f, mode, sign, x) ==
      Pick(mode, sign, c, x - Quanta(f, c) as real, Quanta(f, c + 1) as real - x)
  {
  }

  lemma {:induction false} PackedParity(f: Format, exp: nat, sig: nat)
    requires 0 < f.fracBits
    ensures Pack(f, exp, sig) % 2 == sig % 2 && Pack(f, exp, sig + 1) == Pack(f, exp, sig) + 1
  {
    EvenShl(exp, f.fracBits);
  }

  lemma {:induction false} RoundedSigAt(mode: Mode, sign: bool, s: nat, g: nat)
    ensures var sig, bits := Shr(s, g + 1), LowBits(s, g + 1);
      RoundedSig(mode, sign, s, g) == if RoundsUp(mode, sign, sig, bits, Pow2(g)) then sig + 1 else sig
  {
  }

  lemma {:induction false} PickIs(mode: Mode, sign: bool, c: nat, below: real, above: real,
      sig: nat, bits: nat, half: nat)
    requires (bits == 0 <==> below == 0.0) && 0.0 <= below && c % 2 == sig % 2
    requires (bits < half <==> below < above) && (bits == half <==> below == above)
    ensures Pick(mode, sign, c, below, above) ==
      if RoundsUp(mode, sign, sig, bits, half) then c + 1 else c
  {
  }

  /** Results whose rounding stays in the normal range. */
  lemma {:induction false} InRange(f: Format, mode: Mode, tininess: Tininess, sign: bool, x: real,
      exp: nat, g: nat, s: nat)
    requires 0 < f.fracBits && Represents(f, x, exp, g, s) && Normalized(f, g, s)
    requires Pack(f, exp, RoundedSig(mode, sign, s, g)) < InfCode(f)
    ensures 0.0 <= x && Delivered(f, mode, sign, x) == Pack(f, exp, RoundedSig(mode, sign, s, g))
    ensures Signals(f, tininess, mode, sign, x) == if LowBits(s, g + 1) == 0 then {} else {Inexact}
  {
    RoundedIs(f, mode, sign, x, exp, g, s);
    Located(f, x, exp, g, s);
    hide Represents, RoundedSig, Normalized;
    QuantaOfPacked(f, exp, Shr(s, g + 1));
    ShlNonneg(Shr(s, g + 1), exp);
    InexactIff(f, mode, sign, x);
  }

  lemma {:induction false} Overflowing(f: Format, mode: Mode, tininess: Tininess, sign: bool,
      x: real, exp: nat, g: nat, s: nat)
    requires 0 < f.fracBits && Represents(f, x, exp, g, s) && Normalized(f, g, s)
    requires InfCode(f) <= Pack(f, exp, RoundedSig(mode, sign, s, g))
    ensures 0.0 <= x && Signals(f, tininess, mode, sign, x) == {Overflow, Inexact}
    ensures Delivered(f, mode, sign, x) == InfCode(f) - if OverflowsToInf(mode, sign) then 0 else 1
  {
    RoundedIs(f, mode, sign, x, exp, g, s);
  }

  /** A negative exponent is made up for by shifting right, with the lost bits jammed.  Whether the
      result is tiny after rounding shows in the significand before the shift. */
  lemma {:induction false} BelowNormal(f: Format, mode: Mode, tininess: Tininess, sign: bool,
      x: real, exp: int, g: nat, s: nat, t: nat)
    requires 0 < f.fracBits && 1 < f.maxExp && exp < 0
    requires Represents(f, x, exp, g, s) && ShiftedPlace(g, t, s, -exp)
    ensures Shr(t, g + 1) < Hidden(f)
    ensures 0.0 <= x && Delivered(f, mode, sign, x) == RoundedSig(mode, sign, t, g)
    ensures var isTiny := tininess == BeforeRounding || exp < -1 ||
          RoundedSig(mode, sign, s, g) < 2 * Hidden(f);
      Signals(f, tininess, mode, sign, x) == if LowBits(t, g + 1) == 0 then {}
        else if isTiny then {Underflow, Inexact} else {Inexact}
  {
    ShiftedFaithful(g, t, s, Scale(x, g + 1 - exp), -exp);
    ScaleScale(x, g + 1 - exp, exp);
    ShiftedBound(g, t, s, -exp, Hidden(f));
    assert Represents(f, x, 0, g, t);
    hide Represents, ShiftedPlace;
    BelowNormalRounds(f, mode, tininess, sign, x, g, t);
    TinyIff(f, mode, tininess, sign, x, exp, g, s, t);
  }

  lemma {:induction false} ShiftedBound(g: nat, t: nat, s: nat, d: nat, h: nat)
    requires 0 < d && ShiftedPlace(g, t, s, d) && Shr(s, g + 1) < 2 * h
    ensures Shr(t, g + 1) < h && (1 < d ==> 2 * Shr(t, g + 1) < h)
  {
    ShrShr(t, g, 1);
    ShrShr(s, g + d, 1);
    ShrShr(s, g + 1, d);
    var u := Shr(s, g + 1);
    ShrAtMost(u / 2, d - 1);
    if 1 < d { ShrAtMost(u / 2 / 2, d - 2); }
  }

  lemma {:induction false} BelowNormalRounds(f: Format, mode: Mode, tininess: Tininess, sign: bool,
      x: real, g: nat, t: nat)
    requires 0 < f.fracBits && 1 < f.maxExp
    requires Represents(f, x, 0, g, t) && Shr(t, g + 1) < Hidden(f)
    ensures 0.0 <= x < (Shr(t, g + 1) + 1) as real
    ensures Delivered(f, mode, sign, x) == RoundedSig(mode, sign, t, g)
    ensures Signals(f, tininess, mode, sign, x) == if LowBits(t, g + 1) == 0 then {}
        else if Tiny(f, tininess, mode, sign, x) then {Underflow, Inexact} else {Inexact}
  {
    RoundedIs(f, mode, sign, x, 0, g, t);
    Located(f, x, 0, g, t);
    SmallPack(f, Shr(t, g + 1));
    hide Represents, RoundsUp, Tiny, Quanta, Pack, Rounded;
    InexactIff(f, mode, sign, x);
  }

  lemma {:induction false} SmallPack(f: Format, sig: nat)
    requires sig < Hidden(f) && 1 < f.maxExp
    ensures Pack(f, 0, sig) == sig && Pack(f, 0, sig + 1) == sig + 1 && Hidden(f) < InfCode(f)
    ensures Quanta(f, sig) == sig && Quanta(f, sig + 1) == sig + 1
  {
    QuantaOfPacked(f, 0, sig);
    QuantaOfPacked(f, 0, sig + 1);
    ShlOne(f.fracBits);
    ShlOrder(1, f.maxExp, f.fracBits);
  }

  lemma {:induction false} TinyIff(f: Format, mode: Mode, tininess: Tininess, sign: bool, x: real,
      exp: int, g: nat, s: nat, t: nat)
    requires 0 < f.fracBits && exp < 0 && Represents(f, x, exp, g, s)
    requires 0.0 <= x < (Shr(t, g + 1) + 1) as real
    requires Shr(t, g + 1) < Hidden(f) && (exp < -1 ==> 2 * Shr(t, g + 1) < Hidden(f))
    ensures Tiny(f, tininess, mode, sign, x) == (tininess == BeforeRounding || exp < -1 ||
      RoundedSig(mode, sign, s, g) < 2 * Hidden(f))
  {
    if exp < -1 {
      EvenHidden(f);
      TinyFarBelow(f, tininess, mode, sign, x);
    } else {
      ScaleScale(x, 1, g + 1);
      assert Scale(x, 1) == 2.0 * x;
      RoundedIs(f, mode, sign, 2.0 * x, 0, g, s);
      ShlOne(f.fracBits);
    }
  }

  lemma {:induction false} EvenHidden(f: Format)
    requires 0 < f.fracBits
    ensures Hidden(f) % 2 == 0
  {
  }

  lemma {:induction false} TinyFarBelow(f: Format, tininess: Tininess, mode: Mode, sign: bool, x: real)
    requires 0 < f.fracBits && 0.0 <= x && 2.0 * x <= Hidden(f) as real
    ensures Tiny(f, tininess, mode, sign, x)
  {
    QuantaOfPacked(f, 0, Hidden(f));
    ShlOne(f.fracBits);
    ExactIsKept(f, mode, sign, Hidden(f));
    RoundedMonotone(f, mode, sign, 2.0 * x, Hidden(f) as real);
  }

  /** A representable value is delivered as it is, without signals. */
  lemma {:induction false} ExactDelivered(f: Format, mode: Mode, tininess: Tininess, sign: bool,
      exp: nat, sig: nat)
    requires sig < 2 * Hidden(f) && (Hidden(f) <= sig || exp == 0) && Pack(f, exp, sig) < InfCode(f)
    ensures 0 <= Shl(sig, exp)
    ensures Delivered(f, mode, sign, Shl(sig, exp) as real) == Pack(f, exp, sig)
    ensures Signals(f, tininess, mode, sign, Shl(sig, exp) as real) == {}
  {
    QuantaOfPacked(f, exp, sig);
    ExactIsKept(f, mode, sign, Pack(f, exp, sig));
  }
}
