/** Rounding and packing to binary128 (softfloat/s_roundPackToF128.c, softfloat/s_normRoundPackToF128.c). */
module RoundPackF128 {
  import opened Powers
  import opened Rounding
  import opened Sticky
  import opened Words
  import opened RoundPack

  /** `packToF128UI64`. */
  function PackToF128UI64(sign: bool, exp: int, sig64: int): Word64 {
    Wrap64((if sign then 0x8000_0000_0000_0000 else 0) + exp * 0x1_0000_0000_0000 + sig64)
  }

  /** The encoding of a sign and a code. */
  function SignedF128(sign: bool, code: nat): nat {
    (if sign then 0x8000_0000_0000_0000_0000_0000_0000_0000 else 0) + code
  }

  lemma {:induction false} ShapeOfF128()
    ensures Hidden(F128) == 0x1_0000_0000_0000_0000_0000_0000_0000
    ensures InfCode(F128) == 0x7FFF * 0x1_0000_0000_0000_0000_0000_0000_0000
  {
    ShlIsTimes(0x7FFF, 112);
    Pow2Wide();
  }

  lemma {:induction false} PackF128(exp: nat, sig: nat)
    ensures Pack(F128, exp, sig) == exp * 0x1_0000_0000_0000_0000_0000_0000_0000 + sig
  {
    ShlIsTimes(exp, 112);
    Pow2Wide();
  }

  lemma {:induction false} UnitF128(s: U128Extra)
    ensures Shr(s.Val(), 64) == s.v.Val() && LowBits(s.Val(), 64) == s.extra
    ensures Pow2(63) == 0x8000_0000_0000_0000
  {
    Shl64Times(s.v.Val());
    Pow2Literals();
    ShrUnique(s.Val(), 64, s.v.Val(), s.extra);
  }

  predicate SigInRange(sig: nat) {
    sig < 0x2_0000_0000_0000_0000_0000_0000_0000
  }

  predicate NormalSig(sig: nat) {
    0x1_0000_0000_0000_0000_0000_0000_0000 <= sig < 0x2_0000_0000_0000_0000_0000_0000_0000
  }

  lemma {:induction false} RepresentsF128(x: real, exp: int, s: U128Extra)
    requires SigInRange(s.v.Val()) && Faithful(63, s.Val(), Scale(x, 64 - exp))
    ensures Represents(F128, x, exp, 63, s.Val())
    ensures NormalSig(s.v.Val()) ==> Normalized(F128, 63, s.Val())
  {
    UnitF128(s);
    ShapeOfF128();
  }

  predicate DoIncrement(mode: Mode, sign: bool, extra: Word64) {
    if mode == NearEven || mode == NearMaxMag then 0x8000_0000_0000_0000 <= extra
    else mode == (if sign then Min else Max) && extra != 0
  }

  /** The significand after rounding: incremented, with its lowest bit cleared on a tie, or made
      odd. */
  function RoundedSigF128(mode: Mode, sign: bool, s: U128Extra): nat {
    var sig := s.v.Val();
    if mode == Odd && s.extra != 0 then OrOne(sig, true)
    else if !DoIncrement(mode, sign, s.extra) then sig
    else if mode == NearEven && s.extra == 0x8000_0000_0000_0000 then sig + 1 - (sig + 1) % 2
    else sig + 1
  }

  lemma {:induction false} RoundedSigMeaningF128(mode: Mode, sign: bool, s: U128Extra)
    ensures RoundedSigF128(mode, sign, s) == RoundedSig(mode, sign, s.Val(), 63)
  {
    UnitF128(s);
    RoundsUpF128(mode, sign, s.v.Val(), s);
  }

  lemma {:induction false} RoundsUpF128(mode: Mode, sign: bool, sig: nat, s: U128Extra)
    requires sig == s.v.Val()
    ensures RoundedSigF128(mode, sign, s) ==
      if RoundsUp(mode, sign, sig, s.extra, 0x8000_0000_0000_0000) then sig + 1 else sig
  {
    assert (sig + 1) % 2 == 1 - sig % 2;
  }

  /** All ones and an increment carry out of the significand. */
  predicate Carries(mode: Mode, sign: bool, s: U128Extra) {
    s.v.Val() == 0x1_FFFF_FFFF_FFFF_FFFF_FFFF_FFFF_FFFF && DoIncrement(mode, sign, s.extra)
  }

  lemma {:induction false} CarryF128(mode: Mode, sign: bool, s: U128Extra)
    requires SigInRange(s.v.Val())
    ensures SigInRange(RoundedSigF128(mode, sign, s)) <==> !Carries(mode, sign, s)
    ensures s.v.Val() <= RoundedSigF128(mode, sign, s) <= s.v.Val() + 1
  {
  }

  /** A magnitude that rounds into or above the normal range. */
  lemma {:induction false} NormalF128(mode: Mode, tininess: Tininess, sign: bool, x: real,
      exp: nat, s: U128Extra)
    requires NormalSig(s.v.Val()) && Faithful(63, s.Val(), Scale(x, 64 - exp))
    ensures 0.0 <= x
    ensures
      if 0x7FFD < exp || (exp == 0x7FFD && Carries(mode, sign, s)) then
        Signals(F128, tininess, mode, sign, x) == {Overflow, Inexact} &&
        Delivered(F128, mode, sign, x) == 0x7FFF * 0x1_0000_0000_0000_0000_0000_0000_0000 -
          if OverflowsToInf(mode, sign) then 0 else 1
      else
        Signals(F128, tininess, mode, sign, x) == (if s.extra == 0 then {} else {Inexact}) &&
        Delivered(F128, mode, sign, x) ==
          exp * 0x1_0000_0000_0000_0000_0000_0000_0000 + RoundedSigF128(mode, sign, s)
  {
    RepresentsF128(x, exp, s);
    CarryF128(mode, sign, s);
    RoundedSigMeaningF128(mode, sign, s);
    PackF128(exp, RoundedSigF128(mode, sign, s));
    ShapeOfF128();
    UnitF128(s);
    hide RoundedSigF128, RoundedSig, Represents, Normalized, Faithful, Delivered, Signals, Pack;
    if InfCode(F128) <= Pack(F128, exp, RoundedSig(mode, sign, s.Val(), 63)) {
      Overflowing(F128, mode, tininess, sign, x, exp, 63, s.Val());
    } else {
      InRange(F128, mode, tininess, sign, x, exp, 63, s.Val());
    }
  }

  lemma {:induction false} BelowNormalF128(mode: Mode, tininess: Tininess, sign: bool, x: real,
      exp: int, s: U128Extra, z: U128Extra)
    requires exp < 0 && SigInRange(s.v.Val()) && ShiftedPlace(63, z.Val(), s.Val(), -exp)
    requires Faithful(63, s.Val(), Scale(x, 64 - exp))
    ensures SigInRange(z.v.Val())
    ensures 0.0 <= x && Delivered(F128, mode, sign, x) == RoundedSigF128(mode, sign, z)
    ensures var isTiny := tininess == BeforeRounding || exp < -1 || !Carries(mode, sign, s);
      Signals(F128, tininess, mode, sign, x) == if z.extra == 0 then {}
        else if isTiny then {Underflow, Inexact} else {Inexact}
  {
    RepresentsF128(x, exp, s);
    CarryF128(mode, sign, s);
    RoundedSigMeaningF128(mode, sign, s);
    RoundedSigMeaningF128(mode, sign, z);
    UnitF128(z);
    ShapeOfF128();
    hide RoundedSigF128, RoundedSig, Represents, Faithful, ShiftedPlace, Delivered, Signals;
    BelowNormal(F128, mode, tininess, sign, x, exp, 63, s.Val(), z.Val());
  }

  method RoundPackToF128(st: FloatState, sign: bool, exp: int, sig: U128, sigExtra: Word64,
      ghost x: real) returns (uiZ: U128)
    requires -0x8000_0000 <= exp < 0x8000_0000
    requires NormalSig(sig.Val()) || (exp < 0 && SigInRange(sig.Val()))
    requires Faithful(63, U128Extra(sig, sigExtra).Val(), Scale(x, 64 - exp))
    modifies st`exceptionFlags
    ensures 0.0 <= x && uiZ.Val() == SignedF128(sign, Delivered(F128, st.roundingMode, sign, x))
    ensures st.exceptionFlags ==
      old(st.exceptionFlags) + Signals(F128, st.detectTininess, st.roundingMode, sign, x)
  {
    hide Delivered, Signals, Faithful, SignedF128, RoundedSigF128, ShiftedPlace;
    var roundingMode := st.roundingMode;
    var roundNearEven := roundingMode == NearEven;
    var doIncrement := 0x8000_0000_0000_0000 <= sigExtra;
    if !roundNearEven && roundingMode != NearMaxMag {
      doIncrement := roundingMode == (if sign then Min else Max) && sigExtra != 0;
    }
    if 0x7FFD <= exp || exp < 0 {
      if exp < 0 {
        var isTiny := st.detectTininess == BeforeRounding || exp < -1 || !doIncrement ||
          Lt128(sig, U128(0x0001_FFFF_FFFF_FFFF, 0xFFFF_FFFF_FFFF_FFFF));
        var z := ShiftRightJam128Extra(sig, sigExtra, -exp);
        BelowNormalF128(roundingMode, st.detectTininess, sign, x, exp, U128Extra(sig, sigExtra), z);
        if isTiny && z.extra != 0 {
          st.RaiseFlags({Underflow});
        }
        uiZ := FinishF128(st, sign, 0, z.v, z.extra);
        return;
      }
      NormalF128(roundingMode, st.detectTininess, sign, x, exp, U128Extra(sig, sigExtra));
      if 0x7FFD < exp ||
        (exp == 0x7FFD && Eq128(sig, U128(0x0001_FFFF_FFFF_FFFF, 0xFFFF_FFFF_FFFF_FFFF)) && doIncrement)
      {
        st.RaiseFlags({Overflow, Inexact});
        if roundNearEven || roundingMode == NearMaxMag || roundingMode == (if sign then Min else Max) {
          uiZ := U128(PackToF128UI64(sign, 0x7FFF, 0), 0);
        } else {
          uiZ := U128(PackToF128UI64(sign, 0x7FFE, 0x0000_FFFF_FFFF_FFFF), 0xFFFF_FFFF_FFFF_FFFF);
        }
        InfOrLargestF128(sign);
        return;
      }
    }
    NormalF128(roundingMode, st.detectTininess, sign, x, exp, U128Extra(sig, sigExtra));
    uiZ := FinishF128(st, sign, exp, sig, sigExtra);
  }

  /** The common ending of `softfloat_roundPackToF128`. */
  method FinishF128(st: FloatState, sign: bool, exp: nat, sig: U128, sigExtra: Word64)
    returns (uiZ: U128)
    requires SigInRange(sig.Val()) && (exp == 0 || (exp <= 0x7FFD && 0 < sig.Val()))
    modifies st`exceptionFlags
    ensures uiZ.Val() == SignedF128(sign, exp * 0x1_0000_0000_0000_0000_0000_0000_0000 +
      RoundedSigF128(st.roundingMode, sign, U128Extra(sig, sigExtra)))
    ensures st.exceptionFlags == old(st.exceptionFlags) + if sigExtra == 0 then {} else {Inexact}
  {
    hide SignedF128, RoundedSigF128;
    var exp, sig := exp, sig;
    ghost var s := U128Extra(sig, sigExtra);
    if sigExtra != 0 {
      st.exceptionFlags := st.exceptionFlags + {Inexact};
      if st.roundingMode == Odd {
        sig := U128(sig.v64, OrOne64(sig.v0, true));
        uiZ := U128(PackToF128UI64(sign, exp, sig.v64), sig.v0);
        OddSig(sign, s, sig);
        PackedValF128(sign, exp, sig);
        return;
      }
    }
    var doIncrement := DoIncrement(st.roundingMode, sign, sigExtra);
    if doIncrement {
      var sig128 := Add128(sig, U128(0, 1));
      var tie := sigExtra == 0x8000_0000_0000_0000 && st.roundingMode == NearEven;
      sig := U128(sig128.v64, if tie then sig128.v0 - sig128.v0 % 2 else sig128.v0);
      IncrementedSig(st.roundingMode, sign, s, sig128, sig);
    } else {
      if sig == U128(0, 0) { exp := 0; }
      KeptSig(st.roundingMode, sign, s);
    }
    uiZ := U128(PackToF128UI64(sign, exp, sig.v64), sig.v0);
    PackedValF128(sign, exp, sig);
  }

  lemma {:induction false} OddSig(sign: bool, s: U128Extra, sig: U128)
    requires s.extra != 0 && sig == U128(s.v.v64, OrOne64(s.v.v0, true))
    ensures sig.Val() == RoundedSigF128(Odd, sign, s) <= s.v.Val() + 1
  {
  }

  lemma {:induction false} TieSig(w: U128)
    ensures U128(w.v64, w.v0 - w.v0 % 2).Val() == w.Val() - w.Val() % 2
  {
    LowestBit(w);
  }

  lemma {:induction false} IncrementedIs(mode: Mode, sign: bool, s: U128Extra)
    requires DoIncrement(mode, sign, s.extra)
    ensures var v := s.v.Val() + 1;
      RoundedSigF128(mode, sign, s) == if s.extra == 0x8000_0000_0000_0000 && mode == NearEven then v - v % 2 else v
  {
  }

  lemma {:induction false} IncrementedSig(mode: Mode, sign: bool, s: U128Extra, sig128: U128, sig: U128)
    requires DoIncrement(mode, sign, s.extra) && sig128.Val() == s.v.Val() + 1
    requires var tie := s.extra == 0x8000_0000_0000_0000 && mode == NearEven;
      sig == U128(sig128.v64, if tie then sig128.v0 - sig128.v0 % 2 else sig128.v0)
    ensures sig.Val() == RoundedSigF128(mode, sign, s) <= s.v.Val() + 1
  {
    TieSig(sig128);
    IncrementedIs(mode, sign, s);
    hide DoIncrement, RoundedSigF128;
  }

  lemma {:induction false} KeptSig(mode: Mode, sign: bool, s: U128Extra)
    requires !DoIncrement(mode, sign, s.extra) && !(mode == Odd && s.extra != 0)
    ensures s.v.Val() == RoundedSigF128(mode, sign, s)
  {
  }

  lemma {:induction false} PackedValF128(sign: bool, exp: nat, sig: U128)
    requires exp <= 0x7FFD && sig.Val() <= 0x2_0000_0000_0000_0000_0000_0000_0000
    ensures U128(PackToF128UI64(sign, exp, sig.v64), sig.v0).Val() ==
      SignedF128(sign, exp * 0x1_0000_0000_0000_0000_0000_0000_0000 + sig.Val())
  {
  }

  lemma {:induction false} InfOrLargestF128(sign: bool)
    ensures U128(PackToF128UI64(sign, 0x7FFF, 0), 0).Val() ==
      SignedF128(sign, 0x7FFF * 0x1_0000_0000_0000_0000_0000_0000_0000)
    ensures U128(PackToF128UI64(sign, 0x7FFE, 0x0000_FFFF_FFFF_FFFF), 0xFFFF_FFFF_FFFF_FFFF).Val() ==
      SignedF128(sign, 0x7FFF * 0x1_0000_0000_0000_0000_0000_0000_0000 - 1)
  {
  }

  /** `softfloat_normRoundPackToF128`, for a magnitude of sig * 2^exp quanta, either exact or with a
      sticky lowest bit and at least two bits to spare. */
  method NormRoundPackToF128(st: FloatState, sign: bool, exp: int, sig: U128, ghost x: real)
    returns (uiZ: U128)
    requires -0x1000_0000 <= exp <= 0x7FFF && Represented(sig, exp, x)
    modifies st`exceptionFlags
    ensures 0.0 <= x && uiZ.Val() == SignedF128(sign, Delivered(F128, st.roundingMode, sign, x))
    ensures st.exceptionFlags ==
      old(st.exceptionFlags) + Signals(F128, st.detectTininess, st.roundingMode, sign, x)
  {
    hide *;
    var exp, sig := exp, sig;
    if sig.v64 == 0 {
      LowWordOnly(sig, exp, x);
      RaisedWord(sig.v0, exp, x);
      exp := exp - 64;
      sig := U128(sig.v0, 0);
    }
    var count := CountLeadingZeros64(sig.v64);
    ZeroCount(sig.v64, count);
    var shiftDist: int := count as int - 15;
    exp := exp - shiftDist;
    if 0 <= shiftDist {
      ShiftedUp(sig, exp + shiftDist, x, count);
      NothingShiftedOut(sig.v64, count);
      ShlByZero(sig.Val());
      if shiftDist != 0 {
        sig := ShortShiftLeft128(sig, shiftDist);
      }
      if 0 <= exp < 0x7FFD {
        PackedExactly(st.roundingMode, st.detectTininess, sign, exp, sig, x);
        uiZ := U128(PackToF128UI64(sign, if sig != U128(0, 0) then exp else 0, sig.v64), sig.v0);
        return;
      }
      ZeroStaysSmall(sig, exp, count);
      uiZ := RoundPackToF128(st, sign, exp, sig, 0, x);
    } else {
      var sig128Extra := ShortShiftRightJam128Extra(sig, 0, -shiftDist);
      ShiftedDown(sig, exp + shiftDist, x, count, sig128Extra);
      uiZ := RoundPackToF128(st, sign, exp, sig128Extra.v, sig128Extra.extra, x);
    }
  }

  ghost predicate Represented(sig: U128, exp: int, x: real) {
    x == Scale(sig.Val() as real, exp) ||
    (Faithful(1, sig.Val(), Scale(x, -exp)) && 0x8_0000_0000_0000_0000_0000_0000_0000 <= sig.Val())
  }

  lemma {:induction false} LowWordOnly(sig: U128, exp: int, x: real)
    requires sig.v64 == 0 && Represented(sig, exp, x)
    ensures x == Scale(sig.v0 as real, exp)
  {
  }

  lemma {:induction false} RaisedWord(v0: Word64, exp: int, x: real)
    requires x == Scale(v0 as real, exp)
    ensures Represented(U128(v0, 0), exp - 64, x)
  {
    RaisedScale(v0, exp);
  }

  lemma {:induction false} RaisedScale(v0: Word64, exp: int)
    ensures Scale(v0 as real, exp) == Scale((v0 * 0x1_0000_0000_0000_0000) as real, exp - 64)
  {
    Shl64Times(v0);
    ScaleInt(v0, 64);
    ScaleScale(v0 as real, 64, exp - 64);
  }

  lemma {:induction false} ZeroCount(v64: Word64, count: nat)
    requires LeadingZeros(v64, 64, count)
    ensures count <= 64 && (v64 == 0 ==> count == 64)
  {
  }

  lemma {:induction false} ZeroStaysSmall(sig: U128, exp: int, count: nat)
    ensures SigInRange(0)
    ensures U128Extra(sig, 0).Val() == sig.Val() * 0x1_0000_0000_0000_0000
  {
  }

  lemma {:induction false} ShlByZero(n: int)
    ensures Shl(n, 0) == n
  {
  }

  lemma {:induction false} ShiftedUp(sig: U128, exp: int, x: real, count: nat)
    requires LeadingZeros(sig.v64, 64, count) && 15 <= count && Represented(sig, exp, x)
    requires sig.v64 == 0 ==> sig.v0 == 0
    ensures var z, exp' := Shl(sig.Val(), count - 15), exp - (count - 15);
      0 <= z && (if sig.v64 == 0 then z == 0 else NormalSig(z)) && x == Scale(z as real, exp') &&
      Faithful(63, z * 0x1_0000_0000_0000_0000, Scale(x, 64 - exp'))
  {
    if sig.v64 == 0 { ShlOne(count - 15); } else { ShiftedUpRange(sig, count); }
    assert x == Scale(sig.Val() as real, exp);
    hide Faithful, Represented;
    var z, exp' := Shl(sig.Val(), count - 15), exp - (count - 15);
    ScaleInt(sig.Val(), count - 15);
    ScaleScale(sig.Val() as real, count - 15, exp');
    ScaleScale(z as real, exp', 64 - exp');
    ScaleInt(z, 64);
    Shl64Times(z);
    FaithfulExact(63, z * 0x1_0000_0000_0000_0000);
  }

  lemma {:induction false} ShiftedUpRange(sig: U128, count: nat)
    requires LeadingZeros(sig.v64, 64, count) && 15 <= count && sig.v64 != 0
    ensures NormalSig(sig.Val()) || sig.Val() < 0x1_0000_0000_0000_0000_0000_0000_0000
    ensures 0 <= Shl(sig.Val(), count - 15) && NormalSig(Shl(sig.Val(), count - 15))
  {
    WideZeros(sig, count);
    NormalizingShift(sig.Val(), count);
  }

  lemma {:induction false} NormalizingShift(sig: nat, count: nat)
    requires LeadingZeros(sig, 128, count) && 15 <= count && sig != 0
    ensures SigInRange(sig)
    ensures 0 <= Shl(sig, count - 15) && NormalSig(Shl(sig, count - 15))
  {
    ShiftedZeros(sig, 128, count, count - 15);
    Pow2Increases(128 - count, 113);
    Pow2Wide();
  }

  lemma {:induction false} NothingShiftedOut(v64: Word64, count: nat)
    requires LeadingZeros(v64, 64, count) && 15 <= count
    ensures Shr64(v64, 64 - (count - 15)) == 0
  {
    ShlOne(79 - count);
    Pow2Increases(64 - count, 79 - count);
    ShrUnique(v64, 79 - count, 0, v64);
  }

  lemma {:induction false} PackedExactly(mode: Mode, tininess: Tininess, sign: bool, exp: int,
      sig: U128, x: real)
    requires 0 <= exp < 0x7FFD && (sig.Val() == 0 || NormalSig(sig.Val()))
    requires x == Scale(sig.Val() as real, exp)
    ensures 0.0 <= x && Signals(F128, tininess, mode, sign, x) == {}
    ensures U128(PackToF128UI64(sign, if sig != U128(0, 0) then exp else 0, sig.v64), sig.v0).Val() ==
      SignedF128(sign, Delivered(F128, mode, sign, x))
  {
    hide SignedF128, PackToF128UI64, Delivered, Signals;
    ExactMagnitude(mode, tininess, sign, exp, sig.Val(), x);
    PackedValF128(sign, if sig != U128(0, 0) then exp else 0, sig);
  }

  lemma {:induction false} ExactMagnitude(mode: Mode, tininess: Tininess, sign: bool, exp: nat,
      sig: nat, x: real)
    requires exp < 0x7FFD && (sig == 0 || NormalSig(sig)) && x == Scale(sig as real, exp)
    ensures 0.0 <= x && Signals(F128, tininess, mode, sign, x) == {}
    ensures Delivered(F128, mode, sign, x) ==
      (if sig != 0 then exp else 0) * 0x1_0000_0000_0000_0000_0000_0000_0000 + sig
  {
    hide Delivered, Signals;
    ScaleInt(sig, exp);
    ExactCode(mode, tininess, sign, exp, sig);
  }

  lemma {:induction false} ExactCode(mode: Mode, tininess: Tininess, sign: bool, exp: nat, sig: nat)
    requires exp < 0x7FFD && (sig == 0 || NormalSig(sig))
    ensures 0 <= Shl(sig, exp)
    ensures Signals(F128, tininess, mode, sign, Shl(sig, exp) as real) == {}
    ensures Delivered(F128, mode, sign, Shl(sig, exp) as real) ==
      (if sig != 0 then exp else 0) * 0x1_0000_0000_0000_0000_0000_0000_0000 + sig
  {
    ShapeOfF128();
    if sig == 0 {
      ShlOne(exp);
      PackF128(0, 0);
      ExactDelivered(F128, mode, tininess, sign, 0, 0);
    } else {
      PackF128(exp, sig);
      ExactDelivered(F128, mode, tininess, sign, exp, sig);
    }
  }

  lemma {:induction false} ShiftedDown(sig: U128, exp: int, x: real, count: nat, z: U128Extra)
    requires LeadingZeros(sig.v64, 64, count) && count < 15 && Represented(sig, exp, x)
    requires 0 <= Shl(sig.Val(), 49 + count) && z.Val() == OrOne(Shl(sig.Val(), 49 + count), false)
    ensures NormalSig(z.v.Val()) && Faithful(63, z.Val(), Scale(x, 64 - (exp - (count - 15))))
  {
    if !(x == Scale(sig.Val() as real, exp)) { SpareBits(sig, count); }
    ShiftedFaithfully(sig.Val(), exp, x, 49 + count);
    hide *;
    OrOneNot(Shl(sig.Val(), 49 + count));
    DownRange(sig, count, z);
    assert 64 - (exp - (count - 15)) == 49 + count - exp;
  }

  lemma {:induction false} OrOneNot(n: nat)
    ensures OrOne(n, false) == n
  {
  }

  lemma {:induction false} DownRange(sig: U128, count: nat, z: U128Extra)
    requires LeadingZeros(sig.v64, 64, count) && count < 15
    requires z.Val() == Shl(sig.Val(), 49 + count)
    ensures NormalSig(z.v.Val())
  {
    ZeroCount(sig.v64, count);
    WideZeros(sig, count);
    ShiftedZeros(sig.Val(), 128, count, 49 + count);
    Pow2Wide();
  }

  lemma {:induction false} SpareBits(sig: U128, count: nat)
    requires LeadingZeros(sig.v64, 64, count) && count < 15
    requires 0x8_0000_0000_0000_0000_0000_0000_0000 <= sig.Val()
    ensures 49 + count <= 62
  {
    if count == 14 {
      WideZeros(sig, count);
      Pow2Wide();
      assert Pow2(114) == 2 * Pow2(113);
    }
  }

  lemma {:induction false} ShiftedFaithfully(sig: nat, exp: int, x: real, k: nat)
    requires x == Scale(sig as real, exp) || (Faithful(1, sig, Scale(x, -exp)) && k <= 62)
    ensures Faithful(63, Shl(sig, k), Scale(x, k - exp))
  {
    if x == Scale(sig as real, exp) {
      ScaleScale(sig as real, exp, k - exp);
      ScaleInt(sig, k);
      FaithfulExact(63, Shl(sig, k));
    } else {
      FaithfulScaleUp(1, sig, Scale(x, -exp), k);
      ScaleScale(x, -exp, k);
      FaithfulCoarser(1 + k, 63, Shl(sig, k), Scale(x, k - exp));
    }
  }
}
