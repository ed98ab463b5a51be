/** Rounding and packing to binary64 (softfloat/s_roundPackToF64.c, softfloat/s_normRoundPackToF64.c). */
module RoundPackF64 {
  import opened Powers
  import opened Rounding
  import opened Sticky
  import opened Words
  import opened RoundPack

  /** `packToF64UI`. */
  function PackToF64UI(sign: bool, exp: int, sig: int): Word64 {
    Wrap64((if sign then 0x8000_0000_0000_0000 else 0) + exp * 0x10_0000_0000_0000 + sig)
  }

  /** The encoding of a sign and a code. */
  function SignedF64(sign: bool, code: int): Word64 {
    PackToF64UI(sign, 0, code)
  }

  lemma {:induction false} PackedSumF64(sign: bool, exp: int, sig: int)
    ensures PackToF64UI(sign, exp, sig) == SignedF64(sign, exp * 0x10_0000_0000_0000 + sig)
  {
  }

  lemma {:induction false} ShapeOfF64()
    ensures Hidden(F64) == 0x10_0000_0000_0000 && InfCode(F64) == 0x7FF * 0x10_0000_0000_0000
  {
    ShlIsTimes(0x7FF, 52);
    Pow2Literals();
  }

  lemma {:induction false} PackF64(exp: nat, sig: nat)
    ensures Pack(F64, exp, sig) == exp * 0x10_0000_0000_0000 + sig
  {
    ShlIsTimes(exp, 52);
    Pow2Literals();
  }

  lemma {:induction false} UnitF64(sig: nat)
    ensures Shr(sig, 10) == sig / 0x400 && LowBits(sig, 10) == sig % 0x400 && Pow2(9) == 0x200
  {
    ShrIsDiv(sig, 10);
    assert Pow2(10) == 0x400;
  }

  lemma {:induction false} RepresentsF64(x: real, exp: int, sig: nat)
    requires sig < 0x8000_0000_0000_0000 && Faithful(9, sig, Scale(x, 10 - exp))
    ensures Represents(F64, x, exp, 9, sig) && (0x4000_0000_0000_0000 <= sig ==> Normalized(F64, 9, sig))
  {
    UnitF64(sig);
    ShapeOfF64();
  }

  function RoundIncrementF64(mode: Mode, sign: bool): nat {
    if mode == NearEven || mode == NearMaxMag then 0x200
    else if mode == (if sign then Min else Max) then 0x3FF
    else 0
  }

  /** The significand after adding the increment and clearing or setting its lowest bit. */
  function RoundedSigF64(mode: Mode, sign: bool, sig: nat): nat {
    var z := (sig + RoundIncrementF64(mode, sign)) / 0x400;
    if mode == Odd && sig % 0x400 != 0 then OrOne(z, true)
    else if mode == NearEven && sig % 0x400 == 0x200 then z - z % 2
    else z
  }

  lemma {:induction false} RoundedSigMeaningF64(mode: Mode, sign: bool, sig: nat)
    ensures RoundedSigF64(mode, sign, sig) == RoundedSig(mode, sign, sig, 9)
  {
    UnitF64(sig);
  }

  lemma {:induction false} CarryF64(mode: Mode, sign: bool, sig: nat)
    requires sig < 0x8000_0000_0000_0000
    ensures RoundedSigF64(mode, sign, sig) < 2 * 0x10_0000_0000_0000 <==>
      sig + RoundIncrementF64(mode, sign) < 0x8000_0000_0000_0000
    ensures RoundedSigF64(mode, sign, sig) <= 2 * 0x10_0000_0000_0000
    ensures 0x4000_0000_0000_0000 <= sig ==> 0x10_0000_0000_0000 <= RoundedSigF64(mode, sign, sig)
  {
  }

  lemma {:induction false} InfOrLargestF64(mode: Mode, sign: bool)
    ensures Wrap64(PackToF64UI(sign, 0x7FF, 0) - if RoundIncrementF64(mode, sign) == 0 then 1 else 0)
      == SignedF64(sign, 0x7FF * 0x10_0000_0000_0000 - if OverflowsToInf(mode, sign) then 0 else 1)
  {
  }

  /** A magnitude that rounds into or above the normal range. */
  lemma {:induction false} NormalF64(mode: Mode, tininess: Tininess, sign: bool, x: real, exp: nat,
      sig: nat)
    requires 0x4000_0000_0000_0000 <= sig < 0x8000_0000_0000_0000 && Faithful(9, sig, Scale(x, 10 - exp))
    ensures 0.0 <= x
    ensures var overflow := 0x7FD < exp ||
          (exp == 0x7FD && 0x8000_0000_0000_0000 <= sig + RoundIncrementF64(mode, sign));
      if overflow then
        Signals(F64, tininess, mode, sign, x) == {Overflow, Inexact} &&
        SignedF64(sign, Delivered(F64, mode, sign, x)) ==
          Wrap64(PackToF64UI(sign, 0x7FF, 0) - if RoundIncrementF64(mode, sign) == 0 then 1 else 0)
      else
        Signals(F64, tininess, mode, sign, x) == (if sig % 0x400 == 0 then {} else {Inexact}) &&
        Delivered(F64, mode, sign, x) == exp * 0x10_0000_0000_0000 + RoundedSigF64(mode, sign, sig)
  {
    RepresentsF64(x, exp, sig);
    CarryF64(mode, sign, sig);
    RoundedSigMeaningF64(mode, sign, sig);
    PackF64(exp, RoundedSigF64(mode, sign, sig));
    ShapeOfF64();
    UnitF64(sig);
    hide RoundedSigF64, RoundedSig, Represents, Normalized, Faithful, Delivered, Signals, Pack;
    if InfCode(F64) <= Pack(F64, exp, RoundedSig(mode, sign, sig, 9)) {
      Overflowing(F64, mode, tininess, sign, x, exp, 9, sig);
      InfOrLargestF64(mode, sign);
    } else {
      InRange(F64, mode, tininess, sign, x, exp, 9, sig);
    }
  }

  lemma {:induction false} BelowNormalF64(mode: Mode, tininess: Tininess, sign: bool, x: real,
      exp: int, sig: Word64, z: nat)
    requires exp < 0 && sig < 0x8000_0000_0000_0000 && z == Jam(sig, -exp)
    requires Faithful(9, sig, Scale(x, 10 - exp))
    ensures 0.0 <= x && Delivered(F64, mode, sign, x) == RoundedSigF64(mode, sign, z)
    ensures var isTiny := tininess == BeforeRounding || exp < -1 ||
          sig + RoundIncrementF64(mode, sign) < 0x8000_0000_0000_0000;
      Signals(F64, tininess, mode, sign, x) == if z % 0x400 == 0 then {}
        else if isTiny then {Underflow, Inexact} else {Inexact}
  {
    RepresentsF64(x, exp, sig);
    JamPlace(9, sig, -exp);
    CarryF64(mode, sign, sig);
    RoundedSigMeaningF64(mode, sign, sig);
    RoundedSigMeaningF64(mode, sign, z);
    UnitF64(z);
    ShapeOfF64();
    hide RoundedSigF64, RoundedSig, Represents, Faithful, Jam, ShiftedPlace, Delivered, Signals;
    BelowNormal(F64, mode, tininess, sign, x, exp, 9, sig, z);
  }

  method RoundPackToF64(st: FloatState, sign: bool, exp: int, sig: Word64, ghost x: real)
    returns (uiZ: Word64)
    requires -0x8000 <= exp < 0x8000 && sig < 0x8000_0000_0000_0000 && (0x4000_0000_0000_0000 <= sig || exp < 0)
    requires Faithful(9, sig, Scale(x, 10 - exp))
    modifies st`exceptionFlags
    ensures 0.0 <= x && uiZ == SignedF64(sign, Delivered(F64, st.roundingMode, sign, x))
    ensures st.exceptionFlags ==
      old(st.exceptionFlags) + Signals(F64, st.detectTininess, st.roundingMode, sign, x)
  {
    hide Delivered, Signals, Faithful, Jam, PackToF64UI, SignedF64, RoundedSigF64;
    var roundingMode := st.roundingMode;
    var roundNearEven := roundingMode == NearEven;
    var roundIncrement := 0x200;
    if !roundNearEven && roundingMode != NearMaxMag {
      roundIncrement := if roundingMode == (if sign then Min else Max) then 0x3FF else 0;
    }
    if 0x7FD <= exp || exp < 0 {
      if exp < 0 {
        var isTiny := st.detectTininess == BeforeRounding || exp < -1 ||
          sig + roundIncrement < 0x8000_0000_0000_0000;
        var sig' := ShiftRightJam64(sig, -exp);
        BelowNormalF64(roundingMode, st.detectTininess, sign, x, exp, sig, sig');
        if isTiny && sig' % 0x400 != 0 {
          st.RaiseFlags({Underflow});
        }
        uiZ := FinishF64(st, sign, 0, sig', roundIncrement);
        return;
      }
      NormalF64(roundingMode, st.detectTininess, sign, x, exp, sig);
      if 0x7FD < exp || 0x8000_0000_0000_0000 <= sig + roundIncrement {
        st.RaiseFlags({Overflow, Inexact});
        uiZ := Wrap64(PackToF64UI(sign, 0x7FF, 0) - if roundIncrement == 0 then 1 else 0);
        return;
      }
    }
    NormalF64(roundingMode, st.detectTininess, sign, x, exp, sig);
    uiZ := FinishF64(st, sign, exp, sig, roundIncrement);
  }

  /** The common ending of `softfloat_roundPackToF64`. */
  method FinishF64(st: FloatState, sign: bool, exp: nat, sig: Word64, roundIncrement: nat)
    returns (uiZ: Word64)
    requires roundIncrement == RoundIncrementF64(st.roundingMode, sign)
    requires exp == 0 || 0x400 <= sig
    modifies st`exceptionFlags
    ensures uiZ == SignedF64(sign, exp * 0x10_0000_0000_0000 + RoundedSigF64(st.roundingMode, sign, sig))
    ensures st.exceptionFlags ==
      old(st.exceptionFlags) + if sig % 0x400 == 0 then {} else {Inexact}
  {
    hide PackToF64UI, SignedF64;
    ghost var rounded := RoundedSigF64(st.roundingMode, sign, sig);
    var roundBits := sig % 0x400;
    var exp, sig := exp, (sig + roundIncrement) / 0x400;
    if roundBits != 0 {
      st.exceptionFlags := st.exceptionFlags + {Inexact};
      if st.roundingMode == Odd {
        sig := OrOne(sig, true);
        assert sig == rounded;
        PackedSumF64(sign, exp, sig);
        uiZ := PackToF64UI(sign, exp, sig);
        return;
      }
    }
    if roundBits == 0x200 && st.roundingMode == NearEven { sig := sig - sig % 2; }
    assert sig == rounded;
    if sig == 0 { exp := 0; }
    PackedSumF64(sign, exp, sig);
    uiZ := PackToF64UI(sign, exp, sig);
  }

  /** `softfloat_normRoundPackToF64`, for the exact magnitude sig * 2^(exp - 10) quanta. */
  method NormRoundPackToF64(st: FloatState, sign: bool, exp: int, sig: Word64, ghost x: real)
    returns (uiZ: Word64)
    requires -0x7000 <= exp <= 0x7FF && sig < 0x8000_0000_0000_0000 && x == Scale(sig as real, exp - 10)
    modifies st`exceptionFlags
    ensures 0.0 <= x && uiZ == SignedF64(sign, Delivered(F64, st.roundingMode, sign, x))
    ensures st.exceptionFlags ==
      old(st.exceptionFlags) + Signals(F64, st.detectTininess, st.roundingMode, sign, x)
  {
    hide Delivered, Signals, Faithful, PackToF64UI, SignedF64;
    var count := CountLeadingZeros64(sig);
    NormalizedShift(sig, count);
    var shiftDist := count - 1;
    var exp' := exp - shiftDist;
    if 10 <= shiftDist && 0 <= exp' < 0x7FD {
      var z := Shl(sig, shiftDist - 10);
      PackedExactly(st.roundingMode, st.detectTininess, sign, exp, sig, shiftDist, x);
      PackedSumF64(sign, exp', z);
      PackedSumF64(sign, 0, 0);
      uiZ := PackToF64UI(sign, if sig != 0 then exp' else 0, z);
    } else {
      ScaleScale(sig as real, exp - 10, 10 - exp');
      ScaleInt(sig, shiftDist);
      FaithfulExact(9, Shl(sig, shiftDist));
      uiZ := RoundPackToF64(st, sign, exp', Shl(sig, shiftDist), x);
    }
  }

  lemma {:induction false} NormalizedShift(sig: Word64, count: nat)
    requires LeadingZeros(sig, 64, count) && sig < 0x8000_0000_0000_0000
    ensures 0 < count && 0 <= Shl(sig, count - 1) < 0x8000_0000_0000_0000
    ensures if sig == 0 then count == 64 && Shl(sig, count - 1) == 0 else 0x4000_0000_0000_0000 <= Shl(sig, count - 1)
  {
    Pow2Literals();
    if sig == 0 {
      ShlOne(count - 1);
    } else {
      TopBitZero64(sig, count);
      ShiftedZeros(sig, 64, count, count - 1);
    }
  }

  lemma {:induction false} PackedExactly(mode: Mode, tininess: Tininess, sign: bool, exp: int,
      sig: Word64, shiftDist: int, x: real)
    requires 10 <= shiftDist && 0 <= exp - shiftDist < 0x7FD && x == Scale(sig as real, exp - 10)
    requires if sig == 0 then Shl(sig, shiftDist) == 0
      else 0x4000_0000_0000_0000 <= Shl(sig, shiftDist) < 0x8000_0000_0000_0000
    ensures var z := Shl(sig, shiftDist - 10);
      0 <= z && 0.0 <= x && Signals(F64, tininess, mode, sign, x) == {} &&
      Delivered(F64, mode, sign, x) == (if sig != 0 then exp - shiftDist else 0) * 0x10_0000_0000_0000 + z &&
      (sig == 0 ==> z == 0)
  {
    var z := Shl(sig, shiftDist - 10);
    ShiftedUnits(sig, shiftDist - 10);
    ScaleInt(sig, shiftDist - 10);
    ScaleScale(sig as real, shiftDist - 10, exp - shiftDist);
    ExactCode(mode, tininess, sign, exp - shiftDist, z);
    hide Delivered, Signals;
    ScaleInt(z, exp - shiftDist);
  }

  lemma {:induction false} ShiftedUnits(sig: Word64, k: nat)
    ensures Shl(sig, k) * 0x400 == Shl(sig, k + 10)
  {
    ShlShl(sig, k, 10);
    ShlIsTimes(Shl(sig, k), 10);
    assert Pow2(10) == 0x400;
  }

  lemma {:induction false} ExactCode(mode: Mode, tininess: Tininess, sign: bool, exp: nat, z: nat)
    requires exp < 0x7FD && (z == 0 || 0x10_0000_0000_0000 <= z < 2 * 0x10_0000_0000_0000)
    ensures 0 <= Shl(z, exp) && Signals(F64, tininess, mode, sign, Shl(z, exp) as real) == {}
    ensures Delivered(F64, mode, sign, Shl(z, exp) as real) == (if z != 0 then exp else 0) * 0x10_0000_0000_0000 + z
  {
    ShapeOfF64();
    if z == 0 {
      ShlOne(exp);
      PackF64(0, 0);
      ExactDelivered(F64, mode, tininess, sign, 0, 0);
    } else {
      PackF64(exp, z);
      ExactDelivered(F64, mode, tininess, sign, exp, z);
    }
  }
}
