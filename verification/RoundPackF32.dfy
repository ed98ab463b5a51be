/** Rounding and packing to binary32 (softfloat/s_roundPackToF32.c, softfloat/s_normRoundPackToF32.c). */
module RoundPackF32 {
  import opened Powers
  import opened Rounding
  import opened Sticky
  import opened Words
  import opened RoundPack

  /** `packToF32UI`. */
  function PackToF32UI(sign: bool, exp: int, sig: int): Word32 {
    Wrap32((if sign then 0x8000_0000 else 0) + exp * 0x80_0000 + sig)
  }

  /** The encoding of a sign and a code. */
  function SignedF32(sign: bool, code: int): Word32 {
    PackToF32UI(sign, 0, code)
  }

  lemma {:induction false} PackedSumF32(sign: bool, exp: int, sig: int)
    ensures PackToF32UI(sign, exp, sig) == SignedF32(sign, exp * 0x80_0000 + sig)
  {
  }

  lemma {:induction false} ShapeOfF32()
    ensures Hidden(F32) == 0x80_0000 && InfCode(F32) == 0xFF * 0x80_0000
  {
    ShlIsTimes(0xFF, 23);
    Pow2Literals();
  }

  lemma {:induction false} PackF32(exp: nat, sig: nat)
    ensures Pack(F32, exp, sig) == exp * 0x80_0000 + sig
  {
    ShlIsTimes(exp, 23);
    Pow2Literals();
  }

  lemma {:induction false} UnitF32(sig: nat)
    ensures Shr(sig, 7) == sig / 0x80 && LowBits(sig, 7) == sig % 0x80 && Pow2(6) == 0x40
  {
    ShrIsDiv(sig, 7);
    assert Pow2(7) == 0x80;
  }

  lemma {:induction false} RepresentsF32(x: real, exp: int, sig: nat)
    requires sig < 0x8000_0000 && Faithful(6, sig, Scale(x, 7 - exp))
    ensures Represents(F32, x, exp, 6, sig) && (0x4000_0000 <= sig ==> Normalized(F32, 6, sig))
  {
    UnitF32(sig);
    ShapeOfF32();
  }

  function RoundIncrementF32(mode: Mode, sign: bool): nat {
    if mode == NearEven || mode == NearMaxMag then 0x40
    else if mode == (if sign then Min else Max) then 0x7F
    else 0
  }

  /** The significand after adding the increment and clearing or setting its lowest bit. */
  function RoundedSigF32(mode: Mode, sign: bool, sig: nat): nat {
    var z := (sig + RoundIncrementF32(mode, sign)) / 0x80;
    if mode == Odd && sig % 0x80 != 0 then OrOne(z, true)
    else if mode == NearEven && sig % 0x80 == 0x40 then z - z % 2
    else z
  }

  lemma {:induction false} RoundedSigMeaningF32(mode: Mode, sign: bool, sig: nat)
    ensures RoundedSigF32(mode, sign, sig) == RoundedSig(mode, sign, sig, 6)
  {
    UnitF32(sig);
  }

  lemma {:induction false} CarryF32(mode: Mode, sign: bool, sig: nat)
    requires sig < 0x8000_0000
    ensures RoundedSigF32(mode, sign, sig) < 2 * 0x80_0000 <==> sig + RoundIncrementF32(mode, sign) < 0x8000_0000
    ensures RoundedSigF32(mode, sign, sig) <= 2 * 0x80_0000
    ensures 0x4000_0000 <= sig ==> 0x80_0000 <= RoundedSigF32(mode, sign, sig)
  {
  }

  lemma {:induction false} InfOrLargestF32(mode: Mode, sign: bool)
    ensures Wrap32(PackToF32UI(sign, 0xFF, 0) - if RoundIncrementF32(mode, sign) == 0 then 1 else 0)
      == SignedF32(sign, 0xFF * 0x80_0000 - if OverflowsToInf(mode, sign) then 0 else 1)
  {
  }

  /** A magnitude that rounds into or above the normal range. */
  lemma {:induction false} NormalF32(mode: Mode, tininess: Tininess, sign: bool, x: real, exp: nat,
      sig: nat)
    requires 0x4000_0000 <= sig < 0x8000_0000 && Faithful(6, sig, Scale(x, 7 - exp))
    ensures 0.0 <= x
    ensures var overflow := 0xFD < exp ||
          (exp == 0xFD && 0x8000_0000 <= sig + RoundIncrementF32(mode, sign));
      if overflow then
        Signals(F32, tininess, mode, sign, x) == {Overflow, Inexact} &&
        SignedF32(sign, Delivered(F32, mode, sign, x)) ==
          Wrap32(PackToF32UI(sign, 0xFF, 0) - if RoundIncrementF32(mode, sign) == 0 then 1 else 0)
      else
        Signals(F32, tininess, mode, sign, x) == (if sig % 0x80 == 0 then {} else {Inexact}) &&
        Delivered(F32, mode, sign, x) == exp * 0x80_0000 + RoundedSigF32(mode, sign, sig)
  {
    RepresentsF32(x, exp, sig);
    CarryF32(mode, sign, sig);
    RoundedSigMeaningF32(mode, sign, sig);
    PackF32(exp, RoundedSigF32(mode, sign, sig));
    ShapeOfF32();
    UnitF32(sig);
    hide RoundedSigF32, RoundedSig, Represents, Normalized, Faithful, Delivered, Signals, Pack;
    if InfCode(F32) <= Pack(F32, exp, RoundedSig(mode, sign, sig, 6)) {
      Overflowing(F32, mode, tininess, sign, x, exp, 6, sig);
      InfOrLargestF32(mode, sign);
    } else {
      InRange(F32, mode, tininess, sign, x, exp, 6, sig);
    }
  }

  lemma {:induction false} BelowNormalF32(mode: Mode, tininess: Tininess, sign: bool, x: real,
      exp: int, sig: Word32, z: nat)
    requires exp < 0 && sig < 0x8000_0000 && z == Jam(sig, -exp)
    requires Faithful(6, sig, Scale(x, 7 - exp))
    ensures 0.0 <= x && Delivered(F32, mode, sign, x) == RoundedSigF32(mode, sign, z)
    ensures var isTiny := tininess == BeforeRounding || exp < -1 ||
          sig + RoundIncrementF32(mode, sign) < 0x8000_0000;
      Signals(F32, tininess, mode, sign, x) == if z % 0x80 == 0 then {}
        else if isTiny then {Underflow, Inexact} else {Inexact}
  {
    RepresentsF32(x, exp, sig);
    JamPlace(6, sig, -exp);
    CarryF32(mode, sign, sig);
    RoundedSigMeaningF32(mode, sign, sig);
    RoundedSigMeaningF32(mode, sign, z);
    UnitF32(z);
    ShapeOfF32();
    hide RoundedSigF32, RoundedSig, Represents, Faithful, Jam, ShiftedPlace, Delivered, Signals;
    BelowNormal(F32, mode, tininess, sign, x, exp, 6, sig, z);
  }

  method RoundPackToF32(st: FloatState, sign: bool, exp: int, sig: Word32, ghost x: real)
    returns (uiZ: Word32)
    requires -0x8000 <= exp < 0x8000 && sig < 0x8000_0000 && (0x4000_0000 <= sig || exp < 0)
    requires Faithful(6, sig, Scale(x, 7 - exp))
    modifies st`exceptionFlags
    ensures 0.0 <= x && uiZ == SignedF32(sign, Delivered(F32, st.roundingMode, sign, x))
    ensures st.exceptionFlags ==
      old(st.exceptionFlags) + Signals(F32, st.detectTininess, st.roundingMode, sign, x)
  {
    hide Delivered, Signals, Faithful, Jam, PackToF32UI, SignedF32, RoundedSigF32;
    var roundingMode := st.roundingMode;
    var roundNearEven := roundingMode == NearEven;
    var roundIncrement := 0x40;
    if !roundNearEven && roundingMode != NearMaxMag {
      roundIncrement := if roundingMode == (if sign then Min else Max) then 0x7F else 0;
    }
    if 0xFD <= exp || exp < 0 {
      if exp < 0 {
        var isTiny := st.detectTininess == BeforeRounding || exp < -1 ||
          sig + roundIncrement < 0x8000_0000;
        var sig' := ShiftRightJam32(sig, -exp);
        BelowNormalF32(roundingMode, st.detectTininess, sign, x, exp, sig, sig');
        if isTiny && sig' % 0x80 != 0 {
          st.RaiseFlags({Underflow});
        }
        uiZ := FinishF32(st, sign, 0, sig', roundIncrement);
        return;
      }
      NormalF32(roundingMode, st.detectTininess, sign, x, exp, sig);
      if 0xFD < exp || 0x8000_0000 <= sig + roundIncrement {
        st.RaiseFlags({Overflow, Inexact});
        uiZ := Wrap32(PackToF32UI(sign, 0xFF, 0) - if roundIncrement == 0 then 1 else 0);
        return;
      }
    }
    NormalF32(roundingMode, st.detectTininess, sign, x, exp, sig);
    uiZ := FinishF32(st, sign, exp, sig, roundIncrement);
  }

  /** The common ending of `softfloat_roundPackToF32`. */
  method FinishF32(st: FloatState, sign: bool, exp: nat, sig: Word32, roundIncrement: nat)
    returns (uiZ: Word32)
    requires roundIncrement == RoundIncrementF32(st.roundingMode, sign)
    requires exp == 0 || 0x80 <= sig
    modifies st`exceptionFlags
    ensures uiZ == SignedF32(sign, exp * 0x80_0000 + RoundedSigF32(st.roundingMode, sign, sig))
    ensures st.exceptionFlags ==
      old(st.exceptionFlags) + if sig % 0x80 == 0 then {} else {Inexact}
  {
    hide PackToF32UI, SignedF32;
    ghost var rounded := RoundedSigF32(st.roundingMode, sign, sig);
    var roundBits := sig % 0x80;
    var exp, sig := exp, (sig + roundIncrement) / 0x80;
    if roundBits != 0 {
      st.exceptionFlags := st.exceptionFlags + {Inexact};
      if st.roundingMode == Odd {
        sig := OrOne(sig, true);
        assert sig == rounded;
        PackedSumF32(sign, exp, sig);
        uiZ := PackToF32UI(sign, exp, sig);
        return;
      }
    }
    if roundBits == 0x40 && st.roundingMode == NearEven { sig := sig - sig % 2; }
    assert sig == rounded;
    if sig == 0 { exp := 0; }
    PackedSumF32(sign, exp, sig);
    uiZ := PackToF32UI(sign, exp, sig);
  }

  /** `softfloat_normRoundPackToF32`, for the exact magnitude sig * 2^(exp - 7) quanta. */
  method NormRoundPackToF32(st: FloatState, sign: bool, exp: int, sig: Word32, ghost x: real)
    returns (uiZ: Word32)
    requires -0x7000 <= exp <= 0xFF && sig < 0x8000_0000 && x == Scale(sig as real, exp - 7)
    modifies st`exceptionFlags
    ensures 0.0 <= x && uiZ == SignedF32(sign, Delivered(F32, st.roundingMode, sign, x))
    ensures st.exceptionFlags ==
      old(st.exceptionFlags) + Signals(F32, st.detectTininess, st.roundingMode, sign, x)
  {
    hide Delivered, Signals, Faithful, PackToF32UI, SignedF32;
    var count := CountLeadingZeros32(sig);
    NormalizedShift(sig, count);
    var shiftDist := count - 1;
    var exp' := exp - shiftDist;
    if 7 <= shiftDist && 0 <= exp' < 0xFD {
      var z := Shl(sig, shiftDist - 7);
      PackedExactly(st.roundingMode, st.detectTininess, sign, exp, sig, shiftDist, x);
      PackedSumF32(sign, exp', z);
      PackedSumF32(sign, 0, 0);
      uiZ := PackToF32UI(sign, if sig != 0 then exp' else 0, z);
    } else {
      ScaleScale(sig as real, exp - 7, 7 - exp');
      ScaleInt(sig, shiftDist);
      FaithfulExact(6, Shl(sig, shiftDist));
      uiZ := RoundPackToF32(st, sign, exp', Shl(sig, shiftDist), x);
    }
  }

  lemma {:induction false} NormalizedShift(sig: Word32, count: nat)
    requires LeadingZeros(sig, 32, count) && sig < 0x8000_0000
    ensures 0 < count && 0 <= Shl(sig, count - 1) < 0x8000_0000
    ensures if sig == 0 then count == 32 && Shl(sig, count - 1) == 0 else 0x4000_0000 <= Shl(sig, count - 1)
  {
    Pow2Literals();
    if sig == 0 {
      ShlOne(count - 1);
    } else {
      TopBitZero32(sig, count);
      ShiftedZeros(sig, 32, count, count - 1);
    }
  }

  lemma {:induction false} PackedExactly(mode: Mode, tininess: Tininess, sign: bool, exp: int,
      sig: Word32, shiftDist: int, x: real)
    requires 7 <= shiftDist && 0 <= exp - shiftDist < 0xFD && x == Scale(sig as real, exp - 7)
    requires if sig == 0 then Shl(sig, shiftDist) == 0 else 0x4000_0000 <= Shl(sig, shiftDist) < 0x8000_0000
    ensures var z := Shl(sig, shiftDist - 7);
      0 <= z && 0.0 <= x && Signals(F32, tininess, mode, sign, x) == {} &&
      Delivered(F32, mode, sign, x) == (if sig != 0 then exp - shiftDist else 0) * 0x80_0000 + z &&
      (sig == 0 ==> z == 0)
  {
    var z := Shl(sig, shiftDist - 7);
    ShiftedUnits(sig, shiftDist - 7);
    ScaleInt(sig, shiftDist - 7);
    ScaleScale(sig as real, shiftDist - 7, exp - shiftDist);
    ExactCode(mode, tininess, sign, exp - shiftDist, z);
    hide Delivered, Signals;
    ScaleInt(z, exp - shiftDist);
  }

  lemma {:induction false} ShiftedUnits(sig: Word32, k: nat)
    ensures Shl(sig, k) * 0x80 == Shl(sig, k + 7)
  {
    ShlShl(sig, k, 7);
    ShlIsTimes(Shl(sig, k), 7);
    assert Pow2(7) == 0x80;
  }

  lemma {:induction false} ExactCode(mode: Mode, tininess: Tininess, sign: bool, exp: nat, z: nat)
    requires exp < 0xFD && (z == 0 || 0x80_0000 <= z < 2 * 0x80_0000)
    ensures 0 <= Shl(z, exp) && Signals(F32, tininess, mode, sign, Shl(z, exp) as real) == {}
    ensures Delivered(F32, mode, sign, Shl(z, exp) as real) == (if z != 0 then exp else 0) * 0x80_0000 + z
  {
    ShapeOfF32();
    if z == 0 {
      ShlOne(exp);
      PackF32(0, 0);
      ExactDelivered(F32, mode, tininess, sign, 0, 0);
    } else {
      PackF32(exp, z);
      ExactDelivered(F32, mode, tininess, sign, exp, z);
    }
  }
}
