/** Rounding a binary64 number to an integral value (softfloat/f64_roundToInt.c). */
module RoundToIntF64 {
  import opened Powers
  import opened Rounding
  import opened Operations
  import opened Words
  import opened RoundPack
  import opened RoundPackF64
  import opened EncodingF64
  import opened Integral

  lemma {:induction false} IntegersInF64()
    ensures HasIntegers(F64) && UnitExp(F64) == 0x3FF
    ensures Pack(F64, 0x3FF, 0) == 0x3FF * 0x10_0000_0000_0000 && Pack(F64, 0x3FE, 0) == 0x3FE * 0x10_0000_0000_0000
  {
    PackF64(0x3FF, 0);
    PackF64(0x3FE, 0);
  }

  /** Exponent fields below that of 1.0, by the switch over the modes. */
  lemma {:induction false} BelowOne(a: Word64, mode: Mode, exact: bool, up: bool)
    requires ExpF64UI(a) <= 0x3FE && DatumF64(a).code != 0
    requires up == match mode
      case NearEven => ExpF64UI(a) == 0x3FE && FracF64UI(a) != 0
      case NearMaxMag => ExpF64UI(a) == 0x3FE
      case MinMag => false
      case Min => SignF64UI(a)
      case Max => !SignF64UI(a)
      case Odd => false
    ensures RoundToIntegral(F64, mode, exact, DatumF64(a)) == Outcome(Datum(SignF64UI(a),
      if up then 0x3FF * 0x10_0000_0000_0000 else 0), if exact then {Inexact} else {})
  {
    FieldsF64(a);
    IntegersInF64();
    hide Pack, RoundToIntegral, IntegerOf, ExpF64UI, FracF64UI;
    IntegralSmall(F64, mode, exact, DatumF64(a));
  }

  lemma {:induction false} SignWords(sign: bool)
    ensures PackToF64UI(sign, 0, 0) != 0 <==> sign
    ensures PackToF64UI(sign, 0, 0) == SignedF64(sign, 0)
    ensures PackToF64UI(sign, 0x3FF, 0) == SignedF64(sign, 0x3FF * 0x10_0000_0000_0000)
  {
  }

  lemma {:induction false} MagnitudeBits(a: Word64)
    ensures DatumF64(a).code == a % 0x8000_0000_0000_0000
  {
  }

  lemma {:induction false} BelowOneReturned(a: Word64, mode: Mode, exact: bool, up: bool, uiZ: Word64,
      was: set<Flag>, now: set<Flag>)
    requires ExpF64UI(a) <= 0x3FE && DatumF64(a).code != 0
    requires up == match mode
      case NearEven => ExpF64UI(a) == 0x3FE && FracF64UI(a) != 0
      case NearMaxMag => ExpF64UI(a) == 0x3FE
      case MinMag => false
      case Min => SignF64UI(a)
      case Max => !SignF64UI(a)
      case Odd => false
    requires uiZ == PackToF64UI(SignF64UI(a), if up then 0x3FF else 0, 0)
    requires now == was + if exact then {Inexact} else {}
    ensures ReturnsF64(uiZ, was, now, RoundToIntegral(F64, mode, exact, DatumF64(a)))
  {
    BelowOne(a, mode, exact, up);
    SignWords(SignF64UI(a));
    hide RoundToIntegral, PackToF64UI, SignedF64, ExpF64UI, FracF64UI;
  }

  lemma {:induction false} ZeroIsIntegral(a: Word64, mode: Mode, exact: bool)
    requires a % 0x8000_0000_0000_0000 == 0
    ensures RoundToIntegral(F64, mode, exact, DatumF64(a)) == Outcome(DatumF64(a), {})
  {
    IntegersInF64();
    hide Pack, RoundToIntegral, IntegerOf;
    IntegralSmall(F64, mode, exact, DatumF64(a));
  }

  lemma {:induction false} NaNIsPropagated(a: Word64, mode: Mode, exact: bool)
    requires IsNaN(F64, DatumF64(a))
    ensures RoundToIntegral(F64, mode, exact, DatumF64(a)) == Propagated(F64, DatumF64(a), DatumF64(0))
  {
    hide IsNaN, CanonicalNaN;
  }

  /** Numbers without a fraction, and infinities. */
  lemma {:induction false} Stays(a: Word64, mode: Mode, exact: bool)
    requires 0x433 <= ExpF64UI(a) && !IsNaN(F64, DatumF64(a))
    ensures RoundToIntegral(F64, mode, exact, DatumF64(a)) == Outcome(DatumF64(a), {})
  {
    ClassF64(a);
    hide DatumF64, IsFinite, ExpF64UI, IntegerOf, Magnitude, CodeOf;
    if ExpF64UI(a) < 0x7FF {
      NoFraction(a, mode, exact);
    }
  }

  lemma {:induction false} NoFraction(a: Word64, mode: Mode, exact: bool)
    requires 0x433 <= ExpF64UI(a) < 0x7FF
    ensures RoundToIntegral(F64, mode, exact, DatumF64(a)) == Outcome(DatumF64(a), {})
  {
    var exp, sig := ExpF64UI(a), 0x10_0000_0000_0000 + FracF64UI(a);
    FieldsF64(a);
    ClassF64(a);
    ShapeOfF64();
    PackF64(exp - 1, sig);
    hide Pack, Hidden, RoundToIntegral, ExpF64UI, FracF64UI, IsFinite, InfCode;
    IntegralLarge(F64, mode, exact, DatumF64(a), exp - 1, sig);
  }

  lemma {:induction false} WordFields(a: Word64)
    ensures a == (if SignF64UI(a) then 0x8000_0000_0000_0000 else 0) + ExpF64UI(a) * 0x10_0000_0000_0000 + FracF64UI(a)
  {
  }

  /** The packed word is its significand below an exponent and a sign. */
  lemma {:induction false} PackedWord(a: Word64, k: nat)
    requires 0x3FF <= ExpF64UI(a) < 0x433 && k == 0x433 - ExpF64UI(a)
    ensures var exp, sig := ExpF64UI(a) - 1, 0x10_0000_0000_0000 + FracF64UI(a);
      var q := exp + if SignF64UI(a) then 0x800 else 0;
      a == Shl(q, 52) + sig && 0 < k <= 52 && (k == 52 ==> q % 2 == 0) &&
      IsFinite(F64, DatumF64(a)) && Fractional(F64, DatumF64(a), exp, sig, k) && DatumF64(a).sign == SignF64UI(a)
  {
    FieldsF64(a);
    ClassF64(a);
    WordFields(a);
    FractionalWord(DatumF64(a), ExpF64UI(a) - 1, FracF64UI(a), k);
    hide ExpF64UI, FracF64UI, DatumF64, SignF64UI, IsFinite, Fractional;
    ShlIsTimes(ExpF64UI(a) - 1 + if SignF64UI(a) then 0x800 else 0, 52);
    Pow2Literals();
    hide *;
  }

  lemma {:induction false} FractionalWord(d: Datum, exp: nat, frac: nat, k: nat)
    requires 0x3FE <= exp < 0x432 && k == 0x432 - exp && frac < 0x10_0000_0000_0000
    requires d.code == (exp + 1) * 0x10_0000_0000_0000 + frac
    ensures Fractional(F64, d, exp, 0x10_0000_0000_0000 + frac, k)
  {
    ShapeOfF64();
    PackF64(exp, 0x10_0000_0000_0000 + frac);
    hide Pack, Hidden, InfCode;
  }

  lemma {:induction false} SignedSum(sign: bool, exp: nat, s: nat)
    requires 0x3FE <= exp < 0x432 && s <= 0x20_0000_0000_0000
    ensures var code := Pack(F64, exp, s);
      Shl(exp + if sign then 0x800 else 0, 52) + s == SignedF64(sign, code)
  {
    PackF64(exp, s);
    ShlIsTimes(exp + if sign then 0x800 else 0, 52);
    Pow2Literals();
    hide Pack, Pow2, Shl;
  }

  /** What the increment and the masks leave of the packed word. */
  lemma {:induction false} WithFraction(a: Word64, mode: Mode, exact: bool, k: nat)
    requires 0x3FF <= ExpF64UI(a) < 0x433 && k == 0x433 - ExpF64UI(a)
    ensures var z, outcome := RoundedWord(mode, SignF64UI(a), a, k), RoundToIntegral(F64, mode, exact, DatumF64(a));
      z == SignedF64(outcome.datum.sign, outcome.datum.code) &&
      outcome.flags == if exact && z != a then {Inexact} else {}
  {
    var sign, exp, sig := SignF64UI(a), ExpF64UI(a) - 1, 0x10_0000_0000_0000 + FracF64UI(a);
    var q := exp + if sign then 0x800 else 0;
    PackedWord(a, k);
    ShapeOfF64();
    hide *;
    var t := RoundedEncoding(F64, mode, exact, DatumF64(a), q, exp, sig, k);
    SignedSum(sign, exp, t);
  }

  lemma {:induction false} Masks(a: Word64, k: nat)
    requires 0x3FF <= ExpF64UI(a) < 0x433 && k == 0x433 - ExpF64UI(a)
    ensures Shl64(1, k) == Pow2(k) == 2 * Pow2(k - 1) && a + Pow2(k) < 0x1_0000_0000_0000_0000
  {
    FieldsF64(a);
    assert Pow2(k) == 2 * Pow2(k - 1);
    Pow2Literals();
    Pow2Increases(k, 52);
    ShlOne(k);
    hide Shl, Pow2;
  }

  /** `z` encodes the number `a` rounded to an integer, and differs from it just when that is inexact. */
  ghost predicate EncodesIntegral(a: Word64, mode: Mode, z: Word64) {
    var outcome := RoundToIntegral(F64, mode, true, DatumF64(a));
    z == SignedF64(outcome.datum.sign, outcome.datum.code) && outcome.flags == if z != a then {Inexact} else {}
  }

  lemma {:induction false} WordEncodes(a: Word64, mode: Mode, k: nat, z: Word64)
    requires 0x3FF <= ExpF64UI(a) < 0x433 && k == 0x433 - ExpF64UI(a)
    requires z == RoundedWord(mode, SignF64UI(a), a, k)
    ensures EncodesIntegral(a, mode, z)
  {
    hide RoundedWord, ExpF64UI, DatumF64, SignedF64, RoundToIntegral;
    WithFraction(a, mode, true, k);
  }

  lemma {:induction false} FractionReturned(a: Word64, mode: Mode, exact: bool, uiZ: Word64, was: set<Flag>,
      now: set<Flag>)
    requires 0x3FF <= ExpF64UI(a) < 0x433 && EncodesIntegral(a, mode, uiZ)
    requires now == if exact && uiZ != a then was + {Inexact} else was
    ensures ReturnsF64(uiZ, was, now, RoundToIntegral(F64, mode, exact, DatumF64(a)))
  {
    ClassF64(a);
    hide ExpF64UI, DatumF64, SignedF64, IntegerOf, CodeOf, Magnitude, InfCode;
  }

  /** The packed word with the bits of its fraction, the lowest `k`, rounded off: lines 89 to 103.
      `x & (2^k - 1)` is `LowBits(x, k)`. */
  method RoundOffFraction(a: Word64, roundingMode: Mode, k: nat) returns (uiZ: Word64)
    requires 0x3FF <= ExpF64UI(a) < 0x433 && k == 0x433 - ExpF64UI(a)
    ensures EncodesIntegral(a, roundingMode, uiZ)
  {
    hide LowBits, ClearedBelow, WithoutBit, ExpF64UI, Shl64, Pow2, EncodesIntegral, SignF64UI;
    var lastBitMask := Shl64(1, k);
    Masks(a, k);
    var roundBitsMask := lastBitMask - 1;
    uiZ := a;
    if roundingMode == NearMaxMag {
      uiZ := Wrap64(uiZ + lastBitMask / 2);
    } else if roundingMode == NearEven {
      uiZ := Wrap64(uiZ + lastBitMask / 2);
      if LowBits(uiZ, k) == 0 {
        uiZ := WithoutBit(uiZ, k);
      }
    } else if roundingMode == (if SignF64UI(uiZ) then Min else Max) {
      uiZ := Wrap64(uiZ + roundBitsMask);
    }
    uiZ := ClearedBelow(uiZ, k);
    WordEncodes(a, roundingMode, k, uiZ);
  }

  /** `f64_roundToInt`. */
  method F64RoundToInt(st: FloatState, a: Word64, roundingMode: Mode, exact: bool) returns (uiZ: Word64)
    modifies st`exceptionFlags
    ensures ReturnsF64(uiZ, old(st.exceptionFlags), st.exceptionFlags,
      RoundToIntegral(F64, roundingMode, exact, DatumF64(a)))
  {
    hide *;
    var exp := ExpF64UI(a);
    FieldsF64(a);
    ClassF64(a);
    MagnitudeBits(a);
    SignWords(SignF64UI(a));
    UnionWithNone(st.exceptionFlags);
    if exp <= 0x3FE {
      if a % 0x8000_0000_0000_0000 == 0 {
        ZeroIsIntegral(a, roundingMode, exact);
        ReturnsItself(a, st.exceptionFlags);
        uiZ := a;
        return;
      }
      ghost var was := st.exceptionFlags;
      if exact {
        st.RaiseFlags({Inexact});
      }
      uiZ := PackToF64UI(SignF64UI(a), 0, 0);
      ghost var up := false;
      match roundingMode {
        case NearEven =>
          if FracF64UI(a) != 0 && exp == 0x3FE {
            uiZ, up := PackToF64UI(SignF64UI(a), 0x3FF, 0), true;
          }
        case NearMaxMag =>
          if exp == 0x3FE {
            uiZ, up := PackToF64UI(SignF64UI(a), 0x3FF, 0), true;
          }
        case Min =>
          if uiZ != 0 {
            uiZ, up := PackToF64UI(true, 0x3FF, 0), true;
          }
        case Max =>
          if uiZ == 0 {
            uiZ, up := PackToF64UI(false, 0x3FF, 0), true;
          }
        case _ =>
      }
      BelowOneReturned(a, roundingMode, exact, up, uiZ, was, st.exceptionFlags);
      return;
    }
    if 0x433 <= exp {
      if exp == 0x7FF && FracF64UI(a) != 0 {
        uiZ := PropagateNaNF64UI(st, a, 0);
        NaNIsPropagated(a, roundingMode, exact);
        return;
      }
      Stays(a, roundingMode, exact);
      ReturnsItself(a, st.exceptionFlags);
      uiZ := a;
      return;
    }
    var k := 0x433 - exp;
    uiZ := RoundOffFraction(a, roundingMode, k);
    ghost var was := st.exceptionFlags;
    if exact && uiZ != a {
      st.RaiseFlags({Inexact});
    }
    FractionReturned(a, roundingMode, exact, uiZ, was, st.exceptionFlags);
  }
}
