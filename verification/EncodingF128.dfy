/** The binary128 encoding (softfloat/internals.h, softfloat/specialize.h,
    softfloat/s_propagateNaNF128UI.c, softfloat/s_normSubnormalF128Sig.c). */
module EncodingF128 {
  import opened Powers
  import opened Rounding
  import opened Sticky
  import opened Words
  import opened RoundPack
  import opened RoundPackF128
  import opened Operations

  predicate SignF128UI64(a64: Word64) {
    0x8000_0000_0000_0000 <= a64
  }

  function ExpF128UI64(a64: Word64): nat {
    a64 / 0x1_0000_0000_0000 % 0x8000
  }

  function FracF128UI64(a64: Word64): Word64 {
    a64 % 0x1_0000_0000_0000
  }

  function DatumF128(ui: U128): Datum {
    Datum(SignF128UI64(ui.v64), U128(ui.v64 % 0x8000_0000_0000_0000, ui.v0).Val())
  }

  function FracF128(ui: U128): U128 {
    U128(FracF128UI64(ui.v64), ui.v0)
  }

  predicate IsSigNaNF128UI(a: U128) {
    a.v64 / 0x8000_0000_0000 % 0x1_0000 == 0xFFFE && (a.v0 != 0 || a.v64 % 0x8000_0000_0000 != 0)
  }

  lemma {:induction false} FieldsF128(ui: U128)
    ensures var exp, frac := ExpF128UI64(ui.v64), FracF128(ui).Val();
      exp <= 0x7FFF && frac < 0x1_0000_0000_0000_0000_0000_0000_0000 &&
      DatumF128(ui).code == exp * 0x1_0000_0000_0000_0000_0000_0000_0000 + frac
    ensures FracF128(ui).v64 < 0x1_0000_0000_0000 && DatumF128(ui).sign == SignF128UI64(ui.v64)
  {
  }

  /** What the fields say of the operand. */
  lemma {:induction false} ClassF128(ui: U128)
    ensures var d, exp, frac := DatumF128(ui), ExpF128UI64(ui.v64), FracF128(ui).Val();
      (IsNaN(F128, d) <==> exp == 0x7FFF && frac != 0) &&
      (IsInf(F128, d) <==> exp == 0x7FFF && frac == 0) &&
      (IsFinite(F128, d) <==> exp < 0x7FFF) && (IsZero(d) <==> exp == 0 && frac == 0) &&
      (frac == 0 <==> FracF128(ui).v64 == 0 && FracF128(ui).v0 == 0)
    ensures ExpF128UI64(ui.v64) <= 0x7FFF && FracF128(ui).v64 < 0x1_0000_0000_0000
    ensures DatumF128(ui).sign == SignF128UI64(ui.v64)
  {
    FieldsF128(ui);
    ShapeOfF128();
  }

  lemma {:induction false} QuantaF128(ui: U128)
    ensures
      Quanta(F128, DatumF128(ui).code) == FieldQuanta(F128, ExpF128UI64(ui.v64), FracF128(ui).Val())
  {
    var exp, frac := ExpF128UI64(ui.v64), FracF128(ui).Val();
    FieldsF128(ui);
    ShlIsTimes(exp, 112);
    Pow2Wide();
    ShrUnique(DatumF128(ui).code, 112, exp, frac);
  }

  function DefaultNaNF128(): U128 {
    U128(0x7FFF_8000_0000_0000, 0)
  }

  lemma {:induction false} CanonicalF128()
    ensures DefaultNaNF128().Val() == SignedF128(CanonicalNaN(F128).sign, CanonicalNaN(F128).code)
    ensures CanonicalNaN(F128).code == 0x7FFF_8000_0000_0000_0000_0000_0000_0000
  {
    ShapeOfF128();
  }

  lemma {:induction false} SignalingF128(ui: U128)
    ensures IsSigNaNF128UI(ui) <==> IsSignaling(F128, DatumF128(ui))
  {
    ShapeOfF128();
    CanonicalF128();
    SignalingRange(ui.v64, ui.v64 % 0x8000_0000_0000_0000);
  }

  lemma {:induction false} SignalingRange(v64: Word64, h: nat)
    requires h == v64 % 0x8000_0000_0000_0000
    ensures v64 / 0x8000_0000_0000 % 0x1_0000 == 0xFFFE <==>
      0x7FFF_0000_0000_0000 <= h < 0x7FFF_8000_0000_0000
    ensures 0x7FFF_0000_0000_0000 <= h < 0x7FFF_8000_0000_0000 ==>
      v64 % 0x8000_0000_0000 == h - 0x7FFF_0000_0000_0000
  {
  }

  /** `softfloat_propagateNaNF128UI`. */
  method PropagateNaNF128UI(st: FloatState, a: U128, b: U128) returns (uiZ: U128)
    modifies st`exceptionFlags
    ensures ReturnsF128(uiZ, old(st.exceptionFlags), st.exceptionFlags,
      Propagated(F128, DatumF128(a), DatumF128(b)))
  {
    hide IsSigNaNF128UI, IsSignaling, SignedF128, CanonicalNaN, DatumF128;
    SignalingF128(a);
    SignalingF128(b);
    CanonicalF128();
    UnionWithNone(st.exceptionFlags);
    if IsSigNaNF128UI(a) || IsSigNaNF128UI(b) {
      st.RaiseFlags({Invalid});
    }
    uiZ := DefaultNaNF128();
  }

  /** A finite nonzero magnitude as a normalized significand and an exponent field that may have
      gone below 1. */
  ghost predicate Unpacked(f: U128, exp: int, sig: U128) {
    -111 <= exp <= 0x7FFE && NormalSig(sig.Val()) &&
    Quanta(F128, DatumF128(f).code) as real == Scale(sig.Val() as real, exp - 1)
  }

  /** `softfloat_normSubnormalF128Sig`. */
  method NormSubnormalF128Sig(sig64: Word64, sig0: Word64) returns (exp: int, sig: U128)
    requires sig64 < 0x1_0000_0000_0000 && (sig64 != 0 || sig0 != 0)
    ensures -111 <= exp <= 0 && NormalSig(sig.Val())
    ensures U128(sig64, sig0).Val() as real == Scale(sig.Val() as real, exp - 1)
  {
    hide *;
    var shiftDist: int;
    if sig64 == 0 {
      var count := CountLeadingZeros64(sig0);
      shiftDist := count as int - 15;
      exp := -63 - shiftDist;
      CountRange(sig0, count);
      LowNormalizes(sig0, count);
      if shiftDist < 0 {
        AcrossBoundary(sig0, -shiftDist);
        sig := U128(Shr64(sig0, -shiftDist), Shl64(sig0, 64 + shiftDist));
        SplitWord(sig, Shr64(sig0, -shiftDist), Shl64(sig0, 64 + shiftDist));
      } else {
        ShiftedWord(sig0, shiftDist);
        sig := U128(Shl64(sig0, shiftDist), 0);
      }
    } else {
      var count := CountLeadingZeros64(sig64);
      shiftDist := count as int - 15;
      exp := 1 - shiftDist;
      CountRange(sig64, count);
      FracZeros(sig64, count);
      HighNormalizes(U128(sig64, sig0), count);
      sig := ShortShiftLeft128(U128(sig64, sig0), shiftDist);
      NoBitsLost(sig64, count);
    }
  }

  lemma {:induction false} NoBitsLost(v64: Word64, count: nat)
    requires LeadingZeros(v64, 64, count) && 15 < count
    ensures 0 < count - 15 < 64 && Shr64(v64, 64 - (count - 15)) == 0
  {
    NothingShiftedOut(v64, count);
  }

  lemma {:induction false} SplitWord(sig: U128, hi: Word64, lo: Word64)
    requires sig == U128(hi, lo)
    ensures sig.Val() == hi * 0x1_0000_0000_0000_0000 + lo
  {
  }

  lemma {:induction false} CountRange(a: Word64, count: nat)
    requires LeadingZeros(a, 64, count) && a != 0
    ensures count < 64
  {
  }

  lemma {:induction false} FracZeros(sig64: Word64, count: nat)
    requires LeadingZeros(sig64, 64, count) && 0 < sig64 < 0x1_0000_0000_0000
    ensures 16 <= count
  {
    if count < 16 {
      Pow2Increases(48 + 1, 64 - count);
      assert Pow2(49) == 2 * Pow2(48) && Pow2(48) == 0x1_0000_0000_0000 by {
        Pow2Literals();
        Pow2Add(32, 16);
      }
    }
  }

  lemma {:induction false} NormalizedValue(v: nat, count: nat)
    requires LeadingZeros(v, 128, count) && 15 <= count && v != 0
    ensures 0 <= Shl(v, count - 15) && NormalSig(Shl(v, count - 15))
    ensures v as real == Scale(Shl(v, count - 15) as real, 15 - count)
  {
    hide LeadingZeros, NormalSig;
    NormalizingShift(v, count);
    ScaleInt(v, count - 15);
    ScaleScale(v as real, count - 15, 15 - count);
  }

  lemma {:induction false} HighNormalizes(v: U128, count: nat)
    requires LeadingZeros(v.v64, 64, count) && 15 <= count && v.v64 != 0
    ensures 0 <= Shl(v.Val(), count - 15) && NormalSig(Shl(v.Val(), count - 15))
    ensures v.Val() as real == Scale(Shl(v.Val(), count - 15) as real, 15 - count)
  {
    WideZeros(v, count);
    NormalizedValue(v.Val(), count);
  }

  lemma {:induction false} LowNormalizes(v0: Word64, count: nat)
    requires LeadingZeros(v0, 64, count) && v0 != 0
    ensures 0 <= Shl(v0, count + 49) && NormalSig(Shl(v0, count + 49))
    ensures U128(0, v0).Val() as real == Scale(Shl(v0, count + 49) as real, -49 - count)
  {
    NormalizedValue(v0, count + 64);
  }

  lemma {:induction false} ShiftedWord(v0: Word64, k: nat)
    requires k <= 64 && 0 <= Shl(v0, k + 64) && NormalSig(Shl(v0, k + 64))
    ensures U128(Shl64(v0, k), 0).Val() == Shl(v0, k + 64)
  {
    ShlShl(v0, k, 64);
    Shl64Times(Shl(v0, k));
    Wrap64Of(Shl(v0, k), 0, Shl(v0, k));
  }

  /** `sig64 |= 0x0001000000000000`. */
  function WithHiddenF128(sig: U128): U128 {
    if sig.v64 / 0x1_0000_0000_0000 % 2 == 0 && sig.v64 + 0x1_0000_0000_0000 < 0x1_0000_0000_0000_0000
    then U128(sig.v64 + 0x1_0000_0000_0000, sig.v0) else sig
  }

  lemma {:induction false} UnpackedSubnormal(ui: U128, exp: int, sig: U128)
    requires ExpF128UI64(ui.v64) == 0 && -111 <= exp <= 0 && NormalSig(sig.Val())
    requires FracF128(ui).Val() as real == Scale(sig.Val() as real, exp - 1)
    ensures Unpacked(ui, exp, sig) && WithHiddenF128(sig) == sig
  {
    hide Scale, DatumF128, Quanta;
    QuantaF128(ui);
  }

  lemma {:induction false} UnpackedNormal(ui: U128)
    requires 0 < ExpF128UI64(ui.v64) < 0x7FFF
    ensures Unpacked(ui, ExpF128UI64(ui.v64), WithHiddenF128(FracF128(ui)))
  {
    var exp, frac := ExpF128UI64(ui.v64), FracF128(ui);
    assert WithHiddenF128(frac).Val() == 0x1_0000_0000_0000_0000_0000_0000_0000 + frac.Val();
    hide Scale, DatumF128, Quanta;
    FieldsF128(ui);
    QuantaF128(ui);
    ShapeOfF128();
    ScaleInt(WithHiddenF128(frac).Val(), exp - 1);
  }

  /** `uiZ` encodes the datum of an outcome, whose exceptions were added to the flags. */
  ghost predicate ReturnsF128(uiZ: U128, was: set<Flag>, now: set<Flag>, outcome: Outcome) {
    uiZ.Val() == SignedF128(outcome.datum.sign, outcome.datum.code) && now == was + outcome.flags
  }

  /** The encodings of zeros, infinities and the canonical NaN. */
  lemma {:induction false} ReturnsSpecialF128(sign: bool, was: set<Flag>, flags: set<Flag>)
    ensures ReturnsF128(U128(PackToF128UI64(sign, 0, 0), 0), was, was + flags,
      Outcome(Datum(sign, 0), flags))
    ensures ReturnsF128(U128(PackToF128UI64(sign, 0x7FFF, 0), 0), was, was + flags,
      Outcome(Infinity(F128, sign), flags))
    ensures ReturnsF128(DefaultNaNF128(), was, was + {Invalid}, Invalidated(F128))
  {
    ShapeOfF128();
    CanonicalF128();
  }

  lemma {:induction false} ZeroWords(r: U128)
    ensures r.Val() == 0 <==> r.v64 == 0 && r.v0 == 0
  {
  }

  lemma {:induction false} NormalNotZero(divisor: U128)
    requires NormalSig(divisor.Val())
    ensures 0 < divisor.Val()
  {
  }

  lemma {:induction false} UnpackedParts(a: U128, exp: int, sig: U128)
    requires Unpacked(a, exp, sig)
    ensures -111 <= exp <= 0x7FFE && NormalSig(sig.Val()) && 0 < sig.Val()
    ensures sig.Val() < 0x2_0000_0000_0000_0000_0000_0000_0000
  {
  }

  lemma {:induction false} RoundedIsOutcome(env: Environment, sign: bool, uiZ: U128, v: real,
      x: real, was: set<Flag>, now: set<Flag>)
    requires 0.0 <= v && InQuanta(F128, v) == x && uiZ.Val() == SignedF128(sign, Delivered(F128, env.mode, sign, x))
    requires now == was + Signals(F128, env.tininess, env.mode, sign, x)
    ensures ReturnsF128(uiZ, was, now, RoundedOutcome(F128, env, sign, v))
  {
  }

  lemma {:induction false} ReturnsItself(a: U128, was: set<Flag>)
    ensures ReturnsF128(a, was, was, Outcome(DatumF128(a), {}))
  {
  }
}
