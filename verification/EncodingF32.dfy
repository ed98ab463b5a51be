/** The binary32 encoding (softfloat/internals.h, softfloat/specialize.h,
    softfloat/s_propagateNaNF32UI.c, softfloat/s_normSubnormalF32Sig.c). */
module EncodingF32 {
  import opened Powers
  import opened Rounding
  import opened Sticky
  import opened Words
  import opened RoundPack
  import opened RoundPackF32
  import opened Operations

  predicate SignF32UI(a: Word32) {
    0x8000_0000 <= a
  }

  function ExpF32UI(a: Word32): nat {
    a / 0x80_0000 % 0x100
  }

  function FracF32UI(a: Word32): Word32 {
    a % 0x80_0000
  }

  function DatumF32(ui: Word32): Datum {
    Datum(SignF32UI(ui), ui % 0x8000_0000)
  }

  predicate IsSigNaNF32UI(a: Word32) {
    a / 0x40_0000 % 0x200 == 0x1FE && a % 0x40_0000 != 0
  }

  lemma {:induction false} FieldsF32(ui: Word32)
    ensures var exp, frac := ExpF32UI(ui), FracF32UI(ui);
      exp <= 0xFF && frac < 0x80_0000 && DatumF32(ui).code == exp * 0x80_0000 + frac
  {
  }

  /** What the fields say of the operand. */
  lemma {:induction false} ClassF32(ui: Word32)
    ensures var d, exp, frac := DatumF32(ui), ExpF32UI(ui), FracF32UI(ui);
      (IsNaN(F32, d) <==> exp == 0xFF && frac != 0) &&
      (IsInf(F32, d) <==> exp == 0xFF && frac == 0) &&
      (IsFinite(F32, d) <==> exp < 0xFF) && (IsZero(d) <==> exp == 0 && frac == 0)
    ensures ExpF32UI(ui) <= 0xFF && FracF32UI(ui) < 0x80_0000
    ensures DatumF32(ui).sign == SignF32UI(ui)
  {
    FieldsF32(ui);
    ShapeOfF32();
  }

  lemma {:induction false} QuantaF32(ui: Word32)
    ensures Quanta(F32, DatumF32(ui).code) == FieldQuanta(F32, ExpF32UI(ui), FracF32UI(ui))
  {
    var exp, frac := ExpF32UI(ui), FracF32UI(ui);
    FieldsF32(ui);
    ShlIsTimes(exp, 23);
    Pow2Literals();
    ShrUnique(DatumF32(ui).code, 23, exp, frac);
  }

  function DefaultNaNF32(): Word32 {
    0x7FC0_0000
  }

  lemma {:induction false} CanonicalF32()
    ensures DefaultNaNF32() == SignedF32(CanonicalNaN(F32).sign, CanonicalNaN(F32).code)
    ensures CanonicalNaN(F32).code == 0x7FC0_0000
  {
    ShapeOfF32();
  }

  lemma {:induction false} SignalingF32(ui: Word32)
    ensures IsSigNaNF32UI(ui) <==> IsSignaling(F32, DatumF32(ui))
  {
    ShapeOfF32();
    CanonicalF32();
  }

  /** `softfloat_propagateNaNF32UI`. */
  method PropagateNaNF32UI(st: FloatState, a: Word32, b: Word32) returns (uiZ: Word32)
    modifies st`exceptionFlags
    ensures ReturnsF32(uiZ, old(st.exceptionFlags), st.exceptionFlags,
      Propagated(F32, DatumF32(a), DatumF32(b)))
  {
    hide IsSigNaNF32UI, IsSignaling, SignedF32, CanonicalNaN, DatumF32;
    SignalingF32(a);
    SignalingF32(b);
    CanonicalF32();
    UnionWithNone(st.exceptionFlags);
    if IsSigNaNF32UI(a) || IsSigNaNF32UI(b) {
      st.RaiseFlags({Invalid});
    }
    uiZ := DefaultNaNF32();
  }

  predicate NormalF32Sig(sig: nat) {
    0x80_0000 <= sig < 2 * 0x80_0000
  }

  /** A finite nonzero magnitude as a normalized significand and an exponent field that may have
      gone below 1. */
  ghost predicate UnpackedF32(ui: Word32, exp: int, sig: Word32) {
    -22 <= exp < 0xFF && NormalF32Sig(sig) &&
    Quanta(F32, DatumF32(ui).code) as real == Scale(sig as real, exp - 1)
  }

  /** `softfloat_normSubnormalF32Sig`. */
  method NormSubnormalF32Sig(sig: Word32) returns (exp: int, sigZ: Word32)
    requires 0 < sig < 0x80_0000
    ensures -22 <= exp <= 0 && NormalF32Sig(sigZ) && sig as real == Scale(sigZ as real, exp - 1)
  {
    hide *;
    var count := CountLeadingZeros32(sig);
    FracZeros(sig, count);
    var shiftDist: int := count as int - 8;
    exp := 1 - shiftDist;
    NormalizedValue(sig, count);
    sigZ := Wrap32(Shl(sig, shiftDist));
  }

  lemma {:induction false} FracZeros(sig: Word32, count: nat)
    requires LeadingZeros(sig, 32, count) && 0 < sig < 0x80_0000
    ensures 8 < count < 32
  {
    if count <= 8 {
      Pow2Increases(23 + 1, 32 - count);
      Pow2Literals();
    }
  }

  lemma {:induction false} NormalizedValue(sig: Word32, count: nat)
    requires LeadingZeros(sig, 32, count) && 8 < count < 32 && sig != 0
    ensures var z := Wrap32(Shl(sig, count - 8));
      NormalF32Sig(z) && sig as real == Scale(z as real, 8 - count)
  {
    var k := count - 8;
    ShiftedZeros(sig, 32, count, k);
    Pow2Literals();
    assert Pow2(23 + 1) == 2 * Pow2(23);
    Wrap32Of(Shl(sig, k), 0, Shl(sig, k));
    ScaleInt(sig, k);
    ScaleScale(sig as real, k, -(k as int));
  }

  /** `sig | 0x80_0000`. */
  function WithHiddenF32(sig: Word32): Word32 {
    if sig / 0x80_0000 % 2 == 0 && sig + 0x80_0000 < 0x1_0000_0000 then sig + 0x80_0000 else sig
  }

  lemma {:induction false} UnpackedSubnormalF32(ui: Word32, exp: int, sig: Word32)
    requires ExpF32UI(ui) == 0 && -22 <= exp <= 0 && NormalF32Sig(sig)
    requires FracF32UI(ui) as real == Scale(sig as real, exp - 1)
    ensures UnpackedF32(ui, exp, sig) && WithHiddenF32(sig) == sig
  {
    hide Scale, DatumF32, Quanta;
    QuantaF32(ui);
  }

  lemma {:induction false} UnpackedNormalF32(ui: Word32)
    requires 0 < ExpF32UI(ui) < 0xFF
    ensures UnpackedF32(ui, ExpF32UI(ui), WithHiddenF32(FracF32UI(ui)))
  {
    var exp, frac := ExpF32UI(ui), FracF32UI(ui);
    assert WithHiddenF32(frac) == 0x80_0000 + frac;
    hide Scale, DatumF32, Quanta;
    FieldsF32(ui);
    QuantaF32(ui);
    ShapeOfF32();
    ScaleInt(WithHiddenF32(frac), exp - 1);
  }

  /** `uiZ` encodes the datum of an outcome, whose exceptions were added to the flags. */
  ghost predicate ReturnsF32(uiZ: Word32, was: set<Flag>, now: set<Flag>, outcome: Outcome) {
    uiZ == SignedF32(outcome.datum.sign, outcome.datum.code) && now == was + outcome.flags
  }

  /** The encodings of zeros, infinities and the canonical NaN. */
  lemma {:induction false} ReturnsSpecialF32(sign: bool, was: set<Flag>, flags: set<Flag>)
    ensures ReturnsF32(PackToF32UI(sign, 0, 0), was, was + flags, Outcome(Datum(sign, 0), flags))
    ensures ReturnsF32(PackToF32UI(sign, 0xFF, 0), was, was + flags,
      Outcome(Infinity(F32, sign), flags))
    ensures ReturnsF32(DefaultNaNF32(), was, was + {Invalid}, Invalidated(F32))
  {
    ShapeOfF32();
    CanonicalF32();
  }

  lemma {:induction false} ReturnsItself(a: Word32, was: set<Flag>)
    ensures ReturnsF32(a, was, was, Outcome(DatumF32(a), {}))
  {
  }

  lemma {:induction false} ReturnsIs(uiZ: Word32, sign: bool, env: Environment, x: real,
      was: set<Flag>, now: set<Flag>)
    requires 0.0 <= x && uiZ == SignedF32(sign, Delivered(F32, env.mode, sign, x))
    requires now == was + Signals(F32, env.tininess, env.mode, sign, x)
    ensures ReturnsF32(uiZ, was, now, Outcome(Datum(sign, Delivered(F32, env.mode, sign, x)),
      Signals(F32, env.tininess, env.mode, sign, x)))
  {
  }

  lemma {:induction false} RoundedIsOutcome(env: Environment, sign: bool, uiZ: Word32, v: real,
      x: real, was: set<Flag>, now: set<Flag>)
    requires 0.0 <= v && InQuanta(F32, v) == x
    requires 0.0 <= x && uiZ == SignedF32(sign, Delivered(F32, env.mode, sign, x))
    requires now == was + Signals(F32, env.tininess, env.mode, sign, x)
    ensures ReturnsF32(uiZ, was, now, RoundedOutcome(F32, env, sign, v))
  {
  }
}
