/** The binary64 encoding (softfloat/internals.h, softfloat/specialize.h,
    softfloat/s_propagateNaNF64UI.c, softfloat/s_normSubnormalF64Sig.c). */
module EncodingF64 {
  import opened Powers
  import opened Rounding
  import opened Sticky
  import opened Words
  import opened RoundPack
  import opened RoundPackF64
  import opened Operations

  predicate SignF64UI(a: Word64) {
    0x8000_0000_0000_0000 <= a
  }

  function ExpF64UI(a: Word64): nat {
    a / 0x10_0000_0000_0000 % 0x800
  }

  function FracF64UI(a: Word64): Word64 {
    a % 0x10_0000_0000_0000
  }

  function DatumF64(ui: Word64): Datum {
    Datum(SignF64UI(ui), ui % 0x8000_0000_0000_0000)
  }

  predicate IsSigNaNF64UI(a: Word64) {
    a / 0x8_0000_0000_0000 % 0x1000 == 0xFFE && a % 0x8_0000_0000_0000 != 0
  }

  lemma {:induction false} FieldsF64(ui: Word64)
    ensures var exp, frac := ExpF64UI(ui), FracF64UI(ui);
      exp <= 0x7FF && frac < 0x10_0000_0000_0000 && DatumF64(ui).code == exp * 0x10_0000_0000_0000 + frac
  {
  }

  /** What the fields say of the operand. */
  lemma {:induction false} ClassF64(ui: Word64)
    ensures var d, exp, frac := DatumF64(ui), ExpF64UI(ui), FracF64UI(ui);
      (IsNaN(F64, d) <==> exp == 0x7FF && frac != 0) &&
      (IsInf(F64, d) <==> exp == 0x7FF && frac == 0) &&
      (IsFinite(F64, d) <==> exp < 0x7FF) && (IsZero(d) <==> exp == 0 && frac == 0)
    ensures ExpF64UI(ui) <= 0x7FF && FracF64UI(ui) < 0x10_0000_0000_0000
    ensures DatumF64(ui).sign == SignF64UI(ui)
  {
    FieldsF64(ui);
    ShapeOfF64();
  }

  lemma {:induction false} QuantaF64(ui: Word64)
    ensures Quanta(F64, DatumF64(ui).code) == FieldQuanta(F64, ExpF64UI(ui), FracF64UI(ui))
  {
    var exp, frac := ExpF64UI(ui), FracF64UI(ui);
    FieldsF64(ui);
    ShlIsTimes(exp, 52);
    Pow2Literals();
    ShrUnique(DatumF64(ui).code, 52, exp, frac);
  }

  function DefaultNaNF64(): Word64 {
    0x7FF8_0000_0000_0000
  }

  lemma {:induction false} CanonicalF64()
    ensures DefaultNaNF64() == SignedF64(CanonicalNaN(F64).sign, CanonicalNaN(F64).code)
    ensures CanonicalNaN(F64).code == 0x7FF8_0000_0000_0000
  {
    ShapeOfF64();
  }

  lemma {:induction false} SignalingF64(ui: Word64)
    ensures IsSigNaNF64UI(ui) <==> IsSignaling(F64, DatumF64(ui))
  {
    ShapeOfF64();
    CanonicalF64();
  }

  /** `softfloat_propagateNaNF64UI`. */
  method PropagateNaNF64UI(st: FloatState, a: Word64, b: Word64) returns (uiZ: Word64)
    modifies st`exceptionFlags
    ensures ReturnsF64(uiZ, old(st.exceptionFlags), st.exceptionFlags,
      Propagated(F64, DatumF64(a), DatumF64(b)))
  {
    hide IsSigNaNF64UI, IsSignaling, SignedF64, CanonicalNaN, DatumF64;
    SignalingF64(a);
    SignalingF64(b);
    CanonicalF64();
    UnionWithNone(st.exceptionFlags);
    if IsSigNaNF64UI(a) || IsSigNaNF64UI(b) {
      st.RaiseFlags({Invalid});
    }
    uiZ := DefaultNaNF64();
  }

  predicate NormalF64Sig(sig: nat) {
    0x10_0000_0000_0000 <= sig < 2 * 0x10_0000_0000_0000
  }

  /** A finite nonzero magnitude as a normalized significand and an exponent field that may have
      gone below 1. */
  ghost predicate UnpackedF64(ui: Word64, exp: int, sig: Word64) {
    -51 <= exp < 0x7FF && NormalF64Sig(sig) &&
    Quanta(F64, DatumF64(ui).code) as real == Scale(sig as real, exp - 1)
  }

  /** `softfloat_normSubnormalF64Sig`. */
  method NormSubnormalF64Sig(sig: Word64) returns (exp: int, sigZ: Word64)
    requires 0 < sig < 0x10_0000_0000_0000
    ensures -51 <= exp <= 0 && NormalF64Sig(sigZ) && sig as real == Scale(sigZ as real, exp - 1)
  {
    hide *;
    var count := CountLeadingZeros64(sig);
    FracZeros(sig, count);
    var shiftDist: int := count as int - 11;
    exp := 1 - shiftDist;
    NormalizedValue(sig, count);
    sigZ := Wrap64(Shl(sig, shiftDist));
  }

  lemma {:induction false} FracZeros(sig: Word64, count: nat)
    requires LeadingZeros(sig, 64, count) && 0 < sig < 0x10_0000_0000_0000
    ensures 11 < count < 64
  {
    if count <= 11 {
      Pow2Increases(52 + 1, 64 - count);
      Pow2Literals();
    }
  }

  lemma {:induction false} NormalizedValue(sig: Word64, count: nat)
    requires LeadingZeros(sig, 64, count) && 11 < count < 64 && sig != 0
    ensures var z := Wrap64(Shl(sig, count - 11));
      NormalF64Sig(z) && sig as real == Scale(z as real, 11 - count)
  {
    var k := count - 11;
    ShiftedZeros(sig, 64, count, k);
    Pow2Literals();
    assert Pow2(52 + 1) == 2 * Pow2(52);
    Wrap64Of(Shl(sig, k), 0, Shl(sig, k));
    ScaleInt(sig, k);
    ScaleScale(sig as real, k, -(k as int));
  }

  /** `sig | 0x10_0000_0000_0000`. */
  function WithHiddenF64(sig: Word64): Word64 {
    if sig / 0x10_0000_0000_0000 % 2 == 0 && sig + 0x10_0000_0000_0000 < 0x1_0000_0000_0000_0000
    then sig + 0x10_0000_0000_0000 else sig
  }

  lemma {:induction false} UnpackedSubnormalF64(ui: Word64, exp: int, sig: Word64)
    requires ExpF64UI(ui) == 0 && -51 <= exp <= 0 && NormalF64Sig(sig)
    requires FracF64UI(ui) as real == Scale(sig as real, exp - 1)
    ensures UnpackedF64(ui, exp, sig) && WithHiddenF64(sig) == sig
  {
    hide Scale, DatumF64, Quanta;
    QuantaF64(ui);
  }

  lemma {:induction false} UnpackedNormalF64(ui: Word64)
    requires 0 < ExpF64UI(ui) < 0x7FF
    ensures UnpackedF64(ui, ExpF64UI(ui), WithHiddenF64(FracF64UI(ui)))
  {
    var exp, frac := ExpF64UI(ui), FracF64UI(ui);
    assert WithHiddenF64(frac) == 0x10_0000_0000_0000 + frac;
    hide Scale, DatumF64, Quanta;
    FieldsF64(ui);
    QuantaF64(ui);
    ShapeOfF64();
    ScaleInt(WithHiddenF64(frac), exp - 1);
  }

  /** `uiZ` encodes the datum of an outcome, whose exceptions were added to the flags. */
  ghost predicate ReturnsF64(uiZ: Word64, was: set<Flag>, now: set<Flag>, outcome: Outcome) {
    uiZ == SignedF64(outcome.datum.sign, outcome.datum.code) && now == was + outcome.flags
  }

  /** The encodings of zeros, infinities and the canonical NaN. */
  lemma {:induction false} ReturnsSpecialF64(sign: bool, was: set<Flag>, flags: set<Flag>)
    ensures ReturnsF64(PackToF64UI(sign, 0, 0), was, was + flags, Outcome(Datum(sign, 0), flags))
    ensures ReturnsF64(PackToF64UI(sign, 0x7FF, 0), was, was + flags,
      Outcome(Infinity(F64, sign), flags))
    ensures ReturnsF64(DefaultNaNF64(), was, was + {Invalid}, Invalidated(F64))
  {
    ShapeOfF64();
    CanonicalF64();
  }

  lemma {:induction false} ReturnsItself(a: Word64, was: set<Flag>)
    ensures ReturnsF64(a, was, was, Outcome(DatumF64(a), {}))
  {
  }

  lemma {:induction false} ReturnsIs(uiZ: Word64, sign: bool, env: Environment, x: real,
      was: set<Flag>, now: set<Flag>)
    requires 0.0 <= x && uiZ == SignedF64(sign, Delivered(F64, env.mode, sign, x))
    requires now == was + Signals(F64, env.tininess, env.mode, sign, x)
    ensures ReturnsF64(uiZ, was, now, Outcome(Datum(sign, Delivered(F64, env.mode, sign, x)),
      Signals(F64, env.tininess, env.mode, sign, x)))
  {
  }

  lemma {:induction false} RoundedIsOutcome(env: Environment, sign: bool, uiZ: Word64, v: real,
      x: real, was: set<Flag>, now: set<Flag>)
    requires 0.0 <= v && InQuanta(F64, v) == x
    requires 0.0 <= x && uiZ == SignedF64(sign, Delivered(F64, env.mode, sign, x))
    requires now == was + Signals(F64, env.tininess, env.mode, sign, x)
    ensures ReturnsF64(uiZ, was, now, RoundedOutcome(F64, env, sign, v))
  {
  }
}
