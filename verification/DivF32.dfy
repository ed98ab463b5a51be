/** `f32_div` (softfloat/f32_div.c), as configured with SOFTFLOAT_FAST_DIV64TO32. */
module DivF32 {
  import opened Arith
  import opened Powers
  import opened Rounding
  import opened Sticky
  import opened Words
  import opened RoundPack
  import opened RoundPackF32
  import opened Operations
  import opened EncodingF32
  import opened Quotients

  /** The significand of a quotient: truncated, and made sticky where its low bits are zero. */
  method QuotientF32(sigA: Word32, sigB: Word32) returns (sigZ: Word32)
    requires NormalF32Sig(sigA) && NormalF32Sig(sigB)
    ensures 0x4000_0000 <= sigZ < 0x8000_0000 && 0 < sigB
    ensures Faithful(6, sigZ, Scale(Ratio(Dividend(sigA, sigB) as real, sigB as real), 30))
  {
    hide *;
    DividendRange(sigA, sigB);
    var sig64A := if sigA < sigB then sigA * 0x8000_0000 else sigA * 0x4000_0000;
    Aligned(sigA, sigB, sig64A);
    TruncatedQuotient(Dividend(sigA, sigB), sigB, sig64A);
    sigZ := StickyAtUnits(sig64A, sigB);
  }

  /** A truncated quotient, whose lowest bit is made sticky when the six low ones are zero. */
  function StickyAtUnits(n: nat, d: nat): int
    requires 0 < d
  {
    var t := n / d;
    DivMod(n, d);
    if t % 0x40 == 0 && 0 <= t then OrOne(t, d * t != n) else t
  }

  lemma {:induction false} Aligned(sigA: nat, sigB: nat, sig64A: nat)
    requires sig64A == if sigA < sigB then sigA * 0x8000_0000 else sigA * 0x4000_0000
    ensures sig64A == Shl(Dividend(sigA, sigB), 30)
  {
    ShlIsTimes(Dividend(sigA, sigB), 30);
    Pow2Literals();
    assert Pow2(31) == 2 * Pow2(30);
  }

  lemma {:induction false} TruncatedQuotient(n: nat, d: nat, scaled: nat)
    requires 0 < d <= n < 2 * d && scaled == Shl(n, 30)
    ensures var s := StickyAtUnits(scaled, d);
      0x4000_0000 <= s < 0x8000_0000 && Faithful(6, s, Scale(Ratio(n as real, d as real), 30))
  {
    var s, t, rem := StickyAtUnits(scaled, d), scaled / d, scaled % d;
    DivMod(scaled, d);
    TruncatedParts(scaled, d, t, rem, s);
    hide Shl, Scale, Ratio, Faithful, LowBits, StickyAtUnits;
    StickyQuotient(6, t, s, rem, scaled, d);
    RatioShift(n, d, 30);
    ScaledQuotientRange(n, d, 30, 6, s);
    Bounds30();
  }

  lemma {:induction false} TruncatedParts(n: nat, d: nat, t: int, rem: int, s: int)
    requires 0 < d && t == n / d && rem == n % d && n == t * d + rem && 0 <= rem < d
    requires s == StickyAtUnits(n, d)
    ensures 0 <= t <= s && (s == OrOne(t, rem != 0) || (s == t && LowBits(t, 6) != 0))
  {
    if t < 0 {
      MulLe(t, -1, d);
    }
    assert d * t == t * d;
    assert Pow2(6) == 0x40;
    ShrIsDiv(t, 6);
  }

  lemma {:induction false} Bounds30()
    ensures Shl(1, 30) == 0x4000_0000 && Shl(2, 30) == 0x8000_0000
  {
    ShlIsTimes(1, 30);
    ShlIsTimes(2, 30);
    Pow2Literals();
    assert Pow2(31) == 2 * Pow2(30);
  }

  lemma {:induction false} DividendRange(sigA: nat, sigB: nat)
    requires NormalF32Sig(sigA) && NormalF32Sig(sigB)
    ensures 0 < sigB <= Dividend(sigA, sigB) < 2 * sigB
  {
  }

  /** The exact quotient of two unpacked operands, as the quotient of the significands. */
  lemma {:induction false} ExactQuotient(a: Word32, expA: int, sigA: Word32, b: Word32, expB: int, sigB: Word32)
    requires UnpackedF32(a, expA, sigA) && UnpackedF32(b, expB, sigB) && !IsZero(DatumF32(b))
    ensures 0 < sigB && 0.0 < Magnitude(F32, DatumF32(b))
    ensures InQuanta(F32, Ratio(Magnitude(F32, DatumF32(a)), Magnitude(F32, DatumF32(b)))) ==
      Scale(Ratio(sigA as real, sigB as real), expA - expB + 149)
  {
    RatioInQuanta(F32, DatumF32(a), DatumF32(b));
    hide Scale, Ratio, Magnitude, DatumF32, Quanta, InQuanta;
    ScaleRatioBoth(sigA as real, expA - 1, sigB as real, expB - 1);
    ScaleScale(Ratio(sigA as real, sigB as real), expA - expB, 149);
  }

  lemma {:induction false} DividendScaled(sigA: nat, sigB: nat, d: int, expZ: int)
    requires 0 < sigB && expZ == if sigA < sigB then d + 0x7D else d + 0x7E
    ensures Scale(Ratio(Dividend(sigA, sigB) as real, sigB as real), 30) ==
      Scale(Scale(Ratio(sigA as real, sigB as real), d + 149), 7 - expZ)
  {
    var r := Ratio(sigA as real, sigB as real);
    ScaleScale(r, d + 149, 7 - expZ);
    if sigA < sigB {
      ScaleRatioLeft(sigA as real, sigB as real, 1);
      assert Scale(sigA as real, 1) == (2 * sigA) as real;
      hide Scale, Ratio;
      ScaleScale(r, 1, 30);
    }
  }

  /** The quotient of two unpacked operands, rounded. */
  method DivideSignificands(st: FloatState, signZ: bool, ghost a: Word32, expA: int, sigA: Word32,
      ghost b: Word32, expB: int, sigB: Word32) returns (uiZ: Word32)
    requires UnpackedF32(a, expA, sigA) && UnpackedF32(b, expB, sigB) && !IsZero(DatumF32(b))
    modifies st`exceptionFlags
    ensures ReturnsF32(uiZ, old(st.exceptionFlags), st.exceptionFlags, RoundedOutcome(F32, st.Env(), signZ,
      Ratio(Magnitude(F32, DatumF32(a)), Magnitude(F32, DatumF32(b)))))
  {
    hide *;
    UnpackedParts(a, expA, sigA);
    UnpackedParts(b, expB, sigB);
    ExactQuotient(a, expA, sigA, b, expB, sigB);
    ghost var v := Ratio(Magnitude(F32, DatumF32(a)), Magnitude(F32, DatumF32(b)));
    ghost var x := Scale(Ratio(sigA as real, sigB as real), expA - expB + 149);
    var expZ := expA - expB + 0x7E;
    if sigA < sigB {
      expZ := expZ - 1;
    }
    DividendScaled(sigA, sigB, expA - expB, expZ);
    var sigZ := QuotientF32(sigA, sigB);
    uiZ := RoundPackToF32(st, signZ, expZ, sigZ, x);
    RoundedIsOutcome(st.Env(), signZ, uiZ, v, x, old(st.exceptionFlags), st.exceptionFlags);
  }

  lemma {:induction false} UnpackedParts(a: Word32, exp: int, sig: Word32)
    requires UnpackedF32(a, exp, sig)
    ensures -22 <= exp < 0xFF && NormalF32Sig(sig)
  {
  }

  lemma {:induction false} QuotientOfZero(env: Environment, a: Word32, b: Word32)
    requires IsZero(DatumF32(a)) && IsFinite(F32, DatumF32(b)) && !IsZero(DatumF32(b))
    ensures Divide(F32, env, DatumF32(a), DatumF32(b)) ==
      Outcome(Datum(DatumF32(a).sign != DatumF32(b).sign, 0), {})
  {
    var v, w := Magnitude(F32, DatumF32(a)), Magnitude(F32, DatumF32(b));
    InfPositive(F32);
    ZeroOutcome(F32, env, DatumF32(a).sign != DatumF32(b).sign);
    DivideCases(F32, env, DatumF32(a), DatumF32(b));
    hide Magnitude, Divide, RoundedOutcome, InfCode, DatumF32;
    assert v == 0.0;
    assert Ratio(v, w) == 0.0;
  }

  /** `f32_div`. */
  method F32Div(st: FloatState, a: Word32, b: Word32) returns (uiZ: Word32)
    modifies st`exceptionFlags
    ensures ReturnsF32(uiZ, old(st.exceptionFlags), st.exceptionFlags,
      Divide(F32, st.Env(), DatumF32(a), DatumF32(b)))
  {
    hide *;
    var signA, expA: int, sigA := SignF32UI(a), ExpF32UI(a), FracF32UI(a);
    var signB, expB: int, sigB := SignF32UI(b), ExpF32UI(b), FracF32UI(b);
    var signZ := signA != signB;
    ClassF32(a);
    ClassF32(b);
    DivideCases(F32, st.Env(), DatumF32(a), DatumF32(b));
    ReturnsSpecialF32(signZ, st.exceptionFlags, {});
    ReturnsSpecialF32(signZ, st.exceptionFlags, {Infinite});
    UnionWithNone(st.exceptionFlags);
    if expA == 0xFF {
      if sigA != 0 {
        uiZ := PropagateNaNF32UI(st, a, b);
        return;
      }
      if expB == 0xFF {
        if sigB != 0 {
          uiZ := PropagateNaNF32UI(st, a, b);
          return;
        }
        st.RaiseFlags({Invalid});
        uiZ := DefaultNaNF32();
        return;
      }
      uiZ := PackToF32UI(signZ, 0xFF, 0);
      return;
    }
    if expB == 0xFF {
      if sigB != 0 {
        uiZ := PropagateNaNF32UI(st, a, b);
        return;
      }
      uiZ := PackToF32UI(signZ, 0, 0);
      return;
    }
    if expB == 0 {
      if sigB == 0 {
        if expA == 0 && sigA == 0 {
          st.RaiseFlags({Invalid});
          uiZ := DefaultNaNF32();
          return;
        }
        st.RaiseFlags({Infinite});
        uiZ := PackToF32UI(signZ, 0xFF, 0);
        return;
      }
      expB, sigB := NormSubnormalF32Sig(sigB);
      UnpackedSubnormalF32(b, expB, sigB);
    } else {
      UnpackedNormalF32(b);
    }
    if expA == 0 {
      if sigA == 0 {
        QuotientOfZero(st.Env(), a, b);
        uiZ := PackToF32UI(signZ, 0, 0);
        return;
      }
      expA, sigA := NormSubnormalF32Sig(sigA);
      UnpackedSubnormalF32(a, expA, sigA);
    } else {
      UnpackedNormalF32(a);
    }
    sigA, sigB := WithHiddenF32(sigA), WithHiddenF32(sigB);
    uiZ := DivideSignificands(st, signZ, a, expA, sigA, b, expB, sigB);
  }
}
