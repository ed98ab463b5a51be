/** `f128_div` (softfloat/f128_div.c): three estimated and corrected quotient digits and a fourth that
    is corrected only where its error could reach a place where rounding changes its mind. */
module DivF128 {
  import opened Arith
  import opened Powers
  import opened Rounding
  import opened Sticky
  import opened Words
  import opened Products
  import opened RoundPack
  import opened RoundPackF128
  import opened Operations
  import opened EncodingF128
  import opened Estimate
  import opened Quotients
  import opened StepF128

  /** n * 2^(29 * k). */
  function Scaled(n: nat, k: nat): nat {
    if k == 0 then n else 0x2000_0000 * Scaled(n, k - 1)
  }

  /** The quotient digits in qs[ix..], the most significant last. */
  function Digits(qs: seq<Word32>, ix: nat): nat
    decreases |qs| - ix
  {
    if |qs| <= ix then 0 else 0x2000_0000 * Digits(qs, ix + 1) + qs[ix]
  }

  lemma {:induction false} DigitsFrom(qs: seq<Word32>, qs': seq<Word32>, ix: nat)
    requires |qs| == |qs'| && forall i :: ix <= i < |qs| ==> qs[i] == qs'[i]
    ensures Digits(qs, ix) == Digits(qs', ix)
    decreases |qs| - ix
  {
    if ix < |qs| {
      DigitsFrom(qs, qs', ix + 1);
    }
  }

  /** The last digit: made exact and sticky when it is next to a multiple of 8, where the four bits
      under the rounding position could be wrong, and otherwise left as estimated. */
  method LastDigit(divisor: U128, rem: U128, estimate: Word32, ghost acc: nat, ghost n: nat)
    returns (q: Word32)
    requires NormalSig(divisor.Val()) && rem.Val() < 2 * divisor.Val() && estimate <= 0x4000_0000
    requires estimate * divisor.Val() < 0x2000_0000 * rem.Val() + divisor.Val()
    requires 0x2000_0000 * rem.Val() < estimate * divisor.Val() + 2 * divisor.Val()
    requires n == acc * divisor.Val() + rem.Val()
    ensures q <= 0x4000_0002 && 0 < divisor.Val()
    ensures Faithful(3, 0x2000_0000 * acc + q,
      Ratio((0x2000_0000 * n) as real, divisor.Val() as real))
  {
    hide *;
    NormalNotZero(divisor);
    q := estimate;
    ghost var t := 0x2000_0000 * rem.Val() - q * divisor.Val();
    NextDigit(n, acc, divisor.Val(), rem.Val(), q, t);
    if (q + 1) % 8 < 2 {
      var r := Reduced(rem, divisor, 29, q);
      DigitTaken(divisor, rem, q, r);
      OneLess(q, divisor.Val());
      if Negative(r) {
        q := q - 1;
        r := Add128(r, divisor);
      } else {
        HoldsNat(r, t);
        if Le128(divisor, r) {
          q := q + 1;
          r := Sub128(r, divisor);
        }
      }
      NextDigit(n, acc, divisor.Val(), rem.Val(), q, r.Val());
      StickyLast(acc, q, r.Val(), 0x2000_0000 * n, divisor.Val());
      ZeroWords(r);
      if r.v64 != 0 || r.v0 != 0 {
        q := OrOne(q, true);
      }
    } else {
      NearLast(acc, q, 0x2000_0000 * n, divisor.Val(), t);
    }
  }

  lemma {:induction false} StickyLast(acc: nat, q: Word32, rem: nat, n: nat, divisor: nat)
    requires n == (0x2000_0000 * acc + q) * divisor + rem && rem < divisor && q <= 0x4000_0001
    ensures var q' := OrOne(q, rem != 0);
      q <= q' <= q + 1 && (rem == 0 ==> q' == q) &&
      Faithful(3, 0x2000_0000 * acc + q', Ratio(n as real, divisor as real))
  {
    hide Faithful;
    StickyQuotient(3, 0x2000_0000 * acc + q, OrOne(0x2000_0000 * acc + q, rem != 0), rem, n, divisor);
  }

  lemma {:induction false} NearLast(acc: nat, q: Word32, n: nat, divisor: nat, t: int)
    requires 0 < divisor && n == (0x2000_0000 * acc + q) * divisor + t && 0 < t + divisor && t < 2 * divisor
    requires 2 <= (q + 1) % 8
    ensures Faithful(3, 0x2000_0000 * acc + q, Ratio(n as real, divisor as real))
  {
    hide Faithful;
    NearQuotient(0x2000_0000 * acc + q, n, divisor);
  }

  /** The significand of a quotient between 1 and 2, as f128_div hands it to be rounded. */
  method QuotientF128(rem0: U128, divisor: U128) returns (sigZ: U128, sigZExtra: Word64)
    requires NormalSig(divisor.Val()) && divisor.Val() <= rem0.Val() < 2 * divisor.Val()
    ensures NormalSig(sigZ.Val())
    ensures Faithful(63, U128Extra(sigZ, sigZExtra).Val(),
      Scale(Ratio(rem0.Val() as real, divisor.Val() as real), 176))
  {
    hide *;
    var qs := new Word32[3];
    var rem, estimate := LeadingDigits(rem0, divisor, qs);
    DigitsApart(qs[..], rem0.Val(), divisor.Val(), rem.Val());
    ghost var acc := Digits(qs[..], 0);
    var q := LastDigit(divisor, rem, estimate, acc, Scaled(rem0.Val(), 3));
    var z := AssembleDigits(qs[2], qs[1], qs[0], q);
    QuotientScaled(rem0.Val(), divisor.Val(), 0x2000_0000 * acc + q, z);
    sigZ, sigZExtra := z.v, z.extra;
  }

  /** The digits taken so far and the remainder make up the scaled dividend. */
  ghost predicate Divided(qs: seq<Word32>, ix: nat, n: nat, divisor: nat, rem: nat) {
    |qs| == 3 && ix <= 3 && rem < 2 * divisor &&
    (forall i :: ix <= i < 3 ==> qs[i] <= 0x4000_0000) &&
    Scaled(n, 3 - ix) == Digits(qs, ix) * divisor + rem
  }

  /** The digit loop of f128_div, up to the estimate of the last digit. */
  method LeadingDigits(rem0: U128, divisor: U128, qs: array<Word32>) returns (rem: U128, q: Word32)
    requires NormalSig(divisor.Val()) && rem0.Val() < 2 * divisor.Val() && qs.Length == 3
    modifies qs
    ensures Divided(qs[..], 0, rem0.Val(), divisor.Val(), rem.Val())
    ensures rem.Val() < 2 * divisor.Val() && q == EstimateDigit(divisor, rem, ApproxRecip32F128(divisor))
  {
    hide *;
    var recip32 := ApproxRecip32F128(divisor);
    rem := rem0;
    var ix := 3;
    StartDigits(qs[..], rem0.Val(), divisor.Val());
    while true
      invariant 0 <= ix <= 3 && rem.Val() < 2 * divisor.Val()
      invariant Divided(qs[..], ix, rem0.Val(), divisor.Val(), rem.Val())
      decreases ix
    {
      q := EstimateDigit(divisor, rem, recip32);
      ix := ix - 1;
      if ix < 0 {
        break;
      }
      ghost var before, digits := rem, qs[..];
      q, rem := CorrectedDigit(divisor, rem, q);
      qs[ix] := q;
      DigitAdded(digits, qs[..], ix, rem0.Val(), divisor.Val(), before.Val(), rem.Val());
    }
  }

  /** The four digits, aligned and added, are the quotient digits followed by 60 zeros. */
  function AssembleDigits(q2: Word32, q1: Word32, q0: Word32, q: Word32): (z: U128Extra)
    requires q2 <= 0x4000_0000 && q1 <= 0x4000_0000 && q0 <= 0x4000_0000 && q <= 0x4000_0002
    ensures z.Val() == 0x1000_0000_0000_0000 *
      (0x2000_0000 * (0x2000_0000 * (0x2000_0000 * (q2 as int) + q1) + q0) + q)
  {
    var sigZExtra := Shl64(q, 60);
    var term := ShortShiftLeft128(U128(0, q1), 54);
    var sigZ := Add128(U128(q2 * 0x8_0000, q0 * 0x200_0000 + q / 0x10), term);
    Assembled(q2, q1, q0, q, term, sigZ, sigZExtra);
    U128Extra(sigZ, sigZExtra)
  }

  lemma {:induction false} Assembled(q2: Word32, q1: Word32, q0: Word32, q: Word32, term: U128,
      sigZ: U128, sigZExtra: Word64)
    requires q2 <= 0x4000_0000 && q1 <= 0x4000_0000 && q0 <= 0x4000_0000 && q <= 0x4000_0002
    requires term == ShortShiftLeft128(U128(0, q1), 54) && sigZExtra == Shl64(q, 60)
    requires sigZ == Add128(U128(q2 * 0x8_0000, q0 * 0x200_0000 + q / 0x10), term)
    ensures U128Extra(sigZ, sigZExtra).Val() == 0x1000_0000_0000_0000 *
      (0x2000_0000 * (0x2000_0000 * (0x2000_0000 * (q2 as int) + q1) + q0) + q)
  {
    MiddleTerm(q1, term);
    LowTerm(q);
    assert sigZ.Val() == q2 * 0x8_0000 * 0x1_0000_0000_0000_0000 + q0 * 0x200_0000 + q / 0x10 +
      q1 * 0x40_0000_0000_0000;
  }

  lemma {:induction false} MiddleTerm(q1: Word32, term: U128)
    requires term == ShortShiftLeft128(U128(0, q1), 54)
    ensures term.Val() == q1 * 0x40_0000_0000_0000
  {
    ShlIsTimes(q1, 54);
    Pow2Literals();
    assert Pow2(54) == 4 * Pow2(52);
    ShlOne(10);
    ShrUnique(0, 10, 0, 0);
  }

  lemma {:induction false} LowTerm(q: Word32)
    ensures Shl64(q, 60) == q % 0x10 * 0x1000_0000_0000_0000
  {
    ShlIsTimes(q, 60);
    Pow2Literals();
    Wrap64Of(Shl(q, 60), q / 0x10, q % 0x10 * 0x1000_0000_0000_0000);
  }

  lemma {:induction false} DigitsApart(qs: seq<Word32>, n: nat, divisor: nat, rem: nat)
    requires Divided(qs, 0, n, divisor, rem)
    ensures Scaled(n, 3) == Digits(qs, 0) * divisor + rem
    ensures Digits(qs, 0) == 0x2000_0000 * (0x2000_0000 * (qs[2] as int) + qs[1]) + qs[0]
    ensures qs[2] <= 0x4000_0000 && qs[1] <= 0x4000_0000 && qs[0] <= 0x4000_0000
  {
    assert Digits(qs, 1) == 0x2000_0000 * Digits(qs, 2) + qs[1];
  }

  lemma {:induction false} StartDigits(qs: seq<Word32>, n: nat, divisor: nat)
    requires |qs| == 3 && n < 2 * divisor
    ensures Divided(qs, 3, n, divisor, n)
  {
  }

  lemma {:induction false} DigitAdded(qs: seq<Word32>, qs': seq<Word32>, ix: nat, n: nat, divisor: nat,
      rem: nat, rem': nat)
    requires ix < 3 == |qs'| && Divided(qs, ix + 1, n, divisor, rem) && qs' == qs[ix := qs'[ix]]
    requires rem' == 0x2000_0000 * rem - qs'[ix] * divisor && rem' < 2 * divisor && qs'[ix] <= 0x4000_0000
    ensures Divided(qs', ix, n, divisor, rem')
  {
    DigitsFrom(qs, qs', ix + 1);
    NextDigit(Scaled(n, 2 - ix), Digits(qs, ix + 1), divisor, rem, qs'[ix], rem');
  }

  lemma {:induction false} ScaledIsShl(n: nat)
    ensures 0x2000_0000 * Scaled(n, 3) == Shl(n, 116)
  {
    Shl29(n);
    ShlShl(n, 29, 29);
    Shl29(Shl(n, 29));
    ShlShl(n, 58, 29);
    Shl29(Shl(n, 58));
    ShlShl(n, 87, 29);
    Shl29(Shl(n, 87));
    hide Shl;
    assert Scaled(n, 1) == 0x2000_0000 * n;
    assert Scaled(n, 2) == 0x2000_0000 * Scaled(n, 1);
  }

  lemma {:induction false} QuotientScaled(n: nat, divisor: nat, t: nat, z: U128Extra)
    requires 0 < divisor <= n < 2 * divisor
    requires Faithful(3, t, Ratio((0x2000_0000 * Scaled(n, 3)) as real, divisor as real))
    requires z.Val() == 0x1000_0000_0000_0000 * t
    ensures NormalSig(z.v.Val())
    ensures Faithful(63, z.Val(),
      Scale(Ratio(n as real, divisor as real), 176))
  {
    hide Faithful, Ratio, Scale, Shl, Scaled;
    var r := Ratio(n as real, divisor as real);
    ScaledIsShl(n);
    RatioShift(n, divisor, 116);
    ScaledQuotientRange(n, divisor, 116, 3, t);
    ScaleScale(r, 116, 60);
    FaithfulScaleUp(3, t, Scale(r, 116), 60);
    ShlIsTimes(t, 60);
    Pow2Literals();
    QuotientBounds();
  }

  lemma {:induction false} QuotientBounds()
    ensures Shl(1, 116) == 0x10_0000_0000_0000_0000_0000_0000_0000 && Shl(2, 116) == 2 * Shl(1, 116)
  {
    ShlOne(116);
    ShlAdd(1, 1, 116);
    Pow2Wide();
    assert Pow2(116) == 16 * Pow2(112);
  }

  /** The exact quotient of two unpacked operands, as the quotient of the significands. */
  lemma {:induction false} ExactQuotient(a: U128, expA: int, sigA: U128, b: U128, expB: int, sigB: U128)
    requires Unpacked(a, expA, sigA) && Unpacked(b, expB, sigB) && !IsZero(DatumF128(b))
    ensures 0 < sigB.Val() && 0.0 < Magnitude(F128, DatumF128(b))
    ensures InQuanta(F128, Ratio(Magnitude(F128, DatumF128(a)), Magnitude(F128, DatumF128(b)))) ==
      Scale(Ratio(sigA.Val() as real, sigB.Val() as real), expA - expB + 16494)
  {
    NormalNotZero(sigB);
    RatioInQuanta(F128, DatumF128(a), DatumF128(b));
    hide Scale, Ratio, Magnitude, DatumF128, Quanta, InQuanta;
    ScaleRatioBoth(sigA.Val() as real, expA - 1, sigB.Val() as real, expB - 1);
    ScaleScale(Ratio(sigA.Val() as real, sigB.Val() as real), expA - expB, 16494);
  }

  /** The quotient of two unpacked operands, rounded. */
  method DivideSignificands(st: FloatState, signZ: bool, ghost a: U128, expA: int, sigA: U128,
      ghost b: U128, expB: int, sigB: U128) returns (uiZ: U128)
    requires Unpacked(a, expA, sigA) && Unpacked(b, expB, sigB) && !IsZero(DatumF128(b))
    modifies st`exceptionFlags
    ensures ReturnsF128(uiZ, old(st.exceptionFlags), st.exceptionFlags, RoundedOutcome(F128, st.Env(), signZ,
      Ratio(Magnitude(F128, DatumF128(a)), Magnitude(F128, DatumF128(b)))))
  {
    hide *;
    UnpackedParts(a, expA, sigA);
    UnpackedParts(b, expB, sigB);
    ExactQuotient(a, expA, sigA, b, expB, sigB);
    var expZ := expA - expB + 0x3FFE;
    var rem := sigA;
    if Lt128(sigA, sigB) {
      expZ := expZ - 1;
      rem := Add128(sigA, sigA);
    }
    DividendScaled(sigA, sigB, rem, expA - expB, expZ);
    var sigZ, sigZExtra := QuotientF128(rem, sigB);
    ghost var x := Scale(Ratio(sigA.Val() as real, sigB.Val() as real), expA - expB + 16494);
    ghost var v := Ratio(Magnitude(F128, DatumF128(a)), Magnitude(F128, DatumF128(b)));
    uiZ := RoundPackToF128(st, signZ, expZ, sigZ, sigZExtra, x);
    RoundedIsOutcome(st.Env(), signZ, uiZ, v, x, old(st.exceptionFlags), st.exceptionFlags);
  }

  lemma {:induction false} DividendScaled(sigA: U128, sigB: U128, rem: U128, d: int, expZ: int)
    requires NormalSig(sigA.Val()) && NormalSig(sigB.Val())
    requires if sigA.Val() < sigB.Val()
      then rem.Val() == 2 * sigA.Val() && expZ == d + 0x3FFD else rem == sigA && expZ == d + 0x3FFE
    ensures 0 < sigB.Val() <= rem.Val() < 2 * sigB.Val()
    ensures Scale(Ratio(rem.Val() as real, sigB.Val() as real), 176) ==
      Scale(Scale(Ratio(sigA.Val() as real, sigB.Val() as real), d + 16494), 64 - expZ)
  {
    var r := Ratio(sigA.Val() as real, sigB.Val() as real);
    ScaleScale(r, d + 16494, 64 - expZ);
    if sigA.Val() < sigB.Val() {
      ScaleRatioLeft(sigA.Val() as real, sigB.Val() as real, 1);
      assert Scale(sigA.Val() as real, 1) == rem.Val() as real;
      hide Scale, Ratio;
      ScaleScale(r, 1, 176);
    }
  }

  lemma {:induction false} QuotientOfZero(env: Environment, a: U128, b: U128)
    requires IsZero(DatumF128(a)) && IsFinite(F128, DatumF128(b)) && !IsZero(DatumF128(b))
    ensures Divide(F128, env, DatumF128(a), DatumF128(b)) ==
      Outcome(Datum(DatumF128(a).sign != DatumF128(b).sign, 0), {})
  {
    var v, w := Magnitude(F128, DatumF128(a)), Magnitude(F128, DatumF128(b));
    InfPositive(F128);
    ZeroOutcome(F128, env, DatumF128(a).sign != DatumF128(b).sign);
    DivideCases(F128, env, DatumF128(a), DatumF128(b));
    hide Magnitude, Divide, RoundedOutcome, InfCode, DatumF128;
    assert v == 0.0;
    assert Ratio(v, w) == 0.0;
  }

  /** `f128_div`. */
  method F128Div(st: FloatState, a: U128, b: U128) returns (uiZ: U128)
    modifies st`exceptionFlags
    ensures ReturnsF128(uiZ, old(st.exceptionFlags), st.exceptionFlags,
      Divide(F128, st.Env(), DatumF128(a), DatumF128(b)))
  {
    hide *;
    var signA, expA: int, sigA := SignF128UI64(a.v64), ExpF128UI64(a.v64), FracF128(a);
    var signB, expB: int, sigB := SignF128UI64(b.v64), ExpF128UI64(b.v64), FracF128(b);
    var signZ := signA != signB;
    ClassF128(a);
    ClassF128(b);
    DivideCases(F128, st.Env(), DatumF128(a), DatumF128(b));
    ReturnsSpecialF128(signZ, st.exceptionFlags, {});
    ReturnsSpecialF128(signZ, st.exceptionFlags, {Infinite});
    UnionWithNone(st.exceptionFlags);
    if expA == 0x7FFF {
      if sigA.v64 != 0 || sigA.v0 != 0 {
        uiZ := PropagateNaNF128UI(st, a, b);
        return;
      }
      if expB == 0x7FFF {
        if sigB.v64 != 0 || sigB.v0 != 0 {
          uiZ := PropagateNaNF128UI(st, a, b);
          return;
        }
        st.RaiseFlags({Invalid});
        uiZ := DefaultNaNF128();
        return;
      }
      uiZ := U128(PackToF128UI64(signZ, 0x7FFF, 0), 0);
      return;
    }
    if expB == 0x7FFF {
      if sigB.v64 != 0 || sigB.v0 != 0 {
        uiZ := PropagateNaNF128UI(st, a, b);
        return;
      }
      uiZ := U128(PackToF128UI64(signZ, 0, 0), 0);
      return;
    }
    if expB == 0 {
      if sigB.v64 == 0 && sigB.v0 == 0 {
        if expA == 0 && sigA.v64 == 0 && sigA.v0 == 0 {
          st.RaiseFlags({Invalid});
          uiZ := DefaultNaNF128();
          return;
        }
        st.RaiseFlags({Infinite});
        uiZ := U128(PackToF128UI64(signZ, 0x7FFF, 0), 0);
        return;
      }
      expB, sigB := NormSubnormalF128Sig(sigB.v64, sigB.v0);
      UnpackedSubnormal(b, expB, sigB);
    } else {
      UnpackedNormal(b);
    }
    if expA == 0 {
      if sigA.v64 == 0 && sigA.v0 == 0 {
        QuotientOfZero(st.Env(), a, b);
        uiZ := U128(PackToF128UI64(signZ, 0, 0), 0);
        return;
      }
      expA, sigA := NormSubnormalF128Sig(sigA.v64, sigA.v0);
      UnpackedSubnormal(a, expA, sigA);
    } else {
      UnpackedNormal(a);
    }
    sigA, sigB := WithHiddenF128(sigA), WithHiddenF128(sigB);
    uiZ := DivideSignificands(st, signZ, a, expA, sigA, b, expB, sigB);
  }
}
