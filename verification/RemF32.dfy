/** `f32_rem` (softfloat/f32_rem.c). */
module RemF32 {
  import opened Arith
  import opened Powers
  import opened Rounding
  import opened Sticky
  import opened Words
  import opened RoundPack
  import opened RoundPackF32
  import opened Operations
  import opened EncodingF32
  import opened Estimate
  import opened Quotients
  import opened Remainders

  predicate Negative(r: Word32) {
    0x8000_0000 <= r
  }

  /** `r` holds the integer `t` in two's complement. */
  predicate Holds(r: Word32, t: int) {
    r == if t < 0 then t + 0x1_0000_0000 else t
  }

  predicate InRange32(t: int) {
    -0x8000_0000 <= t < 0x8000_0000
  }

  lemma {:induction false} HoldsWrapped(t: int)
    requires InRange32(t)
    ensures Holds(Wrap32(t), t) && (Negative(Wrap32(t)) <==> t < 0)
  {
  }

  /** `0x80_0000 <= sig` and its leading bit, scaled as the remainder loop wants it. */
  predicate Scaled(divisor: nat) {
    0x2000_0000 <= divisor < 0x4000_0000
  }

  /** The remainder `t` held in `rem` is what a quotient congruent to `q` modulo 2 leaves of `n`. */
  ghost predicate Leaves(n: int, divisor: nat, quot: int, q: nat, rem: Word32, t: int) {
    n == quot * divisor + t && quot % 2 == q % 2 && Holds(rem, t)
  }

  lemma {:induction false} LeavesIs(n: int, divisor: nat, quot: int, q: nat, rem: Word32, t: int)
    requires n == quot * divisor + t && quot % 2 == q % 2 && InRange32(t) && rem == Wrap32(t)
    ensures Leaves(n, divisor, quot, q, rem, t) && (Negative(rem) <==> t < 0)
  {
  }

  /** A reciprocal of a scaled divisor, from all its bits. */
  predicate Reciprocal(sigB: nat, recip32: Word32) {
    recip32 * (4 * sigB) <= 0x7FFF_FFFF_FFFF_FFFF < recip32 * (4 * sigB) + 4 * sigB
  }

  function ApproxRecip32F32(sigB: Word32): (r: Word32)
    requires NormalF32Sig(sigB)
    ensures Reciprocal(sigB * 0x40, r)
  {
    ApproxRecip32(sigB * 0x100)
  }

  /** The high 32 bits of a product of 32-bit words. */
  function TopProduct(rem: Word32, recip32: Word32): nat {
    MulLe(0, rem, recip32);
    rem * recip32 / 0x1_0000_0000
  }

  /** The digit loop of f32_rem.  Only the low 32 bits of each product are kept: the shifted
      remainder vanishes modulo 2^32, because every remainder is a multiple of 8. */
  method LeadingDigits(sigA: Word32, sigB: Word32, recip32: Word32, expDiff0: int)
    returns (rem: Word32, q: nat, expDiff: int, ghost acc: nat)
    requires Scaled(sigA) && Scaled(sigB) && sigA % 8 == 0 && sigB % 8 == 0 && 1 <= expDiff0
    requires Reciprocal(sigB, recip32)
    ensures 0 <= expDiff + 30 <= 29 && rem < 4 * sigB && (expDiff + 30 == 0 ==> acc == 0)
    ensures Reducing(2 * sigA, expDiff0 - 31 - expDiff, acc, sigB, rem)
    ensures q == TopProduct(rem, recip32)
  {
    hide *;
    expDiff := expDiff0 - 31;
    StartReduction(sigA, sigB);
    rem := 2 * sigA;
    acc := 0;
    while true
      invariant -30 <= expDiff <= expDiff0 - 31 && rem < 4 * sigB && rem % 8 == 0
      invariant expDiff + 30 == 0 ==> acc == 0
      invariant Reducing(2 * sigA, expDiff0 - 31 - expDiff, acc, sigB, rem)
      decreases expDiff
    {
      q := TopProduct(rem, recip32);
      if expDiff < 0 {
        break;
      }
      ghost var before := rem;
      rem := Wrap32(-(q * sigB));
      VanishingShift(sigB, before, recip32, q, rem);
      StepReduction(2 * sigA, expDiff0 - 31 - expDiff, acc, sigB, before, q, rem);
      acc := 0x2000_0000 * acc + q;
      expDiff := expDiff - 29;
    }
  }

  lemma {:induction false} StartReduction(sigA: Word32, sigB: Word32)
    requires Scaled(sigA) && Scaled(sigB) && sigA % 8 == 0
    ensures 2 * sigA < 0x8000_0000 && 2 * sigA < 4 * sigB && 2 * sigA % 8 == 0
    ensures Reducing(2 * sigA, 0, 0, sigB, 2 * sigA)
  {
  }

  lemma {:induction false} VanishingShift(sigB: Word32, rem: Word32, recip32: Word32, q: nat, r: Word32)
    requires Scaled(sigB) && sigB % 8 == 0 && rem < 4 * sigB && rem % 8 == 0 && Reciprocal(sigB, recip32)
    requires q == TopProduct(rem, recip32) && r == Wrap32(-(q * sigB))
    ensures r == 0x2000_0000 * rem - q * sigB && r < 2 * sigB && r % 8 == 0
  {
    LastDigitBound(sigB, rem, recip32, 29, q);
    hide *;
    Shl29(rem);
    MultipleOf8(q, sigB);
    WrapsAway(rem, q * sigB);
  }

  lemma {:induction false} WrapsAway(rem: Word32, p: int)
    requires rem % 8 == 0 && p % 8 == 0 && 0 <= 0x2000_0000 * rem - p < 0x1_0000_0000
    ensures Wrap32(-p) == 0x2000_0000 * rem - p && Wrap32(-p) % 8 == 0
  {
    Wrap32Of(-p, -(rem / 8), 0x2000_0000 * rem - p);
  }

  lemma {:induction false} MultipleOf8(q: int, y: int)
    requires y % 8 == 0
    ensures q * y % 8 == 0
  {
    assert q * y == 8 * (q * (y / 8));
  }

  /** A dividend far above the divisor brought within two divisors of zero. */
  method ReduceF32(sigA: Word32, sigB: Word32, recip32: Word32, expDiff0: int)
    returns (q: nat, rem: Word32, ghost quot: int, ghost t: int)
    requires Scaled(sigA) && Scaled(sigB) && sigA % 8 == 0 && sigB % 8 == 0 && 1 <= expDiff0
    requires Reciprocal(sigB, recip32)
    ensures Leaves(Shl(sigA, expDiff0), sigB, quot, q, rem, t) && 0 <= t < 0x8000_0000
  {
    hide *;
    ghost var acc;
    var expDiff;
    rem, q, expDiff, acc := LeadingDigits(sigA, sigB, recip32, expDiff0);
    ghost var before := rem;
    q := Shr(q, -expDiff - 1);
    LastDigitBound(sigB, rem, recip32, expDiff + 30, q);
    t := Shl(rem, expDiff + 30) - q * sigB;
    LastLeaves(sigA, expDiff0, acc, sigB, rem, expDiff + 30, q, t);
    quot := Shl(acc, expDiff + 30) + q;
    rem := Wrap32(Wrap32(Shl(rem, expDiff + 30)) - q * sigB);
    WrappedTwice(Shl(before, expDiff + 30), q * sigB);
    LeavesIs(Shl(sigA, expDiff0), sigB, quot, q, rem, t);
  }

  lemma {:induction false} WrappedTwice(x: int, y: int)
    ensures Wrap32(Wrap32(x) - y) == Wrap32(x - y)
  {
    WrapIsModulo(x);
    WrapIsModulo(x - y);
    var j := x / 0x1_0000_0000;
    Wrap32Of(Wrap32(x) - y, (x - y) / 0x1_0000_0000 - j, Wrap32(x - y));
  }

  lemma {:induction false} LastDigitBound(sigB: Word32, rem: Word32, recip32: Word32, s: nat, q: nat)
    requires Scaled(sigB) && rem < 4 * sigB && s <= 29 && Reciprocal(sigB, recip32)
    requires q == Shr(TopProduct(rem, recip32), 29 - s)
    ensures var t := Shl(rem, s) - q * sigB; 0 <= t < 2 * sigB && t < 0x8000_0000 && InRange32(t)
  {
    MulLe(0, rem, recip32);
    ShortDigit(sigB, rem, recip32, s, q);
  }

  lemma {:induction false} LastLeaves(a: nat, expDiff: nat, acc: nat, b: nat, rem: nat, s: nat,
      digit: nat, t: int)
    requires Reducing(2 * a, expDiff - 1 - s, acc, b, rem) && t == Shl(rem, s) - digit * b
    requires s == 0 ==> acc == 0
    ensures 0 <= Shl(a, expDiff) == (Shl(acc, s) + digit) * b + t
    ensures (Shl(acc, s) + digit) % 2 == digit % 2
  {
    ShlShl(a, 1, expDiff - 1);
    ShlShl(2 * a, expDiff - 1 - s, s);
    ShlNonneg(a, expDiff);
    ShlAdd(acc * b, rem, s);
    ShlMul(acc, b, s);
    EvenTimes(acc, s, digit);
    hide Shl;
    assert (Shl(acc, s) + digit) * b == Shl(acc, s) * b + digit * b;
  }

  /** The divisor subtracted until the remainder goes negative. */
  method Overshoot(sigB: Word32, q0: nat, rem0: Word32, ghost n: int, ghost quot0: int, ghost t0: int)
    returns (q: nat, rem: Word32, altRem: Word32, ghost quot: int, ghost t: int)
    requires 0 < sigB < 0x4000_0000 && Leaves(n, sigB, quot0, q0, rem0, t0) && 0 <= t0 < 0x8000_0000
    ensures Leaves(n, sigB, quot, q, rem, t) && -(sigB as int) <= t < 0 && Holds(altRem, t + sigB)
  {
    hide *;
    altRem := rem0;
    q := q0 + 1;
    rem := Wrap32(rem0 as int - sigB);
    quot, t := quot0 + 1, t0 - sigB;
    OneMore(n, sigB, quot0, q0, rem0, t0);
    while !Negative(rem)
      invariant Leaves(n, sigB, quot, q, rem, t) && -(sigB as int) <= t < 0x8000_0000
      invariant Holds(altRem, t + sigB) && (Negative(rem) <==> t < 0)
      decreases t + sigB
    {
      OneMore(n, sigB, quot, q, rem, t);
      altRem := rem;
      q := q + 1;
      rem := Wrap32(rem as int - sigB);
      quot, t := quot + 1, t - sigB;
    }
  }

  lemma {:induction false} OneMore(n: int, sigB: Word32, quot: int, q: nat, rem: Word32, t: int)
    requires 0 < sigB < 0x4000_0000 && Leaves(n, sigB, quot, q, rem, t) && 0 <= t < 0x8000_0000
    ensures var rem' := Wrap32((rem as int) - sigB);
      Leaves(n, sigB, quot + 1, q + 1, rem', t - sigB) && Holds(rem, t) && (Negative(rem') <==> t < sigB)
  {
    OneLess(quot, sigB);
    NextParity(quot, q);
    HoldsWrapped(t - sigB);
    hide Negative, Wrap32;
  }

  /** The nearer of the last two remainders. */
  method SelectRem(sigB: Word32, q: nat, rem: Word32, altRem: Word32, ghost n: int, ghost quot: int,
      ghost t: int) returns (r: Word32, ghost nearest: int, ghost value: int)
    requires 0 < sigB < 0x4000_0000 && Leaves(n, sigB, quot, q, rem, t) && 0 <= n
    requires -(sigB as int) <= t < 0 && Holds(altRem, t + sigB)
    ensures IsNearest(n, sigB, nearest, value) && Holds(r, value)
  {
    hide *;
    MeanHolds(sigB, rem, altRem, t, n, quot, q);
    SelectsNearest(n, sigB, quot, q, t);
    var meanRem := Wrap32(rem as int + altRem);
    if Negative(meanRem) || (meanRem == 0 && q % 2 == 1) {
      r := altRem;
      nearest, value := quot - 1, t + sigB;
    } else {
      r := rem;
      nearest, value := quot, t;
    }
  }

  lemma {:induction false} MeanHolds(sigB: Word32, rem: Word32, altRem: Word32, t: int, n: int,
      quot: int, q: nat)
    requires 0 < sigB < 0x4000_0000 && Leaves(n, sigB, quot, q, rem, t)
    requires -(sigB as int) <= t < 0 && Holds(altRem, t + sigB)
    ensures n == quot * sigB + t && quot % 2 == q % 2 && Holds(rem, t)
    ensures var mean := Wrap32(rem as int + altRem);
      (Negative(mean) <==> 2 * t + sigB < 0) && (mean == 0 <==> 2 * t + sigB == 0)
  {
  }

  /** Magnitudes below a quarter of the divisor's binade are their own remainders. */
  lemma {:induction false} FarBelow(a: Word32, expA: int, sigA: Word32, b: Word32, expB: int, sigB: Word32)
    requires UnpackedF32(a, expA, sigA) && UnpackedF32(b, expB, sigB) && expA - expB < -1
    ensures 2 * Quanta(F32, DatumF32(a).code) < Quanta(F32, DatumF32(b).code)
  {
    hide Quanta, DatumF32;
    var x, y := sigA as real, sigB as real;
    ScaleSucc(x, expA - 1);
    ScaleOrder(x, 2.0 * y, expA);
    assert Scale(y, 1) == 2.0 * y;
    ScaleScale(y, 1, expA);
    ScaleIncreases(y, expA + 1, expB - 1);
  }

  /** The operands in the units of the remainder loop. */
  lemma {:induction false} CommonScale(a: Word32, expA: int, sigA: Word32, b: Word32, expB: int, sigB: Word32)
    requires UnpackedF32(a, expA, sigA) && UnpackedF32(b, expB, sigB)
    ensures NormalF32Sig(sigA) && NormalF32Sig(sigB) && -22 <= expB < 0xFF && -22 <= expA < 0xFF
    ensures Scaled(sigA * 0x40) && Scaled(sigB * 0x40)
    ensures Quanta(F32, DatumF32(a).code) as real == Scale((sigA * 0x40) as real, expA - 7)
    ensures Quanta(F32, DatumF32(a).code) as real == Scale((sigA * 0x20) as real, expA - 6)
    ensures Quanta(F32, DatumF32(b).code) as real == Scale((sigB * 0x40) as real, expB - 7)
    ensures expB <= expA ==> (0 <= Shl(sigA * 0x40, expA - expB) &&
      Quanta(F32, DatumF32(a).code) as real == Scale(Shl(sigA * 0x40, expA - expB) as real, expB - 7))
  {
    hide Quanta, DatumF32;
    UnitsUp(sigA, expA - 1);
    UnitsUp(sigB, expB - 1);
    if expB <= expA {
      ShlNonneg(sigA * 0x40, expA - expB);
      ScaleInt(sigA * 0x40, expA - expB);
      ScaleScale((sigA * 0x40) as real, expA - expB, expB - 7);
    }
  }

  lemma {:induction false} UnitsUp(sig: Word32, k: int)
    ensures Scale(sig as real, k) == Scale((sig * 0x40) as real, k - 6)
    ensures Scale(sig as real, k) == Scale((sig * 0x20) as real, k - 5)
  {
    ScaleInt(sig, 5);
    ShlIsTimes(sig, 5);
    assert Pow2(5) == 0x20;
    ScaleScale(sig as real, 5, k - 5);
    ScaleScale((sig * 0x20) as real, 1, k - 6);
    assert Scale((sig * 0x20) as real, 1) == (sig * 0x40) as real;
  }

  /** The nearer of the last two remainders, packed with its sign. */
  method FinishRem(st: FloatState, signA: bool, ghost a: Word32, ghost b: Word32, expB: int,
      sigB: Word32, q: nat, rem0: Word32, altRem: Word32, ghost n: int, ghost quot: int, ghost t: int)
    returns (uiZ: Word32)
    requires IsFinite(F32, DatumF32(a)) && IsFinite(F32, DatumF32(b)) && !IsZero(DatumF32(b))
    requires signA == DatumF32(a).sign && -22 <= expB < 0xFF && 0 <= n
    requires Quanta(F32, DatumF32(a).code) as real == Scale(n as real, expB - 7)
    requires Quanta(F32, DatumF32(b).code) as real == Scale(sigB as real, expB - 7)
    requires 0 < sigB < 0x4000_0000 && Leaves(n, sigB, quot, q, rem0, t)
    requires -(sigB as int) <= t < 0 && Holds(altRem, t + sigB)
    modifies st`exceptionFlags
    ensures ReturnsF32(uiZ, old(st.exceptionFlags), st.exceptionFlags,
      Remainder(F32, st.Env(), DatumF32(a), DatumF32(b)))
  {
    hide *;
    ghost var nearest, value;
    var rem;
    rem, nearest, value := SelectRem(sigB, q, rem0, altRem, n, quot, t);
    RemainderIs(F32, st.Env(), DatumF32(a), DatumF32(b), n, sigB, nearest, value, expB - 7);
    NearestSmall(n, sigB, nearest, value, rem);
    var signRem := signA;
    if Negative(rem) {
      signRem := !signRem;
      rem := Wrap32(-(rem as int));
    }
    ghost var x := Scale((if value < 0 then -value else value) as real, expB - 7);
    uiZ := NormRoundPackToF32(st, signRem, expB, rem, x);
    ReturnsIs(uiZ, signRem, st.Env(), x, old(st.exceptionFlags), st.exceptionFlags);
  }

  lemma {:induction false} NearestSmall(n: int, sigB: Word32, nearest: int, value: int, rem: Word32)
    requires 0 <= n && 0 < sigB < 0x4000_0000 && IsNearest(n, sigB, nearest, value) && Holds(rem, value)
    ensures Negative(rem) <==> value < 0
    ensures (if value < 0 then Wrap32(-(rem as int)) else rem) == (if value < 0 then -value else value) < 0x8000_0000
  {
  }

  lemma {:induction false} StartShort(sigA: nat, sigB: Word32, q: nat, rem: Word32)
    requires 0 < sigB < 0x4000_0000 && 0 <= sigA < 2 * sigB && sigA < 0x8000_0000
    requires if q == 0 then rem == sigA else q == 1 && sigB <= sigA && rem == sigA - sigB
    ensures Leaves(sigA, sigB, q, q, rem, rem) && rem < 0x8000_0000
  {
  }

  /** The remainder of two unpacked operands. */
  method RemainderSignificands(st: FloatState, signA: bool, a: Word32, expA: int, sigA: Word32,
      ghost b: Word32, expB: int, sigB0: Word32) returns (uiZ: Word32)
    requires UnpackedF32(a, expA, sigA) && UnpackedF32(b, expB, sigB0) && signA == DatumF32(a).sign
    requires IsFinite(F32, DatumF32(a)) && IsFinite(F32, DatumF32(b)) && !IsZero(DatumF32(b))
    modifies st`exceptionFlags
    ensures ReturnsF32(uiZ, old(st.exceptionFlags), st.exceptionFlags,
      Remainder(F32, st.Env(), DatumF32(a), DatumF32(b)))
  {
    hide *;
    CommonScale(a, expA, sigA, b, expB, sigB0);
    UnitsFit(sigA);
    UnitsFit(sigB0);
    var sigB: Word32 := sigB0 * 0x40;
    var rem, q, altRem;
    var expDiff := expA - expB;
    ghost var n, quot, t := 0, 0, 0;
    if expDiff < 1 {
      if expDiff < -1 {
        FarBelow(a, expA, sigA, b, expB, sigB0);
        RemainderOfSmall(F32, st.Env(), DatumF32(a), DatumF32(b));
        ReturnsItself(a, st.exceptionFlags);
        uiZ := a;
        return;
      }
      if expDiff != 0 {
        rem := sigA * 0x20;
        n := rem;
        q := 0;
      } else {
        rem := sigA * 0x40;
        n := rem;
        q := if sigB <= rem then 1 else 0;
        if q != 0 {
          rem := rem - sigB;
        }
      }
      StartShort(n, sigB, q, rem);
      q, rem, altRem, quot, t := Overshoot(sigB, q, rem, n, q, rem);
    } else {
      var recip32 := ApproxRecip32F32(sigB0);
      Multiples8(sigA);
      Multiples8(sigB0);
      n := Shl(sigA * 0x40, expDiff);
      q, rem, quot, t := ReduceF32(sigA * 0x40, sigB, recip32, expDiff);
      q, rem, altRem, quot, t := Overshoot(sigB, q, rem, n, quot, t);
    }
    uiZ := FinishRem(st, signA, a, b, expB, sigB, q, rem, altRem, n, quot, t);
  }

  lemma {:induction false} UnitsFit(sig: Word32)
    requires NormalF32Sig(sig)
    ensures 0x80_0000 <= sig < 2 * 0x80_0000 && 0x2000_0000 <= sig * 0x40 < 0x4000_0000 && sig * 0x20 < 0x2000_0000
  {
  }

  lemma {:induction false} Multiples8(sig: Word32)
    ensures sig * 0x40 % 8 == 0
  {
  }

  /** `f32_rem`. */
  method F32Rem(st: FloatState, a: Word32, b: Word32) returns (uiZ: Word32)
    modifies st`exceptionFlags
    ensures ReturnsF32(uiZ, old(st.exceptionFlags), st.exceptionFlags,
      Remainder(F32, st.Env(), DatumF32(a), DatumF32(b)))
  {
    hide *;
    var signA, expA: int, sigA := SignF32UI(a), ExpF32UI(a), FracF32UI(a);
    var expB: int, sigB := ExpF32UI(b), FracF32UI(b);
    ClassF32(a);
    ClassF32(b);
    RemainderCases(F32, st.Env(), DatumF32(a), DatumF32(b));
    ReturnsSpecialF32(signA, st.exceptionFlags, {});
    ReturnsItself(a, st.exceptionFlags);
    UnionWithNone(st.exceptionFlags);
    if expA == 0xFF {
      if sigA != 0 || (expB == 0xFF && sigB != 0) {
        uiZ := PropagateNaNF32UI(st, a, b);
        return;
      }
      st.RaiseFlags({Invalid});
      uiZ := DefaultNaNF32();
      return;
    }
    if expB == 0xFF {
      if sigB != 0 {
        uiZ := PropagateNaNF32UI(st, a, b);
        return;
      }
      uiZ := a;
      return;
    }
    if expB == 0 {
      if sigB == 0 {
        st.RaiseFlags({Invalid});
        uiZ := DefaultNaNF32();
        return;
      }
      expB, sigB := NormSubnormalF32Sig(sigB);
      UnpackedSubnormalF32(b, expB, sigB);
    } else {
      UnpackedNormalF32(b);
    }
    if expA == 0 {
      if sigA == 0 {
        RemainderOfZero(F32, st.Env(), DatumF32(a), DatumF32(b));
        uiZ := a;
        return;
      }
      expA, sigA := NormSubnormalF32Sig(sigA);
      UnpackedSubnormalF32(a, expA, sigA);
    } else {
      UnpackedNormalF32(a);
    }
    sigA, sigB := WithHiddenF32(sigA), WithHiddenF32(sigB);
    uiZ := RemainderSignificands(st, signA, a, expA, sigA, b, expB, sigB);
  }
}
