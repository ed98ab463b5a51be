/** `f128_rem` (softfloat/f128_rem.c). */
module RemF128 {
  import opened Arith
  import opened Powers
  import opened Rounding
  import opened Sticky
  import opened Words
  import opened RoundPack
  import opened RoundPackF128
  import opened Operations
  import opened EncodingF128
  import opened Estimate
  import opened StepF128
  import opened Quotients
  import opened Remainders

  /** The remainder `t` held in `rem` is what a quotient congruent to `q` modulo 2 leaves of `n`. */
  ghost predicate Leaves(n: int, divisor: U128, quot: int, q: nat, rem: U128, t: int) {
    n == quot * divisor.Val() + t && quot % 2 == q % 2 && Holds(rem, t)
  }

  /** The digit loop of f128_rem: it stops with under 30 places of the dividend unseen. */
  method LeadingDigits(sigA: U128, sigB: U128, expDiff0: int)
    returns (rem: U128, expDiff: int, ghost acc: nat)
    requires NormalSig(sigA.Val()) && NormalSig(sigB.Val()) && 1 <= expDiff0
    ensures 1 <= expDiff + 30 <= 29 && rem.Val() < 2 * sigB.Val()
    ensures Reducing(sigA.Val(), expDiff0 - 30 - expDiff, acc, sigB.Val(), rem.Val())
  {
    hide *;
    var recip32 := ApproxRecip32F128(sigB);
    expDiff := expDiff0 - 30;
    rem := sigA;
    acc := 0;
    StartReduction(sigA, sigB);
    while true
      invariant -29 <= expDiff <= expDiff0 - 30 && rem.Val() < 2 * sigB.Val()
      invariant Reducing(sigA.Val(), expDiff0 - 30 - expDiff, acc, sigB.Val(), rem.Val())
      decreases expDiff
    {
      if expDiff < 0 {
        break;
      }
      var estimate := EstimateDigit(sigB, rem, recip32);
      ghost var before, digit: nat := rem, 0;
      digit, rem := CorrectedDigit(sigB, rem, estimate);
      StepReduction(sigA.Val(), expDiff0 - 30 - expDiff, acc, sigB.Val(), before.Val(), digit, rem.Val());
      acc := 0x2000_0000 * acc + digit;
      expDiff := expDiff - 29;
    }
  }

  lemma {:induction false} StartReduction(sigA: U128, sigB: U128)
    requires NormalSig(sigA.Val()) && NormalSig(sigB.Val())
    ensures sigA.Val() < 2 * sigB.Val() && Reducing(sigA.Val(), 0, 0, sigB.Val(), sigA.Val())
  {
  }

  /** A dividend far above the divisor brought within a few divisors of zero. */
  method ReduceF128(sigA: U128, sigB: U128, expDiff0: int)
    returns (q: nat, rem: U128, ghost quot: int, ghost t: int)
    requires NormalSig(sigA.Val()) && NormalSig(sigB.Val()) && 1 <= expDiff0
    ensures Leaves(Shl(sigA.Val(), expDiff0), sigB, quot, q, rem, t)
    ensures 0 < t + sigB.Val() && t < 3 * sigB.Val()
  {
    hide *;
    ghost var acc;
    var expDiff;
    rem, expDiff, acc := LeadingDigits(sigA, sigB, expDiff0);
    var digit := LastBits(sigB, rem, ApproxRecip32F128(sigB), expDiff + 30);
    t := Shl(rem.Val(), expDiff + 30) - digit * sigB.Val();
    LastInRange(sigB, t);
    LastLeaves(sigA.Val(), expDiff0, acc, sigB.Val(), rem.Val(), expDiff + 30, digit, t);
    quot := Shl(acc, expDiff + 30) + digit;
    q := digit;
    rem := Reduced(rem, sigB, expDiff + 30, digit);
    LeavesIs(Shl(sigA.Val(), expDiff0), sigB, quot, q, rem, t);
  }

  /** The last digit: as many leading bits of the truncated estimate as there are places left. */
  function LastBits(divisor: U128, rem: U128, recip32: Word32, s: nat): (q: Word32)
    requires NormalSig(divisor.Val()) && rem.Val() < 2 * divisor.Val() && 1 <= s <= 29
    requires recip32 == ApproxRecip32F128(divisor)
    ensures var t := Shl(rem.Val(), s) - q * divisor.Val();
      0 < t + divisor.Val() && t < 3 * divisor.Val()
  {
    var q64 := rem.v64 / 0x8_0000 * recip32;
    LastBitsBound(divisor, rem, recip32, s, q64);
    Shr(q64 / 0x1_0000_0000, 29 - s)
  }

  lemma {:induction false} LastBitsBound(divisor: U128, rem: U128, recip32: Word32, s: nat, q64: int)
    requires NormalSig(divisor.Val()) && rem.Val() < 2 * divisor.Val() && 1 <= s <= 29
    requires recip32 == ApproxRecip32F128(divisor) && q64 == rem.v64 / 0x8_0000 * recip32
    ensures 0 <= q64 && Shr(q64 / 0x1_0000_0000, 29 - s) < 0x8000_0000
    ensures var t := Shl(rem.Val(), s) - Shr(q64 / 0x1_0000_0000, 29 - s) * divisor.Val();
      0 < t + divisor.Val() && t < 3 * divisor.Val()
  {
    hide *;
    LeadingF128(divisor, rem, recip32);
    EstimateFits(rem.v64 / 0x8_0000, recip32, 29 - s);
    TruncatedDigit(divisor.Val(), rem.Val(), 0x2_0000_0000_0000_0000_0000, divisor.v64 / 0x2_0000,
      rem.v64 / 0x8_0000, recip32, s, Shr(q64 / 0x1_0000_0000, 29 - s));
  }

  lemma {:induction false} EstimateFits(r: nat, recip32: Word32, d: nat)
    requires r < 0x8000_0000
    ensures 0 <= r * recip32 && Shr(r * recip32 / 0x1_0000_0000, d) < 0x8000_0000
  {
    MulLe(0, r, recip32);
    MulLe(r, 0x7FFF_FFFF, recip32);
    ShrAtMost(r * recip32 / 0x1_0000_0000, d);
  }

  lemma {:induction false} LastInRange(sigB: U128, t: int)
    requires NormalSig(sigB.Val()) && 0 < t + sigB.Val() && t < 3 * sigB.Val()
    ensures InRange128(t)
  {
  }

  lemma {:induction false} LeavesIs(n: int, divisor: U128, quot: int, q: nat, rem: U128, t: int)
    requires n == quot * divisor.Val() + t && quot % 2 == q % 2 && Holds(rem, t)
    ensures Leaves(n, divisor, quot, q, rem, t)
  {
  }

  predicate SmallDivisor(divisor: nat) {
    0 < divisor < 0x4_0000_0000_0000_0000_0000_0000_0000
  }

  /** The divisor subtracted until the remainder goes negative. */
  method Overshoot(sigB: U128, q0: nat, rem0: U128, ghost n: int, ghost quot0: int, ghost t0: int)
    returns (q: nat, rem: U128, altRem: U128, ghost quot: int, ghost t: int)
    requires SmallDivisor(sigB.Val()) && Leaves(n, sigB, quot0, q0, rem0, t0) && 0 <= t0 < 3 * sigB.Val()
    ensures Leaves(n, sigB, quot, q, rem, t) && 0 <= t + sigB.Val() && t < 0
    ensures Holds(altRem, t + sigB.Val())
  {
    hide *;
    altRem := rem0;
    q := q0 + 1;
    rem := Sub128(rem0, sigB);
    quot, t := quot0 + 1, t0 - sigB.Val();
    OneMore(n, sigB, quot0, q0, rem0, t0);
    while !Negative(rem)
      invariant Leaves(n, sigB, quot, q, rem, t) && 0 <= t + sigB.Val() && t < 3 * sigB.Val()
      invariant Holds(altRem, t + sigB.Val())
      decreases t + sigB.Val()
    {
      LeavesSign(n, sigB, quot, q, rem, t);
      OneMore(n, sigB, quot, q, rem, t);
      altRem := rem;
      q := q + 1;
      rem := Sub128(rem, sigB);
      quot, t := quot + 1, t - sigB.Val();
    }
    LeavesSign(n, sigB, quot, q, rem, t);
  }

  lemma {:induction false} OneMore(n: int, sigB: U128, quot: int, q: nat, rem: U128, t: int)
    requires SmallDivisor(sigB.Val()) && Leaves(n, sigB, quot, q, rem, t) && 0 <= t < 3 * sigB.Val()
    ensures Leaves(n, sigB, quot + 1, q + 1, Sub128(rem, sigB), t - sigB.Val())
    ensures Holds(rem, t) && 0 < sigB.Val()
  {
    RangeOfRemainder(sigB, t);
    OneMoreRange(sigB, t);
    OneLess(quot, sigB.Val());
    NextParity(quot, q);
    hide SmallDivisor, InRange128, Sub128, Holds;
    SubHolds(rem, t, sigB);
  }

  lemma {:induction false} OneMoreRange(sigB: U128, t: int)
    requires SmallDivisor(sigB.Val()) && 0 <= t < 3 * sigB.Val()
    ensures InRange128(t - sigB.Val()) && 0 < sigB.Val()
  {
  }

  lemma {:induction false} LeavesSign(n: int, sigB: U128, quot: int, q: nat, rem: U128, t: int)
    requires SmallDivisor(sigB.Val()) && Leaves(n, sigB, quot, q, rem, t)
    requires 0 <= t + sigB.Val() && t < 3 * sigB.Val()
    ensures Negative(rem) <==> t < 0
    ensures t < 0 ==> Holds(Add128(rem, sigB), t + sigB.Val())
  {
    RangeOfRemainder(sigB, t);
    NegativeIff(rem, t);
    if t < 0 {
      AddHolds(rem, t, sigB);
    }
  }

  lemma {:induction false} RangeOfRemainder(sigB: U128, t: int)
    requires SmallDivisor(sigB.Val()) && 0 <= t + sigB.Val() && t < 3 * sigB.Val()
    ensures InRange128(t) && InRange128(t + sigB.Val())
  {
  }

  /** The nearer of the last two remainders. */
  method SelectRem(sigB: U128, q: nat, rem: U128, altRem: U128, ghost n: int, ghost quot: int, ghost t: int)
    returns (r: U128, ghost nearest: int, ghost value: int)
    requires SmallDivisor(sigB.Val()) && Leaves(n, sigB, quot, q, rem, t) && 0 <= n
    requires 0 <= t + sigB.Val() && t < 0 && Holds(altRem, t + sigB.Val())
    ensures IsNearest(n, sigB.Val(), nearest, value) && Holds(r, value)
  {
    hide *;
    MeanHolds(sigB, rem, altRem, t, n, quot, q);
    SelectsNearest(n, sigB.Val(), quot, q, t);
    var meanRem := Add128(rem, altRem);
    if Negative(meanRem) || (meanRem.v64 == 0 && meanRem.v0 == 0 && q % 2 == 1) {
      r := altRem;
      nearest, value := quot - 1, t + sigB.Val();
    } else {
      r := rem;
      nearest, value := quot, t;
    }
  }

  lemma {:induction false} MeanHolds(sigB: U128, rem: U128, altRem: U128, t: int, n: int, quot: int, q: nat)
    requires SmallDivisor(sigB.Val()) && Leaves(n, sigB, quot, q, rem, t)
    requires 0 <= t + sigB.Val() && t < 0 && Holds(altRem, t + sigB.Val())
    ensures 0 < sigB.Val() && n == quot * sigB.Val() + t && quot % 2 == q % 2 && Holds(rem, t)
    ensures var mean := Add128(rem, altRem);
      (Negative(mean) <==> 2 * t + sigB.Val() < 0) &&
      (mean.v64 == 0 && mean.v0 == 0 <==> 2 * t + sigB.Val() == 0)
  {
    hide Add128, Negative;
    HoldsNat(altRem, t + sigB.Val());
    AddHolds(rem, t, altRem);
    NegativeIff(Add128(rem, altRem), 2 * t + sigB.Val());
    ZeroWords(Add128(rem, altRem));
  }

  /** Magnitudes below a quarter of the divisor's binade are their own remainders. */
  lemma {:induction false} FarBelow(a: U128, expA: int, sigA: U128, b: U128, expB: int, sigB: U128)
    requires Unpacked(a, expA, sigA) && Unpacked(b, expB, sigB) && expA - expB < -1
    ensures 2 * Quanta(F128, DatumF128(a).code) < Quanta(F128, DatumF128(b).code)
  {
    hide Quanta, DatumF128;
    var x, y := sigA.Val() as real, sigB.Val() as real;
    ScaleSucc(x, expA - 1);
    ScaleOrder(x, 2.0 * y, expA);
    assert Scale(y, 1) == 2.0 * y;
    ScaleScale(y, 1, expA);
    ScaleIncreases(y, expA + 1, expB - 1);
  }

  /** The dividend and the divisor on a common scale. */
  lemma {:induction false} CommonScale(a: U128, expA: int, sigA: U128, b: U128, expB: int, sigB: U128)
    requires Unpacked(a, expA, sigA) && Unpacked(b, expB, sigB)
    ensures expB <= expA ==> (0 <= Shl(sigA.Val(), expA - expB) &&
      Quanta(F128, DatumF128(a).code) as real == Scale(Shl(sigA.Val(), expA - expB) as real, expB - 1))
    ensures Quanta(F128, DatumF128(a).code) as real == Scale(sigA.Val() as real, expA - 1)
    ensures Quanta(F128, DatumF128(b).code) as real == Scale(sigB.Val() as real, expB - 1)
    ensures Quanta(F128, DatumF128(b).code) as real == Scale((2 * sigB.Val()) as real, expB - 2)
    ensures NormalSig(sigA.Val()) && NormalSig(sigB.Val())
    ensures SmallDivisor(sigB.Val()) && SmallDivisor(2 * sigB.Val()) && -111 <= expB <= 0x7FFE
    ensures sigA.Val() < 2 * sigB.Val() && Add128(sigB, sigB).Val() == 2 * sigB.Val()
  {
    hide Quanta, DatumF128;
    ScaleInt(sigB.Val(), 1);
    ScaleScale(sigB.Val() as real, 1, expB - 2);
    if expB <= expA {
      ShlNonneg(sigA.Val(), expA - expB);
      ScaleInt(sigA.Val(), expA - expB);
      ScaleScale(sigA.Val() as real, expA - expB, expB - 1);
    }
  }

  /** The remainder of two unpacked operands. */
  method RemainderSignificands(st: FloatState, signA: bool, a: U128, expA: int, sigA: U128,
      ghost b: U128, expB0: int, sigB0: U128) returns (uiZ: U128)
    requires Unpacked(a, expA, sigA) && Unpacked(b, expB0, sigB0) && signA == DatumF128(a).sign
    requires IsFinite(F128, DatumF128(a)) && IsFinite(F128, DatumF128(b)) && !IsZero(DatumF128(b))
    modifies st`exceptionFlags
    ensures ReturnsF128(uiZ, old(st.exceptionFlags), st.exceptionFlags,
      Remainder(F128, st.Env(), DatumF128(a), DatumF128(b)))
  {
    hide *;
    var expB, sigB, rem := expB0, sigB0, sigA;
    var expDiff := expA - expB;
    var q, altRem;
    ghost var n, quot, t := sigA.Val() as int, 0, 0;
    CommonScale(a, expA, sigA, b, expB, sigB);
    if expDiff < 1 {
      if expDiff < -1 {
        FarBelow(a, expA, sigA, b, expB, sigB);
        RemainderOfSmall(F128, st.Env(), DatumF128(a), DatumF128(b));
        ReturnsItself(a, st.exceptionFlags);
        uiZ := a;
        return;
      }
      if expDiff != 0 {
        expB := expB - 1;
        sigB := Add128(sigB, sigB);
        q := 0;
      } else {
        q := if Le128(sigB, rem) then 1 else 0;
        if q != 0 {
          rem := Sub128(rem, sigB);
        }
      }
      StartShort(sigA, sigB, q, rem);
      q, rem, altRem, quot, t := Overshoot(sigB, q, rem, n, q, rem.Val());
    } else {
      n := Shl(sigA.Val(), expDiff);
      q, rem, quot, t := ReduceF128(sigA, sigB, expDiff);
      LeavesSign(n, sigB, quot, q, rem, t);
      if Negative(rem) {
        altRem := Add128(rem, sigB);
      } else {
        q, rem, altRem, quot, t := Overshoot(sigB, q, rem, n, quot, t);
      }
    }
    uiZ := FinishRem(st, signA, a, b, expB, sigB, q, rem, altRem, n, quot, t);
  }

  lemma {:induction false} StartShort(sigA: U128, sigB: U128, q: nat, rem: U128)
    requires SmallDivisor(sigB.Val()) && NormalSig(sigA.Val()) && sigA.Val() < 2 * sigB.Val()
    requires if q == 0 then rem == sigA else q == 1 && sigB.Val() <= sigA.Val() && rem == Sub128(sigA, sigB)
    ensures Leaves(sigA.Val(), sigB, q, q, rem, rem.Val()) && rem.Val() < 3 * sigB.Val()
  {
  }

  /** The nearer of the last two remainders, packed with its sign. */
  method FinishRem(st: FloatState, signA: bool, ghost a: U128, ghost b: U128, expB: int, sigB: U128,
      q: nat, rem0: U128, altRem: U128, ghost n: int, ghost quot: int, ghost t: int) returns (uiZ: U128)
    requires IsFinite(F128, DatumF128(a)) && IsFinite(F128, DatumF128(b)) && !IsZero(DatumF128(b))
    requires signA == DatumF128(a).sign && -112 <= expB <= 0x7FFE && 0 <= n
    requires Quanta(F128, DatumF128(a).code) as real == Scale(n as real, expB - 1)
    requires Quanta(F128, DatumF128(b).code) as real == Scale(sigB.Val() as real, expB - 1)
    requires SmallDivisor(sigB.Val()) && Leaves(n, sigB, quot, q, rem0, t)
    requires 0 <= t + sigB.Val() && t < 0 && Holds(altRem, t + sigB.Val())
    modifies st`exceptionFlags
    ensures ReturnsF128(uiZ, old(st.exceptionFlags), st.exceptionFlags,
      Remainder(F128, st.Env(), DatumF128(a), DatumF128(b)))
  {
    hide *;
    ghost var nearest, value;
    var rem;
    rem, nearest, value := SelectRem(sigB, q, rem0, altRem, n, quot, t);
    RemainderIs(F128, st.Env(), DatumF128(a), DatumF128(b), n, sigB.Val(), nearest, value, expB - 1);
    NearestSmall(n, sigB, nearest, value, rem);
    var signRem := signA;
    if Negative(rem) {
      signRem := !signRem;
      rem := Sub128(U128(0, 0), rem);
    }
    ghost var x := Scale((if value < 0 then -value else value) as real, expB - 1);
    RepresentedExactly(rem, expB - 1, x);
    uiZ := NormRoundPackToF128(st, signRem, expB - 1, rem, x);
    ReturnsIs(uiZ, signRem, st.Env(), x, old(st.exceptionFlags), st.exceptionFlags);
  }

  lemma {:induction false} NearestSmall(n: int, sigB: U128, nearest: int, value: int, rem: U128)
    requires 0 <= n && SmallDivisor(sigB.Val()) && IsNearest(n, sigB.Val(), nearest, value) && Holds(rem, value)
    ensures Negative(rem) <==> value < 0
    ensures (if value < 0 then Sub128(U128(0, 0), rem) else rem).Val() == if value < 0 then -value else value
  {
  }

  lemma {:induction false} RepresentedExactly(sig: U128, exp: int, x: real)
    requires x == Scale(sig.Val() as real, exp)
    ensures Represented(sig, exp, x)
  {
  }

  lemma {:induction false} ReturnsIs(uiZ: U128, sign: bool, env: Environment, x: real, was: set<Flag>,
      now: set<Flag>)
    requires 0.0 <= x && uiZ.Val() == SignedF128(sign, Delivered(F128, env.mode, sign, x))
    requires now == was + Signals(F128, env.tininess, env.mode, sign, x)
    ensures ReturnsF128(uiZ, was, now, Outcome(Datum(sign, Delivered(F128, env.mode, sign, x)),
      Signals(F128, env.tininess, env.mode, sign, x)))
  {
  }

  /** `f128_rem`. */
  method F128Rem(st: FloatState, a: U128, b: U128) returns (uiZ: U128)
    modifies st`exceptionFlags
    ensures ReturnsF128(uiZ, old(st.exceptionFlags), st.exceptionFlags,
      Remainder(F128, st.Env(), DatumF128(a), DatumF128(b)))
  {
    hide *;
    var signA, expA: int, sigA := SignF128UI64(a.v64), ExpF128UI64(a.v64), FracF128(a);
    var expB: int, sigB := ExpF128UI64(b.v64), FracF128(b);
    ClassF128(a);
    ClassF128(b);
    RemainderCases(F128, st.Env(), DatumF128(a), DatumF128(b));
    ReturnsSpecialF128(signA, st.exceptionFlags, {});
    ReturnsItself(a, st.exceptionFlags);
    UnionWithNone(st.exceptionFlags);
    if expA == 0x7FFF {
      if sigA.v64 != 0 || sigA.v0 != 0 || (expB == 0x7FFF && (sigB.v64 != 0 || sigB.v0 != 0)) {
        uiZ := PropagateNaNF128UI(st, a, b);
        return;
      }
      st.RaiseFlags({Invalid});
      uiZ := DefaultNaNF128();
      return;
    }
    if expB == 0x7FFF {
      if sigB.v64 != 0 || sigB.v0 != 0 {
        uiZ := PropagateNaNF128UI(st, a, b);
        return;
      }
      uiZ := a;
      return;
    }
    if expB == 0 {
      if sigB.v64 == 0 && sigB.v0 == 0 {
        st.RaiseFlags({Invalid});
        uiZ := DefaultNaNF128();
        return;
      }
      expB, sigB := NormSubnormalF128Sig(sigB.v64, sigB.v0);
      UnpackedSubnormal(b, expB, sigB);
    } else {
      UnpackedNormal(b);
    }
    if expA == 0 {
      if sigA.v64 == 0 && sigA.v0 == 0 {
        RemainderOfZero(F128, st.Env(), DatumF128(a), DatumF128(b));
        uiZ := a;
        return;
      }
      expA, sigA := NormSubnormalF128Sig(sigA.v64, sigA.v0);
      UnpackedSubnormal(a, expA, sigA);
    } else {
      UnpackedNormal(a);
    }
    sigA, sigB := WithHiddenF128(sigA), WithHiddenF128(sigB);
    uiZ := RemainderSignificands(st, signA, a, expA, sigA, b, expB, sigB);
  }
}
