/** `f64_rem` (softfloat/f64_rem.c). */
module RemF64 {
  import opened Arith
  import opened Powers
  import opened Rounding
  import opened Sticky
  import opened Words
  import opened RoundPack
  import opened RoundPackF64
  import opened Operations
  import opened EncodingF64
  import opened Estimate
  import opened Quotients
  import opened Remainders

  predicate Negative(r: Word64) {
    0x8000_0000_0000_0000 <= r
  }

  /** `r` holds the integer `t` in two's complement. */
  predicate Holds(r: Word64, t: int) {
    r == if t < 0 then t + 0x1_0000_0000_0000_0000 else t
  }

  predicate InRange64(t: int) {
    -0x8000_0000_0000_0000 <= t < 0x8000_0000_0000_0000
  }

  lemma {:induction false} HoldsWrapped(t: int)
    requires InRange64(t)
    ensures Holds(Wrap64(t), t) && (Negative(Wrap64(t)) <==> t < 0)
  {
  }

  /** `0x10_0000_0000_0000 <= sig` and its leading bit, scaled as the remainder loop wants it. */
  predicate Scaled(divisor: nat) {
    0x2000_0000_0000_0000 <= divisor < 0x4000_0000_0000_0000
  }

  /** The remainder `t` held in `rem` is what a quotient congruent to `q` modulo 2 leaves of `n`. */
  ghost predicate Leaves(n: int, divisor: nat, quot: int, q: nat, rem: Word64, t: int) {
    n == quot * divisor + t && quot % 2 == q % 2 && Holds(rem, t)
  }

  lemma {:induction false} LeavesIs(n: int, divisor: nat, quot: int, q: nat, rem: Word64, t: int)
    requires n == quot * divisor + t && quot % 2 == q % 2 && InRange64(t) && rem == Wrap64(t)
    ensures Leaves(n, divisor, quot, q, rem, t) && (Negative(rem) <==> t < 0)
  {
  }

  /** The leading bits of a scaled divisor and of a remainder under twice the divisor. */
  lemma {:induction false} LeadingF64(sigB: Word64, rem: Word64, recip32: Word32)
    requires Scaled(sigB) && rem < 2 * sigB
    requires recip32 * (sigB / 0x4000_0000) <= 0x7FFF_FFFF_FFFF_FFFF
    requires 0x7FFF_FFFF_FFFF_FFFF < recip32 * (sigB / 0x4000_0000) + sigB / 0x4000_0000
    ensures 0x8000_0000 <= sigB / 0x4000_0000 < 0x1_0000_0000 && rem / 0x1_0000_0000 < 0x8000_0000
    ensures
      Leading(sigB, rem, 0x4000_0000, sigB / 0x4000_0000, rem / 0x1_0000_0000, recip32)
  {
  }

  function ApproxRecip32F64(sigB: Word64): (r: Word32)
    requires NormalF64Sig(sigB)
    ensures var b := sigB * 0x200 / 0x4000_0000;
      r * b <= 0x7FFF_FFFF_FFFF_FFFF < r * b + b
  {
    ApproxRecip32(sigB / 0x20_0000)
  }

  /** The digit loop of f64_rem: it stops with under 30 places of the dividend unseen. */
  method LeadingDigits(sigA: Word64, sigB: Word64, recip32: Word32, expDiff0: int)
    returns (rem: Word64, expDiff: int, ghost acc: nat)
    requires Scaled(sigA) && Scaled(sigB) && 1 <= expDiff0
    requires var b := sigB / 0x4000_0000; recip32 * b <= 0x7FFF_FFFF_FFFF_FFFF < recip32 * b + b
    ensures 1 <= expDiff + 30 <= 29 && rem < 2 * sigB
    ensures Reducing(sigA, expDiff0 - 30 - expDiff, acc, sigB, rem)
  {
    hide *;
    expDiff := expDiff0 - 30;
    rem := sigA;
    acc := 0;
    StartReduction(sigA, sigB);
    while true
      invariant -29 <= expDiff <= expDiff0 - 30 && rem < 2 * sigB && 0 < sigB
      invariant Reducing(sigA, expDiff0 - 30 - expDiff, acc, sigB, rem)
      decreases expDiff
    {
      LeadingF64(sigB, rem, recip32);
      EstimateFits(rem / 0x1_0000_0000, recip32, 0);
      var q64 := rem / 0x1_0000_0000 * recip32;
      if expDiff < 0 {
        break;
      }
      var q := (q64 + 0x8000_0000) / 0x1_0000_0000;
      RoundedDigit(sigB, rem, 0x4000_0000, sigB / 0x4000_0000, rem / 0x1_0000_0000, recip32, q);
      ghost var before, t, digit := rem, 0x2000_0000 * rem as int - q * sigB, q;
      rem := Reduced(rem, sigB, 29, q);
      RoundedStep(sigB, before, q, t, rem);
      if Negative(rem) {
        rem := Wrap64(rem as int + sigB);
        digit := digit - 1;
      }
      OneLess(q, sigB);
      StepReduction(sigA, expDiff0 - 30 - expDiff, acc, sigB, before, digit, rem);
      acc := 0x2000_0000 * acc + digit;
      expDiff := expDiff - 29;
    }
  }

  /** The remainder shifted left, less a digit's multiple of the divisor, modulo 2^64. */
  function Reduced(rem: Word64, sigB: Word64, dist: nat, q: nat): (r: Word64)
    requires dist <= 64
    ensures r == Wrap64(Shl(rem, dist) - q * sigB)
  {
    ShiftedAway(rem, dist, q * sigB);
    Wrap64(Shl64(rem, dist) - q * sigB)
  }

  lemma {:induction false} ShiftedAway(rem: Word64, dist: nat, y: int)
    requires dist <= 64
    ensures Wrap64(Shl64(rem, dist) - y) == Wrap64(Shl(rem, dist) - y)
  {
    AcrossBoundary(rem, 64 - dist);
    hide Shl64, Shl, Shr64;
    var x, j := Shl64(rem, dist) - y, Shr64(rem, 64 - dist);
    WrapIsModulo(x);
    Wrap64Of(Shl(rem, dist) - y, x / 0x1_0000_0000_0000_0000 + j, Wrap64(x));
  }

  lemma {:induction false} RoundedStep(sigB: Word64, rem: Word64, q: nat, t: int, r: Word64)
    requires Scaled(sigB) && t == 0x2000_0000 * rem - q * sigB && r == Wrap64(Shl(rem, 29) - q * sigB)
    requires 0 < t + sigB && t < 2 * sigB
    ensures Negative(r) <==> t < 0
    ensures if t < 0 then 0 < q && Wrap64(r as int + sigB) == t + sigB else r == t
  {
    Shl29(rem);
    hide Shl;
    HoldsWrapped(t);
    assert q == 0 ==> q * sigB == 0;
  }

  lemma {:induction false} EstimateFits(r: nat, recip32: Word32, d: nat)
    requires r < 0x8000_0000
    ensures 0 <= r * recip32 < 0x8000_0000_0000_0000 && Shr(r * recip32 / 0x1_0000_0000, d) < 0x8000_0000
  {
    MulLe(0, r, recip32);
    MulLe(r, 0x7FFF_FFFF, recip32);
    ShrAtMost(r * recip32 / 0x1_0000_0000, d);
  }

  lemma {:induction false} StartReduction(sigA: Word64, sigB: Word64)
    requires Scaled(sigA) && Scaled(sigB)
    ensures sigA < 2 * sigB && 0 < sigB && Reducing(sigA, 0, 0, sigB, sigA)
  {
  }

  /** A dividend far above the divisor brought within a few divisors of zero. */
  method ReduceF64(sigA: Word64, sigB: Word64, recip32: Word32, expDiff0: int)
    returns (q: nat, rem: Word64, ghost quot: int, ghost t: int)
    requires Scaled(sigA) && Scaled(sigB) && 1 <= expDiff0
    requires var b := sigB / 0x4000_0000; recip32 * b <= 0x7FFF_FFFF_FFFF_FFFF < recip32 * b + b
    ensures Leaves(Shl(sigA, expDiff0), sigB, quot, q, rem, t) && (Negative(rem) <==> t < 0)
    ensures -(sigB as int) < t < 0x8000_0000_0000_0000
  {
    hide *;
    ghost var acc;
    var expDiff;
    rem, expDiff, acc := LeadingDigits(sigA, sigB, recip32, expDiff0);
    LeadingF64(sigB, rem, recip32);
    EstimateFits(rem / 0x1_0000_0000, recip32, -expDiff - 1);
    q := Shr(rem / 0x1_0000_0000 * recip32 / 0x1_0000_0000, -expDiff - 1);
    LastBitsBound(sigB, rem, recip32, expDiff + 30, q);
    t := Shl(rem, expDiff + 30) - q * sigB;
    LastLeaves(sigA, expDiff0, acc, sigB, rem, expDiff + 30, q, t);
    quot := Shl(acc, expDiff + 30) + q;
    rem := Reduced(rem, sigB, expDiff + 30, q);
    LeavesIs(Shl(sigA, expDiff0), sigB, quot, q, rem, t);
  }

  lemma {:induction false} LastBitsBound(sigB: Word64, rem: Word64, recip32: Word32, s: nat, q: nat)
    requires Scaled(sigB) && rem < 2 * sigB && 1 <= s <= 29
    requires Leading(sigB, rem, 0x4000_0000, sigB / 0x4000_0000, rem / 0x1_0000_0000, recip32)
    requires 0 <= rem / 0x1_0000_0000 * recip32
    requires q == Shr(rem / 0x1_0000_0000 * recip32 / 0x1_0000_0000, 29 - s)
    ensures var t := Shl(rem, s) - q * sigB;
      0 < t + sigB && t < 0x8000_0000_0000_0000 && InRange64(t)
  {
    hide Leading, Shl, Shr;
    TruncatedDigit(sigB, rem, 0x4000_0000, sigB / 0x4000_0000, rem / 0x1_0000_0000, recip32, s, q);
  }

  /** The divisor subtracted until the remainder goes negative. */
  method Overshoot(sigB: Word64, q0: nat, rem0: Word64, ghost n: int, ghost quot0: int, ghost t0: int)
    returns (q: nat, rem: Word64, altRem: Word64, ghost quot: int, ghost t: int)
    requires 0 < sigB < 0x4000_0000_0000_0000 && Leaves(n, sigB, quot0, q0, rem0, t0) && 0 <= t0 < 0x8000_0000_0000_0000
    ensures Leaves(n, sigB, quot, q, rem, t) && -(sigB as int) <= t < 0 && Holds(altRem, t + sigB)
  {
    hide *;
    altRem := rem0;
    q := q0 + 1;
    rem := Wrap64(rem0 as int - sigB);
    quot, t := quot0 + 1, t0 - sigB;
    OneMore(n, sigB, quot0, q0, rem0, t0);
    while !Negative(rem)
      invariant Leaves(n, sigB, quot, q, rem, t) && -(sigB as int) <= t < 0x8000_0000_0000_0000
      invariant Holds(altRem, t + sigB) && (Negative(rem) <==> t < 0)
      decreases t + sigB
    {
      OneMore(n, sigB, quot, q, rem, t);
      altRem := rem;
      q := q + 1;
      rem := Wrap64(rem as int - sigB);
      quot, t := quot + 1, t - sigB;
    }
  }

  lemma {:induction false} OneMore(n: int, sigB: Word64, quot: int, q: nat, rem: Word64, t: int)
    requires 0 < sigB < 0x4000_0000_0000_0000 && Leaves(n, sigB, quot, q, rem, t) && 0 <= t < 0x8000_0000_0000_0000
    ensures var rem' := Wrap64((rem as int) - sigB);
      Leaves(n, sigB, quot + 1, q + 1, rem', t - sigB) && Holds(rem, t) && (Negative(rem') <==> t < sigB)
  {
    OneLess(quot, sigB);
    NextParity(quot, q);
    HoldsWrapped(t - sigB);
    hide Negative, Wrap64;
  }

  /** The nearer of the last two remainders. */
  method SelectRem(sigB: Word64, q: nat, rem: Word64, altRem: Word64, ghost n: int, ghost quot: int,
      ghost t: int) returns (r: Word64, ghost nearest: int, ghost value: int)
    requires 0 < sigB < 0x4000_0000_0000_0000 && Leaves(n, sigB, quot, q, rem, t) && 0 <= n
    requires -(sigB as int) <= t < 0 && Holds(altRem, t + sigB)
    ensures IsNearest(n, sigB, nearest, value) && Holds(r, value)
  {
    hide *;
    MeanHolds(sigB, rem, altRem, t, n, quot, q);
    SelectsNearest(n, sigB, quot, q, t);
    var meanRem := Wrap64(rem as int + altRem);
    if Negative(meanRem) || (meanRem == 0 && q % 2 == 1) {
      r := altRem;
      nearest, value := quot - 1, t + sigB;
    } else {
      r := rem;
      nearest, value := quot, t;
    }
  }

  lemma {:induction false} MeanHolds(sigB: Word64, rem: Word64, altRem: Word64, t: int, n: int,
      quot: int, q: nat)
    requires 0 < sigB < 0x4000_0000_0000_0000 && Leaves(n, sigB, quot, q, rem, t)
    requires -(sigB as int) <= t < 0 && Holds(altRem, t + sigB)
    ensures n == quot * sigB + t && quot % 2 == q % 2 && Holds(rem, t)
    ensures var mean := Wrap64(rem as int + altRem);
      (Negative(mean) <==> 2 * t + sigB < 0) && (mean == 0 <==> 2 * t + sigB == 0)
  {
  }

  /** Magnitudes below a quarter of the divisor's binade are their own remainders. */
  lemma {:induction false} FarBelow(a: Word64, expA: int, sigA: Word64, b: Word64, expB: int, sigB: Word64)
    requires UnpackedF64(a, expA, sigA) && UnpackedF64(b, expB, sigB) && expA - expB < -1
    ensures 2 * Quanta(F64, DatumF64(a).code) < Quanta(F64, DatumF64(b).code)
  {
    hide Quanta, DatumF64;
    var x, y := sigA as real, sigB as real;
    ScaleSucc(x, expA - 1);
    ScaleOrder(x, 2.0 * y, expA);
    assert Scale(y, 1) == 2.0 * y;
    ScaleScale(y, 1, expA);
    ScaleIncreases(y, expA + 1, expB - 1);
  }

  /** The operands in the units of the remainder loop. */
  lemma {:induction false} CommonScale(a: Word64, expA: int, sigA: Word64, b: Word64, expB: int, sigB: Word64)
    requires UnpackedF64(a, expA, sigA) && UnpackedF64(b, expB, sigB)
    ensures NormalF64Sig(sigA) && NormalF64Sig(sigB) && -51 <= expB < 0x7FF && -51 <= expA < 0x7FF
    ensures Scaled(sigA * 0x200) && Scaled(sigB * 0x200)
    ensures Quanta(F64, DatumF64(a).code) as real == Scale((sigA * 0x200) as real, expA - 10)
    ensures Quanta(F64, DatumF64(a).code) as real == Scale((sigA * 0x100) as real, expA - 9)
    ensures Quanta(F64, DatumF64(b).code) as real == Scale((sigB * 0x200) as real, expB - 10)
    ensures expB <= expA ==> (0 <= Shl(sigA * 0x200, expA - expB) &&
      Quanta(F64, DatumF64(a).code) as real == Scale(Shl(sigA * 0x200, expA - expB) as real, expB - 10))
  {
    hide Quanta, DatumF64;
    UnitsUp(sigA, expA - 1);
    UnitsUp(sigB, expB - 1);
    if expB <= expA {
      ShlNonneg(sigA * 0x200, expA - expB);
      ScaleInt(sigA * 0x200, expA - expB);
      ScaleScale((sigA * 0x200) as real, expA - expB, expB - 10);
    }
  }

  lemma {:induction false} UnitsUp(sig: Word64, k: int)
    ensures Scale(sig as real, k) == Scale((sig * 0x200) as real, k - 9)
    ensures Scale(sig as real, k) == Scale((sig * 0x100) as real, k - 8)
  {
    ScaleInt(sig, 8);
    ShlIsTimes(sig, 8);
    assert Pow2(8) == 0x100;
    ScaleScale(sig as real, 8, k - 8);
    ScaleScale((sig * 0x100) as real, 1, k - 9);
    assert Scale((sig * 0x100) as real, 1) == (sig * 0x200) as real;
  }

  /** The nearer of the last two remainders, packed with its sign. */
  method FinishRem(st: FloatState, signA: bool, ghost a: Word64, ghost b: Word64, expB: int,
      sigB: Word64, q: nat, rem0: Word64, altRem: Word64, ghost n: int, ghost quot: int, ghost t: int)
    returns (uiZ: Word64)
    requires IsFinite(F64, DatumF64(a)) && IsFinite(F64, DatumF64(b)) && !IsZero(DatumF64(b))
    requires signA == DatumF64(a).sign && -51 <= expB < 0x7FF && 0 <= n
    requires Quanta(F64, DatumF64(a).code) as real == Scale(n as real, expB - 10)
    requires Quanta(F64, DatumF64(b).code) as real == Scale(sigB as real, expB - 10)
    requires 0 < sigB < 0x4000_0000_0000_0000 && Leaves(n, sigB, quot, q, rem0, t)
    requires -(sigB as int) <= t < 0 && Holds(altRem, t + sigB)
    modifies st`exceptionFlags
    ensures ReturnsF64(uiZ, old(st.exceptionFlags), st.exceptionFlags,
      Remainder(F64, st.Env(), DatumF64(a), DatumF64(b)))
  {
    hide *;
    ghost var nearest, value;
    var rem;
    rem, nearest, value := SelectRem(sigB, q, rem0, altRem, n, quot, t);
    RemainderIs(F64, st.Env(), DatumF64(a), DatumF64(b), n, sigB, nearest, value, expB - 10);
    NearestSmall(n, sigB, nearest, value, rem);
    var signRem := signA;
    if Negative(rem) {
      signRem := !signRem;
      rem := Wrap64(-(rem as int));
    }
    ghost var x := Scale((if value < 0 then -value else value) as real, expB - 10);
    uiZ := NormRoundPackToF64(st, signRem, expB, rem, x);
    ReturnsIs(uiZ, signRem, st.Env(), x, old(st.exceptionFlags), st.exceptionFlags);
  }

  lemma {:induction false} NearestSmall(n: int, sigB: Word64, nearest: int, value: int, rem: Word64)
    requires 0 <= n && 0 < sigB < 0x4000_0000_0000_0000 && IsNearest(n, sigB, nearest, value) && Holds(rem, value)
    ensures Negative(rem) <==> value < 0
    ensures (if value < 0 then Wrap64(-(rem as int)) else rem) ==
      (if value < 0 then -value else value) < 0x8000_0000_0000_0000
  {
  }

  lemma {:induction false} StartShort(sigA: nat, sigB: Word64, q: nat, rem: Word64)
    requires 0 < sigB < 0x4000_0000_0000_0000 && 0 <= sigA < 2 * sigB && sigA < 0x8000_0000_0000_0000
    requires if q == 0 then rem == sigA else q == 1 && sigB <= sigA && rem == sigA - sigB
    ensures Leaves(sigA, sigB, q, q, rem, rem) && rem < 0x8000_0000_0000_0000
  {
  }

  /** The remainder of two unpacked operands. */
  method RemainderSignificands(st: FloatState, signA: bool, a: Word64, expA: int, sigA: Word64,
      ghost b: Word64, expB: int, sigB0: Word64) returns (uiZ: Word64)
    requires UnpackedF64(a, expA, sigA) && UnpackedF64(b, expB, sigB0) && signA == DatumF64(a).sign
    requires IsFinite(F64, DatumF64(a)) && IsFinite(F64, DatumF64(b)) && !IsZero(DatumF64(b))
    modifies st`exceptionFlags
    ensures ReturnsF64(uiZ, old(st.exceptionFlags), st.exceptionFlags,
      Remainder(F64, st.Env(), DatumF64(a), DatumF64(b)))
  {
    hide *;
    CommonScale(a, expA, sigA, b, expB, sigB0);
    UnitsFit(sigA);
    UnitsFit(sigB0);
    var sigB: Word64 := sigB0 * 0x200;
    var rem, q, altRem;
    var expDiff := expA - expB;
    ghost var n, quot, t := 0, 0, 0;
    if expDiff < 1 {
      if expDiff < -1 {
        FarBelow(a, expA, sigA, b, expB, sigB0);
        RemainderOfSmall(F64, st.Env(), DatumF64(a), DatumF64(b));
        ReturnsItself(a, st.exceptionFlags);
        uiZ := a;
        return;
      }
      if expDiff != 0 {
        rem := sigA * 0x100;
        n := rem;
        q := 0;
      } else {
        rem := sigA * 0x200;
        n := rem;
        q := if sigB <= rem then 1 else 0;
        if q != 0 {
          rem := rem - sigB;
        }
      }
      StartShort(n, sigB, q, rem);
      q, rem, altRem, quot, t := Overshoot(sigB, q, rem, n, q, rem);
    } else {
      var recip32 := ApproxRecip32F64(sigB0);
      rem := sigA * 0x200;
      n := Shl(rem, expDiff);
      q, rem, quot, t := ReduceF64(rem, sigB, recip32, expDiff);
      if Negative(rem) {
        altRem := Wrap64(rem as int + sigB);
        AddedBack(n, sigB, quot, q, rem, t);
      } else {
        q, rem, altRem, quot, t := Overshoot(sigB, q, rem, n, quot, t);
      }
    }
    uiZ := FinishRem(st, signA, a, b, expB, sigB, q, rem, altRem, n, quot, t);
  }

  lemma {:induction false} UnitsFit(sig: Word64)
    requires NormalF64Sig(sig)
    ensures 0x10_0000_0000_0000 <= sig < 2 * 0x10_0000_0000_0000
    ensures 0x2000_0000_0000_0000 <= sig * 0x200 < 0x4000_0000_0000_0000 && sig * 0x100 < 0x2000_0000_0000_0000
  {
  }

  lemma {:induction false} AddedBack(n: int, sigB: Word64, quot: int, q: nat, rem: Word64, t: int)
    requires 0 < sigB < 0x4000_0000_0000_0000 && Leaves(n, sigB, quot, q, rem, t) && -(sigB as int) < t < 0
    ensures Holds(Wrap64(rem as int + sigB), t + sigB)
  {
  }

  /** Exponent fields two or more apart decide before anything is normalized. */
  lemma {:induction false} EarlyReturn(a: Word64, b: Word64)
    requires ExpF64UI(a) < ExpF64UI(b) - 1 && ExpF64UI(b) < 0x7FF
    ensures 2 * Quanta(F64, DatumF64(a).code) < Quanta(F64, DatumF64(b).code)
  {
    if ExpF64UI(a) == 0 {
      var expB, fracB := ExpF64UI(b), FracF64UI(b);
      QuantaF64(a);
      QuantaF64(b);
      ShapeOfF64();
      ShlShl(Hidden(F64) + fracB, 1, expB - 2);
      ShlNonneg(2 * (Hidden(F64) + fracB), expB - 2);
    } else {
      UnpackedNormalF64(a);
      UnpackedNormalF64(b);
      hide *;
      FarBelow(a, ExpF64UI(a), WithHiddenF64(FracF64UI(a)), b, ExpF64UI(b), WithHiddenF64(FracF64UI(b)));
    }
  }

  /** `f64_rem`. */
  method F64Rem(st: FloatState, a: Word64, b: Word64) returns (uiZ: Word64)
    modifies st`exceptionFlags
    ensures ReturnsF64(uiZ, old(st.exceptionFlags), st.exceptionFlags,
      Remainder(F64, st.Env(), DatumF64(a), DatumF64(b)))
  {
    hide *;
    var signA, expA: int, sigA := SignF64UI(a), ExpF64UI(a), FracF64UI(a);
    var expB: int, sigB := ExpF64UI(b), FracF64UI(b);
    ClassF64(a);
    ClassF64(b);
    RemainderCases(F64, st.Env(), DatumF64(a), DatumF64(b));
    ReturnsSpecialF64(signA, st.exceptionFlags, {});
    ReturnsItself(a, st.exceptionFlags);
    UnionWithNone(st.exceptionFlags);
    if expA == 0x7FF {
      if sigA != 0 || (expB == 0x7FF && sigB != 0) {
        uiZ := PropagateNaNF64UI(st, a, b);
        return;
      }
      st.RaiseFlags({Invalid});
      uiZ := DefaultNaNF64();
      return;
    }
    if expB == 0x7FF {
      if sigB != 0 {
        uiZ := PropagateNaNF64UI(st, a, b);
        return;
      }
      uiZ := a;
      return;
    }
    if expA < expB - 1 {
      EarlyReturn(a, b);
      RemainderOfSmall(F64, st.Env(), DatumF64(a), DatumF64(b));
      uiZ := a;
      return;
    }
    if expB == 0 {
      if sigB == 0 {
        st.RaiseFlags({Invalid});
        uiZ := DefaultNaNF64();
        return;
      }
      expB, sigB := NormSubnormalF64Sig(sigB);
      UnpackedSubnormalF64(b, expB, sigB);
    } else {
      UnpackedNormalF64(b);
    }
    if expA == 0 {
      if sigA == 0 {
        RemainderOfZero(F64, st.Env(), DatumF64(a), DatumF64(b));
        uiZ := a;
        return;
      }
      expA, sigA := NormSubnormalF64Sig(sigA);
      UnpackedSubnormalF64(a, expA, sigA);
    } else {
      UnpackedNormalF64(a);
    }
    sigA, sigB := WithHiddenF64(sigA), WithHiddenF64(sigB);
    uiZ := RemainderSignificands(st, signA, a, expA, sigA, b, expB, sigB);
  }
}
