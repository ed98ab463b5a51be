/** The IEEE 754 remainder in terms of integers. */
module Remainders {
  import opened Arith
  import opened Powers
  import opened Rounding
  import opened Operations
  import opened Estimate
  import opened Quotients

  lemma {:induction false} NearestUnique(x: real, n: int)
    requires -0.5 <= x - n as real <= 0.5
    requires x - n as real == 0.5 || x - n as real == -0.5 ==> n % 2 == 0
    ensures NearestInteger(x) == n
  {
  }

  /** `q` is the integer nearest to n / d, by the remainder it leaves. */
  predicate IsNearest(n: nat, d: int, q: int, rem: int) {
    0 < d && n == q * d + rem && -d <= 2 * rem <= d && (2 * rem == d || 2 * rem == -d ==> q % 2 == 0)
  }

  lemma {:induction false} NearestQuotient(n: nat, d: int, q: int, rem: int)
    requires IsNearest(n, d, q, rem)
    ensures NearestInteger(Ratio(n as real, d as real)) == q
  {
    var y := Ratio(n as real, d as real);
    Offset(y, q, rem, d);
    HalfBounds(y - q as real, rem as real, d as real);
    NearestUnique(y, q);
  }

  lemma {:induction false} Offset(y: real, q: int, rem: int, d: int)
    requires y * d as real == (q * d + rem) as real
    ensures (y - q as real) * d as real == rem as real
  {
    assert q as real * d as real == (q * d) as real;
  }

  lemma {:induction false} HalfBounds(z: real, rem: real, d: real)
    requires 0.0 < d && z * d == rem && -d <= 2.0 * rem <= d
    ensures -0.5 <= z <= 0.5 && (z == 0.5 <==> 2.0 * rem == d) && (z == -0.5 <==> 2.0 * rem == -d)
  {
    RealOrder(0.5, z, d);
    RealOrder(z, 0.5, d);
    RealOrder(-0.5, z, d);
    RealOrder(z, -0.5, d);
  }

  /** The remainder of two scaled integers. */
  lemma {:induction false} ScaledRemainder(n: nat, d: int, q: int, rem: int, e: int)
    requires IsNearest(n, d, q, rem)
    ensures 0.0 <= Scale(n as real, e) && 0.0 < Scale(d as real, e)
    ensures ExactRemainder(Scale(n as real, e), Scale(d as real, e)) == Scale(rem as real, e)
  {
    hide Scale, Ratio, IsNearest, Product, NearestInteger;
    NearestParts(n, d, q, rem);
    NearestQuotient(n, d, q, rem);
    ScaleRatioBoth(n as real, e, d as real, e);
    ByZero(Ratio(n as real, d as real));
    ScaleLeft(d as real, q as real, e);
    ScaleAdd((q * d) as real, rem as real, e);
  }

  lemma {:induction false} NearestParts(n: nat, d: int, q: int, rem: int)
    requires IsNearest(n, d, q, rem)
    ensures 0 < d && n as real == (q * d) as real + rem as real
    ensures Product(q as real, d as real) == (q * d) as real
  {
  }

  lemma {:induction false} ByZero(x: real)
    ensures Scale(x, 0) == x
  {
  }

  lemma {:induction false} ScaleNegate(x: real, k: int)
    ensures Scale(-x, k) == -Scale(x, k)
    decreases if k < 0 then -k else k
  {
    if k > 0 {
      ScaleNegate(x, k - 1);
    } else if k < 0 {
      ScaleNegate(x, k + 1);
    }
  }

  /** The size of a scaled integer, in quanta. */
  lemma {:induction false} SignedScale(f: Format, rem: int, e: int)
    ensures var r, size := Scale(rem as real, e + f.leastExp), if rem < 0 then -rem else rem;
      (r < 0.0 <==> rem < 0) && 0.0 <= Scale(size as real, e) &&
      InQuanta(f, Abs(r)) == Scale(size as real, e)
  {
    var size := if rem < 0 then -rem else rem;
    ScaleSign(rem as real, e + f.leastExp);
    ScaleSign(size as real, e);
    ScaleNegate(rem as real, e + f.leastExp);
    hide Scale;
    ScaleScale(size as real, e + f.leastExp, -f.leastExp);
    assert -(rem as real) == (-rem) as real;
  }

  lemma {:induction false} ScaledMagnitude(f: Format, a: Datum, n: int, e: int)
    requires Quanta(f, a.code) as real == Scale(n as real, e)
    ensures Magnitude(f, a) == Scale(n as real, e + f.leastExp)
  {
    ScaleScale(n as real, e, f.leastExp);
    hide Scale, Quanta;
  }

  /** What an implementation has to find, for operands of n and d times 2^e quanta. */
  lemma {:induction false} RemainderIs(f: Format, env: Environment, a: Datum, b: Datum,
      n: nat, d: int, q: int, rem: int, e: int)
    requires IsFinite(f, a) && IsFinite(f, b) && !IsZero(b) && IsNearest(n, d, q, rem)
    requires Quanta(f, a.code) as real == Scale(n as real, e)
    requires Quanta(f, b.code) as real == Scale(d as real, e)
    ensures var magnitude := Scale((if rem < 0 then -rem else rem) as real, e);
      var sign := if rem < 0 then !a.sign else a.sign;
      0.0 <= magnitude && Remainder(f, env, a, b) == Outcome(
        Datum(sign, Delivered(f, env.mode, sign, magnitude)),
        Signals(f, env.tininess, env.mode, sign, magnitude))
  {
    hide Scale, Quanta, IsNearest, Magnitude, InfCode, Delivered, Signals, ExactRemainder, InQuanta, Remainder,
      Abs;
    ScaledMagnitude(f, a, n, e);
    ScaledMagnitude(f, b, d, e);
    ScaledRemainder(n, d, q, rem, e + f.leastExp);
    SignedScale(f, rem, e);
    RemainderFinite(f, env, a, b);
  }

  /** Of the last two remainders, the nearer one is chosen, and on a tie the one of the even quotient. */
  lemma {:induction false} SelectsNearest(n: nat, d: int, quot: int, q: nat, rem: int)
    requires 0 < d && n == quot * d + rem && -d <= rem < 0 && quot % 2 == q % 2
    ensures var mean := 2 * rem + d;
      if mean < 0 || (mean == 0 && q % 2 == 1) then IsNearest(n, d, quot - 1, rem + d)
      else IsNearest(n, d, quot, rem)
  {
    OneLess(quot, d);
  }

  /** Less than half the divisor is its own remainder. */
  lemma {:induction false} RemainderOfSmall(f: Format, env: Environment, a: Datum, b: Datum)
    requires IsFinite(f, a) && IsFinite(f, b) && !IsZero(b)
    requires 2 * Quanta(f, a.code) < Quanta(f, b.code)
    ensures Remainder(f, env, a, b) == Outcome(a, {})
  {
    hide Scale, Magnitude, InfCode, Delivered, Signals, Remainder, Quanta;
    var n, d := Quanta(f, a.code), Quanta(f, b.code);
    ByZero(n as real);
    ByZero(d as real);
    RemainderIs(f, env, a, b, n, d, 0, n, 0);
    DatumKept(f, env, a);
    AtOnce(f, a);
  }

  lemma {:induction false} AtOnce(f: Format, a: Datum)
    ensures InQuanta(f, Magnitude(f, a)) == Quanta(f, a.code) as real
  {
    ScaleScale(Quanta(f, a.code) as real, f.leastExp, -f.leastExp);
  }

  lemma {:induction false} RemainderOfZero(f: Format, env: Environment, a: Datum, b: Datum)
    requires IsZero(a) && IsFinite(f, b) && !IsZero(b)
    ensures Remainder(f, env, a, b) == Outcome(a, {})
  {
    QuantaOfZero(f);
    QuantaAtLeast(f, b.code);
    InfPositive(f);
    RemainderOfSmall(f, env, a, b);
  }

  lemma {:induction false} ScaleIncreases(x: real, j: int, k: int)
    requires 0.0 <= x && j <= k
    ensures Scale(x, j) <= Scale(x, k)
    decreases k - j
  {
    if j < k {
      ScaleIncreases(x, j, k - 1);
      ScaleSucc(x, k - 1);
      ScaleSign(x, k - 1);
    }
  }

  /** The digits taken so far and the remainder make up the part of the dividend seen so far. */
  ghost predicate Reducing(a: nat, seen: int, acc: nat, divisor: nat, rem: nat) {
    0 <= seen && Shl(a, seen) == acc * divisor + rem
  }

  lemma {:induction false} StepReduction(a: nat, seen: nat, acc: nat, divisor: nat, rem: nat, digit: nat,
      rem': nat)
    requires Reducing(a, seen, acc, divisor, rem)
    requires rem' == 0x2000_0000 * rem - digit * divisor
    ensures Reducing(a, seen + 29, 0x2000_0000 * acc + digit, divisor, rem')
  {
    Shl29(Shl(a, seen));
    ShlShl(a, seen, 29);
    NextDigit(acc * divisor + rem, acc, divisor, rem, digit, rem');
  }

  lemma {:induction false} EvenTimes(n: int, s: nat, digit: int)
    requires s == 0 ==> n == 0
    ensures (Shl(n, s) + digit) % 2 == digit % 2
  {
  }

  lemma {:induction false} LastLeaves(a: nat, expDiff: nat, acc: nat, b: nat, rem: nat, s: nat,
      digit: nat, t: int)
    requires 1 <= s && Reducing(a, expDiff - s, acc, b, rem) && t == Shl(rem, s) - digit * b
    ensures 0 <= Shl(a, expDiff) == (Shl(acc, s) + digit) * b + t
    ensures (Shl(acc, s) + digit) % 2 == digit % 2
  {
    ShlShl(a, expDiff - s, s);
    hide *;
    ShlNonneg(a, expDiff);
    ShlAdd(acc * b, rem, s);
    ShlMul(acc, b, s);
    EvenTimes(acc, s, digit);
    Together(Shl(acc, s), digit, b);
  }

  lemma {:induction false} Together(x: int, y: int, b: int)
    ensures (x + y) * b == x * b + y * b
  {
  }

  lemma {:induction false} NextParity(m: int, n: int)
    requires m % 2 == n % 2
    ensures (m + 1) % 2 == (n + 1) % 2
  {
  }
}
