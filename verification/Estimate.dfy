/** Quotient digits estimated from a 32-bit reciprocal (softfloat/primitives.h,
    `softfloat_approxRecip32_1` with SOFTFLOAT_FAST_DIV64TO32). */
module Estimate {
  import opened Arith
  import opened Powers
  import opened Words

  /** `softfloat_approxRecip32_1`. */
  function ApproxRecip32(a: Word32): (r: Word32)
    requires 0x8000_0000 <= a
    ensures r * a <= 0x7FFF_FFFF_FFFF_FFFF < r * a + a
  {
    RecipFits(a);
    0x7FFF_FFFF_FFFF_FFFF / a
  }

  lemma {:induction false} RecipFits(a: Word32)
    requires 0x8000_0000 <= a
    ensures var r := 0x7FFF_FFFF_FFFF_FFFF / a;
      0 <= r < 0x1_0000_0000 && r * a <= 0x7FFF_FFFF_FFFF_FFFF < r * a + a
  {
    var r := 0x7FFF_FFFF_FFFF_FFFF / a;
    DivMod(0x7FFF_FFFF_FFFF_FFFF, a);
    if 0x1_0000_0000 <= r {
      MulLe(0x1_0000_0000, r, a);
    }
    if r < 0 {
      MulLe(r, -1, a);
    }
  }

  /** `b` and `r` are the leading bits of a divisor and of a remainder under twice the divisor, in
      units of `k` and `4 * k`, and `recip` approximates the reciprocal of `b`. */
  predicate Leading(divisor: nat, rem: nat, k: nat, b: Word32, r: nat, recip: Word32) {
    rem < 2 * divisor && 0x8000_0000 <= b && 0 < k &&
    b * k <= divisor < b * k + k && 4 * (r * k) <= rem < 4 * (r * k) + 4 * k &&
    recip * b <= 0x7FFF_FFFF_FFFF_FFFF < recip * b + b
  }

  lemma {:induction false} LeadingSmall(divisor: nat, rem: nat, k: nat, b: Word32, r: nat, recip: Word32)
    requires Leading(divisor, rem, k, b, r, recip)
    ensures r < 0x8000_0000 && 0x8000_0000 * k <= divisor
  {
    MulLe(0x8000_0000, b, k);
    if 0x8000_0000 <= r {
      MulLe(0x8000_0000, r, k);
      MulLe(b, 0xFFFF_FFFF, k);
    }
  }

  /** The estimate is less than half a unit too large. */
  lemma {:induction false} EstimateBelow(divisor: nat, rem: nat, k: nat, b: Word32, r: nat, recip: Word32)
    requires Leading(divisor, rem, k, b, r, recip)
    ensures (r * recip) * divisor < 0x2000_0000_0000_0000 * rem + 0x8000_0000 * divisor
  {
    LeadingSmall(divisor, rem, k, b, r, recip);
    MulLe(0, r, recip);
    MulLe(divisor, b * k + k, r * recip);
    Regroup(r, recip, b, k);
    MulLe(recip * b, 0x7FFF_FFFF_FFFF_FFFF, r * k);
    MulLe(0, r, k);
    MulLe(recip, 0x1_0000_0000, r * k);
  }

  lemma {:induction false} Regroup(r: int, recip: int, b: int, k: int)
    ensures (b * k + k) * (r * recip) == (recip * b) * (r * k) + recip * (r * k)
    ensures (b * k) * (r * recip) == (recip * b) * (r * k)
    ensures b * (r * k) == (b * k) * r
  {
    assert (b * k) * (r * recip) == (recip * b) * (r * k);
    assert k * (r * recip) == recip * (r * k);
  }

  /** The estimate is less than one and a half units too small. */
  lemma {:induction false} EstimateAbove(divisor: nat, rem: nat, k: nat, b: Word32, r: nat, recip: Word32)
    requires Leading(divisor, rem, k, b, r, recip)
    ensures 0x2000_0000_0000_0000 * rem <
      (r * recip) * divisor + 0x8000_0000_0000_0000 * k + 0x8000_0000 * divisor
    ensures 0x8000_0000_0000_0000 * k <= 0x1_0000_0000 * divisor
  {
    LeadingSmall(divisor, rem, k, b, r, recip);
    MulLe(0, r, recip);
    MulLe(b * k, divisor, r * recip);
    Regroup(r, recip, b, k);
    RecipLoss(recip, b, r, k);
    MulLe(b * k, divisor, r);
    MulLe(r, 0x8000_0000, divisor);
    hide *;
    SumOfLosses((r * recip) * divisor, rem, divisor, k, r * k, b * (r * k));
  }

  lemma {:induction false} RecipLoss(recip: int, b: int, r: nat, k: nat)
    requires 0x8000_0000_0000_0000 - b <= recip * b
    ensures 0x8000_0000_0000_0000 * (r * k) - b * (r * k) <= (recip * b) * (r * k)
  {
    MulLe(0, r, k);
    MulLe(0x8000_0000_0000_0000 - b, recip * b, r * k);
  }

  lemma {:induction false} SumOfLosses(e: int, rem: int, divisor: int, k: int, rk: int, brk: int)
    requires 0x8000_0000_0000_0000 * rk - brk <= e && brk <= 0x8000_0000 * divisor
    requires rem < 4 * rk + 4 * k && 0x8000_0000 * k <= divisor
    ensures 0x2000_0000_0000_0000 * rem < e + 0x8000_0000_0000_0000 * k + 0x8000_0000 * divisor
    ensures 0x8000_0000_0000_0000 * k <= 0x1_0000_0000 * divisor
  {
  }

  /** A digit rounded to nearest leaves a remainder between minus one and two divisors. */
  lemma {:induction false} RoundedDigit(divisor: nat, rem: nat, k: nat, b: Word32, r: nat, recip: Word32, q: int)
    requires Leading(divisor, rem, k, b, r, recip)
    requires q == (r * recip + 0x8000_0000) / 0x1_0000_0000
    ensures 0 <= q <= 0x4000_0000
    ensures q * divisor < 0x2000_0000 * rem + divisor && 0x2000_0000 * rem < q * divisor + 2 * divisor
  {
    EstimateBelow(divisor, rem, k, b, r, recip);
    EstimateAbove(divisor, rem, k, b, r, recip);
    LeadingSmall(divisor, rem, k, b, r, recip);
    MulLe(0, r, recip);
    hide Leading;
    DigitBounds(r * recip, q, divisor, rem);
  }

  lemma {:induction false} DigitBounds(e: nat, q: int, divisor: nat, rem: nat)
    requires q == (e + 0x8000_0000) / 0x1_0000_0000 && 0 < divisor && rem < 2 * divisor
    requires e * divisor < 0x2000_0000_0000_0000 * rem + 0x8000_0000 * divisor
    requires 0x2000_0000_0000_0000 * rem < e * divisor + 0x1_8000_0000 * divisor
    ensures 0 <= q <= 0x4000_0000
    ensures q * divisor < 0x2000_0000 * rem + divisor && 0x2000_0000 * rem < q * divisor + 2 * divisor
  {
    MulLe(0x1_0000_0000 * q, e + 0x8000_0000, divisor);
    MulLe(e + 0x8000_0000 - 0xFFFF_FFFF, 0x1_0000_0000 * q, divisor);
    assert (0x1_0000_0000 * q) * divisor == 0x1_0000_0000 * (q * divisor);
    assert (e + 0x8000_0000) * divisor == e * divisor + 0x8000_0000 * divisor;
    assert (e + 0x8000_0000 - 0xFFFF_FFFF) * divisor == e * divisor - 0x7FFF_FFFF * divisor;
    if 0x4000_0001 <= q {
      MulLe(0x4000_0001, q, divisor);
    }
  }

  /** A digit of `s` bits, truncated: less than half a divisor too large, and in any case short of
      the right one by a bounded amount. */
  lemma {:induction false} TruncatedDigit(divisor: nat, rem: nat, k: nat, b: Word32, r: nat, recip: Word32,
      s: nat, q: nat)
    requires Leading(divisor, rem, k, b, r, recip) && s <= 29 && 0 <= r * recip
    requires q == Shr(r * recip / 0x1_0000_0000, 29 - s)
    ensures var t := Shl(rem, s) - q * divisor;
      0 < 2 * t + divisor && 2 * t < 5 * divisor &&
      0x1_0000_0000 * (t - divisor) < 0x8000_0000_0000_0000 * k + 0x8000_0000 * divisor
  {
    EstimateBelow(divisor, rem, k, b, r, recip);
    EstimateAbove(divisor, rem, k, b, r, recip);
    TruncatedBounds(r * recip, q, s);
    hide *;
    DigitOfEstimate(r * recip, divisor, rem, s, q, 0x8000_0000_0000_0000 * k);
  }

  lemma {:induction false} DigitOfEstimate(e: nat, divisor: nat, rem: nat, s: nat, q: nat, loss: nat)
    requires s <= 29 && Shl(q, 61 - s) <= e < Shl(q + 1, 61 - s)
    requires e * divisor < 0x2000_0000_0000_0000 * rem + 0x8000_0000 * divisor
    requires 0x2000_0000_0000_0000 * rem < e * divisor + loss + 0x8000_0000 * divisor
    requires loss <= 0x1_0000_0000 * divisor
    ensures var t := Shl(rem, s) - q * divisor;
      0 < 2 * t + divisor && 2 * t < 5 * divisor &&
      0x1_0000_0000 * (t - divisor) < loss + 0x8000_0000 * divisor
  {
    hide Shl;
    MulLe(Shl(q, 61 - s), e, divisor);
    MulLe(e, Shl(q + 1, 61 - s), divisor);
    ShlMul(q, divisor, 61 - s);
    ShlMul(q + 1, divisor, 61 - s);
    NextMultiple(q, divisor);
    DigitScaled(q * divisor, divisor, rem, s, e * divisor, loss);
  }

  lemma {:induction false} NextMultiple(q: int, divisor: int)
    ensures (q + 1) * divisor == q * divisor + divisor
  {
  }

  lemma {:induction false} ShlMul(x: int, y: int, k: nat)
    ensures Shl(x, k) * y == Shl(x * y, k)
  {
    ShlIsTimes(x, k);
    ShlIsTimes(x * y, k);
    MulSwap(x, Pow2(k), y);
  }

  lemma {:induction false} TruncatedBounds(e: nat, q: nat, s: nat)
    requires s <= 29 && q == Shr(e / 0x1_0000_0000, 29 - s)
    ensures Shl(q, 61 - s) <= e < Shl(q + 1, 61 - s)
  {
    var h := e / 0x1_0000_0000;
    ShrSplits(h, 29 - s);
    ShlNext(q, 29 - s);
    Shl32(Shl(q, 29 - s));
    Shl32(Shl(q + 1, 29 - s));
    ShlShl(q, 29 - s, 32);
    ShlShl(q + 1, 29 - s, 32);
    hide Shl, Shr, LowBits, Pow2;
    assert 0x1_0000_0000 * h <= e < 0x1_0000_0000 * (h + 1);
  }

  lemma {:induction false} Shl32(n: int)
    ensures Shl(n, 32) == 0x1_0000_0000 * n
  {
    SmallShifts(n);
  }

  lemma {:induction false} Shl61(n: int)
    ensures Shl(n, 61) == 0x2000_0000_0000_0000 * n && Shl(n, 31) == 0x8000_0000 * n
  {
    ShlIsTimes(n, 60);
    ShlIsTimes(n, 31);
    Pow2Literals();
  }

  lemma {:induction false} ShlGrows(x: nat, j: nat, k: nat)
    requires j <= k
    ensures Shl(x, j) <= Shl(x, k)
  {
    ShlShl(x, j, k - j);
    ShlNonneg(x, j);
    ShlNonneg(Shl(x, j), k - j);
  }

  /** Bounds found on the scale of the whole estimate, brought down to the scale of the digit. */
  lemma {:induction false} DigitScaled(p: int, divisor: nat, rem: nat, s: nat, eb: int, loss: nat)
    requires s <= 29 && Shl(p, 61 - s) <= eb <= Shl(p + divisor, 61 - s)
    requires eb < 0x2000_0000_0000_0000 * rem + 0x8000_0000 * divisor
    requires 0x2000_0000_0000_0000 * rem < eb + loss + 0x8000_0000 * divisor
    requires loss <= 0x1_0000_0000 * divisor
    ensures var t := Shl(rem, s) - p;
      0 < 2 * t + divisor && 2 * t < 5 * divisor &&
      0x1_0000_0000 * (t - divisor) < loss + 0x8000_0000 * divisor
  {
    hide Shl;
    var t, m := Shl(rem, s) - p, 61 - s;
    Shl61(rem);
    Shl61(divisor);
    ShlShl(rem, s, m);
    ShlAdd(t, p, m);
    ShlAdd(t - divisor, p + divisor, m);
    DoubledScale(t, divisor, m);
    ShlGrows(divisor, 31, m - 1);
    ShlOrder(0, 2 * t + divisor, m - 1);
    ShlOne(m - 1);
    if divisor < t {
      Shl32(t - divisor);
      ShlGrows(t - divisor, 32, m);
    }
  }

  lemma {:induction false} DoubledScale(t: int, d: int, m: nat)
    requires 0 < m
    ensures Shl(2 * t + d, m - 1) == Shl(t, m) + Shl(d, m - 1)
  {
    ShlAdd(2 * t, d, m - 1);
    ShlAdd(t, t, m - 1);
  }

  /** A digit of `s` bits estimated from all the bits of a short divisor is at most one too small. */
  lemma {:induction false} ShortDigit(divisor: nat, rem: nat, recip: Word32, s: nat, q: nat)
    requires 4 * divisor < 0x1_0000_0000 && rem < 4 * divisor && s <= 29
    requires recip * (4 * divisor) <= 0x7FFF_FFFF_FFFF_FFFF < recip * (4 * divisor) + 4 * divisor
    requires 0 <= rem * recip && q == Shr(rem * recip / 0x1_0000_0000, 29 - s)
    ensures 0 <= Shl(rem, s) - q * divisor < 2 * divisor
  {
    TruncatedBounds(rem * recip, q, s);
    ShortEstimate(divisor, rem, recip);
    hide *;
    ShortScaled(rem * recip, divisor, rem, s, q);
  }

  lemma {:induction false} ShortEstimate(divisor: nat, rem: nat, recip: Word32)
    requires recip * (4 * divisor) <= 0x7FFF_FFFF_FFFF_FFFF < recip * (4 * divisor) + 4 * divisor
    ensures (rem * recip) * divisor <= 0x2000_0000_0000_0000 * rem <= (rem * recip) * divisor + rem * divisor
  {
    var p := recip * (4 * divisor);
    MulLe(p, 0x8000_0000_0000_0000, rem);
    MulLe(0x8000_0000_0000_0000, p + 4 * divisor, rem);
    assert p * rem == 4 * ((rem * recip) * divisor) by {
      MulSwap(recip, 4 * divisor, rem);
      assert (rem * recip) * (4 * divisor) == 4 * ((rem * recip) * divisor);
    }
    assert (p + 4 * divisor) * rem == p * rem + 4 * (rem * divisor);
  }

  lemma {:induction false} ShortScaled(e: nat, divisor: nat, rem: nat, s: nat, q: nat)
    requires s <= 29 && Shl(q, 61 - s) <= e < Shl(q + 1, 61 - s)
    requires 4 * divisor < 0x1_0000_0000 && rem < 4 * divisor
    requires e * divisor <= 0x2000_0000_0000_0000 * rem <= e * divisor + rem * divisor
    ensures 0 <= Shl(rem, s) - q * divisor < 2 * divisor
  {
    hide Shl;
    var t, m := Shl(rem, s) - q * divisor, 61 - s;
    Shl61(rem);
    ShlShl(rem, s, m);
    MulLe(Shl(q, m), e, divisor);
    MulLe(e, Shl(q + 1, m), divisor);
    ShlMul(q, divisor, m);
    ShlMul(q + 1, divisor, m);
    NextMultiple(q, divisor);
    ShlAdd(t, q * divisor, m);
    ShlAdd(t - divisor, (q + 1) * divisor, m);
    ShlOne(m);
    ShlOrder(t, 0, m);
    MulLe(rem, 0xFFFF_FFFF, divisor);
    Shl32(divisor);
    ShlGrows(divisor, 32, m);
    ShlOrder(t - divisor, divisor, m);
  }
}
