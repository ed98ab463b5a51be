/** Integer quotients that stand in for real ones in rounding. */
module Quotients {
  import opened Arith
  import opened Powers
  import opened Sticky
  import opened Operations

  lemma {:induction false} OneLess(q: int, divisor: int)
    ensures (q - 1) * divisor == q * divisor - divisor && (q + 1) * divisor == q * divisor + divisor
  {
  }

  /** The place of a quotient among the integers. */
  lemma {:induction false} RatioCompare(n: nat, d: nat, k: int)
    requires 0 < d
    ensures k * d < n <==> k as real < Ratio(n as real, d as real)
    ensures k * d == n <==> k as real == Ratio(n as real, d as real)
  {
    var y := Ratio(n as real, d as real);
    assert (k * d) as real == k as real * d as real;
    RealOrder(k as real, y, d as real);
    RealOrder(y, k as real, d as real);
  }

  lemma {:induction false} RealOrder(x: real, y: real, d: real)
    requires 0.0 < d
    ensures x < y <==> x * d < y * d
  {
    if x < y {
      assert (y - x) * d > 0.0;
    } else {
      assert (x - y) * d >= 0.0;
    }
  }

  lemma {:induction false} QuotientPlace(g: nat, m: int, s: int, n: nat, d: nat)
    requires 0 < d
    requires var lo, hi := Shl(m, g), Shl(m + 1, g);
      (s == lo && lo * d == n) || (lo < s < hi && lo * d < n < hi * d)
    ensures Faithful(g, s, Ratio(n as real, d as real))
  {
    RatioCompare(n, d, Shl(m, g));
    RatioCompare(n, d, Shl(m + 1, g));
    assert SamePlace(g, m, s, Ratio(n as real, d as real));
  }

  lemma {:induction false} Below(g: nat, t: nat) returns (m: nat)
    requires 0 < g
    ensures 0 <= Shl(m, g) <= t < Shl(m + 1, g) && Shl(m, g) % 2 == 0 && Shl(m + 1, g) % 2 == 0
    ensures LowBits(t, g) == t - Shl(m, g)
  {
    m := Shr(t, g);
    ShrSplits(t, g);
    ShlNext(m, g);
    EvenShl(m, g);
    EvenShl(m + 1, g);
  }

  /** A quotient truncated, and made sticky at least where its low bits are zero. */
  lemma {:induction false} StickyQuotient(g: nat, t: nat, s: nat, rem: nat, n: nat, d: nat)
    requires 0 < g && n == t * d + rem && rem < d
    requires s == OrOne(t, rem != 0) || (s == t && LowBits(t, g) != 0)
    ensures Faithful(g, s, Ratio(n as real, d as real))
  {
    var m := Below(g, t);
    var lo, hi := Shl(m, g), Shl(m + 1, g);
    hide Shl, Faithful;
    OneLess(t, d);
    MulLe(t + 1, hi, d);
    if t == lo {
      QuotientPlace(g, m, s, n, d);
    } else {
      MulLe(lo + 1, t, d);
      OneLess(lo, d);
      QuotientPlace(g, m, s, n, d);
    }
  }

  /** An estimate off by less than one below and two above, away from the multiples of 8. */
  lemma {:induction false} NearQuotient(t: nat, n: nat, d: nat)
    requires 0 < d && t * d < n + d && n < t * d + 2 * d && 1 <= t % 8 <= 6
    ensures Faithful(3, t, Ratio(n as real, d as real))
  {
    var m := Below(3, t);
    var lo := Shl(m, 3);
    ShlIsTimes(m, 3);
    ShlNext(m, 3);
    assert Pow2(3) == 8;
    hide Shl, Faithful, Pow2;
    OneLess(t, d);
    OneLess(t + 1, d);
    MulLe(lo, t - 1, d);
    MulLe(t + 2, lo + 8, d);
    QuotientPlace(3, m, t, n, d);
  }

  lemma {:induction false} ScaleRatioLeft(x: real, y: real, k: int)
    requires 0.0 <= x && 0.0 < y
    ensures 0.0 <= Scale(x, k) && Ratio(Scale(x, k), y) == Scale(Ratio(x, y), k)
    decreases if k < 0 then -k else k
  {
    if k > 0 {
      ScaleRatioLeft(x, y, k - 1);
    } else if k < 0 {
      ScaleRatioLeft(x, y, k + 1);
    }
  }

  lemma {:induction false} RatioShift(n: nat, d: nat, k: nat)
    requires 0 < d
    ensures 0 <= Shl(n, k)
    ensures Ratio(Shl(n, k) as real, d as real) == Scale(Ratio(n as real, d as real), k)
  {
    hide Scale, Ratio;
    ShlNonneg(n, k);
    ScaleInt(n, k);
    ScaleRatioLeft(n as real, d as real, k);
  }

  /** A quotient between 1 and 2, scaled up. */
  lemma {:induction false} ScaledQuotientRange(n: nat, d: nat, k: nat, g: nat, t: int)
    requires 0 < d && d <= n < 2 * d && g < k
    requires Faithful(g, t, Scale(Ratio(n as real, d as real), k))
    ensures Shl(1, k) <= t < Shl(2, k)
  {
    var r := Ratio(n as real, d as real);
    RatioCompare(n, d, 1);
    RatioCompare(n, d, 2);
    ScaleCompare(r, k, k, 1);
    ScaleCompare(r, k, k, 2);
    ShlShl(1, k - g, g);
    ShlShl(2, k - g, g);
    FaithfulAt(g, t, Scale(r, k), Shl(1, k - g));
    FaithfulAt(g, t, Scale(r, k), Shl(2, k - g));
  }

  /** The quotient of two scaled numbers. */
  lemma {:induction false} ScaleRatioBoth(x: real, i: int, y: real, j: int)
    requires 0.0 <= x && 0.0 < y
    ensures 0.0 <= Scale(x, i) && 0.0 < Scale(y, j)
    ensures Ratio(Scale(x, i), Scale(y, j)) == Scale(Ratio(x, y), i - j)
  {
    hide Scale, Ratio;
    ScaleRatioLeft(x, y, i - j);
    ScaleRatio(Scale(x, i - j), y, j);
    ScaleSign(x, i);
    ScaleScale(x, i - j, j);
    RatioIs(Scale(x, i), Scale(y, j));
    RatioIs(Scale(x, i - j), y);
  }

  lemma {:induction false} RatioIs(x: real, y: real)
    requires 0.0 <= x && 0.0 < y
    ensures Ratio(x, y) == x / y
  {
  }

  /** One more digit, carried from a remainder to the next. */
  lemma {:induction false} NextDigit(n: nat, acc: nat, divisor: nat, rem: nat, q: nat, rem': int)
    requires n == acc * divisor + rem && rem' == 0x2000_0000 * rem - q * divisor
    ensures 0x2000_0000 * n == (0x2000_0000 * acc + q) * divisor + rem'
  {
  }

  lemma {:induction false} Shl29(n: int)
    ensures Shl(n, 29) == 0x2000_0000 * n
  {
    ShlIsTimes(n, 29);
    Pow2Literals();
    Pow2Add(23, 6);
    assert Pow2(6) == 64;
  }

  /** The dividend, doubled when the quotient of the significands is under 1. */
  function Dividend(sigA: nat, sigB: nat): nat {
    if sigA < sigB then 2 * sigA else sigA
  }
}
