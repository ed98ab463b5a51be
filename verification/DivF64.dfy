/** `f64_div` (softfloat/f64_div.c): two quotient digits estimated from below, with an exact
    check only where the estimate could be wrong about a rounding boundary. */
module DivF64 {
  import opened Arith
  import opened Powers
  import opened Rounding
  import opened Sticky
  import opened Words
  import opened RoundPack
  import opened RoundPackF64
  import opened Operations
  import opened EncodingF64
  import opened Quotients
  import Estimate

  /** `b` is the leading half of a divisor and `recip` two less than its approximate reciprocal. */
  predicate Leading(divisor: nat, b: int, recip: int) {
    0x8000_0000_0000_0000 <= divisor < 0x1_0000_0000_0000_0000 && b == divisor / 0x1_0000_0000 &&
    0 < recip < 0xFFFF_FFFF &&
    (recip + 2) * b <= 0x7FFF_FFFF_FFFF_FFFF < (recip + 2) * b + b
  }

  /** The reduced reciprocal, times the whole divisor, stays below 2^95 and is close to it. */
  lemma {:induction false} RecipBounds(divisor: nat, b: int, recip: int)
    requires Leading(divisor, b, recip)
    ensures recip * divisor < 0x8000_0000_0000_0000_0000_0000
    ensures 0x8000_0000_0000_0000_0000_0000 <= recip * divisor + 3 * divisor
  {
    var low := divisor % 0x1_0000_0000;
    assert recip * divisor == (recip * b) * 0x1_0000_0000 + recip * low by {
      DistributeHigh(recip, b, low);
    }
    MulLe(recip, 0xFFFF_FFFF, low);
    MulLe(0, recip, low);
    assert (recip + 2) * b == recip * b + 2 * b;
  }

  lemma {:induction false} DistributeHigh(x: int, b: int, low: int)
    ensures x * (b * 0x1_0000_0000 + low) == (x * b) * 0x1_0000_0000 + x * low
  {
  }

  /** A digit estimated from leading halves is strictly too small, by a bounded amount. */
  lemma {:induction false} UnderestimatedDigit(divisor: nat, b: int, recip: int, rem: nat, d: int)
    requires Leading(divisor, b, recip) && 0 < rem
    requires d == rem / 0x1_0000_0000 * recip / 0x1_0000_0000
    ensures 0 <= d && d * divisor < 0x8000_0000 * rem
    ensures (0x8000_0000 * rem - d * divisor) * 0x1_0000_0000 <
      0x2_0000_0000 * divisor + 3 * (rem / 0x1_0000_0000 * divisor)
  {
    var r := rem / 0x1_0000_0000;
    var e, p := r * recip, recip * divisor;
    RecipBounds(divisor, b, recip);
    MulLe(0, r, recip);
    MulLe(d * 0x1_0000_0000, e, divisor);
    MulLe(e, d * 0x1_0000_0000 + 0xFFFF_FFFF, divisor);
    assert e * divisor == r * p by { MulSwap(r, recip, divisor); Reassociate(r, recip, divisor); }
    DigitTerms(d, divisor);
    MulLe(0x8000_0000_0000_0000_0000_0000, p + 3 * divisor, r);
    if 0 < r {
      MulLt(p, 0x8000_0000_0000_0000_0000_0000, r);
    }
    Distributed(p, divisor, r);
    hide *;
    DigitLoss(d * divisor, divisor, rem, r, r * p, r * divisor);
  }

  lemma {:induction false} Reassociate(r: int, recip: int, divisor: int)
    ensures (r * recip) * divisor == r * (recip * divisor) == (recip * divisor) * r
  {
  }

  lemma {:induction false} DigitTerms(d: int, divisor: int)
    ensures (d * 0x1_0000_0000) * divisor == 0x1_0000_0000 * (d * divisor)
    ensures (d * 0x1_0000_0000 + 0xFFFF_FFFF) * divisor ==
      0x1_0000_0000 * (d * divisor) + 0xFFFF_FFFF * divisor
  {
  }

  lemma {:induction false} Distributed(p: int, divisor: int, r: int)
    ensures (p + 3 * divisor) * r == r * p + 3 * (r * divisor) && p * r == r * p
  {
  }

  lemma {:induction false} DigitLoss(dd: int, divisor: nat, rem: nat, r: nat, rp: int, rd: int)
    requires r == rem / 0x1_0000_0000 && 0 < rem && 0x8000_0000_0000_0000 <= divisor
    requires 0x1_0000_0000 * dd <= rp <= 0x1_0000_0000 * dd + 0xFFFF_FFFF * divisor
    requires if r == 0 then rp == 0 else rp < 0x8000_0000_0000_0000_0000_0000 * r
    requires 0x8000_0000_0000_0000_0000_0000 * r <= rp + 3 * rd
    ensures dd < 0x8000_0000 * rem
    ensures (0x8000_0000 * rem - dd) * 0x1_0000_0000 < 0x2_0000_0000 * divisor + 3 * rd
  {
  }

  /** (x - dt * b1) << 28, less dt * b0, modulo 2^64. */
  function Reduce(x: Word64, dt: nat, b1: nat, b0: nat): (r: Word64)
    ensures r == Wrap64(0x1000_0000 * (x as int) - dt * (0x1000_0000 * b1 + b0))
  {
    ReduceModulo(x, dt, b1, b0);
    Wrap64(Shl64(Wrap64(x as int - dt * b1), 28) - dt * b0)
  }

  lemma {:induction false} WrapTurns(x: int) returns (k: int)
    ensures Wrap64(x) == x + k * 0x1_0000_0000_0000_0000
  {
    WrapIsModulo(x);
    k := -(x / 0x1_0000_0000_0000_0000);
  }

  lemma {:induction false} SameWord(x: int, y: int, k: int)
    requires x == y + k * 0x1_0000_0000_0000_0000
    ensures Wrap64(x) == Wrap64(y)
  {
    var j := WrapTurns(y);
    Wrap64Of(x, k - j, Wrap64(y));
  }

  lemma {:induction false} ReduceModulo(x: Word64, dt: nat, b1: nat, b0: nat)
    ensures Wrap64(Shl64(Wrap64(x as int - dt * b1), 28) - dt * b0) ==
      Wrap64(0x1000_0000 * (x as int) - dt * (0x1000_0000 * b1 + b0))
  {
    DistributeTerm(dt, b1, b0);
    hide *;
    ReduceSteps(x, dt * b1, dt * b0);
  }

  lemma {:induction false} ReduceSteps(x: Word64, p1: int, p0: int)
    ensures Wrap64(Shl64(Wrap64(x as int - p1), 28) - p0) ==
      Wrap64(0x1000_0000 * (x as int) - (0x1000_0000 * p1 + p0))
  {
    var w := Wrap64(x as int - p1);
    var j := WrapTurns(x as int - p1);
    var k := WrapTurns(Shl(w, 28));
    Shl28(w);
    hide Wrap64, Shl;
    SameWord(Shl64(w, 28) - p0, 0x1000_0000 * (x as int) - (0x1000_0000 * p1 + p0), 0x1000_0000 * j + k);
  }

  lemma {:induction false} Shl28(n: int)
    ensures Shl(n, 28) == 0x1000_0000 * n
  {
    ShlIsTimes(n, 28);
    Pow2Literals();
    assert Pow2(31) == 8 * Pow2(28);
  }

  lemma {:induction false} DistributeTerm(dt: int, b1: int, b0: int)
    ensures dt * (0x1000_0000 * b1 + b0) == 0x1000_0000 * (dt * b1) + dt * b0
  {
  }

  /** The high 32 bits of the product of a leading half and the reciprocal. */
  function TopDigit(x: Word64, recip: nat): nat {
    MulLe(0, x / 0x1_0000_0000, recip);
    x / 0x1_0000_0000 * recip / 0x1_0000_0000
  }

  lemma {:induction false} TopDigitIs(x: Word64, recip: nat)
    ensures TopDigit(x, recip) == x / 0x1_0000_0000 * recip / 0x1_0000_0000
  {
  }

  predicate OneDigit(sigA: nat, sigB: nat, s: nat, rem: nat) {
    8 * rem == 0x8000_0000 * sigA - s * sigB && s < 0x8000_0000 && 0 < 8 * rem < 5 * sigB
  }

  /** The second digit is too small by more than nothing and less than 4. */
  predicate TwoDigits(sigA: nat, sigB: nat, s: nat, rem: nat, q0: int) {
    var t := 0x8000_0000 * rem - q0 * sigB;
    OneDigit(sigA, sigB, s, rem) && 0 <= q0 < 0x6000_0000 && 0 < t < 4 * sigB
  }

  /** The first digit of the quotient and what is left of the dividend: an eighth of it. */
  lemma {:induction false} FirstDigit(sigA: Word64, sigB: Word64, recip: int, s: int, rem: Word64)
    requires Leading(sigB, sigB / 0x1_0000_0000, recip) && sigB % 0x10 == 0 && sigA % 0x10 == 0
    requires sigA < sigB <= 2 * sigA && 0 <= recip && s == TopDigit(sigA, recip)
    requires rem == Reduce(sigA, 2 * s, sigB / 0x1_0000_0000, sigB % 0x1_0000_0000 / 0x10)
    ensures OneDigit(sigA, sigB, s, rem)
  {
    TopDigitIs(sigA, recip);
    hide *;
    UnderestimatedDigit(sigB, sigB / 0x1_0000_0000, recip, sigA, s);
    var t := 0x8000_0000 * sigA - s * sigB;
    HalvesOf(sigB);
    FirstSmall(sigA, sigB, s, t);
    FirstRemainder(sigA, sigB, s, 0x1000_0000 * (sigB / 0x1_0000_0000) + sigB % 0x1_0000_0000 / 0x10, t);
    OneDigitIs(sigA, sigB, s, rem, t);
  }

  lemma {:induction false} OneDigitIs(sigA: nat, sigB: nat, s: int, rem: nat, t: int)
    requires 0 <= s < 0x8000_0000 && 8 * rem == t == 0x8000_0000 * sigA - s * sigB && 0 < t < 5 * sigB
    ensures OneDigit(sigA, sigB, s, rem)
  {
  }

  lemma {:induction false} HalvesOf(sigB: Word64)
    requires sigB % 0x10 == 0
    ensures sigB == 0x10 * (0x1000_0000 * (sigB / 0x1_0000_0000) + sigB % 0x1_0000_0000 / 0x10)
  {
    var hi, low := sigB / 0x1_0000_0000, sigB % 0x1_0000_0000;
    assert low % 0x10 == 0 by {
      assert low == 0x10 * (sigB / 0x10 - 0x1000_0000 * hi);
    }
  }

  lemma {:induction false} FirstSmall(sigA: Word64, sigB: Word64, s: int, t: int)
    requires 0 <= s && 0 < t == 0x8000_0000 * sigA - s * sigB && sigA < sigB
    requires t * 0x1_0000_0000 < 0x2_0000_0000 * sigB + 3 * (sigA / 0x1_0000_0000 * sigB)
    ensures s < 0x8000_0000 && t < 5 * sigB
  {
    MulLe(sigA / 0x1_0000_0000, 0xFFFF_FFFF, sigB);
    if 0x8000_0000 <= s {
      MulLe(0x8000_0000, s, sigB);
    }
  }

  lemma {:induction false} FirstRemainder(sigA: Word64, sigB: Word64, s: int, b: int, t: int)
    requires sigB == 0x10 * b && 0 < t == 0x8000_0000 * sigA - s * sigB && t < 5 * sigB
    ensures 8 * Wrap64(0x1000_0000 * (sigA as int) - (2 * s) * b) == t
  {
    hide *;
    EighthTerm(s, b, sigB);
    FirstWord(sigA, sigB, (2 * s) * b, t);
  }

  lemma {:induction false} FirstWord(sigA: Word64, sigB: Word64, p: int, t: int)
    requires 0 < t == 0x8000_0000 * sigA - 8 * p && t < 5 * sigB
    ensures 8 * Wrap64(0x1000_0000 * (sigA as int) - p) == t
  {
  }

  lemma {:induction false} SecondDigit(sigA: Word64, sigB: Word64, recip: int, s: nat, rem: Word64, q0: int)
    requires Leading(sigB, sigB / 0x1_0000_0000, recip) && OneDigit(sigA, sigB, s, rem)
    requires 0 <= recip && q0 == TopDigit(rem, recip)
    ensures TwoDigits(sigA, sigB, s, rem, q0)
  {
    TopDigitIs(rem, recip);
    hide Leading, TopDigit;
    UnderestimatedDigit(sigB, sigB / 0x1_0000_0000, recip, rem, q0);
    SecondSmall(sigB, rem, q0, 0x8000_0000 * rem - q0 * sigB);
  }

  lemma {:induction false} SecondSmall(sigB: Word64, rem: nat, q0: int, t: int)
    requires 0 <= q0 && 0 < t == 0x8000_0000 * rem - q0 * sigB && 8 * rem < 5 * sigB
    requires t * 0x1_0000_0000 < 0x2_0000_0000 * sigB + 3 * (rem / 0x1_0000_0000 * sigB)
    ensures q0 < 0x6000_0000 && t < 4 * sigB
  {
    hide *;
    TopOfRemainder(sigB, rem);
    if 0x6000_0000 <= q0 {
      MulLe(0x6000_0000, q0, sigB);
    }
    SecondBounds(sigB, rem, q0 * sigB, rem / 0x1_0000_0000 * sigB, t);
  }

  lemma {:induction false} TopOfRemainder(sigB: Word64, rem: nat)
    requires 8 * rem < 5 * sigB
    ensures 8 * (rem / 0x1_0000_0000 * sigB) <= 0x4_FFFF_FFFF * sigB
  {
    MulLe(8 * (rem / 0x1_0000_0000), 0x4_FFFF_FFFF, sigB);
    MulSwap(8, rem / 0x1_0000_0000, sigB);
  }

  lemma {:induction false} SecondBounds(sigB: nat, rem: nat, product: int, top: int, t: int)
    requires 0 < t == 0x8000_0000 * rem - product && 8 * rem < 5 * sigB && 8 * top <= 0x4_FFFF_FFFF * sigB
    requires t * 0x1_0000_0000 < 0x2_0000_0000 * sigB + 3 * top
    ensures product < 0x6000_0000 * sigB && t < 4 * sigB
  {
  }

  /** An estimate above the quotient by less than 64, clear of the multiples of 512 below it. */
  lemma {:induction false} ClearAbove(n: nat, d: nat, sigZ: nat, t: int)
    requires n == (sigZ - 0x40) * d + 0x10 * t && 0 < t < 4 * d && 0x40 <= sigZ % 0x200
    ensures Faithful(9, sigZ, Ratio(n as real, d as real))
  {
    var m := sigZ / 0x200;
    Multiples512(m);
    hide Shl, Faithful, Ratio;
    MulLe(0x200 * m, sigZ - 0x40, d);
    MulLe(sigZ + 1, 0x200 * m + 0x200, d);
    assert (sigZ - 0x40) * d == sigZ * d - 0x40 * d && (sigZ + 1) * d == sigZ * d + d;
    QuotientPlace(9, m, sigZ, n, d);
  }

  lemma {:induction false} Multiples512(m: int)
    ensures Shl(m, 9) == 0x200 * m && Shl(m + 1, 9) == 0x200 * m + 0x200
  {
    ShlIsTimes(m, 9);
    ShlIsTimes(m + 1, 9);
    assert Pow2(9) == 0x200;
  }

  /** A multiple of 512 within 64 of the quotient, moved off it in the direction of the quotient. */
  lemma {:induction false} Adjusted(n: nat, d: nat, base: nat, u: int, sigZ: int)
    requires 0 < d && base % 0x200 == 0 && n == base * d + u && -0x40 * d < u < 0x40 * d
    requires sigZ == if u < 0 then base - 0x80 else if u == 0 then base else base + 1
    ensures Faithful(9, sigZ, Ratio(n as real, d as real))
  {
    var m := base / 0x200;
    Multiples512(m);
    Multiples512(m - 1);
    hide Shl, Faithful, Ratio;
    assert (base - 0x200) * d == base * d - 0x200 * d && (base + 0x200) * d == base * d + 0x200 * d;
    QuotientPlace(9, if u < 0 then m - 1 else m, sigZ, n, d);
  }

  /** The exact remainder of the second digit, with its low bits cleared, in two's complement. */
  lemma {:induction false} ExactSecond(sigB: Word64, rem: Word64, q: nat, q': nat, t: int, r: Word64)
    requires sigB % 0x10 == 0 && q' <= q <= q' + 3 && 0 < t < 4 * sigB
    requires t == 0x8000_0000 * rem - (q - 4) * sigB
    requires r == Reduce(rem, 2 * q', sigB / 0x1_0000_0000, sigB % 0x1_0000_0000 / 0x10)
    ensures var u := 0x8000_0000 * rem - q' * sigB;
      -4 * sigB < u < 4 * sigB &&
      (0x8000_0000_0000_0000 <= r <==> u < 0) && (r == 0 <==> u == 0)
  {
    hide *;
    var b := 0x1000_0000 * (sigB / 0x1_0000_0000) + sigB % 0x1_0000_0000 / 0x10;
    HalvesOf(sigB);
    var u := 0x8000_0000 * rem - q' * sigB;
    SecondRange(sigB, rem, q, q', t);
    EighthTerm(q', b, sigB);
    SignedWord(0x1000_0000 * (rem as int) - (2 * q') * b, u, sigB);
  }

  lemma {:induction false} SecondRange(sigB: nat, rem: nat, q: nat, q': nat, t: int)
    requires q' <= q <= q' + 3 && 0 < t < 4 * sigB && t == 0x8000_0000 * rem - (q - 4) * sigB
    ensures -4 * sigB < 0x8000_0000 * rem - q' * sigB < 4 * sigB
  {
    MulLe(-4, q - 4 - q', sigB);
    MulLe(q - 4 - q', -1, sigB);
    assert (q - 4 - q') * sigB == (q - 4) * sigB - q' * sigB;
  }

  lemma {:induction false} EighthTerm(q: int, b: int, sigB: int)
    requires sigB == 0x10 * b
    ensures q * sigB == 8 * ((2 * q) * b)
  {
    assert q * (0x10 * b) == 0x10 * (q * b) && (2 * q) * b == 2 * (q * b);
  }

  lemma {:induction false} SignedWord(v: int, u: int, sigB: Word64)
    requires 8 * v == u && -4 * sigB < u < 4 * sigB
    ensures 0x8000_0000_0000_0000 <= Wrap64(v) <==> u < 0
    ensures Wrap64(v) == 0 <==> u == 0
  {
  }

  /** The significand of a quotient: two digits estimated from below, the second then made 4 larger,
      and an exact check when that could have crossed a multiple of 512. */
  method QuotientF64(sigA0: Word64, sigB0: Word64) returns (sigZ: Word64)
    requires NormalF64Sig(sigA0) && NormalF64Sig(sigB0)
    ensures 0x4000_0000_0000_0000 <= sigZ < 0x8000_0000_0000_0000 && 0 < sigB0
    ensures Faithful(9, sigZ, Scale(Ratio(Dividend(sigA0, sigB0) as real, sigB0 as real), 62))
  {
    hide *;
    DividendRange(sigA0, sigB0);
    Shifted11(sigA0, sigB0);
    var sigA: Word64 := if sigA0 < sigB0 then sigA0 * 0x800 else sigA0 * 0x400;
    var sigB: Word64 := sigB0 * 0x800;
    var recip32 := Estimate.ApproxRecip32(sigB / 0x1_0000_0000) - 2;
    RecipLeads(sigB, recip32);
    var sig32Z := TopDigit(sigA, recip32);
    var rem := Reduce(sigA, 2 * sig32Z, sigB / 0x1_0000_0000, sigB % 0x1_0000_0000 / 0x10);
    FirstDigit(sigA, sigB, recip32, sig32Z, rem);
    var q := TopDigit(rem, recip32) + 4;
    SecondDigit(sigA, sigB, recip32, sig32Z, rem, q - 4);
    var quotient := CheckedQuotient(sigA, sigB, sig32Z, rem, q);
    QuotientInRange(sigA0, sigB0, sigA, sigB, quotient);
    sigZ := quotient;
  }

  /** The two digits put together, after the exact check where it is needed. */
  method CheckedQuotient(sigA: Word64, sigB: Word64, sig32Z: nat, rem: Word64, q0: nat) returns (sigZ: nat)
    requires sigB % 0x10 == 0 && 4 <= q0 && TwoDigits(sigA, sigB, sig32Z, rem, q0 - 4)
    ensures Faithful(9, sigZ, Ratio((0x8000_0000_0000_0000 * sigA) as real, sigB as real))
  {
    hide *;
    sigZ := 0x1_0000_0000 * sig32Z + 0x10 * q0;
    LowBitsOf(sig32Z, q0);
    if sigZ % 0x200 < 0x40 {
      var q := q0 - q0 % 8;
      sigZ := sigZ - sigZ % 0x80;
      sigZ := ExactCheck(sigA, sigB, sig32Z, rem, q0, q, sigZ);
    } else {
      ClearQuotient(sigA, sigB, sig32Z, rem, q0, sigZ);
    }
  }

  /** The exact remainder of a quotient rounded down to a multiple of 512 decides which way it errs. */
  method ExactCheck(sigA: Word64, sigB: Word64, ghost sig32Z: nat, rem: Word64, ghost q0: nat, q: nat,
      base: nat) returns (sigZ: nat)
    requires sigB % 0x10 == 0 && q <= q0 <= q + 3 && TwoDigits(sigA, sigB, sig32Z, rem, q0 - 4)
    requires base == 0x1_0000_0000 * sig32Z + 0x10 * q && base % 0x200 == 0
    ensures Faithful(9, sigZ, Ratio((0x8000_0000_0000_0000 * sigA) as real, sigB as real))
  {
    hide *;
    sigZ := base;
    var r := Reduce(rem, 2 * q, sigB / 0x1_0000_0000, sigB % 0x1_0000_0000 / 0x10);
    ghost var u := CheckDecides(sigA, sigB, sig32Z, rem, q0, q, base, r);
    OrOneOfBase(base);
    if 0x8000_0000_0000_0000 <= r {
      sigZ := sigZ - 0x80;
    } else if r != 0 {
      sigZ := OrOne(sigZ, true);
    }
    AdjustedQuotient(sigA, sigB, base, u, sigZ);
  }

  /** `base` is off by 16 times `u` divisors. */
  ghost predicate OffBy(sigA: nat, sigB: nat, base: nat, u: int) {
    0 < sigB && 0x8000_0000_0000_0000 * sigA == base * sigB + 0x10 * u && -4 * sigB < u < 4 * sigB
  }

  lemma {:induction false} CheckDecides(sigA: Word64, sigB: Word64, s: nat, rem: Word64, q0: nat, q: nat,
      base: nat, r: Word64) returns (u: int)
    requires sigB % 0x10 == 0 && q <= q0 <= q + 3 && TwoDigits(sigA, sigB, s, rem, q0 - 4)
    requires base == 0x1_0000_0000 * s + 0x10 * q && base % 0x200 == 0
    requires r == Reduce(rem, 2 * q, sigB / 0x1_0000_0000, sigB % 0x1_0000_0000 / 0x10)
    ensures OffBy(sigA, sigB, base, u)
    ensures (0x8000_0000_0000_0000 <= r <==> u < 0) && (r == 0 <==> u == 0) && (u < 0 ==> 0x80 <= base)
  {
    u := 0x8000_0000 * rem - q * sigB;
    hide Reduce;
    ExactSecond(sigB, rem, q0, q, 0x8000_0000 * rem - (q0 - 4) * sigB, r);
    ExactDigits(sigA, sigB, s, q, rem);
    hide *;
    if u < 0 {
      BaseNotZero(sigA, sigB, base, u);
    }
    OffByIs(sigA, sigB, base, u);
  }

  lemma {:induction false} OffByIs(sigA: nat, sigB: nat, base: nat, u: int)
    requires 0x8000_0000_0000_0000 * sigA == base * sigB + 0x10 * u && -4 * sigB < u < 4 * sigB
    ensures OffBy(sigA, sigB, base, u)
  {
  }

  lemma {:induction false} AdjustedQuotient(sigA: nat, sigB: nat, base: nat, u: int, sigZ: int)
    requires OffBy(sigA, sigB, base, u) && base % 0x200 == 0
    requires sigZ == if u < 0 then base - 0x80 else if u == 0 then base else base + 1
    ensures Faithful(9, sigZ, Ratio((0x8000_0000_0000_0000 * sigA) as real, sigB as real))
  {
    hide Faithful, Ratio;
    Adjusted(0x8000_0000_0000_0000 * sigA, sigB, base, 0x10 * u, sigZ);
  }

  lemma {:induction false} ClearQuotient(sigA: nat, sigB: nat, s: nat, rem: nat, q: nat, sigZ: nat)
    requires TwoDigits(sigA, sigB, s, rem, q - 4) && sigZ == 0x1_0000_0000 * s + 0x10 * q
    requires 0x40 <= sigZ % 0x200
    ensures 0 < sigB && Faithful(9, sigZ, Ratio((0x8000_0000_0000_0000 * sigA) as real, sigB as real))
  {
    hide Faithful, Ratio;
    ExactDigits(sigA, sigB, s, q - 4, rem);
    ClearAbove(0x8000_0000_0000_0000 * sigA, sigB, sigZ, 0x8000_0000 * rem - (q - 4) * sigB);
  }

  lemma {:induction false} Shifted11(sigA0: Word64, sigB0: Word64)
    requires NormalF64Sig(sigA0) && NormalF64Sig(sigB0)
    ensures var sigA, sigB := if sigA0 < sigB0 then sigA0 * 0x800 else sigA0 * 0x400, sigB0 * 0x800;
      0 <= sigA < sigB < 0x1_0000_0000_0000_0000 && sigB <= 2 * sigA && 0x8000_0000_0000_0000 <= sigB &&
      sigA % 0x10 == 0 && sigB % 0x10 == 0 && 0x8000_0000 <= sigB / 0x1_0000_0000 < 0x1_0000_0000
  {
    Multiple16(sigA0);
    Multiple16(sigB0);
  }

  lemma {:induction false} Multiple16(n: int)
    ensures n * 0x800 % 0x10 == 0 && n * 0x400 % 0x10 == 0
  {
    assert n * 0x800 == 0x10 * (n * 0x80) && n * 0x400 == 0x10 * (n * 0x40);
  }

  lemma {:induction false} RecipLeads(sigB: Word64, recip32: int)
    requires 0x8000_0000_0000_0000 <= sigB && 0x8000_0000 <= sigB / 0x1_0000_0000 < 0x1_0000_0000
    requires recip32 == Estimate.ApproxRecip32(sigB / 0x1_0000_0000) - 2
    ensures Leading(sigB, sigB / 0x1_0000_0000, recip32) && 0 < recip32 < 0x1_0000_0000
  {
    var b, r := sigB / 0x1_0000_0000, recip32 + 2;
    if r <= 2 {
      MulLe(r, 2, b);
    }
  }

  lemma {:induction false} LowBitsOf(s: nat, q: nat)
    ensures var sigZ := 0x1_0000_0000 * s + 0x10 * q;
      sigZ % 0x200 == 0x10 * (q % 0x20)
    ensures var sigZ := 0x1_0000_0000 * s + 0x10 * q;
      sigZ % 0x80 == 0x10 * (q % 8)
    ensures q % 0x20 < 4 ==> (q % 8 <= 3 && (0x1_0000_0000 * s + 0x10 * (q - q % 8)) % 0x200 == 0)
  {
    var j, i := q / 0x20, q % 0x20;
    DivModUnique(0x1_0000_0000 * s + 0x10 * q, 0x200, 0x80_0000 * s + j, 0x10 * i);
    DivModUnique(0x1_0000_0000 * s + 0x10 * q, 0x80, 0x200_0000 * s + q / 8, 0x10 * (q % 8));
    if i < 4 {
      DivModUnique(q, 8, 4 * j, i);
      DivModUnique(0x1_0000_0000 * s + 0x10 * (q - q % 8), 0x200, 0x80_0000 * s + j, 0);
    }
  }

  lemma {:induction false} ExactDigits(sigA: nat, sigB: nat, s: int, q: int, rem: nat)
    requires 8 * rem == 0x8000_0000 * sigA - s * sigB
    ensures 0x8000_0000_0000_0000 * sigA ==
      (0x1_0000_0000 * s + 0x10 * q) * sigB + 0x10 * (0x8000_0000 * rem - q * sigB)
  {
    assert (0x1_0000_0000 * s + 0x10 * q) * sigB == 0x1_0000_0000 * (s * sigB) + 0x10 * (q * sigB);
  }

  lemma {:induction false} BaseNotZero(sigA: nat, sigB: nat, base: nat, u: int)
    requires 0x8000_0000_0000_0000 * sigA == base * sigB + 0x10 * u && u < 0 && base % 0x200 == 0
    ensures 0x80 <= base
  {
    assert base != 0;
  }

  lemma {:induction false} OrOneOfBase(base: nat)
    requires base % 0x200 == 0
    ensures OrOne(base, true) == base + 1
  {
    assert base == 2 * (0x100 * (base / 0x200));
  }

  lemma {:induction false} QuotientInRange(sigA0: Word64, sigB0: Word64, sigA: Word64, sigB: Word64, sigZ: nat)
    requires 0 < sigB0 <= Dividend(sigA0, sigB0) < 2 * sigB0
    requires sigB == sigB0 * 0x800 && sigA == if sigA0 < sigB0 then sigA0 * 0x800 else sigA0 * 0x400
    requires Faithful(9, sigZ, Ratio((0x8000_0000_0000_0000 * sigA) as real, sigB as real))
    ensures 0x4000_0000_0000_0000 <= sigZ < 0x8000_0000_0000_0000
    ensures Faithful(9, sigZ, Scale(Ratio(Dividend(sigA0, sigB0) as real, sigB0 as real), 62))
  {
    hide Faithful, Ratio, Scale, Shl;
    var n := Dividend(sigA0, sigB0);
    Scaled62(n, sigB0);
    assert 0x8000_0000_0000_0000 * sigA == 0x4000_0000_0000_0000 * (n * 0x800);
    ScaledQuotientRange(n, sigB0, 62, 9, sigZ);
    Bounds62();
  }

  lemma {:induction false} Scaled62(n: nat, d: nat)
    requires 0 < d
    ensures Ratio((0x4000_0000_0000_0000 * (n * 0x800)) as real, (d * 0x800) as real) ==
      Scale(Ratio(n as real, d as real), 62)
  {
    hide Ratio, Scale;
    Times73(n, d);
    ScaleRatioBoth(n as real, 73, d as real, 11);
  }

  lemma {:induction false} Times73(n: nat, d: nat)
    ensures Scale(n as real, 73) == (0x4000_0000_0000_0000 * (n * 0x800)) as real
    ensures Scale(d as real, 11) == (d * 0x800) as real
  {
    ScaleInt(n, 73);
    ScaleInt(d, 11);
    ShlShl(n, 11, 62);
    ShlIsTimes(n, 11);
    ShlIsTimes(d, 11);
    assert Pow2(11) == 0x800;
    Times62(n * 0x800);
  }

  lemma {:induction false} Times62(n: int)
    ensures Shl(n, 62) == 0x4000_0000_0000_0000 * n
  {
    ShlIsTimes(n, 62);
    Pow2Literals();
    assert Pow2(63) == 2 * Pow2(62);
  }

  lemma {:induction false} Bounds62()
    ensures Shl(1, 62) == 0x4000_0000_0000_0000 && Shl(2, 62) == 0x8000_0000_0000_0000
  {
    Times62(1);
    Times62(2);
  }

  lemma {:induction false} DividendRange(sigA: nat, sigB: nat)
    requires NormalF64Sig(sigA) && NormalF64Sig(sigB)
    ensures 0 < sigB <= Dividend(sigA, sigB) < 2 * sigB
  {
  }

  /** The exact quotient of two unpacked operands, as the quotient of the significands. */
  lemma {:induction false} ExactQuotient(a: Word64, expA: int, sigA: Word64, b: Word64, expB: int, sigB: Word64)
    requires UnpackedF64(a, expA, sigA) && UnpackedF64(b, expB, sigB) && !IsZero(DatumF64(b))
    ensures 0 < sigB && 0.0 < Magnitude(F64, DatumF64(b))
    ensures InQuanta(F64, Ratio(Magnitude(F64, DatumF64(a)), Magnitude(F64, DatumF64(b)))) ==
      Scale(Ratio(sigA as real, sigB as real), expA - expB + 1074)
  {
    RatioInQuanta(F64, DatumF64(a), DatumF64(b));
    hide Scale, Ratio, Magnitude, DatumF64, Quanta, InQuanta;
    ScaleRatioBoth(sigA as real, expA - 1, sigB as real, expB - 1);
    ScaleScale(Ratio(sigA as real, sigB as real), expA - expB, 1074);
  }

  lemma {:induction false} DividendScaled(sigA: nat, sigB: nat, d: int, expZ: int)
    requires 0 < sigB && expZ == if sigA < sigB then d + 0x3FD else d + 0x3FE
    ensures Scale(Ratio(Dividend(sigA, sigB) as real, sigB as real), 62) ==
      Scale(Scale(Ratio(sigA as real, sigB as real), d + 1074), 10 - expZ)
  {
    var r := Ratio(sigA as real, sigB as real);
    ScaleScale(r, d + 1074, 10 - expZ);
    if sigA < sigB {
      ScaleRatioLeft(sigA as real, sigB as real, 1);
      assert Scale(sigA as real, 1) == (2 * sigA) as real;
      hide Scale, Ratio;
      ScaleScale(r, 1, 62);
    }
  }

  /** The quotient of two unpacked operands, rounded. */
  method DivideSignificands(st: FloatState, signZ: bool, ghost a: Word64, expA: int, sigA: Word64,
      ghost b: Word64, expB: int, sigB: Word64) returns (uiZ: Word64)
    requires UnpackedF64(a, expA, sigA) && UnpackedF64(b, expB, sigB) && !IsZero(DatumF64(b))
    modifies st`exceptionFlags
    ensures ReturnsF64(uiZ, old(st.exceptionFlags), st.exceptionFlags, RoundedOutcome(F64, st.Env(), signZ,
      Ratio(Magnitude(F64, DatumF64(a)), Magnitude(F64, DatumF64(b)))))
  {
    hide *;
    UnpackedParts(a, expA, sigA);
    UnpackedParts(b, expB, sigB);
    ExactQuotient(a, expA, sigA, b, expB, sigB);
    ghost var v := Ratio(Magnitude(F64, DatumF64(a)), Magnitude(F64, DatumF64(b)));
    ghost var x := Scale(Ratio(sigA as real, sigB as real), expA - expB + 1074);
    var expZ := expA - expB + 0x3FE;
    if sigA < sigB {
      expZ := expZ - 1;
    }
    DividendScaled(sigA, sigB, expA - expB, expZ);
    var sigZ := QuotientF64(sigA, sigB);
    uiZ := RoundPackToF64(st, signZ, expZ, sigZ, x);
    RoundedIsOutcome(st.Env(), signZ, uiZ, v, x, old(st.exceptionFlags), st.exceptionFlags);
  }

  lemma {:induction false} UnpackedParts(a: Word64, exp: int, sig: Word64)
    requires UnpackedF64(a, exp, sig)
    ensures -51 <= exp < 0x7FF && NormalF64Sig(sig)
  {
  }

  lemma {:induction false} QuotientOfZero(env: Environment, a: Word64, b: Word64)
    requires IsZero(DatumF64(a)) && IsFinite(F64, DatumF64(b)) && !IsZero(DatumF64(b))
    ensures Divide(F64, env, DatumF64(a), DatumF64(b)) ==
      Outcome(Datum(DatumF64(a).sign != DatumF64(b).sign, 0), {})
  {
    var v, w := Magnitude(F64, DatumF64(a)), Magnitude(F64, DatumF64(b));
    InfPositive(F64);
    ZeroOutcome(F64, env, DatumF64(a).sign != DatumF64(b).sign);
    DivideCases(F64, env, DatumF64(a), DatumF64(b));
    hide Magnitude, Divide, RoundedOutcome, InfCode, DatumF64;
    assert v == 0.0;
    assert Ratio(v, w) == 0.0;
  }

  /** `f64_div`. */
  method F64Div(st: FloatState, a: Word64, b: Word64) returns (uiZ: Word64)
    modifies st`exceptionFlags
    ensures ReturnsF64(uiZ, old(st.exceptionFlags), st.exceptionFlags,
      Divide(F64, st.Env(), DatumF64(a), DatumF64(b)))
  {
    hide *;
    var signA, expA: int, sigA := SignF64UI(a), ExpF64UI(a), FracF64UI(a);
    var signB, expB: int, sigB := SignF64UI(b), ExpF64UI(b), FracF64UI(b);
    var signZ := signA != signB;
    ClassF64(a);
    ClassF64(b);
    DivideCases(F64, st.Env(), DatumF64(a), DatumF64(b));
    ReturnsSpecialF64(signZ, st.exceptionFlags, {});
    ReturnsSpecialF64(signZ, st.exceptionFlags, {Infinite});
    UnionWithNone(st.exceptionFlags);
    if expA == 0x7FF {
      if sigA != 0 {
        uiZ := PropagateNaNF64UI(st, a, b);
        return;
      }
      if expB == 0x7FF {
        if sigB != 0 {
          uiZ := PropagateNaNF64UI(st, a, b);
          return;
        }
        st.RaiseFlags({Invalid});
        uiZ := DefaultNaNF64();
        return;
      }
      uiZ := PackToF64UI(signZ, 0x7FF, 0);
      return;
    }
    if expB == 0x7FF {
      if sigB != 0 {
        uiZ := PropagateNaNF64UI(st, a, b);
        return;
      }
      uiZ := PackToF64UI(signZ, 0, 0);
      return;
    }
    if expB == 0 {
      if sigB == 0 {
        if expA == 0 && sigA == 0 {
          st.RaiseFlags({Invalid});
          uiZ := DefaultNaNF64();
          return;
        }
        st.RaiseFlags({Infinite});
        uiZ := PackToF64UI(signZ, 0x7FF, 0);
        return;
      }
      expB, sigB := NormSubnormalF64Sig(sigB);
      UnpackedSubnormalF64(b, expB, sigB);
    } else {
      UnpackedNormalF64(b);
    }
    if expA == 0 {
      if sigA == 0 {
        QuotientOfZero(st.Env(), a, b);
        uiZ := PackToF64UI(signZ, 0, 0);
        return;
      }
      expA, sigA := NormSubnormalF64Sig(sigA);
      UnpackedSubnormalF64(a, expA, sigA);
    } else {
      UnpackedNormalF64(a);
    }
    sigA, sigB := WithHiddenF64(sigA), WithHiddenF64(sigB);
    uiZ := DivideSignificands(st, signZ, a, expA, sigA, b, expB, sigB);
  }
}
