/** One quotient digit over two-word remainders, as `f128_div` and `f128_rem` take it. */
module StepF128 {
  import opened Arith
  import opened Powers
  import opened Words
  import opened Products
  import opened RoundPackF128
  import opened Estimate
  import opened Quotients

  /** Whether a two-word remainder is negative in two's complement. */
  predicate Negative(r: U128) {
    0x8000_0000_0000_0000 <= r.v64
  }

  /** `r` holds the integer `t` in two's complement. */
  predicate Holds(r: U128, t: int) {
    r.Val() == if t < 0 then t + 0x1_0000_0000_0000_0000_0000_0000_0000_0000 else t
  }

  predicate InRange128(t: int) {
    -0x8000_0000_0000_0000_0000_0000_0000_0000 <= t < 0x8000_0000_0000_0000_0000_0000_0000_0000
  }

  lemma {:induction false} NegativeIff(r: U128, t: int)
    requires InRange128(t) && Holds(r, t)
    ensures Negative(r) <==> t < 0
  {
  }

  lemma {:induction false} AddHolds(r: U128, t: int, b: U128)
    requires Holds(r, t) && InRange128(t) && InRange128(t + b.Val())
    ensures Holds(Add128(r, b), t + b.Val())
  {
  }

  lemma {:induction false} SubHolds(r: U128, t: int, b: U128)
    requires Holds(r, t) && InRange128(t) && InRange128(t - b.Val())
    ensures Holds(Sub128(r, b), t - b.Val())
  {
  }

  /** The remainder shifted left, less a digit's multiple of the divisor. */
  function Reduced(rem: U128, divisor: U128, dist: nat, q: Word32): (r: U128)
    requires 0 < dist < 64
    ensures var t := Shl(rem.Val(), dist) - q * divisor.Val(); InRange128(t) ==> Holds(r, t)
  {
    var shifted, term := ShortShiftLeft128(rem, dist), Mul128By32(divisor, q);
    SubtractModulo(shifted, Shr64(rem.v64, 64 - dist), Shl(rem.Val(), dist), term, divisor.Val() * q);
    Commute(q, divisor.Val());
    Sub128(shifted, term)
  }

  lemma {:induction false} Commute(x: int, y: int)
    ensures x * y == y * x
  {
  }

  lemma {:induction false} SubtractModulo(a: U128, j: int, x: int, b: U128, y: int)
    requires a.Val() + j * 0x1_0000_0000_0000_0000_0000_0000_0000_0000 == x
    requires b.Val() == y % 0x1_0000_0000_0000_0000_0000_0000_0000_0000
    ensures InRange128(x - y) ==> Holds(Sub128(a, b), x - y)
  {
    hide Sub128, U128.Val;
    var k := y / 0x1_0000_0000_0000_0000_0000_0000_0000_0000;
    DivMod(y, 0x1_0000_0000_0000_0000_0000_0000_0000_0000);
    ghost var low := Sub128(a, b).Val();
    var turns := if a.Val() < b.Val() then k - j + 1 else k - j;
    assert low == x - y + turns * 0x1_0000_0000_0000_0000_0000_0000_0000_0000;
    OneTurn(Sub128(a, b), x - y, turns);
  }

  lemma {:induction false} OneTurn(r: U128, t: int, turns: int)
    requires r.Val() == t + turns * 0x1_0000_0000_0000_0000_0000_0000_0000_0000
    ensures InRange128(t) ==> Holds(r, t)
  {
  }

  /** The leading bits of a normalized divisor and of a remainder under twice the divisor. */
  lemma {:induction false} LeadingF128(divisor: U128, rem: U128, recip: Word32)
    requires NormalSig(divisor.Val()) && rem.Val() < 2 * divisor.Val()
    requires var b := divisor.v64 / 0x2_0000;
      recip * b <= 0x7FFF_FFFF_FFFF_FFFF < recip * b + b
    ensures 0x8000_0000 <= divisor.v64 / 0x2_0000 < 0x1_0000_0000 && rem.v64 / 0x8_0000 < 0x8000_0000
    ensures Leading(divisor.Val(), rem.Val(), 0x2_0000_0000_0000_0000_0000, divisor.v64 / 0x2_0000,
      rem.v64 / 0x8_0000, recip)
  {
  }

  lemma {:induction false} DivisorTop(divisor: U128)
    requires NormalSig(divisor.Val())
    ensures 0x8000_0000 <= divisor.v64 / 0x2_0000 < 0x1_0000_0000
  {
  }

  /** The rounded estimate of the next digit, and the bounds on the remainder it leaves. */
  function EstimateDigit(divisor: U128, rem: U128, recip32: Word32): (q: Word32)
    requires NormalSig(divisor.Val()) && rem.Val() < 2 * divisor.Val()
    requires recip32 == ApproxRecip32F128(divisor)
    ensures q <= 0x4000_0000
    ensures q * divisor.Val() < 0x2000_0000 * rem.Val() + divisor.Val()
    ensures 0x2000_0000 * rem.Val() < q * divisor.Val() + 2 * divisor.Val()
  {
    LeadingF128(divisor, rem, recip32);
    var q64 := rem.v64 / 0x8_0000 * recip32;
    RoundedDigit(divisor.Val(), rem.Val(), 0x2_0000_0000_0000_0000_0000, divisor.v64 / 0x2_0000,
      rem.v64 / 0x8_0000, recip32, (q64 + 0x8000_0000) / 0x1_0000_0000);
    (q64 + 0x8000_0000) / 0x1_0000_0000
  }

  function ApproxRecip32F128(divisor: U128): (r: Word32)
    requires NormalSig(divisor.Val())
    ensures var b := divisor.v64 / 0x2_0000;
      r * b <= 0x7FFF_FFFF_FFFF_FFFF < r * b + b
  {
    DivisorTop(divisor);
    ApproxRecip32(divisor.v64 / 0x2_0000)
  }

  /** What is left after a rounded digit, and after taking back one that was too large. */
  lemma {:induction false} DigitTaken(divisor: U128, rem: U128, q: Word32, r: U128)
    requires NormalSig(divisor.Val()) && rem.Val() < 2 * divisor.Val()
    requires q * divisor.Val() < 0x2000_0000 * rem.Val() + divisor.Val()
    requires 0x2000_0000 * rem.Val() < q * divisor.Val() + 2 * divisor.Val()
    requires r == Reduced(rem, divisor, 29, q)
    ensures var t := 0x2000_0000 * rem.Val() - q * divisor.Val();
      InRange128(t) && Holds(r, t) && (Negative(r) <==> t < 0) &&
      (t < 0 ==> 0 < q && Add128(r, divisor).Val() == t + divisor.Val())
  {
    Shl29(rem.Val());
    var t := 0x2000_0000 * rem.Val() - q * divisor.Val();
    DigitRange(divisor, t);
    hide NormalSig, Reduced, Holds, Negative, InRange128, Add128;
    NegativeIff(r, t);
    if t < 0 {
      AddHolds(r, t, divisor);
      HoldsNat(Add128(r, divisor), t + divisor.Val());
    }
  }

  lemma {:induction false} HoldsNat(r: U128, t: int)
    requires Holds(r, t) && 0 <= t
    ensures r.Val() == t
  {
  }

  lemma {:induction false} DigitRange(divisor: U128, t: int)
    requires NormalSig(divisor.Val()) && 0 < t + divisor.Val() && t < 2 * divisor.Val()
    ensures InRange128(t) && InRange128(t + divisor.Val()) && InRange128(t - divisor.Val())
  {
  }

  /** The remainder after a digit, which is corrected when it was one too large. */
  method CorrectedDigit(divisor: U128, rem: U128, estimate: Word32) returns (q: Word32, rem': U128)
    requires NormalSig(divisor.Val()) && rem.Val() < 2 * divisor.Val()
    requires estimate * divisor.Val() < 0x2000_0000 * rem.Val() + divisor.Val()
    requires 0x2000_0000 * rem.Val() < estimate * divisor.Val() + 2 * divisor.Val()
    ensures q <= estimate && rem'.Val() == 0x2000_0000 * rem.Val() - q * divisor.Val()
    ensures rem'.Val() < 2 * divisor.Val()
  {
    hide *;
    q := estimate;
    rem' := Reduced(rem, divisor, 29, q);
    DigitTaken(divisor, rem, q, rem');
    OneLess(q, divisor.Val());
    if Negative(rem') {
      q := q - 1;
      rem' := Add128(rem', divisor);
    } else {
      HoldsNat(rem', 0x2000_0000 * rem.Val() - q * divisor.Val());
    }
  }
}
