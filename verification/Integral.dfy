/** What IEEE 754 asks of rounding to an integral value (section 5.9 of IEEE 754-2008), and the code
    that holds it, whatever the format. */
module Integral {
  import opened Powers
  import opened Rounding
  import opened Operations
  import opened RoundPack

  /** Rounding to odd is not among the modes of this operation, which then truncates. */
  function IntegralMode(mode: Mode): Mode {
    if mode == Odd then MinMag else mode
  }

  /** The magnitude `x` rounded to an integer. */
  ghost function IntegerOf(mode: Mode, sign: bool, x: real): nat
    requires 0.0 <= x
  {
    var n := x.Floor;
    Pick(IntegralMode(mode), sign, n, x - n as real, (n + 1) as real - x)
  }

  /** The code of an integer, if there is one. */
  ghost function CodeOf(f: Format, n: nat): nat {
    FloorCode(f, InQuanta(f, n as real))
  }

  ghost function RoundToIntegral(f: Format, mode: Mode, exact: bool, a: Datum): Outcome {
    if IsNaN(f, a) then Propagated(f, a, Datum(false, 0))
    else if IsInf(f, a) then Outcome(a, {})
    else
      var n := IntegerOf(mode, a.sign, Magnitude(f, a));
      Outcome(Datum(a.sign, CodeOf(f, n)), if exact && n as real != Magnitude(f, a) then {Inexact} else {})
  }

  /** Each mode by what it means for the signed value: the directed ones are floor and ceiling, ... */
  lemma {:induction false} DirectedInteger(sign: bool, x: real)
    requires 0.0 <= x
    ensures var v := if sign then -x else x;
      SignedInteger(sign, IntegerOf(Min, sign, x)) == v.Floor &&
      SignedInteger(sign, IntegerOf(Max, sign, x)) == -(-v).Floor
    ensures IntegerOf(MinMag, sign, x) == IntegerOf(Odd, sign, x) == x.Floor
  {
    var f, r := x.Floor, x - x.Floor as real;
    FloorOfNegative(x);
  }

  function SignedInteger(sign: bool, n: nat): int {
    if sign then -(n as int) else n
  }

  lemma {:induction false} FloorOfNegative(x: real)
    ensures (-x).Floor == if x == x.Floor as real then -x.Floor else -x.Floor - 1
  {
  }

  /** ... and the others take a nearest integer, on a tie the even one or the larger one. */
  lemma {:induction false} NearestIntegral(mode: Mode, sign: bool, x: real, k: nat)
    requires 0.0 <= x && (mode == NearEven || mode == NearMaxMag)
    ensures var n := IntegerOf(mode, sign, x);
      Abs(x - n as real) <= Abs(x - k as real) &&
      (k != n && Abs(x - n as real) == Abs(x - k as real) ==> if mode == NearEven then n % 2 == 0 else k < n)
  {
    var f, y := x.Floor, x - x.Floor as real;
    BesideFloor(x, k);
    hide Abs;
    assert (f + 1) as real - x == 1.0 - y;
    NearestPick(mode, sign, f, y);
    AbsOf(x, f);
  }

  lemma {:induction false} NearestPick(mode: Mode, sign: bool, f: nat, y: real)
    requires mode == NearEven || mode == NearMaxMag
    ensures var n := Pick(mode, sign, f, y, 1.0 - y);
      (y < 0.5 ==> n == f) && (0.5 < y ==> n == f + 1) &&
      (y == 0.5 ==> if mode == NearEven then n == f + f % 2 else n == f + 1)
  {
  }

  lemma {:induction false} AbsOf(x: real, f: int)
    requires f as real <= x < (f + 1) as real
    ensures Abs(x - f as real) == x - f as real && Abs(x - (f + 1) as real) == (f + 1) as real - x
  {
  }

  lemma {:induction false} BesideFloor(x: real, k: int)
    ensures var f := x.Floor;
      k == f || k == f + 1 || (x - f as real < Abs(x - k as real) && (f + 1) as real - x < Abs(x - k as real)) ||
      (k < f && x - f as real < Abs(x - k as real) && 1.0 <= Abs(x - k as real)) ||
      (f + 1 < k && (f + 1) as real - x < Abs(x - k as real) && 1.0 < Abs(x - k as real))
  {
  }

  lemma {:induction false} ValueOfPacked(f: Format, exp: nat, sig: nat)
    requires sig <= 2 * Hidden(f) && (exp == 0 || Hidden(f) <= sig)
    ensures Value(f, Pack(f, exp, sig)) == Scale(sig as real, exp + f.leastExp)
  {
    QuantaOfPacked(f, exp, sig);
    ScaleInt(sig, exp);
    ScaleScale(sig as real, exp, f.leastExp);
  }

  lemma {:induction false} CodeOfIs(f: Format, n: nat, c: nat)
    requires Value(f, c) == n as real
    ensures CodeOf(f, n) == c
  {
    var x := InQuanta(f, n as real);
    InQuantaOfDatum(f, Datum(false, c));
    QuantaNext(f, c);
    hide Quanta, Scale;
    FloorUnique(f, x, c, FloorCode(f, x));
  }

  /** An exact fraction of a power of two, split at the binary point. */
  lemma {:induction false} Fraction(s: nat, k: nat)
    requires 0 < k
    ensures var x, n, r := Scale(s as real, -(k as int)), Shr(s, k), LowBits(s, k);
      var y := Scale(r as real, -(k as int));
      x == n as real + y && 0.0 <= y < 1.0 && (r == 0 <==> y == 0.0) &&
      (r < Pow2(k - 1) <==> y < 0.5) && (r == Pow2(k - 1) <==> y == 0.5)
  {
    var n, r, d := Shr(s, k), LowBits(s, k), -(k as int);
    ShrSplits(s, k);
    ScaleAdd(Shl(n, k) as real, r as real, d);
    ScaleInt(n, k);
    ScaleScale(n as real, k, d);
    PowerScaled(k);
    PowerHalved(k);
    ScaleSign(r as real, d);
    ScaleOrder(r as real, Pow2(k) as real, d);
    ScaleOrder(r as real, Pow2(k - 1) as real, d);
    ScaleOrder(Pow2(k - 1) as real, r as real, d);
    hide Scale, Shl, Shr, LowBits, Pow2;
    assert s as real == Shl(n, k) as real + r as real;
  }

  lemma {:induction false} PowerScaled(k: nat)
    ensures Scale(Pow2(k) as real, -(k as int)) == 1.0
  {
    ShlOne(k);
    ScaleInt(1, k);
    ScaleScale(1.0, k, -(k as int));
  }

  lemma {:induction false} PowerHalved(k: nat)
    requires 0 < k
    ensures Scale(Pow2(k - 1) as real, -(k as int)) == 0.5
  {
    PowerScaled(k - 1);
    ScaleScale(Pow2(k - 1) as real, 1 - k, -1);
    assert Scale(1.0, -1) == 0.5;
  }

  /** Rounding it to an integer is rounding off the low bits of the integer it is a fraction of. */
  lemma {:induction false} IntegerOfFraction(mode: Mode, sign: bool, s: nat, k: nat)
    requires 0 < k
    ensures var x := Scale(s as real, -(k as int));
      0.0 <= x && IntegerOf(mode, sign, x) == RoundedSig(IntegralMode(mode), sign, s, k - 1) &&
      (IntegerOf(mode, sign, x) as real == x <==> LowBits(s, k) == 0)
  {
    var x, n, r, y := Scale(s as real, -(k as int)), Shr(s, k), LowBits(s, k), Scale(LowBits(s, k) as real, -(k as int));
    Fraction(s, k);
    RoundedSigAt(IntegralMode(mode), sign, s, k - 1);
    hide Scale, Shr, LowBits, Pow2, RoundedSig;
    IntegerOfParts(mode, sign, x, n, y);
    PickIs(IntegralMode(mode), sign, n, y, 1.0 - y, n, r, Pow2(k - 1));
  }

  lemma {:induction false} IntegerOfParts(mode: Mode, sign: bool, x: real, n: nat, y: real)
    requires x == n as real + y && 0.0 <= y < 1.0
    ensures 0.0 <= x && IntegerOf(mode, sign, x) == Pick(IntegralMode(mode), sign, n, y, 1.0 - y)
    ensures IntegerOf(mode, sign, x) as real == x <==> y == 0.0
  {
    assert x.Floor == n;
  }

  /** The exponent field of 1.0. */
  function UnitExp(f: Format): int {
    1 - f.fracBits - f.leastExp
  }

  /** A format that has the powers of two from 2^-1 up to the first whose neighbours are integers. */
  predicate HasIntegers(f: Format) {
    0 < f.fracBits && 2 <= UnitExp(f) && UnitExp(f) + f.fracBits < f.maxExp
  }

  /** A datum with a fraction, by its significand. */
  ghost predicate Fractional(f: Format, a: Datum, exp: nat, sig: nat, k: nat) {
    0 < k <= f.fracBits && exp + f.leastExp == -(k as int) && Hidden(f) <= sig < 2 * Hidden(f) &&
    a.code == Pack(f, exp, sig)
  }

  lemma {:induction false} IntegralPacked(f: Format, mode: Mode, exact: bool, a: Datum, exp: nat, sig: nat, k: nat)
    requires IsFinite(f, a) && Fractional(f, a, exp, sig, k)
    ensures var m := RoundedSig(IntegralMode(mode), a.sign, sig, k - 1);
      m == IntegerOf(mode, a.sign, Magnitude(f, a)) &&
      Value(f, Pack(f, exp, NatShl(m, k))) == m as real &&
      RoundToIntegral(f, mode, exact, a) == Outcome(Datum(a.sign, Pack(f, exp, NatShl(m, k))),
        if exact && LowBits(sig, k) != 0 then {Inexact} else {})
  {
    var m := RoundedSig(IntegralMode(mode), a.sign, sig, k - 1);
    ValueOfPacked(f, exp, sig);
    IntegerOfFraction(mode, a.sign, sig, k);
    RoundedRange(f, mode, a.sign, sig, k);
    ValueOfPacked(f, exp, NatShl(m, k));
    ScaleInt(m, k);
    ScaleScale(m as real, k, -(k as int));
    hide Pack, RoundedSig, IntegerOf, Value, Scale, CodeOf, IntegralMode;
    CodeOfIs(f, m, Pack(f, exp, NatShl(m, k)));
  }

  function NatShl(n: nat, k: nat): (r: nat)
    ensures r == Shl(n, k)
  {
    ShlNonneg(n, k);
    Shl(n, k)
  }

  lemma {:induction false} RoundedRange(f: Format, mode: Mode, sign: bool, sig: nat, k: nat)
    requires 0 < k <= f.fracBits && Hidden(f) <= sig < 2 * Hidden(f)
    ensures Hidden(f) <= NatShl(RoundedSig(IntegralMode(mode), sign, sig, k - 1), k) <= 2 * Hidden(f)
  {
    var n, h := Shr(sig, k), Pow2(f.fracBits - k);
    var m := RoundedSig(IntegralMode(mode), sign, sig, k - 1);
    assert n <= m <= n + 1;
    ShrSplits(sig, k);
    ShlPow2(f.fracBits - k, k);
    ShlShl(h, k, 1);
    ShlShl(h, 1, k);
    assert Shl(h, 1) == 2 * h;
    assert Shl(Shl(h, k), 1) == 2 * Shl(h, k);
    hide Shl, Shr, LowBits, RoundedSig;
    ShlNext(n, k);
    ShlOrder(n, h - 1, k);
    ShlOrder(h - 1, n, k);
    ShlNext(h - 1, k);
    ShlOrder(n, 2 * h, k);
    ShlOrder(m, h, k);
    ShlOrder(2 * h, m, k);
  }

  lemma {:induction false} UnitCodes(f: Format)
    requires HasIntegers(f)
    ensures Value(f, Pack(f, UnitExp(f), 0)) == 1.0 && Value(f, Pack(f, UnitExp(f) - 1, 0)) == 0.5
    ensures Value(f, 0) == 0.0
  {
    var h, e := Hidden(f), UnitExp(f);
    PowerScaled(f.fracBits);
    PowerHalved(f.fracBits + 1);
    ValueOfPacked(f, e - 1, h);
    ValueOfPacked(f, e - 2, h);
    ShlNext(e - 1, f.fracBits);
    ShlNext(e - 2, f.fracBits);
    QuantaOfZero(f);
    ScaleSign(0.0, f.leastExp);
  }

  lemma {:induction false} ValueOrder(f: Format, b: nat, c: nat)
    ensures b < c <==> Value(f, b) < Value(f, c)
  {
    if b < c {
      QuantaMonotone(f, b, c);
    } else if c < b {
      QuantaMonotone(f, c, b);
    }
    ScaleOrder(Quanta(f, b) as real, Quanta(f, c) as real, f.leastExp);
  }

  /** A magnitude under one rounds to zero or one, as it compares with a half. */
  lemma {:induction false} IntegralSmall(f: Format, mode: Mode, exact: bool, a: Datum)
    requires HasIntegers(f) && a.code < Pack(f, UnitExp(f), 0)
    ensures IsFinite(f, a)
    ensures var half, one := Pack(f, UnitExp(f) - 1, 0), Pack(f, UnitExp(f), 0);
      var up := match mode
        case NearEven => half < a.code
        case NearMaxMag => half <= a.code
        case MinMag => false
        case Min => a.sign && a.code != 0
        case Max => !a.sign && a.code != 0
        case Odd => false;
      IntegerOf(mode, a.sign, Magnitude(f, a)) == (if up then 1 else 0) &&
      RoundToIntegral(f, mode, exact, a) ==
        Outcome(Datum(a.sign, if up then one else 0), if exact && a.code != 0 then {Inexact} else {})
  {
    var half, one, x := Pack(f, UnitExp(f) - 1, 0), Pack(f, UnitExp(f), 0), Magnitude(f, a);
    UnitCodes(f);
    ValueOrder(f, a.code, one);
    ValueOrder(f, a.code, half);
    ValueOrder(f, half, a.code);
    OneFinite(f);
    hide Pack, Value, CodeOf;
    CodeOfIs(f, 0, 0);
    CodeOfIs(f, 1, one);
    assert x.Floor == 0;
  }

  lemma {:induction false} OneFinite(f: Format)
    requires HasIntegers(f)
    ensures Pack(f, UnitExp(f), 0) < InfCode(f)
  {
    ShlOrder(UnitExp(f), f.maxExp, f.fracBits);
  }

  /** A magnitude without a fraction stays. */
  lemma {:induction false} IntegralLarge(f: Format, mode: Mode, exact: bool, a: Datum, exp: nat, sig: nat)
    requires IsFinite(f, a) && a.code == Pack(f, exp, sig) && Hidden(f) <= sig <= 2 * Hidden(f)
    requires 0 <= exp + f.leastExp
    ensures RoundToIntegral(f, mode, exact, a) == Outcome(a, {})
    ensures IntegerOf(mode, a.sign, Magnitude(f, a)) as real == Magnitude(f, a)
  {
    var j: nat := exp + f.leastExp;
    ValueOfPacked(f, exp, sig);
    ScaleInt(sig, j);
    WholeStays(mode, a.sign, NatShl(sig, j));
    hide Pack, Value, CodeOf, IntegerOf, Scale;
    CodeOfIs(f, NatShl(sig, j), a.code);
  }

  lemma {:induction false} WholeStays(mode: Mode, sign: bool, n: nat)
    ensures IntegerOf(mode, sign, n as real) == n
  {
  }

  /** The results that are not rounded, and the inexact flag: raised exactly if it is asked for and the value
      changes. */
  lemma {:induction false} IntegralSignals(f: Format, mode: Mode, exact: bool, a: Datum)
    requires HasIntegers(f)
    ensures var z := RoundToIntegral(f, mode, exact, a);
      (IsNaN(f, a) ==> z == Outcome(CanonicalNaN(f), if IsSignaling(f, a) then {Invalid} else {})) &&
      (IsInf(f, a) ==> z == Outcome(a, {})) &&
      (IsFinite(f, a) ==>
        z.flags == if exact && Magnitude(f, z.datum) != Magnitude(f, a) then {Inexact} else {})
  {
    if IsFinite(f, a) {
      IntegralIsExact(f, mode, exact, a);
    }
    InfPositive(f);
    hide InfCode, Magnitude, IntegerOf, CodeOf, HasIntegers;
  }

  /** The result has the integer as its value: no format here is too coarse for it. */
  lemma {:induction false} IntegralIsExact(f: Format, mode: Mode, exact: bool, a: Datum)
    requires HasIntegers(f) && IsFinite(f, a)
    ensures var z := RoundToIntegral(f, mode, exact, a);
      IsFinite(f, z.datum) && z.datum.sign == a.sign &&
      Magnitude(f, z.datum) == IntegerOf(mode, a.sign, Magnitude(f, a)) as real
  {
    if a.code < Pack(f, UnitExp(f), 0) {
      IntegralSmall(f, mode, exact, a);
      UnitCodes(f);
      OneFinite(f);
      hide Pack, Value, IntegerOf, RoundToIntegral;
    } else {
      var exp, sig := Unpack(f, a.code);
      NotSmall(f, a.code, exp, sig);
      if 0 <= exp + f.leastExp {
        IntegralLarge(f, mode, exact, a, exp, sig);
      } else {
        var k: nat := -(exp + f.leastExp);
        IntegralPacked(f, mode, exact, a, exp, sig, k);
        RoundedRange(f, mode, a.sign, sig, k);
        PackedFinite(f, exp, NatShl(RoundedSig(IntegralMode(mode), a.sign, sig, k - 1), k));
      }
    }
  }

  lemma {:induction false} NotSmall(f: Format, c: nat, exp: nat, sig: nat)
    requires HasIntegers(f) && Pack(f, UnitExp(f), 0) <= c == Pack(f, exp, sig)
    requires sig < 2 * Hidden(f) && (exp == 0 || Hidden(f) <= sig)
    ensures UnitExp(f) - 1 <= exp && Hidden(f) <= sig
  {
    if exp < UnitExp(f) - 1 {
      ShlOrder(UnitExp(f) - 2, exp, f.fracBits);
      ShlNext(UnitExp(f) - 2, f.fracBits);
      ShlNext(UnitExp(f) - 1, f.fracBits);
    }
  }

  lemma {:induction false} PackedFinite(f: Format, exp: nat, sig: nat)
    requires HasIntegers(f) && exp + f.leastExp < 0 && sig <= 2 * Hidden(f)
    ensures Pack(f, exp, sig) < InfCode(f)
  {
    ShlNext(exp, f.fracBits);
    ShlNext(exp + 1, f.fracBits);
    ShlOrder(exp + 2, f.maxExp, f.fracBits);
  }

  /** Rounding a second time changes nothing and signals nothing, in whatever mode. */
  lemma {:induction false} Idempotent(f: Format, mode: Mode, exact: bool, mode': Mode, exact': bool, a: Datum)
    requires HasIntegers(f) && IsFinite(f, a)
    ensures var z := RoundToIntegral(f, mode, exact, a).datum;
      RoundToIntegral(f, mode', exact', z) == Outcome(z, {})
  {
    var z, n := RoundToIntegral(f, mode, exact, a).datum, IntegerOf(mode, a.sign, Magnitude(f, a));
    IntegralIsExact(f, mode, exact, a);
    hide RoundToIntegral;
    WholeStays(mode', z.sign, n);
    hide IntegerOf, CodeOf;
    CodeOfIs(f, n, z.code);
    Again(f, mode', exact', z, n);
  }

  lemma {:induction false} Again(f: Format, mode: Mode, exact: bool, z: Datum, n: nat)
    requires IsFinite(f, z) && Magnitude(f, z) == n as real && IntegerOf(mode, z.sign, n as real) == n
    requires CodeOf(f, n) == z.code
    ensures RoundToIntegral(f, mode, exact, z) == Outcome(z, {})
  {
    hide IntegerOf, CodeOf, Magnitude, InfCode;
  }

  /** `z & ~(2^k - 1)`. */
  function ClearedBelow(z: nat, k: nat): (r: nat)
    ensures r <= z
  {
    ShrSplits(z, k);
    ShlNonneg(Shr(z, k), k);
    z - LowBits(z, k)
  }

  /** `z & ~2^k`. */
  function WithoutBit(z: nat, k: nat): (r: nat)
    ensures r <= z
  {
    ShrSplits(z, k);
    ShlNonneg(Shr(z, k), k);
    ShlNext(Shr(z, k) - 1, k);
    if Shr(z, k) % 2 == 1 then
      ShlNonneg(Shr(z, k) - 1, k);
      z - Pow2(k)
    else z
  }

  /** A word rounded in its bits from the k-th, as the code does it: an increment, the lowest kept bit
      cleared on a tie, and the bits below cleared. */
  function RoundedWord(mode: Mode, sign: bool, w: nat, k: nat): nat
    requires 0 < k
  {
    if mode == NearMaxMag then ClearedBelow(w + Pow2(k - 1), k)
    else if mode == NearEven then
      var z := w + Pow2(k - 1);
      ClearedBelow(if LowBits(z, k) == 0 then WithoutBit(z, k) else z, k)
    else if mode == (if sign then Min else Max) then ClearedBelow(w + Pow2(k) - 1, k)
    else ClearedBelow(w, k)
  }

  lemma {:induction false} ClearedIs(z: nat, k: nat, q: nat, r: nat)
    requires z == Shl(q, k) + r && r < Pow2(k)
    ensures ClearedBelow(z, k) == Shl(q, k) && LowBits(z, k) == r && Shr(z, k) == q
  {
    ShrUnique(z, k, q, r);
  }

  lemma {:induction false} WithoutBitIs(q: nat, k: nat)
    ensures 0 <= Shl(q, k) && ClearedBelow(WithoutBit(Shl(q, k), k), k) == Shl(q - q % 2, k)
  {
    ShlNonneg(q, k);
    ClearedIs(Shl(q, k), k, q, 0);
    if q % 2 == 1 {
      ShlNext(q - 1, k);
      ShlNonneg(q - 1, k);
      ClearedIs(Shl(q - 1, k), k, q - 1, 0);
    }
  }

  lemma {:induction false} NearWord(w: nat, k: nat)
    requires 0 < k
    ensures var q, r, half := Shr(w, k), LowBits(w, k), Pow2(k - 1);
      ClearedBelow(w + half, k) == NatShl(if half <= r then q + 1 else q, k) &&
      (LowBits(w + half, k) == 0 <==> r == half) &&
      (r == half ==> ClearedBelow(WithoutBit(w + half, k), k) == NatShl(q + q % 2, k))
  {
    var q, r, half := Shr(w, k), LowBits(w, k), Pow2(k - 1);
    ShrSplits(w, k);
    ShlNext(q, k);
    assert Pow2(k) == 2 * half;
    hide *;
    if half <= r {
      ClearedIs(w + half, k, q + 1, r - half);
      WithoutBitIs(q + 1, k);
    } else {
      ClearedIs(w + half, k, q, r + half);
    }
  }

  lemma {:induction false} DirectedWord(w: nat, k: nat)
    ensures var q, r := Shr(w, k), LowBits(w, k);
      ClearedBelow(w, k) == NatShl(q, k) &&
      ClearedBelow(w + Pow2(k) - 1, k) == NatShl(if r != 0 then q + 1 else q, k)
  {
    var q, r := Shr(w, k), LowBits(w, k);
    ShrSplits(w, k);
    ShlNext(q, k);
    hide *;
    ClearedIs(w, k, q, r);
    if r != 0 {
      ClearedIs(w + Pow2(k) - 1, k, q + 1, r - 1);
    } else {
      ClearedIs(w + Pow2(k) - 1, k, q, Pow2(k) - 1);
    }
  }

  lemma {:induction false} RoundedWordIs(mode: Mode, sign: bool, w: nat, k: nat)
    requires 0 < k
    ensures RoundedWord(mode, sign, w, k) == NatShl(RoundedSig(IntegralMode(mode), sign, w, k - 1), k)
  {
    RoundedSigAt(IntegralMode(mode), sign, w, k - 1);
    NearWord(w, k);
    DirectedWord(w, k);
    hide Shl, Shr, LowBits, ClearedBelow, WithoutBit, RoundedSig, Pow2, NatShl;
  }

  /** What lies above the significand does not take part, if it is even in the rounded place. */
  lemma {:induction false} RoundedAbove(mode: Mode, sign: bool, b: nat, s: nat, g: nat)
    ensures 0 <= Shl(b, g + 2) + s
    ensures RoundedSig(mode, sign, Shl(b, g + 2) + s, g) == 2 * b + RoundedSig(mode, sign, s, g)
  {
    var k := g + 1;
    ShlNonneg(b, g + 2);
    ShrSplits(s, k);
    ShlShl(b, 1, k);
    ShlAdd(2 * b, Shr(s, k), k);
    assert Shl(b, 1) == 2 * b;
    ShrUnique(Shl(b, g + 2) + s, k, 2 * b + Shr(s, k), LowBits(s, k));
    hide Shl, Shr, LowBits;
  }

  lemma {:induction false} EvenAbove(q: nat, n: nat, k: nat) returns (b: nat)
    requires k < n || (k == n && q % 2 == 0)
    ensures Shl(q, n) == Shl(b, k + 1)
  {
    if k < n {
      ShlNonneg(q, n - k - 1);
      ShlShl(q, n - k - 1, k + 1);
      b := Shl(q, n - k - 1);
    } else {
      ShlShl(q / 2, 1, k);
      ShlShl(q / 2, k, 1);
      assert Shl(q / 2, 1) == q;
      b := q / 2;
    }
  }

  /** The packed word, whatever is above its significand, rounds to what its significand rounds to. */
  lemma {:induction false} RoundedPacked(mode: Mode, sign: bool, q: nat, n: nat, s: nat, k: nat)
    requires 0 < k && (k < n || (k == n && q % 2 == 0))
    ensures 0 <= Shl(q, n) && RoundedWord(mode, sign, Shl(q, n) + s, k) ==
      Shl(q, n) + NatShl(RoundedSig(IntegralMode(mode), sign, s, k - 1), k)
    ensures LowBits(Shl(q, n) + s, k) == LowBits(s, k)
  {
    var b := EvenAbove(q, n, k);
    ShlNonneg(q, n);
    RoundedWordIs(mode, sign, Shl(q, n) + s, k);
    RoundedAbove(IntegralMode(mode), sign, b, s, k - 1);
    var m := RoundedSig(IntegralMode(mode), sign, s, k - 1);
    ShlAdd(2 * b, m, k);
    ShlShl(b, 1, k);
    assert Shl(b, 1) == 2 * b;
    ShrSplits(s, k);
    ShlAdd(2 * b, Shr(s, k), k);
    ClearedIs(Shl(q, n) + s, k, 2 * b + Shr(s, k), LowBits(s, k));
  }

  /** The rounded word is the old one only if nothing was rounded off. */
  lemma {:induction false} RoundedSame(mode: Mode, sign: bool, s: nat, k: nat)
    requires 0 < k
    ensures NatShl(RoundedSig(IntegralMode(mode), sign, s, k - 1), k) == s <==> LowBits(s, k) == 0
  {
    var m := RoundedSig(IntegralMode(mode), sign, s, k - 1);
    ShrSplits(s, k);
    ClearedIs(NatShl(m, k), k, m, 0);
    RoundedSigAt(IntegralMode(mode), sign, s, k - 1);
    hide Shl, Shr, LowBits, RoundedSig;
  }

  /** A packed word with a fraction, whatever is above its exponent: what is left of it is the code of
      the rounded datum below the same top. */
  lemma {:induction false} RoundedEncoding(f: Format, mode: Mode, exact: bool, a: Datum, q: nat, exp: nat, sig: nat,
      k: nat) returns (t: nat)
    requires IsFinite(f, a) && Fractional(f, a, exp, sig, k) && (k == f.fracBits ==> q % 2 == 0)
    ensures 0 <= Shl(q, f.fracBits) && t <= 2 * Hidden(f)
    ensures RoundedWord(mode, a.sign, Shl(q, f.fracBits) + sig, k) == Shl(q, f.fracBits) + t
    ensures RoundToIntegral(f, mode, exact, a) ==
      Outcome(Datum(a.sign, Pack(f, exp, t)), if exact && t != sig then {Inexact} else {})
  {
    var m := RoundedSig(IntegralMode(mode), a.sign, sig, k - 1);
    t := NatShl(m, k);
    FractionalParts(f, a, exp, sig, k);
    hide *;
    RoundedRange(f, mode, a.sign, sig, k);
    RoundedPacked(mode, a.sign, q, f.fracBits, sig, k);
    IntegralPacked(f, mode, exact, a, exp, sig, k);
    RoundedSame(mode, a.sign, sig, k);
  }

  lemma {:induction false} FractionalParts(f: Format, a: Datum, exp: nat, sig: nat, k: nat)
    requires Fractional(f, a, exp, sig, k)
    ensures 0 < k <= f.fracBits && Hidden(f) <= sig < 2 * Hidden(f)
  {
    hide Pack, Hidden;
  }
}
