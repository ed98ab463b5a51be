/** The 7-bit estimates of a reciprocal and of a reciprocal square root (softfloat/fall_reciprocal.c),
    at any widths `e` and `s` of the exponent and significand fields that leave room for them. */
module Reciprocal7 {
  import opened Arith
  import opened Powers
  import opened Rounding
  import opened Operations
  import opened Sticky
  import opened Words
  import opened RoundPack
  import opened Integral
  import opened EstimateTables
  import opened Nearest7

  predicate Widths(e: nat, s: nat) {
    3 <= e && 9 <= s && 1 + e + s <= 64 && s < Pow2(e - 1)
  }

  /** binary16, binary32 and binary64. */
  lemma {:induction false} StandardWidths()
    ensures Widths(5, 10) && FormatOf(5, 10) == Format(10, 0x1F, -24)
    ensures Widths(8, 23) && FormatOf(8, 23) == F32
    ensures Widths(11, 52) && FormatOf(11, 52) == F64
  {
    assert Pow2(4) == 16 && Pow2(5) == 32;
    Pow2Add(4, 3);
    assert Pow2(3) == 8;
    assert Pow2(7) == 128 && Pow2(8) == 256;
    Pow2Add(7, 3);
    assert Pow2(11) == 2 * Pow2(10);
  }

  function Bias(e: nat): nat
    requires 0 < e
  {
    Pow2(e - 1) - 1
  }

  function FormatOf(e: nat, s: nat): Format
    requires Widths(e, s)
  {
    assert Pow2(e) == 2 * Pow2(e - 1);
    Format(s, Pow2(e) - 1, 1 - Bias(e) - s)
  }

  /** `extract64`. */
  function Extract64(val: Word64, pos: nat, len: nat): Word64 {
    ShrSplits(Shr64(val, pos), len);
    ShlNonneg(Shr(Shr64(val, pos), len), len);
    LowBits(Shr64(val, pos), len)
  }

  lemma {:induction false} WrapSmall(w: Word64)
    ensures Wrap64(w) == w
  {
  }

  /** `make_mask64`. */
  function MakeMask64(pos: nat, len: nat): nat {
    NatShl(Pow2(len) - 1, pos)
  }

  function DatumOf(e: nat, s: nat, val: Word64): Datum {
    Datum(Shr(val, s + e) % 2 == 1, LowBits(val, s + e))
  }

  lemma {:induction false} FieldsOf(e: nat, s: nat, val: Word64)
    ensures var exp, frac, sign := Extract64(val, s, e), Extract64(val, 0, s), Extract64(val, s + e, 1);
      exp < Pow2(e) && frac < Pow2(s) && sign < 2 && (DatumOf(e, s, val).sign <==> sign == 1) &&
      DatumOf(e, s, val).code == NatShl(exp, s) + frac
  {
    var h := Shr(val, s);
    ShrSplits(val, s);
    ShrSplits(h, e);
    ShrShr(val, s, e);
    ShlAdd(Shl(Shr(h, e), e), LowBits(h, e), s);
    ShlShl(Shr(h, e), e, s);
    FieldsFit(e, s, LowBits(h, e), LowBits(val, s));
    ShlNonneg(LowBits(h, e), s);
    OneBit(Shr(val, s + e));
    hide Shl, Shr, LowBits, Pow2;
    ShrUnique(val, s + e, Shr(h, e), Shl(LowBits(h, e), s) + LowBits(val, s));
    NoShift(val);
  }

  lemma {:induction false} NoShift(val: Word64)
    ensures Shr64(val, 0) == val
  {
  }

  lemma {:induction false} OneBit(w: nat)
    ensures LowBits(w, 1) == w % 2
  {
  }

  lemma {:induction false} FieldsFit(e: nat, s: nat, exp: nat, frac: nat)
    requires exp < Pow2(e) && frac < Pow2(s)
    ensures 0 <= Shl(exp, s) && Shl(exp, s) + frac < Pow2(s + e)
  {
    ShlNonneg(exp, s);
    ShlNext(exp, s);
    ShlOrder(Pow2(e), exp + 1, s);
    ShlPow2(e, s);
  }

  /** An encoding is put together from a sign bit and a code. */
  lemma {:induction false} Assembled(e: nat, s: nat, sign: nat, code: nat)
    requires 1 + e + s <= 64 && sign < 2 && code < Pow2(s + e)
    ensures NatShl(sign, s + e) + code < 0x1_0000_0000_0000_0000
    ensures DatumOf(e, s, NatShl(sign, s + e) + code) == Datum(sign == 1, code)
  {
    var n := s + e;
    ShlOne(n);
    Pow2Increases(n + 1, 64);
    Pow64();
    assert Pow2(n + 1) == 2 * Pow2(n);
    assert NatShl(sign, n) == if sign == 1 then Pow2(n) else 0;
    hide Pow2, Shl;
    ShrUnique(NatShl(sign, n) + code, n, sign, code);
  }

  /** A finite nonzero magnitude as a significand below its implicit bit and an exponent field that may
      have gone below 1. */
  ghost predicate Unpacked7(e: nat, s: nat, a: Datum, exp: int, sig: nat)
    requires Widths(e, s)
  {
    sig < Pow2(s) && -(s as int) < exp <= 2 * Bias(e) &&
    Magnitude(FormatOf(e, s), a) == Scale((Pow2(s) + sig) as real, exp - Bias(e) - s)
  }

  lemma {:induction false} NormalUnpacked(e: nat, s: nat, a: Datum, exp: nat, frac: nat)
    requires Widths(e, s) && 0 < exp <= 2 * Bias(e) && frac < Pow2(s) && a.code == NatShl(exp, s) + frac
    ensures Unpacked7(e, s, a, exp, frac)
  {
    var f := FormatOf(e, s);
    ShlNext(exp - 1, s);
    ValueOfPacked(f, exp - 1, Pow2(s) + frac);
  }

  lemma {:induction false} SubnormalUnpacked(e: nat, s: nat, a: Datum, frac: nat, n: nat, sig: nat)
    requires Widths(e, s) && frac < Pow2(s) && a.code == frac && n < s && Shl(frac, n + 1) == Pow2(s) + sig
    requires sig < Pow2(s)
    ensures Unpacked7(e, s, a, -(n as int), sig)
  {
    var f := FormatOf(e, s);
    ShlOne(s);
    ValueOfPacked(f, 0, frac);
    assert Value(f, frac) == Scale(frac as real, 1 - Bias(e) - s);
    hide Scale, Shl, Pow2, Value;
    RaisedScale(frac, n + 1, Pow2(s) + sig, 1 - Bias(e) - s);
  }

  lemma {:induction false} RaisedScale(c: nat, j: nat, m: nat, k: int)
    requires m == Shl(c, j)
    ensures Scale(c as real, k) == Scale(m as real, k - j)
  {
    ScaleInt(c, j);
    ScaleScale(c as real, j, k - j);
  }

  /** Shifts a subnormal significand up until its top bit is set, and then that bit out. */
  method NormalizeSub(frac: Word64, s: nat) returns (exp: Word64, sig: Word64, ghost n: nat)
    requires 0 < frac < Pow2(s) && 0 < s < 64
    ensures n < s && exp == Wrap64(-(n as int)) && sig < Pow2(s) && Shl(frac, n + 1) == Pow2(s) + sig
  {
    hide *;
    exp, sig, n := 0, frac, 0;
    StartShift(frac, s);
    while Extract64(sig, s - 1, 1) == 0
      invariant 0 < sig < Pow2(s) && sig == Shl(frac, n) && exp == Wrap64(-(n as int)) && n < s
      decreases Pow2(s) - sig
    {
      ShiftOnce(frac, s, n, sig, exp);
      exp := Wrap64(exp as int - 1);
      sig := Shl64(sig, 1);
      n := n + 1;
    }
    ShiftOut(frac, s, n, sig);
    sig := LowBits(Shl64(sig, 1), s);
  }

  lemma {:induction false} StartShift(frac: Word64, s: nat)
    ensures Shl(frac, 0) == frac && Wrap64(0) == 0
  {
  }

  lemma {:induction false} TopOf(sig: Word64, s: nat)
    requires sig < Pow2(s) && 0 < s < 64
    ensures Extract64(sig, s - 1, 1) == 0 <==> sig < Pow2(s - 1)
    ensures Shl64(sig, 1) == 2 * sig
  {
    var q := Shr(sig, s - 1);
    ShrSplits(sig, s - 1);
    OneBit(q);
    ShlOne(s - 1);
    ShlOrder(q, 1, s - 1);
    ShlOrder(q, 2, s - 1);
    ShlNonneg(q, s - 1);
    ShlShl(1, 1, s - 1);
    assert Shl(1, 1) == 2 && Pow2(s) == 2 * Pow2(s - 1);
    Doubled64(sig, s);
    hide Shl, Shr, LowBits, Pow2, Wrap64;
  }

  lemma {:induction false} Doubled64(sig: Word64, s: nat)
    requires sig < Pow2(s) && s < 64
    ensures Shl64(sig, 1) == 2 * sig
  {
    assert Shl(sig, 1) == 2 * sig;
    Pow2Increases(s, 63);
    Pow2Literals();
    hide Shl, Pow2;
  }

  lemma {:induction false} ShiftOnce(frac: Word64, s: nat, n: nat, sig: Word64, exp: Word64)
    requires 0 < sig < Pow2(s) && 0 < s < 64 && sig == Shl(frac, n) && exp == Wrap64(-(n as int)) && n < s && 0 < frac
    requires Extract64(sig, s - 1, 1) == 0
    ensures Shl64(sig, 1) == 2 * sig == Shl(frac, n + 1) < Pow2(s) && n + 1 < s
    ensures Wrap64(exp as int - 1) == Wrap64(-(n as int) - 1)
  {
    TopOf(sig, s);
    assert Pow2(s) == 2 * Pow2(s - 1);
    ShlOne(n + 1);
    ShlOrder(frac, 1, n + 1);
    assert Shl(frac, n + 1) == 2 * sig;
    hide Shl, Pow2;
    PowerBelow(n + 1, s);
  }

  lemma {:induction false} PowerBelow(m: nat, n: nat)
    requires Pow2(m) < Pow2(n)
    ensures m < n
  {
    if n <= m {
      Pow2Increases(n, m);
    }
  }

  lemma {:induction false} ShiftOut(frac: Word64, s: nat, n: nat, sig: Word64)
    requires sig < Pow2(s) && 0 < s < 64 && sig == Shl(frac, n) && Extract64(sig, s - 1, 1) != 0
    ensures var z := LowBits(Shl64(sig, 1), s);
      z < Pow2(s) && z < 0x1_0000_0000_0000_0000 && Shl(frac, n + 1) == Pow2(s) + z
  {
    Pow2Increases(s, 64);
    Pow64();
    TopOf(sig, s);
    assert Pow2(s) == 2 * Pow2(s - 1);
    ShlOne(s);
    assert Shl(frac, n + 1) == 2 * sig;
    hide Shl, Shr, LowBits, Pow2, Extract64;
    ShrUnique(2 * sig, s, 1, 2 * sig - Pow2(s));
  }

  /** The estimate's code for a reciprocal whose exponent field would be `outExp`: below 1 it becomes
      subnormal. */
  function EstimateCode(s: nat, outExp: int, t: nat): nat
    requires 7 < s
  {
    var outSig := NatShl(t, s - 7);
    if outExp == 0 then Pow2(s - 1) + outSig / 2
    else if outExp < 0 then (Pow2(s - 1) + outSig / 2) / 2
    else NatShl(outExp, s) + outSig
  }

  /** The estimate's significand, implicit bit included. */
  function EstimateSig(s: nat, t: nat): nat
    requires 7 < s
  {
    (128 + t) * Pow2(s - 7)
  }

  lemma {:induction false} PlaceParts(s: nat, t: nat, p: nat)
    requires 9 <= s && p == Pow2(s - 9)
    ensures Pow2(s) == 512 * p && Pow2(s - 1) == 256 * p && NatShl(t, s - 7) == 4 * (t * p)
    ensures EstimateSig(s, t) == 512 * p + 4 * (t * p)
    ensures t < 128 ==> t * p < 128 * p
  {
    assert Pow2(s - 7) == 2 * Pow2(s - 8) && Pow2(s - 8) == 2 * p;
    Pow2Add(s - 9, 8);
    Pow2Add(s - 9, 9);
    assert Pow2(8) == 256 && Pow2(9) == 512;
    ShlIsTimes(t, s - 7);
    hide Shl, Pow2;
    Quarters(t, p);
    if t < 128 {
      MulLt(t, 128, p);
    }
  }

  lemma {:induction false} PlacesOf(s: nat, t: nat)
    requires 9 <= s
    ensures EstimateSig(s, t) == Pow2(s) + NatShl(t, s - 7) && EstimateSig(s, t) % 4 == 0
    ensures EstimateCode(s, 0, t) == EstimateSig(s, t) / 2 && EstimateCode(s, -1, t) == EstimateSig(s, t) / 4
    ensures t < 128 ==> NatShl(t, s - 7) < Pow2(s)
  {
    var p := Pow2(s - 9);
    PlaceParts(s, t, p);
    hide Pow2, NatShl, EstimateSig;
    var q := t * p;
    assert NatShl(t, s - 7) == 4 * q;
  }

  lemma {:induction false} Quarters(t: nat, p: nat)
    ensures (128 + t) * (4 * p) == 512 * p + 4 * (t * p) && t * (4 * p) == 4 * (t * p)
  {
  }

  lemma {:induction false} CodesFit(e: nat, s: nat, outExp: nat, r: nat)
    requires Widths(e, s) && outExp <= 2 * Bias(e) && r < Pow2(s)
    ensures NatShl(outExp, s) + r < InfCode(FormatOf(e, s)) < Pow2(s + e)
  {
    var top := Pow2(e) - 1;
    assert Pow2(e) == 2 * Pow2(e - 1);
    ShlNext(outExp, s);
    ShlOrder(top, outExp + 1, s);
    ShlNext(top, s);
    ShlPow2(e, s);
    hide Shl, Pow2;
  }

  lemma {:induction false} PackOfZero(f: Format, c: nat)
    ensures Pack(f, 0, c) == c
  {
    ShlOne(f.fracBits);
  }

  lemma {:induction false} SubnormalEstimate(e: nat, s: nat, outExp: int, t: nat)
    requires Widths(e, s) && t < 128 && -1 <= outExp <= 0
    ensures var f := FormatOf(e, s);
      EstimateCode(s, outExp, t) < InfCode(f) && EstimateCode(s, outExp, t) < Pow2(s + e) &&
      Value(f, EstimateCode(s, outExp, t)) == Scale(EstimateSig(s, t) as real, outExp - Bias(e) - s)
  {
    var f, c, m := FormatOf(e, s), EstimateCode(s, outExp, t), EstimateSig(s, t);
    PlacesOf(s, t);
    SmallShifts(c);
    assert c < Pow2(s) && m == Shl(c, 1 - outExp);
    ShlOne(s);
    CodesFit(e, s, 0, c);
    PackOfZero(f, c);
    ValueOfPacked(f, 0, c);
    hide Scale, Pow2, Value, EstimateCode, Shl;
    RaisedScale(c, 1 - outExp, m, 1 - Bias(e) - s);
  }

  lemma {:induction false} SmallShifts(c: nat)
    ensures Shl(c, 1) == 2 * c && Shl(c, 2) == 4 * c
  {
    assert Shl(c, 2) == 2 * Shl(c, 1);
  }

  lemma {:induction false} NormalEstimate(e: nat, s: nat, outExp: int, t: nat)
    requires Widths(e, s) && t < 128 && 0 < outExp <= 2 * Bias(e)
    ensures var f := FormatOf(e, s);
      EstimateCode(s, outExp, t) < InfCode(f) && EstimateCode(s, outExp, t) < Pow2(s + e) &&
      Value(f, EstimateCode(s, outExp, t)) == Scale(EstimateSig(s, t) as real, outExp - Bias(e) - s)
  {
    var f, m := FormatOf(e, s), EstimateSig(s, t);
    PlacesOf(s, t);
    CodesFit(e, s, outExp, NatShl(t, s - 7));
    ShlNext(outExp - 1, s);
    ValueOfPacked(f, outExp - 1, m);
  }

  lemma {:induction false} EstimateValue(e: nat, s: nat, outExp: int, t: nat)
    requires Widths(e, s) && t < 128 && -1 <= outExp <= 2 * Bias(e)
    ensures var f := FormatOf(e, s);
      EstimateCode(s, outExp, t) < InfCode(f) && EstimateCode(s, outExp, t) < Pow2(s + e) &&
      Value(f, EstimateCode(s, outExp, t)) == Scale(EstimateSig(s, t) as real, outExp - Bias(e) - s)
  {
    hide *;
    if outExp <= 0 {
      SubnormalEstimate(e, s, outExp, t);
    } else {
      NormalEstimate(e, s, outExp, t);
    }
  }

  /** `z` is within 2^-7 of the reciprocal of `a`, relative to it. */
  ghost predicate NearReciprocal(f: Format, a: Datum, z: Datum) {
    127.0 / 128.0 <= Product(Magnitude(f, a), Magnitude(f, z)) <= 129.0 / 128.0
  }

  lemma {:induction false} ScaledBetween(n: nat, j: nat, d: nat, lo: nat, hi: nat)
    requires 0 < d && lo * Pow2(j) <= n * d <= hi * Pow2(j)
    ensures lo as real / d as real <= Scale(n as real, -(j as int)) <= hi as real / d as real
  {
    var k, x := -(j as int), Scale(n as real, -(j as int));
    PowerTimes(lo, j);
    PowerTimes(hi, j);
    TimesScaled(n, d, k);
    hide *;
    ScaleOrder((n * d) as real, (lo * Pow2(j)) as real, k);
    ScaleOrder((hi * Pow2(j)) as real, (n * d) as real, k);
    Quotient(x, d as real, lo as real);
    Quotient(x, d as real, hi as real);
  }

  lemma {:induction false} TimesScaled(n: nat, d: nat, k: int)
    ensures Scale(n as real, k) * d as real == Scale((n * d) as real, k)
  {
    ScaleTimes(n as real, d as real, k);
    Reals(n, d);
  }

  lemma {:induction false} PowerTimes(n: nat, j: nat)
    ensures Scale((n * Pow2(j)) as real, -(j as int)) == n as real
  {
    ShlIsTimes(n, j);
    ScaleInt(n, j);
    ScaleScale(n as real, j, -(j as int));
  }

  lemma {:induction false} Reals(m: nat, n: nat)
    ensures m as real * n as real == (m * n) as real
  {
    if n > 0 {
      Reals(m, n - 1);
      assert m as real * n as real == m as real * (n - 1) as real + m as real;
    }
  }

  lemma {:induction false} Quotient(x: real, d: real, y: real)
    requires 0.0 < d
    ensures y <= x * d <==> y / d <= x
    ensures x * d <= y <==> x <= y / d
  {
  }

  /** The table index of a significand leads to an entry that serves it. */
  lemma {:induction false} RecipIndex(s: nat, sig: nat)
    requires 9 <= s && sig < Pow2(s)
    ensures var i := Shr(sig, s - 7);
      i < 128 && (128 + i) * Pow2(s - 7) <= Pow2(s) + sig < (129 + i) * Pow2(s - 7)
  {
    var i, p := Shr(sig, s - 7), Pow2(s - 7);
    ShrSplits(sig, s - 7);
    ShlIsTimes(i, s - 7);
    Pow2Add(s - 7, 7);
    assert Pow2(7) == 128;
    hide *;
    IndexPlace(i, p, LowBits(sig, s - 7), 128, Pow2(s), sig);
  }

  lemma {:induction false} IndexPlace(i: nat, p: nat, r: nat, c: nat, whole: nat, sig: nat)
    requires sig == i * p + r && r < p && whole == p * c && sig < whole
    ensures i < c && (c + i) * p <= whole + sig < (c + 1 + i) * p
  {
    MulSwap(p, c, 1);
    assert c * p == p * c;
    MulCancelLt(i, c, p);
    Distribute(c, i, p);
    Distribute(c + i, 1, p);
  }

  lemma {:induction false} Distribute(a: nat, b: nat, p: nat)
    ensures (a + b) * p == a * p + b * p
  {
  }

  /** Significand and entry together: 127 * 2^(s + 1) to 129 * 2^(s + 1). */
  lemma {:induction false} RecipBounds(s: nat, sig: nat)
    requires 9 <= s && sig < Pow2(s)
    ensures var i, m := Shr(sig, s - 7), Pow2(s) + sig;
      i < 128 && RecipTable(i) < 128 &&
      127 * 256 * Pow2(s - 7) <= m * (128 + RecipTable(i)) <= 129 * 256 * Pow2(s - 7)
  {
    var i := Shr(sig, s - 7);
    RecipIndex(s, sig);
    RecipEntry(i);
    assert RecipTable(i) < 128;
    hide Shr, Pow2, RecipTable;
    RecipTimes(i, RecipTable(i), Pow2(s) + sig, Pow2(s - 7));
  }

  lemma {:induction false} RecipTimes(i: nat, t: nat, m: nat, p: nat)
    requires RecipGood(i, t) && (128 + i) * p <= m < (129 + i) * p
    ensures 127 * 256 * p <= m * (128 + t) <= 129 * 256 * p
  {
    hide RecipNearest;
    var n, lo, hi := 128 + t, 128 + i, 129 + i;
    assert 127 * 256 <= lo * n && hi * n <= 129 * 256;
    hide RecipGood;
    MulLe(lo * p, m, n);
    MulLe(m, hi * p, n);
    MulSwap(lo, p, n);
    MulSwap(hi, p, n);
    MulLe(127 * 256, lo * n, p);
    MulLe(hi * n, 129 * 256, p);
  }

  lemma {:induction false} RecipScaled(s: nat, sig: nat)
    requires 9 <= s && sig < Pow2(s)
    ensures var i, m := Shr(sig, s - 7), Pow2(s) + sig;
      var t, j := RecipTable(i), 2 * s + 1;
      127 * Pow2(j) <= m * EstimateSig(s, t) * 128 <= 129 * Pow2(j)
  {
    var p := Pow2(s - 7);
    RecipBounds(s, sig);
    Pow2Add(s - 7, 7);
    Pow2Add(s, s);
    assert Pow2(7) == 128 && Pow2(2 * s + 1) == 2 * Pow2(2 * s);
    Squares(p);
    hide *;
    TimesPlace(Pow2(s) + sig, 128 + RecipTable(Shr(sig, s - 7)), p);
  }

  lemma {:induction false} Squares(p: nat)
    ensures 2 * ((p * 128) * (p * 128)) == 128 * 256 * (p * p)
  {
  }

  lemma {:induction false} TimesPlace(m: nat, n: nat, p: nat)
    requires 127 * 256 * p <= m * n <= 129 * 256 * p
    ensures 127 * (128 * 256 * (p * p)) <= m * (n * p) * 128 <= 129 * (128 * 256 * (p * p))
  {
    MulLe(127 * 256 * p, m * n, p);
    MulLe(m * n, 129 * 256 * p, p);
    assert m * (n * p) == (m * n) * p;
    assert 127 * 256 * p * p == 127 * 256 * (p * p);
    assert 129 * 256 * p * p == 129 * 256 * (p * p);
  }

  lemma {:induction false} RecipProduct(e: nat, s: nat, exp: int, sig: nat)
    requires Widths(e, s) && sig < Pow2(s)
    ensures var m, n := Pow2(s) + sig, EstimateSig(s, RecipTable(Shr(sig, s - 7)));
      127.0 / 128.0 <=
        Product(Scale(m as real, exp - Bias(e) - s), Scale(n as real, Bias(e) - 1 - exp - s)) <= 129.0 / 128.0
  {
    WidthsBound(e, s);
    RecipScaled(s, sig);
    hide *;
    ProductBetween(Pow2(s) + sig, exp - Bias(e) - s, EstimateSig(s, RecipTable(Shr(sig, s - 7))),
      Bias(e) - 1 - exp - s, 2 * s + 1, 128, 127, 129);
  }

  lemma {:induction false} ProductBetween(m: nat, j: int, n: nat, k: int, q: nat, d: nat, lo: nat, hi: nat)
    requires 0 < d && lo * Pow2(q) <= m * n * d <= hi * Pow2(q) && j + k == -(q as int)
    ensures lo as real / d as real <= Product(Scale(m as real, j), Scale(n as real, k)) <= hi as real / d as real
  {
    hide *;
    ScaleProduct(m as real, j, n as real, k);
    RealProduct(m, n);
    ScaledBetween(m * n, q, d, lo, hi);
  }

  lemma {:induction false} WidthsBound(e: nat, s: nat)
    requires Widths(e, s)
    ensures 3 <= e && 9 <= s && 1 + e + s <= 64 && s <= Bias(e)
  {
  }

  lemma {:induction false} UnpackedAs(e: nat, s: nat, a: Datum, exp: int, sig: nat)
    requires Widths(e, s) && Unpacked7(e, s, a, exp, sig)
    ensures 3 <= e && 9 <= s && sig < Pow2(s)
    ensures Magnitude(FormatOf(e, s), a) == Scale((Pow2(s) + sig) as real, exp - Bias(e) - s)
  {
  }

  /** The operand's place and the entry's, as the nearest estimate has them. */
  lemma {:induction false} RecipIsNearest(e: nat, s: nat, a: Datum, exp: int, sig: nat, z: Datum)
    requires Widths(e, s) && Unpacked7(e, s, a, exp, sig)
    requires Magnitude(FormatOf(e, s), z) ==
      Scale(EstimateSig(s, RecipTable(Shr(sig, s - 7))) as real, 2 * Bias(e) - 1 - exp - Bias(e) - s)
    ensures NearestReciprocal(FormatOf(e, s), a, z)
  {
    hide *;
    UnpackedAs(e, s, a, exp, sig);
    var i, k, t := Shr(sig, s - 7), exp - Bias(e) - s, RecipTable(Shr(sig, s - 7));
    RecipIndex(s, sig);
    RecipEntry(i);
    RecipGoodIs(i, t);
    MultipleBetween(128 + i, Pow2(s) + sig, 129 + i, s - 7, k);
    SigScaled(s, t, 2 * Bias(e) - 1 - exp - Bias(e) - s);
    RecipPlacedIs(FormatOf(e, s), a, z, k + s - 7, i, t);
  }

  lemma {:induction false} MultipleBetween(lo: nat, m: nat, hi: nat, r: nat, k: int)
    requires lo * Pow2(r) <= m < hi * Pow2(r)
    ensures Scale(lo as real, k + r) <= Scale(m as real, k) < Scale(hi as real, k + r)
  {
    ScaledMultiple(lo, r, k);
    ScaledMultiple(hi, r, k);
    ScaleOrder(m as real, (lo * Pow2(r)) as real, k);
    ScaleOrder(m as real, (hi * Pow2(r)) as real, k);
  }

  lemma {:induction false} RecipNear(e: nat, s: nat, a: Datum, exp: int, sig: nat, z: Datum)
    requires Widths(e, s) && Unpacked7(e, s, a, exp, sig) && -1 <= exp
    requires z.code == EstimateCode(s, 2 * Bias(e) - 1 - exp, RecipTable(Shr(sig, s - 7)))
    ensures IsFinite(FormatOf(e, s), z) && NearReciprocal(FormatOf(e, s), a, z) && z.code < Pow2(s + e)
    ensures NearestReciprocal(FormatOf(e, s), a, z)
  {
    RecipBounds(s, sig);
    hide Magnitude, InfCode, Product, EstimateCode, Pow2, RecipTable, Scale, Value, Shr;
    EstimateValue(e, s, 2 * Bias(e) - 1 - exp, RecipTable(Shr(sig, s - 7)));
    MagnitudeIs(FormatOf(e, s), z);
    RecipProduct(e, s, exp, sig);
    RecipIsNearest(e, s, a, exp, sig, z);
  }

  lemma {:induction false} MagnitudeIs(f: Format, z: Datum)
    ensures Magnitude(f, z) == Value(f, z.code)
  {
  }

  lemma {:induction false} RealProduct(m: nat, n: nat)
    ensures Product(m as real, n as real) == (m * n) as real
  {
    Reals(m, n);
  }

  /** Where the reciprocal is too large for the format: the operand is under a quarter of the least normal
      number. */
  ghost predicate Overflows7(f: Format, a: Datum) {
    4 * Quanta(f, a.code) < Hidden(f)
  }

  /** Then the nearest reciprocal has no finite encoding. */
  lemma {:induction false} OverflowMeans(e: nat, s: nat, a: Datum, z: Datum)
    requires Widths(e, s) && Overflows7(FormatOf(e, s), a) && NearestReciprocal(FormatOf(e, s), a, z)
    ensures !IsFinite(FormatOf(e, s), z)
  {
    var f := FormatOf(e, s);
    SmallOperand(e, s, a);
    ReciprocalAtLeast(f, a, z, -1 - Bias(e));
    if IsFinite(f, z) {
      BeyondLargest(e, s, z);
    }
    hide Scale, Magnitude, InfCode;
  }

  lemma {:induction false} SmallOperand(e: nat, s: nat, a: Datum)
    requires Widths(e, s) && Overflows7(FormatOf(e, s), a)
    ensures Magnitude(FormatOf(e, s), a) < Scale(1.0, -1 - Bias(e))
  {
    var q := Quanta(FormatOf(e, s), a.code);
    assert Pow2(s) == 2 * Pow2(s - 1) && Pow2(s - 1) == 2 * Pow2(s - 2);
    ScaledPower(s - 2, 1 - Bias(e) - s);
    hide Quanta, Scale, Pow2;
    ScaleOrder(q as real, Pow2(s - 2) as real, 1 - Bias(e) - s);
  }

  /** Every finite magnitude is under 2^(bias + 1). */
  lemma {:induction false} BeyondLargest(e: nat, s: nat, z: Datum)
    requires Widths(e, s) && IsFinite(FormatOf(e, s), z)
    ensures Magnitude(FormatOf(e, s), z) < Scale(1.0, 1 + Bias(e))
  {
    var f := FormatOf(e, s);
    QuantaMonotone(f, z.code, InfCode(f));
    assert Pow2(e) - 1 == 2 * Bias(e) + 1;
    TopCode(e, s);
    ShlIsTimes(Pow2(s), 2 * Bias(e));
    Pow2Add(s, 2 * Bias(e));
    ScaledPower(s + 2 * Bias(e), 1 - Bias(e) - s);
    hide Quanta, Scale, Pow2, InfCode, Bias;
    ScaleOrder(Quanta(f, z.code) as real, Quanta(f, InfCode(f)) as real, f.leastExp);
  }

  lemma {:induction false} TopCode(e: nat, s: nat)
    requires Widths(e, s)
    ensures Quanta(FormatOf(e, s), InfCode(FormatOf(e, s))) == Shl(Pow2(s), 2 * Bias(e))
  {
    var f := FormatOf(e, s);
    ShlNext(2 * Bias(e), s);
    QuantaOfPacked(f, 2 * Bias(e), Pow2(s));
  }

  lemma {:induction false} NormalNoOverflow(e: nat, s: nat, a: Datum, exp: nat, frac: nat)
    requires Widths(e, s) && 0 < exp && frac < Pow2(s) && a.code == NatShl(exp, s) + frac
    ensures !Overflows7(FormatOf(e, s), a)
  {
    ShlNext(exp - 1, s);
    QuantaOfPacked(FormatOf(e, s), exp - 1, Pow2(s) + frac);
    ShlNonneg(Pow2(s) + frac, exp - 1);
  }

  lemma {:induction false} SubnormalOverflow(e: nat, s: nat, a: Datum, frac: nat, n: nat, sig: nat)
    requires Widths(e, s) && 0 < frac < Pow2(s) && a.code == frac && Shl(frac, n + 1) == Pow2(s) + sig && sig < Pow2(s)
    ensures Overflows7(FormatOf(e, s), a) <==> 2 <= n
  {
    var f := FormatOf(e, s);
    PackOfZero(f, frac);
    QuantaOfPacked(f, 0, frac);
    assert Quanta(f, a.code) == frac;
    hide Quanta, Pow2;
    if 2 <= n {
      ShlShl(frac, 3, n - 2);
      assert Shl(frac, 3) == 2 * Shl(frac, 2) == 8 * frac;
      ShlNonneg(8 * frac, n - 2);
    }
  }

  /** The result of `recip7` for a finite nonzero operand. */
  ghost predicate RecipDelivered(f: Format, mode: Mode, a: Datum, z: Datum, roundAbnormal: bool) {
    z.sign == a.sign && (roundAbnormal <==> Overflows7(f, a)) &&
    if roundAbnormal then
      z.code == if mode == Odd || OverflowsToInf(mode, a.sign) then InfCode(f) else InfCode(f) - 1
    else IsFinite(f, z) && NearReciprocal(f, a, z) && NearestReciprocal(f, a, z)
  }

  lemma {:induction false} MaskIsInf(e: nat, s: nat)
    requires Widths(e, s)
    ensures MakeMask64(s, e) == InfCode(FormatOf(e, s)) && 0 < MakeMask64(s, e) < Pow2(s + e)
    ensures MakeMask64(0, e - 1) == Bias(e) && MakeMask64(s - 1, 1) == Pow2(s - 1)
  {
    CodesFit(e, s, 0, 0);
    InfPositive(FormatOf(e, s));
    ShlOne(s - 1);
    assert Pow2(1) == 2;
  }

  /** `2 * make_mask64(0, e - 1) + ~exp`, and the significand adjusted when that is not positive. */
  lemma {:induction false} OutExpIs(e: nat, s: nat, exp: int, w: Word64)
    requires Widths(e, s) && -1 <= exp <= 2 * Bias(e) && w == Wrap64(exp)
    ensures var o := 2 * Bias(e) - 1 - exp;
      Wrap64(2 * Bias(e) + (0xFFFF_FFFF_FFFF_FFFF - w)) == if o < 0 then 0xFFFF_FFFF_FFFF_FFFF else o
    ensures Bias(e) < 0x8000_0000_0000_0000 / 2
  {
    Pow2Increases(e - 1, 60);
    Pow2Literals();
    hide Pow2;
  }

  lemma {:induction false} WordOf(exp: int)
    requires -64 < exp <= 0
    ensures Wrap64(exp) == 0 || Wrap64(exp) == 0xFFFF_FFFF_FFFF_FFFF <==> -1 <= exp
  {
  }

  lemma {:induction false} OverflowReturned(e: nat, s: nat, rm: Mode, a: Datum, sign: nat, z: Word64)
    requires Widths(e, s) && sign < 2 && (a.sign <==> sign == 1) && Overflows7(FormatOf(e, s), a)
    requires z == NatShl(sign, s + e) + MakeMask64(s, e) -
      if rm == MinMag || (rm == Min && sign == 0) || (rm == Max && sign == 1) then 1 else 0
    ensures RecipDelivered(FormatOf(e, s), rm, a, DatumOf(e, s, z), true)
  {
    MaskIsInf(e, s);
    hide Overflows7, InfCode, MakeMask64, DatumOf, Pow2;
    Assembled(e, s, sign, MakeMask64(s, e) -
      if rm == MinMag || (rm == Min && sign == 0) || (rm == Max && sign == 1) then 1 else 0);
  }

  lemma {:induction false} MaskFits(e: nat, s: nat, sign: nat)
    requires Widths(e, s) && sign < 2
    ensures 0 < MakeMask64(s, e) && NatShl(sign, s + e) + MakeMask64(s, e) < 0x1_0000_0000_0000_0000
  {
    MaskIsInf(e, s);
    hide MakeMask64, DatumOf, Pow2, NatShl;
    Assembled(e, s, sign, MakeMask64(s, e));
  }

  lemma {:induction false} CodeParts(s: nat, o: int, t: nat)
    requires 9 <= s
    ensures var m := NatShl(t, s - 7);
      EstimateCode(s, o, t) == if o < 0 then NatShl(0, s) + (m / 2 + Pow2(s - 1)) / 2
        else if o == 0 then NatShl(0, s) + (m / 2 + Pow2(s - 1)) else NatShl(o, s) + m
  {
    ShlOne(s);
  }

  lemma {:induction false} EstimateReturned(e: nat, s: nat, rm: Mode, a: Datum, sign: nat, exp: int, sig: nat, code: nat)
    requires Widths(e, s) && sign < 2 && (a.sign <==> sign == 1) && !Overflows7(FormatOf(e, s), a)
    requires Unpacked7(e, s, a, exp, sig) && -1 <= exp
    requires code == EstimateCode(s, 2 * Bias(e) - 1 - exp, RecipTable(Shr(sig, s - 7)))
    ensures NatShl(sign, s + e) + code < 0x1_0000_0000_0000_0000
    ensures RecipDelivered(FormatOf(e, s), rm, a, DatumOf(e, s, NatShl(sign, s + e) + code), false)
  {
    hide Overflows7, NearReciprocal, NearestReciprocal, InfCode, DatumOf, Pow2, EstimateCode, RecipTable, Unpacked7;
    RecipNear(e, s, a, exp, sig, Datum(sign == 1, code));
    Assembled(e, s, sign, code);
  }

  lemma {:induction false} ExpRange(e: nat, s: nat)
    requires Widths(e, s)
    ensures Pow2(e) == 2 * Bias(e) + 2 && Pow2(s) < 0x1_0000_0000_0000_0000 && 9 <= s < 64 && 0 < Bias(e)
  {
    Pow2Increases(s, 63);
    Pow2Literals();
    assert Pow2(e) == 2 * Pow2(e - 1);
  }

  /** `recip7`, for a finite nonzero operand; `sub` tells that it is subnormal. */
  method Recip7(val: Word64, e: nat, s: nat, rm: Mode, sub: bool) returns (z: Word64, roundAbnormal: bool)
    requires Widths(e, s) && Extract64(val, s, e) <= 2 * Bias(e) && (sub <==> Extract64(val, s, e) == 0)
    requires sub ==> Extract64(val, 0, s) != 0
    ensures RecipDelivered(FormatOf(e, s), rm, DatumOf(e, s, val), DatumOf(e, s, z), roundAbnormal)
  {
    hide *;
    ExpRange(e, s);
    WidthsBound(e, s);
    ShlOne(s);
    FieldsOf(e, s, val);
    ghost var a := DatumOf(e, s, val);
    var exp, sig, sign := Extract64(val, s, e), Extract64(val, 0, s), Extract64(val, s + e, 1);
    WrapSmall(exp);
    ghost var expA: int := exp;
    roundAbnormal := false;
    if sub {
      ghost var frac, n := sig, 0;
      exp, sig, n := NormalizeSub(sig, s);
      expA := -(n as int);
      SubnormalUnpacked(e, s, a, frac, n, sig);
      SubnormalOverflow(e, s, a, frac, n, sig);
      WordOf(expA);
      if exp != 0 && exp != 0xFFFF_FFFF_FFFF_FFFF {
        roundAbnormal := true;
        MaskFits(e, s, sign);
        if rm == MinMag || (rm == Min && sign == 0) || (rm == Max && sign == 1) {
          z := NatShl(sign, s + e) + MakeMask64(s, e) - 1;
        } else {
          z := NatShl(sign, s + e) + MakeMask64(s, e);
        }
        OverflowReturned(e, s, rm, a, sign, z);
        return;
      }
    } else {
      NormalUnpacked(e, s, a, expA, sig);
      NormalNoOverflow(e, s, a, expA, sig);
    }
    var idx := Shr(sig, s - 7);
    var outSig := NatShl(RecipTable(idx), s - 7);
    var outExp := Wrap64(2 * MakeMask64(0, e - 1) + (0xFFFF_FFFF_FFFF_FFFF - exp));
    MaskIsInf(e, s);
    OutExpIs(e, s, expA, exp);
    CodeParts(s, 2 * Bias(e) - 1 - expA, RecipTable(Shr(sig, s - 7)));
    if outExp == 0 || outExp == 0xFFFF_FFFF_FFFF_FFFF {
      outSig := outSig / 2 + MakeMask64(s - 1, 1);
      if outExp == 0xFFFF_FFFF_FFFF_FFFF {
        outSig := outSig / 2;
        outExp := 0;
      }
    }
    EstimateReturned(e, s, rm, a, sign, expA, sig, NatShl(outExp, s) + outSig);
    z := NatShl(sign, s + e) + NatShl(outExp, s) + outSig;
  }

  /** Within a relative error of 2^-7 of the reciprocal of the square root: `x` times the square of the
      estimate is within twice that, to second order, of one. */
  ghost predicate NearRSqrt(f: Format, a: Datum, z: Datum) {
    127.0 * 127.0 / 16384.0 <= Product(Magnitude(f, a), Product(Magnitude(f, z), Magnitude(f, z))) <=
      129.0 * 129.0 / 16384.0
  }

  /** Said with the square root itself. */
  lemma {:induction false} NearRSqrtIs(f: Format, a: Datum, z: Datum, root: real)
    requires NearRSqrt(f, a, z) && 0.0 <= root && Product(root, root) == Magnitude(f, a)
    ensures 127.0 / 128.0 <= Product(root, Magnitude(f, z)) <= 129.0 / 128.0
  {
    var y := Magnitude(f, z);
    SquareOfProduct(root, y);
    hide Magnitude, Product;
    Between(Product(root, y), 127.0 / 128.0, 129.0 / 128.0);
  }

  lemma {:induction false} SquareOfProduct(r: real, y: real)
    ensures Product(Product(r, r), Product(y, y)) == Product(r, y) * Product(r, y)
    ensures 0.0 <= r && 0.0 <= y ==> 0.0 <= Product(r, y)
  {
    assert (r * r) * (y * y) == (r * y) * (r * y);
  }

  lemma {:induction false} Between(x: real, lo: real, hi: real)
    requires 0.0 <= x && 0.0 <= lo && 0.0 <= hi && lo * lo <= x * x <= hi * hi
    ensures lo <= x <= hi
  {
    if x < lo {
      Squared(x, lo);
    }
    if hi < x {
      Squared(hi, x);
    }
  }

  lemma {:induction false} Squared(x: real, y: real)
    requires 0.0 <= x < y
    ensures x * x < y * y
  {
    PositiveProduct(y - x, y + x);
    assert (y - x) * (y + x) == y * y - x * x;
  }

  lemma {:induction false} PositiveProduct(x: real, y: real)
    requires 0.0 < x && 0.0 < y
    ensures 0.0 < x * y
  {
  }

  function RSqrtIndex(s: nat, exp: int, sig: nat): nat
    requires 9 <= s
  {
    (if exp % 2 == 1 then 64 else 0) + Shr(sig, s - 6)
  }

  lemma {:induction false} RSqrtPlace(s: nat, sig: nat)
    requires 9 <= s && sig < Pow2(s)
    ensures var j, q := Shr(sig, s - 6), Pow2(s - 6);
      j < 64 && (64 + j) * q <= Pow2(s) + sig < (65 + j) * q && q == 2 * Pow2(s - 7)
  {
    var j, q := Shr(sig, s - 6), Pow2(s - 6);
    ShrSplits(sig, s - 6);
    ShlIsTimes(j, s - 6);
    Pow2Add(s - 6, 6);
    assert Pow2(6) == 64 && q == 2 * Pow2(s - 7);
    hide *;
    IndexPlace(j, q, LowBits(sig, s - 6), 64, Pow2(s), sig);
  }

  lemma {:induction false} RSqrtServes(s: nat, exp: int, sig: nat)
    requires 9 <= s && Shr(sig, s - 6) < 64
    ensures var j, i := Shr(sig, s - 6), RSqrtIndex(s, exp, sig);
      i < 128 && RSqrtGood(if exp % 2 == 1 then 1 else 2, j, RSqrtTable(i))
  {
    hide Shr, RSqrtGood, RSqrtTable;
    RSqrtEntry(RSqrtIndex(s, exp, sig));
  }

  /** Significand and squared entry together. */
  lemma {:induction false} RSqrtBounds(c: nat, j: nat, t: nat, m: nat, p: nat)
    requires RSqrtGood(c, j, t) && (64 + j) * (2 * p) <= m < (65 + j) * (2 * p)
    ensures var n := (128 + t) * (128 + t);
      512 * 127 * 127 * p <= (c * m) * n <= 512 * 129 * 129 * p
  {
    hide RSqrtNearest;
    var n := (128 + t) * (128 + t);
    var lo, hi := c * (64 + j), c * (65 + j);
    assert 256 * 127 * 127 <= lo * n && hi * n <= 256 * 129 * 129;
    hide RSqrtGood;
    MulLe((64 + j) * (2 * p), m, c);
    MulLe(m, (65 + j) * (2 * p), c);
    assert (64 + j) * (2 * p) * c == lo * (2 * p);
    assert (65 + j) * (2 * p) * c == hi * (2 * p);
    MulLe(lo * (2 * p), m * c, n);
    MulLe(m * c, hi * (2 * p), n);
    MulSwap(lo, 2 * p, n);
    MulSwap(hi, 2 * p, n);
    MulLe(256 * 127 * 127, lo * n, 2 * p);
    MulLe(hi * n, 256 * 129 * 129, 2 * p);
  }

  lemma {:induction false} CubeOf(n: nat, p: nat)
    ensures (n * p) * (n * p) == (n * n) * (p * p)
    ensures (p * 128) * (p * 128) * (p * 128) == 2097152 * (p * (p * p))
  {
  }

  lemma {:induction false} CubePlace(c: nat, m: nat, n: nat, p: nat)
    requires (c == 1 || c == 2) && 512 * 127 * 127 * p <= (c * m) * (n * n) <= 512 * 129 * 129 * p
    ensures var r := (if c == 1 then 4 else 2) * ((p * 128) * (p * 128) * (p * 128));
      127 * 127 * r <= m * ((n * p) * (n * p)) * 16384 <= 129 * 129 * r
  {
    CubeOf(n, p);
    var v, w := n * n, p * p;
    MulLe(512 * 127 * 127 * p, (c * m) * v, w);
    MulLe((c * m) * v, 512 * 129 * 129 * p, w);
    assert 512 * 127 * 127 * p * w == 512 * 127 * 127 * (p * w);
    assert 512 * 129 * 129 * p * w == 512 * 129 * 129 * (p * w);
    assert (c * m) * v * w == c * (m * (v * w));
  }

  lemma {:induction false} CubeOfPower(s: nat)
    requires 9 <= s
    ensures var h := Pow2(s - 7) * 128;
      Pow2(3 * s + 1) == 2 * (h * h * h) && Pow2(3 * s + 2) == 4 * (h * h * h)
  {
    Pow2Add(s - 7, 7);
    assert Pow2(7) == 128;
    Pow2Add(s, s);
    Pow2Add(2 * s, s);
    assert Pow2(3 * s + 1) == 2 * Pow2(3 * s) && Pow2(3 * s + 2) == 2 * Pow2(3 * s + 1);
    hide Pow2;
  }

  function Places(s: nat, exp: int): nat {
    3 * s + if exp % 2 == 1 then 2 else 1
  }

  lemma {:induction false} RSqrtScaled(s: nat, exp: int, sig: nat)
    requires 9 <= s && sig < Pow2(s)
    ensures var t := RSqrtTable(RSqrtIndex(s, exp, sig));
      t < 128 && 127 * 127 * Pow2(Places(s, exp)) <=
        (Pow2(s) + sig) * SquaredSig(s, t) * 16384 <= 129 * 129 * Pow2(Places(s, exp))
  {
    var i, p := RSqrtIndex(s, exp, sig), Pow2(s - 7);
    var t, c, m := RSqrtTable(i), if exp % 2 == 1 then 1 else 2, Pow2(s) + sig;
    RSqrtPlace(s, sig);
    RSqrtServes(s, exp, sig);
    CubeOfPower(s);
    assert t < 128;
    assert SquaredSig(s, t) == ((128 + t) * p) * ((128 + t) * p);
    hide RSqrtTable, RSqrtGood, RSqrtIndex, Shr, Pow2, SquaredSig;
    RSqrtBounds(c, Shr(sig, s - 6), t, m, p);
    CubePlace(c, m, 128 + t, p);
  }

  function SquaredSig(s: nat, t: nat): nat
    requires 7 < s
  {
    EstimateSig(s, t) * EstimateSig(s, t)
  }

  lemma {:induction false} OddBias(e: nat)
    requires 3 <= e
    ensures Bias(e) % 2 == 1 && 3 <= Bias(e)
  {
    Pow2Increases(2, e - 1);
    assert Pow2(2) == 4;
  }

  /** The exponent of the result, and what the exponents of operand and result come to. */
  lemma {:induction false} RSqrtExponents(e: nat, s: nat, exp: int)
    requires Widths(e, s) && -(s as int) < exp <= 2 * Bias(e)
    ensures var o := (3 * Bias(e) - 1 - exp) / 2;
      1 <= o <= 2 * Bias(e) &&
      exp - Bias(e) - s + (o - Bias(e) - s + (o - Bias(e) - s)) == -(Places(s, exp) as int)
  {
    OddBias(e);
    WidthsBound(e, s);
    hide Bias;
  }

  lemma {:induction false} RSqrtProduct(e: nat, s: nat, exp: int, sig: nat)
    requires Widths(e, s) && sig < Pow2(s) && -(s as int) < exp <= 2 * Bias(e)
    ensures var o, n := (3 * Bias(e) - 1 - exp) / 2, EstimateSig(s, RSqrtTable(RSqrtIndex(s, exp, sig)));
      var y := Scale(n as real, o - Bias(e) - s);
      127.0 * 127.0 / 16384.0 <= Product(Scale((Pow2(s) + sig) as real, exp - Bias(e) - s), Product(y, y)) <=
        129.0 * 129.0 / 16384.0
  {
    WidthsBound(e, s);
    RSqrtScaled(s, exp, sig);
    RSqrtExponents(e, s, exp);
    var t := RSqrtTable(RSqrtIndex(s, exp, sig));
    var k, n := (3 * Bias(e) - 1 - exp) / 2 - Bias(e) - s, EstimateSig(s, t);
    assert SquaredSig(s, t) == n * n;
    hide *;
    ScaleProduct(n as real, k, n as real, k);
    RealProduct(n, n);
    ProductBetween(Pow2(s) + sig, exp - Bias(e) - s, SquaredSig(s, t), k + k, Places(s, exp), 16384,
      127 * 127, 129 * 129);
  }

  lemma {:induction false} RSqrtIsNearest(e: nat, s: nat, a: Datum, exp: int, sig: nat, z: Datum)
    requires Widths(e, s) && Unpacked7(e, s, a, exp, sig)
    requires var o := (3 * Bias(e) - 1 - exp) / 2;
      Magnitude(FormatOf(e, s), z) == Scale(EstimateSig(s, RSqrtTable(RSqrtIndex(s, exp, sig))) as real, o - Bias(e) - s)
    ensures NearestRSqrt(FormatOf(e, s), a, z)
  {
    hide *;
    UnpackedAs(e, s, a, exp, sig);
    var b, j, c := Bias(e), Shr(sig, s - 6), if exp % 2 == 1 then 1 else 2;
    var t := RSqrtTable(RSqrtIndex(s, exp, sig));
    RSqrtPlace(s, sig);
    RSqrtServes(s, exp, sig);
    RSqrtGoodIs(c, j, t);
    OddBias(e);
    PlacesAre(b, s, exp);
    MultipleBetween(64 + j, Pow2(s) + sig, 65 + j, s - 6, exp - b - s);
    SigScaled(s, t, (3 * b - 1 - exp) / 2 - b - s);
    PlacedByParity(FormatOf(e, s), a, z, c, j, t, exp - b - 6);
  }

  lemma {:induction false} RecipGoodIs(i: nat, t: nat)
    requires RecipGood(i, t)
    ensures t < 128 && RecipNearest(i, t)
  {
  }

  lemma {:induction false} RSqrtGoodIs(c: nat, j: nat, t: nat)
    requires RSqrtGood(c, j, t)
    ensures t < 128 && RSqrtNearest(c, j, t)
  {
  }

  lemma {:induction false} SigScaled(s: nat, t: nat, k: int)
    requires 7 < s
    ensures Scale(EstimateSig(s, t) as real, k) == Scale((128 + t) as real, k + s - 7)
  {
    ScaledMultiple(128 + t, s - 7, k);
  }

  lemma {:induction false} PlacesAre(b: nat, s: nat, exp: int)
    requires b % 2 == 1
    ensures (exp - b - 6) % 2 == if exp % 2 == 1 then 0 else 1
    ensures (3 * b - 1 - exp) / 2 - b - s + s - 7 == -11 - (exp - b - 6) / 2
  {
  }

  lemma {:induction false} RSqrtNear(e: nat, s: nat, a: Datum, exp: int, sig: nat, z: Datum)
    requires Widths(e, s) && Unpacked7(e, s, a, exp, sig)
    requires z.code == EstimateCode(s, (3 * Bias(e) - 1 - exp) / 2, RSqrtTable(RSqrtIndex(s, exp, sig)))
    ensures IsFinite(FormatOf(e, s), z) && NearRSqrt(FormatOf(e, s), a, z) && z.code < Pow2(s + e)
    ensures NearestRSqrt(FormatOf(e, s), a, z)
  {
    RSqrtScaled(s, exp, sig);
    RSqrtExponents(e, s, exp);
    hide Magnitude, InfCode, Product, EstimateCode, Pow2, RSqrtTable, Scale, Value, RSqrtIndex, EstimateSig, SquaredSig;
    EstimateValue(e, s, (3 * Bias(e) - 1 - exp) / 2, RSqrtTable(RSqrtIndex(s, exp, sig)));
    MagnitudeIs(FormatOf(e, s), z);
    RSqrtProduct(e, s, exp, sig);
    RSqrtIsNearest(e, s, a, exp, sig, z);
  }

  /** `(3 * make_mask64(0, e - 1) + ~exp) / 2`. */
  lemma {:induction false} RSqrtOutExp(e: nat, s: nat, exp: int, w: Word64)
    requires Widths(e, s) && -(s as int) < exp <= 2 * Bias(e) && w == Wrap64(exp)
    ensures Wrap64(3 * Bias(e) + (0xFFFF_FFFF_FFFF_FFFF - w)) == 3 * Bias(e) - 1 - exp
    ensures w % 2 == exp % 2
  {
    Pow2Increases(e - 1, 60);
    Pow2Literals();
    hide Pow2;
  }

  lemma {:induction false} RSqrtReturned(e: nat, s: nat, a: Datum, sign: nat, exp: int, sig: nat, code: nat)
    requires Widths(e, s) && sign < 2 && (a.sign <==> sign == 1) && Unpacked7(e, s, a, exp, sig)
    requires code == EstimateCode(s, (3 * Bias(e) - 1 - exp) / 2, RSqrtTable(RSqrtIndex(s, exp, sig)))
    ensures NatShl(sign, s + e) + code < 0x1_0000_0000_0000_0000
    ensures var z := DatumOf(e, s, NatShl(sign, s + e) + code);
      z.sign == a.sign && IsFinite(FormatOf(e, s), z) && NearRSqrt(FormatOf(e, s), a, z) &&
      NearestRSqrt(FormatOf(e, s), a, z)
  {
    hide NearRSqrt, NearestRSqrt, InfCode, DatumOf, Pow2, EstimateCode, RSqrtTable, Unpacked7, RSqrtIndex;
    RSqrtNear(e, s, a, exp, sig, Datum(sign == 1, code));
    Assembled(e, s, sign, code);
  }

  lemma {:induction false} UnpackedRange(e: nat, s: nat, a: Datum, exp: int, sig: nat)
    requires Widths(e, s) && Unpacked7(e, s, a, exp, sig)
    ensures -(s as int) < exp <= 2 * Bias(e)
  {
  }

  lemma {:induction false} IndexIs(s: nat, exp: int, sig: nat)
    requires 9 <= s
    ensures RSqrtIndex(s, exp, sig) == exp % 2 * 64 + Shr(sig, s - 6)
  {
  }

  /** `rsqrte7`, for a finite nonzero operand; `sub` tells that it is subnormal. */
  method RSqrtE7(val: Word64, e: nat, s: nat, sub: bool) returns (z: Word64)
    requires Widths(e, s) && Extract64(val, s, e) <= 2 * Bias(e) && (sub <==> Extract64(val, s, e) == 0)
    requires sub ==> Extract64(val, 0, s) != 0
    ensures DatumOf(e, s, z).sign == DatumOf(e, s, val).sign && IsFinite(FormatOf(e, s), DatumOf(e, s, z))
    ensures NearRSqrt(FormatOf(e, s), DatumOf(e, s, val), DatumOf(e, s, z))
    ensures NearestRSqrt(FormatOf(e, s), DatumOf(e, s, val), DatumOf(e, s, z))
  {
    hide *;
    ExpRange(e, s);
    WidthsBound(e, s);
    ShlOne(s);
    FieldsOf(e, s, val);
    ghost var a := DatumOf(e, s, val);
    var exp, sig, sign := Extract64(val, s, e), Extract64(val, 0, s), Extract64(val, s + e, 1);
    WrapSmall(exp);
    ghost var expA: int := exp;
    if sub {
      ghost var frac, n := sig, 0;
      exp, sig, n := NormalizeSub(sig, s);
      expA := -(n as int);
      SubnormalUnpacked(e, s, a, frac, n, sig);
    } else {
      NormalUnpacked(e, s, a, expA, sig);
    }
    UnpackedRange(e, s, a, expA, sig);
    RSqrtOutExp(e, s, expA, exp);
    IndexIs(s, expA, sig);
    var idx := exp % 2 * 64 + Shr(sig, s - 6);
    var outSig := NatShl(RSqrtTable(idx), s - 7);
    MaskIsInf(e, s);
    var outExp := Wrap64(3 * MakeMask64(0, e - 1) + (0xFFFF_FFFF_FFFF_FFFF - exp)) / 2;
    RSqrtExponents(e, s, expA);
    CodeParts(s, outExp, RSqrtTable(idx));
    RSqrtReturned(e, s, a, sign, expA, sig, NatShl(outExp, s) + outSig);
    z := NatShl(sign, s + e) + NatShl(outExp, s) + outSig;
  }

  /** The outcome of `f16_recip7`, `f32_recip7` and `f64_recip7`. */
  ghost predicate RecipOutcome(f: Format, mode: Mode, a: Datum, outcome: Outcome) {
    if IsNaN(f, a) then outcome == Propagated(f, a, a)
    else if IsInf(f, a) then outcome == Outcome(Datum(a.sign, 0), {})
    else if IsZero(a) then outcome == Outcome(Infinity(f, a.sign), {Infinite})
    else
      RecipDelivered(f, mode, a, outcome.datum, Overflows7(f, a)) &&
      outcome.flags == if Overflows7(f, a) then {Overflow, Inexact} else {}
  }

  /** The outcome of `f16_rsqrte7`, `f32_rsqrte7` and `f64_rsqrte7`. */
  ghost predicate RSqrtOutcome(f: Format, a: Datum, outcome: Outcome) {
    if IsNaN(f, a) then outcome == Propagated(f, a, a)
    else if IsZero(a) then outcome == Outcome(Infinity(f, a.sign), {Infinite})
    else if a.sign then outcome == Invalidated(f)
    else if IsInf(f, a) then outcome == Outcome(Datum(false, 0), {})
    else
      outcome.flags == {} && IsFinite(f, outcome.datum) && !outcome.datum.sign &&
      NearRSqrt(f, a, outcome.datum) && NearestRSqrt(f, a, outcome.datum)
  }

  /** The classes of `f16_classify`, `f32_classify` and `f64_classify`. */
  datatype OperandClass = AnInfinity | ANormal | ASubnormal | AZero | ASignalingNaN | AQuietNaN

  function Classify(e: nat, s: nat, ui: Word64): OperandClass
    requires 0 < s
  {
    var exp, frac := Extract64(ui, s, e), Extract64(ui, 0, s);
    if exp == Pow2(e) - 1 then
      if frac == 0 then AnInfinity else if Extract64(frac, s - 1, 1) == 0 then ASignalingNaN else AQuietNaN
    else if exp == 0 then if frac == 0 then AZero else ASubnormal
    else ANormal
  }

  lemma {:induction false} ClassIs(e: nat, s: nat, ui: Word64)
    requires Widths(e, s)
    ensures var f, a, c := FormatOf(e, s), DatumOf(e, s, ui), Classify(e, s, ui);
      (IsNaN(f, a) <==> c == ASignalingNaN || c == AQuietNaN) && (IsSignaling(f, a) <==> c == ASignalingNaN) &&
      (IsInf(f, a) <==> c == AnInfinity) && (IsZero(a) <==> c == AZero)
    ensures Classify(e, s, ui) == ANormal ==> 0 < Extract64(ui, s, e) <= 2 * Bias(e)
    ensures Classify(e, s, ui) == ASubnormal ==> Extract64(ui, s, e) == 0 && Extract64(ui, 0, s) != 0
  {
    var exp, frac := Extract64(ui, s, e), Extract64(ui, 0, s);
    FieldsOf(e, s, ui);
    ExpRange(e, s);
    TopOf(frac, s);
    CodeOrder(e, s, exp, frac);
    hide Extract64, DatumOf, Pow2, NatShl;
  }

  lemma {:induction false} CodeOrder(e: nat, s: nat, exp: nat, frac: nat)
    requires Widths(e, s) && exp < Pow2(e) && frac < Pow2(s)
    ensures var f, c := FormatOf(e, s), NatShl(exp, s) + frac;
      (InfCode(f) < c <==> exp == Pow2(e) - 1 && frac != 0) && (c == InfCode(f) <==> exp == Pow2(e) - 1 && frac == 0) &&
      (InfCode(f) < c < CanonicalNaN(f).code <==> exp == Pow2(e) - 1 && 0 < frac < Pow2(s - 1)) &&
      (c == 0 <==> exp == 0 && frac == 0)
  {
    var top := Pow2(e) - 1;
    assert InfCode(FormatOf(e, s)) == NatShl(top, s);
    assert CanonicalNaN(FormatOf(e, s)).code == NatShl(top, s) + Pow2(s) / 2;
    assert Pow2(s) == 2 * Pow2(s - 1);
    ShlNext(exp, s);
    ShlOrder(top, exp + 1, s);
    ShlOrder(exp + 1, top, s);
    ShlOrder(0, exp, s);
    ShlOne(s);
    hide Shl, Pow2, InfCode, CanonicalNaN;
  }

  /** The encodings of zeros, infinities and the canonical NaN. */
  lemma {:induction false} SpecialWords(e: nat, s: nat, sign: nat)
    requires Widths(e, s) && sign < 2
    ensures var f, inf := FormatOf(e, s), MakeMask64(s, e);
      NatShl(sign, s + e) + inf + Pow2(s - 1) < 0x1_0000_0000_0000_0000 &&
      DatumOf(e, s, NatShl(sign, s + e)) == Datum(sign == 1, 0) &&
      DatumOf(e, s, NatShl(sign, s + e) + inf) == Infinity(f, sign == 1) &&
      DatumOf(e, s, inf + Pow2(s - 1)) == CanonicalNaN(f) && NatShl(0, s + e) == 0
  {
    var inf := MakeMask64(s, e);
    MaskIsInf(e, s);
    ShlNext(Pow2(e) - 1, s);
    ShlPow2(e, s);
    assert Pow2(s) == 2 * Pow2(s - 1);
    assert CanonicalNaN(FormatOf(e, s)).code == inf + Pow2(s - 1);
    ShlOne(s + e);
    hide DatumOf, Pow2, Shl, MakeMask64, InfCode;
    Assembled(e, s, sign, 0);
    Assembled(e, s, sign, inf);
    Assembled(e, s, 0, inf + Pow2(s - 1));
    Assembled(e, s, sign, inf + Pow2(s - 1));
  }

  /** `f16_recip7`, `f32_recip7` and `f64_recip7`, which differ in the widths alone. */
  method ClassifiedRecip7(st: FloatState, ui: Word64, e: nat, s: nat) returns (uiZ: Word64, ghost raised: set<Flag>)
    requires Widths(e, s)
    modifies st`exceptionFlags
    ensures st.exceptionFlags == old(st.exceptionFlags) + raised
    ensures RecipOutcome(FormatOf(e, s), st.roundingMode, DatumOf(e, s, ui), Outcome(DatumOf(e, s, uiZ), raised))
  {
    hide Classify, DatumOf, Extract64, FormatOf, InfCode, CanonicalNaN, MakeMask64, NatShl, Pow2, RecipDelivered,
      Overflows7, Widths, Magnitude;
    ClassIs(e, s, ui);
    SpecialWords(e, s, 0);
    SpecialWords(e, s, 1);
    FieldsOf(e, s, ui);
    WidthsBound(e, s);
    raised := {};
    var sign := Extract64(ui, s + e, 1);
    match Classify(e, s, ui) {
      case AnInfinity =>
        uiZ := NatShl(sign, s + e);
      case AZero =>
        uiZ := NatShl(sign, s + e) + MakeMask64(s, e);
        raised := {Infinite};
        st.RaiseFlags({Infinite});
      case ASignalingNaN =>
        raised := {Invalid};
        st.RaiseFlags({Invalid});
        uiZ := MakeMask64(s, e) + Pow2(s - 1);
      case AQuietNaN =>
        uiZ := MakeMask64(s, e) + Pow2(s - 1);
      case ASubnormal =>
        var roundAbnormal;
        uiZ, roundAbnormal := Recip7(ui, e, s, st.roundingMode, true);
        AbnormalIs(e, s, st.roundingMode, ui, uiZ, roundAbnormal);
        if roundAbnormal {
          raised := {Overflow, Inexact};
          st.RaiseFlags({Overflow, Inexact});
        }
      case ANormal =>
        var roundAbnormal;
        uiZ, roundAbnormal := Recip7(ui, e, s, st.roundingMode, false);
        AbnormalIs(e, s, st.roundingMode, ui, uiZ, roundAbnormal);
        if roundAbnormal {
          raised := {Overflow, Inexact};
          st.RaiseFlags({Overflow, Inexact});
        }
    }
  }

  lemma {:induction false} AbnormalIs(e: nat, s: nat, mode: Mode, ui: Word64, uiZ: Word64, roundAbnormal: bool)
    requires Widths(e, s)
    requires RecipDelivered(FormatOf(e, s), mode, DatumOf(e, s, ui), DatumOf(e, s, uiZ), roundAbnormal)
    ensures roundAbnormal <==> Overflows7(FormatOf(e, s), DatumOf(e, s, ui))
  {
  }

  /** `f16_rsqrte7`, `f32_rsqrte7` and `f64_rsqrte7`, which differ in the widths alone. */
  method ClassifiedRSqrtE7(st: FloatState, ui: Word64, e: nat, s: nat) returns (uiZ: Word64, ghost raised: set<Flag>)
    requires Widths(e, s)
    modifies st`exceptionFlags
    ensures st.exceptionFlags == old(st.exceptionFlags) + raised
    ensures RSqrtOutcome(FormatOf(e, s), DatumOf(e, s, ui), Outcome(DatumOf(e, s, uiZ), raised))
  {
    hide Classify, DatumOf, Extract64, FormatOf, InfCode, CanonicalNaN, MakeMask64, NatShl, Pow2, NearRSqrt,
      NearestRSqrt, Widths, Magnitude;
    ClassIs(e, s, ui);
    SpecialWords(e, s, 0);
    SpecialWords(e, s, 1);
    FieldsOf(e, s, ui);
    WidthsBound(e, s);
    raised := {};
    var sign, c := Extract64(ui, s + e, 1), Classify(e, s, ui);
    if c == ASignalingNaN || (sign == 1 && c != AZero && c != AQuietNaN) {
      raised := {Invalid};
      st.RaiseFlags({Invalid});
      uiZ := MakeMask64(s, e) + Pow2(s - 1);
    } else if c == AQuietNaN {
      uiZ := MakeMask64(s, e) + Pow2(s - 1);
    } else if c == AZero {
      uiZ := NatShl(sign, s + e) + MakeMask64(s, e);
      raised := {Infinite};
      st.RaiseFlags({Infinite});
    } else if c == AnInfinity {
      uiZ := 0;
    } else {
      uiZ := RSqrtE7(ui, e, s, c == ASubnormal);
    }
  }
}
