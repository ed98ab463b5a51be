/** `softfloat_mulAddF32` (softfloat/s_mulAddF32.c). */
module MulAddF32 {
  import opened Arith
  import opened Powers
  import opened Rounding
  import opened Sticky
  import opened Words
  import opened RoundPack
  import opened RoundPackF32
  import opened Operations
  import opened EncodingF32
  import opened Fused

  /** The product of two significands as a 62-bit number, in units of 2^(expProd - 39) quanta. */
  predicate NormalProduct(z: nat) {
    0x2000_0000_0000_0000 <= z < 0x4000_0000_0000_0000 && z % 2 == 0
  }

  /** An addend's significand, in units of 2^(expC - 7) quanta. */
  predicate NormalAddend(c: nat) {
    0x2000_0000 <= c < 0x4000_0000 && c % 0x40 == 0
  }

  method ProductF32(expA: int, sigA: Word32, expB: int, sigB: Word32) returns (expProd: int, sigProd: Word64)
    requires NormalF32Sig(sigA) && NormalF32Sig(sigB)
    ensures expA + expB - 0x7F <= expProd <= expA + expB - 0x7E && NormalProduct(sigProd)
    ensures Scale(sigProd as real, expProd - 39) ==
      Scale(SigProduct(sigA, sigB) as real, expA + expB - 151)
  {
    hide *;
    expProd := expA + expB - 0x7E;
    ProductIs(sigA, sigB, expProd - 39);
    sigProd := (sigA * 0x80) * (sigB * 0x80);
    if sigProd < 0x2000_0000_0000_0000 {
      expProd := expProd - 1;
      DoubleProduct(sigProd, expProd - 39);
      sigProd := 2 * sigProd;
    }
    ProductNormal(sigProd);
  }

  lemma {:induction false} ProductNormal(z: nat)
    requires 0x2000_0000_0000_0000 <= z < 0x4000_0000_0000_0000 && z % 2 == 0
    ensures NormalProduct(z)
  {
  }

  lemma {:induction false} ProductIs(sigA: Word32, sigB: Word32, k: int)
    requires NormalF32Sig(sigA) && NormalF32Sig(sigB)
    ensures var z := (sigA * 0x80) * (sigB * 0x80);
      0x1000_0000_0000_0000 <= z < 0x4000_0000_0000_0000 && z % 2 == 0 &&
      Scale(z as real, k) == Scale(SigProduct(sigA, sigB) as real, k + 14)
  {
    var p := SigProduct(sigA, sigB);
    ShiftedFactors(sigA, sigB);
    MulLe(0x80_0000, sigA, sigB);
    MulLt(sigA, 0x100_0000, sigB);
    Times14(p);
    ScaleInt(p, 14);
    hide Shl, Scale;
    ScaleScale(p as real, 14, k);
    EvenProduct(p);
  }

  lemma {:induction false} ShiftedFactors(a: int, b: int)
    ensures (a * 0x80) * (b * 0x80) == (a * b) * 0x4000
  {
  }

  lemma {:induction false} EvenProduct(p: int)
    ensures p * 0x4000 % 2 == 0
  {
    DivModUnique(p * 0x4000, 2, p * 0x2000, 0);
  }

  lemma {:induction false} Times14(n: int)
    ensures Shl(n, 14) == n * 0x4000
  {
    ShlIsTimes(n, 14);
    Pow2Literals();
    assert Pow2(16) == 2 * Pow2(15);
  }

  lemma {:induction false} DoubleProduct(z: nat, k: int)
    ensures Scale((2 * z) as real, k) == Scale(z as real, k + 1) && 2 * z % 2 == 0
  {
    ScaleScale(z as real, 1, k);
    assert Scale(z as real, 1) == (2 * z) as real;
  }

  /** What rounding is given: a normalized significand faithful to `x`. */
  ghost predicate Ready(expZ: int, sigZ: nat, x: real) {
    0x4000_0000 <= sigZ < 0x8000_0000 && Faithful(6, sigZ, Scale(x, 7 - expZ))
  }

  /** A product without an addend. */
  lemma {:induction false} ProductAlone(z: Word64, expProd: int, x: real)
    requires NormalProduct(z) && x == Scale(z as real, expProd - 39)
    ensures Jam(z, 31) < 0x8000_0000 && Ready(expProd - 1, Jam(z, 31), x)
  {
    ScaleScale(z as real, expProd - 39, 8 - expProd);
    FaithfulExact(6, z);
    JamFaithful(6, z, z as real, 31);
    JamTop(z, 31, 0x4000_0000);
  }

  lemma {:induction false} JamTop(z: nat, d: nat, low: nat)
    requires (d == 31 && 0x2000_0000_0000_0000 <= z < 0x4000_0000_0000_0000) ||
      (d == 32 && 0x4000_0000_0000_0000 <= z < 0x8000_0000_0000_0000)
    ensures 0x4000_0000 <= Jam(z, d) < 0x8000_0000
  {
    ShrIsDiv(z, d);
    Pow2Literals();
  }

  /** The sum of a product and an addend of the same sign. */
  method AddFused(expProd: int, sigProd: Word64, expC: int, sigC: Word32) returns (expZ: int, sigZ: nat)
    requires NormalProduct(sigProd) && NormalAddend(sigC)
    ensures (expZ == expProd || expZ == expC || expZ == expProd - 1 || expZ == expC - 1)
    ensures Ready(expZ, sigZ, Scale(sigProd as real, expProd - 39) + Scale(sigC as real, expC - 7))
  {
    hide *;
    ghost var x := Scale(sigProd as real, expProd - 39) + Scale(sigC as real, expC - 7);
    ghost var y;
    var expDiff := expProd - expC;
    if expDiff <= 0 {
      expZ := expC;
      sigZ := sigC + ShiftRightJam64(sigProd, 32 - expDiff);
      LowSum(sigProd, sigC, -expDiff);
      y := sigC as real + Scale(sigProd as real, -32 + expDiff);
      LowScale(sigProd, expProd, expC, sigC, y);
    } else {
      expZ := expProd;
      WideAddend(sigC);
      var jammed := ShiftRightJam64(sigC * 0x1_0000_0000, expDiff);
      HighSum(sigProd, sigC, expDiff);
      var sig64Z := sigProd + jammed;
      sigZ := ShortShiftRightJam64(sig64Z, 32);
      y := Scale(sigProd as real + Scale((sigC * 0x1_0000_0000) as real, -expDiff), -32);
      HighScale(sigProd, expProd, expC, sigC, y);
    }
    Doubled(6, sigZ, y);
    ReadyEither(expZ, sigZ, x, y);
    if sigZ < 0x4000_0000 {
      expZ := expZ - 1;
      sigZ := 2 * sigZ;
    }
  }

  lemma {:induction false} WideAddend(c: Word32)
    requires NormalAddend(c)
    ensures 0x2000_0000_0000_0000 <= c * 0x1_0000_0000 < 0x4000_0000_0000_0000
  {
  }

  /** The addend has the larger exponent, or the same one. */
  lemma {:induction false} LowSum(z: Word64, c: Word32, d: nat)
    requires NormalProduct(z) && NormalAddend(c)
    ensures var s := c + Jam(z, 32 + d);
      0x2000_0000 <= s < 0x8000_0000 && Faithful(1, s, c as real + Scale(z as real, -32 - d))
  {
    EvenAddend(c);
    AddJammed(c, z, 32 + d);
    SmallShifts(0x4000_0000);
    JamBound(z, 32 + d, 32, 0x4000_0000);
    hide Jam, Faithful, Scale;
  }

  lemma {:induction false} EvenAddend(c: nat)
    requires NormalAddend(c)
    ensures c % 2 == 0
  {
    DivModUnique(c, 2, 0x20 * (c / 0x40), 0);
  }

  /** The product has the larger exponent. */
  lemma {:induction false} HighSum(z: Word64, c: Word32, d: nat)
    requires NormalProduct(z) && NormalAddend(c) && 0 < d
    ensures var sum := z + Jam(c * 0x1_0000_0000, d);
      sum < 0x8000_0000_0000_0000 && 0x2000_0000 <= Jam(sum, 32) < 0x8000_0000 &&
      Faithful(1, Jam(sum, 32), Scale(z as real + Scale((c * 0x1_0000_0000) as real, -(d as int)), -32))
  {
    var sum := z + Jam(c * 0x1_0000_0000, d);
    AddendJam(c, d);
    AddJammed(z, c * 0x1_0000_0000, d);
    JamFaithful(1, sum, z as real + Scale((c * 0x1_0000_0000) as real, -(d as int)), 32);
    SumTop(sum);
  }

  lemma {:induction false} SumTop(sum: nat)
    requires 0x2000_0000_0000_0000 <= sum < 0x7000_0000_0000_0000
    ensures 0x2000_0000 <= Jam(sum, 32) < 0x8000_0000
  {
    ShrIsDiv(sum, 32);
    Pow2Literals();
  }

  lemma {:induction false} AddendJam(c: Word32, d: nat)
    requires NormalAddend(c) && 0 < d
    ensures Jam(c * 0x1_0000_0000, d) < 0x2000_0000_0000_0000
  {
    assert Shl(0x2000_0000_0000_0000, 1) == 0x4000_0000_0000_0000;
    JamBound(c * 0x1_0000_0000, d, 1, 0x2000_0000_0000_0000);
  }

  lemma {:induction false} LowScale(z: nat, expProd: int, expC: int, c: nat, y: real)
    requires y == c as real + Scale(z as real, -32 + (expProd - expC))
    ensures Scale(y, expC - 7) == Scale(z as real, expProd - 39) + Scale(c as real, expC - 7)
  {
    var t := Scale(z as real, -32 + (expProd - expC));
    ScaleAdd(c as real, t, expC - 7);
    ScaleScale(z as real, -32 + (expProd - expC), expC - 7);
  }

  lemma {:induction false} HighScale(z: nat, expProd: int, expC: int, c: Word32, y: real)
    requires y == Scale(z as real + Scale((c * 0x1_0000_0000) as real, expC - expProd), -32)
    ensures Scale(y, expProd - 7) == Scale(z as real, expProd - 39) + Scale(c as real, expC - 7)
  {
    var t := Scale((c * 0x1_0000_0000) as real, expC - expProd);
    ScaleScale(z as real + t, -32, expProd - 7);
    ScaleAdd(z as real, t, expProd - 39);
    WordScale(c, expC - 39);
    ScaleScale((c * 0x1_0000_0000) as real, expC - expProd, expProd - 39);
  }

  lemma {:induction false} WordScale(c: Word32, k: int)
    ensures Scale((c * 0x1_0000_0000) as real, k) == Scale(c as real, k + 32)
  {
    ScaleInt(c, 32);
    SmallShifts(c);
    ScaleScale(c as real, 32, k);
  }

  /** A sum is ready as it is or doubled. */
  lemma {:induction false} ReadyEither(expZ: int, s: nat, x: real, y: real)
    requires x == Scale(y, expZ - 7) && 0x2000_0000 <= s < 0x8000_0000
    requires Faithful(6, s, y) && Faithful(6, 2 * s, 2.0 * y)
    ensures 0x4000_0000 <= s ==> Ready(expZ, s, x)
    ensures s < 0x4000_0000 ==> Ready(expZ - 1, 2 * s, x)
  {
    ScaleScale(y, expZ - 7, 7 - expZ);
    ScaleScale(y, expZ - 7, 8 - expZ);
    assert Scale(y, 1) == 2.0 * y;
  }

  /** A difference `d` of a product and an addend, faithful to `y`: exact, or with enough bits left
      that normalizing moves it by two places at most. */
  ghost predicate Difference(d: nat, y: real) {
    0 < d < 0x4000_0000_0000_0000 && (y == d as real || (Faithful(1, d, y) && 0x1000_0000_0000_0000 <= d))
  }

  lemma {:induction false} DifferenceWord(d: nat, y: real)
    requires Difference(d, y)
    ensures 0 < d < 0x4000_0000_0000_0000
  {
  }

  /** The leading bit brought to the top of a positive difference. */
  method NormalizeF32(sig64Z: Word64, expZ0: int, ghost y: real) returns (expZ: int, sigZ: nat)
    requires Difference(sig64Z, y)
    ensures expZ0 - 63 <= expZ <= expZ0 && Ready(expZ, sigZ, Scale(y, expZ0 - 39))
  {
    hide *;
    DifferenceWord(sig64Z, y);
    var count := CountLeadingZeros64(sig64Z);
    TopShifted(sig64Z, count);
    var shiftDist: int := count as int - 1;
    expZ := expZ0 - shiftDist;
    JamShl(sig64Z, shiftDist, if shiftDist < 32 then 32 - shiftDist else 0);
    ShiftedPast(sig64Z, shiftDist);
    shiftDist := shiftDist - 32;
    if shiftDist < 0 {
      sigZ := ShortShiftRightJam64(sig64Z, -shiftDist);
    } else {
      sigZ := Shl(sig64Z, shiftDist);
    }
    ReadyNormalized(sig64Z, y, expZ0, count - 1, sigZ);
  }

  /** `n` shifted left by `s` puts its leading bit at bit 62. */
  predicate LeadsAt62(n: nat, s: nat) {
    0x4000_0000_0000_0000 <= Shl(n, s) < 0x8000_0000_0000_0000
  }

  lemma {:induction false} TopShifted(n: Word64, count: nat)
    requires LeadingZeros(n, 64, count) && 0 < n < 0x4000_0000_0000_0000
    ensures 1 < count < 64 && LeadsAt62(n, count - 1)
  {
    TopClear(n, count);
    Pow2Literals();
    hide LeadingZeros, Shl;
    ShiftedZeros(n, 64, count, count - 1);
  }

  lemma {:induction false} TopClear(n: Word64, count: nat)
    requires LeadingZeros(n, 64, count) && 0 < n < 0x4000_0000_0000_0000
    ensures 1 < count < 64
  {
    if count <= 1 {
      Pow2Increases(63, 64 - count);
      Pow2Literals();
    }
  }

  lemma {:induction false} ShiftedPast(n: nat, s: nat)
    ensures 0 <= Shl(n, s)
    ensures 32 <= s ==> 0 <= Shl(n, s - 32) && Shl(n, s - 32) == Jam(Shl(n, s), 32)
  {
    ShlNonneg(n, s);
    if 32 <= s {
      ShlNonneg(n, s - 32);
      ShlShl(n, s - 32, 32);
      JamShl(Shl(n, s - 32), 32, 0);
      JamNothing(Shl(n, s - 32));
    }
  }

  lemma {:induction false} ReadyNormalized(n: nat, y: real, expZ: int, s: nat, sigZ: nat)
    requires Difference(n, y) && LeadsAt62(n, s) && sigZ == Jam(Shl(n, s), 32)
    ensures Ready(expZ - s, sigZ, Scale(y, expZ - 39))
  {
    if y != n as real {
      ShortShift(n, s);
    }
    NormalizedDifference(6, 32, 1, n, y, s);
    ScaleScale(y, expZ - 39, 7 - (expZ - s));
    JamTop(Shl(n, s), 32, 0);
  }

  lemma {:induction false} ShortShift(n: nat, s: nat)
    requires LeadsAt62(n, s) && 0x1000_0000_0000_0000 <= n
    ensures s <= 2
  {
    if 3 <= s {
      ShlShl(n, 3, s - 3);
      ShlIsTimes(n, 3);
      assert Pow2(3) == 8;
      ShlNonneg(8 * n, s - 3);
    }
  }

  /** The difference of a product and an addend of opposite signs; `cancels` when it is zero. */
  method SubtractFused(signProd: bool, expProd: int, sigProd: Word64, signC: bool, expC: int, sigC: Word32)
    returns (cancels: bool, signZ: bool, expZ: int, sigZ: nat)
    requires NormalProduct(sigProd) && NormalAddend(sigC) && signC == !signProd
    ensures var p, c := Scale(sigProd as real, expProd - 39), Scale(sigC as real, expC - 7);
      (cancels <==> p == c) &&
      (!cancels ==> (signZ == (if c < p then signProd else signC) && Ready(expZ, sigZ, Abs(p - c))))
    ensures !cancels ==> expZ <= expProd || expZ <= expC
    ensures !cancels ==> expProd - 63 <= expZ || expC - 63 <= expZ
  {
    hide *;
    cancels := false;
    signZ, expZ, sigZ := signProd, expProd, 0;
    WideAddend(sigC);
    var sig64C: Word64 := sigC * 0x1_0000_0000;
    var sig64Z;
    ghost var y;
    var expDiff := expProd - expC;
    if expDiff < 0 {
      signZ := signC;
      expZ := expC;
      y := sig64C as real - Scale(sigProd as real, expDiff);
      LowDifference(sigProd, sig64C, -expDiff, y);
      LowGap(sigProd, expProd, expC, sigC, y);
      sig64Z := Wrap64(sig64C as int - ShiftRightJam64(sigProd, -expDiff));
    } else if expDiff == 0 {
      EvenGap(sigProd, expProd, sigC);
      EvenDifference(sigProd, sig64C);
      sig64Z := Wrap64(sigProd as int - sig64C);
      y := (sigProd - sig64C) as real;
      if sig64Z == 0 {
        cancels := true;
        return;
      }
      if 0x8000_0000_0000_0000 <= sig64Z {
        signZ := !signZ;
        sig64Z := Wrap64(-(sig64Z as int));
        y := (sig64C - sigProd) as real;
      }
    } else {
      y := sigProd as real - Scale(sig64C as real, -expDiff);
      HighDifference(sigProd, sigC, expDiff, y);
      HighGap(sigProd, expProd, expC, sigC, y);
      sig64Z := Wrap64(sigProd as int - ShiftRightJam64(sig64C, expDiff));
    }
    expZ, sigZ := NormalizeF32(sig64Z, expZ, y);
  }

  /** The addend has the larger exponent. */
  lemma {:induction false} LowDifference(z: Word64, c: Word64, d: nat, y: real)
    requires NormalProduct(z) && 0x2000_0000_0000_0000 <= c < 0x4000_0000_0000_0000 && c % 0x1_0000_0000 == 0
    requires 0 < d && y == c as real - Scale(z as real, -(d as int))
    ensures Difference(Wrap64(c as int - Jam(z, d)), y) && 0.0 < y
  {
    DivModUnique(c, 2, 0x8000_0000 * (c / 0x1_0000_0000), 0);
    if d == 1 {
      assert LowBits(z, 1) == 0 && Shr(z, 1) == z / 2;
    } else {
      JamQuarter(z, d);
      SubtractJammed(c, z, d);
      hide Jam, Scale, Faithful;
      SignAt(c - Jam(z, d), y);
    }
  }

  lemma {:induction false} JamQuarter(z: nat, d: nat)
    requires z < 0x4000_0000_0000_0000 && 1 < d
    ensures Jam(z, d) < 0x1000_0000_0000_0000
  {
    assert Shl(0x1000_0000_0000_0000, 1) == 0x2000_0000_0000_0000;
    assert Shl(0x1000_0000_0000_0000, 2) == 0x4000_0000_0000_0000;
    JamBound(z, d, 2, 0x1000_0000_0000_0000);
  }

  lemma {:induction false} SignAt(n: nat, y: real)
    requires Faithful(1, n, y) && 0 < n
    ensures 0.0 < y
  {
    FaithfulAt(1, n, y, 0);
  }

  /** The product has the larger exponent: the addend loses bits only when it is far smaller. */
  lemma {:induction false} HighDifference(z: Word64, c: Word32, d: nat, y: real)
    requires NormalProduct(z) && NormalAddend(c) && 0 < d
    requires y == z as real - Scale((c * 0x1_0000_0000) as real, -(d as int))
    ensures Difference(Wrap64(z as int - Jam(c * 0x1_0000_0000, d)), y) && 0.0 < y
  {
    AddendJam(c, d);
    hide Jam, Faithful, Scale;
    if d <= 38 {
      AddendExact(c, d);
    } else {
      JamQuarter(c * 0x1_0000_0000, d);
      SubtractJammed(z, c * 0x1_0000_0000, d);
      SignAt(z - Jam(c * 0x1_0000_0000, d), y);
    }
  }

  lemma {:induction false} AddendExact(c: Word32, d: nat)
    requires NormalAddend(c) && d <= 38
    ensures Jam(c * 0x1_0000_0000, d) as real == Scale((c * 0x1_0000_0000) as real, -(d as int))
  {
    var m := c / 0x40;
    assert c == 0x40 * m;
    ShlIsTimes(m, 6);
    assert Pow2(6) == 0x40;
    SmallShifts(c);
    ShlShl(m, 6, 32);
    ShlShl(m, 38 - d, d);
    ShlNonneg(m, 38 - d);
    ShrUnique(c * 0x1_0000_0000, d, Shl(m, 38 - d), 0);
    ScaleInt(m, 38);
    ScaleInt(m, 38 - d);
    ScaleScale(m as real, 38, -(d as int));
  }

  lemma {:induction false} LowGap(z: Word64, expProd: int, expC: int, c: Word32, y: real)
    requires y == (c * 0x1_0000_0000) as real - Scale(z as real, expProd - expC) && 0.0 < y
    ensures var p, cc := Scale(z as real, expProd - 39), Scale(c as real, expC - 7);
      p < cc && Abs(p - cc) == Scale(y, expC - 39)
  {
    var t := Scale(z as real, expProd - expC);
    ScaleAdd(y, t, expC - 39);
    ScaleScale(z as real, expProd - expC, expC - 39);
    WordScale(c, expC - 39);
    ScaleSign(y, expC - 39);
    assert y + t == (c * 0x1_0000_0000) as real;
  }

  lemma {:induction false} HighGap(z: Word64, expProd: int, expC: int, c: Word32, y: real)
    requires y == z as real - Scale((c * 0x1_0000_0000) as real, expC - expProd) && 0.0 < y
    ensures var p, cc := Scale(z as real, expProd - 39), Scale(c as real, expC - 7);
      cc < p && Abs(p - cc) == Scale(y, expProd - 39)
  {
    var t := Scale((c * 0x1_0000_0000) as real, expC - expProd);
    ScaleAdd(y, t, expProd - 39);
    ScaleScale((c * 0x1_0000_0000) as real, expC - expProd, expProd - 39);
    WordScale(c, expC - 39);
    ScaleSign(y, expProd - 39);
    assert y + t == z as real;
  }

  lemma {:induction false} EvenGap(z: Word64, exp: int, c: Word32)
    ensures var p, cc, wide := Scale(z as real, exp - 39), Scale(c as real, exp - 7), c * 0x1_0000_0000;
      (p == cc <==> z == wide) && (cc < p <==> wide < z) &&
      (wide < z ==> Abs(p - cc) == Scale((z - wide) as real, exp - 39)) &&
      (z < wide ==> Abs(p - cc) == Scale((wide - z) as real, exp - 39))
  {
    WordScale(c, exp - 39);
    hide Scale;
    GapOfWhole(z, c * 0x1_0000_0000, exp - 39);
    GapOfWhole(c * 0x1_0000_0000, z, exp - 39);
  }

  /** Equal exponents: the difference is exact, in two's complement. */
  lemma {:induction false} EvenDifference(z: Word64, c: Word64)
    requires NormalProduct(z) && c < 0x4000_0000_0000_0000
    ensures var r := Wrap64(z as int - c);
      (r == 0 <==> z == c) && (0x8000_0000_0000_0000 <= r <==> z < c) &&
      (c < z ==> Difference(r, (z - c) as real)) &&
      (z < c ==> Difference(Wrap64(-(r as int)), (c - z) as real))
  {
    hide Faithful;
  }

  /** The sum of a product and an addend that are both nonzero, and whose signs and significands are
      unpacked. */
  method FusedSignificands(st: FloatState, signZ0: bool, expProd: int, sigProd: Word64, signC: bool, expC: int,
      sigC: Word32, ghost p: real, ghost c: real, ghost v: real, ghost w: real) returns (uiZ: Word32)
    requires NormalProduct(sigProd) && NormalAddend(sigC)
    requires -0x600 <= expProd <= 0x600 && -0x600 <= expC <= 0x600
    requires 0.0 <= v && 0.0 <= w && InQuanta(F32, v) == p && InQuanta(F32, w) == c
    requires p == Scale(sigProd as real, expProd - 39) && c == Scale(sigC as real, expC - 7)
    modifies st`exceptionFlags
    ensures ReturnsF32(uiZ, old(st.exceptionFlags), st.exceptionFlags,
      FusedOutcome(F32, st.Env(), signZ0, v, signC, w))
  {
    hide *;
    var signZ, expZ, sigZ := signZ0, 0, 0;
    InQuantaAdd(F32, v, w);
    if signZ0 == signC {
      expZ, sigZ := AddFused(expProd, sigProd, expC, sigC);
      FusedSum(st.Env(), signZ0, v, w);
      ReadyParts(expZ, sigZ, p + c);
      uiZ := RoundPackToF32(st, signZ, expZ, sigZ, p + c);
      RoundedIsOutcome(st.Env(), signZ, uiZ, v + w, p + c, old(st.exceptionFlags), st.exceptionFlags);
    } else {
      var cancels;
      cancels, signZ, expZ, sigZ := SubtractFused(signZ0, expProd, sigProd, signC, expC, sigC);
      FusedDifference(st.Env(), signZ0, v, signC, w, p, c);
      if cancels {
        ReturnsSpecialF32(st.roundingMode == Min, st.exceptionFlags, {});
        UnionWithNone(st.exceptionFlags);
        uiZ := PackToF32UI(st.roundingMode == Min, 0, 0);
        return;
      }
      ReadyParts(expZ, sigZ, Abs(p - c));
      uiZ := RoundPackToF32(st, signZ, expZ, sigZ, Abs(p - c));
      RoundedIsOutcome(st.Env(), signZ, uiZ, Abs(v - w), Abs(p - c), old(st.exceptionFlags), st.exceptionFlags);
    }
  }

  lemma {:induction false} ReadyParts(expZ: int, sigZ: nat, x: real)
    requires Ready(expZ, sigZ, x)
    ensures 0x4000_0000 <= sigZ < 0x8000_0000 && Faithful(6, sigZ, Scale(x, 7 - expZ))
  {
  }

  lemma {:induction false} FusedSum(env: Environment, sign: bool, v: real, w: real)
    requires 0.0 <= v && 0.0 <= w
    ensures FusedOutcome(F32, env, sign, v, sign, w) == RoundedOutcome(F32, env, sign, v + w)
  {
  }

  lemma {:induction false} FusedDifference(env: Environment, sign: bool, v: real, signC: bool, w: real,
      p: real, c: real)
    requires 0.0 <= v && 0.0 <= w && sign != signC && InQuanta(F32, v) == p && InQuanta(F32, w) == c
    ensures FusedOutcome(F32, env, sign, v, signC, w) ==
      if p == c then Outcome(Datum(env.mode == Min, 0), {})
      else RoundedOutcome(F32, env, if c < p then sign else signC, Abs(v - w))
    ensures InQuanta(F32, Abs(v - w)) == Abs(p - c)
  {
    InQuantaAdd(F32, v, w);
    InQuantaAdd(F32, w, v);
    hide RoundedOutcome, InQuanta;
  }

  /** The magnitudes of the product and of the addend, in quanta. */
  lemma {:induction false} ExactTerms(a: Word32, expA: int, sigA: Word32, b: Word32, expB: int, sigB: Word32)
    requires UnpackedF32(a, expA, sigA) && UnpackedF32(b, expB, sigB)
    ensures InQuanta(F32, Product(Magnitude(F32, DatumF32(a)), Magnitude(F32, DatumF32(b)))) ==
      Scale(SigProduct(sigA, sigB) as real, expA + expB - 151)
    ensures NormalF32Sig(sigA) && NormalF32Sig(sigB) && -22 <= expA < 0xFF && -22 <= expB < 0xFF
  {
    ProductInQuanta(F32, DatumF32(a), DatumF32(b));
    hide Scale, Product, Magnitude, DatumF32, Quanta, InQuanta;
    ScaleProduct(sigA as real, expA - 1, sigB as real, expB - 1);
    IntProduct(sigA, sigB);
    ScaleScale(SigProduct(sigA, sigB) as real, expA + expB - 2, -149);
  }

  lemma {:induction false} ExactAddend(c: Word32, expC: int, sigC: Word32)
    requires UnpackedF32(c, expC, sigC)
    ensures 0 <= sigC * 0x40 < 0x1_0000_0000 && NormalAddend(sigC * 0x40) && -22 <= expC < 0xFF
    ensures InQuanta(F32, Magnitude(F32, DatumF32(c))) == Scale((sigC * 0x40) as real, expC - 7)
  {
    InQuantaOfDatum(F32, DatumF32(c));
    hide Magnitude, InQuanta, DatumF32, Quanta;
    ShlIsTimes(sigC, 6);
    assert Pow2(6) == 0x40;
    ScaleInt(sigC, 6);
    ScaleScale(sigC as real, 6, expC - 7);
  }

  /** The addend handed to the NaN selection together with a pattern that is not signaling. */
  method PropagateNaNZC(st: FloatState, ui: Word32, c: Word32) returns (uiZ: Word32)
    requires !IsSignaling(F32, DatumF32(ui))
    modifies st`exceptionFlags
    ensures ReturnsF32(uiZ, old(st.exceptionFlags), st.exceptionFlags,
      Outcome(CanonicalNaN(F32), if IsSignaling(F32, DatumF32(c)) then {Invalid} else {}))
    ensures uiZ == DefaultNaNF32()
  {
    hide IsSignaling, DatumF32, CanonicalNaN, SignedF32;
    CanonicalF32();
    uiZ := PropagateNaNF32UI(st, ui, c);
  }

  method PropagateNaNABC(st: FloatState, a: Word32, b: Word32, c: Word32) returns (uiZ: Word32)
    modifies st`exceptionFlags
    ensures ReturnsF32(uiZ, old(st.exceptionFlags), st.exceptionFlags, Outcome(CanonicalNaN(F32),
      if IsSignaling(F32, DatumF32(a)) || IsSignaling(F32, DatumF32(b)) || IsSignaling(F32, DatumF32(c))
      then {Invalid} else {}))
  {
    hide IsSignaling, DatumF32, CanonicalNaN, SignedF32;
    CanonicalF32();
    QuietPatterns();
    uiZ := PropagateNaNF32UI(st, a, b);
    uiZ := PropagateNaNZC(st, uiZ, c);
  }

  /** The default NaN, zero and the infinities. */
  lemma {:induction false} QuietPatterns()
    ensures !IsSignaling(F32, DatumF32(DefaultNaNF32())) && !IsSignaling(F32, DatumF32(0))
    ensures !IsSignaling(F32, DatumF32(PackToF32UI(false, 0xFF, 0)))
    ensures !IsSignaling(F32, DatumF32(PackToF32UI(true, 0xFF, 0)))
  {
    InfinityPattern();
    hide *;
    QuietPattern(DefaultNaNF32());
    QuietPattern(0);
    QuietPattern(PackToF32UI(false, 0xFF, 0));
    QuietPattern(PackToF32UI(true, 0xFF, 0));
  }

  lemma {:induction false} InfinityPattern()
    ensures DefaultNaNF32() == 0x7FC0_0000
    ensures PackToF32UI(false, 0xFF, 0) == 0x7F80_0000
    ensures PackToF32UI(true, 0xFF, 0) == 0xFF80_0000
  {
  }

  lemma {:induction false} QuietPattern(ui: Word32)
    requires ui == 0x7FC0_0000 || ui == 0 || ui == 0x7F80_0000 || ui == 0xFF80_0000
    ensures !IsSignaling(F32, DatumF32(ui))
  {
    SignalingF32(ui);
    hide IsSignaling, DatumF32;
  }

  /** An infinite product, whose other factor is zero unless `magBits`. */
  method InfProdArg(st: FloatState, signZ: bool, magBits: bool, c: Word32, signC: bool) returns (uiZ: Word32)
    modifies st`exceptionFlags
    ensures ReturnsF32(uiZ, old(st.exceptionFlags), st.exceptionFlags,
      if !magBits then Invalidated(F32)
      else if IsNaN(F32, DatumF32(c))
        then Outcome(CanonicalNaN(F32), if IsSignaling(F32, DatumF32(c)) then {Invalid} else {})
      else if IsInf(F32, DatumF32(c)) && signC != signZ then Invalidated(F32)
      else Outcome(Infinity(F32, signZ), {}))
  {
    hide *;
    ClassF32(c);
    QuietPatterns();
    ReturnsSpecialF32(signZ, st.exceptionFlags, {});
    UnionWithNone(st.exceptionFlags);
    if magBits {
      uiZ := PackToF32UI(signZ, 0xFF, 0);
      if ExpF32UI(c) != 0xFF {
        return;
      }
      if FracF32UI(c) != 0 {
        uiZ := PropagateNaNZC(st, uiZ, c);
        return;
      }
      if signZ == signC {
        return;
      }
    }
    ghost var was := st.exceptionFlags;
    st.RaiseFlags({Invalid});
    uiZ := PropagateNaNZC(st, DefaultNaNF32(), c);
    InvalidStays(uiZ, was, st.exceptionFlags, DatumF32(c));
  }

  lemma {:induction false} InvalidStays(uiZ: Word32, was: set<Flag>, now: set<Flag>, c: Datum)
    requires ReturnsF32(uiZ, was + {Invalid}, now,
      Outcome(CanonicalNaN(F32), if IsSignaling(F32, c) then {Invalid} else {}))
    ensures ReturnsF32(uiZ, was, now, Invalidated(F32))
  {
    hide IsSignaling, CanonicalNaN, SignedF32;
    assert was + {Invalid} + {Invalid} == was + {Invalid};
    assert was + {Invalid} + {} == was + {Invalid};
  }

  lemma {:induction false} FusedZeroAddend(env: Environment, sign: bool, v: real, signC: bool, w: real)
    requires 0.0 < v && w == 0.0
    ensures FusedOutcome(F32, env, sign, v, signC, w) == RoundedOutcome(F32, env, sign, v)
  {
    hide RoundedOutcome;
  }

  lemma {:induction false} NonzeroTerms(a: Datum, b: Datum, c: Datum)
    requires !IsZero(a) && !IsZero(b)
    ensures 0.0 < Product(Magnitude(F32, a), Magnitude(F32, b))
    ensures IsZero(c) ==> Magnitude(F32, c) == 0.0
  {
    hide Magnitude;
  }

  /** Finite operands with a nonzero product. */
  method FusedOperands(st: FloatState, signZ: bool, signC: bool, a: Word32, expA0: int, sigA0: Word32,
      b: Word32, expB0: int, sigB0: Word32, c: Word32, expC0: int, sigC0: Word32) returns (uiZ: Word32)
    requires expA0 == ExpF32UI(a) < 0xFF && sigA0 == FracF32UI(a) && !(expA0 == 0 && sigA0 == 0)
    requires expB0 == ExpF32UI(b) < 0xFF && sigB0 == FracF32UI(b) && !(expB0 == 0 && sigB0 == 0)
    requires expC0 == ExpF32UI(c) < 0xFF && sigC0 == FracF32UI(c)
    modifies st`exceptionFlags
    ensures ReturnsF32(uiZ, old(st.exceptionFlags), st.exceptionFlags, FusedOutcome(F32, st.Env(), signZ,
      Product(Magnitude(F32, DatumF32(a)), Magnitude(F32, DatumF32(b))), signC, Magnitude(F32, DatumF32(c))))
  {
    hide *;
    var expA, sigA, expB, sigB, expC, sigC := expA0, sigA0, expB0, sigB0, expC0, sigC0;
    ClassF32(a);
    ClassF32(b);
    ClassF32(c);
    NonzeroTerms(DatumF32(a), DatumF32(b), DatumF32(c));
    if expA == 0 {
      expA, sigA := NormSubnormalF32Sig(sigA);
      UnpackedSubnormalF32(a, expA, sigA);
    } else {
      UnpackedNormalF32(a);
    }
    if expB == 0 {
      expB, sigB := NormSubnormalF32Sig(sigB);
      UnpackedSubnormalF32(b, expB, sigB);
    } else {
      UnpackedNormalF32(b);
    }
    sigA, sigB := WithHiddenF32(sigA), WithHiddenF32(sigB);
    ghost var v := Product(Magnitude(F32, DatumF32(a)), Magnitude(F32, DatumF32(b)));
    ghost var w := Magnitude(F32, DatumF32(c));
    ghost var p := Scale(SigProduct(sigA, sigB) as real, expA + expB - 151);
    ExactTerms(a, expA, sigA, b, expB, sigB);
    var expProd, sigProd := ProductF32(expA, sigA, expB, sigB);
    if expC == 0 {
      if sigC == 0 {
        ProductAlone(sigProd, expProd, p);
        FusedZeroAddend(st.Env(), signZ, v, signC, w);
        var sigZ := ShortShiftRightJam64(sigProd, 31);
        ReadyParts(expProd - 1, sigZ, p);
        uiZ := RoundPackToF32(st, signZ, expProd - 1, sigZ, p);
        RoundedIsOutcome(st.Env(), signZ, uiZ, v, p, old(st.exceptionFlags), st.exceptionFlags);
        return;
      }
      expC, sigC := NormSubnormalF32Sig(sigC);
      UnpackedSubnormalF32(c, expC, sigC);
    } else {
      UnpackedNormalF32(c);
    }
    sigC := WithHiddenF32(sigC);
    ExactAddend(c, expC, sigC);
    ghost var cc := Scale((sigC * 0x40) as real, expC - 7);
    uiZ := FusedSignificands(st, signZ, expProd, sigProd, signC, expC, sigC * 0x40, p, cc, v, w);
  }

  lemma {:induction false} PassedIff(op: MulAddOp, a: Datum, b: Datum, c: Datum)
    ensures AddendAsPassed(F32, op, a, b, c) <==>
      (IsFinite(F32, a) && IsFinite(F32, b) &&
      (IsInf(F32, c) || (IsFinite(F32, c) && (IsZero(a) || IsZero(b)) &&
      (!IsZero(c) || ((a.sign != b.sign) != (op == SubProd)) == (c.sign != (op == SubC))))))
  {
  }

  /** 1 * 1 minus infinity, and 0 * 0 minus 1: the addend is handed back unnegated. */
  lemma {:induction false} AddendNotNegated(env: Environment)
    ensures var one, zero, inf := DatumF32(0x3F80_0000), DatumF32(0), DatumF32(0x7F80_0000);
      AddendAsPassed(F32, SubC, one, one, inf) && AddendAsPassed(F32, SubC, zero, zero, one) &&
      MultiplyAddOp(F32, env, SubC, one, one, inf) != Outcome(inf, {}) &&
      MultiplyAddOp(F32, env, SubC, zero, zero, one) != Outcome(one, {})
  {
    var one, zero, inf := DatumF32(0x3F80_0000), DatumF32(0), DatumF32(0x7F80_0000);
    ClassF32(0x3F80_0000);
    ClassF32(0);
    ClassF32(0x7F80_0000);
    hide MultiplyAddOp, InfCode, IsFinite, IsInf, IsZero;
    AddendReturned(F32, env, SubC, one, one, inf);
    AddendReturned(F32, env, SubC, zero, zero, one);
  }

  /** `softfloat_mulAddF32`. */
  method MulAddF32(st: FloatState, a: Word32, b: Word32, c: Word32, op: MulAddOp) returns (uiZ: Word32)
    modifies st`exceptionFlags
    ensures ReturnsF32(uiZ, old(st.exceptionFlags), st.exceptionFlags,
      if op == SubC && AddendAsPassed(F32, op, DatumF32(a), DatumF32(b), DatumF32(c))
      then Outcome(DatumF32(c), {})
      else MultiplyAddOp(F32, st.Env(), op, DatumF32(a), DatumF32(b), DatumF32(c)))
  {
    hide *;
    var signA, expA: int, sigA := SignF32UI(a), ExpF32UI(a), FracF32UI(a);
    var signB, expB: int, sigB := SignF32UI(b), ExpF32UI(b), FracF32UI(b);
    var signC, expC: int, sigC := SignF32UI(c) != (op == SubC), ExpF32UI(c), FracF32UI(c);
    var signZ := (signA != signB) != (op == SubProd);
    ClassF32(a);
    ClassF32(b);
    ClassF32(c);
    MulAddOpSpecial(F32, st.Env(), op, DatumF32(a), DatumF32(b), DatumF32(c));
    PassedIff(op, DatumF32(a), DatumF32(b), DatumF32(c));
    ReturnsSpecialF32(signZ, st.exceptionFlags, {});
    ReturnsSpecialF32(st.roundingMode == Min, st.exceptionFlags, {});
    ReturnsItself(c, st.exceptionFlags);
    UnionWithNone(st.exceptionFlags);
    if expA == 0xFF {
      if sigA != 0 || (expB == 0xFF && sigB != 0) {
        uiZ := PropagateNaNABC(st, a, b, c);
        return;
      }
      uiZ := InfProdArg(st, signZ, expB != 0 || sigB != 0, c, signC);
      return;
    }
    if expB == 0xFF {
      if sigB != 0 {
        uiZ := PropagateNaNABC(st, a, b, c);
        return;
      }
      uiZ := InfProdArg(st, signZ, expA != 0 || sigA != 0, c, signC);
      return;
    }
    if expC == 0xFF {
      if sigC != 0 {
        QuietPatterns();
        uiZ := PropagateNaNZC(st, 0, c);
        return;
      }
      AddendReturned(F32, st.Env(), op, DatumF32(a), DatumF32(b), DatumF32(c));
      uiZ := c;
      return;
    }
    if (expA == 0 && sigA == 0) || (expB == 0 && sigB == 0) {
      uiZ := c;
      if expC == 0 && sigC == 0 && signZ != signC {
        MulAddOpZeros(F32, st.Env(), op, DatumF32(a), DatumF32(b), DatumF32(c));
        uiZ := PackToF32UI(st.roundingMode == Min, 0, 0);
      } else {
        AddendReturned(F32, st.Env(), op, DatumF32(a), DatumF32(b), DatumF32(c));
      }
      return;
    }
    MulAddOpFinite(F32, st.Env(), op, DatumF32(a), DatumF32(b), DatumF32(c));
    uiZ := FusedOperands(st, signZ, signC, a, expA, sigA, b, expB, sigB, c, expC, sigC);
  }
}
