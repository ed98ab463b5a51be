/** `softfloat_mulAddF64` (softfloat/s_mulAddF64.c, the SOFTFLOAT_FAST_INT64 half). */
module MulAddF64 {
  import opened Arith
  import opened Powers
  import opened Rounding
  import opened Sticky
  import opened Words
  import opened Products
  import opened RoundPack
  import opened RoundPackF64
  import opened Operations
  import opened EncodingF64
  import opened Fused

  /** The product of two significands as a 126-bit number, in units of 2^(expZ - 74) quanta. */
  predicate NormalProduct(z: nat) {
    0x2000_0000_0000_0000_0000_0000_0000_0000 <= z < 0x4000_0000_0000_0000_0000_0000_0000_0000 && z % 2 == 0
  }

  /** An addend's significand, in units of 2^(expC - 10) quanta. */
  predicate NormalAddend(c: nat) {
    0x2000_0000_0000_0000 <= c < 0x4000_0000_0000_0000 && c % 0x200 == 0
  }

  method ProductF64(expA: int, sigA: Word64, expB: int, sigB: Word64) returns (expZ: int, sig128Z: U128)
    requires NormalF64Sig(sigA) && NormalF64Sig(sigB)
    ensures expA + expB - 0x3FF <= expZ <= expA + expB - 0x3FE && NormalProduct(sig128Z.Val())
    ensures Scale(sig128Z.Val() as real, expZ - 74) ==
      Scale(SigProduct(sigA, sigB) as real, expA + expB - 1076)
  {
    hide *;
    Shifted10(sigA);
    Shifted10(sigB);
    expZ := expA + expB - 0x3FE;
    sig128Z := Mul64To128(sigA * 0x400, sigB * 0x400);
    ProductIs(sigA, sigB, sig128Z.Val(), expZ - 74);
    HighWord(sig128Z);
    if sig128Z.v64 < 0x2000_0000_0000_0000 {
      expZ := expZ - 1;
      DoubleProduct(sig128Z, expZ - 74);
      sig128Z := Add128(sig128Z, sig128Z);
    }
  }

  lemma {:induction false} Shifted10(sig: Word64)
    requires NormalF64Sig(sig)
    ensures 0x4000_0000_0000_0000 <= sig * 0x400 < 0x8000_0000_0000_0000
  {
  }

  lemma {:induction false} ProductIs(sigA: Word64, sigB: Word64, z: nat, k: int)
    requires NormalF64Sig(sigA) && NormalF64Sig(sigB) && z == (sigA * 0x400) * (sigB * 0x400)
    ensures 0x1000_0000_0000_0000_0000_0000_0000_0000 <= z < 0x4000_0000_0000_0000_0000_0000_0000_0000
    ensures z % 2 == 0 && Scale(z as real, k) == Scale(SigProduct(sigA, sigB) as real, k + 20)
  {
    var p := SigProduct(sigA, sigB);
    ShiftedFactors(sigA, sigB);
    ProductBounds(sigA, sigB, p);
    Times20(p);
    ScaleInt(p, 20);
    hide Shl, Scale;
    ScaleScale(p as real, 20, k);
    EvenProduct(p);
  }

  lemma {:induction false} ShiftedFactors(a: int, b: int)
    ensures (a * 0x400) * (b * 0x400) == (a * b) * 0x10_0000
  {
  }

  lemma {:induction false} EvenProduct(p: int)
    ensures p * 0x10_0000 % 2 == 0
  {
    DivModUnique(p * 0x10_0000, 2, p * 0x8_0000, 0);
  }

  lemma {:induction false} Times20(n: int)
    ensures Shl(n, 20) == n * 0x10_0000
  {
    ShlIsTimes(n, 20);
    Pow2Literals();
    Pow2Add(16, 4);
    assert Pow2(4) == 16;
  }

  lemma {:induction false} ProductBounds(a: nat, b: nat, p: nat)
    requires NormalF64Sig(a) && NormalF64Sig(b) && p == a * b
    ensures 0x100_0000_0000_0000_0000_0000_0000 <= p < 0x400_0000_0000_0000_0000_0000_0000
  {
    MulLe(0x10_0000_0000_0000, a, b);
    MulLt(a, 0x20_0000_0000_0000, b);
  }

  lemma {:induction false} HighWord(z: U128)
    ensures z.v64 < 0x2000_0000_0000_0000 <==> z.Val() < 0x2000_0000_0000_0000_0000_0000_0000_0000
    ensures NormalProduct(z.Val()) <==>
      (0x2000_0000_0000_0000_0000_0000_0000_0000 <= z.Val() && z.Val() % 2 == 0 &&
      z.Val() < 0x4000_0000_0000_0000_0000_0000_0000_0000)
  {
  }

  lemma {:induction false} DoubleProduct(z: U128, k: int)
    requires 0x1000_0000_0000_0000_0000_0000_0000_0000 <= z.Val() < 0x2000_0000_0000_0000_0000_0000_0000_0000
    ensures NormalProduct(Add128(z, z).Val())
    ensures Scale(Add128(z, z).Val() as real, k) == Scale(z.Val() as real, k + 1)
  {
    hide Scale, Add128;
    assert Add128(z, z).Val() == 2 * z.Val();
    DoubledScale(z.Val(), k);
  }

  lemma {:induction false} DoubledScale(n: nat, k: int)
    ensures Scale((2 * n) as real, k) == Scale(n as real, k + 1)
  {
    ScaleScale(n as real, 1, k);
    assert Scale(n as real, 1) == (2 * n) as real;
  }

  /** What rounding is given: a normalized significand faithful to `x`. */
  ghost predicate Ready(expZ: int, sigZ: Word64, x: real) {
    0x4000_0000_0000_0000 <= sigZ < 0x8000_0000_0000_0000 && Faithful(9, sigZ, Scale(x, 10 - expZ))
  }

  /** A product without an addend. */
  lemma {:induction false} ProductAlone(z: U128, expZ: int, x: real)
    requires NormalProduct(z.Val()) && x == Scale(z.Val() as real, expZ - 74)
    ensures 2 * z.v64 < 0x8000_0000_0000_0000
    ensures Ready(expZ - 1, OrOne64(2 * z.v64, z.v0 != 0), x)
  {
    DoubledHigh(z);
    ScaleScale(z.Val() as real, expZ - 74, 11 - expZ);
    hide Faithful, Scale;
    FaithfulCoarser(1, 9, OrOne(2 * z.v64, z.v0 != 0), Scale(z.Val() as real, -63));
  }

  /** The sum of a product and an addend of the same sign. */
  method AddFused(expProd: int, sig128Z0: U128, expC: int, sigC: Word64) returns (expZ: int, sigZ: Word64)
    requires NormalProduct(sig128Z0.Val()) && NormalAddend(sigC)
    ensures (expZ == expProd || expZ == expC || expZ == expProd - 1 || expZ == expC - 1)
    ensures Ready(expZ, sigZ, Scale(sig128Z0.Val() as real, expProd - 74) + Scale(sigC as real, expC - 10))
  {
    hide *;
    expZ := expProd;
    var sig128Z := sig128Z0;
    ghost var x := Scale(sig128Z0.Val() as real, expProd - 74) + Scale(sigC as real, expC - 10);
    ghost var y;
    var expDiff := expZ - expC;
    if expDiff <= 0 {
      if expDiff < 0 {
        expZ := expC;
        sig128Z := U128(ShiftRightJam64(sig128Z.v64, -expDiff), sig128Z.v0);
      }
      LowSum(sig128Z0, sigC, -expDiff);
      JamByZero(sig128Z0);
      y := sigC as real + Scale(sig128Z0.Val() as real, -64 + expDiff);
      LowScale(sig128Z0.Val(), expProd, expC, sigC, y);
      sigZ := OrOne64(sigC + sig128Z.v64, sig128Z.v0 != 0);
    } else {
      var sig128C := ShiftRightJam128(U128(sigC, 0), expDiff);
      HighSum(sig128Z0, sigC, expDiff, sig128C);
      sig128Z := Add128(sig128Z, sig128C);
      y := Scale(sig128Z0.Val() as real + Scale(U128(sigC, 0).Val() as real, -expDiff), -64);
      HighScale(sig128Z0.Val(), expProd, expC, sigC, y);
      sigZ := OrOne64(sig128Z.v64, sig128Z.v0 != 0);
    }
    Doubled(9, sigZ, y);
    ReadyEither(expZ, sigZ, x, y);
    if sigZ < 0x4000_0000_0000_0000 {
      expZ := expZ - 1;
      sigZ := 2 * sigZ;
    }
  }

  lemma {:induction false} JamByZero(z: U128)
    ensures Jam(z.v64, 0) == z.v64
  {
  }

  /** The addend has the larger exponent, or the same one. */
  lemma {:induction false} LowSum(z: U128, c: Word64, d: nat)
    requires NormalProduct(z.Val()) && NormalAddend(c)
    ensures c + Jam(z.v64, d) < 0x8000_0000_0000_0000
    ensures var s := OrOne64(c + Jam(z.v64, d), z.v0 != 0);
      0x2000_0000_0000_0000 <= s < 0x8000_0000_0000_0000 &&
      Faithful(1, s, c as real + Scale(z.Val() as real, -64 - d))
  {
    JamHigh(z, d);
    JamSmall(z, d);
    hide Faithful, Jam, Scale, OrOne;
    EvenAddend(c);
    AddJammed(c, z.Val(), 64 + d);
    OrOneOfSum(c, Jam(z.v64, d), z.v0 != 0);
  }

  lemma {:induction false} EvenAddend(c: Word64)
    requires NormalAddend(c)
    ensures c % 2 == 0
  {
    DivModUnique(c, 2, 0x100 * (c / 0x200), 0);
  }

  lemma {:induction false} JamSmall(z: U128, d: nat)
    requires NormalProduct(z.Val())
    ensures Jam(z.v64, d) < 0x4000_0000_0000_0000
  {
    assert Shl(0x4000_0000_0000_0000, 0) == 0x4000_0000_0000_0000;
    if d == 0 {
      assert Jam(z.v64, 0) == z.v64;
    } else {
      JamBound(z.v64, d, 0, 0x4000_0000_0000_0000);
    }
  }

  lemma {:induction false} OrOneOfSum(c: nat, w: nat, bit: bool)
    requires NormalAddend(c) && w < 0x4000_0000_0000_0000
    ensures OrOne(c + w, bit) == c + OrOne(w, bit)
    ensures c <= OrOne(c + w, bit) < 0x8000_0000_0000_0000
  {
    DivModUnique(c, 2, 0x100 * (c / 0x200), 0);
  }

  /** The product has the larger exponent. */
  lemma {:induction false} HighSum(z: U128, c: Word64, d: nat, sig128C: U128)
    requires NormalProduct(z.Val()) && NormalAddend(c) && 0 < d && sig128C.Val() == Jam(U128(c, 0).Val(), d)
    ensures var sum := Add128(z, sig128C);
      var s := OrOne64(sum.v64, sum.v0 != 0);
      0x2000_0000_0000_0000 <= s < 0x8000_0000_0000_0000 &&
      Faithful(1, s, Scale(z.Val() as real + Scale(U128(c, 0).Val() as real, -(d as int)), -64))
  {
    var sum := Add128(z, sig128C);
    AddendJam(c, d);
    AddJammed(z.Val(), U128(c, 0).Val(), d);
    JamHigh(sum, 0);
    JamNothing(sum.v64);
    hide Jam, Faithful, Scale, Add128, OrOne;
    SumBounds(z, sig128C);
    JamFaithful(1, sum.Val(), z.Val() as real + Scale(U128(c, 0).Val() as real, -(d as int)), 64);
    OddHigh(sum);
  }

  lemma {:induction false} AddendJam(c: Word64, d: nat)
    requires NormalAddend(c) && 0 < d
    ensures Jam(U128(c, 0).Val(), d) < 0x2000_0000_0000_0000_0000_0000_0000_0000
  {
    assert Shl(0x2000_0000_0000_0000_0000_0000_0000_0000, 1) == 0x4000_0000_0000_0000_0000_0000_0000_0000;
    JamBound(U128(c, 0).Val(), d, 1, 0x2000_0000_0000_0000_0000_0000_0000_0000);
  }

  lemma {:induction false} SumBounds(z: U128, c: U128)
    requires NormalProduct(z.Val()) && c.Val() < 0x2000_0000_0000_0000_0000_0000_0000_0000
    ensures var sum := Add128(z, c);
      sum.Val() == z.Val() + c.Val() && 0x2000_0000_0000_0000 <= sum.v64 < 0x7000_0000_0000_0000
  {
    assert Add128(z, c).Val() == z.Val() + c.Val();
  }

  lemma {:induction false} OddHigh(z: U128)
    requires z.v64 < 0x7000_0000_0000_0000
    ensures z.v64 <= OrOne(z.v64, z.v0 != 0) < 0x8000_0000_0000_0000
  {
  }

  lemma {:induction false} LowScale(z: nat, expProd: int, expC: int, c: nat, y: real)
    requires y == c as real + Scale(z as real, -64 + (expProd - expC))
    ensures Scale(y, expC - 10) == Scale(z as real, expProd - 74) + Scale(c as real, expC - 10)
  {
    var t := Scale(z as real, -64 + (expProd - expC));
    ScaleAdd(c as real, t, expC - 10);
    ScaleScale(z as real, -64 + (expProd - expC), expC - 10);
  }

  lemma {:induction false} HighScale(z: nat, expProd: int, expC: int, c: Word64, y: real)
    requires y == Scale(z as real + Scale(U128(c, 0).Val() as real, expC - expProd), -64)
    ensures Scale(y, expProd - 10) == Scale(z as real, expProd - 74) + Scale(c as real, expC - 10)
  {
    var t := Scale(U128(c, 0).Val() as real, expC - expProd);
    ScaleScale(z as real + t, -64, expProd - 10);
    ScaleAdd(z as real, t, expProd - 74);
    WordScale(c, expC - expProd + expProd - 74);
    ScaleScale(U128(c, 0).Val() as real, expC - expProd, expProd - 74);
  }

  lemma {:induction false} WordScale(c: Word64, k: int)
    ensures Scale(U128(c, 0).Val() as real, k) == Scale(c as real, k + 64)
  {
    ScaleInt(c, 64);
    Shl64Times(c);
    ScaleScale(c as real, 64, k);
  }

  /** A sum is ready as it is or doubled. */
  lemma {:induction false} ReadyEither(expZ: int, s: Word64, x: real, y: real)
    requires x == Scale(y, expZ - 10) && 0x2000_0000_0000_0000 <= s < 0x8000_0000_0000_0000
    requires Faithful(9, s, y) && Faithful(9, 2 * s, 2.0 * y)
    ensures 0x4000_0000_0000_0000 <= s ==> Ready(expZ, s, x)
    ensures s < 0x4000_0000_0000_0000 ==> Ready(expZ - 1, 2 * s, x)
  {
    ScaleScale(y, expZ - 10, 10 - expZ);
    ScaleScale(y, expZ - 10, 11 - expZ);
    assert Scale(y, 1) == 2.0 * y;
  }

  /** A difference `d` of a product and an addend, faithful to `y`: exact, or with enough bits left
      that normalizing moves it by two places at most. */
  ghost predicate Difference(d: nat, y: real) {
    0 < d < 0x4000_0000_0000_0000_0000_0000_0000_0000 &&
    (y == d as real ||
    (Faithful(65, d, y) && 0x1000_0000_0000_0000_0000_0000_0000_0000 <= d))
  }

  /** The leading bit brought to the top of a positive difference. */
  method NormalizeF64(z: U128, expZ0: int, ghost y: real) returns (expZ: int, sigZ: Word64)
    requires Difference(z.Val(), y)
    ensures expZ0 - 127 <= expZ <= expZ0 && Ready(expZ, sigZ, Scale(y, expZ0 - 74))
  {
    hide *;
    expZ := expZ0;
    var sig128Z := z;
    if sig128Z.v64 == 0 {
      expZ := expZ - 64;
      sig128Z := U128(sig128Z.v0, 0);
    }
    DifferenceWords(z, y);
    var count := CountLeadingZeros64(sig128Z.v64);
    CountPositive(z, count);
    var shiftDist: int := count as int - 1;
    expZ := expZ - shiftDist;
    if shiftDist < 0 {
      sigZ := ShortShiftRightJam64(sig128Z.v64, -shiftDist);
      LowWordJammed(z);
      NothingToSet(sigZ);
    } else {
      // Only a difference that fits the low word is in place already, and then v0 is 0.
      if shiftDist != 0 {
        sig128Z := ShortShiftLeft128(sig128Z, shiftDist);
      }
      sigZ := sig128Z.v64;
      ShiftedDifference(z, count, sig128Z);
    }
    sigZ := OrOne64(sigZ, sig128Z.v0 != 0);
    ReadyNormalized(z.Val(), y, expZ0, expZ0 - expZ, sigZ);
  }

  lemma {:induction false} DifferenceWords(z: U128, y: real)
    requires Difference(z.Val(), y)
    ensures z.v64 < 0x4000_0000_0000_0000 && (z.v64 == 0 ==> 0 < z.v0)
    ensures TopWord(z) == (if z.v64 == 0 then z.v0 else z.v64)
  {
  }

  /** The word that is counted: the high one, or the low one when the high one is 0. */
  function TopWord(z: U128): Word64 {
    if z.v64 == 0 then z.v0 else z.v64
  }

  lemma {:induction false} CountPositive(z: U128, count: nat)
    requires LeadingZeros(TopWord(z), 64, count) && z.v64 < 0x4000_0000_0000_0000 && (z.v64 == 0 ==> 0 < z.v0)
    ensures count < 64 && (z.v64 != 0 ==> 1 < count)
    ensures count == 0 ==> 0x8000_0000_0000_0000 <= z.v0
    ensures 0x4000_0000_0000_0000_0000_0000_0000_0000 > z.Val()
  {
    if z.v64 != 0 && count <= 1 {
      Pow2Increases(63, 64 - count);
      Pow2Literals();
    }
    Pow2Literals();
  }

  /** `n` shifted left by `s` puts its leading bit at bit 126. */
  predicate LeadsAt126(n: nat, s: nat) {
    0x4000_0000_0000_0000_0000_0000_0000_0000 <= Shl(n, s) < 0x8000_0000_0000_0000_0000_0000_0000_0000
  }

  /** A low word whose top bit is set is jammed one place to the right. */
  lemma {:induction false} LowWordJammed(z: U128)
    requires z.v64 == 0 && 0x8000_0000_0000_0000 <= z.v0
    ensures LeadsAt126(z.Val(), 63) && Jam(z.v0, 1) == Jam(Shl(z.Val(), 63), 64)
    ensures Jam(z.v0, 1) < 0x1_0000_0000_0000_0000
  {
    JamShl(z.v0, 63, 1);
    assert Shl(0x1_0000_0000_0000_0000, 0) == 0x1_0000_0000_0000_0000;
    JamBound(z.v0, 1, 0, 0x1_0000_0000_0000_0000);
    ShlIsTimes(z.v0, 63);
    Pow2Literals();
  }

  lemma {:induction false} NothingToSet(w: Word64)
    ensures OrOne64(w, false) == w
  {
  }

  lemma {:induction false} ShiftedDifference(z: U128, count: nat, r: U128)
    requires z.v64 < 0x4000_0000_0000_0000 && LeadingZeros(TopWord(z), 64, count) && 0 < count < 64
    requires TopWord(z) != 0 && (z.v64 != 0 ==> 1 < count)
    requires var top := if z.v64 == 0 then U128(z.v0, 0) else z;
      r == if count == 1 then top else ShortShiftLeft128(top, count - 1)
    ensures var s := if z.v64 == 0 then count + 63 else count - 1;
      LeadsAt126(z.Val(), s) && OrOne64(r.v64, r.v0 != 0) == Jam(Shl(z.Val(), s), 64)
  {
    var top := if z.v64 == 0 then U128(z.v0, 0) else z;
    TopShifted(top, count, r);
    JamHigh(r, 0);
    JamNothing(r.v64);
    if z.v64 == 0 {
      Shl64Times(z.v0);
      ShlShl(z.v0, 64, count - 1);
    }
  }

  lemma {:induction false} TopShifted(top: U128, count: nat, r: U128)
    requires LeadingZeros(top.v64, 64, count) && 0 < count < 64 && top.v64 != 0
    requires r == if count == 1 then top else ShortShiftLeft128(top, count - 1)
    ensures r.Val() == Shl(top.Val(), count - 1) && LeadsAt126(top.Val(), count - 1)
  {
    NoneShiftedOut(top.v64, count);
    WideZeros(top, count);
    ShiftedZeros(top.Val(), 128, count, count - 1);
    TopPowers();
    assert Shl(top.Val(), 0) == top.Val();
  }

  lemma {:induction false} TopPowers()
    ensures Pow2(127) == 0x8000_0000_0000_0000_0000_0000_0000_0000
  {
    Pow2Literals();
    Pow2Add(63, 64);
  }

  lemma {:induction false} NoneShiftedOut(v64: Word64, count: nat)
    requires LeadingZeros(v64, 64, count) && 0 < count < 64
    ensures Shr64(v64, 64 - (count - 1)) == 0
  {
    ShlOne(65 - count);
    Pow2Increases(64 - count, 65 - count);
    ShrUnique(v64, 65 - count, 0, v64);
  }

  lemma {:induction false} ReadyNormalized(n: nat, y: real, expZ: int, s: nat, sigZ: Word64)
    requires Difference(n, y) && LeadsAt126(n, s) && sigZ == Jam(Shl(n, s), 64)
    ensures Ready(expZ - s, sigZ, Scale(y, expZ - 74))
  {
    if y != n as real {
      ShortShift(n, s);
    }
    NormalizedDifference(9, 64, 65, n, y, s);
    ScaleScale(y, expZ - 74, 10 - (expZ - s));
    TopHalf(Shl(n, s));
  }

  lemma {:induction false} ShortShift(n: nat, s: nat)
    requires LeadsAt126(n, s) && 0x1000_0000_0000_0000_0000_0000_0000_0000 <= n
    ensures s <= 2
  {
    if 3 <= s {
      ShlShl(n, 3, s - 3);
      ShlIsTimes(n, 3);
      assert Pow2(3) == 8;
      ShlNonneg(8 * n, s - 3);
    }
  }

  lemma {:induction false} TopHalf(n: nat)
    requires 0x4000_0000_0000_0000_0000_0000_0000_0000 <= n < 0x8000_0000_0000_0000_0000_0000_0000_0000
    ensures 0x4000_0000_0000_0000 <= Jam(n, 64) < 0x8000_0000_0000_0000
  {
    ShrIsDiv(n, 64);
    Pow64();
  }

  /** The difference of a product and an addend of opposite signs; `cancels` when it is zero. */
  method SubtractFused(signProd: bool, expProd: int, sig128Z0: U128, signC: bool, expC: int, sigC: Word64)
    returns (cancels: bool, signZ: bool, expZ: int, sigZ: Word64)
    requires NormalProduct(sig128Z0.Val()) && NormalAddend(sigC) && signC == !signProd
    ensures var p, c := Scale(sig128Z0.Val() as real, expProd - 74), Scale(sigC as real, expC - 10);
      (cancels <==> p == c) &&
      (!cancels ==> (signZ == (if c < p then signProd else signC) && Ready(expZ, sigZ, Abs(p - c))))
    ensures !cancels ==> expZ <= expProd || expZ <= expC
    ensures !cancels ==> expProd - 127 <= expZ || expC - 127 <= expZ
  {
    hide *;
    cancels := false;
    signZ, expZ, sigZ := signProd, expProd, 0;
    var sig128Z := sig128Z0;
    ghost var y;
    var expDiff := expProd - expC;
    if expDiff < 0 {
      expZ := expC;
      if expDiff < -1 {
        sig128Z := U128(ShiftRightJam64(sig128Z.v64, -expDiff), sig128Z.v0);
      } else {
        sig128Z := ShortShiftRightJam128(sig128Z, 1);
      }
      signZ := signC;
      y := U128(sigC, 0).Val() as real - Scale(sig128Z0.Val() as real, expDiff);
      LowDifference(sig128Z0, sigC, -expDiff, sig128Z, y);
      LowGap(sig128Z0, expProd, expC, sigC, y);
      sig128Z := Sub128(U128(sigC, 0), sig128Z);
    } else if expDiff == 0 {
      EvenGap(sig128Z0, expProd, sigC);
      y := (sig128Z0.Val() - U128(sigC, 0).Val()) as real;
      sig128Z := U128(Wrap64(sig128Z.v64 as int - sigC), sig128Z.v0);
      EvenDifference(sig128Z0, sigC, sig128Z);
      if sig128Z.v64 == 0 && sig128Z.v0 == 0 {
        cancels := true;
        return;
      }
      if 0x8000_0000_0000_0000 <= sig128Z.v64 {
        signZ := !signZ;
        y := (U128(sigC, 0).Val() - sig128Z0.Val()) as real;
        sig128Z := Sub128(U128(0, 0), sig128Z);
      }
    } else {
      var sig128C := ShiftRightJam128(U128(sigC, 0), expDiff);
      y := sig128Z0.Val() as real - Scale(U128(sigC, 0).Val() as real, -expDiff);
      HighDifference(sig128Z0, sigC, expDiff, sig128C, y);
      HighGap(sig128Z0, expProd, expC, sigC, y);
      sig128Z := Sub128(sig128Z, sig128C);
    }
    expZ, sigZ := NormalizeF64(sig128Z, expZ, y);
  }

  /** The addend has the larger exponent: its difference with a product jammed to the right. */
  lemma {:induction false} LowDifference(z: U128, c: Word64, d: nat, z': U128, y: real)
    requires NormalProduct(z.Val()) && NormalAddend(c) && 0 < d
    requires if d == 1 then z'.Val() == Jam(z.Val(), 1) else z'.v64 == Jam(z.v64, d) && z'.v0 == z.v0
    requires y == U128(c, 0).Val() as real - Scale(z.Val() as real, -(d as int))
    ensures Difference(Sub128(U128(c, 0), z').Val(), y) && 0.0 < y
  {
    if d == 1 {
      HalfExactly(z.Val());
      assert Sub128(U128(c, 0), z').Val() == U128(c, 0).Val() - z'.Val();
    } else {
      FarDifference(z, c, d, z', y);
    }
  }

  lemma {:induction false} HalfExactly(z: nat)
    requires NormalProduct(z)
    ensures Jam(z, 1) as real == Scale(z as real, -1) && 2 * Jam(z, 1) == z
  {
    assert LowBits(z, 1) == 0 && Shr(z, 1) == z / 2;
  }

  lemma {:induction false} FarDifference(z: U128, c: Word64, d: nat, z': U128, y: real)
    requires NormalProduct(z.Val()) && NormalAddend(c) && 1 < d && z'.v64 == Jam(z.v64, d) && z'.v0 == z.v0
    requires y == U128(c, 0).Val() as real - Scale(z.Val() as real, -(d as int))
    ensures Difference(Sub128(U128(c, 0), z').Val(), y) && 0.0 < y
  {
    HighJammed(z, d);
    WordsOf(z');
    JamQuarter(z, d);
    hide Jam, Scale, Faithful;
    FarBounds(c, z');
    FaithfulNegate(65, z'.Val(), Scale(z.Val() as real, -(d as int)));
    Addend65(c);
    FaithfulShift(65, -(z'.Val() as int), -Scale(z.Val() as real, -(d as int)), c / 2);
    SignAt(Sub128(U128(c, 0), z').Val(), y);
  }

  lemma {:induction false} JamQuarter(z: U128, d: nat)
    requires NormalProduct(z.Val()) && 1 < d
    ensures Jam(z.v64, d) < 0x1000_0000_0000_0000
  {
    assert Shl(0x1000_0000_0000_0000, 1) == 0x2000_0000_0000_0000;
    assert Shl(0x1000_0000_0000_0000, 2) == 0x4000_0000_0000_0000;
    JamBound(z.v64, d, 2, 0x1000_0000_0000_0000);
  }

  lemma {:induction false} FarBounds(c: Word64, z': U128)
    requires NormalAddend(c) && z'.v64 < 0x1000_0000_0000_0000
    ensures var d := Sub128(U128(c, 0), z').Val();
      d == U128(c, 0).Val() - z'.Val() &&
      0x1000_0000_0000_0000_0000_0000_0000_0000 <= d < 0x4000_0000_0000_0000_0000_0000_0000_0000
  {
  }

  lemma {:induction false} Addend65(c: Word64)
    requires NormalAddend(c)
    ensures Shl(c / 2, 65) == U128(c, 0).Val()
  {
    DivModUnique(c, 2, 0x100 * (c / 0x200), 0);
    ShlShl(c / 2, 1, 64);
    Shl64Times(c);
  }

  lemma {:induction false} SignAt(n: nat, y: real)
    requires Faithful(65, n, y) && 0 < n
    ensures 0.0 < y
  {
    FaithfulAt(65, n, y, 0);
    ShlOne(65);
  }

  lemma {:induction false} LowGap(z: U128, expProd: int, expC: int, c: Word64, y: real)
    requires y == U128(c, 0).Val() as real - Scale(z.Val() as real, expProd - expC) && 0.0 < y
    ensures var p, cc := Scale(z.Val() as real, expProd - 74), Scale(c as real, expC - 10);
      p < cc && Abs(p - cc) == Scale(y, expC - 74)
  {
    var t := Scale(z.Val() as real, expProd - expC);
    ScaleAdd(y, t, expC - 74);
    ScaleScale(z.Val() as real, expProd - expC, expC - 74);
    WordScale(c, expC - 74);
    ScaleSign(y, expC - 74);
    assert y + t == U128(c, 0).Val() as real;
  }

  lemma {:induction false} HighGap(z: U128, expProd: int, expC: int, c: Word64, y: real)
    requires y == z.Val() as real - Scale(U128(c, 0).Val() as real, expC - expProd) && 0.0 < y
    ensures var p, cc := Scale(z.Val() as real, expProd - 74), Scale(c as real, expC - 10);
      cc < p && Abs(p - cc) == Scale(y, expProd - 74)
  {
    var t := Scale(U128(c, 0).Val() as real, expC - expProd);
    ScaleAdd(y, t, expProd - 74);
    ScaleScale(U128(c, 0).Val() as real, expC - expProd, expProd - 74);
    WordScale(c, expC - 74);
    ScaleSign(y, expProd - 74);
    assert y + t == z.Val() as real;
  }

  lemma {:induction false} EvenGap(z: U128, exp: int, c: Word64)
    ensures var p, cc := Scale(z.Val() as real, exp - 74), Scale(c as real, exp - 10);
      (p == cc <==> z.Val() == U128(c, 0).Val()) && (cc < p <==> U128(c, 0).Val() < z.Val()) &&
      (U128(c, 0).Val() < z.Val() ==>
        Abs(p - cc) == Scale((z.Val() - U128(c, 0).Val()) as real, exp - 74)) &&
      (z.Val() < U128(c, 0).Val() ==>
        Abs(p - cc) == Scale((U128(c, 0).Val() - z.Val()) as real, exp - 74))
  {
    var m, n := z.Val(), U128(c, 0).Val();
    WordScale(c, exp - 74);
    hide Scale, U128.Val;
    GapOfWhole(m, n, exp - 74);
    GapOfWhole(n, m, exp - 74);
  }

  /** Equal exponents: the difference is exact, in two's complement. */
  lemma {:induction false} EvenDifference(z: U128, c: Word64, r: U128)
    requires NormalProduct(z.Val()) && NormalAddend(c) && r == U128(Wrap64(z.v64 as int - c), z.v0)
    ensures r.v64 == 0 && r.v0 == 0 <==> z.Val() == U128(c, 0).Val()
    ensures 0x8000_0000_0000_0000 <= r.v64 <==> z.Val() < U128(c, 0).Val()
    ensures U128(c, 0).Val() < z.Val() ==> Difference(r.Val(), (z.Val() - U128(c, 0).Val()) as real)
    ensures z.Val() < U128(c, 0).Val() ==>
      Difference(Sub128(U128(0, 0), r).Val(), (U128(c, 0).Val() - z.Val()) as real)
  {
    hide *;
    EvenWords(z, c, r);
    if U128(c, 0).Val() < z.Val() {
      ExactDifference(r.Val(), (z.Val() - U128(c, 0).Val()) as real);
    } else if z.Val() < U128(c, 0).Val() {
      ExactDifference(Sub128(U128(0, 0), r).Val(), (U128(c, 0).Val() - z.Val()) as real);
    }
  }

  lemma {:induction false} ExactDifference(n: nat, y: real)
    requires y == n as real && 0 < n < 0x4000_0000_0000_0000_0000_0000_0000_0000
    ensures Difference(n, y)
  {
  }

  lemma {:induction false} HighWordLess(z: U128, c: Word64, r: U128)
    requires r == U128(Wrap64(z.v64 as int - c), z.v0)
    ensures z.v64 < c <==> z.Val() < U128(c, 0).Val()
    ensures r.v64 == z.v64 - c + if z.v64 < c then 0x1_0000_0000_0000_0000 else 0
    ensures r.Val() == z.Val() - U128(c, 0).Val() +
      if z.v64 < c then 0x1_0000_0000_0000_0000_0000_0000_0000_0000 else 0
  {
  }

  lemma {:induction false} SmallWords(z: U128, c: Word64)
    requires NormalProduct(z.Val()) && NormalAddend(c)
    ensures z.v64 < 0x4000_0000_0000_0000 && z.Val() < 0x4000_0000_0000_0000_0000_0000_0000_0000
    ensures c < 0x4000_0000_0000_0000 && U128(c, 0).Val() < 0x4000_0000_0000_0000_0000_0000_0000_0000
  {
  }

  lemma {:induction false} NegatedWords(r: U128)
    ensures r.Val() == 0 <==> r.v64 == 0 && r.v0 == 0
    ensures 0 < r.Val() ==> Sub128(U128(0, 0), r).Val() == 0x1_0000_0000_0000_0000_0000_0000_0000_0000 - r.Val()
  {
    hide Sub128;
  }

  lemma {:induction false} EvenWords(z: U128, c: Word64, r: U128)
    requires NormalProduct(z.Val()) && NormalAddend(c) && r == U128(Wrap64(z.v64 as int - c), z.v0)
    ensures U128(c, 0).Val() <= z.Val() ==> r.Val() == z.Val() - U128(c, 0).Val()
    ensures z.Val() < U128(c, 0).Val() ==>
      r.Val() == z.Val() - U128(c, 0).Val() + 0x1_0000_0000_0000_0000_0000_0000_0000_0000
    ensures 0x8000_0000_0000_0000 <= r.v64 <==> z.Val() < U128(c, 0).Val()
    ensures r.Val() == 0 <==> r.v64 == 0 && r.v0 == 0
    ensures z.Val() < U128(c, 0).Val() ==> Sub128(U128(0, 0), r).Val() == U128(c, 0).Val() - z.Val()
    ensures U128(c, 0).Val() < 0x4000_0000_0000_0000_0000_0000_0000_0000
    ensures z.Val() < 0x4000_0000_0000_0000_0000_0000_0000_0000
  {
    hide *;
    HighWordLess(z, c, r);
    SmallWords(z, c);
    NegatedWords(r);
  }

  /** The product has the larger exponent: the addend loses bits only when it is far smaller. */
  lemma {:induction false} HighDifference(z: U128, c: Word64, d: nat, sig128C: U128, y: real)
    requires NormalProduct(z.Val()) && NormalAddend(c) && 0 < d && sig128C.Val() == Jam(U128(c, 0).Val(), d)
    requires y == z.Val() as real - Scale(U128(c, 0).Val() as real, -(d as int))
    ensures Difference(Sub128(z, sig128C).Val(), y) && 0.0 < y
  {
    AddendJam(c, d);
    hide Jam, Faithful, Scale;
    assert Sub128(z, sig128C).Val() == z.Val() - sig128C.Val();
    if d <= 73 {
      AddendExact(c, d);
    } else {
      AddendFar(c, d);
      SubtractJammed(z.Val(), U128(c, 0).Val(), d);
      FaithfulCoarser(1, 65, Sub128(z, sig128C).Val(), y);
      SignAt(Sub128(z, sig128C).Val(), y);
    }
  }

  lemma {:induction false} AddendExact(c: Word64, d: nat)
    requires NormalAddend(c) && d <= 73
    ensures Jam(U128(c, 0).Val(), d) as real == Scale(U128(c, 0).Val() as real, -(d as int))
  {
    var m := c / 0x200;
    assert c == 0x200 * m;
    ShlIsTimes(m, 9);
    assert Pow2(9) == 0x200;
    Shl64Times(c);
    ShlShl(m, 9, 64);
    ShlShl(m, 73 - d, d);
    ShlNonneg(m, 73 - d);
    ShrUnique(U128(c, 0).Val(), d, Shl(m, 73 - d), 0);
    ScaleInt(m, 73);
    ScaleInt(m, 73 - d);
    ScaleScale(m as real, 73, -(d as int));
  }

  lemma {:induction false} AddendFar(c: Word64, d: nat)
    requires NormalAddend(c) && 73 < d
    ensures Jam(U128(c, 0).Val(), d) < 0x1000_0000_0000_0000_0000_0000_0000_0000
  {
    assert Shl(0x1000_0000_0000_0000_0000_0000_0000_0000, 1) == 0x2000_0000_0000_0000_0000_0000_0000_0000;
    assert Shl(0x1000_0000_0000_0000_0000_0000_0000_0000, 2) == 0x4000_0000_0000_0000_0000_0000_0000_0000;
    JamBound(U128(c, 0).Val(), d, 2, 0x1000_0000_0000_0000_0000_0000_0000_0000);
  }

  /** The sum of a product and an addend that are both nonzero, and whose signs and significands are
      unpacked. */
  method FusedSignificands(st: FloatState, signZ0: bool, expProd: int, sig128Z: U128, signC: bool, expC: int,
      sigC: Word64, ghost p: real, ghost c: real, ghost v: real, ghost w: real) returns (uiZ: Word64)
    requires NormalProduct(sig128Z.Val()) && NormalAddend(sigC)
    requires -0x3000 <= expProd <= 0x3000 && -0x3000 <= expC <= 0x3000
    requires 0.0 <= v && 0.0 <= w && InQuanta(F64, v) == p && InQuanta(F64, w) == c
    requires p == Scale(sig128Z.Val() as real, expProd - 74) && c == Scale(sigC as real, expC - 10)
    modifies st`exceptionFlags
    ensures ReturnsF64(uiZ, old(st.exceptionFlags), st.exceptionFlags,
      FusedOutcome(F64, st.Env(), signZ0, v, signC, w))
  {
    hide *;
    var signZ, expZ, sigZ := signZ0, 0, 0;
    InQuantaAdd(F64, v, w);
    if signZ0 == signC {
      expZ, sigZ := AddFused(expProd, sig128Z, expC, sigC);
      FusedSum(st.Env(), signZ0, v, w);
      ReadyParts(expZ, sigZ, p + c);
      uiZ := RoundPackToF64(st, signZ, expZ, sigZ, p + c);
      RoundedIsOutcome(st.Env(), signZ, uiZ, v + w, p + c, old(st.exceptionFlags), st.exceptionFlags);
    } else {
      var cancels;
      cancels, signZ, expZ, sigZ := SubtractFused(signZ0, expProd, sig128Z, signC, expC, sigC);
      FusedDifference(st.Env(), signZ0, v, signC, w, p, c);
      if cancels {
        ReturnsSpecialF64(st.roundingMode == Min, st.exceptionFlags, {});
        UnionWithNone(st.exceptionFlags);
        uiZ := PackToF64UI(st.roundingMode == Min, 0, 0);
        return;
      }
      ReadyParts(expZ, sigZ, Abs(p - c));
      uiZ := RoundPackToF64(st, signZ, expZ, sigZ, Abs(p - c));
      RoundedIsOutcome(st.Env(), signZ, uiZ, Abs(v - w), Abs(p - c), old(st.exceptionFlags), st.exceptionFlags);
    }
  }

  lemma {:induction false} ReadyParts(expZ: int, sigZ: Word64, x: real)
    requires Ready(expZ, sigZ, x)
    ensures 0x4000_0000_0000_0000 <= sigZ < 0x8000_0000_0000_0000 && Faithful(9, sigZ, Scale(x, 10 - expZ))
  {
  }

  lemma {:induction false} FusedSum(env: Environment, sign: bool, v: real, w: real)
    requires 0.0 <= v && 0.0 <= w
    ensures FusedOutcome(F64, env, sign, v, sign, w) == RoundedOutcome(F64, env, sign, v + w)
  {
  }

  lemma {:induction false} FusedDifference(env: Environment, sign: bool, v: real, signC: bool, w: real,
      p: real, c: real)
    requires 0.0 <= v && 0.0 <= w && sign != signC && InQuanta(F64, v) == p && InQuanta(F64, w) == c
    ensures FusedOutcome(F64, env, sign, v, signC, w) ==
      if p == c then Outcome(Datum(env.mode == Min, 0), {})
      else RoundedOutcome(F64, env, if c < p then sign else signC, Abs(v - w))
    ensures InQuanta(F64, Abs(v - w)) == Abs(p - c)
  {
    InQuantaAdd(F64, v, w);
    InQuantaAdd(F64, w, v);
    hide RoundedOutcome, InQuanta;
  }

  /** The magnitudes of the product and of the addend, in quanta. */
  lemma {:induction false} ExactTerms(a: Word64, expA: int, sigA: Word64, b: Word64, expB: int, sigB: Word64)
    requires UnpackedF64(a, expA, sigA) && UnpackedF64(b, expB, sigB)
    ensures InQuanta(F64, Product(Magnitude(F64, DatumF64(a)), Magnitude(F64, DatumF64(b)))) ==
      Scale(SigProduct(sigA, sigB) as real, expA + expB - 1076)
    ensures NormalF64Sig(sigA) && NormalF64Sig(sigB) && -51 <= expA < 0x7FF && -51 <= expB < 0x7FF
  {
    ProductInQuanta(F64, DatumF64(a), DatumF64(b));
    hide Scale, Product, Magnitude, DatumF64, Quanta, InQuanta;
    ScaleProduct(sigA as real, expA - 1, sigB as real, expB - 1);
    IntProduct(sigA, sigB);
    ScaleScale(SigProduct(sigA, sigB) as real, expA + expB - 2, -1074);
  }

  lemma {:induction false} ExactAddend(c: Word64, expC: int, sigC: Word64)
    requires UnpackedF64(c, expC, sigC)
    ensures 0 <= sigC * 0x200 < 0x1_0000_0000_0000_0000 && NormalAddend(sigC * 0x200) && -51 <= expC < 0x7FF
    ensures InQuanta(F64, Magnitude(F64, DatumF64(c))) == Scale((sigC * 0x200) as real, expC - 10)
  {
    InQuantaOfDatum(F64, DatumF64(c));
    hide Magnitude, InQuanta, DatumF64, Quanta;
    ShlIsTimes(sigC, 9);
    assert Pow2(9) == 0x200;
    ScaleInt(sigC, 9);
    ScaleScale(sigC as real, 9, expC - 10);
  }

  /** The addend handed to the NaN selection together with a pattern that is not signaling. */
  method PropagateNaNZC(st: FloatState, ui: Word64, c: Word64) returns (uiZ: Word64)
    requires !IsSignaling(F64, DatumF64(ui))
    modifies st`exceptionFlags
    ensures ReturnsF64(uiZ, old(st.exceptionFlags), st.exceptionFlags,
      Outcome(CanonicalNaN(F64), if IsSignaling(F64, DatumF64(c)) then {Invalid} else {}))
    ensures uiZ == DefaultNaNF64()
  {
    hide IsSignaling, DatumF64, CanonicalNaN, SignedF64;
    CanonicalF64();
    uiZ := PropagateNaNF64UI(st, ui, c);
  }

  method PropagateNaNABC(st: FloatState, a: Word64, b: Word64, c: Word64) returns (uiZ: Word64)
    modifies st`exceptionFlags
    ensures ReturnsF64(uiZ, old(st.exceptionFlags), st.exceptionFlags, Outcome(CanonicalNaN(F64),
      if IsSignaling(F64, DatumF64(a)) || IsSignaling(F64, DatumF64(b)) || IsSignaling(F64, DatumF64(c))
      then {Invalid} else {}))
  {
    hide IsSignaling, DatumF64, CanonicalNaN, SignedF64;
    CanonicalF64();
    QuietPatterns();
    uiZ := PropagateNaNF64UI(st, a, b);
    uiZ := PropagateNaNZC(st, uiZ, c);
  }

  /** The default NaN, zero and the infinities. */
  lemma {:induction false} QuietPatterns()
    ensures !IsSignaling(F64, DatumF64(DefaultNaNF64())) && !IsSignaling(F64, DatumF64(0))
    ensures !IsSignaling(F64, DatumF64(PackToF64UI(false, 0x7FF, 0)))
    ensures !IsSignaling(F64, DatumF64(PackToF64UI(true, 0x7FF, 0)))
  {
    InfinityPattern();
    hide *;
    QuietPattern(DefaultNaNF64());
    QuietPattern(0);
    QuietPattern(PackToF64UI(false, 0x7FF, 0));
    QuietPattern(PackToF64UI(true, 0x7FF, 0));
  }

  lemma {:induction false} InfinityPattern()
    ensures DefaultNaNF64() == 0x7FF8_0000_0000_0000
    ensures PackToF64UI(false, 0x7FF, 0) == 0x7FF0_0000_0000_0000
    ensures PackToF64UI(true, 0x7FF, 0) == 0xFFF0_0000_0000_0000
  {
  }

  lemma {:induction false} QuietPattern(ui: Word64)
    requires ui == 0x7FF8_0000_0000_0000 || ui == 0 || ui == 0x7FF0_0000_0000_0000 || ui == 0xFFF0_0000_0000_0000
    ensures !IsSignaling(F64, DatumF64(ui))
  {
    SignalingF64(ui);
    hide IsSignaling, DatumF64;
  }

  /** An infinite product, whose other factor is zero unless `magBits`. */
  method InfProdArg(st: FloatState, signZ: bool, magBits: bool, c: Word64, signC: bool) returns (uiZ: Word64)
    modifies st`exceptionFlags
    ensures ReturnsF64(uiZ, old(st.exceptionFlags), st.exceptionFlags,
      if !magBits then Invalidated(F64)
      else if IsNaN(F64, DatumF64(c))
        then Outcome(CanonicalNaN(F64), if IsSignaling(F64, DatumF64(c)) then {Invalid} else {})
      else if IsInf(F64, DatumF64(c)) && signC != signZ then Invalidated(F64)
      else Outcome(Infinity(F64, signZ), {}))
  {
    hide *;
    ClassF64(c);
    QuietPatterns();
    ReturnsSpecialF64(signZ, st.exceptionFlags, {});
    UnionWithNone(st.exceptionFlags);
    if magBits {
      uiZ := PackToF64UI(signZ, 0x7FF, 0);
      if ExpF64UI(c) != 0x7FF {
        return;
      }
      if FracF64UI(c) != 0 {
        uiZ := PropagateNaNZC(st, uiZ, c);
        return;
      }
      if signZ == signC {
        return;
      }
    }
    ghost var was := st.exceptionFlags;
    st.RaiseFlags({Invalid});
    uiZ := PropagateNaNZC(st, DefaultNaNF64(), c);
    InvalidStays(uiZ, was, st.exceptionFlags, DatumF64(c));
  }

  lemma {:induction false} InvalidStays(uiZ: Word64, was: set<Flag>, now: set<Flag>, c: Datum)
    requires ReturnsF64(uiZ, was + {Invalid}, now,
      Outcome(CanonicalNaN(F64), if IsSignaling(F64, c) then {Invalid} else {}))
    ensures ReturnsF64(uiZ, was, now, Invalidated(F64))
  {
    hide IsSignaling, CanonicalNaN, SignedF64;
    assert was + {Invalid} + {Invalid} == was + {Invalid};
    assert was + {Invalid} + {} == was + {Invalid};
  }

  lemma {:induction false} FusedZeroAddend(env: Environment, sign: bool, v: real, signC: bool, w: real)
    requires 0.0 < v && w == 0.0
    ensures FusedOutcome(F64, env, sign, v, signC, w) == RoundedOutcome(F64, env, sign, v)
  {
    hide RoundedOutcome;
  }

  lemma {:induction false} NonzeroTerms(a: Datum, b: Datum, c: Datum)
    requires !IsZero(a) && !IsZero(b)
    ensures 0.0 < Product(Magnitude(F64, a), Magnitude(F64, b))
    ensures IsZero(c) ==> Magnitude(F64, c) == 0.0
  {
    hide Magnitude;
  }

  /** Finite operands with a nonzero product. */
  method FusedOperands(st: FloatState, signZ: bool, signC: bool, a: Word64, expA0: int, sigA0: Word64,
      b: Word64, expB0: int, sigB0: Word64, c: Word64, expC0: int, sigC0: Word64) returns (uiZ: Word64)
    requires expA0 == ExpF64UI(a) < 0x7FF && sigA0 == FracF64UI(a) && !(expA0 == 0 && sigA0 == 0)
    requires expB0 == ExpF64UI(b) < 0x7FF && sigB0 == FracF64UI(b) && !(expB0 == 0 && sigB0 == 0)
    requires expC0 == ExpF64UI(c) < 0x7FF && sigC0 == FracF64UI(c)
    modifies st`exceptionFlags
    ensures ReturnsF64(uiZ, old(st.exceptionFlags), st.exceptionFlags, FusedOutcome(F64, st.Env(), signZ,
      Product(Magnitude(F64, DatumF64(a)), Magnitude(F64, DatumF64(b))), signC, Magnitude(F64, DatumF64(c))))
  {
    hide *;
    var expA, sigA, expB, sigB, expC, sigC := expA0, sigA0, expB0, sigB0, expC0, sigC0;
    ClassF64(a);
    ClassF64(b);
    ClassF64(c);
    NonzeroTerms(DatumF64(a), DatumF64(b), DatumF64(c));
    if expA == 0 {
      expA, sigA := NormSubnormalF64Sig(sigA);
      UnpackedSubnormalF64(a, expA, sigA);
    } else {
      UnpackedNormalF64(a);
    }
    if expB == 0 {
      expB, sigB := NormSubnormalF64Sig(sigB);
      UnpackedSubnormalF64(b, expB, sigB);
    } else {
      UnpackedNormalF64(b);
    }
    sigA, sigB := WithHiddenF64(sigA), WithHiddenF64(sigB);
    ghost var v := Product(Magnitude(F64, DatumF64(a)), Magnitude(F64, DatumF64(b)));
    ghost var w := Magnitude(F64, DatumF64(c));
    ghost var p := Scale(SigProduct(sigA, sigB) as real, expA + expB - 1076);
    ExactTerms(a, expA, sigA, b, expB, sigB);
    var expProd, sig128Z := ProductF64(expA, sigA, expB, sigB);
    if expC == 0 {
      if sigC == 0 {
        ProductAlone(sig128Z, expProd, p);
        FusedZeroAddend(st.Env(), signZ, v, signC, w);
        var sigZ := OrOne64(2 * sig128Z.v64, sig128Z.v0 != 0);
        ReadyParts(expProd - 1, sigZ, p);
        uiZ := RoundPackToF64(st, signZ, expProd - 1, sigZ, p);
        RoundedIsOutcome(st.Env(), signZ, uiZ, v, p, old(st.exceptionFlags), st.exceptionFlags);
        return;
      }
      expC, sigC := NormSubnormalF64Sig(sigC);
      UnpackedSubnormalF64(c, expC, sigC);
    } else {
      UnpackedNormalF64(c);
    }
    sigC := WithHiddenF64(sigC);
    ExactAddend(c, expC, sigC);
    ghost var cc := Scale((sigC * 0x200) as real, expC - 10);
    uiZ := FusedSignificands(st, signZ, expProd, sig128Z, signC, expC, sigC * 0x200, p, cc, v, w);
  }

  lemma {:induction false} PassedIff(op: MulAddOp, a: Datum, b: Datum, c: Datum)
    ensures AddendAsPassed(F64, op, a, b, c) <==>
      (IsFinite(F64, a) && IsFinite(F64, b) &&
      (IsInf(F64, c) || (IsFinite(F64, c) && (IsZero(a) || IsZero(b)) &&
      (!IsZero(c) || ((a.sign != b.sign) != (op == SubProd)) == (c.sign != (op == SubC))))))
  {
  }

  /** 1 * 1 minus infinity, and 0 * 0 minus 1: the addend is handed back unnegated. */
  lemma {:induction false} AddendNotNegated(env: Environment)
    ensures var one, zero, inf := DatumF64(0x3FF0_0000_0000_0000), DatumF64(0), DatumF64(0x7FF0_0000_0000_0000);
      AddendAsPassed(F64, SubC, one, one, inf) && AddendAsPassed(F64, SubC, zero, zero, one) &&
      MultiplyAddOp(F64, env, SubC, one, one, inf) != Outcome(inf, {}) &&
      MultiplyAddOp(F64, env, SubC, zero, zero, one) != Outcome(one, {})
  {
    var one, zero, inf := DatumF64(0x3FF0_0000_0000_0000), DatumF64(0), DatumF64(0x7FF0_0000_0000_0000);
    ClassF64(0x3FF0_0000_0000_0000);
    ClassF64(0);
    ClassF64(0x7FF0_0000_0000_0000);
    hide MultiplyAddOp, InfCode, IsFinite, IsInf, IsZero;
    AddendReturned(F64, env, SubC, one, one, inf);
    AddendReturned(F64, env, SubC, zero, zero, one);
  }

  /** `softfloat_mulAddF64`. */
  method MulAddF64(st: FloatState, a: Word64, b: Word64, c: Word64, op: MulAddOp) returns (uiZ: Word64)
    modifies st`exceptionFlags
    ensures ReturnsF64(uiZ, old(st.exceptionFlags), st.exceptionFlags,
      if op == SubC && AddendAsPassed(F64, op, DatumF64(a), DatumF64(b), DatumF64(c))
      then Outcome(DatumF64(c), {})
      else MultiplyAddOp(F64, st.Env(), op, DatumF64(a), DatumF64(b), DatumF64(c)))
  {
    hide *;
    var signA, expA: int, sigA := SignF64UI(a), ExpF64UI(a), FracF64UI(a);
    var signB, expB: int, sigB := SignF64UI(b), ExpF64UI(b), FracF64UI(b);
    var signC, expC: int, sigC := SignF64UI(c) != (op == SubC), ExpF64UI(c), FracF64UI(c);
    var signZ := (signA != signB) != (op == SubProd);
    ClassF64(a);
    ClassF64(b);
    ClassF64(c);
    MulAddOpSpecial(F64, st.Env(), op, DatumF64(a), DatumF64(b), DatumF64(c));
    PassedIff(op, DatumF64(a), DatumF64(b), DatumF64(c));
    ReturnsSpecialF64(signZ, st.exceptionFlags, {});
    ReturnsSpecialF64(st.roundingMode == Min, st.exceptionFlags, {});
    ReturnsItself(c, st.exceptionFlags);
    UnionWithNone(st.exceptionFlags);
    if expA == 0x7FF {
      if sigA != 0 || (expB == 0x7FF && sigB != 0) {
        uiZ := PropagateNaNABC(st, a, b, c);
        return;
      }
      uiZ := InfProdArg(st, signZ, expB != 0 || sigB != 0, c, signC);
      return;
    }
    if expB == 0x7FF {
      if sigB != 0 {
        uiZ := PropagateNaNABC(st, a, b, c);
        return;
      }
      uiZ := InfProdArg(st, signZ, expA != 0 || sigA != 0, c, signC);
      return;
    }
    if expC == 0x7FF {
      if sigC != 0 {
        QuietPatterns();
        uiZ := PropagateNaNZC(st, 0, c);
        return;
      }
      AddendReturned(F64, st.Env(), op, DatumF64(a), DatumF64(b), DatumF64(c));
      uiZ := c;
      return;
    }
    if (expA == 0 && sigA == 0) || (expB == 0 && sigB == 0) {
      uiZ := c;
      if expC == 0 && sigC == 0 && signZ != signC {
        MulAddOpZeros(F64, st.Env(), op, DatumF64(a), DatumF64(b), DatumF64(c));
        uiZ := PackToF64UI(st.roundingMode == Min, 0, 0);
      } else {
        AddendReturned(F64, st.Env(), op, DatumF64(a), DatumF64(b), DatumF64(c));
      }
      return;
    }
    MulAddOpFinite(F64, st.Env(), op, DatumF64(a), DatumF64(b), DatumF64(c));
    uiZ := FusedOperands(st, signZ, signC, a, expA, sigA, b, expB, sigB, c, expC, sigC);
  }
}
