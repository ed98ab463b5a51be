/** `f128_add` and `f128_sub` (softfloat/f128_add.c, softfloat/f128_sub.c, softfloat/s_addMagsF128.c,
    softfloat/s_subMagsF128.c). */
module AddF128 {
  import opened Arith
  import opened Powers
  import opened Rounding
  import opened Sticky
  import opened Words
  import opened RoundPack
  import opened RoundPackF128
  import opened Operations
  import opened EncodingF128
  import opened MulF128

  /** The significand of a finite operand, with the implicit bit of a normal one. */
  function SigF128(ui: U128): nat {
    FracF128(ui).Val() +
      if ExpF128UI64(ui.v64) == 0 then 0 else 0x1_0000_0000_0000_0000_0000_0000_0000
  }

  /** The exponent field that goes with it: 1 for a subnormal. */
  function ScaleF128(ui: U128): nat {
    if ExpF128UI64(ui.v64) == 0 then 1 else ExpF128UI64(ui.v64)
  }

  lemma {:induction false} FieldValueF128(ui: U128)
    ensures 1 <= ScaleF128(ui) && SigInRange(SigF128(ui))
    ensures Quanta(F128, DatumF128(ui).code) == Shl(SigF128(ui), ScaleF128(ui) - 1)
  {
    FieldsF128(ui);
    QuantaF128(ui);
    ShapeOfF128();
    hide DatumF128, Quanta, FracF128, ExpF128UI64;
    ShlOne(0);
  }

  lemma {:induction false} WithHiddenAdds(sig: U128)
    requires sig.v64 < 0x1_0000_0000_0000
    ensures WithHiddenF128(sig).Val() == 0x1_0000_0000_0000_0000_0000_0000_0000 + sig.Val()
  {
  }

  /** A sum on the scale of its larger term. */
  lemma {:induction false} AlignedSum(l: nat, i: nat, s: nat, j: nat, k: int)
    requires j <= i
    ensures 0 <= Shl(l, i) && 0 <= Shl(s, j)
    ensures Scale((Shl(l, i) + Shl(s, j)) as real, k) == Scale(l as real, i + k) + Scale(s as real, j + k)
  {
    ShlNonneg(l, i);
    ShlNonneg(s, j);
    ScaleInt(l, i);
    ScaleInt(s, j);
    hide Shl;
    ScaleAdd(Shl(l, i) as real, Shl(s, j) as real, k);
    ScaleScale(l as real, i, k);
    ScaleScale(s as real, j, k);
    assert (Shl(l, i) + Shl(s, j)) as real == Shl(l, i) as real + Shl(s, j) as real;
  }

  /** The smaller term shifted right by `dist`, its lost bits jammed. */
  ghost predicate Aligned(w: U128, extra: Word64, s: nat, dist: nat) {
    w.v64 < 0x1_0000_0000_0000 && Faithful(63, U128Extra(w, extra).Val(), Scale(s as real, 64 - dist))
  }

  lemma {:induction false} AlignedByShift(s: U128, dist: nat, z: U128Extra)
    requires 0 < dist && SigInRange(s.Val()) && ShiftedPlace(63, z.Val(), U128Extra(s, 0).Val(), dist)
    ensures Aligned(z.v, z.extra, s.Val(), dist)
  {
    var e := s.Val() * 0x1_0000_0000_0000_0000;
    Shl64Times(s.Val());
    ScaleInt(s.Val(), 64);
    FaithfulExact(63, e);
    ShiftedFaithful(63, z.Val(), e, e as real, dist);
    ScaleScale(s.Val() as real, 64, -(dist as int));
    ShiftedSmall(s, dist, z);
  }

  lemma {:induction false} ShiftedSmall(s: U128, dist: nat, z: U128Extra)
    requires 0 < dist && SigInRange(s.Val()) && ShiftedPlace(63, z.Val(), U128Extra(s, 0).Val(), dist)
    ensures z.v.v64 < 0x1_0000_0000_0000
  {
    UnitF128(z);
    UnitF128(U128Extra(s, 0));
    ShrShr(z.Val(), 63, 1);
    ShrShr(U128Extra(s, 0).Val(), 63 + dist, 1);
    ShrShr(U128Extra(s, 0).Val(), 64, dist);
    ShrAtMost(s.Val() / 2, dist - 1);
    hide Shr, LowBits;
    assert z.v.Val() == Shr(s.Val(), dist);
  }

  lemma {:induction false} AlignedAlready(s: U128)
    requires s.v64 < 0x1_0000_0000_0000
    ensures Aligned(s, 0, s.Val(), 0)
  {
    Shl64Times(s.Val());
    ScaleInt(s.Val(), 64);
    FaithfulExact(63, s.Val() * 0x1_0000_0000_0000_0000);
  }

  lemma {:induction false} SumFaithful(lFrac: U128, w: U128, extra: Word64, s: nat, dist: nat, x: real, expZ: int,
      sigZ: U128)
    requires Aligned(w, extra, s, dist) && lFrac.v64 < 0x1_0000_0000_0000
    requires var l := lFrac.Val() + 0x1_0000_0000_0000_0000_0000_0000_0000;
      Scale(x, 65 - expZ) == Scale(l as real, 64) + Scale(s as real, 64 - dist)
    requires sigZ.Val() == lFrac.Val() + 0x1_0000_0000_0000_0000_0000_0000_0000 + w.Val()
    ensures Faithful(63, U128Extra(sigZ, extra).Val(), Scale(x, 65 - expZ))
    ensures 0x1_0000_0000_0000_0000_0000_0000_0000 <= sigZ.Val() < 0x3_0000_0000_0000_0000_0000_0000_0000
  {
    var l := lFrac.Val() + 0x1_0000_0000_0000_0000_0000_0000_0000;
    FaithfulShift(63, U128Extra(w, extra).Val(), Scale(s as real, 64 - dist), 2 * l);
    ShlShl(l, 1, 63);
    Shl64Times(l);
    ScaleInt(l, 64);
    hide Faithful, Scale, Shl;
    assert Shl(2 * l, 63) == l * 0x1_0000_0000_0000_0000;
    assert U128Extra(w, extra).Val() + l * 0x1_0000_0000_0000_0000 == U128Extra(sigZ, extra).Val();
  }

  /** The aligned terms added and rounded.  The implicit bit of the larger term is set in `sigA`,
      which may be the smaller one. */
  method AddAligned(st: FloatState, signZ: bool, expZ0: int, sigA: U128, sigB: U128, sigZExtra0: Word64,
      ghost lFrac: U128, ghost w: U128, ghost s: nat, ghost dist: nat, ghost x: real) returns (uiZ: U128)
    requires (sigA == lFrac && sigB == w) || (sigA == w && sigB == lFrac)
    requires 1 <= expZ0 < 0x7FFF && Aligned(w, sigZExtra0, s, dist) && lFrac.v64 < 0x1_0000_0000_0000
    requires var l := lFrac.Val() + 0x1_0000_0000_0000_0000_0000_0000_0000;
      Scale(x, 65 - expZ0) == Scale(l as real, 64) + Scale(s as real, 64 - dist)
    modifies st`exceptionFlags
    ensures 0.0 <= x && uiZ.Val() == SignedF128(signZ, Delivered(F128, st.roundingMode, signZ, x))
    ensures st.exceptionFlags ==
      old(st.exceptionFlags) + Signals(F128, st.detectTininess, st.roundingMode, signZ, x)
  {
    hide *;
    var expZ, sigZExtra := expZ0, sigZExtra0;
    SmallSum(lFrac, w, sigZExtra, s, dist);
    WithHiddenAdds(sigA);
    var sigZ := Add128(WithHiddenF128(sigA), sigB);
    SumFaithful(lFrac, w, sigZExtra, s, dist, x, expZ, sigZ);
    WordBound(sigZ);
    expZ := expZ - 1;
    if 0x2_0000_0000_0000 <= sigZ.v64 {
      expZ := expZ + 1;
      var sig128Extra := ShortShiftRightJam128Extra(sigZ, sigZExtra, 1);
      HalvedFaithful(sigZ, sigZExtra, sig128Extra, x, expZ);
      sigZ := sig128Extra.v;
      sigZExtra := sig128Extra.extra;
    }
    uiZ := RoundPackToF128(st, signZ, expZ, sigZ, sigZExtra, x);
  }

  lemma {:induction false} SmallSum(lFrac: U128, w: U128, extra: Word64, s: nat, dist: nat)
    requires Aligned(w, extra, s, dist) && lFrac.v64 < 0x1_0000_0000_0000
    ensures w.v64 < 0x1_0000_0000_0000
    ensures lFrac.Val() + w.Val() < 0x2_0000_0000_0000_0000_0000_0000_0000
  {
  }

  /** Two normal numbers of one exponent: the sum has a bit more, which is set all at once. */
  method AddEqualExp(st: FloatState, signZ: bool, expZ: int, sigA: U128, sigB: U128, ghost x: real)
    returns (uiZ: U128)
    requires 1 <= expZ < 0x7FFF && sigA.v64 < 0x1_0000_0000_0000 && sigB.v64 < 0x1_0000_0000_0000
    requires var sum := sigA.Val() + sigB.Val() + 0x2_0000_0000_0000_0000_0000_0000_0000;
      x == Scale(sum as real, expZ - 1)
    modifies st`exceptionFlags
    ensures 0.0 <= x && uiZ.Val() == SignedF128(signZ, Delivered(F128, st.roundingMode, signZ, x))
    ensures st.exceptionFlags ==
      old(st.exceptionFlags) + Signals(F128, st.detectTininess, st.roundingMode, signZ, x)
  {
    hide *;
    var sum := Add128(sigA, sigB);
    var sigZ := U128(WithBit(sum.v64), sum.v0);
    BitSet(sigA, sigB, sum, sigZ);
    var sig128Extra := ShortShiftRightJam128Extra(sigZ, 0, 1);
    ExactlyFaithful(sigZ, x, expZ);
    HalvedFaithful(sigZ, 0, sig128Extra, x, expZ);
    uiZ := RoundPackToF128(st, signZ, expZ, sig128Extra.v, sig128Extra.extra, x);
  }

  /** `w | 0x0002000000000000`. */
  function WithBit(w: Word64): Word64 {
    if w / 0x2_0000_0000_0000 % 2 == 0 && w + 0x2_0000_0000_0000 < 0x1_0000_0000_0000_0000
    then w + 0x2_0000_0000_0000 else w
  }

  lemma {:induction false} BitSet(sigA: U128, sigB: U128, sum: U128, sigZ: U128)
    requires sigA.v64 < 0x1_0000_0000_0000 && sigB.v64 < 0x1_0000_0000_0000
    requires sum == Add128(sigA, sigB) && sigZ == U128(WithBit(sum.v64), sum.v0)
    ensures sigZ.Val() == sigA.Val() + sigB.Val() + 0x2_0000_0000_0000_0000_0000_0000_0000
    ensures 0x2_0000_0000_0000 <= sigZ.v64 && sigZ.Val() < 0x4_0000_0000_0000_0000_0000_0000_0000
  {
    hide Add128;
    assert sum.Val() == sigA.Val() + sigB.Val();
  }

  lemma {:induction false} ExactlyFaithful(sigZ: U128, x: real, expZ: int)
    requires x == Scale(sigZ.Val() as real, expZ - 1)
    ensures Faithful(63, U128Extra(sigZ, 0).Val(), Scale(x, 65 - expZ))
  {
    ScaleScale(sigZ.Val() as real, expZ - 1, 65 - expZ);
    ScaleInt(sigZ.Val(), 64);
    Shl64Times(sigZ.Val());
    FaithfulExact(63, sigZ.Val() * 0x1_0000_0000_0000_0000);
  }

  /** The exact magnitude of a sum of operands of one sign, in quanta. */
  ghost function Total(a: U128, b: U128): (x: real)
    ensures 0.0 <= x
  {
    TotalQuanta(F128, DatumF128(a), DatumF128(b))
  }

  ghost function Resigned(b: U128, sign: bool): Datum {
    WithSign(DatumF128(b), sign)
  }

  lemma {:induction false} ClassResigned(a: U128, b: U128, sign: bool)
    ensures var d, exp, frac := Resigned(b, sign), ExpF128UI64(b.v64), FracF128(b).Val();
      d.sign == sign && (IsNaN(F128, d) <==> exp == 0x7FFF && frac != 0) &&
      (IsInf(F128, d) <==> exp == 0x7FFF && frac == 0) && (IsFinite(F128, d) <==> exp < 0x7FFF) &&
      (IsInf(F128, d) ==> d == Infinity(F128, sign)) &&
      Propagated(F128, DatumF128(a), d) == Propagated(F128, DatumF128(a), DatumF128(b))
  {
    hide IsNaN, IsInf, IsFinite, Propagated, Infinity, DatumF128, ExpF128UI64, FracF128, WithSign;
    ClassF128(b);
    WithSignClass(F128, DatumF128(a), DatumF128(b), sign);
  }

  lemma {:induction false} SumReturned(env: Environment, a: U128, b: U128, sign: bool, uiZ: U128,
      was: set<Flag>, now: set<Flag>)
    requires IsFinite(F128, DatumF128(a)) && IsFinite(F128, Resigned(b, sign)) && DatumF128(a).sign == sign
    requires uiZ.Val() == SignedF128(sign, Delivered(F128, env.mode, sign, Total(a, b)))
    requires now == was + Signals(F128, env.tininess, env.mode, sign, Total(a, b))
    ensures ReturnsF128(uiZ, was, now, Add(F128, env, DatumF128(a), Resigned(b, sign)))
  {
    SumIs(a, b, sign);
    hide *;
    AddMagnitudes(F128, env, DatumF128(a), Resigned(b, sign));
    RoundedIsOutcome(env, sign, uiZ, Magnitude(F128, DatumF128(a)) + Magnitude(F128, Resigned(b, sign)),
      Total(a, b), was, now);
  }

  lemma {:induction false} SumIs(a: U128, b: U128, sign: bool)
    ensures Resigned(b, sign).sign == sign
    ensures InQuanta(F128, Magnitude(F128, DatumF128(a)) + Magnitude(F128, Resigned(b, sign))) == Total(a, b)
  {
    hide InQuanta, Magnitude, TotalQuanta, WithSign, DatumF128;
    WithSignClass(F128, DatumF128(a), DatumF128(b), sign);
    SumInQuanta(F128, DatumF128(a), Resigned(b, sign));
  }

  /** The magnitudes of operands, on the scale of the one with the larger exponent. */
  lemma {:induction false} TotalScaled(a: U128, b: U128, k: int)
    ensures 0.0 <= Total(a, b)
    ensures Total(a, b) == Total(b, a)
    ensures ScaleF128(b) <= ScaleF128(a) ==>
      Scale(Total(a, b), k) ==
        Scale(SigF128(a) as real, ScaleF128(a) - 1 + k) + Scale(SigF128(b) as real, ScaleF128(b) - 1 + k)
  {
    FieldValueF128(a);
    FieldValueF128(b);
    hide Quanta, DatumF128, SigF128, ScaleF128, Scale;
    if ScaleF128(b) <= ScaleF128(a) {
      AlignedSum(SigF128(a), ScaleF128(a) - 1, SigF128(b), ScaleF128(b) - 1, k);
    }
  }

  /** `softfloat_addMagsF128`. */
  method AddMagsF128(st: FloatState, a: U128, b: U128, signZ: bool) returns (uiZ: U128)
    requires signZ == SignF128UI64(a.v64)
    modifies st`exceptionFlags
    ensures ReturnsF128(uiZ, old(st.exceptionFlags), st.exceptionFlags,
      Add(F128, st.Env(), DatumF128(a), Resigned(b, signZ)))
  {
    hide *;
    var expA: int, sigA := ExpF128UI64(a.v64), FracF128(a);
    var expB: int, sigB := ExpF128UI64(b.v64), FracF128(b);
    var expDiff := expA - expB;
    ClassF128(a);
    ClassF128(b);
    ClassResigned(a, b, signZ);
    AddCases(F128, st.Env(), DatumF128(a), Resigned(b, signZ));
    ReturnsItself(a, st.exceptionFlags);
    ReturnsSpecialF128(signZ, st.exceptionFlags, {});
    UnionWithNone(st.exceptionFlags);
    ghost var x := Total(a, b);
    if expDiff == 0 {
      if expA == 0x7FFF {
        if sigA.v64 != 0 || sigA.v0 != 0 || sigB.v64 != 0 || sigB.v0 != 0 {
          uiZ := PropagateNaNF128UI(st, a, b);
          return;
        }
        uiZ := a;
        return;
      }
      if expA == 0 {
        var sigZ := Add128(sigA, sigB);
        uiZ := U128(PackToF128UI64(signZ, 0, sigZ.v64), sigZ.v0);
        SubnormalSum(st.Env(), a, b, signZ, sigZ);
      } else {
        EqualScales(a, b);
        uiZ := AddEqualExp(st, signZ, expA, sigA, sigB, x);
      }
      SumReturned(st.Env(), a, b, signZ, uiZ, old(st.exceptionFlags), st.exceptionFlags);
      return;
    }
    var expZ, sigZExtra: Word64 := 0, 0;
    if expDiff < 0 {
      if expB == 0x7FFF {
        if sigB.v64 != 0 || sigB.v0 != 0 {
          uiZ := PropagateNaNF128UI(st, a, b);
          return;
        }
        uiZ := U128(PackToF128UI64(signZ, 0x7FFF, 0), 0);
        return;
      }
      expZ := expB;
      if expA != 0 {
        sigA := WithHiddenF128(sigA);
      } else {
        expDiff := expDiff + 1;
      }
      Unshifted(a, sigA, b, expZ, -expDiff);
      if expDiff != 0 {
        var sig128Extra := ShiftRightJam128Extra(sigA, 0, -expDiff);
        AlignedByShift(sigA, -expDiff, sig128Extra);
        sigA, sigZExtra := sig128Extra.v, sig128Extra.extra;
      }
      uiZ := AddAligned(st, signZ, expZ, sigA, sigB, sigZExtra, sigB, sigA, SigF128(a), -expDiff, x);
    } else {
      if expA == 0x7FFF {
        if sigA.v64 != 0 || sigA.v0 != 0 {
          uiZ := PropagateNaNF128UI(st, a, b);
          return;
        }
        uiZ := a;
        return;
      }
      expZ := expA;
      if expB != 0 {
        sigB := WithHiddenF128(sigB);
      } else {
        expDiff := expDiff - 1;
      }
      Unshifted(b, sigB, a, expZ, expDiff);
      if expDiff != 0 {
        var sig128Extra := ShiftRightJam128Extra(sigB, 0, expDiff);
        AlignedByShift(sigB, expDiff, sig128Extra);
        sigB, sigZExtra := sig128Extra.v, sig128Extra.extra;
      }
      uiZ := AddAligned(st, signZ, expZ, sigA, sigB, sigZExtra, sigA, sigB, SigF128(b), expDiff, x);
    }
    SumReturned(st.Env(), a, b, signZ, uiZ, old(st.exceptionFlags), st.exceptionFlags);
  }

  /** The smaller operand before it is shifted, and what the sum will be on the scale of the larger. */
  lemma {:induction false} Unshifted(s: U128, sig: U128, l: U128, expZ: int, dist: int)
    requires ExpF128UI64(s.v64) < ExpF128UI64(l.v64) == expZ
    requires if ExpF128UI64(s.v64) == 0 then sig == FracF128(s) && dist == expZ - 1
      else sig == WithHiddenF128(FracF128(s)) && dist == expZ - ExpF128UI64(s.v64)
    ensures 0 <= dist && sig.Val() == SigF128(s) && SigInRange(sig.Val()) && FracF128(l).v64 < 0x1_0000_0000_0000
    ensures dist == 0 ==> Aligned(sig, 0, SigF128(s), 0)
    ensures var big := FracF128(l).Val() + 0x1_0000_0000_0000_0000_0000_0000_0000;
      Scale(Total(l, s), 65 - expZ) == Scale(big as real, 64) + Scale(SigF128(s) as real, 64 - dist)
    ensures Total(s, l) == Total(l, s) && 0.0 <= Total(l, s)
  {
    hide Scale, Total, Aligned, FracF128, ExpF128UI64, WithHiddenF128, DatumF128;
    FieldsF128(s);
    FieldsF128(l);
    WithHiddenAdds(FracF128(s));
    TotalScaled(l, s, 65 - expZ);
    if dist == 0 {
      AlignedAlready(sig);
    }
  }

  lemma {:induction false} EqualScales(a: U128, b: U128)
    requires ExpF128UI64(a.v64) == ExpF128UI64(b.v64) != 0
    ensures var sum := FracF128(a).Val() + FracF128(b).Val() + 0x2_0000_0000_0000_0000_0000_0000_0000;
      Total(a, b) == Scale(sum as real, ExpF128UI64(a.v64) - 1)
  {
    hide Scale, FracF128, ExpF128UI64, DatumF128, Quanta;
    FieldValueF128(a);
    FieldValueF128(b);
    ShlAdd(SigF128(a), SigF128(b), ExpF128UI64(a.v64) - 1);
    ScaleInt(SigF128(a) + SigF128(b), ExpF128UI64(a.v64) - 1);
  }

  /** Subnormal sums are exact, and carry into the exponent field by themselves. */
  lemma {:induction false} SubnormalSum(env: Environment, a: U128, b: U128, sign: bool, sigZ: U128)
    requires ExpF128UI64(a.v64) == ExpF128UI64(b.v64) == 0 && sigZ == Add128(FracF128(a), FracF128(b))
    ensures var x := Total(a, b);
      Signals(F128, env.tininess, env.mode, sign, x) == {} &&
      U128(PackToF128UI64(sign, 0, sigZ.v64), sigZ.v0).Val() ==
        SignedF128(sign, Delivered(F128, env.mode, sign, x))
  {
    hide *;
    SubnormalTotal(a, b, sigZ);
    SmallDelivered(env, sign, sigZ.Val());
    PackedValF128(sign, 0, sigZ);
  }

  lemma {:induction false} SubnormalTotal(a: U128, b: U128, sigZ: U128)
    requires ExpF128UI64(a.v64) == ExpF128UI64(b.v64) == 0 && sigZ == Add128(FracF128(a), FracF128(b))
    ensures SigInRange(sigZ.Val()) && sigZ.Val() <= 0x2_0000_0000_0000_0000_0000_0000_0000
    ensures Total(a, b) == sigZ.Val() as real
  {
    hide FracF128, ExpF128UI64, DatumF128, Quanta, Add128;
    FieldsF128(a);
    FieldsF128(b);
    FieldValueF128(a);
    FieldValueF128(b);
  }

  lemma {:induction false} SmallDelivered(env: Environment, sign: bool, n: nat)
    requires SigInRange(n)
    ensures Signals(F128, env.tininess, env.mode, sign, n as real) == {}
    ensures Delivered(F128, env.mode, sign, n as real) == n
  {
    hide Delivered, Signals;
    ShapeOfF128();
    PackF128(0, n);
    ExactDelivered(F128, env.mode, env.tininess, sign, 0, n);
  }

  /** The exact difference of two magnitudes, of which the first is the larger, in quanta. */
  ghost function Gap(a: U128, b: U128): real {
    (Quanta(F128, DatumF128(a).code) - Quanta(F128, DatumF128(b).code)) as real
  }

  /** A difference on the scale of its larger term. */
  lemma {:induction false} GapScaled(a: U128, b: U128, k: int)
    requires ScaleF128(b) <= ScaleF128(a)
    ensures Scale(Gap(a, b), k) ==
      Scale(SigF128(a) as real, ScaleF128(a) - 1 + k) - Scale(SigF128(b) as real, ScaleF128(b) - 1 + k)
  {
    FieldValueF128(a);
    FieldValueF128(b);
    hide Quanta, DatumF128, SigF128, ScaleF128, Scale;
    var l, s, i, j := SigF128(a), SigF128(b), ScaleF128(a) - 1, ScaleF128(b) - 1;
    ScaleInt(l, i);
    ScaleInt(s, j);
    ScaleScale(l as real, i, k);
    ScaleScale(s as real, j, k);
    ScaleAdd(Gap(a, b), Shl(s, j) as real, k);
    assert Gap(a, b) + Shl(s, j) as real == Shl(l, i) as real;
  }

  lemma {:induction false} Times16(n: nat)
    ensures Shl(n, 4) == 16 * n && Shl(n, 4) == Shl(8 * n, 1)
  {
    ShlIsTimes(n, 4);
    assert Pow2(4) == 16;
  }

  /** A short shift of a multiple of 16 loses nothing. */
  lemma {:induction false} JamExact(s: nat, dist: nat)
    requires dist <= 4
    ensures 0 <= 16 * s && Jam(16 * s, dist) as real == Scale(s as real, 4 - dist)
  {
    Times16(s);
    ShlNonneg(s, 4 - dist);
    ShlShl(s, 4 - dist, dist);
    ShrUnique(16 * s, dist, Shl(s, 4 - dist), 0);
    ScaleInt(s, 4 - dist);
  }

  /** The difference of aligned terms, exact after a short shift and otherwise sticky with bits to
      spare. */
  lemma {:induction false} DifferenceRepresented(l: nat, s: nat, dist: nat, expZ: int, x: real, sigZ: U128)
    requires NormalSig(l) || dist <= 4
    requires SigInRange(s) && sigZ.Val() == 16 * l - Jam(16 * s, dist)
    requires Scale(x, 5 - expZ) == Scale(l as real, 4) - Scale(s as real, 4 - dist)
    ensures Represented(sigZ, expZ - 5, x)
  {
    Times16(l);
    ScaleInt(l, 4);
    ScaleScale(x, 5 - expZ, expZ - 5);
    if dist <= 4 {
      JamExact(s, dist);
    } else {
      hide Scale, Jam, Faithful, Shl;
      StickyDifference(l, s, dist);
      JamFarBelow(s, dist);
    }
  }

  lemma {:induction false} StickyDifference(l: nat, s: nat, dist: nat)
    ensures 0 <= 16 * s && 0 <= 16 * l
    ensures Faithful(1, 16 * l - Jam(16 * s, dist), (16 * l) as real - Scale(s as real, 4 - dist))
  {
    var j := Jam(16 * s, dist);
    var y := Scale(s as real, 4 - dist);
    Times16(s);
    Times16(l);
    ScaleInt(s, 4);
    ScaleScale(s as real, 4, -(dist as int));
    FaithfulExact(1, 16 * s);
    JamFaithful(1, 16 * s, (16 * s) as real, dist);
    FaithfulNegate(1, j, y);
    FaithfulShift(1, -(j as int), -y, 8 * l);
  }

  lemma {:induction false} JamFarBelow(s: nat, dist: nat)
    requires SigInRange(s) && 5 <= dist
    ensures 0 <= 16 * s && Jam(16 * s, dist) < 0x8_0000_0000_0000_0000_0000_0000_0000
  {
    assert Shl(0x8_0000_0000_0000_0000_0000_0000_0000, 5) == 0x100_0000_0000_0000_0000_0000_0000_0000 by {
      ShlIsTimes(0x8_0000_0000_0000_0000_0000_0000_0000, 5);
      assert Pow2(5) == 32;
    }
    JamBound(16 * s, dist, 5, 0x8_0000_0000_0000_0000_0000_0000_0000);
  }

  /** A significand shifted left by 4, with its implicit bit set there. */
  lemma {:induction false} Shifted4(ui: U128)
    ensures var z := ShortShiftLeft128(FracF128(ui), 4);
      z.Val() == 16 * FracF128(ui).Val() &&
      U128(WithBit52(z.v64), z.v0).Val() == z.Val() + 0x10_0000_0000_0000_0000_0000_0000_0000
    ensures FracF128(ui).Val() < 0x1_0000_0000_0000_0000_0000_0000_0000
    ensures SigF128(ui) == FracF128(ui).Val() +
      (if ExpF128UI64(ui.v64) == 0 then 0 else 0x1_0000_0000_0000_0000_0000_0000_0000)
  {
    FieldsF128(ui);
    var frac := FracF128(ui);
    ShlOne(60);
    Pow2Literals();
    ShrUnique(frac.v64, 60, 0, frac.v64);
    Times16(frac.Val());
    hide Shr64, Shl, FracF128, ExpF128UI64, ShortShiftLeft128;
    BitSet52(ShortShiftLeft128(frac, 4));
  }

  /** `w | 0x0010000000000000`. */
  function WithBit52(w: Word64): Word64 {
    if w / 0x10_0000_0000_0000 % 2 == 0 && w + 0x10_0000_0000_0000 < 0x1_0000_0000_0000_0000
    then w + 0x10_0000_0000_0000 else w
  }

  lemma {:induction false} BitSet52(z: U128)
    requires z.Val() < 0x10_0000_0000_0000_0000_0000_0000_0000
    ensures U128(WithBit52(z.v64), z.v0).Val() == z.Val() + 0x10_0000_0000_0000_0000_0000_0000_0000
  {
  }

  /** Encodings are ordered as the magnitudes they stand for. */
  lemma {:induction false} MagnitudeOrder(a: U128, b: U128)
    ensures var expA, expB := ExpF128UI64(a.v64), ExpF128UI64(b.v64);
      var fracA, fracB := FracF128(a).Val(), FracF128(b).Val();
      (Quanta(F128, DatumF128(b).code) < Quanta(F128, DatumF128(a).code) <==>
        expB < expA || (expB == expA && fracB < fracA)) &&
      (Quanta(F128, DatumF128(a).code) == Quanta(F128, DatumF128(b).code) <==>
        expB == expA && fracB == fracA)
  {
    FieldsF128(a);
    FieldsF128(b);
    hide FracF128, ExpF128UI64, DatumF128, Quanta;
    if DatumF128(b).code < DatumF128(a).code {
      QuantaMonotone(F128, DatumF128(b).code, DatumF128(a).code);
    } else if DatumF128(a).code < DatumF128(b).code {
      QuantaMonotone(F128, DatumF128(a).code, DatumF128(b).code);
    }
  }

  lemma {:induction false} DifferenceReturned(env: Environment, a: U128, b: U128, signA: bool, sign: bool,
      x: real, uiZ: U128, was: set<Flag>, now: set<Flag>)
    requires IsFinite(F128, DatumF128(a)) && IsFinite(F128, DatumF128(b)) && DatumF128(a).sign == signA
    requires Gap(a, b) != 0.0 && if 0.0 < Gap(a, b) then sign == signA && x == Gap(a, b)
      else sign == !signA && x == Gap(b, a)
    requires 0.0 <= x && uiZ.Val() == SignedF128(sign, Delivered(F128, env.mode, sign, x))
    requires now == was + Signals(F128, env.tininess, env.mode, sign, x)
    ensures ReturnsF128(uiZ, was, now, Add(F128, env, DatumF128(a), Resigned(b, !signA)))
  {
    hide *;
    GapIs(a, b, !signA);
    DifferenceIs(env, a, b, !signA);
    RoundedIsOutcome(env, sign, uiZ, Abs(Magnitude(F128, DatumF128(a)) - Magnitude(F128, Resigned(b, !signA))),
      x, was, now);
  }

  /** The difference of two magnitudes, by the sign of its number of quanta. */
  lemma {:induction false} GapIs(a: U128, b: U128, sign: bool)
    ensures var difference := Abs(Magnitude(F128, DatumF128(a)) - Magnitude(F128, Resigned(b, sign)));
      InQuanta(F128, difference) == if 0.0 < Gap(a, b) then Gap(a, b) else Gap(b, a)
  {
    hide InQuanta, Magnitude, TotalQuanta, WithSign, DatumF128, Quanta;
    WithSignClass(F128, DatumF128(a), DatumF128(b), sign);
    SumInQuanta(F128, DatumF128(a), Resigned(b, sign));
    SumInQuanta(F128, Resigned(b, sign), DatumF128(a));
  }

  lemma {:induction false} DifferenceIs(env: Environment, a: U128, b: U128, sign: bool)
    requires IsFinite(F128, DatumF128(a)) && IsFinite(F128, DatumF128(b)) && DatumF128(a).sign == !sign
    ensures var difference := Abs(Magnitude(F128, DatumF128(a)) - Magnitude(F128, Resigned(b, sign)));
      Add(F128, env, DatumF128(a), Resigned(b, sign)) ==
        if Gap(a, b) == 0.0 then Outcome(Datum(env.mode == Min, 0), {})
        else RoundedOutcome(F128, env, if 0.0 < Gap(a, b) then !sign else sign, difference)
  {
    hide InQuanta, Magnitude, TotalQuanta, DatumF128, Quanta, Add, RoundedOutcome, IsFinite;
    WithSignClass(F128, DatumF128(a), DatumF128(b), sign);
    SumInQuanta(F128, DatumF128(a), Resigned(b, sign));
    SubtractMagnitudes(F128, env, DatumF128(a), Resigned(b, sign));
  }

  /** The smaller of two aligned significands taken from the larger, and the result normalized. */
  method SubtractAligned(st: FloatState, signZ: bool, expZ: int, big: U128, small: U128,
      ghost l: nat, ghost s: nat, ghost dist: nat, ghost x: real) returns (uiZ: U128)
    requires 1 <= expZ < 0x7FFF && SigInRange(s) && (NormalSig(l) || dist <= 4)
    requires big.Val() - small.Val() == 16 * l - Jam(16 * s, dist) && small.Val() <= big.Val()
    requires Scale(x, 5 - expZ) == Scale(l as real, 4) - Scale(s as real, 4 - dist)
    modifies st`exceptionFlags
    ensures 0.0 <= x && uiZ.Val() == SignedF128(signZ, Delivered(F128, st.roundingMode, signZ, x))
    ensures st.exceptionFlags ==
      old(st.exceptionFlags) + Signals(F128, st.detectTininess, st.roundingMode, signZ, x)
  {
    hide *;
    var sigZ := Sub128(big, small);
    DifferenceRepresented(l, s, dist, expZ, x, sigZ);
    uiZ := NormRoundPackToF128(st, signZ, expZ - 5, sigZ, x);
  }

  lemma {:induction false} WordOrder(a: U128, b: U128)
    ensures a.Val() < b.Val() <==> a.v64 < b.v64 || (a.v64 == b.v64 && a.v0 < b.v0)
  {
  }

  /** The terms of a difference at one exponent, before and after the implicit bits cancel. */
  lemma {:induction false} EqualExponents(a: U128, b: U128, expZ: int)
    requires ExpF128UI64(a.v64) == ExpF128UI64(b.v64)
    requires expZ == if ExpF128UI64(a.v64) == 0 then 1 else ExpF128UI64(a.v64)
    ensures SigInRange(SigF128(a)) && SigInRange(SigF128(b))
    ensures 16 * SigF128(a) - 16 * SigF128(b) == 16 * FracF128(a).Val() - 16 * FracF128(b).Val()
    ensures Scale(Gap(a, b), 5 - expZ) == Scale(SigF128(a) as real, 4) - Scale(SigF128(b) as real, 4)
  {
    FieldValueF128(a);
    FieldValueF128(b);
    GapScaled(a, b, 5 - expZ);
    hide Scale, Gap, FracF128, ExpF128UI64;
  }

  /** The terms of a difference at two exponents. */
  lemma {:induction false} UnequalExponents(l: U128, s: U128, dist: int)
    requires ExpF128UI64(s.v64) < ExpF128UI64(l.v64) < 0x7FFF
    requires dist == ExpF128UI64(l.v64) - ScaleF128(s)
    ensures 0 <= dist && NormalSig(SigF128(l)) && SigInRange(SigF128(s))
    ensures Scale(Gap(l, s), 5 - ExpF128UI64(l.v64)) ==
      Scale(SigF128(l) as real, 4) - Scale(SigF128(s) as real, 4 - dist)
  {
    FieldValueF128(l);
    FieldValueF128(s);
    FieldsF128(l);
    GapScaled(l, s, 5 - ExpF128UI64(l.v64));
    hide Scale, Gap, FracF128, ExpF128UI64;
  }

  /** The smaller term, shifted right, stays below the larger one. */
  lemma {:induction false} ShiftedBelow(l: nat, s: nat, dist: nat)
    requires NormalSig(l) && SigInRange(s) && (dist == 0 ==> s < 0x1_0000_0000_0000_0000_0000_0000_0000)
    ensures 0 <= 16 * s && Jam(16 * s, dist) <= 16 * l
  {
    if 1 <= dist {
      Times2(0x10_0000_0000_0000_0000_0000_0000_0000);
      JamBound(16 * s, dist, 1, 0x10_0000_0000_0000_0000_0000_0000_0000);
    }
  }

  lemma {:induction false} Times2(n: nat)
    ensures Shl(n, 1) == 2 * n
  {
  }

  /** `softfloat_subMagsF128`. */
  method SubMagsF128(st: FloatState, a: U128, b: U128, signZ: bool) returns (uiZ: U128)
    requires signZ == SignF128UI64(a.v64)
    modifies st`exceptionFlags
    ensures ReturnsF128(uiZ, old(st.exceptionFlags), st.exceptionFlags,
      Add(F128, st.Env(), DatumF128(a), Resigned(b, !signZ)))
  {
    hide *;
    var expA: int := ExpF128UI64(a.v64);
    var expB: int := ExpF128UI64(b.v64);
    var sigA := ShortShiftLeft128(FracF128(a), 4);
    var sigB := ShortShiftLeft128(FracF128(b), 4);
    var expDiff := expA - expB;
    ClassF128(a);
    ClassF128(b);
    ClassResigned(a, b, !signZ);
    AddCases(F128, st.Env(), DatumF128(a), Resigned(b, !signZ));
    ReturnsItself(a, st.exceptionFlags);
    ReturnsSpecialF128(!signZ, st.exceptionFlags, {});
    ReturnsSpecialF128(st.roundingMode == Min, st.exceptionFlags, {});
    UnionWithNone(st.exceptionFlags);
    Shifted4(a);
    Shifted4(b);
    ZeroWords(sigA);
    ZeroWords(sigB);
    WordOrder(sigA, sigB);
    WordOrder(sigB, sigA);
    GapSign(a, b);
    var sign := signZ;
    ghost var x := Gap(a, b);
    if expDiff == 0 {
      if expA == 0x7FFF {
        if sigA.v64 != 0 || sigA.v0 != 0 || sigB.v64 != 0 || sigB.v0 != 0 {
          uiZ := PropagateNaNF128UI(st, a, b);
          return;
        }
        st.RaiseFlags({Invalid});
        uiZ := DefaultNaNF128();
        return;
      }
      var expZ := expA;
      if expZ == 0 {
        expZ := 1;
      }
      EqualExponents(a, b, expZ);
      EqualExponents(b, a, expZ);
      JamNothing(16 * SigF128(a));
      JamNothing(16 * SigF128(b));
      if sigB.v64 < sigA.v64 || (sigA.v64 == sigB.v64 && sigB.v0 < sigA.v0) {
        uiZ := SubtractAligned(st, sign, expZ, sigA, sigB, SigF128(a), SigF128(b), 0, x);
      } else if sigA.v64 < sigB.v64 || sigA.v0 < sigB.v0 {
        sign := !sign;
        x := Gap(b, a);
        uiZ := SubtractAligned(st, sign, expZ, sigB, sigA, SigF128(b), SigF128(a), 0, x);
      } else {
        DifferenceIs(st.Env(), a, b, !signZ);
        uiZ := U128(PackToF128UI64(st.roundingMode == Min, 0, 0), 0);
        return;
      }
    } else if expDiff < 0 {
      if expB == 0x7FFF {
        if sigB.v64 != 0 || sigB.v0 != 0 {
          uiZ := PropagateNaNF128UI(st, a, b);
          return;
        }
        uiZ := U128(PackToF128UI64(!signZ, 0x7FFF, 0), 0);
        return;
      }
      if expA != 0 {
        sigA := U128(WithBit52(sigA.v64), sigA.v0);
      } else {
        expDiff := expDiff + 1;
      }
      UnequalExponents(b, a, -expDiff);
      ShiftedBelow(SigF128(b), SigF128(a), -expDiff);
      JamNothing(16 * SigF128(a));
      if expDiff != 0 {
        sigA := ShiftRightJam128(sigA, -expDiff);
      }
      sigB := U128(WithBit52(sigB.v64), sigB.v0);
      sign := !sign;
      x := Gap(b, a);
      uiZ := SubtractAligned(st, sign, expB, sigB, sigA, SigF128(b), SigF128(a), -expDiff, x);
    } else {
      if expA == 0x7FFF {
        if sigA.v64 != 0 || sigA.v0 != 0 {
          uiZ := PropagateNaNF128UI(st, a, b);
          return;
        }
        uiZ := a;
        return;
      }
      if expB != 0 {
        sigB := U128(WithBit52(sigB.v64), sigB.v0);
      } else {
        expDiff := expDiff - 1;
      }
      UnequalExponents(a, b, expDiff);
      ShiftedBelow(SigF128(a), SigF128(b), expDiff);
      JamNothing(16 * SigF128(b));
      if expDiff != 0 {
        sigB := ShiftRightJam128(sigB, expDiff);
      }
      sigA := U128(WithBit52(sigA.v64), sigA.v0);
      uiZ := SubtractAligned(st, sign, expA, sigA, sigB, SigF128(a), SigF128(b), expDiff, x);
    }
    DifferenceReturned(st.Env(), a, b, signZ, sign, x, uiZ, old(st.exceptionFlags), st.exceptionFlags);
  }

  lemma {:induction false} GapSign(a: U128, b: U128)
    ensures var expA, expB := ExpF128UI64(a.v64), ExpF128UI64(b.v64);
      var fracA, fracB := FracF128(a).Val(), FracF128(b).Val();
      (0.0 < Gap(a, b) <==> expB < expA || (expB == expA && fracB < fracA)) &&
      (Gap(a, b) == 0.0 <==> expB == expA && fracB == fracA)
    ensures ScaleF128(a) == (if ExpF128UI64(a.v64) == 0 then 1 else ExpF128UI64(a.v64))
    ensures ScaleF128(b) == (if ExpF128UI64(b.v64) == 0 then 1 else ExpF128UI64(b.v64))
  {
    hide Quanta, DatumF128, FracF128, ExpF128UI64;
    MagnitudeOrder(a, b);
  }

  /** `f128_add`. */
  method F128Add(st: FloatState, a: U128, b: U128) returns (uiZ: U128)
    modifies st`exceptionFlags
    ensures ReturnsF128(uiZ, old(st.exceptionFlags), st.exceptionFlags,
      Add(F128, st.Env(), DatumF128(a), DatumF128(b)))
  {
    hide ReturnsF128, Add;
    var signA, signB := SignF128UI64(a.v64), SignF128UI64(b.v64);
    if signA == signB {
      uiZ := AddMagsF128(st, a, b, signA);
    } else {
      uiZ := SubMagsF128(st, a, b, signA);
    }
  }

  /** `f128_sub`. */
  method F128Sub(st: FloatState, a: U128, b: U128) returns (uiZ: U128)
    modifies st`exceptionFlags
    ensures ReturnsF128(uiZ, old(st.exceptionFlags), st.exceptionFlags,
      Subtract(F128, st.Env(), DatumF128(a), DatumF128(b)))
  {
    hide ReturnsF128, Add;
    var signA, signB := SignF128UI64(a.v64), SignF128UI64(b.v64);
    if signA == signB {
      uiZ := SubMagsF128(st, a, b, signA);
    } else {
      uiZ := AddMagsF128(st, a, b, signA);
    }
  }
}
