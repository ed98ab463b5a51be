/** `f128_mul` (softfloat/f128_mul.c). */
module MulF128 {
  import opened Arith
  import opened Powers
  import opened Rounding
  import opened Sticky
  import opened Words
  import opened Products
  import opened RoundPack
  import opened RoundPackF128
  import opened Operations
  import opened EncodingF128

  /** Shifting left by 16 drops the implicit bit, whether or not it had been set. */
  lemma {:induction false} ImplicitBitDropped(sigB: U128)
    requires NormalSig(WithHiddenF128(sigB).Val())
    ensures ShortShiftLeft128(sigB, 16).Val() ==
      (WithHiddenF128(sigB).Val() - 0x1_0000_0000_0000_0000_0000_0000_0000) * 0x1_0000
  {
    var hi := sigB.v64 / 0x1_0000_0000_0000;
    assert hi <= 1;
    TopBits(sigB.v64);
    SmallShifts(sigB.Val());
    hide Shr64, Shl, ShortShiftLeft128;
    assert WithHiddenF128(sigB).Val() - 0x1_0000_0000_0000_0000_0000_0000_0000 ==
      sigB.Val() - hi * 0x1_0000_0000_0000_0000_0000_0000_0000;
  }

  lemma {:induction false} TopBits(v64: Word64)
    ensures Shr64(v64, 48) == v64 / 0x1_0000_0000_0000
  {
    ShrIsDiv(v64, 48);
    Pow2Literals();
    Pow2Add(32, 16);
  }

  function NatProduct(m: nat, n: nat): (p: nat)
    ensures p == m * n
  {
    MulLe(0, m, n);
    m * n
  }

  /** The product of two significands to 192 bits, the lowest of them sticky. */
  method ProductF128(sigA: U128, sigB: U128) returns (sigZ: U128, sigZExtra: Word64)
    requires NormalSig(sigA.Val()) && NormalSig(WithHiddenF128(sigB).Val())
    ensures U128Extra(sigZ, sigZExtra).Val() ==
      Jam(NatProduct(sigA.Val(), WithHiddenF128(sigB).Val()) * 0x1_0000, 64)
    ensures 0x1_0000_0000_0000_0000_0000_0000_0000 <= sigZ.Val() < 0x4_0000_0000_0000_0000_0000_0000_0000
  {
    hide *;
    ImplicitBitDropped(sigB);
    var shifted := ShortShiftLeft128(sigB, 16);
    var sig256Z := new Word64[4];
    Mul128To256M(sigA, shifted, sig256Z);
    var w0, w1, w2, w3 := sig256Z[0], sig256Z[1], sig256Z[2], sig256Z[3];
    FourWords(sig256Z[..], w0, w1, w2, w3);
    sigZExtra := OrOne64(w1, w0 != 0);
    sigZ := Add128(U128(w3, w2), sigA);
    TopWords(sigA, WithHiddenF128(sigB), shifted, w0, w1, w2, w3);
  }

  lemma {:induction false} FourWords(z: seq<Word64>, w0: Word64, w1: Word64, w2: Word64, w3: Word64)
    requires |z| == 4 && z[0] == w0 && z[1] == w1 && z[2] == w2 && z[3] == w3
    ensures Val256(z) == U128(w3, w2).Val() * 0x1_0000_0000_0000_0000_0000_0000_0000_0000 +
      w1 * 0x1_0000_0000_0000_0000 + w0
  {
  }

  lemma {:induction false} TopWords(sigA: U128, b: U128, shifted: U128, w0: Word64, w1: Word64,
      w2: Word64, w3: Word64)
    requires NormalSig(sigA.Val()) && NormalSig(b.Val())
    requires shifted.Val() == (b.Val() - 0x1_0000_0000_0000_0000_0000_0000_0000) * 0x1_0000
    requires sigA.Val() * shifted.Val() == w1 * 0x1_0000_0000_0000_0000 + w0 +
      U128(w3, w2).Val() * 0x1_0000_0000_0000_0000_0000_0000_0000_0000
    ensures var p, sigZ := sigA.Val() * b.Val(), Add128(U128(w3, w2), sigA);
      0 <= p && U128Extra(sigZ, OrOne64(w1, w0 != 0)).Val() == Jam(p * 0x1_0000, 64) &&
      0x1_0000_0000_0000_0000_0000_0000_0000 <= sigZ.Val() < 0x4_0000_0000_0000_0000_0000_0000_0000
  {
    hide Jam, Add128, OrOne64;
    var p, top := sigA.Val() * b.Val(), U128(w3, w2).Val();
    SplitProduct(sigA.Val(), b.Val());
    ProductRange(sigA.Val(), b.Val());
    var sigZ := Add128(U128(w3, w2), sigA);
    assert p * 0x1_0000 == (top + sigA.Val()) * 0x1_0000_0000_0000_0000_0000_0000_0000_0000 +
      w1 * 0x1_0000_0000_0000_0000 + w0;
    TopInRange(p, top + sigA.Val(), w1, w0);
    JamWords(sigZ, w1, w0, p * 0x1_0000);
  }

  lemma {:induction false} SplitProduct(a: int, b: int)
    ensures (a * b) * 0x1_0000 == a * ((b - 0x1_0000_0000_0000_0000_0000_0000_0000) * 0x1_0000) +
      a * 0x1_0000_0000_0000_0000_0000_0000_0000_0000
  {
  }

  lemma {:induction false} ProductRange(a: nat, b: nat)
    requires NormalSig(a) && NormalSig(b)
    ensures 0x1_0000_0000_0000_0000_0000_0000_0000_0000_0000_0000_0000_0000_0000_0000 <= a * b
    ensures a * b < 0x4_0000_0000_0000_0000_0000_0000_0000_0000_0000_0000_0000_0000_0000_0000
  {
    MulLe(0x1_0000_0000_0000_0000_0000_0000_0000, a, b);
    MulLt(a, 0x2_0000_0000_0000_0000_0000_0000_0000, b);
  }

  lemma {:induction false} TopInRange(p: nat, top: nat, w1: Word64, w0: Word64)
    requires p * 0x1_0000 == top * 0x1_0000_0000_0000_0000_0000_0000_0000_0000 +
      w1 * 0x1_0000_0000_0000_0000 + w0
    requires 0x1_0000_0000_0000_0000_0000_0000_0000_0000_0000_0000_0000_0000_0000_0000 <= p
    requires p < 0x4_0000_0000_0000_0000_0000_0000_0000_0000_0000_0000_0000_0000_0000_0000
    ensures 0x1_0000_0000_0000_0000_0000_0000_0000 <= top < 0x4_0000_0000_0000_0000_0000_0000_0000
  {
  }

  lemma {:induction false} JamWords(sigZ: U128, w1: Word64, w0: Word64, s: nat)
    requires s == sigZ.Val() * 0x1_0000_0000_0000_0000_0000_0000_0000_0000 +
      w1 * 0x1_0000_0000_0000_0000 + w0
    ensures U128Extra(sigZ, OrOne64(w1, w0 != 0)).Val() == Jam(s, 64)
  {
    var t := sigZ.Val() * 0x1_0000_0000_0000_0000 + w1;
    Shl64Times(t);
    Pow64();
    ShrUnique(s, 64, t, w0);
    assert t % 2 == w1 % 2 by {
      assert t == 2 * (sigZ.Val() * 0x8000_0000_0000_0000) + w1;
    }
  }

  /** The exact product of two unpacked operands, as the product of the significands. */
  lemma {:induction false} ExactProduct(a: U128, expA: int, sigA: U128, b: U128, expB: int, sigB: U128, p: int)
    requires Unpacked(a, expA, sigA) && Unpacked(b, expB, sigB) && p == NatProduct(sigA.Val(), sigB.Val())
    ensures InQuanta(F128, Product(Magnitude(F128, DatumF128(a)), Magnitude(F128, DatumF128(b)))) ==
      Scale(p as real, expA + expB - 16496)
  {
    ProductInQuanta(F128, DatumF128(a), DatumF128(b));
    hide Scale, Product, Magnitude, DatumF128, Quanta, InQuanta;
    ScaleProduct(sigA.Val() as real, expA - 1, sigB.Val() as real, expB - 1);
    IntProduct(sigA.Val(), sigB.Val(), p);
    ScaleScale(p as real, expA + expB - 2, -16494);
  }

  lemma {:induction false} IntProduct(m: int, n: int, p: int)
    requires p == m * n
    ensures Product(m as real, n as real) == p as real
  {
  }

  /** The product of two unpacked operands, rounded. */
  method MultiplySignificands(st: FloatState, signZ: bool, ghost a: U128, expA: int, sigA: U128,
      ghost b: U128, expB: int, sigB: U128) returns (uiZ: U128)
    requires Unpacked(a, expA, sigA) && Unpacked(b, expB, WithHiddenF128(sigB))
    modifies st`exceptionFlags
    ensures ReturnsF128(uiZ, old(st.exceptionFlags), st.exceptionFlags, RoundedOutcome(F128, st.Env(), signZ,
      Product(Magnitude(F128, DatumF128(a)), Magnitude(F128, DatumF128(b)))))
  {
    hide *;
    UnpackedParts(a, expA, sigA);
    UnpackedParts(b, expB, WithHiddenF128(sigB));
    ghost var p := NatProduct(sigA.Val(), WithHiddenF128(sigB).Val());
    ghost var x := Scale(p as real, expA + expB - 16496);
    ExactProduct(a, expA, sigA, b, expB, WithHiddenF128(sigB), p);
    var expZ := expA + expB - 0x4000;
    var sigZ, sigZExtra := ProductF128(sigA, sigB);
    ProductFaithful(p, U128Extra(sigZ, sigZExtra), x, expZ);
    WordBound(sigZ);
    if 0x2_0000_0000_0000 <= sigZ.v64 {
      expZ := expZ + 1;
      var sig128Extra := ShortShiftRightJam128Extra(sigZ, sigZExtra, 1);
      HalvedFaithful(sigZ, sigZExtra, sig128Extra, x, expZ);
      sigZ := sig128Extra.v;
      sigZExtra := sig128Extra.extra;
    }
    ghost var v := Product(Magnitude(F128, DatumF128(a)), Magnitude(F128, DatumF128(b)));
    uiZ := RoundPackToF128(st, signZ, expZ, sigZ, sigZExtra, x);
    RoundedIsOutcome(st.Env(), signZ, uiZ, v, x, old(st.exceptionFlags), st.exceptionFlags);
  }

  lemma {:induction false} WordBound(sigZ: U128)
    requires 0x1_0000_0000_0000_0000_0000_0000_0000 <= sigZ.Val()
    ensures sigZ.v64 < 0x2_0000_0000_0000 <==> NormalSig(sigZ.Val())
  {
  }

  lemma {:induction false} ProductFaithful(p: nat, z: U128Extra, x: real, expZ: int)
    requires z.Val() == Jam(p * 0x1_0000, 64) && x == Scale(p as real, expZ - 112)
    ensures Faithful(63, z.Val(), Scale(x, 64 - expZ))
  {
    var s := p * 0x1_0000;
    FaithfulExact(63, s);
    JamFaithful(63, s, s as real, 64);
    hide Faithful, Jam;
    SmallShifts(p);
    ScaleInt(p, 16);
    ScaleScale(p as real, 16, -64);
    ScaleScale(p as real, expZ - 112, 64 - expZ);
  }

  /** Shifted right by one, with the exponent one up. */
  lemma {:induction false} HalvedFaithful(sig: U128, extra: Word64, z: U128Extra, x: real, expZ: int)
    requires z == ShortShiftRightJam128Extra(sig, extra, 1)
    requires sig.Val() < 0x4_0000_0000_0000_0000_0000_0000_0000
    requires 0x2_0000_0000_0000 <= sig.v64
    requires Faithful(63, U128Extra(sig, extra).Val(), Scale(x, 65 - expZ))
    ensures NormalSig(z.v.Val()) && Faithful(63, z.Val(), Scale(x, 64 - expZ))
  {
    ShiftedFaithful(63, z.Val(), U128Extra(sig, extra).Val(), Scale(x, 65 - expZ), 1);
    ScaleScale(x, 65 - expZ, -1);
    HalvedRange(sig, extra, z);
  }

  lemma {:induction false} HalvedRange(sig: U128, extra: Word64, z: U128Extra)
    requires 0 <= Shl(sig.Val(), 63) && z.Val() == OrOne(Shl(sig.Val(), 63), extra != 0)
    requires 0x2_0000_0000_0000_0000_0000_0000_0000 <= sig.Val() < 0x4_0000_0000_0000_0000_0000_0000_0000
    ensures NormalSig(z.v.Val())
  {
    ShlIsTimes(sig.Val(), 63);
    Pow2Literals();
  }

  /** The product of an infinity and a factor that is zero unless `magBits`. */
  method InfiniteFactor(st: FloatState, signZ: bool, magBits: bool) returns (uiZ: U128)
    modifies st`exceptionFlags
    ensures ReturnsF128(uiZ, old(st.exceptionFlags), st.exceptionFlags,
      if magBits then Outcome(Infinity(F128, signZ), {}) else Invalidated(F128))
  {
    hide *;
    ReturnsSpecialF128(signZ, st.exceptionFlags, {});
    UnionWithNone(st.exceptionFlags);
    if !magBits {
      st.RaiseFlags({Invalid});
      uiZ := DefaultNaNF128();
      return;
    }
    uiZ := U128(PackToF128UI64(signZ, 0x7FFF, 0), 0);
  }

  /** `f128_mul`. */
  method F128Mul(st: FloatState, a: U128, b: U128) returns (uiZ: U128)
    modifies st`exceptionFlags
    ensures ReturnsF128(uiZ, old(st.exceptionFlags), st.exceptionFlags,
      Multiply(F128, st.Env(), DatumF128(a), DatumF128(b)))
  {
    hide *;
    var signA, expA: int, sigA := SignF128UI64(a.v64), ExpF128UI64(a.v64), FracF128(a);
    var signB, expB: int, sigB := SignF128UI64(b.v64), ExpF128UI64(b.v64), FracF128(b);
    var signZ := signA != signB;
    ClassF128(a);
    ClassF128(b);
    MultiplyCases(F128, st.Env(), DatumF128(a), DatumF128(b));
    ReturnsSpecialF128(signZ, st.exceptionFlags, {});
    UnionWithNone(st.exceptionFlags);
    if expA == 0x7FFF {
      if sigA.v64 != 0 || sigA.v0 != 0 || (expB == 0x7FFF && (sigB.v64 != 0 || sigB.v0 != 0)) {
        uiZ := PropagateNaNF128UI(st, a, b);
        return;
      }
      uiZ := InfiniteFactor(st, signZ, expB != 0 || sigB.v64 != 0 || sigB.v0 != 0);
      return;
    }
    if expB == 0x7FFF {
      if sigB.v64 != 0 || sigB.v0 != 0 {
        uiZ := PropagateNaNF128UI(st, a, b);
        return;
      }
      uiZ := InfiniteFactor(st, signZ, expA != 0 || sigA.v64 != 0 || sigA.v0 != 0);
      return;
    }
    if expA == 0 {
      if sigA.v64 == 0 && sigA.v0 == 0 {
        ProductOfZero(F128, st.Env(), DatumF128(a), DatumF128(b));
        uiZ := U128(PackToF128UI64(signZ, 0, 0), 0);
        return;
      }
      expA, sigA := NormSubnormalF128Sig(sigA.v64, sigA.v0);
      UnpackedSubnormal(a, expA, sigA);
    } else {
      UnpackedNormal(a);
    }
    if expB == 0 {
      if sigB.v64 == 0 && sigB.v0 == 0 {
        ProductOfZero(F128, st.Env(), DatumF128(a), DatumF128(b));
        uiZ := U128(PackToF128UI64(signZ, 0, 0), 0);
        return;
      }
      expB, sigB := NormSubnormalF128Sig(sigB.v64, sigB.v0);
      UnpackedSubnormal(b, expB, sigB);
    } else {
      UnpackedNormal(b);
    }
    sigA := WithHiddenF128(sigA);
    uiZ := MultiplySignificands(st, signZ, a, expA, sigA, b, expB, sigB);
  }
}
