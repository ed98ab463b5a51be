/** Rounding a binary128 number to an integral value (softfloat/f128_roundToInt.c). */
module RoundToIntF128 {
  import opened Powers
  import opened Rounding
  import opened Operations
  import opened Sticky
  import opened Words
  import opened RoundPack
  import opened RoundPackF128
  import opened EncodingF128
  import opened Integral

  lemma {:induction false} IntegersInF128()
    ensures HasIntegers(F128) && UnitExp(F128) == 0x3FFF
    ensures Pack(F128, 0x3FFF, 0) == 0x3FFF * 0x1_0000_0000_0000_0000_0000_0000_0000
    ensures Pack(F128, 0x3FFE, 0) == 0x3FFE * 0x1_0000_0000_0000_0000_0000_0000_0000
  {
    PackF128(0x3FFF, 0);
    PackF128(0x3FFE, 0);
  }

  /** The switch over the modes when the magnitude is under one. */
  predicate UpToOne(a: U128, mode: Mode) {
    match mode
    case NearEven => ExpF128UI64(a.v64) == 0x3FFE && !(FracF128(a).v64 == 0 && FracF128(a).v0 == 0)
    case NearMaxMag => ExpF128UI64(a.v64) == 0x3FFE
    case MinMag => false
    case Min => SignF128UI64(a.v64)
    case Max => !SignF128UI64(a.v64)
    case Odd => false
  }

  lemma {:induction false} BelowOne(a: U128, mode: Mode, exact: bool)
    requires ExpF128UI64(a.v64) < 0x3FFF && DatumF128(a).code != 0
    ensures RoundToIntegral(F128, mode, exact, DatumF128(a)) == Outcome(Datum(SignF128UI64(a.v64),
      if UpToOne(a, mode) then 0x3FFF * 0x1_0000_0000_0000_0000_0000_0000_0000 else 0), if exact then {Inexact} else {})
  {
    FieldsF128(a);
    ZeroWords(FracF128(a));
    IntegersInF128();
    hide Pack, RoundToIntegral, IntegerOf, ExpF128UI64, FracF128;
    IntegralSmall(F128, mode, exact, DatumF128(a));
  }

  lemma {:induction false} SignWord(sign: bool)
    ensures PackToF128UI64(sign, 0, 0) == if sign then 0x8000_0000_0000_0000 else 0
    ensures PackToF128UI64(sign, 0x3FFF, 0) == if sign then 0xBFFF_0000_0000_0000 else 0x3FFF_0000_0000_0000
  {
  }

  lemma {:induction false} SignWords(sign: bool)
    ensures U128(PackToF128UI64(sign, 0, 0), 0).Val() == SignedF128(sign, 0)
    ensures U128(PackToF128UI64(sign, 0x3FFF, 0), 0).Val() ==
      SignedF128(sign, 0x3FFF * 0x1_0000_0000_0000_0000_0000_0000_0000)
  {
    SignWord(sign);
    hide PackToF128UI64, Wrap64;
    if sign {
      assert U128(0x8000_0000_0000_0000, 0).Val() == 0x8000_0000_0000_0000_0000_0000_0000_0000;
      assert U128(0xBFFF_0000_0000_0000, 0).Val() == 0xBFFF_0000_0000_0000_0000_0000_0000_0000;
    } else {
      assert U128(0x3FFF_0000_0000_0000, 0).Val() == 0x3FFF_0000_0000_0000_0000_0000_0000_0000;
    }
  }

  lemma {:induction false} ReturnsDatum(uiZ: U128, was: set<Flag>, now: set<Flag>, outcome: Outcome)
    requires uiZ.Val() == SignedF128(outcome.datum.sign, outcome.datum.code) && now == was + outcome.flags
    ensures ReturnsF128(uiZ, was, now, outcome)
  {
  }

  lemma {:induction false} BelowOneReturned(a: U128, mode: Mode, exact: bool, uiZ: U128, was: set<Flag>,
      now: set<Flag>)
    requires ExpF128UI64(a.v64) < 0x3FFF && DatumF128(a).code != 0
    requires uiZ == U128(PackToF128UI64(SignF128UI64(a.v64), if UpToOne(a, mode) then 0x3FFF else 0, 0), 0)
    requires now == was + if exact then {Inexact} else {}
    ensures ReturnsF128(uiZ, was, now, RoundToIntegral(F128, mode, exact, DatumF128(a)))
  {
    hide *;
    BelowOne(a, mode, exact);
    SignWords(SignF128UI64(a.v64));
    ReturnsDatum(uiZ, was, now, RoundToIntegral(F128, mode, exact, DatumF128(a)));
  }

  lemma {:induction false} ZeroIsIntegral(a: U128, mode: Mode, exact: bool)
    requires DatumF128(a).code == 0
    ensures RoundToIntegral(F128, mode, exact, DatumF128(a)) == Outcome(DatumF128(a), {})
  {
    IntegersInF128();
    hide Pack, RoundToIntegral, IntegerOf;
    IntegralSmall(F128, mode, exact, DatumF128(a));
  }

  lemma {:induction false} MagnitudeBits(a: U128)
    ensures DatumF128(a).code == 0 <==> a.v64 % 0x8000_0000_0000_0000 == 0 && a.v0 == 0
    ensures DatumF128(U128(0, 0)) == Datum(false, 0)
  {
    ZeroWords(U128(a.v64 % 0x8000_0000_0000_0000, a.v0));
  }

  lemma {:induction false} NaNIsPropagated(a: U128, mode: Mode, exact: bool)
    requires IsNaN(F128, DatumF128(a))
    ensures RoundToIntegral(F128, mode, exact, DatumF128(a)) == Propagated(F128, DatumF128(a), DatumF128(U128(0, 0)))
  {
    MagnitudeBits(a);
    hide IsNaN, CanonicalNaN, DatumF128;
  }

  /** Numbers without a fraction, and infinities. */
  lemma {:induction false} Stays(a: U128, mode: Mode, exact: bool)
    requires 0x406F <= ExpF128UI64(a.v64) && !IsNaN(F128, DatumF128(a))
    ensures RoundToIntegral(F128, mode, exact, DatumF128(a)) == Outcome(DatumF128(a), {})
  {
    ClassF128(a);
    hide DatumF128, IsFinite, ExpF128UI64, IntegerOf, Magnitude, CodeOf;
    if ExpF128UI64(a.v64) < 0x7FFF {
      NoFraction(a, mode, exact);
    }
  }

  lemma {:induction false} NoFraction(a: U128, mode: Mode, exact: bool)
    requires 0x406F <= ExpF128UI64(a.v64) < 0x7FFF
    ensures RoundToIntegral(F128, mode, exact, DatumF128(a)) == Outcome(DatumF128(a), {})
  {
    var exp, sig := ExpF128UI64(a.v64), 0x1_0000_0000_0000_0000_0000_0000_0000 + FracF128(a).Val();
    FieldsF128(a);
    ClassF128(a);
    ShapeOfF128();
    PackF128(exp - 1, sig);
    hide Pack, Hidden, RoundToIntegral, ExpF128UI64, FracF128, IsFinite, InfCode, DatumF128;
    IntegralLarge(F128, mode, exact, DatumF128(a), exp - 1, sig);
  }

  lemma {:induction false} WordFields(a: U128)
    ensures a.Val() == (if SignF128UI64(a.v64) then 0x8000 else 0) * 0x1_0000_0000_0000_0000_0000_0000_0000 +
      ExpF128UI64(a.v64) * 0x1_0000_0000_0000_0000_0000_0000_0000 + FracF128(a).Val()
  {
  }

  /** The packed words are their significand below an exponent and a sign. */
  lemma {:induction false} PackedWords(a: U128, k: nat)
    requires 0x3FFF <= ExpF128UI64(a.v64) < 0x406F && k == 0x406F - ExpF128UI64(a.v64)
    ensures var exp, sig := ExpF128UI64(a.v64) - 1, 0x1_0000_0000_0000_0000_0000_0000_0000 + FracF128(a).Val();
      var q := exp + if SignF128UI64(a.v64) then 0x8000 else 0;
      a.Val() == Shl(q, 112) + sig && 0 < k <= 112 && (k == 112 ==> q % 2 == 0) &&
      IsFinite(F128, DatumF128(a)) && Fractional(F128, DatumF128(a), exp, sig, k) &&
      DatumF128(a).sign == SignF128UI64(a.v64)
  {
    var exp, sig := ExpF128UI64(a.v64) - 1, 0x1_0000_0000_0000_0000_0000_0000_0000 + FracF128(a).Val();
    FieldsF128(a);
    ClassF128(a);
    ShapeOfF128();
    PackF128(exp, sig);
    ShlIsTimes(exp + if SignF128UI64(a.v64) then 0x8000 else 0, 112);
    Pow2Wide();
    WordFields(a);
    hide Pack, Hidden, InfCode, IsFinite, Pow2, Shl, ExpF128UI64, FracF128, DatumF128, SignF128UI64;
  }

  lemma {:induction false} SignedSum(sign: bool, exp: nat, s: nat)
    requires 0x3FFE <= exp < 0x406E && s <= 0x2_0000_0000_0000_0000_0000_0000_0000
    ensures var code := Pack(F128, exp, s);
      Shl(exp + if sign then 0x8000 else 0, 112) + s == SignedF128(sign, code)
  {
    PackF128(exp, s);
    ShlIsTimes(exp + if sign then 0x8000 else 0, 112);
    Pow2Wide();
    hide Pack, Pow2, Shl;
  }

  /** What the increment and the masks leave of the packed words. */
  lemma {:induction false} WithFraction(a: U128, mode: Mode, exact: bool, k: nat)
    requires 0x3FFF <= ExpF128UI64(a.v64) < 0x406F && k == 0x406F - ExpF128UI64(a.v64)
    ensures var z, outcome := RoundedWord(mode, SignF128UI64(a.v64), a.Val(), k),
        RoundToIntegral(F128, mode, exact, DatumF128(a));
      z == SignedF128(outcome.datum.sign, outcome.datum.code) &&
      outcome.flags == if exact && z != a.Val() then {Inexact} else {}
  {
    var sign, exp := SignF128UI64(a.v64), ExpF128UI64(a.v64) - 1;
    var sig := 0x1_0000_0000_0000_0000_0000_0000_0000 + FracF128(a).Val();
    var q := exp + if sign then 0x8000 else 0;
    PackedWords(a, k);
    ShapeOfF128();
    hide *;
    var t := RoundedEncoding(F128, mode, exact, DatumF128(a), q, exp, sig, k);
    SignedSum(sign, exp, t);
  }

  /** `z` encodes the number `a` rounded to an integer, and differs from it just when that is inexact. */
  ghost predicate EncodesIntegral(a: U128, mode: Mode, z: U128) {
    var outcome := RoundToIntegral(F128, mode, true, DatumF128(a));
    z.Val() == SignedF128(outcome.datum.sign, outcome.datum.code) &&
    outcome.flags == if z.v64 != a.v64 || z.v0 != a.v0 then {Inexact} else {}
  }

  lemma {:induction false} WordEncodes(a: U128, mode: Mode, k: nat, z: U128)
    requires 0x3FFF <= ExpF128UI64(a.v64) < 0x406F && k == 0x406F - ExpF128UI64(a.v64)
    requires z.Val() == RoundedWord(mode, SignF128UI64(a.v64), a.Val(), k)
    ensures EncodesIntegral(a, mode, z)
  {
    SameWords(z, a);
    hide RoundedWord, ExpF128UI64, DatumF128, SignedF128, RoundToIntegral;
    WithFraction(a, mode, true, k);
  }

  lemma {:induction false} FractionReturned(a: U128, mode: Mode, exact: bool, uiZ: U128, was: set<Flag>,
      now: set<Flag>)
    requires 0x3FFF <= ExpF128UI64(a.v64) < 0x406F && EncodesIntegral(a, mode, uiZ)
    requires now == if exact && (uiZ.v64 != a.v64 || uiZ.v0 != a.v0) then was + {Inexact} else was
    ensures ReturnsF128(uiZ, was, now, RoundToIntegral(F128, mode, exact, DatumF128(a)))
  {
    ClassF128(a);
    hide ExpF128UI64, DatumF128, SignedF128, IntegerOf, CodeOf, Magnitude, InfCode;
  }

  lemma {:induction false} SameWords(a: U128, b: U128)
    ensures a.Val() == b.Val() <==> a.v64 == b.v64 && a.v0 == b.v0
  {
  }

  /** The low word's bits in a two-word number. */
  lemma {:induction false} LowOf(v: U128, k: nat)
    requires k <= 64
    ensures LowBits(v.Val(), k) == LowBits(v.v0, k) && 0 <= Shl(v.v64, 64 - k)
    ensures Shr(v.Val(), k) == Shl(v.v64, 64 - k) + Shr(v.v0, k)
  {
    ShlNonneg(v.v64, 64 - k);
    ShrSplits(v.v0, k);
    ShlShl(v.v64, 64 - k, k);
    Shl64Times(v.v64);
    ShlAdd(Shl(v.v64, 64 - k), Shr(v.v0, k), k);
    hide Shl, Shr, LowBits;
    ShrUnique(v.Val(), k, Shl(v.v64, 64 - k) + Shr(v.v0, k), LowBits(v.v0, k));
  }

  lemma {:induction false} ClearedVal(v: U128, k: nat)
    requires k <= 64
    ensures U128(v.v64, ClearedBelow(v.v0, k)).Val() == ClearedBelow(v.Val(), k)
  {
    LowOf(v, k);
  }

  lemma {:induction false} WithoutBitVal(v: U128, k: nat)
    requires k < 64
    ensures U128(v.v64, WithoutBit(v.v0, k)).Val() == WithoutBit(v.Val(), k)
  {
    LowOf(v, k);
    EvenShl(v.v64, 64 - k);
    hide Shl, Shr;
  }

  lemma {:induction false} Masks(a: U128, k: nat)
    requires 0x402F <= ExpF128UI64(a.v64) < 0x406F && k == 0x406F - ExpF128UI64(a.v64)
    ensures Wrap64(Shl64(2, k - 1) as int - 1) == Pow2(k) - 1
    ensures k < 64 ==> Shl64(2, k - 1) / 2 == Pow2(k - 1)
    ensures a.Val() + Pow2(k) < 0x1_0000_0000_0000_0000_0000_0000_0000_0000 && Pow2(k - 1) <= Pow2(k)
    ensures a.v64 + 1 < 0x1_0000_0000_0000_0000
  {
    FieldsF128(a);
    ShlShl(1, 1, k - 1);
    ShlOne(k);
    assert Shl(1, 1) == 2 && Pow2(k) == 2 * Pow2(k - 1);
    Pow64();
    Pow2Increases(k, 64);
    if k < 64 {
      Pow2Increases(k + 1, 64);
    }
    hide Shl, Pow2;
  }

  /** What nearest rounding makes of a word and a fraction of another word. */
  function NearestWord(mode: Mode, v: U128): nat {
    if v.v0 < 0x8000_0000_0000_0000 then v.v64
    else if mode == NearEven && v.v0 == 0x8000_0000_0000_0000 then v.v64 + 1 - (v.v64 + 1) % 2
    else v.v64 + 1
  }

  lemma {:induction false} NearestWordIs(mode: Mode, sign: bool, v: U128)
    requires mode == NearEven || mode == NearMaxMag
    ensures NearestWord(mode, v) ==
      if RoundsUp(IntegralMode(mode), sign, v.v64, v.v0, 0x8000_0000_0000_0000) then v.v64 + 1 else v.v64
  {
  }

  /** At the boundary of the words, the low word is the fraction. */
  lemma {:induction false} NearestAtWord(mode: Mode, sign: bool, v: U128)
    requires mode == NearEven || mode == NearMaxMag
    ensures RoundedWord(mode, sign, v.Val(), 64) == 0x1_0000_0000_0000_0000 * NearestWord(mode, v)
  {
    var m := RoundedSig(IntegralMode(mode), sign, v.Val(), 63);
    UnitF128(U128Extra(U128(0, v.v64), v.v0));
    assert U128Extra(U128(0, v.v64), v.v0).Val() == v.Val();
    assert U128(0, v.v64).Val() == v.v64;
    NearestWordIs(mode, sign, v);
    hide *;
    RoundedWordIs(mode, sign, v.Val(), 64);
    RoundedSigAt(IntegralMode(mode), sign, v.Val(), 63);
    Shl64Times(m);
  }

  lemma {:induction false} NothingAbove(w: Word64)
    ensures ClearedBelow(w, 64) == 0
  {
    Pow64();
    ShlOne(64);
    ClearedIs(w, 64, 0, w);
  }

  /** The packed words rounded to their high word: lines 82 to 90. */
  method RoundAtWord(a: U128, roundNearEven: bool) returns (uiZ: U128)
    requires a.v64 + 1 < 0x1_0000_0000_0000_0000
    ensures uiZ.v64 * 0x1_0000_0000_0000_0000 ==
      RoundedWord(if roundNearEven then NearEven else NearMaxMag, SignF128UI64(a.v64), a.Val(), 64)
  {
    hide RoundedWord, SignF128UI64;
    NearestAtWord(if roundNearEven then NearEven else NearMaxMag, SignF128UI64(a.v64), a);
    uiZ := a;
    if 0x8000_0000_0000_0000 <= uiZ.v0 {
      uiZ := U128(Wrap64(uiZ.v64 + 1), uiZ.v0);
      if roundNearEven && uiZ.v0 == 0x8000_0000_0000_0000 {
        uiZ := U128(uiZ.v64 - uiZ.v64 % 2, uiZ.v0);
      }
    }
  }

  lemma {:induction false} OnlyHigh(v: U128)
    ensures U128(v.v64, ClearedBelow(v.v0, 64)).Val() == v.v64 * 0x1_0000_0000_0000_0000
  {
    NothingAbove(v.v0);
  }

  /** The packed words with their fraction rounded off, when it is within the low word: lines 75 to
      104. */
  method RoundOffLow(a: U128, roundingMode: Mode, k: nat) returns (uiZ: U128)
    requires 0x402F <= ExpF128UI64(a.v64) < 0x406F && k == 0x406F - ExpF128UI64(a.v64)
    ensures EncodesIntegral(a, roundingMode, uiZ)
  {
    hide LowBits, ClearedBelow, WithoutBit, Shl64, Pow2, ExpF128UI64, SignF128UI64, Shr, EncodesIntegral;
    var lastBitMask := Shl64(2, k - 1);
    var roundBitsMask := Wrap64(lastBitMask as int - 1);
    Masks(a, k);
    uiZ := a;
    var roundNearEven := roundingMode == NearEven;
    if roundNearEven || roundingMode == NearMaxMag {
      if ExpF128UI64(a.v64) == 0x402F {
        uiZ := RoundAtWord(uiZ, roundNearEven);
        OnlyHigh(uiZ);
      } else {
        uiZ := Add128(uiZ, U128(0, lastBitMask / 2));
        LowOf(uiZ, k);
        if roundNearEven && LowBits(uiZ.v0, k) == 0 {
          WithoutBitVal(uiZ, k);
          uiZ := U128(uiZ.v64, WithoutBit(uiZ.v0, k));
        }
        ClearedVal(uiZ, k);
      }
    } else {
      if roundingMode == (if SignF128UI64(uiZ.v64) then Min else Max) {
        uiZ := Add128(uiZ, U128(0, roundBitsMask));
      }
      ClearedVal(uiZ, k);
    }
    uiZ := U128(uiZ.v64, ClearedBelow(uiZ.v0, k));
    WordEncodes(a, roundingMode, k, uiZ);
  }

  lemma {:induction false} PowerWord(j: nat)
    ensures Pow2(64 + j) == Pow2(j) * 0x1_0000_0000_0000_0000
  {
    Pow64();
    Pow2Add(j, 64);
    hide Pow2;
  }

  /** A low word made sticky counts only for its being zero. */
  lemma {:induction false} HighParts(a: U128, j: nat)
    requires 0 < j < 64
    ensures Shr(a.Val(), 64 + j) == Shr(a.v64, j) && 0 < Pow2(j - 1)
    ensures LowBits(a.Val(), 64 + j) == LowBits(a.v64, j) * 0x1_0000_0000_0000_0000 + a.v0
    ensures Pow2(63 + j) == Pow2(j - 1) * 0x1_0000_0000_0000_0000
  {
    var q, r := Shr(a.v64, j), LowBits(a.v64, j);
    ShrSplits(a.v64, j);
    ShlShl(q, j, 64);
    Shl64Times(Shl(q, j));
    PowerWord(j);
    PowerWord(j - 1);
    hide Shl, Shr, LowBits, Pow2;
    ShrUnique(a.Val(), 64 + j, q, r * 0x1_0000_0000_0000_0000 + a.v0);
  }

  lemma {:induction false} StickyBits(w: nat, bit: bool, j: nat)
    requires 0 < j
    ensures Shr(OrOne(w, bit), j) == Shr(w, j) && (LowBits(OrOne(w, bit), j) == 0 <==> LowBits(w, j) == 0 && !bit)
  {
    assert OrOne(w, bit) / 2 == w / 2;
  }

  /** What rounding the high word, with the low word made sticky, comes to. */
  function RoundedHigh(mode: Mode, sign: bool, a: U128, j: nat): nat
    requires 0 < j
  {
    var z := a.v64 + Pow2(j - 1);
    ClearedBelow(
      if mode == NearMaxMag then z
      else if mode == NearEven then if LowBits(z, j) == 0 && a.v0 == 0 then WithoutBit(z, j) else z
      else if mode == (if sign then Min else Max) then OrOne(a.v64, a.v0 != 0) + (Pow2(j) - 1)
      else a.v64, j)
  }

  /** Whether the high word rounds up can be told from its own bits and the low word's being zero. */
  lemma {:induction false} HighRoundsUp(mode: Mode, sign: bool, q: nat, r: nat, v0: Word64, half: nat)
    requires mode != Odd
    ensures RoundsUp(mode, sign, q, r * 0x1_0000_0000_0000_0000 + v0, half * 0x1_0000_0000_0000_0000) <==>
      match mode
      case NearEven => half < r || (r == half && (v0 != 0 || q % 2 == 1))
      case NearMaxMag => half <= r
      case MinMag => false
      case Min => sign && (r != 0 || v0 != 0)
      case Max => !sign && (r != 0 || v0 != 0)
      case Odd => false
  {
  }

  lemma {:induction false} NearHigh(mode: Mode, sign: bool, a: U128, j: nat, m: nat)
    requires 0 < j && (mode == NearEven || mode == NearMaxMag)
    requires var q, r, half := Shr(a.v64, j), LowBits(a.v64, j), Pow2(j - 1);
      m == if RoundsUp(IntegralMode(mode), sign, q, r * 0x1_0000_0000_0000_0000 + a.v0, half * 0x1_0000_0000_0000_0000)
        then q + 1 else q
    ensures RoundedHigh(mode, sign, a, j) == NatShl(m, j)
  {
    HighRoundsUp(mode, sign, Shr(a.v64, j), LowBits(a.v64, j), a.v0, Pow2(j - 1));
    NearWord(a.v64, j);
    hide Shl, Shr, LowBits, ClearedBelow, WithoutBit, RoundsUp, Pow2, NatShl, OrOne;
  }

  lemma {:induction false} DirectedHigh(mode: Mode, sign: bool, a: U128, j: nat, m: nat)
    requires 0 < j && mode != NearEven && mode != NearMaxMag
    requires var q, r, half := Shr(a.v64, j), LowBits(a.v64, j), Pow2(j - 1);
      m == if RoundsUp(IntegralMode(mode), sign, q, r * 0x1_0000_0000_0000_0000 + a.v0, half * 0x1_0000_0000_0000_0000)
        then q + 1 else q
    ensures RoundedHigh(mode, sign, a, j) == NatShl(m, j)
  {
    HighRoundsUp(IntegralMode(mode), sign, Shr(a.v64, j), LowBits(a.v64, j), a.v0, Pow2(j - 1));
    DirectedWord(a.v64, j);
    DirectedWord(OrOne(a.v64, a.v0 != 0), j);
    StickyBits(a.v64, a.v0 != 0, j);
    hide Shl, Shr, LowBits, ClearedBelow, WithoutBit, RoundsUp, Pow2, NatShl, OrOne;
  }

  lemma {:induction false} RoundedHighIs(mode: Mode, sign: bool, a: U128, j: nat)
    requires 0 < j < 64
    ensures RoundedHigh(mode, sign, a, j) * 0x1_0000_0000_0000_0000 == RoundedWord(mode, sign, a.Val(), 64 + j)
  {
    var m := RoundedSig(IntegralMode(mode), sign, a.Val(), 63 + j);
    RoundedWordIs(mode, sign, a.Val(), 64 + j);
    RoundedSigAt(IntegralMode(mode), sign, a.Val(), 63 + j);
    ShlShl(m, j, 64);
    Shl64Times(NatShl(m, j));
    HighParts(a, j);
    hide *;
    if mode == NearEven || mode == NearMaxMag {
      NearHigh(mode, sign, a, j, m);
    } else {
      DirectedHigh(mode, sign, a, j, m);
    }
  }

  lemma {:induction false} HighMasks(a: U128, j: nat)
    requires 0x3FFF <= ExpF128UI64(a.v64) < 0x402F && j == 0x402F - ExpF128UI64(a.v64)
    ensures Shl64(1, j) == Pow2(j) == 2 * Pow2(j - 1) && a.v64 + Pow2(j) < 0x1_0000_0000_0000_0000
  {
    assert Pow2(j) == 2 * Pow2(j - 1);
    Pow2Literals();
    Pow2Increases(j, 52);
    ShlOne(j);
    FieldsF128(a);
    hide Shl, Pow2;
  }

  lemma {:induction false} HighEncodes(a: U128, mode: Mode, v64: Word64)
    requires 0x3FFF <= ExpF128UI64(a.v64) < 0x402F
    requires v64 == RoundedHigh(mode, SignF128UI64(a.v64), a, 0x402F - ExpF128UI64(a.v64))
    ensures EncodesIntegral(a, mode, U128(v64, 0))
  {
    hide RoundedHigh, RoundedWord, ExpF128UI64, SignF128UI64, EncodesIntegral;
    RoundedHighIs(mode, SignF128UI64(a.v64), a, 0x402F - ExpF128UI64(a.v64));
    WordEncodes(a, mode, 0x406F - ExpF128UI64(a.v64), U128(v64, 0));
  }

  /** The high word with the fraction rounded off, when that goes beyond the low word: lines 132 to
      150. */
  method RoundOffHigh(a: U128, roundingMode: Mode) returns (v64: Word64)
    requires 0x3FFF <= ExpF128UI64(a.v64) < 0x402F
    ensures EncodesIntegral(a, roundingMode, U128(v64, 0))
  {
    hide LowBits, ClearedBelow, WithoutBit, Shl64, Pow2, ExpF128UI64, SignF128UI64, EncodesIntegral;
    var j := 0x402F - ExpF128UI64(a.v64);
    v64 := a.v64;
    var lastBitMask := Shl64(1, j);
    HighMasks(a, j);
    var roundBitsMask := lastBitMask - 1;
    if roundingMode == NearMaxMag {
      v64 := Wrap64(v64 + lastBitMask / 2);
    } else if roundingMode == NearEven {
      v64 := Wrap64(v64 + lastBitMask / 2);
      if LowBits(v64, j) == 0 && a.v0 == 0 {
        v64 := WithoutBit(v64, j);
      }
    } else if roundingMode == (if SignF128UI64(v64) then Min else Max) {
      v64 := Wrap64(OrOne(v64, a.v0 != 0) + roundBitsMask);
    }
    v64 := ClearedBelow(v64, j);
    HighEncodes(a, roundingMode, v64);
  }

  /** `f128_roundToInt`. */
  method F128RoundToInt(st: FloatState, a: U128, roundingMode: Mode, exact: bool) returns (uiZ: U128)
    modifies st`exceptionFlags
    ensures ReturnsF128(uiZ, old(st.exceptionFlags), st.exceptionFlags,
      RoundToIntegral(F128, roundingMode, exact, DatumF128(a)))
  {
    hide *;
    var exp := ExpF128UI64(a.v64);
    FieldsF128(a);
    ClassF128(a);
    MagnitudeBits(a);
    UnionWithNone(st.exceptionFlags);
    ghost var was := st.exceptionFlags;
    if 0x402F <= exp {
      if 0x406F <= exp {
        if exp == 0x7FFF && !(FracF128(a).v64 == 0 && FracF128(a).v0 == 0) {
          uiZ := PropagateNaNF128UI(st, a, U128(0, 0));
          NaNIsPropagated(a, roundingMode, exact);
          return;
        }
        Stays(a, roundingMode, exact);
        ReturnsItself(a, st.exceptionFlags);
        uiZ := a;
        return;
      }
      uiZ := RoundOffLow(a, roundingMode, 0x406F - exp);
    } else {
      if exp < 0x3FFF {
        if a.v64 % 0x8000_0000_0000_0000 == 0 && a.v0 == 0 {
          ZeroIsIntegral(a, roundingMode, exact);
          ReturnsItself(a, st.exceptionFlags);
          uiZ := a;
          return;
        }
        if exact {
          st.RaiseFlags({Inexact});
        }
        var v64 := SwitchUnderOne(a, roundingMode);
        uiZ := U128(v64, 0);
        BelowOneReturned(a, roundingMode, exact, uiZ, was, st.exceptionFlags);
        return;
      }
      var v64 := RoundOffHigh(a, roundingMode);
      uiZ := U128(v64, 0);
    }
    if exact && (uiZ.v64 != a.v64 || uiZ.v0 != a.v0) {
      st.RaiseFlags({Inexact});
    }
    FractionReturned(a, roundingMode, exact, uiZ, was, st.exceptionFlags);
  }

  /** The switch over the modes: lines 113 to 127. */
  method SwitchUnderOne(a: U128, roundingMode: Mode) returns (v64: Word64)
    ensures v64 == PackToF128UI64(SignF128UI64(a.v64), if UpToOne(a, roundingMode) then 0x3FFF else 0, 0)
  {
    hide ExpF128UI64, FracF128, SignF128UI64, PackToF128UI64;
    var exp := ExpF128UI64(a.v64);
    v64 := PackToF128UI64(SignF128UI64(a.v64), 0, 0);
    SignWord(SignF128UI64(a.v64));
    match roundingMode {
      case NearEven =>
        if !(FracF128(a).v64 == 0 && FracF128(a).v0 == 0) && exp == 0x3FFE {
          v64 := PackToF128UI64(SignF128UI64(a.v64), 0x3FFF, 0);
        }
      case NearMaxMag =>
        if exp == 0x3FFE {
          v64 := PackToF128UI64(SignF128UI64(a.v64), 0x3FFF, 0);
        }
      case Min =>
        if v64 != 0 {
          v64 := PackToF128UI64(true, 0x3FFF, 0);
        }
      case Max =>
        if v64 == 0 {
          v64 := PackToF128UI64(false, 0x3FFF, 0);
        }
      case _ =>
    }
  }
}
