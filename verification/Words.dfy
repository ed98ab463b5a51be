/** The fixed-width integer primitives of softfloat/primitives.h, on naturals with explicit
    wrap-around.  Disjoint bit patterns are joined with `+`, a low sticky bit with `OrOne`. */
module Words {
  import opened Arith
  import opened Powers
  import opened Sticky

  type Word32 = x: int | 0 <= x < 0x1_0000_0000
  type Word64 = x: int | 0 <= x < 0x1_0000_0000_0000_0000

  /** Conversion to a 32-bit or 64-bit unsigned word: the value modulo 2^32 or 2^64. */
  function Wrap32(x: int): (r: Word32)
    ensures -0x1_0000_0000 <= x < 0 ==> r == x + 0x1_0000_0000
    ensures 0x1_0000_0000 <= x < 0x2_0000_0000 ==> r == x - 0x1_0000_0000
    decreases if x < 0 then 0x1_0000_0000 - x else x
  {
    if x < 0 then Wrap32(x + 0x1_0000_0000)
    else if x < 0x1_0000_0000 then x
    else Wrap32(x - 0x1_0000_0000)
  }

  function Wrap64(x: int): (r: Word64)
    ensures -0x1_0000_0000_0000_0000 <= x < 0 ==> r == x + 0x1_0000_0000_0000_0000
    ensures 0x1_0000_0000_0000_0000 <= x < 0x2_0000_0000_0000_0000 ==> r == x - 0x1_0000_0000_0000_0000
    decreases if x < 0 then 0x1_0000_0000_0000_0000 - x else x
  {
    if x < 0 then Wrap64(x + 0x1_0000_0000_0000_0000)
    else if x < 0x1_0000_0000_0000_0000 then x
    else Wrap64(x - 0x1_0000_0000_0000_0000)
  }

  lemma {:induction false} Wrap32Of(x: int, k: int, r: Word32)
    requires x == k * 0x1_0000_0000 + r
    ensures Wrap32(x) == r
    decreases if k < 0 then -k else k
  {
    if k < 0 {
      Wrap32Of(x + 0x1_0000_0000, k + 1, r);
    } else if k > 0 {
      Wrap32Of(x - 0x1_0000_0000, k - 1, r);
    }
  }

  lemma {:induction false} Wrap64Of(x: int, k: int, r: Word64)
    requires x == k * 0x1_0000_0000_0000_0000 + r
    ensures Wrap64(x) == r
    decreases if k < 0 then -k else k
  {
    if k < 0 {
      Wrap64Of(x + 0x1_0000_0000_0000_0000, k + 1, r);
    } else if k > 0 {
      Wrap64Of(x - 0x1_0000_0000_0000_0000, k - 1, r);
    }
  }

  lemma {:induction false} WrapIsModulo(x: int)
    ensures Wrap32(x) == x % 0x1_0000_0000
    ensures Wrap64(x) == x % 0x1_0000_0000_0000_0000
  {
    Wrap32Of(x, x / 0x1_0000_0000, x % 0x1_0000_0000);
    Wrap64Of(x, x / 0x1_0000_0000_0000_0000, x % 0x1_0000_0000_0000_0000);
  }

  datatype U128 = U128(v64: Word64, v0: Word64) {
    function Val(): nat {
      v64 * 0x1_0000_0000_0000_0000 + v0
    }
  }

  datatype U128Extra = U128Extra(v: U128, extra: Word64) {
    function Val(): nat {
      v.Val() * 0x1_0000_0000_0000_0000 + extra
    }
  }

  /** `a << d` on 64-bit words. */
  function Shl64(a: Word64, d: nat): Word64 {
    Wrap64(Shl(a, d))
  }

  /** `a >> d` on 64-bit words. */
  function Shr64(a: Word64, d: nat): (r: Word64)
    ensures r <= a
  {
    ShrAtMost(a, d);
    Shr(a, d)
  }

  /** A word shifted left by the rest of its width keeps only the bits a right shift loses. */
  lemma {:induction false} ShlWraps(a: Word64, d: nat)
    requires d <= 64
    ensures Shl64(a, 64 - d) == Shl(LowBits(a, d), 64 - d)
  {
    SplitShl(a, d, 64 - d);
    Pow64();
    Shl64Times(Shr(a, d));
    Wrap64Of(Shl(a, 64 - d), Shr(a, d), Shl(LowBits(a, d), 64 - d));
  }

  lemma {:induction false} Pow64()
    ensures Pow2(64) == 0x1_0000_0000_0000_0000
  {
    Pow2Literals();
  }

  lemma {:induction false} Shl64Times(n: int)
    ensures Shl(n, 64) == n * 0x1_0000_0000_0000_0000
  {
    ShlIsTimes(n, 64);
    Pow64();
  }

  function Add128(a: U128, b: U128): (z: U128)
    ensures var s := a.Val() + b.Val();
      z.Val() == if s < 0x1_0000_0000_0000_0000_0000_0000_0000_0000 then s
        else s - 0x1_0000_0000_0000_0000_0000_0000_0000_0000
  {
    var v0 := Wrap64(a.v0 + b.v0);
    U128(Wrap64(a.v64 + b.v64 + if v0 < a.v0 then 1 else 0), v0)
  }

  function Sub128(a: U128, b: U128): (z: U128)
    ensures var s := a.Val() - b.Val();
      z.Val() == if 0 <= s then s else s + 0x1_0000_0000_0000_0000_0000_0000_0000_0000
  {
    U128(Wrap64(a.v64 - b.v64 - if a.v0 < b.v0 then 1 else 0), Wrap64(a.v0 - b.v0))
  }

  predicate Eq128(a: U128, b: U128)
    ensures Eq128(a, b) <==> a.Val() == b.Val()
  {
    a.v64 == b.v64 && a.v0 == b.v0
  }

  predicate Lt128(a: U128, b: U128)
    ensures Lt128(a, b) <==> a.Val() < b.Val()
  {
    a.v64 < b.v64 || (a.v64 == b.v64 && a.v0 < b.v0)
  }

  predicate Le128(a: U128, b: U128)
    ensures Le128(a, b) <==> a.Val() <= b.Val()
  {
    a.v64 < b.v64 || (a.v64 == b.v64 && a.v0 <= b.v0)
  }

  function ShiftRightJam64(a: Word64, dist: nat): (z: Word64)
    requires 0 < dist
    ensures z == Jam(a, dist)
  {
    JamWord(a, dist);
    if dist < 63 then OrOne(Shr64(a, dist), Shl64(a, 64 - dist) != 0) else if a != 0 then 1 else 0
  }

  lemma {:induction false} JamWord(a: Word64, dist: nat)
    requires 0 < dist
    ensures dist <= 64 ==> (Shl64(a, 64 - dist) == 0 <==> LowBits(a, dist) == 0)
    ensures Shr(a, dist) < 0x8000_0000_0000_0000
    ensures 63 <= dist ==> Jam(a, dist) == if a != 0 then 1 else 0
  {
    if dist <= 64 {
      ShlWraps(a, dist);
      SplitShl(a, dist, 64 - dist);
    }
    ShrAtMost(a / 2, dist - 1);
    if 63 <= dist {
      TopBit(a);
      ShrShr(a, 63, dist - 63);
      ShrAtMost(Shr(a, 63), dist - 63);
      ShrSplits(a, dist);
      ShlOne(dist);
    }
  }

  lemma {:induction false} TopBit(a: Word64)
    ensures Shr(a, 63) == if a < 0x8000_0000_0000_0000 then 0 else 1
  {
    Pow2Literals();
    ShlOne(63);
    if a < 0x8000_0000_0000_0000 {
      ShrUnique(a, 63, 0, a);
    } else {
      ShrUnique(a, 63, 1, a - 0x8000_0000_0000_0000);
    }
  }

  function ShiftRightJam32(a: Word32, dist: nat): (z: Word32)
    requires 0 < dist
    ensures z == Jam(a, dist)
  {
    JamWord32(a, dist);
    if dist < 31 then OrOne(Shr(a, dist), Wrap32(Shl(a, 32 - dist)) != 0) else if a != 0 then 1 else 0
  }

  lemma {:induction false} JamWord32(a: Word32, dist: nat)
    requires 0 < dist
    ensures dist <= 32 ==> (Wrap32(Shl(a, 32 - dist)) == 0 <==> LowBits(a, dist) == 0)
    ensures Shr(a, dist) < 0x8000_0000
    ensures 31 <= dist ==> Jam(a, dist) == if a != 0 then 1 else 0
  {
    if dist <= 32 {
      SplitShl(a, dist, 32 - dist);
      ShlIsTimes(Shr(a, dist), 32);
      Pow2Literals();
      Wrap32Of(Shl(a, 32 - dist), Shr(a, dist), Shl(LowBits(a, dist), 32 - dist));
    }
    ShrAtMost(a / 2, dist - 1);
    if 31 <= dist {
      TopBit32(a);
      ShrShr(a, 31, dist - 31);
      ShrAtMost(Shr(a, 31), dist - 31);
      ShrSplits(a, dist);
      ShlOne(dist);
    }
  }

  lemma {:induction false} TopBit32(a: Word32)
    ensures Shr(a, 31) == if a < 0x8000_0000 then 0 else 1
  {
    Pow2Literals();
    ShlOne(31);
    if a < 0x8000_0000 {
      ShrUnique(a, 31, 0, a);
    } else {
      ShrUnique(a, 31, 1, a - 0x8000_0000);
    }
  }

  lemma {:induction false} ShrShr(s: nat, j: nat, k: nat)
    ensures Shr(s, j + k) == Shr(Shr(s, j), k)
  {
    if j > 0 {
      ShrShr(s / 2, j - 1, k);
    }
  }

  lemma {:induction false} ShrBound(s: nat, d: nat, w: nat)
    requires s < Pow2(d + w)
    ensures Shr(s, d) < Pow2(w)
  {
    if d > 0 {
      ShrBound(s / 2, d - 1, w);
    }
  }

  lemma {:induction false} ShlHigh(n: int, k: nat)
    ensures Shl(n * 0x1_0000_0000_0000_0000, k) == Shl(n, k) * 0x1_0000_0000_0000_0000
  {
    if k > 0 {
      ShlHigh(n, k - 1);
    }
  }

  /** The two halves of a word shifted across a word boundary. */
  lemma {:induction false} AcrossBoundary(a: Word64, d: nat)
    requires d <= 64
    ensures Shl(a, 64 - d) == Shr64(a, d) * 0x1_0000_0000_0000_0000 + Shl64(a, 64 - d)
    ensures Shr64(a, d) < Pow2(64 - d)
    ensures Shl64(a, 64 - d) + Pow2(64 - d) <= 0x1_0000_0000_0000_0000
  {
    ShlWraps(a, d);
    SplitShl(a, d, 64 - d);
    Shl64Times(Shr(a, d));
    Pow64();
    ShrBound(a, d, 64 - d);
  }

  /** `softfloat_shiftRightJam128Extra`: a 192-bit fixed-point number shifted right, its lost bits
      jammed into the fraction word. */
  function ShiftRightJam128Extra(a: U128, extra: Word64, dist: nat): (z: U128Extra)
    requires 0 < dist
    ensures ShiftedPlace(63, z.Val(), U128Extra(a, extra).Val(), dist)
  {
    if dist < 64 then
      ShortShiftRightJam128Extra(a, extra, dist)
    else if dist == 64 then
      JamExtraByWord(a, extra)
    else if dist < 128 then
      JamExtraByMore(a, extra, dist)
    else
      JamExtraAway(a, extra, dist)
  }

  /** `softfloat_shortShiftRightJam128Extra`: the same for distances under a word. */
  function ShortShiftRightJam128Extra(a: U128, extra: Word64, dist: nat): (z: U128Extra)
    requires 0 < dist < 64
    ensures ShiftedPlace(63, z.Val(), U128Extra(a, extra).Val(), dist)
    ensures 0 <= Shl(a.Val(), 64 - dist) && z.Val() == OrOne(Shl(a.Val(), 64 - dist), extra != 0)
  {
    AcrossBoundary(a.v64, dist);
    AcrossBoundary(a.v0, dist);
    EvenShl64(a.v0, 64 - dist);
    var hi := U128(Shr64(a.v64, dist), Shl64(a.v64, 64 - dist) + Shr64(a.v0, dist));
    var lo := Shl64(a.v0, 64 - dist);
    WideShift(a, dist, hi, lo);
    WidePlace(a, extra, dist, hi, lo);
    U128Extra(hi, OrOne64(lo, extra != 0))
  }

  lemma {:induction false} EvenShl64(a: Word64, k: nat)
    requires 0 < k <= 64
    ensures Shl64(a, k) % 2 == 0
  {
    ShlWraps(a, 64 - k);
  }

  lemma {:induction false} WideShift(a: U128, dist: nat, hi: U128, lo: Word64)
    requires dist <= 64 && lo == Shl64(a.v0, 64 - dist)
    requires hi.v64 == Shr64(a.v64, dist) && hi.v0 == Shl64(a.v64, 64 - dist) + Shr64(a.v0, dist)
    ensures U128Extra(hi, lo).Val() == Shl(a.Val(), 64 - dist)
  {
    AcrossBoundary(a.v64, dist);
    AcrossBoundary(a.v0, dist);
    ShlAdd(a.v64 * 0x1_0000_0000_0000_0000, a.v0, 64 - dist);
    ShlHigh(a.v64, 64 - dist);
  }

  lemma {:induction false} WidePlace(a: U128, extra: Word64, dist: nat, hi: U128, lo: Word64)
    requires 0 < dist < 64 && lo % 2 == 0 && U128Extra(hi, lo).Val() == Shl(a.Val(), 64 - dist)
    ensures U128Extra(hi, OrOne64(lo, extra != 0)).Val() == OrOne(Shl(a.Val(), 64 - dist), extra != 0)
    ensures
      ShiftedPlace(63, U128Extra(hi, OrOne64(lo, extra != 0)).Val(), U128Extra(a, extra).Val(), dist)
  {
    hide ShiftedPlace;
    JamLow3(hi, lo, extra != 0);
    Shl64Times(a.Val());
    Pow64();
    StickyPlace(63, a.Val(), 64, extra, 64 - dist, OrOne(Shl(a.Val(), 64 - dist), extra != 0));
  }

  lemma {:induction false} JamLow3(hi: U128, lo: Word64, bit: bool)
    requires lo % 2 == 0
    ensures U128Extra(hi, OrOne64(lo, bit)).Val() == OrOne(U128Extra(hi, lo).Val(), bit)
  {
    assert U128Extra(hi, lo).Val() == 2 * (hi.Val() * 0x8000_0000_0000_0000) + lo;
  }

  function JamExtraByWord(a: U128, extra: Word64): (z: U128Extra)
    ensures ShiftedPlace(63, z.Val(), U128Extra(a, extra).Val(), 64)
  {
    ByWordPlace(a, extra, OrOne64(a.v0, extra != 0));
    U128Extra(U128(0, a.v64), OrOne64(a.v0, extra != 0))
  }

  lemma {:induction false} ByWordPlace(a: U128, extra: Word64, z: Word64)
    requires z == OrOne(a.v0, extra != 0)
    ensures ShiftedPlace(63, U128Extra(U128(0, a.v64), z).Val(), U128Extra(a, extra).Val(), 64)
  {
    hide *;
    ByWordVal(a, extra, z);
    WordPlace(a.Val(), extra, OrOne(a.Val(), extra != 0));
  }

  lemma {:induction false} ByWordVal(a: U128, extra: Word64, z: Word64)
    requires z == OrOne(a.v0, extra != 0)
    ensures U128Extra(U128(0, a.v64), z).Val() == OrOne(a.Val(), extra != 0)
    ensures U128Extra(a, extra).Val() == a.Val() * 0x1_0000_0000_0000_0000 + extra
  {
    LowestBit(a);
  }

  lemma {:induction false} LowestBit(v: U128)
    ensures v.Val() % 2 == v.v0 % 2
  {
    assert v.Val() == 2 * (v.v64 * 0x8000_0000_0000_0000) + v.v0;
  }

  lemma {:induction false} WordPlace(w: nat, extra: Word64, t: nat)
    requires t == OrOne(w, extra != 0)
    ensures ShiftedPlace(63, t, w * 0x1_0000_0000_0000_0000 + extra, 64)
  {
    Shl64Times(w);
    Pow64();
    StickyPlace(63, w, 64, extra, 0, t);
  }

  function JamExtraByMore(a: U128, extra: Word64, dist: nat): (z: U128Extra)
    requires 64 < dist < 128
    ensures ShiftedPlace(63, z.Val(), U128Extra(a, extra).Val(), dist)
  {
    EvenShl64(a.v64, 128 - dist);
    var hi, lo := Shr64(a.v64, dist - 64), Shl64(a.v64, 128 - dist);
    ByMorePlace(a, extra, dist, hi, lo);
    U128Extra(U128(0, hi), OrOne64(lo, extra != 0 || a.v0 != 0))
  }

  lemma {:induction false} ByMorePlace(a: U128, extra: Word64, dist: nat, hi: Word64, lo: Word64)
    requires 64 < dist < 128 && lo % 2 == 0
    requires hi == Shr64(a.v64, dist - 64) && lo == Shl64(a.v64, 128 - dist)
    ensures ShiftedPlace(63, U128Extra(U128(0, hi), OrOne64(lo, extra != 0 || a.v0 != 0)).Val(),
      U128Extra(a, extra).Val(), dist)
  {
    var e := a.v0 * 0x1_0000_0000_0000_0000 + extra;
    var t := hi * 0x1_0000_0000_0000_0000 + lo;
    assert t == Shl(a.v64, 128 - dist) by { AcrossBoundary(a.v64, dist - 64); }
    JamLow(hi, lo, extra != 0 || a.v0 != 0);
    HighAndRest(a, extra);
    MorePlace(a.v64, e, dist, OrOne(t, e != 0));
  }

  lemma {:induction false} JamLow(hi: Word64, lo: Word64, bit: bool)
    requires lo % 2 == 0
    ensures U128Extra(U128(0, hi), OrOne64(lo, bit)).Val() ==
      OrOne(hi * 0x1_0000_0000_0000_0000 + lo, bit)
  {
    assert hi * 0x1_0000_0000_0000_0000 + lo == 2 * (hi * 0x8000_0000_0000_0000) + lo;
  }

  lemma {:induction false} HighAndRest(a: U128, extra: Word64)
    ensures var e := a.v0 * 0x1_0000_0000_0000_0000 + extra;
      0 <= e < 0x1_0000_0000_0000_0000_0000_0000_0000_0000 &&
      (e != 0 <==> extra != 0 || a.v0 != 0) && U128Extra(a, extra).Val() ==
        a.v64 * 0x1_0000_0000_0000_0000_0000_0000_0000_0000 + e
  {
  }

  lemma {:induction false} MorePlace(w: nat, e: nat, dist: nat, t: nat)
    requires 64 < dist <= 128 && e < 0x1_0000_0000_0000_0000_0000_0000_0000_0000
    requires 0 <= Shl(w, 128 - dist) && t == OrOne(Shl(w, 128 - dist), e != 0)
    ensures ShiftedPlace(63, t, w * 0x1_0000_0000_0000_0000_0000_0000_0000_0000 + e, dist)
  {
    Shl128Times(w);
    Pow2Wide();
    StickyPlace(63, w, 128, e, 128 - dist, t);
  }

  lemma {:induction false} Shl128Times(n: int)
    ensures Shl(n, 128) == n * 0x1_0000_0000_0000_0000_0000_0000_0000_0000
  {
    ShlIsTimes(n, 128);
    Pow2Wide();
  }

  function JamExtraAway(a: U128, extra: Word64, dist: nat): (z: U128Extra)
    requires 128 <= dist
    ensures ShiftedPlace(63, z.Val(), U128Extra(a, extra).Val(), dist)
  {
    var top := if dist == 128 then a.v64 else if a.v64 != 0 then 1 else 0;
    var z := OrOne64(top, extra != 0 || a.v0 != 0);
    ByFarPlace(a, extra, dist, top, z);
    U128Extra(U128(0, 0), z)
  }

  /** `w | bit`. */
  function OrOne64(w: Word64, bit: bool): Word64 {
    OrOne(w, bit)
  }

  lemma {:induction false} ByFarPlace(a: U128, extra: Word64, dist: nat, top: Word64, z: Word64)
    requires 128 <= dist && top == if dist == 128 then a.v64 else if a.v64 != 0 then 1 else 0
    requires z == OrOne(top, extra != 0 || a.v0 != 0)
    ensures ShiftedPlace(63, U128Extra(U128(0, 0), z).Val(), U128Extra(a, extra).Val(), dist)
  {
    HighAndRest(a, extra);
    assert U128Extra(U128(0, 0), z).Val() == z;
    var e := a.v0 * 0x1_0000_0000_0000_0000 + extra;
    if dist == 128 {
      MorePlace(a.v64, e, 128, OrOne(top, e != 0));
    } else {
      FarPlace(U128Extra(a, extra).Val(), dist, OrOne(top, e != 0));
    }
  }

  lemma {:induction false} FarPlace(s: nat, dist: nat, t: nat)
    requires 128 < dist && s < 0x1_0000_0000_0000_0000_0000_0000_0000_0000_0000_0000_0000_0000
    requires t == if s != 0 then 1 else 0
    ensures ShiftedPlace(63, t, s, dist)
  {
    assert Pow2(192) == 0x1_0000_0000_0000_0000_0000_0000_0000_0000_0000_0000_0000_0000 by {
      Pow64();
      Pow2Wide();
      Pow2Add(64, 128);
    }
    Pow2Increases(192, 63 + dist);
    Pow2Increases(1, 63);
    ShlOne(63);
    ShlOne(63 + dist);
    ShrUnique(t, 63, 0, t);
    ShrUnique(s, 63 + dist, 0, s);
  }

  /** `softfloat_shortShiftLeft128`; the bits shifted out at the top are lost. */
  function ShortShiftLeft128(a: U128, dist: nat): (z: U128)
    requires 0 < dist < 64
    ensures z.Val() + Shr64(a.v64, 64 - dist) * 0x1_0000_0000_0000_0000_0000_0000_0000_0000 ==
      Shl(a.Val(), dist)
  {
    AcrossBoundary(a.v64, 64 - dist);
    AcrossBoundary(a.v0, 64 - dist);
    ShlAdd(a.v64 * 0x1_0000_0000_0000_0000, a.v0, dist);
    ShlHigh(a.v64, dist);
    U128(Shl64(a.v64, dist) + Shr64(a.v0, 64 - dist), Shl64(a.v0, dist))
  }

  /** `softfloat_shiftRightJam128`. */
  function ShiftRightJam128(a: U128, dist: nat): (z: U128)
    requires 0 < dist
    ensures z.Val() == Jam(a.Val(), dist)
  {
    if dist < 64 then ShortShiftRightJam128(a, dist) else LongShiftRightJam128(a, dist)
  }

  /** `softfloat_shortShiftRightJam128`. */
  function ShortShiftRightJam128(a: U128, dist: nat): (z: U128)
    requires 0 < dist < 64
    ensures z.Val() == Jam(a.Val(), dist)
  {
    AcrossBoundary(a.v64, dist);
    AcrossBoundary(a.v0, dist);
    var lo := Shl64(a.v64, 64 - dist) + Shr64(a.v0, dist);
    ShortJam(a, dist, lo);
    U128(Shr64(a.v64, dist), OrOne64(lo, Shl64(a.v0, 64 - dist) != 0))
  }

  lemma {:induction false} ShortJam(a: U128, dist: nat, lo: Word64)
    requires 0 < dist < 64 && lo == Shl64(a.v64, 64 - dist) + Shr64(a.v0, dist)
    ensures U128(Shr64(a.v64, dist), OrOne64(lo, Shl64(a.v0, 64 - dist) != 0)).Val() ==
      Jam(a.Val(), dist)
  {
    WideShr(a, dist);
    LostBits(a.v0, dist);
    JamVal(Shr64(a.v64, dist), lo, LowBits(a.v0, dist) != 0);
    hide ShiftedPlace, OrOne64, OrOne, Shl64, Shr64;
  }

  lemma {:induction false} JamVal(hi: Word64, lo: Word64, bit: bool)
    ensures U128(hi, OrOne64(lo, bit)).Val() == OrOne(hi * 0x1_0000_0000_0000_0000 + lo, bit)
  {
    assert hi * 0x1_0000_0000_0000_0000 + lo == 2 * (hi * 0x8000_0000_0000_0000) + lo;
  }

  lemma {:induction false} LostBits(a: Word64, dist: nat)
    requires dist <= 64
    ensures Shl64(a, 64 - dist) == 0 <==> LowBits(a, dist) == 0
  {
    ShlWraps(a, dist);
    SplitShl(a, dist, 64 - dist);
  }

  lemma {:induction false} WideShr(a: U128, dist: nat)
    requires 0 < dist < 64
    ensures Shr64(a.v64, dist) * 0x1_0000_0000_0000_0000 + Shl64(a.v64, 64 - dist) +
      Shr64(a.v0, dist) == Shr(a.Val(), dist)
    ensures LowBits(a.v0, dist) == LowBits(a.Val(), dist)
  {
    AcrossBoundary(a.v64, dist);
    var hi, lo := Shl(a.v64, 64 - dist), Shr64(a.v0, dist);
    ShlAdd(hi, lo, dist);
    ShlShl(a.v64, 64 - dist, dist);
    Shl64Times(a.v64);
    ShrSplits(a.v0, dist);
    ShrUnique(a.Val(), dist, hi + lo, LowBits(a.v0, dist));
  }

  function LongShiftRightJam128(a: U128, dist: nat): (z: U128)
    requires 64 <= dist
    ensures z.Val() == Jam(a.Val(), dist)
  {
    LongJam(a, dist);
    U128(0, LongJamWord(a, dist))
  }

  function LongJamWord(a: U128, dist: nat): Word64
    requires 64 <= dist
  {
    if dist < 127
    then OrOne64(Shr64(a.v64, dist - 64), LowBits(a.v64, dist - 64) != 0 || a.v0 != 0)
    else if a.v64 != 0 || a.v0 != 0 then 1 else 0
  }

  lemma {:induction false} LongJam(a: U128, dist: nat)
    requires 64 <= dist
    ensures LongJamWord(a, dist) == Jam(a.Val(), dist)
  {
    ShrShr(a.Val(), 64, dist - 64);
    LowBitsBeyond(a.Val(), 64, dist - 64);
    Shl64Times(a.v64);
    Pow64();
    ShrUnique(a.Val(), 64, a.v64, a.v0);
    if 127 <= dist {
      JamWord(a.v64, dist - 64);
    }
  }

  lemma {:induction false} LowBitsBeyond(s: nat, j: nat, k: nat)
    ensures LowBits(s, j + k) == 0 <==> LowBits(s, j) == 0 && LowBits(Shr(s, j), k) == 0
  {
    if j > 0 {
      LowBitsBeyond(s / 2, j - 1, k);
    }
  }

  /** `softfloat_shortShiftRightJam64`. */
  function ShortShiftRightJam64(a: Word64, dist: nat): (z: Word64)
    requires 0 < dist < 64
    ensures z == Jam(a, dist)
  {
    JamWord(a, dist);
    OrOne64(Shr64(a, dist), LowBits(a, dist) != 0)
  }

  /** The entry for `a` in the table `softfloat_countLeadingZeros8`. */
  function CountLeadingZeros8(a: nat): (count: nat)
    requires a < 0x100
    ensures LeadingZeros(a, 8, count)
  {
    if a == 0 then 8 else if a < 2 then 7 else if a < 4 then 6 else if a < 8 then 5
    else if a < 16 then 4 else if a < 32 then 3 else if a < 64 then 2 else if a < 128 then 1 else 0
  }

  /** `count` zeros come before the first one in the `w`-bit representation of `a`. */
  predicate LeadingZeros(a: nat, w: nat, count: nat) {
    count <= w && a < Pow2(w - count) && if a == 0 then count == w else Pow2(w - count) <= 2 * a
  }

  lemma {:induction false} ZerosOfTop(a: nat, top: nat, j: nat, rest: nat, w: nat, count: nat)
    requires a == Shl(top, j) + rest && rest < Pow2(j) && 0 < top && LeadingZeros(top, w, count)
    ensures LeadingZeros(a, w + j, count)
  {
    var p := Pow2(w - count);
    ShlOne(w - count);
    ShlShl(1, w - count, j);
    ShlOne(w - count + j);
    ShlNext(top, j);
    ShlOrder(p, top + 1, j);
    ShlOrder(2 * top, p, j);
    ShlAdd(top, top, j);
  }

  lemma {:induction false} ZerosOfShifted(a: nat, k: nat, w: nat, count: nat)
    requires 0 < a && 0 < Shl(a, k) && LeadingZeros(Shl(a, k), w, count)
    ensures LeadingZeros(a, w, count + k)
  {
    if w < count + k {
      Pow2Increases(w - count, k);
      ShlOne(k);
      ShlOrder(a, 1, k);
    }
    var p := Pow2(w - count - k);
    ShlOne(w - count - k);
    ShlShl(1, w - count - k, k);
    ShlOne(w - count);
    ShlOrder(a, p, k);
    ShlOrder(2 * a, p, k);
    ShlAdd(a, a, k);
  }

  lemma {:induction false} TopBitZero32(a: Word32, count: nat)
    requires LeadingZeros(a, 32, count) && a < 0x8000_0000
    ensures 0 < count
  {
    Pow2Literals();
  }

  lemma {:induction false} TopBitZero64(a: Word64, count: nat)
    requires LeadingZeros(a, 64, count) && a < 0x8000_0000_0000_0000
    ensures 0 < count
  {
    Pow2Literals();
  }

  /** Shifting left moves the leading one up. */
  lemma {:induction false} ShiftedZeros(a: nat, w: nat, count: nat, k: nat)
    requires LeadingZeros(a, w, count) && a != 0
    ensures 0 < Shl(a, k) < Pow2(w - count + k) <= 2 * Shl(a, k)
  {
    var p := Pow2(w - count);
    ShlPow2(w - count, k);
    ShlNonneg(a, k);
    ShlOrder(a, p, k);
    ShlOrder(2 * a, p, k);
    ShlAdd(a, a, k);
  }

  lemma {:induction false} SmallShifts(n: int)
    ensures Shl(n, 8) == n * 0x100 && Shl(n, 16) == n * 0x1_0000 && Shl(n, 24) == n * 0x100_0000
    ensures Shl(n, 32) == n * 0x1_0000_0000
  {
    ShlIsTimes(n, 8);
    ShlIsTimes(n, 16);
    ShlShl(n, 16, 8);
    ShlIsTimes(Shl(n, 16), 8);
    ShlIsTimes(n, 32);
    Pow2Literals();
  }

  method CountLeadingZeros32(a: Word32) returns (count: nat)
    ensures LeadingZeros(a, 32, count)
  {
    count := 0;
    var a' := a;
    if a' < 0x1_0000 {
      count := 16;
      a' := Wrap32(a' * 0x1_0000);
    }
    if a' < 0x100_0000 {
      count := count + 8;
      a' := Wrap32(a' * 0x100);
    }
    ZerosOfTable(a, a', count);
    count := count + CountLeadingZeros8(a' / 0x100_0000);
  }

  lemma {:induction false} ZerosOfTable(a: nat, a': Word32, count: nat)
    requires (count == 0 && a' == a) || (count == 8 && a' == a * 0x100) ||
      (count == 16 && a' == a * 0x1_0000) || (count == 24 && a' == a * 0x100_0000)
    requires if a == 0 then count == 24 else 0x100_0000 <= a'
    ensures LeadingZeros(a, 32, count + CountLeadingZeros8(a' / 0x100_0000))
  {
    if 0 < a {
      var top := a' / 0x100_0000;
      SmallShifts(top);
      SmallShifts(a);
      assert Pow2(24) == 0x100_0000 by { ShlOne(24); SmallShifts(1); }
      ZerosOfTop(a', top, 24, a' % 0x100_0000, 8, CountLeadingZeros8(top));
      ZerosOfShifted(a, count, 32, CountLeadingZeros8(top));
    }
  }

  method CountLeadingZeros64(a: Word64) returns (count: nat)
    ensures LeadingZeros(a, 64, count)
  {
    hide LeadingZeros, CountLeadingZeros8, Pow2;
    count := 0;
    var a32 := a / 0x1_0000_0000;
    if a32 == 0 {
      count := 32;
      a32 := Wrap32(a);
    }
    ghost var b, base := a32, count;
    if a32 < 0x1_0000 {
      count := count + 16;
      a32 := Wrap32(a32 * 0x1_0000);
    }
    if a32 < 0x100_0000 {
      count := count + 8;
      a32 := Wrap32(a32 * 0x100);
    }
    ZerosOfTable(b, a32, count - base);
    count := count + CountLeadingZeros8(a32 / 0x100_0000);
    ZerosOfHalf(a, b, base, count);
  }

  lemma {:induction false} ZerosOfHalf(a: Word64, b: Word32, base: nat, count: nat)
    requires base <= count && LeadingZeros(b, 32, count - base)
    requires if a < 0x1_0000_0000 then b == a && base == 32 else b == a / 0x1_0000_0000 && base == 0
    ensures LeadingZeros(a, 64, count)
  {
    if base == 0 {
      SmallShifts(b);
      assert Pow2(32) == 0x1_0000_0000 by { Pow2Literals(); }
      ZerosOfTop(a, b, 32, a % 0x1_0000_0000, 32, count);
    }
  }

  lemma {:induction false} WideZeros(sig: U128, count: nat)
    requires LeadingZeros(sig.v64, 64, count) && sig.v64 != 0
    ensures LeadingZeros(sig.Val(), 128, count)
  {
    Shl64Times(sig.v64);
    Pow64();
    ZerosOfTop(sig.Val(), sig.v64, 64, sig.v0, 64, count);
  }
}
