/** Exact wide products built from 32-bit by 32-bit ones (softfloat/s_mul64To128.c,
    softfloat/s_mul128By32.c, softfloat/s_mul128To256M.c, caveat/arithmetic.h). */
module Products {
  import opened Arith
  import opened Words

  /** The product of two 64-bit words from the four products of their halves. */
  lemma {:induction false} Halves(a1: int, a0: int, b1: int, b0: int)
    ensures (a1 * 0x1_0000_0000 + a0) * (b1 * 0x1_0000_0000 + b0) ==
      (a1 * b1) * 0x1_0000_0000_0000_0000 + (a1 * b0 + a0 * b1) * 0x1_0000_0000 + a0 * b0
  {
    Distribute(a1, a0, 0x1_0000_0000, b1 * 0x1_0000_0000 + b0);
    Distribute(b1, b0, 0x1_0000_0000, a1);
    Distribute(b1, b0, 0x1_0000_0000, a0);
  }

  lemma {:induction false} Distribute(x1: int, x0: int, k: int, y: int)
    ensures (x1 * k + x0) * y == (x1 * y) * k + x0 * y && y * (x1 * k + x0) == (y * x1) * k + y * x0
  {
  }

  lemma {:induction false} ProductFits(x: Word32, y: Word32)
    ensures 0 <= x * y <= 0xFFFF_FFFE_0000_0001
  {
    MulLe(0, x, y);
    MulLe(x, 0xFFFF_FFFF, y);
  }

  /** `softfloat_mul64To128`. */
  method Mul64To128(a: Word64, b: Word64) returns (z: U128)
    ensures z.Val() == a * b
  {
    var a32, a0 := a / 0x1_0000_0000, a % 0x1_0000_0000;
    var b32, b0 := b / 0x1_0000_0000, b % 0x1_0000_0000;
    ProductFits(a0, b0);
    ProductFits(a32, b0);
    ProductFits(a0, b32);
    ProductFits(a32, b32);
    Halves(a32, a0, b32, b0);
    ghost var p00, p10, p01, p11 := a0 * b0, a32 * b0, a0 * b32, a32 * b32;
    var v0: Word64 := a0 * b0;
    var mid1: Word64 := a32 * b0;
    var mid := Wrap64(mid1 + a0 * b32);
    var v64: Word64 := a32 * b32;
    v64 := Wrap64(v64 + (if mid < mid1 then 0x1_0000_0000 else 0) + mid / 0x1_0000_0000);
    mid := mid % 0x1_0000_0000 * 0x1_0000_0000;
    v0 := Wrap64(v0 + mid);
    v64 := Wrap64(v64 + if v0 < mid then 1 else 0);
    z := U128(v64, v0);
    assert z.Val() == p11 * 0x1_0000_0000_0000_0000 + (p10 + p01) * 0x1_0000_0000 + p00;
  }

  /** `softfloat_mul128By32`: the carry out of the low word's lower half is read off its truncated
      product. */
  function Mul128By32(a: U128, b: Word32): (z: U128)
    ensures z.Val() == a.Val() * b % 0x1_0000_0000_0000_0000_0000_0000_0000_0000
  {
    ProductFits(a.v0 / 0x1_0000_0000, b);
    var v0 := Wrap64(a.v0 * b);
    var mid: Word64 := a.v0 / 0x1_0000_0000 * b;
    var carry := Wrap32(v0 / 0x1_0000_0000 - mid);
    MulBy32Val(a, b, v0, mid, carry);
    U128(Wrap64(a.v64 * b + (mid + carry) / 0x1_0000_0000), v0)
  }

  lemma {:induction false} MulBy32Val(a: U128, b: Word32, v0: Word64, mid: Word64, carry: Word32)
    requires v0 == Wrap64(a.v0 * b) && mid == a.v0 / 0x1_0000_0000 * b
    requires carry == Wrap32(v0 / 0x1_0000_0000 - mid)
    ensures U128(Wrap64(a.v64 * b + (mid + carry) / 0x1_0000_0000), v0).Val() ==
      a.Val() * b % 0x1_0000_0000_0000_0000_0000_0000_0000_0000
  {
    LowProduct(a.v0, b, v0, mid, carry);
    Distribute(a.v64, a.v0, 0x1_0000_0000_0000_0000, b);
    hide *;
    HighProduct(a.v64 * b, (mid + carry) / 0x1_0000_0000, v0, a.Val() * b);
  }

  lemma {:induction false} LowProduct(a0: Word64, b: Word32, v0: Word64, mid: Word64, carry: Word32)
    requires v0 == Wrap64(a0 * b) && mid == a0 / 0x1_0000_0000 * b
    requires carry == Wrap32(v0 / 0x1_0000_0000 - mid)
    ensures a0 * b == (mid + carry) / 0x1_0000_0000 * 0x1_0000_0000_0000_0000 + v0
  {
    var lo := a0 % 0x1_0000_0000;
    ProductFits(lo, b);
    Distribute(a0 / 0x1_0000_0000, lo, 0x1_0000_0000, b);
    var p := lo * b;
    var c1, c0 := p / 0x1_0000_0000, p % 0x1_0000_0000;
    var hi, low := (mid + c1) / 0x1_0000_0000, (mid + c1) % 0x1_0000_0000;
    Wrap64Of(a0 * b, hi, low * 0x1_0000_0000 + c0);
    Wrap32Of(v0 / 0x1_0000_0000 - mid, -hi, c1);
  }

  lemma {:induction false} HighProduct(p1: int, c: int, v0: Word64, p: int)
    requires p == p1 * 0x1_0000_0000_0000_0000 + c * 0x1_0000_0000_0000_0000 + v0
    ensures U128(Wrap64(p1 + c), v0).Val() == p % 0x1_0000_0000_0000_0000_0000_0000_0000_0000
  {
    WrapIsModulo(p1 + c);
    var hi := (p1 + c) / 0x1_0000_0000_0000_0000;
    DivModUnique(p, 0x1_0000_0000_0000_0000_0000_0000_0000_0000, hi, U128(Wrap64(p1 + c), v0).Val());
  }

  /** The high 64 bits of the unsigned product (section 7.1 of the RISC-V Unprivileged ISA). */
  method MulHU(a: Word64, b: Word64) returns (hi: Word64)
    ensures hi == a * b / 0x1_0000_0000_0000_0000
  {
    var a0, a1 := a % 0x1_0000_0000, a / 0x1_0000_0000;
    var b0, b1 := b % 0x1_0000_0000, b / 0x1_0000_0000;
    ProductFits(a0, b0);
    ProductFits(a1, b0);
    ProductFits(a0, b1);
    ProductFits(a1, b1);
    Halves(a1, a0, b1, b0);
    ghost var p00, p10, p01, p11 := a0 * b0, a1 * b0, a0 * b1, a1 * b1;
    var t: Word64 := a1 * b0 + a0 * b0 / 0x1_0000_0000;
    var y1, y2 := t % 0x1_0000_0000, t / 0x1_0000_0000;
    t := a0 * b1 + y1;
    y1 := t % 0x1_0000_0000;
    ghost var low := y1 * 0x1_0000_0000 + p00 % 0x1_0000_0000;
    t := Wrap64(a1 * b1 + y2 + t / 0x1_0000_0000);
    y2 := t % 0x1_0000_0000;
    var y3 := t / 0x1_0000_0000;
    hi := y3 * 0x1_0000_0000 + y2;
    assert p11 * 0x1_0000_0000_0000_0000 + (p10 + p01) * 0x1_0000_0000 + p00 ==
      hi * 0x1_0000_0000_0000_0000 + low;
    DivModUnique(a * b, 0x1_0000_0000_0000_0000, hi, low);
  }

  /** The word with the two's complement representation of `x`. */
  predicate Signed64(x: int) {
    -0x8000_0000_0000_0000 <= x < 0x8000_0000_0000_0000
  }

  function AbsWord(x: int): Word64
    requires Signed64(x)
  {
    var m: int := if x < 0 then -x else x; m
  }

  /** `~hi + (low == 0)`. */
  function NegatedHigh(hi: int, low: int): Word64 {
    Wrap64(0xFFFF_FFFF_FFFF_FFFF - hi + if low == 0 then 1 else 0)
  }

  /** The high 64 bits of the signed product, as a bit pattern. */
  method MulH(a: int, b: int) returns (hi: Word64)
    requires Signed64(a) && Signed64(b)
    ensures hi == Wrap64(a * b / 0x1_0000_0000_0000_0000)
  {
    var negate := (a < 0) != (b < 0);
    var res := MulHU(AbsWord(a), AbsWord(b));
    hi := if negate then NegatedHigh(res, Wrap64(a * b)) else res;
    SignsOut(a, b);
    SignedHigh(AbsWord(a) * AbsWord(b), negate, res);
  }

  /** The high 64 bits of the product of a signed and an unsigned word, as a bit pattern. */
  method MulHSU(a: int, b: Word64) returns (hi: Word64)
    requires Signed64(a)
    ensures hi == Wrap64(a * b / 0x1_0000_0000_0000_0000)
  {
    var negate := a < 0;
    var res := MulHU(AbsWord(a), b);
    hi := if negate then NegatedHigh(res, Wrap64(a * b)) else res;
    SignOut(a, b);
    SignedHigh(AbsWord(a) * b, negate, res);
  }

  lemma {:induction false} SignOut(a: int, b: nat)
    requires Signed64(a)
    ensures 0 <= AbsWord(a) * b && a * b == if a < 0 then -(AbsWord(a) * b) else AbsWord(a) * b
  {
    MulLe(0, AbsWord(a), b);
  }

  lemma {:induction false} SignsOut(a: int, b: int)
    requires Signed64(a) && Signed64(b)
    ensures 0 <= AbsWord(a) * AbsWord(b)
    ensures a * b == (if (a < 0) != (b < 0) then -(AbsWord(a) * AbsWord(b)) else AbsWord(a) * AbsWord(b))
  {
    SignOut(a, AbsWord(b));
    assert b < 0 ==> a * b == -(a * -b);
  }

  /** Complementing the high word of a product negates it, with a carry in when the low word is 0. */
  lemma {:induction false} SignedHigh(p: int, negate: bool, hi: Word64)
    requires 0 <= p && hi == p / 0x1_0000_0000_0000_0000
    ensures Wrap64((if negate then -p else p) / 0x1_0000_0000_0000_0000) ==
      if negate then NegatedHigh(hi, Wrap64(-p)) else hi
  {
    if negate {
      var lo := p % 0x1_0000_0000_0000_0000;
      var low: Word64 := if lo == 0 then 0 else 0x1_0000_0000_0000_0000 - lo;
      var q: int := if lo == 0 then 0 - hi else 0 - hi - 1;
      Wrap64Of(-p, q, low);
      DivModUnique(-p, 0x1_0000_0000_0000_0000, q, low);
      hide *;
      NextTurn(q);
    }
  }

  lemma {:induction false} NextTurn(q: int)
    ensures Wrap64(q + 0x1_0000_0000_0000_0000) == Wrap64(q)
  {
    WrapIsModulo(q);
    Wrap64Of(q + 0x1_0000_0000_0000_0000, q / 0x1_0000_0000_0000_0000 + 1, Wrap64(q));
  }

  /** The value of a 256-bit number in four words, the lowest first. */
  function Val256(z: seq<Word64>): nat
    requires |z| == 4
  {
    z[0] as int + z[1] as int * 0x1_0000_0000_0000_0000 + z[2] as int * 0x1_0000_0000_0000_0000_0000_0000_0000_0000 +
      z[3] as int * 0x1_0000_0000_0000_0000_0000_0000_0000_0000_0000_0000_0000_0000
  }

  /** `softfloat_mul128To256M`. */
  method Mul128To256M(a: U128, b: U128, z: array<Word64>)
    requires z.Length == 4
    modifies z
    ensures Val256(z[..]) == a.Val() * b.Val()
  {
    hide U128.Val, Val256;
    var p0 := Mul64To128(a.v0, b.v0);
    z[0] := p0.v0;
    var p64 := Mul64To128(a.v64, b.v0);
    ghost var q10 := p64;
    var z64 := Wrap64(p64.v0 + p0.v64);
    HighWordSmall(a.v64, b.v0, p64);
    var z128 := Wrap64(p64.v64 + if z64 < p64.v0 then 1 else 0);
    assert z128 * 0x1_0000_0000_0000_0000 + z64 == q10.v64 * 0x1_0000_0000_0000_0000 + q10.v0 + p0.v64;
    var p128 := Mul64To128(a.v64, b.v64);
    HighWordSmall(a.v64, b.v64, p128);
    ghost var low := z128;
    z128 := Wrap64(z128 + p128.v0);
    var z192 := Wrap64(p128.v64 + if z128 < p128.v0 then 1 else 0);
    assert z192 * 0x1_0000_0000_0000_0000 + z128 == p128.v64 * 0x1_0000_0000_0000_0000 + p128.v0 + low;
    p64 := Mul64To128(a.v0, b.v64);
    HighWordSmall(a.v0, b.v64, p64);
    ghost var q01, mid, high := p64, z64, z128;
    z64 := Wrap64(z64 + p64.v0);
    z[1] := z64;
    p64 := p64.(v64 := Wrap64(p64.v64 + if z64 < p64.v0 then 1 else 0));
    assert p64.v64 * 0x1_0000_0000_0000_0000 + z64 == q01.v64 * 0x1_0000_0000_0000_0000 + q01.v0 + mid;
    z128 := Wrap64(z128 + p64.v64);
    z[2] := z128;
    ghost var carry := if z128 < p64.v64 then 1 else 0;
    assert z128 + carry * 0x1_0000_0000_0000_0000 == high + p64.v64;
    z[3] := Wrap64(z192 + if z128 < p64.v64 then 1 else 0);
    assert z[..] == [p0.v0, z64, z128, Wrap64(z192 + carry)];
    ColumnSum(a, b, p0, q10, q01, p128, p0.v0, z64, z128, z192, carry);
  }

  lemma {:induction false} HighWordSmall(x: Word64, y: Word64, p: U128)
    requires p.Val() == x * y
    ensures p.v64 <= 0xFFFF_FFFF_FFFF_FFFE
  {
    MulLe(x, 0xFFFF_FFFF_FFFF_FFFF, y);
    MulLe(0, x, y);
  }

  /** The four partial products, added column by column, make the whole product. */
  lemma {:induction false} ColumnSum(a: U128, b: U128, p0: U128, q10: U128, q01: U128, p128: U128,
      w0: Word64, w1: Word64, w2: Word64, z192: Word64, carry: nat)
    requires p0.Val() == a.v0 * b.v0 && q10.Val() == a.v64 * b.v0
    requires q01.Val() == a.v0 * b.v64 && p128.Val() == a.v64 * b.v64 && carry <= 1
    requires w0 + w1 * 0x1_0000_0000_0000_0000 +
      w2 * 0x1_0000_0000_0000_0000_0000_0000_0000_0000 +
      (z192 + carry) * 0x1_0000_0000_0000_0000_0000_0000_0000_0000_0000_0000_0000_0000 ==
      p0.v0 + (p0.v64 + q10.v0 + q01.v0) * 0x1_0000_0000_0000_0000 +
      (q10.v64 + q01.v64 + p128.v0) * 0x1_0000_0000_0000_0000_0000_0000_0000_0000 +
      p128.v64 * 0x1_0000_0000_0000_0000_0000_0000_0000_0000_0000_0000_0000_0000
    ensures Val256([w0, w1, w2, Wrap64(z192 + carry)]) == a.Val() * b.Val()
  {
    WordProducts(a.v64, a.v0, b.v64, b.v0);
    WideProductFits(a.Val(), b.Val());
    var z := [w0, w1, w2, Wrap64(z192 + carry)];
    assert z[0] == w0 && z[1] == w1 && z[2] == w2;
  }

  lemma {:induction false} WordProducts(a1: int, a0: int, b1: int, b0: int)
    ensures (a1 * 0x1_0000_0000_0000_0000 + a0) * (b1 * 0x1_0000_0000_0000_0000 + b0) ==
      (a1 * b1) * 0x1_0000_0000_0000_0000_0000_0000_0000_0000 +
      (a1 * b0 + a0 * b1) * 0x1_0000_0000_0000_0000 + a0 * b0
  {
    Distribute(a1, a0, 0x1_0000_0000_0000_0000, b1 * 0x1_0000_0000_0000_0000 + b0);
    Distribute(b1, b0, 0x1_0000_0000_0000_0000, a1);
    Distribute(b1, b0, 0x1_0000_0000_0000_0000, a0);
  }

  lemma {:induction false} WideProductFits(x: nat, y: nat)
    requires x < 0x1_0000_0000_0000_0000_0000_0000_0000_0000
    requires y < 0x1_0000_0000_0000_0000_0000_0000_0000_0000
    ensures x * y < 0x1_0000_0000_0000_0000_0000_0000_0000_0000_0000_0000_0000_0000_0000_0000_0000_0000
  {
    MulLe(x, 0xFFFF_FFFF_FFFF_FFFF_FFFF_FFFF_FFFF_FFFF, y);
  }
}
