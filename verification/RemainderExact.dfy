/** The remainder is always representable: delivering it never rounds. */
module RemainderExact {
  import opened Arith
  import opened Powers
  import opened Rounding
  import opened Operations
  import opened Quotients
  import opened Remainders
  import opened Estimate

  /** Significands that fit the format, at any exponent, are values of codes. */
  lemma {:induction false} Representable(f: Format, m: nat, k: nat) returns (c: nat)
    requires m < 2 * Hidden(f)
    ensures 0 <= Shl(m, k) == Quanta(f, c)
    decreases k
  {
    if k > 0 && m < Hidden(f) {
      ShlShl(m, 1, k - 1);
      c := Representable(f, 2 * m, k - 1);
    } else {
      QuantaOfPacked(f, k, m);
      c := Pack(f, k, m);
    }
  }

  lemma {:induction false} NearestExists(n: nat, d: int) returns (q: int, rem: int)
    requires 0 < d
    ensures IsNearest(n, d, q, rem)
  {
    DivMod(n, d);
    q, rem := n / d, n % d;
    if d < 2 * rem || (2 * rem == d && q % 2 == 1) {
      OneLess(q, d);
      q, rem := q + 1, rem - d;
    }
  }

  lemma {:induction false} NearestOfSmall(n: nat, d: int, q: int, rem: int)
    requires IsNearest(n, d, q, rem) && 2 * n < d
    ensures rem == n
  {
    if 1 <= q {
      MulLe(1, q, d);
    } else if q <= -1 {
      MulLe(q, -1, d);
    }
  }

  /** A multiple of 2^k up to a bound on that scale. */
  lemma {:induction false} RepresentableSigned(f: Format, m: int, k: nat, bound: int) returns (c: nat)
    requires -bound <= m <= bound && bound < 2 * Hidden(f)
    ensures var r := Shl(m, k); Quanta(f, c) == if r < 0 then -r else r
  {
    ShlAdd(m, -m, k);
    ShlOne(k);
    ShlOrder(m, 0, k);
    if m < 0 {
      c := Representable(f, -m, k);
    } else {
      c := Representable(f, m, k);
    }
  }

  lemma {:induction false} RemainderRepresentable(f: Format, a: nat, b: nat, q: int, rem: int)
    returns (c: nat)
    requires IsNearest(Quanta(f, a), Quanta(f, b), q, rem)
    ensures Quanta(f, c) == if rem < 0 then -rem else rem
  {
    var ea, sa := Unpack(f, a);
    var eb, sb := Unpack(f, b);
    QuantaOfPacked(f, ea, sa);
    QuantaOfPacked(f, eb, sb);
    if eb <= ea {
      var m := Shl(sa, ea - eb) - q * sb;
      ShlShl(sa, ea - eb, eb);
      RemainderScaled(Shl(sa, ea - eb), sb, q, eb, rem);
      c := RepresentableSigned(f, m, eb, sb);
    } else if eb == ea + 1 {
      var m := sa - q * (2 * sb);
      ShlShl(sb, 1, ea);
      RemainderScaled(sa, 2 * sb, q, ea, rem);
      c := RepresentableSigned(f, m, ea, sb);
    } else {
      FarApart(f, sa, ea, sb, eb);
      NearestOfSmall(Quanta(f, a), Quanta(f, b), q, rem);
      c := a;
    }
  }

  /** A remainder keeps its scale and its bound. */
  lemma {:induction false} RemainderScaled(n: int, d: int, q: int, k: nat, rem: int)
    requires Shl(n, k) == q * Shl(d, k) + rem && -Shl(d, k) <= 2 * rem <= Shl(d, k)
    ensures rem == Shl(n - q * d, k) && -d <= 2 * (n - q * d) <= d
  {
    var m := n - q * d;
    ShlMul(d, q, k);
    ShlAdd(m, d * q, k);
    ShlAdd(m, m, k);
    ShlOrder(d, 2 * m, k);
    ShlAdd(2 * m, d, k);
    ShlOrder(2 * m + d, 0, k);
    ShlOne(k);
  }

  lemma {:induction false} FarApart(f: Format, sa: nat, ea: nat, sb: nat, eb: nat)
    requires sa < 2 * Hidden(f) && Hidden(f) <= sb && ea + 2 <= eb
    ensures 2 * Shl(sa, ea) < Shl(sb, eb)
  {
    ShlGrows(sb, 2, eb - ea);
    ShlShl(sb, eb - ea, ea);
    assert Shl(sb, 2) == 2 * Shl(sb, 1);
    ShlAdd(sa, sa, ea);
    ShlOrder(2 * sa, Shl(sb, eb - ea), ea);
  }

  lemma {:induction false} QuantaReflects(f: Format, b: nat, c: nat)
    requires Quanta(f, b) <= Quanta(f, c)
    ensures b <= c
  {
    if c < b {
      QuantaMonotone(f, c, b);
    }
  }

  function Size(n: int): nat {
    if n < 0 then -n else n
  }

  lemma {:induction false} NearestBound(n: nat, d: int, q: int, rem: int)
    requires IsNearest(n, d, q, rem)
    ensures 2 * Size(rem) <= d
  {
  }

  lemma {:induction false} CodeDelivered(f: Format, env: Environment, sign: bool, c: nat)
    requires c < InfCode(f)
    ensures Delivered(f, env.mode, sign, Quanta(f, c) as real) == c
    ensures Signals(f, env.tininess, env.mode, sign, Quanta(f, c) as real) == {}
  {
    ExactIsKept(f, env.mode, sign, c);
    hide Rounded, Quanta, InfCode;
  }

  lemma {:induction false} ScaledBounds(rem: int, d: nat, k: int)
    requires 2 * Size(rem) <= d
    ensures Abs(Scale(rem as real, k)) == Scale(Size(rem) as real, k)
    ensures 2.0 * Scale(Size(rem) as real, k) <= Scale(d as real, k)
  {
    var r := Size(rem) as real;
    ScaleSign(rem as real, k);
    ScaleNegate(rem as real, k);
    assert rem < 0 ==> -(rem as real) == r;
    ScaleAdd(r, r, k);
    ScaleOrder(d as real, r + r, k);
  }

  lemma {:induction false} FiniteBelow(f: Format, a: Datum, b: Datum, sign: bool, c: nat)
    requires IsFinite(f, b) && !IsZero(b) && c <= b.code
    ensures 0 < Quanta(f, b.code) && c < InfCode(f)
    ensures Magnitude(f, a) == Scale(Quanta(f, a.code) as real, f.leastExp)
    ensures Magnitude(f, b) == Scale(Quanta(f, b.code) as real, f.leastExp)
    ensures IsFinite(f, Datum(sign, c))
    ensures Magnitude(f, Datum(sign, c)) == Scale(Quanta(f, c) as real, f.leastExp)
  {
    QuantaAtLeast(f, b.code);
  }

  /** The remainder is exact, signals nothing and is at most half the divisor. */
  lemma {:induction false} RemainderIsExact(f: Format, env: Environment, a: Datum, b: Datum)
    requires IsFinite(f, a) && IsFinite(f, b) && !IsZero(b)
    ensures var outcome := Remainder(f, env, a, b);
      outcome.flags == {} && IsFinite(f, outcome.datum) &&
      Magnitude(f, outcome.datum) == Abs(ExactRemainder(Magnitude(f, a), Magnitude(f, b))) &&
      2.0 * Magnitude(f, outcome.datum) <= Magnitude(f, b)
  {
    hide *;
    var n, d := Quanta(f, a.code), Quanta(f, b.code);
    FiniteBelow(f, a, b, a.sign, 0);
    var q, rem := NearestExists(n, d);
    NearestBound(n, d, q, rem);
    var c := RemainderRepresentable(f, a.code, b.code, q, rem);
    SizeIs(rem);
    QuantaReflects(f, c, b.code);
    var sign := if rem < 0 then !a.sign else a.sign;
    FiniteBelow(f, a, b, sign, c);
    ByZero(n as real);
    ByZero(d as real);
    RemainderIs(f, env, a, b, n, d, q, rem, 0);
    ByZero(Quanta(f, c) as real);
    CodeDelivered(f, env, sign, c);
    ScaledRemainder(n, d, q, rem, f.leastExp);
    ScaledBounds(rem, d, f.leastExp);
  }

  lemma {:induction false} SizeIs(n: int)
    ensures Size(n) == if n < 0 then -n else n
  {
  }
}
