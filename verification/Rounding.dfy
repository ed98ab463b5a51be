/** What IEEE 754 asks of a rounded result, stated without reference to any bit manipulation.

    The non-negative codes of a binary format (the packed encodings with the sign bit clear) lie on
    a line: the significand is added to the exponent field, so that a carry out of the significand
    moves to the next binade.  `Quanta` is the value of a code as a multiple of the format's least
    subnormal number; it is continued past the largest finite code, as if the exponent field had no
    limit, so that rounding and overflow can be told apart. */
module Rounding {
  import opened Powers

  datatype Mode = NearEven | MinMag | Min | Max | NearMaxMag | Odd

  datatype Tininess = BeforeRounding | AfterRounding

  datatype Flag = Inexact | Underflow | Overflow | Infinite | Invalid

  /** A binary interchange format: the width of the trailing significand field, the exponent field
      of the infinities and NaNs, and the exponent of the least subnormal number 2^leastExp. */
  datatype FormatParameters = Format(fracBits: nat, maxExp: nat, leastExp: int)

  type Format = f: FormatParameters | 0 < f.maxExp witness Format(0, 1, 0)

  const F32: Format := Format(23, 0xFF, -149)
  const F64: Format := Format(52, 0x7FF, -1074)
  const F128: Format := Format(112, 0x7FFF, -16494)

  /** The packing of an exponent field and a significand that overlaps it by at most its carry. */
  function Pack(f: Format, exp: nat, sig: nat): nat {
    ShlNonneg(exp, f.fracBits);
    Shl(exp, f.fracBits) + sig
  }

  function InfCode(f: Format): nat {
    Pack(f, f.maxExp, 0)
  }

  function Hidden(f: Format): nat {
    Pow2(f.fracBits)
  }

  function Quanta(f: Format, c: nat): nat {
    FieldQuanta(f, Shr(c, f.fracBits), LowBits(c, f.fracBits))
  }

  /** The value, in quanta, of an exponent field and a trailing significand field. */
  function FieldQuanta(f: Format, exp: nat, frac: nat): nat {
    if exp == 0 then frac else
      ShlNonneg(Hidden(f) + frac, exp - 1);
      Shl(Hidden(f) + frac, exp - 1)
  }

  /** The real value of a code. */
  ghost function Value(f: Format, c: nat): real {
    Scale(Quanta(f, c) as real, f.leastExp)
  }

  /** Adding a significand, implicit bit included, to an exponent field packs its value. */
  lemma {:induction false} QuantaOfPacked(f: Format, exp: nat, sig: nat)
    requires sig <= 2 * Hidden(f) && (exp == 0 || Hidden(f) <= sig)
    ensures Quanta(f, Pack(f, exp, sig)) == Shl(sig, exp)
  {
    var h := Hidden(f);
    ShlNext(exp, f.fracBits);
    ShlNext(exp + 1, f.fracBits);
    if sig < h {
      ShrUnique(Pack(f, exp, sig), f.fracBits, exp, sig);
    } else if sig < 2 * h {
      ShrUnique(Pack(f, exp, sig), f.fracBits, exp + 1, sig - h);
    } else {
      ShrUnique(Pack(f, exp, sig), f.fracBits, exp + 2, 0);
      ShlShl(h, 1, exp);
    }
  }

  /** Splits a code into the exponent and significand that pack to it. */
  lemma {:induction false} Unpack(f: Format, c: nat) returns (exp: nat, sig: nat)
    ensures sig < 2 * Hidden(f) && (exp == 0 || Hidden(f) <= sig)
    ensures c == Pack(f, exp, sig)
  {
    ShrSplits(c, f.fracBits);
    exp, sig := Shr(c, f.fracBits), LowBits(c, f.fracBits);
    if exp > 0 {
      ShlNext(exp - 1, f.fracBits);
      exp, sig := exp - 1, sig + Hidden(f);
    }
  }

  lemma {:induction false} QuantaNext(f: Format, c: nat)
    ensures Quanta(f, c) < Quanta(f, c + 1)
  {
    var exp, sig := Unpack(f, c);
    QuantaOfPacked(f, exp, sig);
    QuantaOfPacked(f, exp, sig + 1);
    ShlOrder(sig, sig + 1, exp);
  }

  lemma {:induction false} QuantaMonotone(f: Format, b: nat, c: nat)
    requires b < c
    ensures Quanta(f, b) < Quanta(f, c)
    decreases c
  {
    QuantaNext(f, c - 1);
    if b < c - 1 {
      QuantaMonotone(f, b, c - 1);
    }
  }

  lemma {:induction false} QuantaAtLeast(f: Format, c: nat)
    ensures c <= Quanta(f, c)
  {
    if c > 0 {
      QuantaAtLeast(f, c - 1);
      QuantaNext(f, c - 1);
    }
  }

  /** `c` is the last code whose value does not exceed `x` quanta. */
  ghost predicate Bracketed(f: Format, x: real, c: nat) {
    Quanta(f, c) as real <= x < Quanta(f, c + 1) as real
  }

  lemma {:induction false} FloorExists(f: Format, x: real, c: nat)
    requires 0.0 <= x < Quanta(f, c) as real
    ensures exists b :: Bracketed(f, x, b)
  {
    if c > 0 && x < Quanta(f, c - 1) as real {
      FloorExists(f, x, c - 1);
    } else if c > 0 {
      assert Bracketed(f, x, c - 1);
    } else {
      QuantaOfZero(f);
    }
  }

  lemma {:induction false} QuantaOfZero(f: Format)
    ensures Quanta(f, 0) == 0
  {
    QuantaOfPacked(f, 0, 0);
    ShlOne(f.fracBits);
  }

  ghost function FloorCode(f: Format, x: real): (c: nat)
    requires 0.0 <= x
    ensures Bracketed(f, x, c)
  {
    QuantaAtLeast(f, x.Floor + 1);
    FloorExists(f, x, x.Floor + 1);
    var c :| Bracketed(f, x, c); c
  }

  lemma {:induction false} FloorUnique(f: Format, x: real, b: nat, c: nat)
    requires Bracketed(f, x, b) && Bracketed(f, x, c)
    ensures b == c
  {
    if b + 1 < c {
      QuantaMonotone(f, b + 1, c);
    } else if c + 1 < b {
      QuantaMonotone(f, c + 1, b);
    }
  }

  /** Chooses between code `c`, `below` quanta under the exact value, and code `c + 1`, `above`
      quanta over it. */
  function Pick(mode: Mode, sign: bool, c: nat, below: real, above: real): nat {
    match mode
    case NearEven => if below < above || (below == above && c % 2 == 0) then c else c + 1
    case NearMaxMag => if below < above then c else c + 1
    case MinMag => c
    case Min => if sign && below > 0.0 then c + 1 else c
    case Max => if !sign && below > 0.0 then c + 1 else c
    case Odd => if below > 0.0 && c % 2 == 0 then c + 1 else c
  }

  /** The magnitude `x`, given in quanta, rounded as if the exponent range had no upper end. */
  ghost function Rounded(f: Format, mode: Mode, sign: bool, x: real): nat
    requires 0.0 <= x
  {
    var c := FloorCode(f, x);
    Pick(mode, sign, c, x - Quanta(f, c) as real, Quanta(f, c + 1) as real - x)
  }

  /** Where a result beyond the largest finite code goes (section 7.4 of IEEE 754-2008). */
  function OverflowsToInf(mode: Mode, sign: bool): bool {
    mode == NearEven || mode == NearMaxMag || mode == (if sign then Min else Max)
  }

  /** The magnitude delivered (sections 4.3 and 7.4 of IEEE 754-2008). */
  ghost function Delivered(f: Format, mode: Mode, sign: bool, x: real): nat
    requires 0.0 <= x
  {
    var r := Rounded(f, mode, sign, x);
    ShlNonneg(f.maxExp, f.fracBits);
    if r < InfCode(f) then r else if OverflowsToInf(mode, sign) then InfCode(f) else InfCode(f) - 1
  }

  /** Tininess (section 7.5 of IEEE 754-2008).  After rounding: a magnitude under the least normal
      number lies one binade or more below it, where a result of unbounded exponent range has at
      least twice the resolution, so it is the rounding of 2x that tells whether the normal range
      is reached. */
  ghost predicate Tiny(f: Format, tininess: Tininess, mode: Mode, sign: bool, x: real)
    requires 0.0 <= x
  {
    x < Hidden(f) as real &&
    (tininess == BeforeRounding || Rounded(f, mode, sign, 2.0 * x) < 2 * Hidden(f))
  }

  /** The exceptions signalled on delivery (sections 7.4 to 7.6 of IEEE 754-2008). */
  ghost function Signals(f: Format, tininess: Tininess, mode: Mode, sign: bool, x: real): set<Flag>
    requires 0.0 <= x
  {
    var r := Rounded(f, mode, sign, x);
    if InfCode(f) <= r then {Overflow, Inexact}
    else if Quanta(f, r) as real == x then {}
    else if Tiny(f, tininess, mode, sign, x) then {Underflow, Inexact}
    else {Inexact}
  }

  /** A rounded result is a nearest one: no code of the format is strictly closer. */
  lemma {:induction false} NearestIsNearest(f: Format, mode: Mode, sign: bool, x: real, c: nat)
    requires 0.0 <= x && (mode == NearEven || mode == NearMaxMag)
    ensures var r := Rounded(f, mode, sign, x);
      Distance(f, x, r) <= Distance(f, x, c)
  {
    OutsideBracket(f, x, c);
  }

  ghost function Distance(f: Format, x: real, c: nat): real {
    var v := Quanta(f, c) as real;
    if x < v then v - x else x - v
  }

  lemma {:induction false} OutsideBracket(f: Format, x: real, c: nat)
    requires 0.0 <= x
    ensures var b := FloorCode(f, x);
      (c <= b ==> Quanta(f, c) <= Quanta(f, b)) && (b < c ==> Quanta(f, b + 1) <= Quanta(f, c))
  {
    var b := FloorCode(f, x);
    if c < b {
      QuantaMonotone(f, c, b);
    } else if b + 1 < c {
      QuantaMonotone(f, b + 1, c);
    }
  }

  /** On a tie, near-even delivers the even code and near-max-magnitude the larger one. */
  lemma {:induction false} NearestTies(f: Format, sign: bool, x: real, c: nat)
    requires 0.0 <= x
    ensures var r := Rounded(f, NearEven, sign, x);
      c != r && Distance(f, x, c) == Distance(f, x, r) ==> r % 2 == 0 && c % 2 == 1
    ensures var r := Rounded(f, NearMaxMag, sign, x);
      c != r && Distance(f, x, c) == Distance(f, x, r) ==> c < r
  {
    var b := FloorCode(f, x);
    if c < b {
      QuantaMonotone(f, c, b);
    } else if b + 1 < c {
      QuantaMonotone(f, b + 1, c);
    }
  }

  /** Directed rounding: toward zero gives the greatest code not above, away from zero the least
      code not below. */
  lemma {:induction false} DirectedIsTightest(f: Format, mode: Mode, sign: bool, x: real, c: nat)
    requires 0.0 <= x && (mode == MinMag || mode == Min || mode == Max)
    ensures var r := Rounded(f, mode, sign, x);
      if mode == (if sign then Min else Max)
      then x <= Quanta(f, r) as real && (x <= Quanta(f, c) as real ==> r <= c)
      else Quanta(f, r) as real <= x && (Quanta(f, c) as real <= x ==> c <= r)
  {
    var b := FloorCode(f, x);
    if c < b {
      QuantaMonotone(f, c, b);
    } else if b + 1 <= c {
      if b + 1 < c { QuantaMonotone(f, b + 1, c); }
    }
  }

  /** Every mode leaves a representable value alone. */
  lemma {:induction false} ExactIsKept(f: Format, mode: Mode, sign: bool, c: nat)
    ensures Rounded(f, mode, sign, Quanta(f, c) as real) == c
  {
    var x := Quanta(f, c) as real;
    QuantaNext(f, c);
    FloorUnique(f, x, c, FloorCode(f, x));
  }

  /** A result equals the exact value only when nothing was rounded off. */
  lemma {:induction false} InexactIff(f: Format, mode: Mode, sign: bool, x: real)
    requires 0.0 <= x
    ensures Quanta(f, Rounded(f, mode, sign, x)) as real == x <==>
      Quanta(f, FloorCode(f, x)) as real == x
  {
  }

  /** Rounding is monotone. */
  lemma {:induction false} RoundedMonotone(f: Format, mode: Mode, sign: bool, x: real, y: real)
    requires 0.0 <= x <= y
    ensures Rounded(f, mode, sign, x) <= Rounded(f, mode, sign, y)
  {
    OutsideBracket(f, x, FloorCode(f, y));
    OutsideBracket(f, y, FloorCode(f, x));
  }

  /** Rounding to odd keeps the lowest bit sticky: the result is odd unless it is exact. */
  lemma {:induction false} OddIsSticky(f: Format, sign: bool, x: real)
    requires 0.0 <= x
    ensures var r := Rounded(f, Odd, sign, x);
      Quanta(f, r) as real == x || (r % 2 == 1 && (r == FloorCode(f, x) || r == FloorCode(f, x) + 1))
  {
  }
}
