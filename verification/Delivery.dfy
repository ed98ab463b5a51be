/** What the specification's delivery of a rounded result comes to, overflow, underflow and exceptions included:
    its definitions in module Rounding, read back as the rules of the standard. */
module Delivery {
  import opened Powers
  import opened Rounding
  import opened Sticky

  /** To nearest, infinity is delivered from the middle between the largest finite number and what would follow
      it, and up (section 4.3.1 of IEEE 754-2008). */
  lemma {:induction false} NearestOverflow(f: Format, mode: Mode, sign: bool, x: real)
    requires 0.0 <= x && 0 < f.fracBits && (mode == NearEven || mode == NearMaxMag)
    ensures 0 < InfCode(f)
    ensures Delivered(f, mode, sign, x) == InfCode(f) <==>
      (Quanta(f, InfCode(f) - 1) + Quanta(f, InfCode(f))) as real <= 2.0 * x
  {
    var top := InfCode(f);
    TopIsEven(f);
    OutsideBracket(f, x, top);
    OutsideBracket(f, x, top - 1);
    hide Quanta, InfCode;
    QuantaNext(f, top - 1);
  }

  lemma {:induction false} TopIsEven(f: Format)
    requires 0 < f.fracBits
    ensures 0 < InfCode(f) && InfCode(f) % 2 == 0
  {
    EvenShl(f.maxExp, f.fracBits);
    ShlOrder(0, f.maxExp, f.fracBits);
    ShlOne(f.fracBits);
  }

  /** A directed mode delivers the tightest bound on its side, infinity included: toward zero the greatest finite
      number not above the magnitude, away from zero the least that is not below it, if there is a finite one. */
  lemma {:induction false} DirectedDelivered(f: Format, mode: Mode, sign: bool, x: real)
    requires 0.0 <= x && 0 < InfCode(f) && (mode == MinMag || mode == Min || mode == Max)
    ensures var d, away := Delivered(f, mode, sign, x), mode == if sign then Min else Max;
      if away then
        (d == InfCode(f) <==> Quanta(f, InfCode(f) - 1) as real < x) && (d < InfCode(f) ==> x <= Quanta(f, d) as real)
      else d < InfCode(f) && Quanta(f, d) as real <= x
    ensures var d, away := Delivered(f, mode, sign, x), mode == if sign then Min else Max;
      forall c: nat :: c < InfCode(f) ==>
        if away then (x <= Quanta(f, c) as real ==> d <= c) else (Quanta(f, c) as real <= x ==> c <= d)
  {
    hide Rounded, InfCode, Quanta;
    DirectedIsTightest(f, mode, sign, x, InfCode(f) - 1);
    var r := Rounded(f, mode, sign, x);
    if InfCode(f) - 1 < r {
      QuantaMonotone(f, InfCode(f) - 1, r);
    } else if r < InfCode(f) - 1 {
      QuantaMonotone(f, r, InfCode(f) - 1);
    }
    forall c: nat | c < InfCode(f)
      ensures if mode == (if sign then Min else Max) then x <= Quanta(f, c) as real ==> r <= c
        else Quanta(f, c) as real <= x ==> c <= r
    {
      DirectedIsTightest(f, mode, sign, x, c);
    }
  }

  /** Rounding to odd never delivers infinity. */
  lemma {:induction false} OddStaysFinite(f: Format, sign: bool, x: real)
    requires 0.0 <= x && 0 < InfCode(f)
    ensures Delivered(f, Odd, sign, x) < InfCode(f)
  {
    hide Rounded, InfCode;
  }

  /** Which exceptions are signalled: inexact when what is delivered is not the exact value, overflow when the
      rounded magnitude has no finite code, underflow when an inexact result is tiny. */
  lemma {:induction false} SignalsAre(f: Format, tininess: Tininess, mode: Mode, sign: bool, x: real)
    requires 0.0 <= x
    ensures var r, d := Rounded(f, mode, sign, x), Delivered(f, mode, sign, x);
      var flags := Signals(f, tininess, mode, sign, x);
      (Overflow in flags <==> InfCode(f) <= r) &&
      (Inexact in flags <==> InfCode(f) <= r || Quanta(f, d) as real != x) &&
      (Underflow in flags <==> r < InfCode(f) && Inexact in flags && Tiny(f, tininess, mode, sign, x)) &&
      Infinite !in flags && Invalid !in flags
  {
    hide Rounded, InfCode, Quanta, Tiny;
  }

  /** Where tininess ends: before rounding, at the least normal number; after rounding, where the mode first
      rounds up to it at the precision of the format, whose spacing just below is half a quantum. */
  lemma {:induction false} TinyIs(f: Format, tininess: Tininess, mode: Mode, sign: bool, x: real)
    requires 0.0 <= x
    ensures Tiny(f, tininess, mode, sign, x) <==>
      if tininess == BeforeRounding then x < Hidden(f) as real
      else if mode == NearEven || mode == NearMaxMag then x < Hidden(f) as real - 0.25
      else if mode == (if sign then Min else Max) then x <= Hidden(f) as real - 0.5
      else x < Hidden(f) as real
  {
    if x < Hidden(f) as real {
      LastBelowTwice(f, 2.0 * x);
      hide Quanta, Hidden, FloorCode;
    }
  }

  /** The codes around twice the least normal number, one quantum apart. */
  lemma {:induction false} LastBelowTwice(f: Format, y: real)
    requires 0.0 <= y < 2.0 * Hidden(f) as real
    ensures var c, last := FloorCode(f, y), 2 * Hidden(f) - 1;
      c <= last && (c == last <==> last as real <= y) &&
      Quanta(f, last) == last && Quanta(f, last + 1) == last + 1
  {
    QuantaAtTwice(f);
    OutsideBracket(f, y, 2 * Hidden(f));
    OutsideBracket(f, y, 2 * Hidden(f) - 1);
    hide Quanta, Hidden;
  }

  lemma {:induction false} QuantaAtTwice(f: Format)
    ensures 0 < Hidden(f)
    ensures Quanta(f, 2 * Hidden(f)) == 2 * Hidden(f) && Quanta(f, 2 * Hidden(f) - 1) == 2 * Hidden(f) - 1
  {
    var h := Hidden(f);
    QuantaOfPacked(f, 1, h);
    QuantaOfPacked(f, 0, 2 * h - 1);
    ShlOne(f.fracBits);
    hide Quanta, Hidden;
    assert Shl(h, 1) == 2 * Shl(h, 0);
  }
}
