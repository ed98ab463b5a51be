/** Integers that stand in for real numbers in rounding: a sticky lowest bit, or a bounded error
    kept away from the places where rounding changes its mind. */
module Sticky {
  import opened Arith
  import opened Powers
  import opened Rounding

  /** Integer `s` and real `y` lie on the same multiple of 2^g, or strictly between the same two
      neighbouring multiples of 2^g. */
  ghost predicate Faithful(g: nat, s: int, y: real) {
    exists q: int :: SamePlace(g, q, s, y)
  }

  ghost predicate SamePlace(g: nat, q: int, s: int, y: real) {
    var lo, hi := Shl(q, g), Shl(q + 1, g);
    (s == lo && y == lo as real) || (lo < s < hi && lo as real < y < hi as real)
  }

  lemma {:induction false} FloorMultiple(g: nat, s: int) returns (q: int)
    ensures Shl(q, g) <= s < Shl(q + 1, g)
  {
    ShlNext(s / Pow2(g), g);
    ShlIsTimes(s / Pow2(g), g);
    DivMod(s, Pow2(g));
    q := s / Pow2(g);
  }

  lemma {:induction false} FaithfulExact(g: nat, s: int)
    ensures Faithful(g, s, s as real)
  {
    var q := FloorMultiple(g, s);
    assert SamePlace(g, q, s, s as real);
  }

  /** No multiple of 2^g tells `s` and `y` apart. */
  lemma {:induction false} FaithfulAt(g: nat, s: int, y: real, k: int)
    requires Faithful(g, s, y)
    ensures s < Shl(k, g) <==> y < Shl(k, g) as real
    ensures s == Shl(k, g) <==> y == Shl(k, g) as real
  {
    var q :| SamePlace(g, q, s, y);
    ShlOrder(k, q, g);
    ShlOrder(q, k, g);
    ShlOrder(k, q + 1, g);
    ShlOrder(q + 1, k, g);
  }

  /** What is faithful at a fine spacing is faithful at a coarser one. */
  lemma {:induction false} FaithfulCoarser(g: nat, g': nat, s: int, y: real)
    requires g <= g' && Faithful(g, s, y)
    ensures Faithful(g', s, y)
  {
    var q := FloorMultiple(g', s);
    ShlShl(q, g' - g, g);
    ShlShl(q + 1, g' - g, g);
    FaithfulAt(g, s, y, Shl(q, g' - g));
    FaithfulAt(g, s, y, Shl(q + 1, g' - g));
    assert SamePlace(g', q, s, y);
  }

  lemma {:induction false} FaithfulShift(g: nat, s: int, y: real, k: int)
    requires Faithful(g, s, y)
    ensures Faithful(g, s + Shl(k, g), y + Shl(k, g) as real)
  {
    var q :| SamePlace(g, q, s, y);
    ShlAdd(q, k, g);
    ShlAdd(q + 1, k, g);
    assert q + k + 1 == q + 1 + k;
    assert SamePlace(g, q + k, s + Shl(k, g), y + Shl(k, g) as real);
  }

  lemma {:induction false} FaithfulNegate(g: nat, s: int, y: real)
    requires Faithful(g, s, y)
    ensures Faithful(g, -s, -y)
  {
    var q :| SamePlace(g, q, s, y);
    ShlOne(g);
    ShlAdd(q, -q, g);
    ShlAdd(q + 1, -q - 1, g);
    if s == Shl(q, g) {
      assert SamePlace(g, -q, -s, -y);
    } else {
      assert SamePlace(g, -q - 1, -s, -y);
    }
  }

  /** Scaling both sides up scales the spacing. */
  lemma {:induction false} FaithfulScaleUp(g: nat, s: int, y: real, k: nat)
    requires Faithful(g, s, y)
    ensures Faithful(g + k, Shl(s, k), Scale(y, k))
  {
    var q :| SamePlace(g, q, s, y);
    ShlShl(q, g, k);
    ShlShl(q + 1, g, k);
    ShlOrder(Shl(q, g), s, k);
    ShlOrder(s, Shl(q + 1, g), k);
    ScaleCompare(y, k, k, Shl(q, g));
    ScaleCompare(y, k, k, Shl(q + 1, g));
    assert SamePlace(g + k, q, Shl(s, k), Scale(y, k));
  }

  /** Shifts right by `d`; if nonzero bits are lost, the lowest bit of the result is set. */
  function Jam(s: nat, d: nat): nat {
    OrOne(Shr(s, d), LowBits(s, d) != 0)
  }

  function OrOne(s: nat, bit: bool): nat {
    if bit && s % 2 == 0 then s + 1 else s
  }

  /** `t` is `s` shifted right by `d` as far as bits `g` and up can tell, and the `g` low bits of
      `t` are zero just when everything shifted below them was. */
  predicate ShiftedPlace(g: nat, t: nat, s: nat, d: nat) {
    Shr(t, g) == Shr(s, g + d) && (LowBits(t, g) == 0 <==> LowBits(s, g + d) == 0)
  }

  lemma {:induction false} ShiftedFaithful(g: nat, t: nat, s: nat, y: real, d: nat)
    requires Faithful(g, s, y) && ShiftedPlace(g, t, s, d)
    ensures Faithful(g, t, Scale(y, -(d as int)))
  {
    var q := Shr(t, g);
    ShrSplits(t, g);
    ShrSplits(s, g + d);
    AtMultiple(g, s, y, d, q);
    AtMultiple(g, s, y, d, q + 1);
    ShlShl(q, g, d);
    ShlShl(q + 1, g, d);
    ShlNext(q, g);
    ShlNext(q, g + d);
    assert SamePlace(g, q, t, Scale(y, -(d as int)));
  }

  /** Shifting keeps the place when every bit under position `m` of `s` shows up only as a sticky
      bit under position `g`. */
  lemma {:induction false} StickyPlace(g: nat, w: nat, m: nat, e: nat, j: nat, t: nat)
    requires 0 < g && j <= g && j <= m && e < Pow2(m)
    requires 0 <= Shl(w, j) && t == OrOne(Shl(w, j), e != 0)
    ensures 0 <= Shl(w, m) + e && ShiftedPlace(g, t, Shl(w, m) + e, m - j)
  {
    var q, r := Shr(w, g - j), LowBits(w, g - j);
    SplitShl(w, g - j, j);
    SplitShl(w, g - j, m);
    ShlNonneg(w, m);
    EvenShl(q, g);
    OddFits(r, j, g, Shl(q, g), e != 0);
    ShrUnique(t, g, q, t - Shl(q, g));
    ShrUnique(Shl(w, m) + e, g + (m - j), q, Shl(r, m) + e);
  }

  lemma {:induction false} EvenShl(q: nat, g: nat)
    requires 0 < g
    ensures 0 <= Shl(q, g) && Shl(q, g) % 2 == 0
  {
    ShlNonneg(q, g);
  }

  lemma {:induction false} SplitShl(w: nat, i: nat, j: nat)
    ensures Shl(w, j) == Shl(Shr(w, i), i + j) + Shl(LowBits(w, i), j)
    ensures 0 <= Shl(LowBits(w, i), j) && Shl(LowBits(w, i), j) + Pow2(j) <= Pow2(i + j)
    ensures LowBits(w, i) == 0 <==> Shl(LowBits(w, i), j) == 0
  {
    var q, r := Shr(w, i), LowBits(w, i);
    ShrSplits(w, i);
    ShlAdd(Shl(q, i), r, j);
    ShlShl(q, i, j);
    ShlNonneg(r, j);
    ShlOne(j);
    ShlBound(r, i, j);
  }

  lemma {:induction false} ShlBound(r: nat, i: nat, j: nat)
    requires r < Pow2(i)
    ensures Shl(r, j) + Pow2(j) <= Pow2(i + j)
  {
    ShlOne(i);
    ShlOne(i + j);
    ShlShl(1, i, j);
    ShlNext(r, j);
    ShlOrder(Pow2(i), r + 1, j);
  }

  /** Setting the lowest bit does not carry into bit `g`. */
  lemma {:induction false} OddFits(r: nat, j: nat, g: nat, base: int, bit: bool)
    requires 0 < g && base % 2 == 0 && 0 <= base && 0 <= Shl(r, j) && Shl(r, j) + Pow2(j) <= Pow2(g)
    ensures base + Shl(r, j) <= OrOne(base + Shl(r, j), bit) < base + Pow2(g)
  {
  }

  /** A jammed shift by at least `k` divides an even power-of-two bound by 2^k. */
  lemma {:induction false} JamBound(s: nat, d: nat, k: nat, bound: nat)
    requires k <= d && 0 <= Shl(bound, k) && s < Shl(bound, k) && bound % 2 == 0
    ensures Jam(s, d) < bound
  {
    if k == 0 {
      ShrAtMost(s, d);
    } else {
      JamBound(s / 2, d - 1, k - 1, bound);
    }
  }

  lemma {:induction false} ShrAtMost(s: nat, d: nat)
    ensures Shr(s, d) <= s
  {
    if d > 0 {
      ShrAtMost(s / 2, d - 1);
    }
  }

  lemma {:induction false} JamPlace(g: nat, s: nat, d: nat)
    requires 0 < g
    ensures ShiftedPlace(g, Jam(s, d), s, d)
  {
    ShrSplits(s, d);
    StickyPlace(g, Shr(s, d), d, LowBits(s, d), 0, Jam(s, d));
  }

  /** Jamming keeps an integer faithful at every even spacing. */
  lemma {:induction false} JamFaithful(g: nat, s: nat, y: real, d: nat)
    requires 0 < g && Faithful(g, s, y)
    ensures Faithful(g, Jam(s, d), Scale(y, -(d as int)))
  {
    JamPlace(g, s, d);
    ShiftedFaithful(g, Jam(s, d), s, y, d);
  }

  lemma {:induction false} AtMultiple(g: nat, s: int, y: real, d: nat, q: int)
    requires Faithful(g, s, y)
    ensures s < Shl(Shl(q, g), d) <==> Scale(y, -(d as int)) < Shl(q, g) as real
    ensures s == Shl(Shl(q, g), d) <==> Scale(y, -(d as int)) == Shl(q, g) as real
  {
    ShlShl(q, g, d);
    ShlShl(q, d, g);
    FaithfulAt(g, s, y, Shl(q, d));
    ScaleCompare(y, 0, d, Shl(q, g));
  }

  /** Compares a rounded-off integer with `n` half units of its last place, and the real it stands
      for with the same number of half units. */
  lemma {:induction false} HalfUnits(s: int, x: real, exp: nat, g: nat, n: int)
    requires Faithful(g, s, Scale(x, g + 1 - exp))
    ensures s < Shl(n, g) <==> 2.0 * x < Shl(n, exp) as real
    ensures s == Shl(n, g) <==> 2.0 * x == Shl(n, exp) as real
  {
    FaithfulAt(g, s, Scale(x, g + 1 - exp), n);
    ScaleCompare(x, g + 1 - exp, g, n);
    ScaleCompare(x, 1, exp, n);
    assert Scale(x, 1) == 2.0 * x;
  }

  lemma {:induction false} HalfUnitPlace(x: real, exp: nat, g: nat, sig: nat, bits: nat)
    requires bits < 2 * Pow2(g) && Faithful(g, Shl(sig, g + 1) + bits, Scale(x, g + 1 - exp))
    ensures var lo, hi := Shl(sig, exp), Shl(sig + 1, exp);
      lo as real <= x < hi as real && (bits == 0 <==> x == lo as real) &&
      (bits < Pow2(g) <==> 2.0 * x < (lo + hi) as real) &&
      (bits == Pow2(g) <==> 2.0 * x == (lo + hi) as real)
  {
    var s := Shl(sig, g + 1) + bits;
    HalfSteps(sig, g);
    HalfSteps(sig, exp);
    HalfUnits(s, x, exp, g, 2 * sig);
    HalfUnits(s, x, exp, g, 2 * sig + 1);
    HalfUnits(s, x, exp, g, 2 * sig + 2);
  }

  lemma {:induction false} HalfSteps(n: int, k: nat)
    ensures Shl(n, k + 1) == Shl(2 * n, k) == 2 * Shl(n, k)
    ensures Shl(n + 1, k) == Shl(n, k) + Pow2(k)
    ensures Shl(2 * n + 1, k) == 2 * Shl(n, k) + Pow2(k)
    ensures Shl(2 * n + 2, k) == 2 * Shl(n, k) + 2 * Pow2(k)
  {
    ShlAdd(n, n, k);
    ShlNext(n, k);
    ShlNext(2 * n, k);
    ShlNext(2 * n + 1, k);
  }

  /** An integer with a half unit in the last place of 2^g, faithful at that spacing, tells where
      the exact value lies among the codes of the format and on which side of the midpoint. */
  lemma {:induction false} FloorFromFaithful(f: Format, x: real, exp: nat, g: nat, sig: nat, bits: nat)
    requires bits < 2 * Pow2(g) && sig < 2 * Hidden(f) && (exp == 0 || Hidden(f) <= sig)
    requires Faithful(g, Shl(sig, g + 1) + bits, Scale(x, g + 1 - exp))
    ensures 0.0 <= x && FloorCode(f, x) == Pack(f, exp, sig)
    ensures var c := Pack(f, exp, sig);
      var below, above := x - Quanta(f, c) as real, Quanta(f, c + 1) as real - x;
      (bits == 0 <==> below == 0.0) &&
      (bits < Pow2(g) <==> below < above) && (bits == Pow2(g) <==> below == above)
  {
    HalfUnitPlace(x, exp, g, sig, bits);
    QuantaOfPacked(f, exp, sig);
    QuantaOfPacked(f, exp, sig + 1);
    FloorUnique(f, x, Pack(f, exp, sig), FloorCode(f, x));
  }

  lemma {:induction false} JamNothing(n: nat)
    ensures Jam(n, 0) == n
  {
  }
}
