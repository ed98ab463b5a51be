/** The integers a fused multiply-add rounds, whatever the format: a product of `w` extra low bits and
    an addend, aligned, added or subtracted, and normalized. */
module Fused {
  import opened Arith
  import opened Operations
  import opened Powers
  import opened Sticky
  import opened Words

  /** Jamming needs its argument to be faithful only at the multiples it is left with. */
  lemma {:induction false} JamKeeps(g: nat, s: nat, y: real, d: nat)
    requires 0 < g && Faithful(g + d, s, y)
    ensures Faithful(g, Jam(s, d), Scale(y, -(d as int)))
  {
    JamPlace(g, s, d);
    hide Jam;
    PlaceKeeps(g, Jam(s, d), s, y, d);
  }

  lemma {:induction false} PlaceKeeps(g: nat, t: nat, s: nat, y: real, d: nat)
    requires Faithful(g + d, s, y) && ShiftedPlace(g, t, s, d)
    ensures Faithful(g, t, Scale(y, -(d as int)))
  {
    var q := Shr(t, g);
    ShrSplits(t, g);
    ShrSplits(s, g + d);
    AtWide(g, s, y, d, q);
    AtWide(g, s, y, d, q + 1);
    ShlNext(q, g);
    ShlNext(q, g + d);
    assert SamePlace(g, q, t, Scale(y, -(d as int)));
  }

  lemma {:induction false} AtWide(g: nat, s: nat, y: real, d: nat, q: int)
    requires Faithful(g + d, s, y)
    ensures s < Shl(q, g + d) <==> Scale(y, -(d as int)) < Shl(q, g) as real
    ensures s == Shl(q, g + d) <==> Scale(y, -(d as int)) == Shl(q, g) as real
  {
    FaithfulAt(g + d, s, y, q);
    ShlShl(q, g, d);
    ScaleCompare(y, 0, d, Shl(q, g));
  }

  lemma {:induction false} EvenIsShl(n: int)
    requires n % 2 == 0
    ensures n == Shl(n / 2, 1)
  {
  }

  /** An even integer added to a jammed term. */
  lemma {:induction false} AddJammed(c: int, s: nat, d: nat)
    requires c % 2 == 0
    ensures Faithful(1, c + Jam(s, d), c as real + Scale(s as real, -(d as int)))
  {
    FaithfulExact(1, s);
    JamFaithful(1, s, s as real, d);
    hide Faithful, Jam, Scale;
    EvenIsShl(c);
    FaithfulShift(1, Jam(s, d), Scale(s as real, -(d as int)), c / 2);
  }

  /** A jammed term taken from an even integer. */
  lemma {:induction false} SubtractJammed(c: int, s: nat, d: nat)
    requires c % 2 == 0
    ensures Faithful(1, c - Jam(s, d), c as real - Scale(s as real, -(d as int)))
  {
    FaithfulExact(1, s);
    JamFaithful(1, s, s as real, d);
    hide Faithful, Jam, Scale;
    EvenIsShl(c);
    FaithfulNegate(1, Jam(s, d), Scale(s as real, -(d as int)));
    FaithfulShift(1, -(Jam(s, d) as int), -Scale(s as real, -(d as int)), c / 2);
  }

  /** A difference normalized by a left shift and cut down to its high part: what is rounded is
      faithful if the difference is exact or the shift is short. */
  lemma {:induction false} NormalizedDifference(g: nat, w: nat, h: nat, n: nat, y: real, s: nat)
    requires 0 < g && (y == n as real || (Faithful(h, n, y) && h + s <= g + w))
    ensures 0 <= Shl(n, s) && Faithful(g, Jam(Shl(n, s), w), Scale(y, s - w))
  {
    ShlNonneg(n, s);
    ScaleScale(y, s, -(w as int));
    if y == n as real {
      ScaleInt(n, s);
      FaithfulExact(g + w, Shl(n, s));
    } else {
      FaithfulScaleUp(h, n, y, s);
      FaithfulCoarser(h + s, g + w, Shl(n, s), Scale(y, s));
    }
    hide Faithful, Jam, Scale, Shl;
    JamKeeps(g, Shl(n, s), Scale(y, s), w);
  }

  /** A sum doubled when it has a bit less than rounding wants. */
  lemma {:induction false} Doubled(g: nat, n: nat, y: real)
    requires 1 < g && Faithful(1, n, y)
    ensures Faithful(g, n, y) && Faithful(g, 2 * n, 2.0 * y)
  {
    FaithfulCoarser(1, g, n, y);
    FaithfulScaleUp(1, n, y, 1);
    assert Shl(n, 1) == 2 * n && Scale(y, 1) == 2.0 * y;
    hide Faithful;
    FaithfulCoarser(2, g, 2 * n, 2.0 * y);
  }

  /** The high word of a two-word product, with the low word made sticky, jammed as a whole. */
  lemma {:induction false} JamHigh(z: U128, d: nat)
    ensures OrOne(Jam(z.v64, d), z.v0 != 0) == Jam(z.Val(), 64 + d)
  {
    ShrShr(z.Val(), 64, d);
    LowBitsBeyond(z.Val(), 64, d);
    Shl64Times(z.v64);
    Pow64();
    ShrUnique(z.Val(), 64, z.v64, z.v0);
  }

  /** A product whose high word alone was jammed keeps its place among the multiples of 2^65. */
  lemma {:induction false} HighJammed(z: U128, d: nat)
    ensures Faithful(65, Jam(z.v64, d) * 0x1_0000_0000_0000_0000 + z.v0, Scale(z.Val() as real, -(d as int)))
  {
    var t := Jam(z.v64, d);
    var s := t * 0x1_0000_0000_0000_0000 + z.v0;
    FaithfulExact(65, z.Val());
    HighPlace(z, d);
    hide Jam, Faithful, ShiftedPlace;
    ShiftedFaithful(65, s, z.Val(), z.Val() as real, d);
  }

  lemma {:induction false} HighPlace(z: U128, d: nat)
    ensures ShiftedPlace(65, Jam(z.v64, d) * 0x1_0000_0000_0000_0000 + z.v0, z.Val(), d)
  {
    var t := Jam(z.v64, d);
    JamPlace(1, z.v64, d);
    HighBits(t, z.v0);
    HighBits(z.v64, z.v0);
    WordsOf(z);
    hide *;
    WidenPlace(1, t * 0x1_0000_0000_0000_0000 + z.v0, t, z.Val(), z.v64, d, 64);
  }

  /** A place known for high parts, when the low parts are the same. */
  lemma {:induction false} WidenPlace(g: nat, t: nat, tHigh: nat, s: nat, sHigh: nat, d: nat, w: nat)
    requires Shr(t, w) == tHigh && Shr(s, w) == sHigh && LowBits(t, w) == LowBits(s, w)
    requires ShiftedPlace(g, tHigh, sHigh, d)
    ensures ShiftedPlace(w + g, t, s, d)
  {
    ShrShr(t, w, g);
    LowBitsBeyond(t, w, g);
    ShrShr(s, w, g + d);
    LowBitsBeyond(s, w, g + d);
  }

  lemma {:induction false} HighBits(t: nat, low: Word64)
    ensures Shr(t * 0x1_0000_0000_0000_0000 + low, 64) == t
    ensures LowBits(t * 0x1_0000_0000_0000_0000 + low, 64) == low
  {
    Shl64Times(t);
    Pow64();
    ShrUnique(t * 0x1_0000_0000_0000_0000 + low, 64, t, low);
  }

  lemma {:induction false} WordsOf(z: U128)
    ensures z.Val() == z.v64 * 0x1_0000_0000_0000_0000 + z.v0
  {
  }

  /** Shifting left first does not change what is jammed out on the right. */
  lemma {:induction false} JamShl(n: nat, k: nat, j: nat)
    ensures 0 <= Shl(n, k) && Jam(Shl(n, k), k + j) == Jam(n, j)
  {
    if k > 0 {
      ShlNonneg(n, k - 1);
      JamShl(n, k - 1, j);
      JamDoubled(Shl(n, k - 1), k - 1 + j);
    }
  }

  lemma {:induction false} JamDoubled(m: nat, d: nat)
    ensures Jam(2 * m, d + 1) == Jam(m, d)
  {
    assert 2 * m / 2 == m;
  }

  /** The high word shifted left by one, with only the low word made sticky: still faithful at every
      even number. */
  lemma {:induction false} DoubledHigh(z: U128)
    ensures Faithful(1, OrOne(2 * z.v64, z.v0 != 0), Scale(z.Val() as real, -63))
  {
    var t := OrOne(2 * z.v64, z.v0 != 0);
    FaithfulExact(1, z.Val());
    DoubledPlace(z, t);
    hide OrOne, Faithful, ShiftedPlace;
    ShiftedFaithful(1, t, z.Val(), z.Val() as real, 63);
  }

  lemma {:induction false} DoubledPlace(z: U128, t: nat)
    requires t == OrOne(2 * z.v64, z.v0 != 0)
    ensures ShiftedPlace(1, t, z.Val(), 63)
  {
    HighBits(z.v64, z.v0);
    WordsOf(z);
    ShlOne(1);
    ShrUnique(t, 1, z.v64, t % 2);
  }

  /** The exact product of significands. */
  ghost function SigProduct(sigA: nat, sigB: nat): nat {
    MulLe(0, sigA, sigB);
    sigA * sigB
  }

  lemma {:induction false} IntProduct(m: nat, n: nat)
    ensures Product(m as real, n as real) == SigProduct(m, n) as real
  {
  }

  lemma {:induction false} GapOfWhole(m: nat, n: nat, k: int)
    ensures n < m <==> Scale(n as real, k) < Scale(m as real, k)
    ensures n < m ==> Scale(m as real, k) - Scale(n as real, k) == Scale((m - n) as real, k)
  {
    ScaleOrder(n as real, m as real, k);
    ScaleAdd((m - n) as real, n as real, k);
    assert (m - n) as real + n as real == m as real;
  }
}
