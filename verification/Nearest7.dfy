/** What the 7-bit estimates are, by the values of operand and estimate: the nearest of eight significant bits to
    the reciprocal, or reciprocal square root, at the midpoint of the interval that the table entry serves. */
module Nearest7 {
  import opened Arith
  import opened Powers
  import opened Rounding
  import opened Operations
  import opened EstimateTables

  /** The operand is in the `i`th 128th of its binade, and the estimate is 128 + t at the place that makes it
      the nearest to the reciprocal of the midpoint. */
  ghost predicate RecipPlaced(f: Format, a: Datum, z: Datum, k: int, i: nat, t: nat) {
    i < 128 && t < 128 && RecipNearest(i, t) &&
    Scale((128 + i) as real, k) <= Magnitude(f, a) < Scale((129 + i) as real, k) &&
    Magnitude(f, z) == Scale((128 + t) as real, -15 - k)
  }

  ghost predicate NearestReciprocal(f: Format, a: Datum, z: Datum) {
    exists k: int, i: nat, t: nat :: RecipPlaced(f, a, z, k, i, t)
  }

  /** The operand is in the `j`th 64th of its binade, `c` times an even power of two. */
  ghost predicate RSqrtPlaced(f: Format, a: Datum, z: Datum, k: int, c: nat, j: nat, t: nat) {
    (c == 1 || c == 2) && j < 64 && t < 128 && RSqrtNearest(c, j, t) &&
    Scale((c * (64 + j)) as real, 2 * k) <= Magnitude(f, a) < Scale((c * (65 + j)) as real, 2 * k) &&
    Magnitude(f, z) == Scale((128 + t) as real, -11 - k)
  }

  ghost predicate NearestRSqrt(f: Format, a: Datum, z: Datum) {
    exists k: int, c: nat, j: nat, t: nat :: RSqrtPlaced(f, a, z, k, c, j, t)
  }

  lemma {:induction false} RecipPlacedIs(f: Format, a: Datum, z: Datum, k: int, i: nat, t: nat)
    requires i < 128 && t < 128 && RecipNearest(i, t) && Magnitude(f, z) == Scale((128 + t) as real, -15 - k)
    requires Scale((128 + i) as real, k) <= Magnitude(f, a) < Scale((129 + i) as real, k)
    ensures NearestReciprocal(f, a, z)
  {
    hide RecipNearest, Scale, Magnitude;
    assert RecipPlaced(f, a, z, k, i, t);
  }

  /** A multiple of a power of two, scaled. */
  lemma {:induction false} ScaledMultiple(n: nat, r: nat, k: int)
    ensures Scale((n * Pow2(r)) as real, k) == Scale(n as real, k + r)
  {
    ScaleInt(n, r);
    ShlIsTimes(n, r);
    ScaleScale(n as real, r, k);
  }

  lemma {:induction false} ScaleGrows(x: real, d: int)
    requires 0.0 < x && 0 < d
    ensures 2.0 * x <= Scale(x, d)
    decreases d
  {
    if d > 1 {
      ScaleGrows(x, d - 1);
    } else {
      assert Scale(x, 0) == x;
    }
  }

  lemma {:induction false} PowerOrder(a: int, b: int)
    ensures Scale(1.0, a) < Scale(1.0, b) <==> a < b
  {
    ScaleSign(1.0, a);
    ScaleSign(1.0, b);
    if a < b {
      ScaleScale(1.0, a, b - a);
      ScaleGrows(Scale(1.0, a), b - a);
    } else if b < a {
      ScaleScale(1.0, b, a - b);
      ScaleGrows(Scale(1.0, b), a - b);
    }
  }

  lemma {:induction false} ScaledPower(r: nat, k: int)
    ensures Scale(Pow2(r) as real, k) == Scale(1.0, k + r)
  {
    ScaledMultiple(1, r, k);
  }

  /** The nearest reciprocal of a magnitude under 2^m is at least 2^-m. */
  lemma {:induction false} ReciprocalAtLeast(f: Format, a: Datum, z: Datum, m: int)
    requires NearestReciprocal(f, a, z) && Magnitude(f, a) < Scale(1.0, m)
    ensures Scale(1.0, -m) <= Magnitude(f, z)
  {
    var k: int, i: nat, t: nat :| RecipPlaced(f, a, z, k, i, t);
    hide Scale, Magnitude, RecipNearest;
    ScaleOrder((128 + i) as real, 128.0, k);
    ScaleOrder((128 + t) as real, 128.0, -15 - k);
    assert Pow2(7) == 128;
    ScaledPower(7, k);
    ScaledPower(7, -15 - k);
    PowerOrder(k + 7, m);
    PowerOrder(-8 - k, -m);
  }

  /** A real number lies in one binade only. */
  lemma {:induction false} OneScale(v: real, lo: real, k: int, k': int)
    requires 0.0 < lo && lo <= Scale(v, -k) < 2.0 * lo && lo <= Scale(v, -k')
    ensures k' <= k
  {
    if k < k' {
      ScaleScale(v, -k', k' - k);
      ScaleGrows(Scale(v, -k'), k' - k);
    }
  }

  lemma {:induction false} OneEvenScale(v: real, lo: real, k: int, k': int)
    requires 0.0 < lo && lo <= Scale(v, -2 * k) < 4.0 * lo && lo <= Scale(v, -2 * k')
    ensures k' <= k
  {
    if k < k' {
      var x, d := Scale(v, -2 * k'), 2 * (k' - k);
      ScaleScale(v, -2 * k', d);
      ScaleGrows(x, d - 1);
      ScaleSucc(x, d - 1);
    }
  }

  lemma {:induction false} Unscaled(lo: nat, v: real, hi: nat, k: int)
    ensures Scale(lo as real, k) <= v < Scale(hi as real, k) <==> lo as real <= Scale(v, -k) < hi as real
  {
    ScaleScale(lo as real, k, -k);
    ScaleScale(hi as real, k, -k);
    ScaleOrder(v, Scale(lo as real, k), -k);
    ScaleOrder(v, Scale(hi as real, k), -k);
  }

  lemma {:induction false} SameCode(f: Format, y: Datum, z: Datum)
    requires Magnitude(f, y) == Magnitude(f, z)
    ensures y.code == z.code
  {
    SumInQuanta(f, y, z);
    hide Magnitude, Quanta;
    if y.code < z.code {
      QuantaMonotone(f, y.code, z.code);
    } else if z.code < y.code {
      QuantaMonotone(f, z.code, y.code);
    }
  }

  lemma {:induction false} RecipEntryUnique(i: nat, t: nat, t': nat)
    requires RecipNearest(i, t) && RecipNearest(i, t')
    ensures t' <= t
  {
    if t < t' {
      MulLe(257 + 2 * t, 255 + 2 * t', 257 + 2 * i);
    }
  }

  lemma {:induction false} RSqrtEntryUnique(c: nat, j: nat, t: nat, t': nat)
    requires RSqrtNearest(c, j, t) && RSqrtNearest(c, j, t')
    ensures t' <= t
  {
    if t < t' {
      var x, y := 257 + 2 * t, 255 + 2 * t';
      MulLe(x, y, x);
      MulLe(x, y, y);
      assert x * y == y * x;
      MulLe(x * x, y * y, c * (129 + 2 * j));
    }
  }

  lemma {:induction false} SixtyFourths(c: nat, j: nat)
    requires (c == 1 || c == 2) && j < 64
    ensures 64 <= c * (64 + j) < c * (65 + j) <= 256
  {
  }

  lemma {:induction false} OneInterval(c: nat, j: nat, c': nat, j': nat, x: real)
    requires (c == 1 || c == 2) && (c' == 1 || c' == 2) && j < 64 && j' < 64
    requires (c * (64 + j)) as real <= x < (c * (65 + j)) as real
    requires (c' * (64 + j')) as real <= x < (c' * (65 + j')) as real
    ensures c == c' && j == j'
  {
  }

  /** An operand placed without regard to the parity of its exponent. */
  lemma {:induction false} PlacedByParity(f: Format, a: Datum, z: Datum, c: nat, j: nat, t: nat, w: int)
    requires (c == 1 || c == 2) && j < 64 && t < 128 && RSqrtNearest(c, j, t) && w % 2 == c - 1
    requires Scale((64 + j) as real, w) <= Magnitude(f, a) < Scale((65 + j) as real, w)
    requires Magnitude(f, z) == Scale((128 + t) as real, -11 - w / 2)
    ensures NearestRSqrt(f, a, z)
  {
    Twice(64 + j, c, 2 * (w / 2));
    Twice(65 + j, c, 2 * (w / 2));
    hide RSqrtNearest, Scale, Magnitude;
    assert RSqrtPlaced(f, a, z, w / 2, c, j, t);
  }

  lemma {:induction false} Twice(n: nat, c: nat, k: int)
    requires c == 1 || c == 2
    ensures Scale((c * n) as real, k) == Scale(n as real, k + c - 1)
  {
    ScaleScale(n as real, c - 1, k);
    assert Scale(n as real, c - 1) == (c * n) as real;
  }

  /** There is one nearest estimate. */
  lemma {:induction false} RecipUnique(f: Format, a: Datum, y: Datum, z: Datum)
    requires NearestReciprocal(f, a, y) && NearestReciprocal(f, a, z)
    ensures y.code == z.code
  {
    var k: int, i: nat, t: nat :| RecipPlaced(f, a, y, k, i, t);
    var k': int, i': nat, t': nat :| RecipPlaced(f, a, z, k', i', t');
    var v := Magnitude(f, a);
    Unscaled(128 + i, v, 129 + i, k);
    Unscaled(128 + i', v, 129 + i', k');
    hide RecipNearest, Scale, Magnitude;
    OneScale(v, 128.0, k, k');
    OneScale(v, 128.0, k', k);
    RecipEntryUnique(i, t, t');
    RecipEntryUnique(i, t', t);
    SameCode(f, y, z);
  }

  lemma {:induction false} RSqrtUnique(f: Format, a: Datum, y: Datum, z: Datum)
    requires NearestRSqrt(f, a, y) && NearestRSqrt(f, a, z)
    ensures y.code == z.code
  {
    var k: int, c: nat, j: nat, t: nat :| RSqrtPlaced(f, a, y, k, c, j, t);
    var k': int, c': nat, j': nat, t': nat :| RSqrtPlaced(f, a, z, k', c', j', t');
    RSqrtPlace(f, a, y, k, c, j, t);
    RSqrtPlace(f, a, z, k', c', j', t');
    hide *;
    var v := Magnitude(f, a);
    OneEvenScale(v, 64.0, k, k');
    OneEvenScale(v, 64.0, k', k);
    OneInterval(c, j, c', j', Scale(v, -2 * k));
    RSqrtEntryUnique(c, j, t, t');
    RSqrtEntryUnique(c, j, t', t);
    SameCode(f, y, z);
  }

  lemma {:induction false} RSqrtPlace(f: Format, a: Datum, z: Datum, k: int, c: nat, j: nat, t: nat)
    requires RSqrtPlaced(f, a, z, k, c, j, t)
    ensures var x := Scale(Magnitude(f, a), -2 * k);
      (c * (64 + j)) as real <= x < (c * (65 + j)) as real && 64.0 <= x < 256.0
    ensures (c == 1 || c == 2) && j < 64 && RSqrtNearest(c, j, t)
    ensures Magnitude(f, z) == Scale((128 + t) as real, -11 - k)
  {
    hide RSqrtNearest, Scale, Magnitude;
    SixtyFourths(c, j);
    Unscaled(c * (64 + j), Magnitude(f, a), c * (65 + j), 2 * k);
  }
}
