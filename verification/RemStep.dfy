/** `softfloat_remStepMBy32` (softfloat/s_remStepMBy32.c): shift, multiply and subtract in one pass. */
module RemStep {
  import opened Arith
  import opened Powers
  import opened Sticky
  import opened Words
  import opened Products
  import opened Multiword

  /** Bitwise or. */
  function Or(x: nat, y: nat): nat
    decreases x + y
  {
    if x == 0 && y == 0 then 0
    else 2 * Or(x / 2, y / 2) + if x % 2 == 1 || y % 2 == 1 then 1 else 0
  }

  lemma {:induction false} OrZero(y: nat)
    ensures Or(0, y) == y
  {
    if y > 0 {
      OrZero(y / 2);
    }
  }

  /** Patterns without a common bit are joined as by addition. */
  lemma {:induction false} OrDisjoint(x: nat, k: nat, d: nat)
    requires x < Pow2(d)
    ensures 0 <= Shl(k, d) && Or(x, Shl(k, d)) == x + Shl(k, d)
  {
    ShlNonneg(k, d);
    if d == 0 {
      OrZero(k);
    } else {
      OrDisjoint(x / 2, k, d - 1);
    }
  }

  lemma {:induction false} OrBound(x: nat, y: nat, w: nat)
    requires x < Pow2(w) && y < Pow2(w)
    ensures Or(x, y) < Pow2(w)
  {
    if w > 0 && (x != 0 || y != 0) {
      OrBound(x / 2, y / 2, w - 1);
    }
  }

  /** A word of the remainder shifted left, with what the word below shifts into it.  The distance of
      that shift is taken modulo 32. */
  function ShiftedWord(low: Word32, word: Word32, dist: nat): (r: Word32)
    requires dist <= 31
  {
    ShiftedFits(low, word, dist);
    Or(Shr(low, (32 - dist) % 32), Wrap32(Shl(word, dist)))
  }

  lemma {:induction false} ShiftedFits(low: Word32, word: Word32, dist: nat)
    requires dist <= 31
    ensures Or(Shr(low, (32 - dist) % 32), Wrap32(Shl(word, dist))) < 0x1_0000_0000
  {
    ShrAtMost(low, (32 - dist) % 32);
    Pow2Literals();
    OrBound(Shr(low, (32 - dist) % 32), Wrap32(Shl(word, dist)), 32);
  }

  function ShiftedWords(rem: seq<Word32>, dist: nat): (r: seq<Word32>)
    requires dist <= 31
    ensures |r| == |rem|
  {
    seq(|rem|, k requires 0 <= k < |rem| =>
      if k == 0 then Wrap32(Shl(rem[0], dist)) else ShiftedWord(rem[k - 1], rem[k], dist))
  }

  /** A word shifted left by 1 to 31 splits into the bits it keeps and the bits for the next word. */
  lemma {:induction false} SplitWord(word: Word32, dist: nat)
    requires 1 <= dist <= 31
    ensures Shl(word, dist) == Shr(word, 32 - dist) * 0x1_0000_0000 + Wrap32(Shl(word, dist))
    ensures Wrap32(Shl(word, dist)) == Shl(LowBits(word, 32 - dist), dist)
    ensures Shr(word, 32 - dist) < Pow2(dist)
  {
    SplitShl(word, 32 - dist, dist);
    SmallShifts(Shr(word, 32 - dist));
    Pow2Literals();
    Wrap32Of(Shl(word, dist), Shr(word, 32 - dist), Shl(LowBits(word, 32 - dist), dist));
    ShrBound(word, 32 - dist, dist);
  }

  /** The shifted words are those of the remainder times 2^dist, short of the bits shifted out. */
  lemma {:induction false} ShiftedValue(rem: seq<Word32>, dist: nat, n: nat)
    requires 1 <= dist <= 31 && 0 < n <= |rem|
    ensures Value(0x1_0000_0000, ShiftedWords(rem, dist), n) +
      Times(Shr(rem[n - 1], 32 - dist), Power(0x1_0000_0000, n)) ==
      Shl(Value(0x1_0000_0000, rem, n), dist)
  {
    hide *;
    var s, w := ShiftedWords(rem, dist), rem[n - 1];
    var p := Power(0x1_0000_0000, n - 1);
    ShiftedAt(rem, dist, n - 1);
    ValueStep(s, n);
    ValueStep(rem, n);
    SplitWord(w, dist);
    ShlAdd(Value(0x1_0000_0000, rem, n - 1), Times(w, p), dist);
    ShlTimes(w, p, dist);
    if n == 1 {
      NoWords(s, rem, dist);
      FirstColumn(s[0], Shr(w, 32 - dist), Shl(w, dist), p);
    } else {
      ShiftedValue(rem, dist, n - 1);
      JoinedWord(rem[n - 2], w, dist);
      NextColumn(s[n - 1], Shr(rem[n - 2], 32 - dist), Shr(w, 32 - dist), Shl(w, dist), p);
    }
  }

  lemma {:induction false} NoWords(s: seq<nat>, rem: seq<nat>, dist: nat)
    ensures Value(0x1_0000_0000, s, 0) == 0 && Shl(Value(0x1_0000_0000, rem, 0), dist) == 0
  {
    ShlOne(dist);
  }

  lemma {:induction false} ValueStep(s: seq<nat>, n: nat)
    requires 0 < n <= |s|
    ensures Value(0x1_0000_0000, s, n) ==
      Value(0x1_0000_0000, s, n - 1) + Times(s[n - 1], Power(0x1_0000_0000, n - 1))
    ensures Power(0x1_0000_0000, n) == Times(0x1_0000_0000, Power(0x1_0000_0000, n - 1))
  {
  }

  /** A shifted word as a sum of what comes in from below and what stays. */
  lemma {:induction false} JoinedWord(low: Word32, word: Word32, dist: nat)
    requires 1 <= dist <= 31
    ensures ShiftedWord(low, word, dist) + Shr(word, 32 - dist) * 0x1_0000_0000 ==
      Shr(low, 32 - dist) + Shl(word, dist)
  {
    ShiftedWordIs(low, word, dist);
    hide *;
    SplitWord(word, dist);
    SplitWord(low, dist);
    OrDisjoint(Shr(low, 32 - dist), LowBits(word, 32 - dist), dist);
  }

  lemma {:induction false} ShiftedWordIs(low: Word32, word: Word32, dist: nat)
    requires 1 <= dist <= 31
    ensures ShiftedWord(low, word, dist) == Or(Shr(low, 32 - dist), Wrap32(Shl(word, dist)))
  {
    hide Or, Shr, Shl, Wrap32;
    assert (32 - dist) % 32 == 32 - dist;
  }

  lemma {:induction false} ShlTimes(w: int, p: int, dist: nat)
    ensures Shl(w * p, dist) == Shl(w, dist) * p
  {
    ShlIsTimes(w * p, dist);
    ShlIsTimes(w, dist);
    MulSwap(w, p, Pow2(dist));
  }

  lemma {:induction false} FirstColumn(s: nat, high: nat, shifted: int, p: nat)
    requires shifted == high * 0x1_0000_0000 + s
    ensures Times(s, p) + Times(high, Times(0x1_0000_0000, p)) == shifted * p
  {
    assert (high * 0x1_0000_0000 + s) * p == s * p + high * (0x1_0000_0000 * p);
  }

  lemma {:induction false} NextColumn(s: nat, low: nat, high: nat, shifted: int, p: nat)
    requires s + high * 0x1_0000_0000 == low + shifted
    ensures Times(s, p) + Times(high, Times(0x1_0000_0000, p)) == Times(low, p) + shifted * p
  {
    assert (s + high * 0x1_0000_0000) * p == s * p + high * (0x1_0000_0000 * p);
    assert (low + shifted) * p == low * p + shifted * p;
  }

  /** The lowest `i` words of `s` less q times `b`, and what has still to be taken from the rest. */
  ghost predicate Reduced(s: seq<nat>, b: seq<nat>, q: nat, z: seq<nat>, i: nat, owed: nat) {
    i <= |s| == |b| == |z| &&
    Value(0x1_0000_0000, z, i) + Times(q, Value(0x1_0000_0000, b, i)) ==
      Value(0x1_0000_0000, s, i) + Times(owed, Power(0x1_0000_0000, i))
  }

  lemma {:induction false} StartReduced(s: seq<nat>, b: seq<nat>, q: nat, z: seq<nat>)
    requires |s| == |b| == |z|
    ensures Reduced(s, b, q, z, 0, 0)
  {
  }

  lemma {:induction false} ReduceColumn(s: seq<nat>, b: seq<nat>, q: nat, z: seq<nat>, z': seq<nat>, i: nat,
      owed: nat, owed': nat)
    requires Reduced(s, b, q, z, i, owed) && i < |z| == |z'| && z' == z[i := z'[i]]
    requires z'[i] + Times(b[i], q) + owed == s[i] + Times(owed', 0x1_0000_0000)
    ensures Reduced(s, b, q, z', i + 1, owed')
  {
    ValueFrame(0x1_0000_0000, z, z', i);
    var p := Power(0x1_0000_0000, i);
    DistributeQ(q, Value(0x1_0000_0000, b, i), b[i], p);
    hide Value;
    ReduceScaled(z'[i], Times(b[i], q), owed, s[i], owed', p);
  }

  lemma {:induction false} DistributeQ(q: nat, v: nat, b: nat, p: nat)
    ensures Times(q, v + Times(b, p)) == Times(q, v) + Times(Times(b, q), p)
  {
    assert q * (v + b * p) == q * v + (b * q) * p;
  }

  lemma {:induction false} ReduceScaled(z: nat, product: nat, owed: nat, s: nat, owed': nat, p: nat)
    requires z + product + owed == s + Times(owed', 0x1_0000_0000)
    ensures Times(z, p) + Times(product, p) + Times(owed, p) ==
      Times(s, p) + Times(owed', Times(0x1_0000_0000, p))
  {
    Distribute3(z, product, owed, p);
    assert (s + owed' * 0x1_0000_0000) * p == s * p + owed' * (0x1_0000_0000 * p);
  }

  /** One word: the product's low word and the borrow are subtracted, its high word is owed. */
  lemma {:induction false} StepWord(s: Word32, b: Word32, q: Word32, high: Word32, borrow: nat, product: Word64)
    requires borrow <= 1 && product == b * q + high
    ensures var low := product % 0x1_0000_0000;
      var z := Wrap32(s as int - low - borrow);
      var borrow' := if borrow == 1 then (if s <= low then 1 else 0) else (if s < low then 1 else 0);
      z + Times(b, q) + (high + borrow) == s + Times(product / 0x1_0000_0000 + borrow', 0x1_0000_0000)
  {
  }

  lemma {:induction false} ProductPlusHigh(b: Word32, q: Word32, high: Word32)
    ensures 0 <= b * q + high < 0x1_0000_0000_0000_0000
  {
    ProductFits(b, q);
  }

  lemma {:induction false} ReducedWhole(s: seq<nat>, b: seq<nat>, q: nat, z: seq<nat>, owed: nat)
    requires Reduced(s, b, q, z, |z|, owed) && forall k :: 0 <= k < |z| ==> z[k] < 0x1_0000_0000
    ensures 0 < Power(0x1_0000_0000, |z|)
    ensures Value(0x1_0000_0000, z, |z|) ==
      (Value(0x1_0000_0000, s, |z|) - Times(q, Value(0x1_0000_0000, b, |z|))) % Power(0x1_0000_0000, |z|)
  {
    ValueBound(0x1_0000_0000, z, |z|);
    var p := Power(0x1_0000_0000, |z|);
    DivModUnique(Value(0x1_0000_0000, s, |z|) - Times(q, Value(0x1_0000_0000, b, |z|)), p, -(owed as int),
      Value(0x1_0000_0000, z, |z|));
  }

  /** `softfloat_remStepMBy32`; `z` may be `rem` or `b`. */
  method RemStepMBy32(rem: array<Word32>, dist: nat, b: array<Word32>, q: Word32, z: array<Word32>)
    requires 0 < rem.Length == b.Length == z.Length && dist <= 31
    modifies z
    ensures var n := z.Length;
      0 < Power(0x1_0000_0000, n) && Value(0x1_0000_0000, z[..], n) ==
        (Value(0x1_0000_0000, ShiftedWords(old(rem[..]), dist), n) -
        Times(q, Value(0x1_0000_0000, old(b[..]), n))) % Power(0x1_0000_0000, n)
  {
    hide *;
    ghost var rem0, b0 := rem[..], b[..];
    ghost var s := ShiftedWords(rem0, dist);
    StartReduced(s, b0, q, z[..]);
    ghost var before := z[..];
    var index := 0;
    ProductPlusHigh(b[0], q, 0);
    var dwordProd: Word64 := b[0] * q;
    var wordRem := rem[0];
    var wordShiftedRem := Wrap32(Shl(wordRem, dist));
    var wordProd := dwordProd % 0x1_0000_0000;
    ShiftedAt(rem0, dist, 0);
    StepWord(wordShiftedRem, b[0], q, 0, 0, dwordProd);
    z[0] := Wrap32(wordShiftedRem as int - wordProd);
    var borrow := if wordShiftedRem < wordProd then 1 else 0;
    ReduceColumn(s, b0, q, before, z[..], 0, 0, dwordProd / 0x1_0000_0000 + borrow);
    while index != z.Length - 1
      invariant 0 <= index < z.Length && borrow <= 1 && wordRem == rem0[index]
      invariant forall k :: index < k < z.Length ==> rem[k] == rem0[k] && b[k] == b0[k]
      invariant Reduced(s, b0, q, z[..], index + 1, dwordProd / 0x1_0000_0000 + borrow)
      decreases z.Length - index
    {
      before := z[..];
      var low := wordRem;
      index := index + 1;
      ghost var high: Word32 := dwordProd / 0x1_0000_0000;
      ProductPlusHigh(b[index], q, high);
      dwordProd := b[index] * q + dwordProd / 0x1_0000_0000;
      wordRem := rem[index];
      wordShiftedRem := ShiftedWord(low, wordRem, dist);
      ShiftedAt(rem0, dist, index);
      wordProd := dwordProd % 0x1_0000_0000;
      StepWord(wordShiftedRem, b[index], q, high, borrow, dwordProd);
      ghost var owed := high + borrow;
      z[index] := Wrap32(wordShiftedRem as int - wordProd - borrow);
      borrow := if borrow == 1 then (if wordShiftedRem <= wordProd then 1 else 0)
        else if wordShiftedRem < wordProd then 1 else 0;
      ReduceColumn(s, b0, q, before, z[..], index, owed, dwordProd / 0x1_0000_0000 + borrow);
    }
    ReducedWhole(s, b0, q, z[..], dwordProd / 0x1_0000_0000 + borrow);
  }

  lemma {:induction false} ShiftedAt(rem: seq<Word32>, dist: nat, k: nat)
    requires dist <= 31 && k < |rem|
    ensures ShiftedWords(rem, dist)[k] ==
      if k == 0 then Wrap32(Shl(rem[0], dist)) else ShiftedWord(rem[k - 1], rem[k], dist)
  {
  }

  /** The value promised: for a distance of 1 to 31, rem * 2^dist - b * q modulo 2^(32 n). */
  lemma {:induction false} RemStepMeaning(rem: seq<Word32>, dist: nat, product: int)
    requires 1 <= dist <= 31 && 0 < |rem|
    ensures 0 < Power(0x1_0000_0000, |rem|)
    ensures (Value(0x1_0000_0000, ShiftedWords(rem, dist), |rem|) - product) % Power(0x1_0000_0000, |rem|) ==
      (Shl(Value(0x1_0000_0000, rem, |rem|), dist) - product) % Power(0x1_0000_0000, |rem|)
  {
    hide *;
    ValueBound(0x1_0000_0000, rem, |rem|);
    ShiftedValue(rem, dist, |rem|);
    SameModulo(Value(0x1_0000_0000, ShiftedWords(rem, dist), |rem|) - product,
      Shr(rem[|rem| - 1], 32 - dist), Power(0x1_0000_0000, |rem|));
  }

  lemma {:induction false} SameModulo(x: int, k: int, p: int)
    requires 0 < p
    ensures x % p == (x + k * p) % p
  {
    DivMod(x, p);
    assert (x / p + k) * p == x / p * p + k * p;
    DivModUnique(x + k * p, p, x / p + k, x % p);
  }

  /** A distance of 0 is not the identity: every word picks up the bits of the word below.  What is stored
      is the promised rem - b * q modulo 2^(32 n) if and only if those bits are already there, whatever
      the product. */
  lemma {:induction false} RemStepByZero(rem: seq<Word32>, product: int)
    ensures 0 < Power(0x1_0000_0000, |rem|)
    ensures ((Value(0x1_0000_0000, ShiftedWords(rem, 0), |rem|) - product) % Power(0x1_0000_0000, |rem|) ==
      (Value(0x1_0000_0000, rem, |rem|) - product) % Power(0x1_0000_0000, |rem|)) <==>
      forall k :: 1 <= k < |rem| ==> Or(rem[k - 1], rem[k]) == rem[k]
  {
    hide *;
    ShiftByZero(rem);
    ValueBound(0x1_0000_0000, rem, |rem|);
    ValueBound(0x1_0000_0000, ShiftedWords(rem, 0), |rem|);
    SameResidue(Value(0x1_0000_0000, ShiftedWords(rem, 0), |rem|), Value(0x1_0000_0000, rem, |rem|), product,
      Power(0x1_0000_0000, |rem|));
  }

  lemma {:induction false} SameResidue(x: nat, y: nat, product: int, p: nat)
    requires x < p && y < p
    ensures (x - product) % p == (y - product) % p <==> x == y
  {
    if (x - product) % p == (y - product) % p {
      DivMod(x - product, p);
      DivMod(y - product, p);
      var j, k := (x - product) / p, (y - product) / p;
      assert (j - k) * p == j * p - k * p;
      OnlyMultiple(j - k, p);
    }
  }

  /** It fails on two words of which the upper lacks a bit of the lower: 1 becomes 2^32 + 1. */
  lemma {:induction false} RemStepByZeroFails()
    ensures var rem: seq<Word32> := [1, 0];
      Value(0x1_0000_0000, rem, 2) == 1 && Value(0x1_0000_0000, ShiftedWords(rem, 0), 2) == 0x1_0000_0001
    ensures var rem: seq<Word32> := [1, 0];
      0 < Power(0x1_0000_0000, 2) &&
      Value(0x1_0000_0000, ShiftedWords(rem, 0), 2) % Power(0x1_0000_0000, 2) !=
        Value(0x1_0000_0000, rem, 2) % Power(0x1_0000_0000, 2)
  {
    var rem: seq<Word32> := [1, 0];
    ShiftedAt(rem, 0, 0);
    ShiftedAt(rem, 0, 1);
    UnshiftedWord(0, 1);
    UnshiftedWord(1, 0);
    assert Or(1, 0) == 1;
    hide ShiftedWords, ShiftedWord, Or, Shl;
    TwoWords(rem);
    TwoWords(ShiftedWords(rem, 0));
    ValueBound(0x1_0000_0000, rem, 2);
    ValueBound(0x1_0000_0000, ShiftedWords(rem, 0), 2);
    hide Value, Power;
    SameResidue(0x1_0000_0001, 1, 0, Power(0x1_0000_0000, 2));
  }

  lemma {:induction false} TwoWords(s: seq<Word32>)
    requires |s| == 2
    ensures Value(0x1_0000_0000, s, 2) == s[0] as int + 0x1_0000_0000 * (s[1] as int)
  {
    assert Power(0x1_0000_0000, 1) == 0x1_0000_0000;
    assert Value(0x1_0000_0000, s, 1) == s[0];
  }

  lemma {:induction false} ShiftByZero(rem: seq<Word32>)
    ensures Value(0x1_0000_0000, ShiftedWords(rem, 0), |rem|) == Value(0x1_0000_0000, rem, |rem|) <==>
      forall k :: 1 <= k < |rem| ==> Or(rem[k - 1], rem[k]) == rem[k]
  {
    hide *;
    var s := ShiftedWords(rem, 0);
    forall k | 0 <= k < |rem|
      ensures s[k] == if k == 0 then rem[0] else Or(rem[k - 1], rem[k])
    {
      ShiftedAt(rem, 0, k);
      UnshiftedWord(if k == 0 then 0 else rem[k - 1], rem[k]);
    }
    if forall k :: 1 <= k < |rem| ==> Or(rem[k - 1], rem[k]) == rem[k] {
      forall k | 0 <= k < |rem|
        ensures s[k] == rem[k]
      {
        assert s[k] == if k == 0 then rem[0] else Or(rem[k - 1], rem[k]);
      }
      ValueFrame(0x1_0000_0000, s, rem, |rem|);
    } else if Value(0x1_0000_0000, s, |rem|) == Value(0x1_0000_0000, rem, |rem|) {
      ValueInjective(s, rem, |rem|);
    }
  }

  lemma {:induction false} UnshiftedWord(low: Word32, word: Word32)
    ensures Wrap32(Shl(word, 0)) == word && ShiftedWord(low, word, 0) == Or(low, word)
  {
  }

  lemma {:induction false} ValueInjective(s: seq<Word32>, t: seq<Word32>, n: nat)
    requires n <= |s| && n <= |t| && Value(0x1_0000_0000, s, n) == Value(0x1_0000_0000, t, n)
    ensures forall k :: 0 <= k < n ==> s[k] == t[k]
  {
    if n > 0 {
      var p := Power(0x1_0000_0000, n - 1);
      ValueBound(0x1_0000_0000, s, n - 1);
      ValueBound(0x1_0000_0000, t, n - 1);
      DivModUnique(Value(0x1_0000_0000, s, n), p, s[n - 1], Value(0x1_0000_0000, s, n - 1));
      DivModUnique(Value(0x1_0000_0000, t, n), p, t[n - 1], Value(0x1_0000_0000, t, n - 1));
      ValueInjective(s, t, n - 1);
    }
  }
}
