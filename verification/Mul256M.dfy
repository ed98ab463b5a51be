/** `softfloat_mul128MTo256M` (softfloat/s_mul128MTo256M.c): a schoolbook product of four words by
    four. */
module Mul256M {
  import opened Arith
  import opened Words
  import opened Products
  import opened Multiword

  /** Four words of `s` from word `j`, as a number. */
  function Window4(s: seq<nat>, j: nat): nat
    requires j + 4 <= |s|
  {
    s[j] + s[j + 1] * 0x1_0000_0000 + s[j + 2] * 0x1_0000_0000_0000_0000 +
      s[j + 3] * 0x1_0000_0000_0000_0000_0000_0000
  }

  function Window5(s: seq<nat>, j: nat): nat
    requires j + 5 <= |s|
  {
    Window4(s, j) + s[j + 4] * 0x1_0000_0000_0000_0000_0000_0000_0000_0000
  }

  lemma {:induction false} ValueStep(s: seq<nat>, n: nat)
    requires n < |s|
    ensures Value(0x1_0000_0000, s, n + 1) ==
      Value(0x1_0000_0000, s, n) + Times(s[n], Power(0x1_0000_0000, n))
    ensures Power(0x1_0000_0000, n + 1) == Times(0x1_0000_0000, Power(0x1_0000_0000, n))
  {
  }

  /** The words above the lowest `j`, on their scale. */
  lemma {:induction false} ValueOfWindow(s: seq<nat>, j: nat)
    requires j + 4 <= |s|
    ensures Value(0x1_0000_0000, s, j + 4) ==
      Value(0x1_0000_0000, s, j) + Times(Window4(s, j), Power(0x1_0000_0000, j))
    ensures j + 5 <= |s| ==>
      Value(0x1_0000_0000, s, j + 5) ==
        Value(0x1_0000_0000, s, j) + Times(Window5(s, j), Power(0x1_0000_0000, j))
  {
    hide Value, Power;
    var p := Power(0x1_0000_0000, j);
    ValueStep(s, j);
    ValueStep(s, j + 1);
    ValueStep(s, j + 2);
    ValueStep(s, j + 3);
    FourTerms(s[j], s[j + 1], s[j + 2], s[j + 3], p);
    if j + 5 <= |s| {
      ValueStep(s, j + 4);
      FifthTerm(Window4(s, j), s[j + 4], p);
    }
  }

  lemma {:induction false} FourTerms(w0: nat, w1: nat, w2: nat, w3: nat, p: nat)
    ensures var p1 := Times(0x1_0000_0000, p);
      var p2 := Times(0x1_0000_0000, p1);
      var p3 := Times(0x1_0000_0000, p2);
      Times(w0, p) + Times(w1, p1) + Times(w2, p2) + Times(w3, p3) ==
        Times(w0 + w1 * 0x1_0000_0000 + w2 * 0x1_0000_0000_0000_0000 +
          w3 * 0x1_0000_0000_0000_0000_0000_0000, p)
  {
    assert (w1 * 0x1_0000_0000) * p == w1 * (0x1_0000_0000 * p);
    assert (w2 * 0x1_0000_0000_0000_0000) * p == w2 * (0x1_0000_0000_0000_0000 * p);
    assert (w3 * 0x1_0000_0000_0000_0000_0000_0000) * p == w3 * (0x1_0000_0000_0000_0000_0000_0000 * p);
    Distribute3(w0, w1 * 0x1_0000_0000, w2 * 0x1_0000_0000_0000_0000, p);
    hide Times;
    Distribute3(w0 + w1 * 0x1_0000_0000 + w2 * 0x1_0000_0000_0000_0000,
      w3 * 0x1_0000_0000_0000_0000_0000_0000, 0, p);
  }

  lemma {:induction false} FifthTerm(v: nat, w: nat, p: nat)
    ensures Times(v, p) + Times(w, Times(0x1_0000_0000, Times(0x1_0000_0000, Times(0x1_0000_0000,
      Times(0x1_0000_0000, p))))) == Times(v + w * 0x1_0000_0000_0000_0000_0000_0000_0000_0000, p)
  {
    assert (w * 0x1_0000_0000_0000_0000_0000_0000_0000_0000) * p ==
      w * (0x1_0000_0000_0000_0000_0000_0000_0000_0000 * p);
    assert (v + w * 0x1_0000_0000_0000_0000_0000_0000_0000_0000) * p ==
      v * p + (w * 0x1_0000_0000_0000_0000_0000_0000_0000_0000) * p;
  }

  /** One column of a row: the product so far, its low word added to the column, and the carry. */
  method MultiplyColumn(wordA: Word32, wordB: Word32, high: Word32, zWord: Word32, carry0: nat)
    returns (dwordProd: Word64, wordZ: Word32, carry: nat)
    requires carry0 <= 1
    ensures carry <= 1 && dwordProd == Times(wordA, wordB) + high
    ensures wordZ + Times(dwordProd / 0x1_0000_0000 + carry, 0x1_0000_0000) ==
      zWord + Times(wordA, wordB) + high + carry0
  {
    ProductPlusWord(wordA, wordB, high);
    dwordProd := wordA * wordB + high;
    wordZ := Wrap32(zWord as int + dwordProd % 0x1_0000_0000 + carry0);
    carry := carry0;
    if wordZ != dwordProd % 0x1_0000_0000 {
      carry := if wordZ < dwordProd % 0x1_0000_0000 then 1 else 0;
    }
  }

  lemma {:induction false} ProductPlusWord(x: Word32, y: Word32, high: Word32)
    ensures 0 <= x * y + high < 0x1_0000_0000_0000_0000
  {
    ProductFits(x, y);
  }

  /** Four columns make a row: the window over `z` grows by a word and by `wordB` times `a`. */
  lemma {:induction false} RowSum(a: seq<Word32>, wordB: Word32, z: seq<Word32>, j: nat, w0: Word32, w1: Word32,
      w2: Word32, w3: Word32, h0: nat, h1: nat, h2: nat, top: nat)
    requires |a| == 4 && j + 4 <= |z|
    requires w0 + Times(h0, 0x1_0000_0000) == z[j] + Times(a[0], wordB)
    requires w1 + Times(h1, 0x1_0000_0000) == z[j + 1] + Times(a[1], wordB) + h0
    requires w2 + Times(h2, 0x1_0000_0000) == z[j + 2] + Times(a[2], wordB) + h1
    requires w3 + Times(top, 0x1_0000_0000) == z[j + 3] + Times(a[3], wordB) + h2
    ensures w0 + w1 * 0x1_0000_0000 + w2 * 0x1_0000_0000_0000_0000 +
      w3 * 0x1_0000_0000_0000_0000_0000_0000 + top * 0x1_0000_0000_0000_0000_0000_0000_0000_0000 ==
      Window4(z, j) + Times(Window4(a, 0), wordB)
    ensures top < 0x1_0000_0000
  {
    Scaled(a[0], a[1], a[2], a[3], wordB);
    TopWordFits(Window4(a, 0), wordB, Window4(z, j), top);
  }

  lemma {:induction false} Scaled(a0: nat, a1: nat, a2: nat, a3: nat, b: nat)
    ensures Times(a0 + a1 * 0x1_0000_0000 + a2 * 0x1_0000_0000_0000_0000 +
      a3 * 0x1_0000_0000_0000_0000_0000_0000, b) ==
      Times(a0, b) + Times(a1, b) * 0x1_0000_0000 + Times(a2, b) * 0x1_0000_0000_0000_0000 +
      Times(a3, b) * 0x1_0000_0000_0000_0000_0000_0000
  {
    Distribute3(a0, a1 * 0x1_0000_0000, a2 * 0x1_0000_0000_0000_0000, b);
    Distribute3(a0 + a1 * 0x1_0000_0000 + a2 * 0x1_0000_0000_0000_0000,
      a3 * 0x1_0000_0000_0000_0000_0000_0000, 0, b);
  }

  lemma {:induction false} TopWordFits(a: nat, b: Word32, z: nat, top: nat)
    requires a < 0x1_0000_0000_0000_0000_0000_0000_0000_0000
    requires z < 0x1_0000_0000_0000_0000_0000_0000_0000_0000
    requires top * 0x1_0000_0000_0000_0000_0000_0000_0000_0000 <= z + Times(a, b)
    ensures top < 0x1_0000_0000
  {
    MulLe(a, 0xFFFF_FFFF_FFFF_FFFF_FFFF_FFFF_FFFF_FFFF, b);
    MulLe(0xFFFF_FFFF_FFFF_FFFF_FFFF_FFFF_FFFF_FFFF, 0xFFFF_FFFF_FFFF_FFFF_FFFF_FFFF_FFFF_FFFF, b);
  }

  /** The rows added so far are the product with the lowest `count` words of `b`. */
  ghost predicate Multiplied(a: seq<Word32>, b: seq<Word32>, z: seq<Word32>, count: nat) {
    |a| == |b| == 4 && |z| == 8 && count <= 4 &&
    Value(0x1_0000_0000, z, count + 4) == Times(Window4(a, 0), Value(0x1_0000_0000, b, count))
  }

  lemma {:induction false} RowAdded(a: seq<Word32>, b: seq<Word32>, z: seq<Word32>, z': seq<Word32>, j: nat)
    requires j < 4 && |a| == |b| == 4 && |z| == |z'| == 8
    requires if j == 0 then Window5(z', 0) == Times(Window4(a, 0), b[0])
      else Multiplied(a, b, z, j) && Window5(z', j) == Window4(z, j) + Times(Window4(a, 0), b[j])
    requires forall k :: 0 <= k < j ==> z'[k] == z[k]
    ensures Multiplied(a, b, z', j + 1)
  {
    ValueStep(b, j);
    ValueOfWindow(z', j);
    hide Window4, Window5;
    if j == 0 {
      OneWord(Window4(a, 0), b, z');
    } else {
      ValueFrame(0x1_0000_0000, z, z', j);
      ValueOfWindow(z, j);
      hide Value, Power;
      RowTerms(Window4(a, 0), Value(0x1_0000_0000, b, j), b[j], Window4(z, j), Power(0x1_0000_0000, j));
    }
  }

  lemma {:induction false} OneWord(a: nat, b: seq<Word32>, z: seq<Word32>)
    requires |b| == 4 && |z| == 8
    ensures Value(0x1_0000_0000, z, 0) == 0 && Power(0x1_0000_0000, 0) == 1
    ensures Value(0x1_0000_0000, b, 1) == b[0]
  {
    assert Value(0x1_0000_0000, b, 1) == Value(0x1_0000_0000, b, 0) + Times(b[0], Power(0x1_0000_0000, 0));
  }

  lemma {:induction false} RowTerms(a: nat, vb: nat, bj: nat, window: nat, p: nat)
    ensures Times(window + Times(a, bj), p) == Times(window, p) + Times(Times(a, bj), p)
    ensures Times(a, vb + Times(bj, p)) == Times(a, vb) + Times(Times(a, bj), p)
  {
    assert (window + a * bj) * p == window * p + (a * bj) * p;
    assert a * (vb + bj * p) == a * vb + (a * bj) * p;
  }

  /** The columns of one row over the words y0 to y3 of the product so far, and the word that comes
      out at the top. */
  method Row(a: array<Word32>, wordB: Word32, y0: Word32, y1: Word32, y2: Word32, y3: Word32)
    returns (w0: Word32, w1: Word32, w2: Word32, w3: Word32, top: nat, ghost h0: nat, ghost h1: nat, ghost h2: nat)
    requires a.Length == 4
    ensures w0 + Times(h0, 0x1_0000_0000) == y0 + Times(a[0], wordB)
    ensures w1 + Times(h1, 0x1_0000_0000) == y1 + Times(a[1], wordB) + h0
    ensures w2 + Times(h2, 0x1_0000_0000) == y2 + Times(a[2], wordB) + h1
    ensures w3 + Times(top, 0x1_0000_0000) == y3 + Times(a[3], wordB) + h2
  {
    hide *;
    var dwordProd, carry;
    dwordProd, w0, carry := MultiplyColumn(a[0], wordB, 0, y0, 0);
    h0 := dwordProd / 0x1_0000_0000 + carry;
    dwordProd, w1, carry := MultiplyColumn(a[1], wordB, dwordProd / 0x1_0000_0000, y1, carry);
    h1 := dwordProd / 0x1_0000_0000 + carry;
    dwordProd, w2, carry := MultiplyColumn(a[2], wordB, dwordProd / 0x1_0000_0000, y2, carry);
    h2 := dwordProd / 0x1_0000_0000 + carry;
    dwordProd, w3, carry := MultiplyColumn(a[3], wordB, dwordProd / 0x1_0000_0000, y3, carry);
    top := dwordProd / 0x1_0000_0000 + carry;
  }

  lemma {:induction false} NoWindow()
    ensures Window4([0, 0, 0, 0], 0) == 0
  {
  }

  lemma {:induction false} WindowIs(z: seq<nat>, j: nat, w0: nat, w1: nat, w2: nat, w3: nat, top: nat)
    requires j + 5 <= |z| && z[j] == w0 && z[j + 1] == w1 && z[j + 2] == w2 && z[j + 3] == w3 && z[j + 4] == top
    ensures Window5(z, j) == w0 + w1 * 0x1_0000_0000 + w2 * 0x1_0000_0000_0000_0000 +
      w3 * 0x1_0000_0000_0000_0000_0000_0000 + top * 0x1_0000_0000_0000_0000_0000_0000_0000_0000
  {
  }

  lemma {:induction false} WholeProduct(a: seq<Word32>, b: seq<Word32>, z: seq<Word32>)
    requires Multiplied(a, b, z, 4)
    ensures Value(0x1_0000_0000, z, 8) == Times(Value(0x1_0000_0000, a, 4), Value(0x1_0000_0000, b, 4))
  {
    ValueOfWindow(a, 0);
    assert Value(0x1_0000_0000, a, 0) == 0 && Power(0x1_0000_0000, 0) == 1;
    hide Value, Power;
  }

  /** `softfloat_mul128MTo256M`; `z` must not be `a` or `b`. */
  method Mul128MTo256M(a: array<Word32>, b: array<Word32>, z: array<Word32>)
    requires a.Length == b.Length == 4 && z.Length == 8 && z != a && z != b
    modifies z
    ensures Value(0x1_0000_0000, z[..], 8) == Times(Value(0x1_0000_0000, a[..], 4), Value(0x1_0000_0000, b[..], 4))
  {
    hide *;
    ghost var before := z[..];
    ghost var h0, h1, h2;
    var j := 0;
    var w0, w1, w2, w3, top;
    w0, w1, w2, w3, top, h0, h1, h2 := Row(a, b[0], 0, 0, 0, 0);
    RowSum(a[..], b[0], [0, 0, 0, 0], 0, w0, w1, w2, w3, h0, h1, h2, top);
    NoWindow();
    z[0], z[1], z[2], z[3], z[4] := w0, w1, w2, w3, top;
    WindowIs(z[..], 0, w0, w1, w2, w3, top);
    RowAdded(a[..], b[..], before, z[..], 0);
    while true
      invariant 0 <= j < 3 && Multiplied(a[..], b[..], z[..], j + 1)
      decreases 3 - j
    {
      j := j + 1;
      before := z[..];
      w0, w1, w2, w3, top, h0, h1, h2 := Row(a, b[j], z[j], z[j + 1], z[j + 2], z[j + 3]);
      RowSum(a[..], b[j], before, j, w0, w1, w2, w3, h0, h1, h2, top);
      z[j], z[j + 1], z[j + 2], z[j + 3], z[j + 4] := w0, w1, w2, w3, top;
      WindowIs(z[..], j, w0, w1, w2, w3, top);
      RowAdded(a[..], b[..], before, z[..], j);
      if j == 3 {
        break;
      }
    }
    WholeProduct(a[..], b[..], z[..]);
  }
}
