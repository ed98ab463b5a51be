/** Arithmetic on arrays of words, the lowest word first (softfloat/s_addM.c, s_addCarryM.c,
    s_addComplCarryM.c, s_add256M.c, s_negXM.c, s_remStepMBy32.c and s_mul128MTo256M.c, for a
    little-endian platform). */
module Multiword {
  import opened Arith
  import opened Words

  /** radix^n. */
  function Power(radix: nat, n: nat): nat {
    if n == 0 then 1 else Times(radix, Power(radix, n - 1))
  }

  function Times(m: nat, n: nat): (p: nat)
    ensures p == m * n
  {
    MulLe(0, m, n);
    m * n
  }

  /** The value of the lowest `n` words. */
  function Value(radix: nat, s: seq<nat>, n: nat): nat
    requires n <= |s|
  {
    if n == 0 then 0 else Value(radix, s, n - 1) + Times(s[n - 1], Power(radix, n - 1))
  }

  lemma {:induction false} ValueFrame(radix: nat, s: seq<nat>, t: seq<nat>, n: nat)
    requires n <= |s| && n <= |t| && forall k :: 0 <= k < n ==> s[k] == t[k]
    ensures Value(radix, s, n) == Value(radix, t, n)
  {
    if n > 0 {
      ValueFrame(radix, s, t, n - 1);
    }
  }

  lemma {:induction false} ValueBound(radix: nat, s: seq<nat>, n: nat)
    requires n <= |s| && forall k :: 0 <= k < n ==> s[k] < radix
    ensures Value(radix, s, n) < Power(radix, n)
  {
    if n > 0 {
      ValueBound(radix, s, n - 1);
      NextWord(radix, s[n - 1], Value(radix, s, n - 1), Power(radix, n - 1));
    }
  }

  lemma {:induction false} NextWord(radix: nat, x: nat, v: nat, p: nat)
    requires x < radix && v < p
    ensures v + Times(x, p) < Times(radix, p)
  {
    MulLe(x + 1, radix, p);
    assert (x + 1) * p == x * p + p;
  }

  /** A column of a sum, on its scale. */
  lemma {:induction false} Column(radix: nat, x: nat, y: nat, c: nat, z: nat, c': nat, p: nat)
    requires z + Times(c', radix) == x + y + c
    ensures Times(z, p) + Times(c', Times(radix, p)) == Times(x, p) + Times(y, p) + Times(c, p)
  {
    Distribute3(x, y, c, p);
    assert (z + c' * radix) * p == z * p + c' * (radix * p);
  }

  lemma {:induction false} Distribute3(x: int, y: int, c: int, p: int)
    ensures (x + y + c) * p == x * p + y * p + c * p
  {
  }

  /** The carry out of a word: read off the sum, and kept when the sum equals the first addend. */
  function CarryOut(wordA: nat, wordZ: nat, carry: nat): nat {
    if wordZ != wordA then (if wordZ < wordA then 1 else 0) else carry
  }

  /** The lowest `i` words of a sum and the carry out of them. */
  ghost predicate Summed(radix: nat, a: seq<nat>, b: seq<nat>, z: seq<nat>, i: nat, carry0: nat, carry: nat) {
    i <= |a| == |b| == |z| &&
    Value(radix, z, i) + Times(carry, Power(radix, i)) == Value(radix, a, i) + Value(radix, b, i) + carry0
  }

  lemma {:induction false} SummedIs(radix: nat, a: seq<nat>, b: seq<nat>, z: seq<nat>, i: nat, carry0: nat,
      carry: nat)
    requires Summed(radix, a, b, z, i, carry0, carry)
    ensures i <= |a| == |b| == |z|
    ensures Value(radix, z, i) + Times(carry, Power(radix, i)) ==
      Value(radix, a, i) + Value(radix, b, i) + carry0
  {
  }

  lemma {:induction false} StartSum(radix: nat, a: seq<nat>, b: seq<nat>, z: seq<nat>, carry: nat)
    requires |a| == |b| == |z|
    ensures Summed(radix, a, b, z, 0, carry, carry)
  {
  }

  /** One column added: the state of a sum after `i` words goes to the state after i + 1. */
  lemma {:induction false} AddColumn(radix: nat, a: seq<nat>, b: seq<nat>, z: seq<nat>, z': seq<nat>, i: nat,
      carry0: nat, carry: nat, carry': nat)
    requires Summed(radix, a, b, z, i, carry0, carry) && i < |z| == |z'| && z' == z[i := z'[i]]
    requires z'[i] + Times(carry', radix) == a[i] + b[i] + carry
    ensures Summed(radix, a, b, z', i + 1, carry0, carry')
  {
    ValueFrame(radix, z, z', i);
    Column(radix, a[i], b[i], carry, z'[i], carry', Power(radix, i));
  }

  /** Whether a sum modulo 2^32 and the carry read off it are the whole sum. */
  lemma {:induction false} Carry32(wordA: Word32, wordB: Word32, carry: nat)
    requires carry <= 1
    ensures var wordZ := Wrap32(wordA as int + wordB + carry);
      var carry' := CarryOut(wordA, wordZ, carry);
      carry' <= 1 && wordZ + Times(carry', 0x1_0000_0000) == wordA + wordB + carry
  {
  }

  lemma {:induction false} Carry64(wordA: Word64, wordB: Word64, carry: nat)
    requires carry <= 1
    ensures var wordZ := Wrap64(wordA as int + wordB + carry);
      var carry' := CarryOut(wordA, wordZ, carry);
      carry' <= 1 && wordZ + Times(carry', 0x1_0000_0000_0000_0000) == wordA + wordB + carry
  {
  }

  /** `softfloat_addCarryM`; `z` may be `a` or `b`. */
  method AddCarryM(a: array<Word32>, b: array<Word32>, carry0: nat, z: array<Word32>) returns (carry: nat)
    requires 0 < a.Length == b.Length == z.Length && carry0 <= 1
    modifies z
    ensures carry <= 1
    ensures var n := z.Length;
      Value(0x1_0000_0000, z[..], n) + Times(carry, Power(0x1_0000_0000, n)) ==
        Value(0x1_0000_0000, old(a[..]), n) + Value(0x1_0000_0000, old(b[..]), n) + carry0
  {
    hide *;
    ghost var a0, b0 := a[..], b[..];
    carry := carry0;
    var index := 0;
    StartSum(0x1_0000_0000, a0, b0, z[..], carry);
    while true
      invariant 0 <= index < z.Length && carry <= 1
      invariant forall k :: index <= k < z.Length ==> a[k] == a0[k] && b[k] == b0[k]
      invariant Summed(0x1_0000_0000, a0, b0, z[..], index, carry0, carry)
      decreases z.Length - index
    {
      ghost var before, c := z[..], carry;
      var wordA := a[index];
      var wordZ := Wrap32(wordA as int + b[index] + carry);
      Carry32(wordA, b[index], carry);
      z[index] := wordZ;
      carry := CarryOut(wordA, wordZ, carry);
      AddColumn(0x1_0000_0000, a0, b0, before, z[..], index, carry0, c, carry);
      if index == z.Length - 1 {
        break;
      }
      index := index + 1;
    }
    SummedIs(0x1_0000_0000, a0, b0, z[..], z.Length, carry0, carry);
  }

  /** A sum whose carry out is dropped. */
  lemma {:induction false} ModuloPower(radix: nat, a: seq<nat>, b: seq<nat>, z: seq<nat>, carry: nat)
    requires Summed(radix, a, b, z, |z|, 0, carry) && forall k :: 0 <= k < |z| ==> z[k] < radix
    ensures 0 < Power(radix, |z|)
    ensures Value(radix, z, |z|) == (Value(radix, a, |z|) + Value(radix, b, |z|)) % Power(radix, |z|)
  {
    ValueBound(radix, z, |z|);
    var p := Power(radix, |z|);
    DivModUnique(Value(radix, a, |z|) + Value(radix, b, |z|), p, carry, Value(radix, z, |z|));
  }

  /** `softfloat_addM`; `z` may be `a` or `b`. */
  method AddM(a: array<Word32>, b: array<Word32>, z: array<Word32>)
    requires 0 < a.Length == b.Length == z.Length
    modifies z
    ensures var n := z.Length;
      0 < Power(0x1_0000_0000, n) && Value(0x1_0000_0000, z[..], n) ==
        (Value(0x1_0000_0000, old(a[..]), n) + Value(0x1_0000_0000, old(b[..]), n)) % Power(0x1_0000_0000, n)
  {
    hide *;
    ghost var a0, b0 := a[..], b[..];
    var carry := 0;
    var index := 0;
    StartSum(0x1_0000_0000, a0, b0, z[..], carry);
    while true
      invariant 0 <= index < z.Length && carry <= 1
      invariant forall k :: index <= k < z.Length ==> a[k] == a0[k] && b[k] == b0[k]
      invariant Summed(0x1_0000_0000, a0, b0, z[..], index, 0, carry)
      decreases z.Length - index
    {
      ghost var before := z[..];
      var wordA := a[index];
      var wordZ := Wrap32(wordA as int + b[index] + carry);
      Carry32(wordA, b[index], carry);
      z[index] := wordZ;
      AddColumn(0x1_0000_0000, a0, b0, before, z[..], index, 0, carry, CarryOut(wordA, wordZ, carry));
      if index == z.Length - 1 {
        break;
      }
      carry := CarryOut(wordA, wordZ, carry);
      index := index + 1;
    }
    ModuloPower(0x1_0000_0000, a0, b0, z[..], CarryOut(a0[index], z[index], carry));
  }

  /** `softfloat_add256M`; `z` may be `a` or `b`. */
  method Add256M(a: array<Word64>, b: array<Word64>, z: array<Word64>)
    requires a.Length == b.Length == z.Length == 4
    modifies z
    ensures 0 < Power(0x1_0000_0000_0000_0000, 4) && Value(0x1_0000_0000_0000_0000, z[..], 4) ==
      (Value(0x1_0000_0000_0000_0000, old(a[..]), 4) + Value(0x1_0000_0000_0000_0000, old(b[..]), 4)) %
        Power(0x1_0000_0000_0000_0000, 4)
  {
    hide *;
    ghost var a0, b0 := a[..], b[..];
    var carry := 0;
    var index := 0;
    StartSum(0x1_0000_0000_0000_0000, a0, b0, z[..], carry);
    while true
      invariant 0 <= index < 4 && carry <= 1
      invariant forall k :: index <= k < 4 ==> a[k] == a0[k] && b[k] == b0[k]
      invariant Summed(0x1_0000_0000_0000_0000, a0, b0, z[..], index, 0, carry)
      decreases 4 - index
    {
      ghost var before := z[..];
      var wordA := a[index];
      var wordZ := Wrap64(wordA as int + b[index] + carry);
      Carry64(wordA, b[index], carry);
      z[index] := wordZ;
      AddColumn(0x1_0000_0000_0000_0000, a0, b0, before, z[..], index, 0, carry, CarryOut(wordA, wordZ, carry));
      if index == 3 {
        break;
      }
      carry := CarryOut(wordA, wordZ, carry);
      index := index + 1;
    }
    ModuloPower(0x1_0000_0000_0000_0000, a0, b0, z[..], CarryOut(a0[index], z[index], carry));
  }

  /** The words of a bitwise complement. */
  function Complement(s: seq<Word32>): (r: seq<Word32>)
    ensures |r| == |s| && forall k :: 0 <= k < |s| ==> r[k] == 0xFFFF_FFFF - s[k]
  {
    seq(|s|, k requires 0 <= k < |s| => 0xFFFF_FFFF - s[k])
  }

  lemma {:induction false} ComplementValue(s: seq<Word32>, n: nat)
    requires n <= |s|
    ensures Value(0x1_0000_0000, Complement(s), n) + Value(0x1_0000_0000, s, n) + 1 == Power(0x1_0000_0000, n)
  {
    if n > 0 {
      ComplementValue(s, n - 1);
      ComplementColumn(s[n - 1], Power(0x1_0000_0000, n - 1));
    }
  }

  lemma {:induction false} ComplementColumn(x: Word32, p: nat)
    ensures Times(0xFFFF_FFFF - x, p) + Times(x, p) + p == Times(0x1_0000_0000, p)
  {
    assert (0xFFFF_FFFF - x) * p + x * p == 0xFFFF_FFFF * p;
  }

  /** `softfloat_addComplCarryM`: with a carry in of 1, a - b; `z` may be `a` or `b`. */
  method AddComplCarryM(a: array<Word32>, b: array<Word32>, carry0: nat, z: array<Word32>)
    returns (carry: nat)
    requires 0 < a.Length == b.Length == z.Length && carry0 <= 1
    modifies z
    ensures carry <= 1
    ensures var n := z.Length;
      Value(0x1_0000_0000, z[..], n) + Times(carry, Power(0x1_0000_0000, n)) ==
        Value(0x1_0000_0000, old(a[..]), n) - Value(0x1_0000_0000, old(b[..]), n) +
        Power(0x1_0000_0000, n) - 1 + carry0
  {
    hide *;
    ghost var a0, b0 := a[..], b[..];
    ghost var c0 := Complement(b0);
    carry := carry0;
    var index := 0;
    StartSum(0x1_0000_0000, a0, c0, z[..], carry);
    while true
      invariant 0 <= index < z.Length && carry <= 1
      invariant forall k :: index <= k < z.Length ==> a[k] == a0[k] && b[k] == b0[k]
      invariant Summed(0x1_0000_0000, a0, c0, z[..], index, carry0, carry)
      decreases z.Length - index
    {
      ghost var before, c := z[..], carry;
      var wordA := a[index];
      var wordB: Word32 := 0xFFFF_FFFF - b[index];
      var wordZ := Wrap32(wordA as int + wordB + carry);
      Carry32(wordA, wordB, carry);
      z[index] := wordZ;
      carry := CarryOut(wordA, wordZ, carry);
      AddColumn(0x1_0000_0000, a0, c0, before, z[..], index, carry0, c, carry);
      if index == z.Length - 1 {
        break;
      }
      index := index + 1;
    }
    SummedIs(0x1_0000_0000, a0, c0, z[..], z.Length, carry0, carry);
    ComplementValue(b0, z.Length);
  }

  /** The lowest `i` words negated: all zero as long as the carry lasts. */
  ghost predicate Negated(was: seq<nat>, z: seq<nat>, i: nat, carry: nat) {
    i <= |was| == |z| && carry <= 1 &&
    Value(0x1_0000_0000, z, i) + Value(0x1_0000_0000, was, i) ==
      if carry == 1 then 0 else Power(0x1_0000_0000, i)
  }

  lemma {:induction false} NegateColumn(was: seq<nat>, z: seq<nat>, z': seq<nat>, i: nat, carry: nat, carry': nat)
    requires Negated(was, z, i, carry) && i < |z| == |z'| && z' == z[i := z'[i]]
    requires was[i] < 0x1_0000_0000 && z'[i] == Wrap32(0xFFFF_FFFF - was[i] + carry)
    requires carry' == if z'[i] != 0 then 0 else carry
    ensures Negated(was, z', i + 1, carry')
  {
    ValueFrame(0x1_0000_0000, z, z', i);
    var p := Power(0x1_0000_0000, i);
    if carry == 1 && z'[i] == 0 {
      assert was[i] == 0;
    } else {
      assert z'[i] + was[i] == 0xFFFF_FFFF + carry;
      assert z'[i] * p + was[i] * p == (0xFFFF_FFFF + carry) * p;
    }
  }

  lemma {:induction false} NegatedWhole(was: seq<nat>, z: seq<nat>, carry: nat)
    requires Negated(was, z, |z|, carry) && forall k :: 0 <= k < |was| ==> was[k] < 0x1_0000_0000
    requires forall k :: 0 <= k < |z| ==> z[k] < 0x1_0000_0000
    ensures 0 < Power(0x1_0000_0000, |z|)
    ensures Value(0x1_0000_0000, z, |z|) ==
      (Power(0x1_0000_0000, |z|) - Value(0x1_0000_0000, was, |z|)) % Power(0x1_0000_0000, |z|)
  {
    ValueBound(0x1_0000_0000, was, |z|);
    ValueBound(0x1_0000_0000, z, |z|);
    var p := Power(0x1_0000_0000, |z|);
    DivModUnique(p - Value(0x1_0000_0000, was, |z|), p, if carry == 1 then 1 else 0, Value(0x1_0000_0000, z, |z|));
  }

  /** `softfloat_negXM`. */
  method NegXM(z: array<Word32>)
    requires 0 < z.Length
    modifies z
    ensures var n := z.Length;
      0 < Power(0x1_0000_0000, n) && Value(0x1_0000_0000, z[..], n) ==
        (Power(0x1_0000_0000, n) - Value(0x1_0000_0000, old(z[..]), n)) % Power(0x1_0000_0000, n)
  {
    hide *;
    ghost var was := z[..];
    var carry := 1;
    var index := 0;
    StartNegated(was);
    while true
      invariant 0 <= index < z.Length && carry <= 1
      invariant forall k :: index <= k < z.Length ==> z[k] == was[k]
      invariant Negated(was, z[..], index, carry)
      decreases z.Length - index
    {
      ghost var before := z[..];
      var word := Wrap32(0xFFFF_FFFF - z[index] as int + carry);
      z[index] := word;
      NegateColumn(was, before, z[..], index, carry, if word != 0 then 0 else carry);
      if index == z.Length - 1 {
        break;
      }
      index := index + 1;
      if word != 0 {
        carry := 0;
      }
    }
    NegatedWhole(was, z[..], if z[index] != 0 then 0 else carry);
  }

  lemma {:induction false} StartNegated(was: seq<nat>)
    ensures Negated(was, was, 0, 1)
  {
  }
}
