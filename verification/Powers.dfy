/** Shifts and powers of two.  Everything is defined by doubling and halving, so that proofs about
    shifts by a variable distance stay linear. */
module Powers {
  import opened Arith

  /** n * 2^k. */
  function Shl(n: int, k: nat): int {
    if k == 0 then n else 2 * Shl(n, k - 1)
  }

  function Pow2(k: nat): (r: nat)
    ensures 0 < r
  {
    if k == 0 then 1 else 2 * Pow2(k - 1)
  }

  lemma {:induction false} ShlIsTimes(n: int, k: nat)
    ensures Shl(n, k) == n * Pow2(k)
  {
    if k > 0 {
      ShlIsTimes(n, k - 1);
      assert n * Pow2(k) == 2 * (n * Pow2(k - 1));
    }
  }

  lemma {:induction false} ShlAdd(m: int, n: int, k: nat)
    ensures Shl(m + n, k) == Shl(m, k) + Shl(n, k)
  {
    if k > 0 {
      ShlAdd(m, n, k - 1);
    }
  }

  lemma {:induction false} ShlShl(n: int, j: nat, k: nat)
    ensures Shl(Shl(n, j), k) == Shl(n, j + k)
  {
    if k > 0 {
      ShlShl(n, j, k - 1);
    }
  }

  lemma {:induction false} ShlOrder(m: int, n: int, k: nat)
    ensures m < n <==> Shl(m, k) < Shl(n, k)
  {
    if k > 0 {
      ShlOrder(m, n, k - 1);
    }
  }

  lemma {:induction false} ShlOne(k: nat)
    ensures Shl(1, k) == Pow2(k) && Shl(0, k) == 0
  {
    if k > 0 {
      ShlOne(k - 1);
    }
  }

  lemma {:induction false} ShlNonneg(n: nat, k: nat)
    ensures n <= Shl(n, k)
  {
    if k > 0 {
      ShlNonneg(n, k - 1);
    }
  }

  lemma {:induction false} ShlPow2(j: nat, k: nat)
    ensures Shl(Pow2(j), k) == Pow2(j + k)
  {
    if k > 0 {
      ShlPow2(j, k - 1);
    }
  }

  lemma {:induction false} ShlNext(n: int, k: nat)
    ensures Shl(n + 1, k) == Shl(n, k) + Pow2(k)
  {
    ShlAdd(n, 1, k);
    ShlOne(k);
  }

  lemma {:induction false} Pow2Add(m: nat, n: nat)
    ensures Pow2(m + n) == Pow2(m) * Pow2(n)
  {
    if n > 0 {
      Pow2Add(m, n - 1);
      assert Pow2(m) * Pow2(n) == 2 * (Pow2(m) * Pow2(n - 1));
    }
  }

  lemma {:induction false} Pow2Increases(m: nat, n: nat)
    requires m <= n
    ensures Pow2(m) <= Pow2(n)
  {
    if m < n {
      Pow2Increases(m, n - 1);
    }
  }

  lemma {:induction false} Pow2Literals()
    ensures Pow2(8) == 0x100
    ensures Pow2(16) == 0x1_0000
    ensures Pow2(23) == 0x80_0000
    ensures Pow2(31) == 0x8000_0000
    ensures Pow2(32) == 0x1_0000_0000
    ensures Pow2(52) == 0x10_0000_0000_0000
    ensures Pow2(60) == 0x1000_0000_0000_0000
    ensures Pow2(63) == 0x8000_0000_0000_0000
    ensures Pow2(64) == 0x1_0000_0000_0000_0000
  {
    assert Pow2(4) == 0x10;
    Pow2Add(4, 4);
    Pow2Add(8, 8);
    Pow2Add(16, 16);
    Pow2Add(31, 1);
    Pow2Add(32, 32);
    Pow2Add(60, 4);
    Pow2Add(63, 1);
    assert Pow2(7) == 0x80;
    Pow2Add(16, 7);
    Pow2Add(52, 8);
  }

  lemma {:induction false} Pow2Wide()
    ensures Pow2(112) == 0x1_0000_0000_0000_0000_0000_0000_0000
    ensures Pow2(113) == 0x2_0000_0000_0000_0000_0000_0000_0000
    ensures Pow2(128) == 0x1_0000_0000_0000_0000_0000_0000_0000_0000
    ensures Pow2(177) == 0x2_0000_0000_0000_0000_0000_0000_0000_0000_0000_0000_0000
  {
    Pow2Literals();
    Pow2Add(64, 64);
    Pow2Add(112, 16);
    Pow2Add(113, 64);
  }

  /** Logical shift right. */
  function Shr(s: nat, d: nat): nat {
    if d == 0 then s else Shr(s / 2, d - 1)
  }

  /** The bits a logical shift right throws away. */
  function LowBits(s: nat, d: nat): nat {
    if d == 0 then 0 else 2 * LowBits(s / 2, d - 1) + s % 2
  }

  lemma {:induction false} ShrSplits(s: nat, d: nat)
    ensures s == Shl(Shr(s, d), d) + LowBits(s, d) && LowBits(s, d) < Pow2(d)
  {
    if d > 0 {
      ShrSplits(s / 2, d - 1);
    }
  }

  lemma {:induction false} ShrUnique(s: nat, d: nat, q: nat, r: nat)
    requires s == Shl(q, d) + r && r < Pow2(d)
    ensures Shr(s, d) == q && LowBits(s, d) == r
  {
    if d > 0 {
      ShrUnique(s / 2, d - 1, q, r / 2);
    }
  }

  lemma {:induction false} ShrIsDiv(s: nat, d: nat)
    ensures Shr(s, d) == s / Pow2(d) && LowBits(s, d) == s % Pow2(d)
  {
    ShrSplits(s, d);
    ShlIsTimes(Shr(s, d), d);
    DivModUnique(s, Pow2(d), Shr(s, d), LowBits(s, d));
  }

  /** The real number x * 2^k, for any integer k. */
  ghost function Scale(x: real, k: int): real
    decreases if k < 0 then -k else k
  {
    if k == 0 then x else if k > 0 then 2.0 * Scale(x, k - 1) else Scale(x, k + 1) / 2.0
  }

  lemma {:induction false} ScaleSucc(x: real, k: int)
    ensures Scale(x, k + 1) == 2.0 * Scale(x, k)
  {
  }

  lemma {:induction false} ScaleScale(x: real, a: int, b: int)
    ensures Scale(Scale(x, a), b) == Scale(x, a + b)
    decreases if b < 0 then -b else b
  {
    if b > 0 {
      ScaleScale(x, a, b - 1);
      ScaleSucc(x, a + b - 1);
    } else if b < 0 {
      ScaleScale(x, a, b + 1);
      ScaleSucc(x, a + b);
    }
  }

  lemma {:induction false} ScaleInt(n: int, k: nat)
    ensures Scale(n as real, k) == Shl(n, k) as real
  {
    if k > 0 {
      ScaleInt(n, k - 1);
    }
  }

  lemma {:induction false} ScaleAdd(x: real, y: real, k: int)
    ensures Scale(x + y, k) == Scale(x, k) + Scale(y, k)
    decreases if k < 0 then -k else k
  {
    if k > 0 {
      ScaleAdd(x, y, k - 1);
    } else if k < 0 {
      ScaleAdd(x, y, k + 1);
    }
  }

  lemma {:induction false} ScaleOrder(x: real, y: real, k: int)
    ensures x < y <==> Scale(x, k) < Scale(y, k)
    decreases if k < 0 then -k else k
  {
    if k > 0 {
      ScaleOrder(x, y, k - 1);
    } else if k < 0 {
      ScaleOrder(x, y, k + 1);
    }
  }

  lemma {:induction false} ScaleTimes(x: real, y: real, k: int)
    ensures Scale(x, k) * y == Scale(x * y, k)
    decreases if k < 0 then -k else k
  {
    if k > 0 {
      ScaleTimes(x, y, k - 1);
      assert Scale(x, k) * y == 2.0 * (Scale(x, k - 1) * y);
    } else if k < 0 {
      ScaleTimes(x, y, k + 1);
      assert Scale(x, k) * y == (Scale(x, k + 1) * y) / 2.0;
    }
  }

  /** Multiplying by 2^e moves between the scales of an integer and of a real. */
  lemma {:induction false} ScaleCompare(y: real, d: int, e: nat, n: int)
    ensures Scale(y, d) < Shl(n, e) as real <==> Scale(y, d - e) < n as real
    ensures Scale(y, d) == Shl(n, e) as real <==> Scale(y, d - e) == n as real
  {
    ScaleInt(n, e);
    ScaleScale(y, d - e, e);
    ScaleOrder(Scale(y, d - e), n as real, e);
    ScaleOrder(n as real, Scale(y, d - e), e);
  }
}
