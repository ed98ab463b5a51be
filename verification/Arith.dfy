/** Nonlinear integer facts, one product at a time. */
module Arith {

  lemma {:induction false} MulLe(x: int, y: int, k: int)
    requires x <= y && 0 <= k
    ensures x * k <= y * k
  {
  }

  lemma {:induction false} MulLt(x: int, y: int, k: int)
    requires x < y && 0 < k
    ensures x * k < y * k
  {
  }

  lemma {:induction false} MulSwap(x: int, y: int, z: int)
    ensures (x * y) * z == (x * z) * y
  {
  }

  lemma {:induction false} MulCancelLt(x: int, y: int, k: int)
    requires x * k < y * k && 0 <= k
    ensures x < y
  {
    if y <= x {
      MulLe(y, x, k);
    }
  }

  lemma {:induction false} DivMod(x: int, d: int)
    requires 0 < d
    ensures x == (x / d) * d + x % d && 0 <= x % d < d
  {
  }

  lemma {:induction false} OnlyMultiple(k: int, d: int)
    requires -d < k * d < d
    ensures k == 0
  {
    if 1 <= k {
      MulLe(1, k, d);
    } else if k <= -1 {
      MulLe(k, -1, d);
    }
  }

  lemma {:induction false} DivModUnique(x: int, d: int, q: int, r: int)
    requires 0 <= r < d && x == q * d + r
    ensures x / d == q && x % d == r
  {
    DivMod(x, d);
    var k := q - x / d;
    assert k * d == q * d - (x / d) * d;
    OnlyMultiple(k, d);
  }
}
