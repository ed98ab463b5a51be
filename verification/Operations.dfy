/** What IEEE 754 asks of each operation, as a function of the exact real values of its operands
    (sections 5.3.1, 5.4.1, 6.1 to 6.3 and 7.2 to 7.3 of IEEE 754-2008).  Every NaN result is the
    canonical NaN, as the RISC-V specialization has it. */
module Operations {
  import opened Powers
  import opened Rounding

  /** An encoding: its sign bit and the code of the remaining bits. */
  datatype Datum = Datum(sign: bool, code: nat)

  datatype Outcome = Outcome(datum: Datum, flags: set<Flag>)

  datatype Environment = Environment(mode: Mode, tininess: Tininess)

  predicate IsNaN(f: Format, d: Datum) {
    InfCode(f) < d.code
  }

  predicate IsInf(f: Format, d: Datum) {
    d.code == InfCode(f)
  }

  predicate IsFinite(f: Format, d: Datum) {
    d.code < InfCode(f)
  }

  predicate IsZero(d: Datum) {
    d.code == 0
  }

  function CanonicalNaN(f: Format): Datum {
    Datum(false, InfCode(f) + Hidden(f) / 2)
  }

  predicate IsSignaling(f: Format, d: Datum) {
    IsNaN(f, d) && d.code < CanonicalNaN(f).code
  }

  /** The outcome when an operand is a NaN. */
  function Propagated(f: Format, a: Datum, b: Datum): Outcome {
    Outcome(CanonicalNaN(f), if IsSignaling(f, a) || IsSignaling(f, b) then {Invalid} else {})
  }

  function Invalidated(f: Format): Outcome {
    Outcome(CanonicalNaN(f), {Invalid})
  }

  function Infinity(f: Format, sign: bool): Datum {
    Datum(sign, InfCode(f))
  }

  /** The results that are not rounded: the canonical NaN is positive and quiet, an operand that is a NaN gives it,
      with invalid exactly if one signals, as does an invalid operation, and infinities are signed. */
  lemma {:induction false} SpecialOutcomes(f: Format, a: Datum, b: Datum, sign: bool)
    requires 0 < f.fracBits
    ensures var nan := CanonicalNaN(f);
      IsNaN(f, nan) && !IsSignaling(f, nan) && !nan.sign && Propagated(f, a, b).datum == nan &&
      Invalidated(f) == Outcome(nan, {Invalid}) && nan.code == InfCode(f) + Pow2(f.fracBits - 1)
    ensures Invalid in Propagated(f, a, b).flags <==>
      (IsNaN(f, a) && a.code < InfCode(f) + Pow2(f.fracBits - 1)) ||
      (IsNaN(f, b) && b.code < InfCode(f) + Pow2(f.fracBits - 1))
    ensures Propagated(f, a, b).flags <= {Invalid}
    ensures IsInf(f, Infinity(f, sign)) && Infinity(f, sign).sign == sign
  {
    Pow2Positive(f.fracBits - 1);
    hide InfCode;
  }

  lemma {:induction false} Pow2Positive(k: nat)
    ensures 0 < Pow2(k) && Pow2(k + 1) == 2 * Pow2(k)
  {
    ShlOne(k);
  }

  /** The magnitude of a finite datum. */
  ghost function Magnitude(f: Format, d: Datum): (v: real)
    ensures 0.0 <= v && (0.0 < v <==> d.code != 0)
  {
    QuantaOfZero(f);
    QuantaAtLeast(f, d.code);
    ScaleSign(Quanta(f, d.code) as real, f.leastExp);
    Value(f, d.code)
  }

  lemma {:induction false} ScaleSign(x: real, k: int)
    ensures Scale(0.0, k) == 0.0
    ensures 0.0 < x <==> 0.0 < Scale(x, k)
    ensures x < 0.0 <==> Scale(x, k) < 0.0
    decreases if k < 0 then -k else k
  {
    if k > 0 {
      ScaleSign(x, k - 1);
    } else if k < 0 {
      ScaleSign(x, k + 1);
    }
  }

  /** The value of a finite datum. */
  ghost function RealValue(f: Format, d: Datum): real {
    if d.sign then -Magnitude(f, d) else Magnitude(f, d)
  }

  /** A real number as a multiple of the format's least subnormal number. */
  ghost function InQuanta(f: Format, v: real): (x: real)
    ensures 0.0 <= v ==> 0.0 <= x
  {
    ScaleSign(v, -f.leastExp);
    Scale(v, -f.leastExp)
  }

  ghost function Abs(v: real): (r: real)
    ensures 0.0 <= r
  {
    if v < 0.0 then -v else v
  }

  /** An exact result rounded once. */
  ghost function RoundedOutcome(f: Format, env: Environment, sign: bool, magnitude: real): Outcome
    requires 0.0 <= magnitude
  {
    var x := InQuanta(f, magnitude);
    Outcome(Datum(sign, Delivered(f, env.mode, sign, x)), Signals(f, env.tininess, env.mode, sign, x))
  }

  ghost function Divide(f: Format, env: Environment, a: Datum, b: Datum): Outcome {
    var sign := a.sign != b.sign;
    if IsNaN(f, a) || IsNaN(f, b) then Propagated(f, a, b)
    else if IsInf(f, a) then
      if IsInf(f, b) then Invalidated(f) else Outcome(Infinity(f, sign), {})
    else if IsInf(f, b) then Outcome(Datum(sign, 0), {})
    else if IsZero(b) then
      if IsZero(a) then Invalidated(f) else Outcome(Infinity(f, sign), {Infinite})
    else RoundedOutcome(f, env, sign, Ratio(Magnitude(f, a), Magnitude(f, b)))
  }

  ghost function Ratio(v: real, w: real): (r: real)
    requires 0.0 <= v && 0.0 < w
    ensures 0.0 <= r && r * w == v
  {
    v / w
  }

  ghost function Multiply(f: Format, env: Environment, a: Datum, b: Datum): Outcome {
    var sign := a.sign != b.sign;
    if IsNaN(f, a) || IsNaN(f, b) then Propagated(f, a, b)
    else if IsInf(f, a) || IsInf(f, b) then
      if IsZero(a) || IsZero(b) then Invalidated(f) else Outcome(Infinity(f, sign), {})
    else RoundedOutcome(f, env, sign, Product(Magnitude(f, a), Magnitude(f, b)))
  }

  ghost function Product(v: real, w: real): (p: real)
    ensures 0.0 <= v && 0.0 <= w ==> 0.0 <= p
  {
    v * w
  }

  /** The sum of two real numbers, of which `a` and `b` are the signs: an exact zero from operands
      of opposite signs is negative only when rounding downward. */
  ghost function RoundedSum(f: Format, env: Environment, a: bool, v: real, b: bool, w: real): Outcome {
    var sum := v + w;
    var sign := if sum == 0.0 then (if a == b then a else env.mode == Min) else sum < 0.0;
    RoundedOutcome(f, env, sign, Abs(sum))
  }

  ghost function Add(f: Format, env: Environment, a: Datum, b: Datum): Outcome {
    if IsNaN(f, a) || IsNaN(f, b) then Propagated(f, a, b)
    else if IsInf(f, a) then
      if IsInf(f, b) && a.sign != b.sign then Invalidated(f) else Outcome(a, {})
    else if IsInf(f, b) then Outcome(b, {})
    else RoundedSum(f, env, a.sign, RealValue(f, a), b.sign, RealValue(f, b))
  }

  ghost function Subtract(f: Format, env: Environment, a: Datum, b: Datum): Outcome {
    Add(f, env, a, Datum(!b.sign, b.code))
  }

  /** a * b + c, rounded once.  An infinite product with a zero factor is invalid even when `c` is a
      NaN. */
  ghost function MultiplyAdd(f: Format, env: Environment, a: Datum, b: Datum, c: Datum): Outcome {
    var sign := a.sign != b.sign;
    if IsNaN(f, a) || IsNaN(f, b) then
      Outcome(CanonicalNaN(f),
        if IsSignaling(f, a) || IsSignaling(f, b) || IsSignaling(f, c) then {Invalid} else {})
    else if (IsInf(f, a) && IsZero(b)) || (IsZero(a) && IsInf(f, b)) then Invalidated(f)
    else if IsNaN(f, c) then Outcome(CanonicalNaN(f), if IsSignaling(f, c) then {Invalid} else {})
    else if IsInf(f, a) || IsInf(f, b) then
      if IsInf(f, c) && c.sign != sign then Invalidated(f) else Outcome(Infinity(f, sign), {})
    else if IsInf(f, c) then Outcome(c, {})
    else RoundedSum(f, env, sign, Product(RealValue(f, a), RealValue(f, b)), c.sign, RealValue(f, c))
  }

  lemma {:induction false} MultiplyCases(f: Format, env: Environment, a: Datum, b: Datum)
    ensures var sign := a.sign != b.sign;
      var outcome := Multiply(f, env, a, b);
      (IsNaN(f, a) || IsNaN(f, b) ==> outcome == Propagated(f, a, b)) &&
      (IsInf(f, a) && IsZero(b) ==> outcome == Invalidated(f)) &&
      (IsZero(a) && IsInf(f, b) ==> outcome == Invalidated(f)) &&
      (IsInf(f, a) && !IsNaN(f, b) && !IsZero(b) ==> outcome == Outcome(Infinity(f, sign), {})) &&
      (!IsNaN(f, a) && !IsZero(a) && IsInf(f, b) ==> outcome == Outcome(Infinity(f, sign), {}))
    ensures IsFinite(f, a) && IsFinite(f, b) ==>
      Multiply(f, env, a, b) ==
        RoundedOutcome(f, env, a.sign != b.sign, Product(Magnitude(f, a), Magnitude(f, b)))
  {
    InfPositive(f);
    hide InfCode, Magnitude, Product, RoundedOutcome, Propagated, Invalidated, Infinity;
  }

  lemma {:induction false} ProductOfZero(f: Format, env: Environment, a: Datum, b: Datum)
    requires IsFinite(f, a) && IsFinite(f, b) && (IsZero(a) || IsZero(b))
    ensures Multiply(f, env, a, b) == Outcome(Datum(a.sign != b.sign, 0), {})
  {
    ZeroOutcome(f, env, a.sign != b.sign);
    MultiplyCases(f, env, a, b);
    hide Magnitude, Multiply, RoundedOutcome, InfCode;
    assert Product(Magnitude(f, a), Magnitude(f, b)) == 0.0;
  }

  lemma {:induction false} AddCases(f: Format, env: Environment, a: Datum, b: Datum)
    ensures var outcome := Add(f, env, a, b);
      (IsNaN(f, a) || IsNaN(f, b) ==> outcome == Propagated(f, a, b)) &&
      (IsInf(f, a) && IsInf(f, b) && a.sign != b.sign ==> outcome == Invalidated(f)) &&
      (IsInf(f, a) && IsInf(f, b) && a.sign == b.sign ==> outcome == Outcome(a, {})) &&
      (IsInf(f, a) && IsFinite(f, b) ==> outcome == Outcome(a, {})) &&
      (IsFinite(f, a) && IsInf(f, b) ==> outcome == Outcome(b, {}))
  {
    hide InfCode, Magnitude, RoundedSum, CanonicalNaN, RealValue;
  }

  /** Operands of the same sign, by their magnitudes. */
  lemma {:induction false} AddMagnitudes(f: Format, env: Environment, a: Datum, b: Datum)
    requires IsFinite(f, a) && IsFinite(f, b) && a.sign == b.sign
    ensures Add(f, env, a, b) == RoundedOutcome(f, env, a.sign, Magnitude(f, a) + Magnitude(f, b))
  {
    hide InfCode, Magnitude, RoundedOutcome;
  }

  /** Operands of opposite signs, by their magnitudes. */
  lemma {:induction false} SubtractMagnitudes(f: Format, env: Environment, a: Datum, b: Datum)
    requires IsFinite(f, a) && IsFinite(f, b) && a.sign != b.sign
    ensures var v, w := Magnitude(f, a), Magnitude(f, b);
      Add(f, env, a, b) == if v == w then Outcome(Datum(env.mode == Min, 0), {})
        else RoundedOutcome(f, env, if w < v then a.sign else b.sign, Abs(v - w))
  {
    ZeroOutcome(f, env, env.mode == Min);
    hide InfCode, Magnitude, RoundedOutcome;
  }

  /** The sum by the exact real values, and for infinities and NaNs. */
  lemma {:induction false} AddIs(f: Format, env: Environment, a: Datum, b: Datum)
    ensures IsFinite(f, a) && IsFinite(f, b) ==>
      (var v := RealValue(f, a) + RealValue(f, b);
        var sign := if v != 0.0 then v < 0.0 else if a.sign == b.sign then a.sign else env.mode == Min;
        Add(f, env, a, b) == RoundedOutcome(f, env, sign, Abs(v)))
    ensures var outcome := Add(f, env, a, b);
      (IsNaN(f, a) || IsNaN(f, b) ==> outcome == Propagated(f, a, b)) &&
      (IsInf(f, a) && IsFinite(f, b) ==> outcome == Outcome(a, {})) &&
      (IsFinite(f, a) && IsInf(f, b) ==> outcome == Outcome(b, {})) &&
      (IsInf(f, a) && IsInf(f, b) ==> outcome == if a.sign == b.sign then Outcome(a, {}) else Invalidated(f))
  {
    AddCases(f, env, a, b);
    hide InfCode, Magnitude, RoundedOutcome, CanonicalNaN, RealValue;
  }

  /** The difference by the exact real values, and for infinities and NaNs. */
  lemma {:induction false} SubtractIs(f: Format, env: Environment, a: Datum, b: Datum)
    ensures IsFinite(f, a) && IsFinite(f, b) ==>
      (var v := RealValue(f, a) - RealValue(f, b);
        var sign := if v != 0.0 then v < 0.0 else if a.sign != b.sign then a.sign else env.mode == Min;
        Subtract(f, env, a, b) == RoundedOutcome(f, env, sign, Abs(v)))
    ensures var outcome := Subtract(f, env, a, b);
      (IsNaN(f, a) || IsNaN(f, b) ==> outcome == Propagated(f, a, b)) &&
      (IsInf(f, a) && IsFinite(f, b) ==> outcome == Outcome(a, {})) &&
      (IsFinite(f, a) && IsInf(f, b) ==> outcome == Outcome(Datum(!b.sign, InfCode(f)), {})) &&
      (IsInf(f, a) && IsInf(f, b) ==> outcome == if a.sign != b.sign then Outcome(a, {}) else Invalidated(f))
  {
    AddIs(f, env, a, WithSign(b, !b.sign));
    WithSignClass(f, a, b, !b.sign);
    hide InfCode, Magnitude, RoundedOutcome, CanonicalNaN, Add;
  }

  /** A datum taken with another sign. */
  function WithSign(d: Datum, sign: bool): (r: Datum)
    ensures r.sign == sign
  {
    Datum(sign, d.code)
  }

  /** Two magnitudes added, in quanta. */
  ghost function TotalQuanta(f: Format, a: Datum, b: Datum): (x: real)
    ensures 0.0 <= x
  {
    (Quanta(f, a.code) + Quanta(f, b.code)) as real
  }

  lemma {:induction false} WithSignClass(f: Format, a: Datum, b: Datum, sign: bool)
    ensures var d := WithSign(b, sign);
      (IsNaN(f, d) <==> IsNaN(f, b)) && (IsInf(f, d) <==> IsInf(f, b)) &&
      (IsFinite(f, d) <==> IsFinite(f, b)) && (IsInf(f, d) ==> d == Infinity(f, sign)) &&
      Propagated(f, a, d) == Propagated(f, a, b) && TotalQuanta(f, a, d) == TotalQuanta(f, a, b) &&
      Magnitude(f, d) == Magnitude(f, b) && Quanta(f, d.code) == Quanta(f, b.code)
  {
    hide InfCode, CanonicalNaN, Quanta;
  }

  /** Sums and differences of data are whole numbers of quanta. */
  lemma {:induction false} SumInQuanta(f: Format, a: Datum, b: Datum)
    ensures InQuanta(f, Magnitude(f, a) + Magnitude(f, b)) == TotalQuanta(f, a, b)
    ensures Magnitude(f, a) < Magnitude(f, b) <==> Quanta(f, a.code) < Quanta(f, b.code)
    ensures Magnitude(f, b) < Magnitude(f, a) <==> Quanta(f, b.code) < Quanta(f, a.code)
    ensures Quanta(f, b.code) <= Quanta(f, a.code) ==>
      InQuanta(f, Magnitude(f, a) - Magnitude(f, b)) == (Quanta(f, a.code) - Quanta(f, b.code)) as real
  {
    var x, y, k := Quanta(f, a.code) as real, Quanta(f, b.code) as real, f.leastExp;
    ScaleAdd(x, y, k);
    ScaleOrder(x, y, k);
    ScaleOrder(y, x, k);
    WholeSum(x, y, k);
    hide Quanta;
    assert x + y == (Quanta(f, a.code) + Quanta(f, b.code)) as real;
  }

  lemma {:induction false} WholeSum(x: real, y: real, k: int)
    ensures Scale(Scale(x + y, k), -k) == x + y && Scale(Scale(x - y, k), -k) == x - y
    ensures Scale(x - y, k) == Scale(x, k) - Scale(y, k)
  {
    ScaleScale(x + y, k, -k);
    ScaleScale(x - y, k, -k);
    ScaleAdd(x - y, y, k);
    assert x - y + y == x;
  }

  /** The integer nearest to `x`; of two equally near, the even one. */
  ghost function NearestInteger(x: real): int {
    var n, rest := x.Floor, x - x.Floor as real;
    if rest < 0.5 || (rest == 0.5 && n % 2 == 0) then n else n + 1
  }

  /** What is left of `v` after the nearest multiple of `w` (section 5.3.1 of IEEE 754-2008). */
  ghost function ExactRemainder(v: real, w: real): real
    requires 0.0 <= v && 0.0 < w
  {
    v - Product(NearestInteger(Ratio(v, w)) as real, w)
  }

  /** The remainder; its sign is that of `a` when it is zero. */
  ghost function Remainder(f: Format, env: Environment, a: Datum, b: Datum): Outcome {
    if IsNaN(f, a) || IsNaN(f, b) then Propagated(f, a, b)
    else if IsInf(f, a) || IsZero(b) then Invalidated(f)
    else if IsInf(f, b) then Outcome(a, {})
    else
      var r := ExactRemainder(Magnitude(f, a), Magnitude(f, b));
      RoundedOutcome(f, env, if r < 0.0 then !a.sign else a.sign, Abs(r))
  }

  lemma {:induction false} DivideCases(f: Format, env: Environment, a: Datum, b: Datum)
    ensures var sign := a.sign != b.sign;
      var outcome := Divide(f, env, a, b);
      (IsNaN(f, a) || IsNaN(f, b) ==> outcome == Propagated(f, a, b)) &&
      (IsInf(f, a) && IsInf(f, b) ==> outcome == Invalidated(f)) &&
      (IsInf(f, a) && IsFinite(f, b) ==> outcome == Outcome(Infinity(f, sign), {})) &&
      (IsFinite(f, a) && IsInf(f, b) ==> outcome == Outcome(Datum(sign, 0), {})) &&
      (IsZero(a) && IsZero(b) ==> outcome == Invalidated(f)) &&
      (IsFinite(f, a) && !IsZero(a) && IsZero(b) ==> outcome == Outcome(Infinity(f, sign), {Infinite}))
    ensures IsFinite(f, a) && IsFinite(f, b) && !IsZero(b) ==>
      Divide(f, env, a, b) ==
        RoundedOutcome(f, env, a.sign != b.sign, Ratio(Magnitude(f, a), Magnitude(f, b)))
  {
    InfPositive(f);
    hide InfCode, Magnitude, Ratio, RoundedOutcome, Propagated, Invalidated, Infinity;
  }

  lemma {:induction false} InfPositive(f: Format)
    ensures 0 < InfCode(f)
  {
    ShlOrder(0, f.maxExp, f.fracBits);
    ShlOne(f.fracBits);
  }

  /** A finite datum is delivered as it is. */
  lemma {:induction false} DatumKept(f: Format, env: Environment, d: Datum)
    requires IsFinite(f, d)
    ensures RoundedOutcome(f, env, d.sign, Magnitude(f, d)) == Outcome(d, {})
  {
    ScaleScale(Quanta(f, d.code) as real, f.leastExp, -f.leastExp);
    ExactIsKept(f, env.mode, d.sign, d.code);
    hide Rounded, Quanta, InfCode;
  }

  /** An exact zero is delivered as a zero. */
  lemma {:induction false} ZeroOutcome(f: Format, env: Environment, sign: bool)
    ensures RoundedOutcome(f, env, sign, 0.0) == Outcome(Datum(sign, 0), {})
  {
    InfPositive(f);
    DatumKept(f, env, Datum(sign, 0));
    hide InfCode, Magnitude, RoundedOutcome;
    assert Magnitude(f, Datum(sign, 0)) == 0.0;
  }

  lemma {:induction false} RemainderCases(f: Format, env: Environment, a: Datum, b: Datum)
    ensures var outcome := Remainder(f, env, a, b);
      (IsNaN(f, a) || IsNaN(f, b) ==> outcome == Propagated(f, a, b)) &&
      (IsInf(f, a) && !IsNaN(f, b) ==> outcome == Invalidated(f)) &&
      (IsFinite(f, a) && IsZero(b) ==> outcome == Invalidated(f)) &&
      (IsFinite(f, a) && IsInf(f, b) ==> outcome == Outcome(a, {}))
  {
    InfPositive(f);
    hide InfCode, Magnitude, Ratio, RoundedOutcome, Propagated, Invalidated, Infinity;
  }

  lemma {:induction false} RemainderFinite(f: Format, env: Environment, a: Datum, b: Datum)
    requires IsFinite(f, a) && IsFinite(f, b) && !IsZero(b)
    ensures var r := ExactRemainder(Magnitude(f, a), Magnitude(f, b));
      Remainder(f, env, a, b) == RoundedOutcome(f, env, if r < 0.0 then !a.sign else a.sign, Abs(r))
  {
    hide InfCode, Magnitude, Ratio, RoundedOutcome, Propagated, Invalidated, ExactRemainder, Abs;
  }

  /** The quotient and the product of two finite data, in quanta. */
  lemma {:induction false} RatioInQuanta(f: Format, a: Datum, b: Datum)
    requires b.code != 0
    ensures 0 < Quanta(f, b.code)
    ensures InQuanta(f, Ratio(Magnitude(f, a), Magnitude(f, b))) ==
      Scale(Ratio(Quanta(f, a.code) as real, Quanta(f, b.code) as real), -f.leastExp)
  {
    QuantaAtLeast(f, b.code);
    var x, y := Quanta(f, a.code) as real, Quanta(f, b.code) as real;
    ScaleRatio(x, y, f.leastExp);
  }

  lemma {:induction false} ScaleRatio(x: real, y: real, k: int)
    requires 0.0 < y
    ensures 0.0 < Scale(y, k) && Scale(x, k) / Scale(y, k) == x / y
    decreases if k < 0 then -k else k
  {
    if k > 0 {
      ScaleRatio(x, y, k - 1);
    } else if k < 0 {
      ScaleRatio(x, y, k + 1);
    }
  }

  lemma {:induction false} ProductInQuanta(f: Format, a: Datum, b: Datum)
    ensures InQuanta(f, Product(Magnitude(f, a), Magnitude(f, b))) ==
      Scale(Product(Quanta(f, a.code) as real, Quanta(f, b.code) as real), f.leastExp)
  {
    hide Product, Scale;
    var x, y, k := Quanta(f, a.code) as real, Quanta(f, b.code) as real, f.leastExp;
    ScaleProduct(x, k, y, k);
    ScaleScale(Product(x, y), k + k, -k);
  }

  lemma {:induction false} ScaleLeft(x: real, y: real, k: int)
    ensures Product(Scale(x, k), y) == Scale(Product(x, y), k)
    ensures Product(y, Scale(x, k)) == Scale(Product(y, x), k)
  {
    ScaleTimes(x, y, k);
    assert x * y == y * x && Scale(x, k) * y == y * Scale(x, k);
  }

  lemma {:induction false} ScaleProduct(x: real, j: int, y: real, k: int)
    ensures Product(Scale(x, j), Scale(y, k)) == Scale(Product(x, y), j + k)
  {
    hide Product, Scale;
    ScaleLeft(x, Scale(y, k), j);
    ScaleLeft(y, x, k);
    ScaleScale(Product(x, y), k, j);
  }

  lemma {:induction false} InQuantaAdd(f: Format, v: real, w: real)
    ensures InQuanta(f, v + w) == InQuanta(f, v) + InQuanta(f, w)
    ensures InQuanta(f, v - w) == InQuanta(f, v) - InQuanta(f, w)
    ensures v < w <==> InQuanta(f, v) < InQuanta(f, w)
    ensures w < v <==> InQuanta(f, w) < InQuanta(f, v)
  {
    ScaleAdd(v, w, -f.leastExp);
    WholeSum(v, w, -f.leastExp);
    ScaleOrder(v, w, -f.leastExp);
    ScaleOrder(w, v, -f.leastExp);
  }

  lemma {:induction false} SignedProduct(x: real, a: bool, y: real, b: bool)
    ensures Product(if a then -x else x, if b then -y else y) ==
      if a == b then Product(x, y) else -Product(x, y)
  {
    assert (-x) * y == -(x * y) && x * (-y) == -(x * y) && (-x) * (-y) == x * y;
  }

  /** A product and an addend of magnitudes `p` and `c`, rounded once. */
  ghost function FusedOutcome(f: Format, env: Environment, sign: bool, p: real, signC: bool, c: real): Outcome
    requires 0.0 <= p && 0.0 <= c
  {
    if sign == signC then RoundedOutcome(f, env, sign, p + c)
    else if p == c then Outcome(Datum(env.mode == Min, 0), {})
    else RoundedOutcome(f, env, if c < p then sign else signC, Abs(p - c))
  }

  lemma {:induction false} FusedIs(f: Format, env: Environment, sign: bool, p: real, signC: bool, c: real)
    requires 0.0 <= p && 0.0 <= c
    ensures RoundedSum(f, env, sign, if sign then -p else p, signC, if signC then -c else c) ==
      FusedOutcome(f, env, sign, p, signC, c)
  {
    ZeroOutcome(f, env, env.mode == Min);
    hide RoundedOutcome;
  }

  lemma {:induction false} MultiplyAddFinite(f: Format, env: Environment, a: Datum, b: Datum, c: Datum)
    requires IsFinite(f, a) && IsFinite(f, b) && IsFinite(f, c)
    ensures MultiplyAdd(f, env, a, b, c) ==
      FusedOutcome(f, env, a.sign != b.sign, Product(Magnitude(f, a), Magnitude(f, b)), c.sign, Magnitude(f, c))
  {
    SignedProduct(Magnitude(f, a), a.sign, Magnitude(f, b), b.sign);
    hide Magnitude, InfCode, RoundedSum, FusedOutcome, Product;
    FusedIs(f, env, a.sign != b.sign, Product(Magnitude(f, a), Magnitude(f, b)), c.sign, Magnitude(f, c));
  }

  /** A finite a * b + c by the exact real values. */
  lemma {:induction false} MultiplyAddIs(f: Format, env: Environment, a: Datum, b: Datum, c: Datum)
    requires IsFinite(f, a) && IsFinite(f, b) && IsFinite(f, c)
    ensures var v := Product(RealValue(f, a), RealValue(f, b)) + RealValue(f, c);
      var signP := a.sign != b.sign;
      var sign := if v != 0.0 then v < 0.0 else if signP == c.sign then signP else env.mode == Min;
      MultiplyAdd(f, env, a, b, c) == RoundedOutcome(f, env, sign, Abs(v))
  {
    hide InfCode, Magnitude, RoundedOutcome, RealValue, Product;
  }

  /** `op` negates the product or the addend. */
  lemma {:induction false} MultiplyAddOpIs(f: Format, env: Environment, op: MulAddOp, a: Datum, b: Datum, c: Datum)
    requires IsFinite(f, a) && IsFinite(f, b) && IsFinite(f, c)
    ensures var p, w := Product(RealValue(f, a), RealValue(f, b)), RealValue(f, c);
      var v := if op == PlainMulAdd then p + w else if op == SubC then p - w else w - p;
      var signP, signC := (a.sign != b.sign) != (op == SubProd), c.sign != (op == SubC);
      var sign := if v != 0.0 then v < 0.0 else if signP == signC then signP else env.mode == Min;
      MultiplyAddOp(f, env, op, a, b, c) == RoundedOutcome(f, env, sign, Abs(v))
  {
    var a', c' := WithSign(a, a.sign != (op == SubProd)), WithSign(c, c.sign != (op == SubC));
    WithSignClass(f, b, a, a'.sign);
    WithSignClass(f, b, c, c'.sign);
    MultiplyAddIs(f, env, a', b, c');
    NegatedValue(f, a, op == SubProd);
    NegatedValue(f, c, op == SubC);
    SignedProduct(RealValue(f, a), op == SubProd, RealValue(f, b), false);
    hide IsFinite, Magnitude, Product, MultiplyAdd, RoundedOutcome, RealValue, Abs, WithSign;
    assert a'.sign == (a.sign != (op == SubProd)) && c'.sign == (c.sign != (op == SubC));
  }

  lemma {:induction false} NegatedValue(f: Format, d: Datum, negate: bool)
    ensures RealValue(f, WithSign(d, d.sign != negate)) == if negate then -RealValue(f, d) else RealValue(f, d)
  {
    WithSignClass(f, d, d, d.sign != negate);
    hide Magnitude;
  }

  lemma {:induction false} MultiplyAddCases(f: Format, env: Environment, a: Datum, b: Datum, c: Datum)
    ensures var outcome := MultiplyAdd(f, env, a, b, c);
      var sign := a.sign != b.sign;
      var signaling := IsSignaling(f, a) || IsSignaling(f, b) || IsSignaling(f, c);
      (IsNaN(f, a) || IsNaN(f, b) ==>
        outcome == Outcome(CanonicalNaN(f), if signaling then {Invalid} else {})) &&
      (IsInf(f, a) && IsZero(b) ==> outcome == Invalidated(f)) &&
      (IsZero(a) && IsInf(f, b) ==> outcome == Invalidated(f)) &&
      (IsFinite(f, a) && IsFinite(f, b) && IsNaN(f, c) ==>
        outcome == Outcome(CanonicalNaN(f), if IsSignaling(f, c) then {Invalid} else {})) &&
      (IsFinite(f, a) && IsFinite(f, b) && IsInf(f, c) ==> outcome == Outcome(c, {}))
    ensures (IsInf(f, a) && !IsNaN(f, b) && !IsZero(b)) || (!IsNaN(f, a) && !IsZero(a) && IsInf(f, b)) ==>
      (var outcome := MultiplyAdd(f, env, a, b, c);
        var sign := a.sign != b.sign;
        outcome == if IsNaN(f, c) then Outcome(CanonicalNaN(f), if IsSignaling(f, c) then {Invalid} else {})
          else if IsInf(f, c) && c.sign != sign then Invalidated(f) else Outcome(Infinity(f, sign), {}))
  {
    InfPositive(f);
    hide InfCode, Magnitude, Product, RoundedSum, Invalidated, Infinity, CanonicalNaN;
  }

  /** A product that is zero leaves the addend, except for the sign of a zero. */
  lemma {:induction false} FusedWithZero(f: Format, env: Environment, sign: bool, c: Datum)
    requires IsFinite(f, c)
    ensures FusedOutcome(f, env, sign, 0.0, c.sign, Magnitude(f, c)) ==
      if IsZero(c) && sign != c.sign then Outcome(Datum(env.mode == Min, 0), {}) else Outcome(c, {})
  {
    DatumKept(f, env, c);
    hide Magnitude, RoundedOutcome, InfCode;
  }

  /** What `softfloat_mulAdd` is asked for: a * b + c, a * b - c or c - a * b. */
  datatype MulAddOp = PlainMulAdd | SubC | SubProd

  ghost function MultiplyAddOp(f: Format, env: Environment, op: MulAddOp, a: Datum, b: Datum, c: Datum): Outcome {
    MultiplyAdd(f, env, WithSign(a, a.sign != (op == SubProd)), b, WithSign(c, c.sign != (op == SubC)))
  }

  /** The branches that hand back the addend as it was passed in. */
  predicate AddendAsPassed(f: Format, op: MulAddOp, a: Datum, b: Datum, c: Datum) {
    IsFinite(f, a) && IsFinite(f, b) &&
    (IsInf(f, c) || (IsFinite(f, c) && (IsZero(a) || IsZero(b)) &&
      (!IsZero(c) || ((a.sign != b.sign) != (op == SubProd)) == (c.sign != (op == SubC)))))
  }

  /** Those branches are right unless the addend was to be subtracted: then its sign is wrong. */
  lemma {:induction false} AddendReturned(f: Format, env: Environment, op: MulAddOp, a: Datum, b: Datum, c: Datum)
    requires AddendAsPassed(f, op, a, b, c)
    ensures MultiplyAddOp(f, env, op, a, b, c) == Outcome(c, {}) <==> op != SubC
  {
    var a', c' := WithSign(a, a.sign != (op == SubProd)), WithSign(c, c.sign != (op == SubC));
    if IsInf(f, c) {
      MultiplyAddCases(f, env, a', b, c');
    } else {
      MultiplyAddFinite(f, env, a', b, c');
      ZeroFactor(f, a', b);
      FusedWithZero(f, env, a'.sign != b.sign, c');
      hide Magnitude, InfCode, FusedOutcome, Product;
    }
  }

  lemma {:induction false} ZeroFactor(f: Format, a: Datum, b: Datum)
    requires IsZero(a) || IsZero(b)
    ensures Product(Magnitude(f, a), Magnitude(f, b)) == 0.0
  {
    hide Magnitude;
  }

  lemma {:induction false} InQuantaOfDatum(f: Format, a: Datum)
    ensures InQuanta(f, Magnitude(f, a)) == Quanta(f, a.code) as real
  {
    ScaleScale(Quanta(f, a.code) as real, f.leastExp, -f.leastExp);
  }

  lemma {:induction false} SignalingAnySign(f: Format, d: Datum, sign: bool)
    ensures IsSignaling(f, WithSign(d, sign)) == IsSignaling(f, d)
  {
    hide InfCode, CanonicalNaN;
  }

  /** The operation by the classes of its operands, with the signs that `op` asks for worked in. */
  lemma {:induction false} MulAddOpSpecial(f: Format, env: Environment, op: MulAddOp, a: Datum, b: Datum, c: Datum)
    ensures var outcome := MultiplyAddOp(f, env, op, a, b, c);
      var sign, signC := (a.sign != b.sign) != (op == SubProd), c.sign != (op == SubC);
      var signaling := IsSignaling(f, a) || IsSignaling(f, b) || IsSignaling(f, c);
      var withC := Outcome(CanonicalNaN(f), if IsSignaling(f, c) then {Invalid} else {});
      (IsNaN(f, a) || IsNaN(f, b) ==>
        outcome == Outcome(CanonicalNaN(f), if signaling then {Invalid} else {})) &&
      (IsInf(f, a) && IsZero(b) ==> outcome == Invalidated(f)) &&
      (IsZero(a) && IsInf(f, b) ==> outcome == Invalidated(f)) &&
      (IsFinite(f, a) && IsFinite(f, b) && IsNaN(f, c) ==> outcome == withC) &&
      ((IsInf(f, a) && !IsNaN(f, b) && !IsZero(b)) || (!IsNaN(f, a) && !IsZero(a) && IsInf(f, b)) ==>
        outcome == if IsNaN(f, c) then withC
          else if IsInf(f, c) && signC != sign then Invalidated(f) else Outcome(Infinity(f, sign), {}))
  {
    var a', c' := WithSign(a, a.sign != (op == SubProd)), WithSign(c, c.sign != (op == SubC));
    MultiplyAddCases(f, env, a', b, c');
    WithSignClass(f, b, a, a'.sign);
    WithSignClass(f, b, c, c'.sign);
    SignalingAnySign(f, a, a'.sign);
    SignalingAnySign(f, c, c'.sign);
    hide IsNaN, IsInf, IsFinite, IsSignaling, CanonicalNaN, Invalidated, Infinity, MultiplyAdd;
  }

  lemma {:induction false} MulAddOpFinite(f: Format, env: Environment, op: MulAddOp, a: Datum, b: Datum, c: Datum)
    requires IsFinite(f, a) && IsFinite(f, b) && IsFinite(f, c)
    ensures MultiplyAddOp(f, env, op, a, b, c) == FusedOutcome(f, env, (a.sign != b.sign) != (op == SubProd),
      Product(Magnitude(f, a), Magnitude(f, b)), c.sign != (op == SubC), Magnitude(f, c))
  {
    var a', c' := WithSign(a, a.sign != (op == SubProd)), WithSign(c, c.sign != (op == SubC));
    MultiplyAddFinite(f, env, a', b, c');
    WithSignClass(f, b, a, a'.sign);
    WithSignClass(f, b, c, c'.sign);
    hide IsFinite, Magnitude, Product, FusedOutcome, MultiplyAdd;
  }

  /** A zero product and a zero addend of the other sign. */
  lemma {:induction false} MulAddOpZeros(f: Format, env: Environment, op: MulAddOp, a: Datum, b: Datum, c: Datum)
    requires IsFinite(f, a) && IsFinite(f, b) && IsZero(c) && (IsZero(a) || IsZero(b))
    requires ((a.sign != b.sign) != (op == SubProd)) != (c.sign != (op == SubC))
    ensures MultiplyAddOp(f, env, op, a, b, c) == Outcome(Datum(env.mode == Min, 0), {})
  {
    InfPositive(f);
    MulAddOpFinite(f, env, op, a, b, c);
    ZeroFactor(f, a, b);
    hide MultiplyAddOp, InfCode;
  }
}
