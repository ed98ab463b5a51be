# Proofs for caveat: SoftFloat kernels, block interpreter, pipeline, atomics

A RISC-V simulator rests on code that is easy to get subtly wrong. This project models four such parts
of it in Dafny and proves what they are for.

**Floating point.** The SoftFloat routines compute IEEE 754 arithmetic with machine words, reciprocal
estimates, wrap-around and sticky bits. `Rounding` and `Operations` state what IEEE 754-2008 asks for
in terms of exact real values and know nothing of bits: a format is a line of codes, an operation
is its exact real result rounded once (sections 4.3, 5.3.1, 5.4.1, 5.9, 6.1 to 6.3 and 7.2 to 7.6). The
methods `F128Div`, `F64Div`, `F32Div`, `F128Rem`, `F64Rem`, `F32Rem`, `F128Mul`, `F128Add`, `F128Sub`,
`MulAddF64`, `MulAddF32`, `F64RoundToInt` and `F128RoundToInt` follow the C code branch by branch and are
proved to return that result, and to raise those flags, for every operand in every rounding mode. In between stands one
notion, `Sticky.Faithful`: an integer lies exactly where a real number does among the multiples of a
power of two. Estimates, jamming shifts and cancellations are shown to keep it at half-unit spacing,
and rounding is shown to need no more. The 7-bit estimates `recip7` and `rsqrte7` are proved to be
the nearest at the midpoint of the interval their table entry serves, and within their relative error of
2^-7, at every width that leaves room for them.

**Multiword integers.** The carry, borrow and product loops over arrays are proved exact for every
number of words and for outputs that are their own inputs.

**The interpreter.** The translation cache is a hash index over blocks laid out in an array of slots;
`TransCache` proves it a map from addresses to blocks, and `HartBlocks` that running chained
basic blocks, through flushes too, is running single instructions. `CompareAndSwap` proves when the
compare-and-swap that the blocks hold for a store conditional does what that would have done. Two things
the source leaves unchecked are pinned down with an if-and-only-if: which load reserved the substitution
may follow, and which pointer may be redirected right after a flush. `Pipesim` proves the scoreboard exact in every state of
every run, and a bound on stalls. `Atomics` and `HartList` take the compare-and-swap loops as
interleaved steps of any number of harts.

Words are integers with explicit wrap-around (`Words`), C's state is a class where the source updates it in
place, and each method is tied to the specification by its `ensures` clauses. Where the code and its own comments
disagree the code is followed: a taken branch uses the first of a block's two pointers, not the
second as caveat/caveat.h says; `softfloat_remStepMBy32` with a distance of 0 is not what
softfloat/primitives.h promises (`RemStepByZero` says exactly when it is).

`dafny verify dfyconfig.toml` checks everything. Files, by layer:

- arithmetic: `Arith`, `Powers`, `Words`, `Sticky`, `Products`, `Multiword`, `Mul256M`, `RemStep`
- specification: `Rounding`, `Delivery`, `Operations`, `Integral`, `RemainderExact`
- encodings and rounding: `RoundPack`, `RoundPackF32/F64/F128`, `EncodingF32/F64/F128`
- division and remainder: `Estimate`, `Quotients`, `Remainders`, `StepF128`, `DivF32/F64/F128`, `RemF32/F64/F128`
- the other operations: `MulF128`, `AddF128`, `Fused`, `MulAddF32/F64`, `RoundToIntF64/F128`, `EstimateTables`, `Nearest7`, `Reciprocal7`
- simulator: `TransCache`, `Machines`, `CompareAndSwap`, `HartBlocks`, `Pipesim`, `Atomics`, `HartList`

## Model

| member | source | states |
|---|---|---|
| DivF128.F128Div | softfloat/f128_div.c:44-198 | for every pair of encodings, every rounding mode and tininess setting: result and raised flags are those of IEEE 754 division, the exact quotient rounded once; NaN, infinity and zero operands included |
| DivF64.F64Div | softfloat/f64_div.c:44-171 | the same for binary64, through two underestimated digits and the exact check |
| DivF32.F32Div | softfloat/f32_div.c:44-179 | the same for binary32, through the 64-by-32-bit division |
| RemF128.F128Rem | softfloat/f128_rem.c:44-189 | for every pair of encodings: the IEEE remainder of the nearest-even quotient, with the sign of a zero result and the invalid exception |
| RemF64.F64Rem | softfloat/f64_rem.c:44-188 | the same for binary64, though the remainder is kept modulo 2^64 |
| RemF32.F32Rem | softfloat/f32_rem.c:44-167 | the same for binary32, though the remainder is kept modulo 2^32 |
| MulF128.F128Mul | softfloat/f128_mul.c:44-162 | for every pair of encodings: the exact product rounded once, with all special cases and flags |
| AddF128.F128Add | softfloat/f128_add.c:42-77 | for every pair of encodings: the exact sum rounded once; the sign of an exact zero follows the rounding mode |
| AddF128.F128Sub | softfloat/f128_sub.c:42-77 | the same for the difference |
| Operations.SubtractIs | softfloat/f128_sub.c:42-77 | what the difference is, without reference to addition: the exact a - b rounded once, with the sign of an exact zero, and the infinities and NaNs |
| Operations.AddIs | softfloat/f128_add.c:42-77 | what the sum is: the exact a + b rounded once, with the sign of an exact zero, and the infinities and NaNs |
| AddF128.AddMagsF128 | softfloat/s_addMagsF128.c:43-153 | operands of one sign: the sum of the magnitudes rounded once, infinities and NaNs included |
| AddF128.SubMagsF128 | softfloat/s_subMagsF128.c:44-138 | operands of opposite signs: the difference of the magnitudes rounded once, with the sign of the larger |
| MulAddF64.MulAddF64 | softfloat/s_mulAddF64.c:47-242 | for every triple of encodings and every `op`: a*b+c with a single rounding, in every branch that does not hand back the addend as it was passed under `SubC` (see AddendReturned) |
| MulAddF32.MulAddF32 | softfloat/s_mulAddF32.c:45-223 | the same for binary32 |
| RoundToIntF64.F64RoundToInt | softfloat/f64_roundToInt.c:44-111 | for every encoding and mode: the value rounded to an integer, sign of zero kept, inexact raised if and only if asked for and the value changed; rounding to odd truncates |
| RoundToIntF128.F128RoundToInt | softfloat/f128_roundToInt.c:44-159 | the same for binary128, through the paths for a fraction below, at and above the word boundary |
| Reciprocal7.ClassifiedRecip7 | softfloat/fall_reciprocal.c:265-392 | at the widths of binary16, binary32 and binary64: for every finite nonzero operand whose reciprocal the format reaches, the nearest estimate of eight significant bits at the midpoint of the operand's 128th of its binade, within a relative error of 2^-7; the overflow result and flags exactly for the others, and the special cases |
| Reciprocal7.ClassifiedRSqrtE7 | softfloat/fall_reciprocal.c:96-205 | the same for the reciprocal square root of every positive operand; invalid for negative ones |
| RoundPackF128.RoundPackToF128 | softfloat/s_roundPackToF128.c:44-170 | given an exponent and a significand that is faithful to a real magnitude at half-unit spacing: the correct rounding of that magnitude in all six modes, with overflow, underflow by either tininess rule and inexact exactly when IEEE 754 has them |
| RoundPackF64.RoundPackToF64 | softfloat/s_roundPackToF64.c:43-116 | the same for binary64 |
| RoundPackF32.RoundPackToF32 | softfloat/s_roundPackToF32.c:43-112 | the same for binary32 |
| RoundPackF128.NormRoundPackToF128 | softfloat/s_normRoundPackToF128.c:43-80 | normalizes, then packs exactly or rounds as above |
| RoundPackF64.NormRoundPackToF64 | softfloat/s_normRoundPackToF64.c:42-57 | the same for binary64 |
| RoundPackF32.NormRoundPackToF32 | softfloat/s_normRoundPackToF32.c:42-57 | the same for binary32 |
| RoundPack.InRange | softfloat/s_roundPackToF128.c:138-164 | a rounded significand that stays below the format's limit packs to the rounding of the magnitude, carry into the exponent included |
| RoundPack.Overflowing | softfloat/s_roundPackToF128.c:106-136 | otherwise: infinity or the largest finite number, by mode and sign, with overflow and inexact |
| RoundPack.BelowNormal | softfloat/s_roundPackToF128.c:72-105 | a negative exponent made up for by a jamming shift: correct subnormal rounding, and underflow if and only if tiny and inexact |
| Rounding.NearestIsNearest | softfloat/s_roundPackToF128.c:61-69 | the specification itself: no code is nearer to the magnitude than the one delivered by the nearest modes |
| Rounding.NearestTies | softfloat/s_roundPackToF128.c:149-157 | on a tie the even code, or the larger one |
| Rounding.DirectedIsTightest | softfloat/s_roundPackToF128.c:61-69 | the directed modes deliver the tightest bound on their side |
| Rounding.OddIsSticky | softfloat/s_roundPackToF128.c:140-148 | rounding to odd is odd unless exact |
| Delivery.NearestOverflow | softfloat/s_roundPackToF128.c:106-136 | to nearest, infinity is delivered exactly from the middle between the largest finite number and what would follow it |
| Delivery.DirectedDelivered | softfloat/s_roundPackToF128.c:106-136 | a directed mode delivers the tightest bound on its side among the finite numbers and infinity |
| Delivery.OddStaysFinite | softfloat/s_roundPackToF128.c:106-136 | rounding to odd never delivers infinity |
| Delivery.SignalsAre | softfloat/s_roundPackToF128.c:72-168 | inexact exactly when what is delivered is not the exact value, overflow exactly when no finite code is reached, underflow exactly when the result is inexact and tiny, and no other flag |
| Delivery.TinyIs | softfloat/s_roundPackToF128.c:72-105 | where tininess ends, by the magnitude: the least normal number before rounding, and after rounding that less a quarter or half of a quantum or nothing, as the mode says |
| Rounding.RoundedMonotone | softfloat/s_roundPackToF128.c:61-164 | rounding is monotone in the magnitude |
| Sticky.JamFaithful | softfloat/primitives.h:64-102 | a right shift that jams lost bits keeps an integer faithful to the scaled real at every coarser spacing |
| Sticky.FloorFromFaithful | softfloat/s_roundPackToF128.c:61-168 | a faithful significand determines the neighbouring codes of the exact value and the side of their midpoint |
| Operations.AddendReturned | softfloat/s_mulAddF64.c:230-240 | where the code hands back the addend it was passed, that is the IEEE result if and only if `op` is not `SubC` |
| Operations.MultiplyAddOpIs | softfloat/s_mulAddF64.c:47-242 | what the fused operation is for finite operands: a*b + c, a*b - c or c - a*b as a real number, rounded once, with the sign of an exact zero |
| Operations.SpecialOutcomes | softfloat/s_propagateNaNF64UI.c:47-57 | the canonical NaN is positive and quiet; a NaN operand gives it, with invalid if and only if an operand has its quiet bit clear |
| MulAddF64.AddendNotNegated | softfloat/s_mulAddF64.c:94-101 | inputs for which it is not: 1 * 1 minus infinity and 0 * 0 minus 1 |
| MulAddF32.AddendNotNegated | softfloat/s_mulAddF32.c:94-101 | the same for binary32 |
| Operations.DatumKept | softfloat/s_roundPackToF128.c:61-168 | a representable exact result is delivered unchanged and signals nothing |
| RemainderExact.RemainderIsExact | softfloat/f128_rem.c:161-173 | the remainder is always representable, at most half the divisor, and never raises inexact, underflow or overflow |
| Remainders.RemainderIs | softfloat/f64_rem.c:163-175 | an integer remainder of a nearest, tie-to-even quotient, scaled, is the IEEE remainder |
| Remainders.SelectsNearest | softfloat/f64_rem.c:163-169 | sanity statement about the specification: of the last two remainders the code's test picks the nearer, and on a tie the one with the even quotient |
| Estimate.ApproxRecip32 | softfloat/primitives.h:170-187 | the reciprocal is the integer quotient of 2^63 - 1: a bound on both sides |
| Estimate.RoundedDigit | softfloat/f128_div.c:131-144 | a digit estimated from leading bits and rounded leaves a remainder from minus one up to two divisors |
| Estimate.TruncatedDigit | softfloat/f64_rem.c:149-150 | a truncated digit of any width is less than half a divisor too large, and short by a bounded amount |
| DivF128.LeadingDigits | softfloat/f128_div.c:129-144 | the digit loop: digits and remainder always make up the scaled dividend, and the array holds the digits |
| DivF128.LastDigit | softfloat/f128_div.c:147-159 | the skip test `((q + 1) & 7) < 2` never skips a case where an estimate could cross a rounding boundary: corrected or not, the quotient is faithful at spacing 8 |
| DivF128.QuotientF128 | softfloat/f128_div.c:129-168 | the assembled significand and sticky word are faithful to the exact quotient at half-unit spacing |
| StepF128.CorrectedDigit | softfloat/f128_div.c:132-143 | one digit with its correction: exact division step with a remainder below the divisor |
| DivF64.UnderestimatedDigit | softfloat/f64_div.c:123-129 | each digit estimate is a strict lower bound, by a bounded amount |
| DivF64.QuotientF64 | softfloat/f64_div.c:113-145 | the significand handed on is faithful to the exact quotient at spacing 512 |
| DivF64.ExactCheck | softfloat/f64_div.c:133-145 | the exact check places the quotient on the right side of the multiple of 512 it is next to |
| DivF32.QuotientF32 | softfloat/f32_div.c:119-127 | the quotient with its sticky test is faithful at spacing 64 |
| Quotients.NearQuotient | softfloat/f128_div.c:147-159 | an estimate off by less than one below and two above, away from the multiples of 8, is faithful at spacing 8 |
| Remainders.StepReduction | softfloat/f64_rem.c:136-144 | one digit keeps quotient times divisor plus remainder equal to the dividend seen so far |
| RemF64.LeadingDigits | softfloat/f64_rem.c:133-145 | the loop keeps quotient times divisor plus remainder equal to the scaled dividend, with the remainder under two divisors, and ends |
| RemF64.ReduceF64 | softfloat/f64_rem.c:125-150 | the whole reduction: the wrapped word holds the true signed remainder of the scaled dividend |
| RemF64.SelectRem | softfloat/f64_rem.c:163-169 | the last loop's two remainders and the selection between them give the nearest-even remainder |
| RemF32.LeadingDigits | softfloat/f32_rem.c:128-133 | the loop of the 32-bit version, with the remainder under two divisors modulo 2^32 |
| RemF32.ReduceF32 | softfloat/f32_rem.c:120-138 | no remainder is lost modulo 2^32 |
| RemF128.LeadingDigits | softfloat/f128_rem.c:129-140 | the loop over two-word remainders |
| RemF128.ReduceF128 | softfloat/f128_rem.c:127-147 | the two-word reduction leaves the true signed remainder |
| MulAddF64.AddFused | softfloat/s_mulAddF64.c:141-169 | a product and an addend of one sign: what is passed on is faithful to the exact sum through every alignment |
| MulAddF64.SubtractFused | softfloat/s_mulAddF64.c:141-206 | of opposite signs: faithful through cancellation and sign flip, and complete cancellation exactly when the exact difference is zero |
| MulAddF64.FusedSignificands | softfloat/s_mulAddF64.c:118-240 | finite nonzero operands end to end |
| MulAddF32.AddFused | softfloat/s_mulAddF32.c:140-158 | the same for binary32 |
| MulAddF32.SubtractFused | softfloat/s_mulAddF32.c:159-187 | the same for binary32 |
| MulAddF32.FusedSignificands | softfloat/s_mulAddF32.c:118-189 | the same for binary32 |
| Fused.NormalizedDifference | softfloat/s_mulAddF64.c:188-205 | a difference shifted up and cut down to its high part stays faithful when it is exact or the shift is short |
| Fused.HighJammed | softfloat/s_mulAddF64.c:142-145 | jamming only the high word of a two-word product keeps its place among the multiples of 2^65 |
| MulF128.ProductF128 | softfloat/f128_mul.c:116-133 | with B shifted out of its implicit bit and A added back: the product significand, faithful to the exact product |
| AddF128.AddAligned | softfloat/s_addMagsF128.c:88-146 | the aligned sum, implicit bit or-ed in, is faithful to the exact sum before rounding |
| AddF128.SubtractAligned | softfloat/s_subMagsF128.c:69-131 | the aligned difference likewise |
| EncodingF128.ClassF128 | softfloat/internals.h:180-185 | the fields tell NaN, infinity, finite and zero apart |
| EncodingF128.QuantaF128 | softfloat/internals.h:180-183 | the fields give the value of the encoding |
| EncodingF128.SignalingF128 | softfloat/specialize.h:278-278 | the signalling test agrees with the quiet bit |
| EncodingF128.PropagateNaNF128UI | softfloat/s_propagateNaNF128UI.c:50-72 | the canonical NaN, with invalid if and only if an operand signals |
| EncodingF64.PropagateNaNF64UI | softfloat/s_propagateNaNF64UI.c:44-57 | the same for binary64 |
| EncodingF32.PropagateNaNF32UI | softfloat/s_propagateNaNF32UI.c:44-57 | the same for binary32 |
| EncodingF128.NormSubnormalF128Sig | softfloat/s_normSubnormalF128Sig.c:41-64 | a normalized significand and an exponent of the same value |
| EncodingF64.NormSubnormalF64Sig | softfloat/s_normSubnormalF64Sig.c:40-51 | the same for binary64 |
| EncodingF32.NormSubnormalF32Sig | softfloat/s_normSubnormalF32Sig.c:40-51 | the same for binary32 |
| Words.CountLeadingZeros64 | softfloat/s_countLeadingZeros64.c:45-70 | the leading one is exactly where the count says |
| Words.CountLeadingZeros32 | softfloat/s_countLeadingZeros32.c:45-61 | the same for 32 bits |
| Words.ShiftRightJam64 | softfloat/primitives.h:85-102 | a jamming shift for every distance, 63 and up included |
| Words.ShiftRightJam32 | softfloat/primitives.h:64-81 | the same for 32 bits |
| Words.ShiftRightJam128 | softfloat/s_shiftRightJam128.c:44-66 | the shifted 128-bit value, its low bits jammed, for every distance |
| Words.ShortShiftRightJam128 | softfloat/primitives.h:331-357 | the same under a word |
| Words.ShiftRightJam128Extra | softfloat/s_shiftRightJam128Extra.c:44-74 | the shifted value keeps its place above the extra word, which is zero just when nothing was lost |
| Words.ShortShiftRightJam128Extra | softfloat/primitives.h:360-386 | the same under a word |
| Words.ShortShiftLeft128 | softfloat/primitives.h:266-286 | a two-word shift, modulo 2^128 |
| Words.Add128 | softfloat/primitives.h:482-503 | two-word addition modulo 2^128, by the carry comparison |
| Words.Sub128 | softfloat/primitives.h:517-538 | two-word subtraction modulo 2^128 |
| Words.Eq128 | softfloat/primitives.h:221-233 | equality of the two-word values |
| Words.Lt128 | softfloat/primitives.h:251-263 | their order |
| Words.Le128 | softfloat/primitives.h:236-248 | their order, equality included |
| Products.Mul64To128 | softfloat/s_mul64To128.c:43-63 | the full product, the carries recovered by comparison |
| Products.Mul128By32 | softfloat/s_mul128By32.c:43-55 | the product modulo 2^128, the carry recovered from the truncated low word |
| Products.Mul128To256M | softfloat/s_mul128To256M.c:45-68 | the full 256-bit product in the array |
| Products.MulHU | caveat/arithmetic.h:81-100 | the high 64 bits of the unsigned product |
| Products.MulH | caveat/arithmetic.h:102-107 | the high 64 bits of the signed product, for every pair of signs |
| Products.MulHSU | caveat/arithmetic.h:109-114 | the high 64 bits of the signed-by-unsigned product |
| Mul256M.Mul128MTo256M | softfloat/s_mul128MTo256M.c:45-97 | the schoolbook loop writes the full product |
| Multiword.AddCarryM | softfloat/s_addCarryM.c:43-67 | value(z) + carry * 2^(32n) = value(a) + value(b) + carry in, for every n, also when z is a or b |
| Multiword.AddM | softfloat/s_addM.c:43-67 | the sum modulo 2^(32n), also in place |
| Multiword.Add256M | softfloat/s_add256M.c:44-62 | the sum modulo 2^256, also in place |
| Multiword.AddComplCarryM | softfloat/s_addComplCarryM.c:43-67 | with the complement of b: a subtraction when the carry in is 1; also in place |
| Multiword.NegXM | softfloat/s_negXM.c:43-60 | two's complement negation in place |
| RemStep.RemStepMBy32 | softfloat/s_remStepMBy32.c:42-83 | the shifted words less the product, modulo 2^(32n), for every n, also when z is rem or b |
| RemStep.RemStepMeaning | softfloat/primitives.h:1117-1125 | for a distance of 1 to 31 that is the promised (R << dist) - B * q modulo 2^(32n) |
| RemStep.RemStepByZero | softfloat/s_remStepMBy32.c:58-81 | for a distance of 0, whatever the product: what is stored is the promised residue if and only if every word already has the bits of the word below it |
| RemStep.RemStepByZeroFails | softfloat/s_remStepMBy32.c:58-81 | an input for which it is not: 1 as two words |
| Integral.DirectedInteger | softfloat/f64_roundToInt.c:62-104 | sanity statement about the specification: the directed modes are floor, ceiling and truncation of the signed value |
| Integral.NearestIntegral | softfloat/f64_roundToInt.c:62-104 | sanity statement about the specification: no integer is nearer; ties as the mode says |
| Integral.IntegralIsExact | softfloat/f64_roundToInt.c:56-106 | the rounded integer has a finite code of the same sign, so the result is exact |
| Integral.IntegralSignals | softfloat/f64_roundToInt.c:56-106 | inexact is raised if and only if it is asked for and the value changes; NaNs and infinities |
| Integral.Idempotent | softfloat/f64_roundToInt.c:56-106 | rounding again, in any mode, changes nothing and raises nothing |
| Integral.RoundedEncoding | softfloat/f64_roundToInt.c:89-103 | adding to the packed word and clearing low bits gives the code of the rounded value, whatever carries ripple into the exponent |
| RoundToIntF64.RoundOffFraction | softfloat/f64_roundToInt.c:89-103 | the increments and masks of the packed word leave the encoding of the number rounded to an integer, and change the word just when that is inexact |
| RoundToIntF128.RoundOffLow | softfloat/f128_roundToInt.c:75-104 | the same for a fraction within the low word, the boundary case included |
| RoundToIntF128.RoundOffHigh | softfloat/f128_roundToInt.c:132-150 | the same for a fraction that reaches into the high word, the low word sticky |
| EstimateTables.RecipEntry | softfloat/fall_reciprocal.c:216-232 | every entry of the reciprocal table is the integer nearest to the reciprocal of the midpoint of the interval it serves, and good for all significands of it |
| EstimateTables.RSqrtEntry | softfloat/fall_reciprocal.c:64-80 | the same for every entry of the reciprocal square root table, for both parities of the exponent |
| Reciprocal7.NormalizeSub | softfloat/fall_reciprocal.c:82-87 | the normalizing loop ends, and its wrapped exponent and shifted significand have the operand's value |
| Reciprocal7.Recip7 | softfloat/fall_reciprocal.c:208-263 | the nearest estimate, subnormal results included, or the overflow result exactly when the operand is under a quarter of the least normal number |
| Reciprocal7.RSqrtE7 | softfloat/fall_reciprocal.c:58-94 | the estimate of a normal or subnormal operand is finite, the nearest one, and within 2^-7 |
| Reciprocal7.NearRSqrtIs | softfloat/fall_reciprocal.c:58-94 | the bound said with the square root itself |
| Nearest7.RecipUnique | softfloat/fall_reciprocal.c:208-263 | there is one nearest estimate of a reciprocal: the values of operand and entry determine the code delivered |
| Nearest7.RSqrtUnique | softfloat/fall_reciprocal.c:58-94 | the same for the reciprocal square root |
| Reciprocal7.OverflowMeans | softfloat/fall_reciprocal.c:241-250 | where the overflow result is delivered, the nearest estimate has no finite encoding |
| Reciprocal7.StandardWidths | softfloat/fall_reciprocal.c:126-127 | the widths used are those of binary16, binary32 and binary64 |
| TransCache.Tcache.constructor | caveat/hart.cc:169-183 | an empty cache, with the index valid |
| TransCache.Tcache.Find | caveat/caveat.h:144-151 | ends, and returns the one live block with that address, or null if and only if there is none |
| TransCache.Tcache.Add | caveat/hart.cc:185-200 | with the copy the source intends: the block is appended (after a flush if it does not fit) and indexed; earlier slots are untouched |
| TransCache.Tcache.AddAsWritten | caveat/hart.cc:185-200 | with the copy as written, of twice as many slots: wherever that stays within the buffer and the cache, the layout, the index and the blocks are the same, and the surplus lies behind the block |
| TransCache.Tcache.Clear | caveat/hart.cc:202-206 | no blocks, one more flush |
| TransCache.Tcache.SetPointer | caveat/hart.cc:283-283 | redirecting a pointer changes that slot only: headers, instructions and index stay |
| TransCache.AppendIndex | caveat/hart.cc:196-198 | the appended header leads to the earlier ones of its bucket, and every link decreases |
| TransCache.ContinueSearch | caveat/caveat.h:146-149 | each link followed skips no block of the bucket |
| TransCache.StalePointer | caveat/hart.cc:188-194 | after a flush the pointer left from before it, redirected to the new block (caveat/hart.cc:283), leaves that block intact if and only if it lies behind the block's header and instructions; the source does not check it |
| Machines.DecodeIs | caveat/hart.cc:238-249 | the decoding loop gives the straight-line code at its address, until an instruction ends it, the next must begin one, 256 bytes or 127 instructions are reached |
| Machines.DecodedNext | caveat/hart.cc:238-249 | one more decoded instruction keeps the block straight and the decode address right |
| Machines.StraightAt | caveat/hart.cc:238-249 | instruction k of a block is decoded at its address plus 4 bytes for each before it, less 2 for each compressed one |
| Machines.BlockIs | caveat/hart.cc:238-254 | with the store conditional that may end it substituted, the block is the straight-line code of the machine whose store conditionals are substituted, of the same length and ended at the same place |
| Machines.SameRun | caveat/hart.cc:251-253 | a run in which each instruction met does what the one substituted for it does is the same run with substitution |
| CompareAndSwap.SubstitutedWhen | caveat/hart.cc:336-355 | a store conditional is substituted if and only if a load reserved of its width and address and a branch on what was loaded come right before it; the width, registers and expected value of the compare-and-swap |
| CompareAndSwap.LaidOut | caveat/hart.cc:336-355 | the three instructions laid out one after another are substituted, given that the second half of a 4-byte branch does not look like a 2-byte one, which the source tries first |
| CompareAndSwap.AbortsWhen | caveat/hart.cc:251-253 | a block is refused if and only if it ends in a store conditional without its pattern; with the pattern it holds the compare-and-swap, and any other block is as decoded |
| CompareAndSwap.InstructionEffects | caveat/interpreter.cc:42-73 | what load reserved, store conditional and compare-and-swap (caveat/hart.h:137-143) leave in program counter, registers and memory |
| CompareAndSwap.TruncatedIs | caveat/interpreter.cc:69-73 | the conversions to 32 and 64 bits keep the value modulo 2^32 and 2^64, as a signed number |
| CompareAndSwap.CasStores | caveat/hart.cc:321-356 | for any memory, any registers and both widths: after the load reserved and the untaken branch the substituted compare-and-swap (caveat/hart.h:137-143) stores, and does what the store conditional (caveat/interpreter.cc:69-73) does, if the load reserved leaves its address register and register 0 alone |
| CompareAndSwap.SubstitutionExact | caveat/hart.cc:341-356 | in memory of words, a pattern that `substitute_cas` accepts keeps its meaning in every state if and only if the load reserved goes to a register other than register 0 and its own address register; the source checks neither |
| CompareAndSwap.SubstitutedRun | caveat/hart.cc:321-356 | any run of a hart in which every store conditional is come to through its pattern is, step for step, the run of the plain program |
| HartBlocks.Hart.constructor | caveat/hart.cc:34-36 | a hart whose own pointer leads nowhere yet |
| HartBlocks.Hart.DecodeBlock | caveat/hart.cc:234-264 | the block at an address in a buffer, the store conditional that may end it substituted, its header with count, 8-bit length and condition, and its pointers, in at most 131 of the 140 slots |
| HartBlocks.Hart.FindBB | caveat/hart.cc:229-267 | the block for an address, from the cache or decoded; a flush happens if and only if it is not cached and does not fit, and leaves only that block; a hit leaves the cache alone, and every block cached is always the one for its own address |
| HartBlocks.Hart.NextBlock | caveat/hart.cc:282-283 | the chained block if its address is the program counter, else the block found, with a flush or without; the pointer is redirected to it |
| HartBlocks.Hart.ExecuteBlock | caveat/hart.cc:287-294 | executing the cached instructions is as many single steps of the machine whose store conditionals are substituted, and no "unexpected branch" happens |
| HartBlocks.Hart.RunBasicBlock | caveat/hart.cc:280-303 | one block, found with a flush or without, is as many decode-and-execute steps of the machine whose store conditionals are substituted as it has instructions; it returns whether the last one branched, and the pointer left for the next block is the one for that case |
| HartBlocks.Hart.RunBlocks | caveat/hart.cc:280-303 | any number of blocks, cached or not and through any number of flushes, refines as many single steps (caveat/caveat.cc:139-145) as they have instructions, store conditionals substituted; the run stops early only at program counter 0, before a block that ends in a store conditional without its pattern (fatal in the source), and before a flush that `TransCache.StalePointer` shows to damage the new block or whose block the whole cache cannot hold |
| Pipesim.Core.constructor | pipesim/pipesim.cc:18-26 | an idle core, for depths of 1 to 16 |
| Pipesim.Core.ClockPipeline | pipesim/pipesim.cc:80-90 | exactly the flight that has reached the unit's depth retires and frees its register |
| Pipesim.Core.Issue | pipesim/pipesim.cc:36-78 | issues if and only if no busy register other than 0 is the destination, the first source or, without a long immediate, the second or third source; into the floating-point, memory or integer unit by its attributes, into a free slot, with a history record no flight uses |
| Pipesim.Core.Tick | pipesim/display.cc:134-140 | one cycle: flights are those not done yet, plus the one issued, which is issued if and only if it writes and reads no register that one of those is to write |
| Pipesim.Core.ScoreboardExact | pipesim/pipesim.cc:36-90 | in every reachable state a register is busy if and only if exactly one slot of the three units writes it |
| Pipesim.Core.IssueWhenReady | pipesim/display.cc:132-140 | a stalled instruction issues, into the unit its attributes name, before as many cycles as the deepest unit is deep have passed |
| Pipesim.SoundRetire | pipesim/pipesim.cc:84-87 | retiring a flight by its history record keeps the invariant, and the busy set loses exactly its register |
| Atomics.Linearizable | caveat/hart.h:137-157 | for every interleaving of harts: memory is what the events make of it in the order of their successful swaps, each operation returned the value just before its own, and each hart's operations took effect in its own order |
| Atomics.StepKeeps | caveat/hart.h:137-157 | every single step keeps that |
| Atomics.FailureMeansInterference | caveat/hart.h:144-157 | in every reachable state a swap fails only if another hart wrote the word since it was loaded |
| Atomics.UndisturbedSwap | caveat/hart.h:144-157 | an undisturbed pass through the loop takes effect at once |
| Atomics.UndisturbedOperation | caveat/hart.h:144-157 | a whole operation from an idle hart, undisturbed: memory, result and history, and nothing else changes |
| Atomics.SwapAgain | caveat/hart.h:146-147 | a swap that finds another value changes nothing, and the hart loads again |
| Atomics.CasAtOnce | caveat/hart.h:137-143 | `cas` stores if and only if it finds the value wanted, and tells whether it failed |
| Atomics.StoreAtOnce | caveat/interpreter.cc:49-49 | a store puts its value into its word and changes no other |
| HartList.AlwaysListed | caveat/hart.cc:52-58 | for every interleaving: no cycle, no duplicate, exactly the attached harts, distinct `sid`s, and later harts only in front |
| HartList.FirstStaysLast | caveat/hart.cc:52-58 | the first hart attached is the last of the list ever after |
| HartList.UndisturbedPush | caveat/hart.cc:52-58 | an undisturbed `initialize` puts the hart in front with the next number, and changes nothing else |
| HartList.PushAgain | caveat/hart.cc:53-55 | a swap that finds another hart in front changes nothing, and the hart links again |
| HartList.Find | caveat/hart.cc:44-50 | ends, and returns the first listed hart with the thread number, or null if there is none |
| HartList.MainTid | caveat/proxy_syscall.cc:191-195 | the walk ends with the thread number of the last hart |

## Left out

- TransCache.Tcache.Add: models the copy as `n` slots of 8 bytes into a cache of at least n + 2 slots. The source indexes `Header_t`, which is 16 bytes, in its copy loop (caveat/hart.cc:193-194) and so moves twice as much; the commented-out `memcpy` shows the intended amount. AddAsWritten models the loop as it stands, where it stays in bounds: blocks of up to 70 slots, with room for twice the block. FindBB uses Add.
- HartBlocks.Hart.NextBlock: not promised for a flush after which the redirected pointer, left from before the flush, lies in the header or the instructions of the new block, because that destroys it (`TransCache.StalePointer`); nor at the program counter 0, the address of the mismatch header; nor for a block that needs more slots than the cache has.
- HartBlocks.Hart.RunBasicBlock: as for NextBlock. Code memory does not change, and the trace of values through `ap` is not modelled.
- The interpreter's loop over blocks does not look ahead as `HartBlocks.Hart.Ready` does, which only marks how far the run is followed.
- HartBlocks.Hart.DecodeBlock: not promised for a block that ends in a store conditional without its pattern, which `substitute_cas` makes fatal. Decoding, execution and instruction attributes are parameters, since the generated decoder and semantics are not part of this model; assumed of them is that an instruction without the attribute that ends blocks falls through, and that store conditionals have it and take 4 bytes.
- CompareAndSwap.SubstitutedRun: one hart, so nobody else writes between the load reserved and the store conditional; what a failed compare-and-swap means between harts is `Atomics.FailureMeansInterference`.
- Pipesim.Core.Issue: the stages are empty at the start, which the source leaves to the allocator; `label` and `val` of a history record are not modelled.
- Products.MulH: `a * b` and, for the least 64-bit integer, the negations `-a` and `-b` overflow as signed operations in the source (caveat/arithmetic.h:102-107); they are modelled as wrapping around.
- Products.MulHSU: likewise `-a` of the least 64-bit integer (caveat/arithmetic.h:109-114) is modelled as wrapping around.
- RemStep.RemStepMBy32: the output may be one of the operands as a whole; arrays that overlap in part are not modelled.
- MulAddF64.MulAddF64: with `op` equal to `SubC` the code returns an infinite or otherwise untouched addend without negating it; the contract says what is returned there, and Operations.AddendReturned that it differs from the fused operation.
- Atomics.Linearizable: a load, a compare-and-swap and a store are each one step; weaker memory orders and accesses of different widths to the same bytes are not modelled.
- HartList.Find: the walk sees one state of the list; harts pushed while it runs are not modelled.
- Gotos and shared tails are restructured into methods of their own with the same branches.
- NaN payloads: every NaN result is the canonical NaN, as the RISC-V specialization has it.
- Square roots, `f16_div`, the table-driven reciprocals, the 32-bit halves of the two-way sources, `softfloat_mulAddF128`, conversions, comparisons and classification: not modelled, except for the classes the 7-bit estimates need.
- binary16, binary32 and binary64 addition and multiplication, and binary32 rounding to an integer: the binary128 and binary64 versions carry the same argument.
- ELF loading, system calls, GDB, the display, options and the flush of the cache by other means than running full: input and output, or host calls.
