# Verified models of the Algorithmic C datatypes

Algorithmic C provides integers, fixed-point and floating-point numbers of any width for hardware
design. All of them rest on arithmetic over arrays of 32-bit words, least significant first, with the
sign in the top word. This project models that arithmetic, the conversions and floating-point
algorithms built on it, and a reference-counted array used in simulation, and proves what each
computes. Widths, word counts and element counts, which are template parameters in C++, are
parameters here, so every theorem holds for all sizes.

| module | contents |
|---|---|
| `Powers`, `Words`, `AcTypes` | powers of two, floors and remainders; word arrays and their unsigned and signed values; widths and ranges |
| `LongDivision` | unsigned long division with 16-bit half-digits and a 48-bit divisor prefix |
| `Multiplication` | signed schoolbook multiplication with a split accumulator |
| `SignedDivision` | negation, magnitude, truncated division and remainder |
| `Bits` | constant shifts, bit tests and carries over word arrays |
| `TopWord` | the top word adjusted to a width |
| `SetSlice` | shifts by a variable amount, slice update and slice read |
| `DecimalText`, `RadixText` | decimal, binary, octal and hexadecimal text |
| `Rounding`, `FixedConversion` | quantization and overflow modes; the converting constructor of `ac_fixed` |
| `FloatFormat` | binary encodings, their exact values, rounding to the nearest |
| `FloatAddition`, `FloatAdder` | addition with guard, round and sticky bits |
| `FloatRoot`, `FloatSqrt` | digit-by-digit square root and the floating-point root built on it |
| `FloatDivision` | restoring division |
| `FloatOrder`, `FloatIntegral` | relational operators on encodings; `ceil`, `floor`, `trunc` and `round` |
| `AdderTree` | truncating adder trees |
| `FloatCompare` | comparison of unnormalized numbers |
| `CowArray`, `CowRuns` | the copy-on-write array and whole runs of operations on it |

Words are integers in [0, 2^32) with a signed reading. Where the source computes in 64-bit integers
that may wrap, the wrap is written out (`ToSlong`, `Low`); where a 64-bit value provably cannot wrap,
the plain integer is used. An `or` of two halves that do not overlap is written as their sum, and an
`and` with a run of low ones as a remainder; lemmas named in the code show that the halves are
disjoint. Floating-point fields and mantissas are integers reduced modulo the width of the variable
that holds them. Magnitudes are counted in units of the smallest subnormal, so they are integers.

## Findings

The following results differ from what the documentation or a reader would expect; the code is
modelled as it is, and the exact condition is proved.

- `ac_fixed` conversion: an unsigned source whose width equals the distance from its last bit to the
  top of the target's words loses the rounding carry, so a saturating target receives 0; a one-bit
  symmetric target does not clamp negative values to its range; and the minimum that a symmetric
  source should not hold passes untested into a symmetric target with the same integer bits
  (`ConversionIsExactIff`). Such sources exist: the one-bit case makes one, and assignments that only
  adjust the width, as `<<=` and `set_slc` do, make them at any width.
- `iv_rem` with a divisor of more words than the magnitude of the dividend copies words from behind
  the numerator into the remainder (`ac_int.h:741-742`). They are overwritten in every case, so the
  result is right whatever they hold (`UDiv`, `Rem`).
- Floating-point addition: for mantissa widths three below a power of two the alignment counter
  saturates one place early and one unit in the last place can be lost (`AddIsCorrectIff`). No
  standard format is affected.
- `operator==` of the copy-on-write array compares the fill values of two lazy arrays even when the
  range to compare is empty (`Equals`).
- `iv_shift_l` into a result longer than its operand drops words for shifts of 32 or more
  (`ShiftIsProductIff`) and fills in no sign words, so that a shift of a negative number by less than
  32 is not the signed product either (`ShiftIsSignedProductIff`).
- `fx_sqrt` reports a narrow root as exact when only bits it never looked at make it inexact
  (`NarrowRootFlag`).
- `iv_equal_zeros_to` of no bits is true for three or more words and tests the whole number for one or
  two (`EqualZerosTo`); no caller passes zero.
- `round` of `ac_std_float` turns every number below one half, zero included, into one in formats with
  two exponent bits (`RoundAway`).

## Model

| member | source | states |
|---|---|---|
| LongDivision.UDiv | ac_types-master/include/ac_int.h:727-826 | long division of unsigned numbers of any lengths, results longer than the dividend included: for every non-zero divisor the quotient and the remainder of the two numbers, each cut to the words it is stored in |
| LongDivision.BorrowRepair | ac_types-master/include/ac_int.h:780-794 | in the multiply-subtract loop the wrapped 64-bit difference, repaired by `ov1`, carries exactly the floor of the unbounded difference divided by 2^32, and the `ov2` case cannot occur |
| LongDivision.MultiplySubtract | ac_types-master/include/ac_int.h:780-794 | a whole multiply-subtract pass: the words written and the borrow left over are the old words minus the digit times the divisor |
| LongDivision.EstimateIsDigitOrOneMore | ac_types-master/include/ac_int.h:765-775 | a quotient estimated from a 48-bit divisor prefix and a 64-bit remainder prefix is the true half-digit or one more |
| LongDivision.EstimateDigit | ac_types-master/include/ac_int.h:765-775 | after the single correction the estimate fits 16 bits, so the assertion in the source holds, and it brackets the remainder within one divisor |
| LongDivision.SubtractDigit | ac_types-master/include/ac_int.h:777-812 | subtracting the estimate and adding the divisor back at most once leaves exactly the remainder of the true half-digit and touches no other word |
| LongDivision.QuotientDigit | ac_types-master/include/ac_int.h:765-812 | one half-digit of schoolbook division, for every position of dividend and divisor |
| Multiplication.Multiply | ac_types-master/include/ac_int.h:435-488 | the signed product of operands of any word counts modulo 2^(32 Nr), and the exact product when Nr is at least N1 + N2 |
| Multiplication.Accumulate | ac_types-master/include/ac_int.h:422-431 | the split accumulator pair keeps the exact column sum and neither half overflows while a column has room |
| Multiplication.ColumnsAreProduct | ac_types-master/include/ac_int.h:440-487 | the column sums weighted by their positions add up to the product of the two digit sequences |
| Multiplication.MiddleColumn | ac_types-master/include/ac_int.h:446-470 | one column in the middle of the product: products with the sign words are the signed ones, the carry pair is the running column sum |
| SignedDivision.Neg | ac_types-master/include/ac_int.h:693-705 | two's-complement negation into any number of words, exact when there is one more word |
| SignedDivision.Abs | ac_types-master/include/ac_int.h:717-725 | the magnitude of a number, read as unsigned and cut to the words of the result, exact whenever the result is as long as the operand |
| SignedDivision.Div | ac_types-master/include/ac_int.h:833-870 | truncated signed division through every dispatch path on operand sizes and signedness, the result sign-extended in its type |
| SignedDivision.Rem | ac_types-master/include/ac_int.h:872-908 | truncated signed remainder, with the sign of the dividend, for all operand widths |
| SignedDivision.TruncatedDivision | ac_types-master/include/ac_int.h:833-908 | quotient and remainder satisfy a = q b + r with |r| < |b| and r of the sign of a |
| SignedDivision.ResultTypes | ac_types-master/include/ac_int.h:2026-2034 | the quotient fits `rt::div` and the remainder fits `rt::mod` for all operand widths and signedness |
| Bits.ShiftRight | ac_types-master/include/ac_int.h:1152-1174 | shifting right by any constant divides the signed number and rounds down, sign-extended into any number of words |
| Bits.ShiftLeft | ac_types-master/include/ac_int.h:1114-1143 | shifting left by any constant multiplies, wrapped to the result words |
| Bits.FunnelFits | ac_types-master/include/ac_int.h:1152-1174 | the two halves joined by `or` in a shift do not overlap, so their sum is their union |
| Bits.EqualZerosTo | ac_types-master/include/ac_int.h:323-335 | true exactly when the number is a multiple of the power of two, except that for no bits of one or two words the source tests the whole number |
| Bits.EqualZerosFrom | ac_types-master/include/ac_int.h:299-306 | true exactly when nothing is set from a bit on: the quotient by its weight is zero, a place below the number counting as its lowest |
| Bits.EqualOnesFrom | ac_types-master/include/ac_int.h:286-293 | true exactly when every bit from a position on is set: the quotient by its weight is minus one, likewise |
| Bits.AddCarry | ac_types-master/include/ac_int.h:497-505 | adding a carry with the carry out of the top word |
| Words.AssignInt64 | ac_types-master/include/ac_int.h:382-388 | a 64-bit value assigned to any number of words, truncated or sign-extended |
| FixedConversion.AcFixed.Convert | ac_types-master/include/ac_fixed.h:336-385 | the converting constructor computes Converted: the value rounded by the quantization mode and fitted by the overflow mode, apart from the three cases below |
| FixedConversion.ConversionIsExactIff | ac_types-master/include/ac_fixed.h:336-385 | conversion is round-then-fit for all 8 quantization and 4 overflow modes exactly when no rounding carry leaves the target's words unexamined, no negative value is clamped into a one-bit symmetric type, and the source is not the minimum of a symmetric type passed to a symmetric type with the same integer bits and no fewer fraction bits |
| FixedConversion.ConvertedIsNearest | ac_types-master/include/ac_fixed.h:184-219 | outside the three families a saturating conversion stores the number of the range of the target, symmetric for AC_SAT_SYM, that is nearest to the rounded source |
| FixedConversion.ConvertedZeroes | ac_types-master/include/ac_fixed.h:190-195 | AC_SAT_ZERO stores zero for every rounded source outside the target and the rounded source otherwise |
| FixedConversion.ConvertedWraps | ac_types-master/include/ac_fixed.h:186-188 | AC_WRAP stores the low bits of the rounded source |
| FixedConversion.SaturationExamples | ac_types-master/include/ac_fixed.h:184-219 | -200, 200 and -5 converted to eight bits in each overflow mode |
| FixedConversion.LostCarryExample | ac_types-master/include/ac_fixed.h:354-374 | a 33-bit unsigned source rounds up past a 32-bit signed target and becomes 0 although the target saturates |
| FixedConversion.OneBitSymmetricExample | ac_types-master/include/ac_fixed.h:358-374 | minus one converted to a one-bit symmetric type stays minus one, where round-then-fit gives zero |
| FixedConversion.SymmetricMinimumExample | ac_types-master/include/ac_fixed.h:354-357 | minus one held in a one-bit symmetric type and converted to eight bits is stored as -128, where round-then-fit gives -127 |
| FixedConversion.SkipIsSafe | ac_types-master/include/ac_fixed.h:354-357 | whenever the source skips the overflow test the number fits its type, and it is outside the symmetric range exactly for the minimum of a symmetric source |
| FixedConversion.DeletedBits | ac_types-master/include/ac_fixed.h:358-364 | the deleted-bits tests on the top word and on the source decide whether the bits above the target are all zeros or all ones |
| FixedConversion.OverflowExact | ac_types-master/include/ac_fixed.h:369-371 | the overflow flag is set exactly for values outside the target type |
| FixedConversion.AcFixed.QuantizationAdjust | ac_types-master/include/ac_fixed.h:221-237 | the carry added for each quantization mode from the first dropped bit, the sticky flag, the sign and the parity |
| FixedConversion.AcFixed.OverflowAdjust | ac_types-master/include/ac_fixed.h:184-219 | each overflow mode writes its limit, zero, or the wrapped value |
| FixedConversion.AcFixed.BitAdjust | ac_types-master/include/ac_fixed.h:176-180 | the top word sign- or zero-extended to the type's width |
| TopWord.BitAdjusted | ac_types-master/include/ac_int.h:1977-1981 | shifting the top word up and back wraps a signed number, or reduces an unsigned one, to its width |
| FixedConversion.AcFixed.RoundWords | ac_types-master/include/ac_fixed.h:345-349 | first dropped bit and sticky flag give the correctly rounded number, with the carry out of its words |
| FixedConversion.AcFixed.TestOverflow | ac_types-master/include/ac_fixed.h:358-373 | the overflow decision on words, deleted bits and carry is exact |
| Rounding.RoundUpIsRounding | ac_types-master/include/ac_fixed.h:221-237 | one dropped bit and one sticky flag are enough to round correctly in every mode |
| Rounding.RoundedUnique | ac_types-master/include/ac_fixed.h:221-237 | each quantization mode determines its result |
| Rounding.RoundTies | ac_types-master/include/ac_fixed.h:221-237 | halfway AC_RND goes up, AC_RND_MIN_INF down, AC_RND_INF away from zero, AC_RND_ZERO towards it, AC_RND_CONV to the even and AC_RND_CONV_ODD to the odd number |
| Rounding.RoundNearest | ac_types-master/include/ac_fixed.h:221-237 | elsewhere all rounding modes take the nearest number |
| Rounding.RoundNegated | ac_types-master/include/ac_fixed.h:221-237 | rounding a negated number negates the result, with AC_RND and AC_RND_MIN_INF exchanged |
| Rounding.SaturationIsNearest | ac_types-master/include/ac_fixed.h:202-217 | saturation takes the nearest number of the type |
| Rounding.SymmetricIsNearest | ac_types-master/include/ac_fixed.h:203-206 | symmetric saturation takes the nearest number whose negation is in the type too |
| Rounding.ZeroedOrWrapped | ac_types-master/include/ac_fixed.h:186-195 | zeroing keeps what is in the type and nothing else; wrapping keeps the low bits |
| FloatFormat.RoundCodeIsNearest | ac_types-master/include/ac_std_float.h:983-994 | the code obtained by rounding the significand is the nearest of all encodings, the even one on a tie |
| FloatFormat.MagnitudeMonotone | ac_types-master/include/ac_std_float.h:860-872 | magnitudes increase strictly with exponent and mantissa fields read as one number |
| FloatAddition.JamBlock | ac_types-master/include/ac_std_float.h:951-957 | keeping one sticky bit of what alignment drops does not change the rounding two or more places further up |
| FloatAddition.JamSum | ac_types-master/include/ac_std_float.h:951-962 | jamming the smaller operand before an addition or subtraction is jamming the exact result |
| FloatAddition.AssembleIsRoundCode | ac_types-master/include/ac_std_float.h:964-994 | normalizing and rounding the aligned sum once is rounding the exact sum, with subnormals, cancellation and carry |
| FloatAdder.AlignSmaller | ac_types-master/include/ac_std_float.h:930-957 | the mask, the saturated shift and the sticky bit together jam the shifted mantissa |
| FloatAdder.NormalizeRound | ac_types-master/include/ac_std_float.h:964-994 | leading zeros out, rounding at four bits, renormalization and the infinity flag yield the assembled code |
| FloatAdder.AddMantissas | ac_types-master/include/ac_std_float.h:900-962 | operand selection, alignment, and subtraction by complement and carry-in, with the sign of the result |
| FloatAdder.AddGeneric | ac_types-master/include/ac_std_float.h:889-1017 | NaN and infinity rules, and for finite operands the exact sum rounded to nearest even, overflow to infinity, the sign of zero, less one unit in the cases of Lost; a NaN has the top mantissa bit and no other |
| FloatAdder.AddIsCorrectIff | ac_types-master/include/ac_std_float.h:930-962 | the sum is correctly rounded exactly when no sticky bit is lost: only when the distance counter saturates at mb + 2 and a far smaller mantissa above one half unit is taken from a power of two |
| FloatAdder.EarlySaturation | ac_types-master/include/ac_std_float.h:930-933 | the distance counter saturates that early exactly for mantissa widths three below a power of two |
| FloatAdder.StandardFormatsNeverLose | ac_types-master/include/ac_std_float.h:930-933 | binary16, binary32, binary64, binary128, binary256 and bfloat16 are never affected |
| FloatAdder.LostExample | ac_types-master/include/ac_std_float.h:930-962 | five mantissa bits and exponents eight apart: the exact difference rounds to code 640 and the sum has code 639 |
| FloatAdder.AddCommutes | ac_types-master/include/ac_std_float.h:889-1017 | addition commutes bit for bit wherever the sum is a number |
| FloatAdder.SumIsNearest | ac_types-master/include/ac_std_float.h:889-1017 | a finite sum is at least as close to the exact sum as any other finite number, with an even mantissa on a tie |
| FloatAdder.SpecialSums | ac_types-master/include/ac_std_float.h:1000-1008 | NaN spreads, infinities of opposite signs give NaN, and otherwise an infinity stays with its sign |
| FloatAdder.ZeroSums | ac_types-master/include/ac_std_float.h:900-962 | an exact zero is positive unless both operands are negative, and every other sum has the sign of the exact one |
| FloatAdder.OverflowThreshold | ac_types-master/include/ac_std_float.h:983-1003 | a sum becomes infinite exactly from half a unit beyond the largest finite number on |
| FloatRoot.FxSqrt | ac_types-master/include/ac_std_float.h:218-244 | the digit-by-digit root r of the scaled input X: r^2 <= X < (r+1)^2, the flag set exactly when r^2 differs from X, for all widths; it tells whether the root of the whole input is exact exactly when RestIsMissed is false |
| FloatRoot.WidthsSuffice | ac_types-master/include/ac_std_float.h:230-237 | the masked remainder of WR + 2 bits loses nothing and its bit WR + 1 is the sign of the trial difference |
| FloatRoot.RootDigit | ac_types-master/include/ac_std_float.h:229-239 | one digit pair: the trial difference decides the next digit and keeps the root bracket |
| FloatRoot.ScalingIsExact | ac_types-master/include/ac_std_float.h:219-228 | a root of at least half the input's width sees every input bit |
| FloatRoot.NarrowRootFlag | ac_types-master/include/ac_std_float.h:241-241 | the flag misses a remainder exactly when the root has fewer than half the bits of the input, the leading bits are a square, and a bit below them is set |
| FloatRoot.RootOfSquare | ac_types-master/include/ac_std_float.h:241-241 | the root leaves no remainder exactly when the number is a square |
| FloatRoot.NarrowRootExample | ac_types-master/include/ac_std_float.h:218-244 | a one-bit root of 5/4 is called exact |
| FloatSqrt.SqrtGeneric | ac_types-master/include/ac_std_float.h:1379-1441 | NaN, infinity and zero rules, and for every other operand the encoding nearest to the exact real square root, in every format, subnormals included; a NaN has the top mantissa bit and no other |
| FloatSqrt.RootRange | ac_types-master/include/ac_std_float.h:1397-1421 | the root never exceeds 2^(mu_bits+1) - 2, so rounding cannot overflow, and an odd root is never exact, so no tie occurs |
| FloatSqrt.RootRounds | ac_types-master/include/ac_std_float.h:1399-1421 | integer root plus sticky flag, shifted into the subnormal range if need be and rounded once, is the nearest code |
| FloatSqrt.NearestRootBeatsAll | ac_types-master/include/ac_std_float.h:1379-1441 | a nearest code is strictly nearer to the real root than every other code |
| FloatSqrt.NearestRootUnique | ac_types-master/include/ac_std_float.h:1379-1441 | there is only one nearest code |
| FloatSqrt.ExactSquares | ac_types-master/include/ac_std_float.h:1379-1441 | a number whose root is a number has exactly that root |
| FloatSqrt.SpecialRoots | ac_types-master/include/ac_std_float.h:1425-1435 | zeros and the positive infinity are their own roots; NaN and negative numbers give NaN |
| FloatDivision.FxDiv | ac_types-master/include/ac_std_float.h:183-211 | the restoring divider returns the quotient and exactness flag of the simulation model whenever op1 < 2 op2, and for a non-zero divisor the true quotient exactly then |
| FloatDivision.RestoringStep | ac_types-master/include/ac_std_float.h:188-197 | the partial remainder stays below twice the divisor, so bit W of the trial difference is its sign |
| FloatDivision.TooWide | ac_types-master/include/ac_std_float.h:183-200 | otherwise the true quotient needs more than W + 2 bits |
| FloatOrder.OperatorsCompareValues | ac_types-master/include/ac_std_float.h:1478-1508 | the five relational operators on encodings decide the order of the exact values, both zeros equal, and are false for NaN |
| FloatOrder.MagnitudeOrder | ac_types-master/include/ac_std_float.h:1484-1486 | exponent and mantissa fields compared as one unsigned number compare magnitudes, and only the zero fields have magnitude zero |
| FloatOrder.ExtendedIsValue | ac_types-master/include/ac_std_float.h:1478-1508 | the compared values are those of the finite numbers, with the infinities beyond them |
| FloatIntegral.Ceil | ac_types-master/include/ac_std_float.h:1534-1563 | the least integer not below x, in every format, carries into the exponent included, and infinity exactly where that integer is beyond the largest finite number; NaN and infinities unchanged, a zero result from a non-zero operand positive |
| FloatIntegral.Floor | ac_types-master/include/ac_std_float.h:1564-1593 | the greatest integer not above x, or minus infinity where it is too large, likewise |
| FloatIntegral.Trunc | ac_types-master/include/ac_std_float.h:1594-1612 | the integer part of x |
| FloatIntegral.RoundAway | ac_types-master/include/ac_std_float.h:1613-1636 | the nearest integer to x, halves away from zero, or infinity where it is too large, exactly unless the format has two exponent bits and x is below one half; such an x becomes one |
| FloatIntegral.CutFraction | ac_types-master/include/ac_std_float.h:1540-1561 | masking the fraction rounds the magnitude down; filling it, adding one and masking rounds it up, across the carry into the exponent |
| FloatIntegral.RoundField | ac_types-master/include/ac_std_float.h:1618-1634 | filling the places below one half, adding one and masking rounds the magnitude to the nearest integer |
| FloatIntegral.RaisedField | ac_types-master/include/ac_std_float.h:1547-1559 | filling the fraction with ones, adding one unless it was zero, and masking adds exactly one integer unit, the carry going into the exponent field |
| FloatIntegral.SignedRounding | ac_types-master/include/ac_std_float.h:1534-1636 | rounding magnitudes by sign is floor, ceiling, truncation and rounding to nearest of the signed numbers, as the quantization modes define them |
| FloatIntegral.IntegersAround | ac_types-master/include/ac_std_float.h:1534-1636 | in numbers: multiples of one, the least not below x, the greatest not above it, the one next to it towards zero, and the nearest, away from zero halfway |
| AdderTree.TreeErrorBound | ac_math-master/include/ac_float_add_tree.h:84-152 | for every element count: no node overflows with log2_ceil(N) growth bits, and the exact sum minus the result is between 0 and N - 1 units less one each at the largest exponent of a non-zero element, and as many such units as non-zero elements lie below it, so that elements at one exponent add exactly |
| AdderTree.ExactMeans | ac_math-master/include/ac_float_add_tree.h:84-152 | the exact sum is the mantissas at the weights of their exponents, added up |
| AdderTree.ZeroTree | ac_math-master/include/ac_float_add_tree.h:84-152 | a tree of zeros is zero whatever their exponents |
| AdderTree.NodeNeverWraps | ac_math-master/include/ac_float_add_tree.h:84-104 | one bit of headroom is enough at every node |
| AdderTree.NodeLoss | ac_math-master/include/ac_float_add_tree.h:84-104 | truncating the operand with the smaller exponent loses less than one unit at the larger, and zero operands with large exponents are harmless |
| AdderTree.NodeExponent | ac_math-master/include/ac_float_add_tree.h:84-104 | the exponent of a non-zero sum is that of a non-zero operand, and the larger of two |
| AdderTree.HalfGrowth | ac_math-master/include/ac_float_add_tree.h:117-126 | each half of a split needs one growth bit less |
| AdderTree.ZeroHandleExpIs | ac_math-master/include/ac_float_add_tree.h:40-54 | a zero mantissa takes the smallest exponent, any other keeps its own |
| AdderTree.MaxRIsLargest | ac_math-master/include/ac_float_add_tree.h:252-268 | the recursive maximum is an element and bounds all of them |
| AdderTree.ExpEqualizer | ac_math-master/include/ac_float_add_tree.h:277-298 | the common exponent bounds every non-zero element; aligning loses less than one unit of it per element, nothing of a zero or of an element at that exponent |
| AdderTree.BlockAddTreeCore | ac_math-master/include/ac_float_add_tree.h:307-335 | the block form never overflows and falls short of the exact sum by less than one unit at the returned exponent for all elements but one, and only for non-zero elements below it |
| FloatCompare.Compare | ac_types-master/include/ac_float.h:501-521 | decides the exact order of two numbers of any formats, normalized or not, at any exponent distance |
| FloatCompare.TotalPreorder | ac_types-master/include/ac_float.h:746-774 | the relational operators form a total preorder consistent with value |
| FloatCompare.OrderByValue | ac_types-master/include/ac_float.h:746-774 | less, equal and greater are the comparisons of the mantissas at their exponents in any common unit |
| FloatCompare.LeftDecides | ac_types-master/include/ac_float.h:511-520 | for a negative distance the dropped bits and the sign change detect overflow of the left shift exactly |
| FloatCompare.RightShift | ac_types-master/include/ac_float.h:511-520 | for a non-negative distance the floor of the shifted mantissa and the dropped bits decide the order |
| CowArray.CountsHandles | ac_simutils-master/include/mc_container_types.h:181-185 | in every valid state each count is the number of handles to its block, and a block is live exactly while there is one |
| CowArray.Relinked | ac_simutils-master/include/mc_container_types.h:277-293 | moving one handle between blocks keeps every count right |
| CowArray.Rehoused | ac_simutils-master/include/mc_container_types.h:471-482 | moving one handle to a new block keeps every count right |
| CowArray.Recount | ac_simutils-master/include/mc_container_types.h:277-280 | counting when a handle goes from one block to another, possibly the same: the new block first, and the old one deleted with its last handle |
| CowArray.Handle.Settle | ac_simutils-master/include/mc_container_types.h:471-482 | a handle leaves a block that others still use and has a new block to itself |
| CowArray.Handle.Copy | ac_simutils-master/include/mc_container_types.h:214-216 | copy construction: same elements and bounds, no other array changes |
| CowArray.Handle.FromArray | ac_simutils-master/include/mc_container_types.h:221-227 | construction from elements |
| CowArray.Handle.Filled | ac_simutils-master/include/mc_container_types.h:211-219 | lazy construction: all elements equal to the fill value |
| CowArray.Handle.Destroy | ac_simutils-master/include/mc_container_types.h:235-235 | destruction releases the block with its last handle and changes no other array |
| CowArray.Handle.Assign | ac_simutils-master/include/mc_container_types.h:277-285 | assignment from another array, itself included |
| CowArray.Handle.AssignAll | ac_simutils-master/include/mc_container_types.h:287-293 | assignment of one value to all elements |
| CowArray.Handle.AssignArray | ac_simutils-master/include/mc_container_types.h:398-413 | assignment from elements, in place only when no other handle sees the block |
| CowArray.Handle.Mask | ac_simutils-master/include/mc_container_types.h:295-309 | masking every element of this array and of no other |
| CowArray.Handle.Own | ac_simutils-master/include/mc_container_types.h:471-482 | what element access does before a write: a private block with the same elements |
| CowArray.Handle.Write | ac_simutils-master/include/mc_container_types.h:471-485 | an element write changes this array at one index and no other array |
| CowArray.Handle.Read | ac_simutils-master/include/mc_container_types.h:333-339 | reading an element |
| CowArray.Handle.SetLower | ac_simutils-master/include/mc_container_types.h:237-237 | setting a bound changes that bound and nothing else |
| CowArray.Handle.SetUpper | ac_simutils-master/include/mc_container_types.h:238-238 | likewise |
| CowArray.Handle.CopyTo | ac_simutils-master/include/mc_container_types.h:448-456 | copying out all elements |
| CowArray.Equals | ac_simutils-master/include/mc_container_types.h:368-396 | equality of all elements with no bounds, and of those between the bounds otherwise, lazy or not; two lazy arrays with an empty range compare their fill values |
| CowArray.EmptyRangeExample | ac_simutils-master/include/mc_container_types.h:368-396 | two lazy arrays with different fill values and an empty range compare unequal |
| CowRuns.Step | ac_simutils-master/include/mc_container_types.h:133-485 | every operation on shared handles, setting bounds included, does to elements, bounds and laziness what it does to independent arrays, and reads and comparisons answer what those would |
| CowRuns.Run | ac_simutils-master/include/mc_container_types.h:133-485 | any sequence of operations from nothing leaves every count right and every array with the elements and bounds it would have if nothing were shared, and every read and comparison on the way answered what it would then have answered |
| DecimalText.FractionDigits | ac_types-master/include/ac_int.h:1232-1251 | the digits of a fraction, character code by code: they end after at most one digit per bit of the fraction, sum to it exactly, and have no trailing zero |
| DecimalText.AlignFraction | ac_types-master/include/ac_int.h:1232-1239 | moves the fraction bits to the top of the words, dropping what lies above them |
| DecimalText.FractionStep | ac_types-master/include/ac_int.h:1241-1250 | each digit leaves one more low bit zero and loses nothing |
| DecimalText.TenTimes | ac_types-master/include/ac_int.h:1242-1249 | the words multiplied by ten in place, the digit carried out, and the low end moved past zero words |
| DecimalText.IntegerDigits | ac_types-master/include/ac_int.h:1252-1279 | the digits of an integer: character code by code (v / 10^k) % 10, no leading zero, and none at all exactly for zero |
| DecimalText.DivideByBillion | ac_types-master/include/ac_int.h:1256-1264 | one pass divides the number in place by 10^9 with every partial quotient in one word |
| DecimalText.TopMovesDown | ac_types-master/include/ac_int.h:1265-1266 | after a division at most the top word becomes zero |
| DecimalText.EmitDigits | ac_types-master/include/ac_int.h:1267-1272 | nine digits of a remainder, or only the significant ones of the last |
| DecimalText.DigitAt | ac_types-master/include/ac_int.h:1267-1278 | digit k from the right of the text of n has the code of (n / 10^k) % 10 |
| SetSlice.ShiftL | ac_types-master/include/ac_int.h:1015-1029 | shift left by any amount into any number of words, for the operand words that the loop looks at |
| SetSlice.ShiftIsProductIff | ac_types-master/include/ac_int.h:1015-1029 | the result is the unsigned product cut to its words exactly when the result is no longer than the operand, everything is shifted out, or the operand words that the loop never looks at are clear below the top of the result |
| SetSlice.ShiftIsSignedProductIff | ac_types-master/include/ac_int.h:1015-1029 | the result is the signed product wrapped to its words exactly under that condition and, for a longer result and a shift below 32, a number that is not negative, because no sign words are filled in |
| SetSlice.LowClearIs | ac_types-master/include/ac_int.h:1018-1021 | words clear below a place, word by word, are a number divisible by that power of two |
| SetSlice.ShiftIsProduct | ac_types-master/include/ac_int.h:1015-1029 | so the unsigned product is right whenever the result is no longer than the operand or the shift is below 32, and the signed one for every number in the first case and for non-negative ones in the second |
| SetSlice.LongShiftExample | ac_types-master/include/ac_int.h:1015-1029 | one shifted by 32 into two words gives zero |
| SetSlice.NegativeShiftExample | ac_types-master/include/ac_int.h:1015-1029 | minus one shifted by one place into two words gives 2^33 - 2 |
| SetSlice.ShiftR | ac_types-master/include/ac_int.h:1046-1062 | shift right by any amount divides the signed number and rounds down, sign-extended into any number of words |
| SetSlice.SetSlc | ac_types-master/include/ac_int.h:1567-1593 | exactly the bits [lsb, lsb + WS) are replaced, for all alignments and word spans |
| SetSlice.Slc | ac_types-master/include/ac_int.h:2508-2513 | a slice read is the shifted number cut to the width of the slice, signed or unsigned; inside the words it is the slice of the bits |
| SetSlice.WriteThenRead | ac_types-master/include/ac_int.h:1567-1593 | a slice read after the same slice was written returns the low ws bits that were written, signed or unsigned |
| SetSlice.ReadBack | ac_types-master/include/ac_int.h:1567-1593 | the bits of the slice of a replaced number are those written |
| SetSlice.DisjointSlice | ac_types-master/include/ac_int.h:1567-1593 | a slice that does not overlap is untouched |
| SetSlice.RewriteSlice | ac_types-master/include/ac_int.h:1567-1593 | writing what is there changes nothing, and the last of two writes wins |
| RadixText.RawDigits | ac_types-master/include/ac_int.h:1206-1224 | the digits of a power-of-two radix hold the number cut to their width, octal digits across word boundaries included |
| RadixText.ToStr | ac_types-master/include/ac_int.h:1206-1228 | binary text has w characters 0 and 1, octal (w + 2) / 3 and hexadecimal (w + 3) / 4 characters of their radix, and the sum in powers of 2, 8 or 16 is the number |
| RadixText.StraddlingDigit | ac_types-master/include/ac_int.h:1217-1218 | a digit that straddles two words is completed from the next word |
| RadixText.TextIsValue | ac_types-master/include/ac_int.h:1206-1228 | the positional value of the text is the number, for every unsigned number of w bits |
| RadixText.BitFillHex | ac_types-master/include/ac_int.h:2707-2729 | the reader takes the hexadecimal prefix, four bits a digit in either case of letters, cut to W bits |
| RadixText.HexCharacters | ac_types-master/include/ac_int.h:2714-2724 | the values of all hexadecimal digits, letters in either case, and no other characters |
| RadixText.CaseDoesNotMatter | ac_types-master/include/ac_int.h:2714-2724 | a text reads the same with its letters in the other case |
| RadixText.HexRoundTrip | ac_types-master/include/ac_int.h:2707-2729 | reading the hexadecimal text of a number gives the number back |
| RadixText.PrintAndRead | ac_types-master/include/ac_int.h:2707-2729 | printing in hexadecimal and reading back, for every unsigned number of w bits |

## Left out

- SetSlice.ShiftL: states the result for the operand words that the loop looks at; the words it
  drops for a longer result are described by ShiftIsProductIff instead.
- FixedConversion.AcFixed.Convert: leaves out the conversions whose tests reach for words outside the
  operand: a rounding mode that drops more than one bit beyond the words of a non-negative source, and
  overflow handling after scaling up by more than 32 bits beyond the target's words.
- Multiplication.Multiply: bounds the word counts by 2^26, where the 64-bit column accumulators are
  shown not to overflow.
- CowArray.Handle.Write: element references that outlive the access are not modelled; a write passes
  its value in, and assignment of a reference into the same array is a write of its value.
- AdderTree.AddR: the accumulator has exactly log2_ceil(N) integer bits more than the elements and a
  non-negative number of extra fraction bits; wider accumulators and the final conversion of the
  accumulator to `ac_fixed` or `ac_float` are not modelled.
- FloatAdder.AddGeneric: rounding to nearest even with subnormals; the truncating and
  flush-to-zero variants are not modelled.
- FloatSqrt.SqrtGeneric: rounding to nearest even with subnormals, as for addition.
- RadixText.BitFillHex: the assertion on a character that is no digit is modelled as the `break`
  that follows it.
- Specializations of the word kernels for one and two words, where they compute the same as the
  general template, are modelled only where a dispatch in the source names them.
- The addresses formed for a sign extension of zero or fewer words are not modelled.
- Word kernels not listed: addition and subtraction with carry, comparison, bit-wise logic, leading
  bits.
- Floating-point multiplication, fused multiply-add and conversions between formats.
- Signed and padded text (`to_string`), left-justified binary text, and conversions from and to
  `double` and `float`, which use host floating point.
- `ac_complex`, `ac_matrix`, `ac_array`, `ac_reg`, `ac_channel`, the SystemC interfaces and the
  look-up-table generators.
- Assertions and overflow reporting, type names and stream output.
