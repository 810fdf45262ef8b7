# Cassian reference arithmetic, verified

Cassian checks OpenCL and Level Zero implementations against values it computes itself.
This project models that reference arithmetic in Dafny and proves what the rest of the
suite relies on: the reduced-precision float formats, the ULP distance that judges
results, the bit-field operations, the local work size search, and the data
rearrangement helpers.

`dafny verify dfyconfig.toml` checks everything.

## How things are represented

- A machine word is a natural below its word size. `<<`, `>>`, `&`, `|`, `^`, `~` are
  defined bit by bit in `Bits`, and the modelled bodies use them with the masks and
  shift amounts of the source. Casts that could cut off bits are checked by the types
  `U16` and `U32`; where a word does wrap (`from_data += -1`, a `size_t` product, a
  shifted `uint32_t`), the wrap is written out.
- A float is its binary32 pattern. Values are integers in units of 2^-149 (`Mag`,
  `Float32.Value`), so every finite float is exact and no reals are needed. Infinity
  is given the value 2^128. The result of `fegetround` is the argument `mode`.
- `BinaryFormat.IsNearestEven` is the independent definition of roundTiesToEven
  (IEEE 754-2019, section 4.3.1): a closest representable value, the even one of two.
  `HalfRounding.IsCorrectlyRounded` adds the directed modes (section 4.3.2).
- `Half`, `Bfloat16` and `Tfloat` objects are copied and never shared, so they are
  values here; their constructors and `nextafter` are methods with the source's steps.
  `CommandLineParser` is a class. Loops are loops.
- Each method is proved equal to a closed form (`HalfBits`, `NarrowBits`, `WithField`,
  `Packed`, `Wanted`, ...); the theorems are about the closed forms.
- The subtraction in calculate_ulp_distance rounds like the float it is, in the current
  direction (`Float32.Rounded`), and exp2 and scalbn overflow as IEEE 754-2019 section
  7.4 says for that direction.
- `Numbers.Number` is a value of any of the three formats, the result type of the
  comparator templates.

## Model

| member | source | states |
|---|---|---|
| HalfFormat.Half.FromFloat | src/core/fp_types/src/half.cpp:17-108 | the masks, shifts, guard and sticky bits and carries of the constructor compute one closed form, in every mode and on every one of the 2^32 patterns, without overflow of a 16-bit field |
| HalfRounding.NearestIsCorrect | src/core/fp_types/src/half.cpp:17-108 | in nearest mode the result is the roundTiesToEven half of every non-NaN float, subnormal and overflowing ones included, with the sign kept |
| HalfRounding.NearestThresholds | src/core/fp_types/src/half.cpp:53-104 | the result is zero exactly up to 2^-25 and infinity exactly from 65520 on |
| HalfRounding.CorrectIffModeHonoured | src/core/fp_types/src/half.cpp:53-104 | for all four modes and all non-NaN floats, the result is the correctly rounded one if and only if `HonoursMode` holds: always in the normal range, below it when the discarded bits make nearest and the mode agree, above it when the mode points away from zero or the operand is infinite |
| HalfRounding.ModeIgnoredOutsideNormalRange | src/core/fp_types/src/half.cpp:59-78 | two operands on which the subnormal and the overflow branch ignore the mode |
| HalfRounding.ModeHasNoInfluence | src/core/fp_types/src/half.cpp:59-104 | outside the normal range every mode gives the result of nearest mode |
| HalfRounding.ConvertMonotone | src/core/fp_types/src/half.cpp:53-107 | conversion is monotone over all non-NaN floats in each mode, across the three branches and both signs |
| HalfRounding.NegationMirrors | src/core/fp_types/src/half.cpp:88-100 | negating the operand and swapping upward with downward negates the result |
| HalfFormat.Half.ToFloat | src/core/fp_types/src/half.cpp:178-211 | the bit assembly and the float multiplication of the conversion give the pattern `WideMagnitude` with the sign carried over |
| HalfFormat.WideValue | src/core/fp_types/src/half.cpp:178-211 | widening keeps the value of every finite half, subnormals included |
| Float32.ProductIsExact | src/core/fp_types/src/half.cpp:205-208 | where the product of a power of two and a float is a normal number again, adding the exponent fields gives it exactly, hence the result of a correctly rounded multiplication |
| HalfFormat.SubnormalProductIsExact | src/core/fp_types/src/half.cpp:205-208 | at the very factors of the subnormal branch, 2^-24 and the fraction as a float, that product is exact |
| HalfRounding.RoundTrip | src/core/fp_types/src/half.cpp:178-211 | narrowing after widening gives back the same bits for every non-NaN half in every mode |
| HalfRounding.NaNRoundTrip | src/core/fp_types/src/half.cpp:47-52 | a NaN comes back with its quiet bit set and all other bits kept |
| HalfRounding.NaNConverted | src/core/fp_types/src/half.cpp:47-52 | every NaN becomes a NaN of its sign with the quiet bit set and the nine fraction bits below it taken from the operand |
| HalfRounding.NaNWidened | src/core/fp_types/src/half.cpp:178-211 | a widened NaN is a NaN of its sign with the fraction extended by zeros |
| HalfStochastic.FromFloat | src/core/fp_types/src/half.cpp:110-176 | the stochastic constructor computes `StochasticBits` on all inputs, its manual carry included |
| HalfStochastic.AwayCount | src/core/fp_types/src/half.cpp:159-175 | for 2^-14 <= abs(v) < 2^16 exactly as many of the 2^13 random values round away from zero as the low 13 bits say |
| HalfStochastic.Unbiased | src/core/fp_types/src/half.cpp:159-175 | for 2^-14 <= abs(v) <= 65504 the decoded results of all random values add up to 2^13 times v |
| HalfStochastic.RoundsAwayIff | src/core/fp_types/src/half.cpp:159-175 | on that range and beyond it to 2^16, a random value rounds away from zero exactly when its low 13 bits and those of the operand add up to 2^13 or more |
| HalfStochastic.UnbiasedIff | src/core/fp_types/src/half.cpp:136-175 | over all non-NaN floats the sum is 2^13 times v if and only if v is a zero, an infinity or in that range |
| HalfStochastic.ExtremesAreDirected | src/core/fp_types/src/half.cpp:159-175 | for 2^-14 <= abs(v) < 2^16, random bits all zero truncate and all ones round away from zero, into infinity where the directed mode does |
| HalfStochastic.SubnormalOperandCorrectIff | src/core/fp_types/src/half.cpp:151-158 | a float subnormal gets the nearest half (a zero) exactly up to fraction 0x1000; beyond it the constructor returns a half that is far too large |
| HalfStochastic.SubnormalOperandIs | src/core/fp_types/src/half.cpp:151-158 | what a float subnormal becomes: its fraction rounded to ten bits, to nearest even, capped at ten ones |
| HalfStochastic.UnderflowCorrectIff | src/core/fp_types/src/half.cpp:136-140 | a float from 2^-126 up to 2^-14 becomes a zero of its sign for every random value, which is the nearest half exactly up to 2^-25 |
| HalfStochastic.SubnormalHalfLost | src/core/fp_types/src/half.cpp:136-140 | 2^-15, itself a half, becomes zero |
| HalfStochastic.OverflowIsInfinite | src/core/fp_types/src/half.cpp:141-145 | from 2^16 up every random value gives an infinity of the sign of the operand |
| HalfStochastic.NaNKeptIff | src/core/fp_types/src/half.cpp:148-175 | a NaN stays a NaN exactly when fraction plus random bits neither carry into the exponent nor vanish in the shift; the pattern it becomes in each case |
| HalfStochastic.NaNLost | src/core/fp_types/src/half.cpp:148-175 | a NaN that becomes a negative zero and one that becomes an infinity |
| Bfloat16Format.Bfloat16.FromFloat | src/core/fp_types/src/bfloat16.cpp:16-46 | the shift, increment and `or` of the constructor compute one closed form |
| Bfloat16Format.NearestIsCorrect | src/core/fp_types/src/bfloat16.cpp:31-38 | the result is the roundTiesToEven bfloat16 of every non-NaN float, with the sign kept |
| Bfloat16Format.NaNKept | src/core/fp_types/src/bfloat16.cpp:29-43 | a result is a NaN if and only if the operand is; a NaN that does not fit gets all fraction bits |
| Bfloat16Format.RoundTrip | src/core/fp_types/src/bfloat16.cpp:48-55 | narrowing undoes widening bit by bit on all 2^16 patterns |
| Bfloat16Format.Monotone | src/core/fp_types/src/bfloat16.cpp:16-46 | conversion is monotone |
| TfloatFormat.Tfloat.FromFloat | src/core/fp_types/src/tfloat.cpp:16-43 | the masks and the addition of the constructor compute one closed form |
| TfloatFormat.NearestIsCorrect | src/core/fp_types/src/tfloat.cpp:27-36 | the result has 13 low zero bits and is the roundTiesToEven tf32 number of every non-NaN float |
| TfloatFormat.Idempotent | src/core/fp_types/src/tfloat.cpp:16-49 | every result ends in 13 zero bits, such patterns (NaNs too) are left alone, converting twice is converting once |
| TfloatFormat.NaNKept | src/core/fp_types/src/tfloat.cpp:25-41 | a result is a NaN if and only if the operand is, and the sign is kept; a NaN that does not fit gets all fraction bits |
| TfloatFormat.TfloatThenHalf | src/core/fp_types/src/tfloat.cpp:16-43 | from 2^-14 up, going through tf32 does not change the half result in nearest mode |
| DoubleRounding.DetourHarmlessIff | src/core/fp_types/src/half.cpp:59-78 | over all non-NaN floats, going through tf32 changes the half result exactly when the bits half drops lie within 2^12 (2^12 - 1 where half drops 14 bits) above the midpoint over an even half or below the one over an odd half |
| DoubleRounding.DetourBelowNormalRange | src/core/fp_types/src/half.cpp:59-78 | the float after 2^-25 becomes the smallest half directly and zero by way of tf32 |
| HalfNextAfter.ComparisonsAreRankOrder | src/core/fp_types/src/half.cpp:213-231 | on non-NaN halves the operators are the order of signed-magnitude ranks, both zeros being equal |
| HalfNextAfter.LessOrEqualIff | src/core/fp_types/src/half.cpp:229-231 | `<=` means less or equal exactly when no operand is a NaN; with one, both negated operators are true |
| HalfNextAfter.NanSensitiveEqualIs | src/core/fp_types/src/half.cpp:233-244 | nan_sensitive_eq identifies all NaNs and otherwise is equality that tells the zeros apart |
| HalfNextAfter.ClassifyByValue | src/core/fp_types/src/half.cpp:288-304 | the classes are those of the float value: NaN, infinite, zero, and subnormal for values below 2^-14 |
| HalfNextAfter.NextAfter | src/core/fp_types/src/half.cpp:380-403 | nextafter computes `NextPattern`, a NaN for a NaN operand |
| Neighbours.NextIs | src/core/fp_types/src/half.cpp:384-402 | the pattern a step leads to: the target for equal operands, the smallest number of either sign from a zero, otherwise the next or previous pattern of the same sign, zero included |
| HalfNextAfter.NextIsAdjacent | src/core/fp_types/src/half.cpp:380-403 | a step moves strictly toward the target, not past it, with no half strictly in between, through zero, binade edges and infinity |
| HalfNextAfter.WalkArrives | src/core/fp_types/src/half.cpp:380-403 | walking from one half to another reaches a value equal to it after as many steps as their ranks differ, and not earlier |
| Bfloat16NextAfter.ComparisonsAreRankOrder | src/core/fp_types/src/bfloat16.cpp:57-77 | on non-NaN operands the bfloat16 operators are the order of signed-magnitude ranks |
| Bfloat16NextAfter.LessOrEqualIff | src/core/fp_types/src/bfloat16.cpp:73-77 | `<=` means less or equal exactly when no operand is a NaN; with one, both negated operators are true |
| Bfloat16NextAfter.NextAfter | src/core/fp_types/src/bfloat16.cpp:168-192 | the same pattern arithmetic for bfloat16 |
| Bfloat16NextAfter.NextIsAdjacent | src/core/fp_types/src/bfloat16.cpp:168-192 | a step moves strictly toward the target, not past it, to a bfloat16 that is not a NaN, with none strictly in between |
| Bfloat16NextAfter.WalkArrives | src/core/fp_types/src/bfloat16.cpp:168-192 | the same count of steps for bfloat16 |
| TfloatNextAfter.ComparisonsAreRankOrder | src/core/fp_types/src/tfloat.cpp:51-69 | on tf32 patterns that are not NaN the operators are the order of signed-magnitude ranks |
| TfloatNextAfter.LessOrEqualIff | src/core/fp_types/src/tfloat.cpp:65-69 | the same for tf32 |
| TfloatNextAfter.NextAfter | src/core/fp_types/src/tfloat.cpp:161-187 | the same pattern arithmetic in steps of 0x2000, keeping the low 13 bits zero |
| TfloatNextAfter.NextIsAdjacent | src/core/fp_types/src/tfloat.cpp:161-187 | the same for tf32 numbers: no pattern with 13 low zero bits lies strictly in between |
| TfloatNextAfter.WalkArrives | src/core/fp_types/src/tfloat.cpp:161-187 | the same count of steps for tf32 |
| UlpDistance.CalculateUlpDistance | src/core/utility/include/cassian/utility/comparators.hpp:129-153 | frexp, the clamped exponent, the distance to 2^max_exponent for infinite results, the rounding of the float subtraction in any direction and the overflow of exp2 and scalbn compute `Distance`, for finite, infinite and NaN arguments |
| UlpDistance.Exp2Values | src/core/utility/include/cassian/utility/comparators.hpp:145-149 | exp2 gives 2^16 for half; for bfloat16 and tf32 it overflows, to infinity or, rounding down or toward zero, to the largest float |
| Matching.UlpsValue | src/core/utility/include/cassian/utility/comparators.hpp:129-153 | the distance of every number of the three formats from every finite reference: the error, rounded to a float, divided by the unit, or what overflow makes of it |
| Matching.UlpsOfSpecials | src/core/utility/include/cassian/utility/comparators.hpp:129-153 | the distance for NaNs and infinities |
| Matching.UlpsExact | src/core/utility/include/cassian/utility/comparators.hpp:129-153 | when the error is a float and scalbn does not overflow, the distance is exactly the error divided by the unit |
| Matching.NearIsExact | src/core/utility/include/cassian/utility/comparators.hpp:143-144 | the error is a float for every result within a factor of two of the reference |
| Matching.UlpsWithin | src/core/utility/include/cassian/utility/comparators.hpp:129-153 | otherwise the distance is off by a factor within 1 - 2^-23 and 1 + 2^-23 |
| Float32.RoundedIsCorrect | src/core/utility/include/cassian/utility/comparators.hpp:143-149 | the rounding applied to the subtraction is the one IEEE 754-2019 section 4.3 asks for, in all four directions, overflow included |
| Matching.ScalingIsExact | src/core/utility/include/cassian/utility/comparators.hpp:151-152 | scalbn loses no bits at small distances: a nonzero distance is at least 2^-126 |
| UlpDistance.UnitIsUlpIff | src/core/utility/include/cassian/utility/comparators.hpp:129-142 | for half, bfloat16 and tf32 and every finite reference: the unit derived from frexp is the distance of two consecutive finite numbers around the reference if and only if the reference is not zero and less than 2^max_exponent in magnitude or equal to it, and it is the ulp of OpenCL C if and only if the reference is not zero, at most 2^max_exponent in magnitude, and no negative power of two above the smallest normal number |
| UlpDistance.UnitAboveRange | src/core/utility/include/cassian/utility/comparators.hpp:129-142 | at the float after 2^16 the unit for half is twice the widest spacing of finite halves |
| UlpDistance.FloatsInRange | src/core/utility/include/cassian/utility/comparators.hpp:129-142 | for bfloat16 and tf32 no float is that large |
| UlpDistance.UnitAtZero | src/core/utility/include/cassian/utility/comparators.hpp:132-142 | at zero the unit is 2^-digits, far above the spacing of the subnormals |
| UlpDistance.UnitAtPowerOfTwo | src/core/utility/include/cassian/utility/comparators.hpp:136-142 | a positive power of two is measured with the finer of its two spacings, a negative one with the coarser |
| UlpDistance.Locate | src/core/utility/include/cassian/utility/comparators.hpp:129-142 | at every nonzero finite reference the unit is the spacing of the format, continued past infinity, above the next number toward zero, or below it at a positive power of two |
| ConversionUlps.NearestWithinHalfUlpIff | src/core/utility/include/cassian/utility/comparators.hpp:129-153 | for every finite float r, the computed distance of Half(r) from r is at most 1/2 if and only if abs(r) <= 65568, whichever way the subtraction rounds |
| ConversionUlps.AnyModeWithinOneUlp | src/core/utility/include/cassian/utility/comparators.hpp:129-153 | in every rounding mode the distance is below 1 for abs(r) < 2^16 |
| ConversionUlps.ErrorIsRepresentable | src/core/utility/include/cassian/utility/comparators.hpp:143-144 | the error of a conversion below 2^16 fits a float, so the float subtraction is exact there |
| ConversionUlps.Bfloat16ErrorIsRepresentable | src/core/utility/include/cassian/utility/comparators.hpp:143-144 | the error of every bfloat16 conversion is a float |
| ConversionUlps.TfloatErrorIsRepresentable | src/core/utility/include/cassian/utility/comparators.hpp:143-144 | the error of every tf32 conversion is a float |
| ConversionUlps.Bfloat16WithinHalfUlpIff | src/core/utility/include/cassian/utility/comparators.hpp:129-153 | for bfloat16 the bound 1/2 holds if and only if the operand is below the overflow threshold or the current direction rounds 2^128 down to the largest float |
| ConversionUlps.TfloatWithinHalfUlpIff | src/core/utility/include/cassian/utility/comparators.hpp:129-153 | the same for tf32 |
| ConversionUlps.InfiniteResult | src/core/utility/include/cassian/utility/comparators.hpp:143-152 | an infinite bfloat16 or tf32 result is infinitely far from a finite reference, or is measured from the largest float, and then nearer than 1/2 only from a reference that overflows |
| Matching.AcceptsOnlyCorrectIff | src/core/utility/include/cassian/utility/comparators.hpp:157-178 | for each format, in nearest mode and for a tolerance t in [0, 1/2), match_results_ulp accepts exactly the correctly rounded results (NaN for NaN) if and only if the reference is not zero or t is below the smallest number in units of zero: 2^-13 for half, 2^-125 for bfloat16 and tf32 |
| Matching.CloseIsNearestIff | src/core/utility/include/cassian/utility/comparators.hpp:129-153 | for each format and every float: all results at a distance below 1/2 are correctly rounded, whichever way the subtraction rounds, if and only if the reference is not zero |
| Matching.LeastUlps | src/core/utility/include/cassian/utility/comparators.hpp:129-153 | against zero the smallest number of each format measures far less than 1/2 |
| Matching.AcceptedForZero | src/core/utility/include/cassian/utility/comparators.hpp:132-178 | where zero is expected, 2^-12 is accepted at half a unit |
| ClosestMatching.AcceptsClosestIff | src/core/utility/include/cassian/utility/comparators.hpp:157-178 | in nearest mode and at tolerance 1/2 it accepts exactly the closest halves, both at a tie, for every non-NaN reference except the zeros, the negative powers of two from -2^-13 to -2^16, and the two floats next to 2^-25 and -2^-25 |
| ClosestMatching.AcceptedNotClosest | src/core/utility/include/cassian/utility/comparators.hpp:129-178 | at each of those references some half is accepted that is not closest |
| Matching.MatchesIff | src/core/utility/include/cassian/utility/comparators.hpp:157-178 | at every tolerance, in every mode and for every format, a result whose error is a float is accepted if and only if it equals the converted reference or its error is at most that many units |
| Matching.MatchesSpecials | src/core/utility/include/cassian/utility/comparators.hpp:157-178 | in every mode and at every tolerance NaN matches NaN only, an infinite reference only the infinity of its sign, and an infinite result that is infinitely far only a reference converted to it |
| Matching.MatchesWithin | src/core/utility/include/cassian/utility/comparators.hpp:157-178 | the same for any result up to the relative error 2^-23 of the subtraction |
| Matching.ConversionMatches | src/core/utility/include/cassian/utility/comparators.hpp:165-172 | for each format the equality shortcut accepts the library's own conversion of any float, NaNs and infinities included, in every rounding mode and whatever the tolerance |
| Matching.ConversionMatchesInOtherMode | src/core/utility/include/cassian/utility/comparators.hpp:157-178 | below 2^16 it still matches within one unit when the rounding mode has changed since |
| Matching.MatchAll | src/core/utility/include/cassian/utility/comparators.hpp:399-415 | the loop over scalar results accepts exactly when every element matches |
| BitOperations.SetBitSets | src/core/reference/src/extended_bit_operations.cpp:15-20 | set_bit changes the bit at the offset to the given value and no other bit |
| BitOperations.BitfieldExtractUnsigned | src/core/reference/include/cassian/reference/extended_bit_operations.hpp:91-113 | the loops compute (base / 2^offset) mod 2^count, for any width up to 64 and both signednesses |
| BitOperations.BitfieldExtractSigned | src/core/reference/include/cassian/reference/extended_bit_operations.hpp:46-73 | the loops compute the two's complement sign extension of that field, zero for count 0 |
| BitOperations.TopBitRepeated | src/core/reference/include/cassian/reference/extended_bit_operations.hpp:46-73 | the two's complement pattern of the result is the field with its top bit repeated up to the width |
| BitOperations.BitReverse | src/core/reference/include/cassian/reference/extended_bit_operations.hpp:124-139 | the loop reverses the bits of the width, as a value of the element type |
| BitOperations.BitfieldInsert | src/core/reference/include/cassian/reference/extended_bit_operations.hpp:157-174 | the loop replaces one field of the base by the low bits of the insert |
| BitOperations.WordOfInserted | src/core/reference/include/cassian/reference/extended_bit_operations.hpp:157-174 | the result fits the element type and its word is that of the base with the field replaced |
| BitOperations.WordOfReversed | src/core/reference/include/cassian/reference/extended_bit_operations.hpp:124-139 | the result of bit_reverse fits the element type and its word is the reversed word |
| BitOperations.BitWithField | src/core/reference/include/cassian/reference/extended_bit_operations.hpp:142-146 | bits inside the field come from the insert, all others from the base |
| BitOperations.ExtractAfterInsert | src/core/reference/include/cassian/reference/extended_bit_operations.hpp:91-174 | extracting after inserting gives the low count bits of what was inserted |
| BitOperations.InsertOfExtract | src/core/reference/include/cassian/reference/extended_bit_operations.hpp:91-174 | inserting what was extracted changes nothing |
| BitOperations.DisjointFieldsIndependent | src/core/reference/include/cassian/reference/extended_bit_operations.hpp:157-174 | inserts into disjoint fields commute and leave each other's field alone |
| BitOperations.LastInsertWins | src/core/reference/include/cassian/reference/extended_bit_operations.hpp:157-174 | a second insert at the same place overwrites the first |
| BitOperations.BitOfReverse | src/core/reference/include/cassian/reference/extended_bit_operations.hpp:115-118 | bit n of the result is bit width - n - 1 of the base |
| BitOperations.ReverseTwice | src/core/reference/include/cassian/reference/extended_bit_operations.hpp:124-139 | reversal is an involution |
| BitOperations.ReverseMirrorsInsert | src/core/reference/include/cassian/reference/extended_bit_operations.hpp:124-174 | reversing after an insert at (o, c) is inserting the reversed value into the reversed base at (w - o - c, c) |
| BitOperations.ExtractOfInserted | src/core/reference/include/cassian/reference/extended_bit_operations.hpp:91-174 | on the values the functions return, signed or not: extracting after inserting gives the low bits of the insert |
| BitOperations.InsertOfExtracted | src/core/reference/include/cassian/reference/extended_bit_operations.hpp:46-174 | inserting a field that was extracted, as a signed or as an unsigned number, gives the base back |
| BitOperations.InsertsCommute | src/core/reference/include/cassian/reference/extended_bit_operations.hpp:157-174 | inserts into disjoint fields commute on values |
| BitOperations.ReversedTwice | src/core/reference/include/cassian/reference/extended_bit_operations.hpp:124-139 | bit_reverse is an involution on every element type |
| BitOperations.ReversedMirrorsInsert | src/core/reference/include/cassian/reference/extended_bit_operations.hpp:124-174 | bit_reverse of an insert is the insert of the reversed field into the reversed base, on values |
| WorkSize.GetMaxLocalWorkSize | src/core/runtime/include/cassian/runtime/runtime.hpp:920-954 | the shortcut and the search loops compute `LocalWorkSize`; the search ends without dividing by zero |
| WorkSize.GreedyFits | src/core/runtime/include/cassian/runtime/runtime.hpp:941-953 | the searched size divides the global size, keeps every limit, and its product is within the budget |
| WorkSize.GreedyIsGreatest | src/core/runtime/include/cassian/runtime/runtime.hpp:941-953 | no size with these three properties is lexicographically greater |
| WorkSize.ShortcutIff | src/core/runtime/include/cassian/runtime/runtime.hpp:932-938 | the global size is returned unsearched if and only if it is below the limits at their first difference and its product modulo 2^64 is within the budget |
| WorkSize.LocalWorkSizeGuarantee | src/core/runtime/include/cassian/runtime/runtime.hpp:920-954 | the result always divides the global size; it is the greatest legal size if and only if the global size is legal, or not below the limits at their first difference, or its product modulo 2^64 is beyond the budget |
| WorkSize.LimitsAndBudget | src/core/runtime/include/cassian/runtime/runtime.hpp:920-954 | unsearched, the result is the global size, and the limits and the budget, each on its own, hold if and only if that size meets them; searched, it is the greatest legal size; a product that does not wrap is within the budget on both paths |
| WorkSize.FirstBeyondLimit | src/core/runtime/include/cassian/runtime/runtime.hpp:932-953 | a first dimension beyond its limit is enough for a result within all limits |
| WorkSize.ShortcutTooGenerous | src/core/runtime/include/cassian/runtime/runtime.hpp:932-938 | a size beyond a limit, and a product that wraps to zero, which the shortcut lets through |
| WorkSize.WrappedIsProduct | src/core/runtime/include/cassian/runtime/runtime.hpp:933-935 | the accumulated size_t product is the product modulo 2^64 |
| WorkSize.OneDimension | src/core/runtime/include/cassian/runtime/runtime.hpp:966-973 | in one dimension the result is always the greatest legal size |
| WorkSize.Idempotent | src/core/runtime/include/cassian/runtime/runtime.hpp:920-954 | asking again with the result returns the result, on both paths |
| Packing.PackVector | src/core/utility/include/cassian/utility/utility.hpp:153-183 | the loops compute `Packed`, with every access in bounds |
| Packing.UnpackVector | src/core/utility/include/cassian/utility/utility.hpp:232-259 | the loops compute `Unpacked`, with every access in bounds |
| Packing.PackedLayout | src/core/utility/include/cassian/utility/utility.hpp:165-179 | part i of the element in row y and column x is the input at y * step * ratio + i * step + x |
| Packing.PackedRest | src/core/utility/include/cassian/utility/utility.hpp:162-165 | elements beyond the complete rows are zero |
| Packing.UnpackedLayout | src/core/utility/include/cassian/utility/utility.hpp:245-256 | part i of the element in row y and column x goes to y * step * ratio + i * step + x |
| Packing.UnpackedRest | src/core/utility/include/cassian/utility/utility.hpp:240-245 | positions beyond the complete rows are zero |
| Packing.DigitsOfPosition | src/core/utility/include/cassian/utility/utility.hpp:171-177 | the strided position determines element and part |
| Packing.PositionOfDigits | src/core/utility/include/cassian/utility/utility.hpp:250-255 | every position belongs to one element and part: the index map is a bijection |
| Packing.UnpackOfPack | src/core/utility/include/cassian/utility/utility.hpp:153-259 | unpacking what was packed restores the parts of all complete rows and is zero after them |
| Packing.PackOfUnpack | src/core/utility/include/cassian/utility/utility.hpp:153-259 | packing what was unpacked restores the elements of all complete rows and is zero after them |
| Packing.InverseWhenSizesDivide | src/core/utility/include/cassian/utility/utility.hpp:153-259 | with sizes that divide, both compositions are the identity |
| CommandLine.CommandLineParser.AddArgument | src/core/cli/src/cli.cpp:13-16 | an option is added with its default value |
| CommandLine.CommandLineParser.Parse | src/core/cli/src/cli.cpp:18-46 | the in-place compaction, which steps back one token after each removal, leaves argv, the options and the list flag as the left-to-right parser `Wanted` does, and terminates |
| CommandLine.CommandLineParser.Shift | src/core/cli/src/cli.cpp:40-42 | the tokens after the removed ones move down, nothing else is lost |
| CommandLine.KeptAndPairs | src/core/cli/src/cli.cpp:27-45 | the survivors and the removed pairs are the only way to take the tokens apart, in order, into tokens that are no options and pairs that start with one |
| CommandLine.LastValueWins | src/core/cli/src/cli.cpp:29-37 | an option holds the value of its last pair or its previous value; the set of options does not change |
| CommandLine.ListRequestedIff | src/core/cli/src/cli.cpp:19-25 | the list is requested if and only if it was before, or a surviving token or an option starts with "--list" or is "-l" or "-t", or the program name does and the first token is an option |
| CommandLine.OutcomeKeepsProgram | src/core/cli/src/cli.cpp:18-46 | argv[0] stays first, followed by the surviving tokens in order |
| CommandLine.ParsingAgain | src/core/cli/src/cli.cpp:18-46 | parsing the surviving tokens again changes nothing |
| TupleProduct.TupleConcatFlattens | src/core/utility/include/cassian/utility/metaprogramming.hpp:109-156 | on tuples the specializations together mean concatenation |
| TupleProduct.ProductIndex | src/core/utility/include/cassian/utility/metaprogramming.hpp:182-189 | entry i * |us| + j is the pair of ts[i] and us[j] for a plain type ts[i], and the tuple ts[i] with us[j] at its end otherwise |
| TupleProduct.NestedProductIndex | src/core/utility/include/cassian/utility/metaprogramming.hpp:53-64 | nested products of plain types are flat triples in row-major order |

## Where the code does not do what its documentation says

- `get_max_local_work_size` is documented to respect the size of each dimension. The
  shortcut compares whole arrays, that is lexicographically, and its product can wrap;
  `LocalWorkSizeGuarantee` and `LimitsAndBudget` give the exact conditions.
- The rounding mode is honoured in the normal range of half only
  (`CorrectIffModeHonoured`).
- The stochastic constructor treats float subnormals and NaNs in ways of their own
  (`SubnormalOperandCorrectIff`, `NaNKeptIff`) and turns operands whose half would be
  subnormal into zero (`UnderflowCorrectIff`, `SubnormalHalfLost`); `UnbiasedIff` says
  where it is unbiased.
- The unit that calculate_ulp_distance uses is not the unit in the last place at a zero
  reference, where it is 2^-digits (2^-11 for half), at negative powers of two, where it
  is the coarser of two spacings, and for half references beyond 2^16, where it keeps
  growing with the reference (`UnitIsUlpIff`, `UnitAboveRange`). At zero a tolerance of
  2^-13 units accepts a half that is not zero (`AcceptsOnlyCorrectIff`). At negative
  powers of two half a unit accepts a half that is not closest, and by the rounding of
  the subtraction it also does next to 2^-25 and -2^-25 (`AcceptsClosestIff`).
- Going through tf32 changes some half results below 2^-14 (`DetourHarmlessIff`).

## Left out

- The OpenCL and Level Zero runtimes, the offline compiler and library loading: foreign calls behind handles.
- Arithmetic operators and math functions of the three formats: they delegate to `std::` float functions.
- Tfloat objects encoded from patterns whose low 13 bits are not zero: `TfloatNextAfter` is about tf32 patterns.
- The payload of the NaN that `nextafter` returns: the sum of the operands is a parameter that is only known to be a NaN.
- calculate_ulp_distance for integer results and for references of type double: the model is for float references.
- Math libraries whose exp2 or scalbn overflow in a directed rounding mode otherwise than IEEE 754-2019 section 7.4 says.
- The error-value and range comparators, the vector variants of the matchers, and every `describe`.
- The byte order of `memcpy` in pack and unpack: an element is the sequence of its parts. The overloads for `cassian::Vector` run the same loops, and their padding is not modelled.
- The iteration order of the option map: keys are distinct, so a lookup finds the same entry.
- Work sizes on which the search divides by zero (a zero size, limit or budget that the shortcut does not catch): excluded by the contract of `GetMaxLocalWorkSize`.
- Command lines the source reads out of bounds on: an option without a value, and a program named like an option that an option follows. They are excluded by the contract of `Parse`.
- Products of containers and of OpenCL C types: the same row-major pattern.
