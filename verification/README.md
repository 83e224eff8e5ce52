# Verified models of the question bank system

The repository is an examination question bank: a server keeps questions in an SQLite table
behind in-memory caches, and a client and the server share a checked-in copy of the fmt 9.1
formatting library. This project models the parts of it whose correctness is not visible from
one function body and proves what they are for.

* **Exact printing of numbers.** `Limbs`, `Columns` and `Bigint` hold the arbitrary-precision
  integer, changed in place, and relate its limbs to natural numbers. `DigitGeneration` is Steele
  and White's digit generation over the naturals with the exponent-sensitive comparisons of the
  code; `ShortestExact` says exactly when its shortest mode keeps to the rounding interval and to
  the fewest digits, and `NearestInside` when it prints the nearest number of its length there.
  `Dragon` runs it on bigints, `DragonMeaning` and `DragonNearest` say what the digits mean for
  the real number and for `format_dragon`'s arguments, `TenPowers` finds the one number its
  division mistakes, and `Misled` holds the inputs at which the shortest mode fails. `Grisu` is
  the fast digit loop with an error bound, `CachedPowers` the table it scales with, every entry
  proved nearest to its power of ten, and `DoubleGaps` shows that no double is close enough below
  a power of ten to be taken for it. `DoubleDigits` and `FormatFloat` put both paths of
  `format_float` together: whichever path a positive double takes, there are as many digits as
  asked for from its leading digit on, and they are the number rounded at the last place, halves
  to even. `WideMultiply` is the 64-bit and 128-bit arithmetic below it, `MachineInts`, `Powers`,
  `RealPowers` and `Decimals` what the modules share.
* **Text.** `DecimalIO` writes, counts and reads decimal integers, `Grouping` inserts thousands
  separators, `Utf8` and `Utf16` decode and convert text, `FormatString` is the format string
  scanner with its two paths and `FormatPieces` what it makes of texts, argument ids and
  specifiers, `OutputBuffer` the truncating output buffers, `IsoWeek` the ISO week dates.
* **The application.** `Catalogue` is the question table with its marker rows and the server's
  caches, `JsonEscape` the escaper that edits a string in place.

Code that changes state step by step is modelled by classes and methods with loops, each proved
against a function or relation about which the lemmas then speak. Integers are unbounded; where
the source's width matters the bound is proved or the wrap-around is written out.

## What the proofs found

* `compare` orders equal values by their exponents and a zero by its exponent alone;
  `add_compare` is right for all operands except certain zeros with an exponent.
* `subtract_aligned` is right exactly if the borrow is covered by the single bigit above the
  divisor's; at most one place above the divisor's guarantees that, and 2^64 - 1 is an input at
  which it fails.
* `divmod_assign` misses exactly the dividend that equals the divisor but has the larger exponent,
  such as 1 shifted up by 32 bits over 2^32. No double can lead `format_dragon` there; with equal
  half-gaps exactly 5^31 * 2^31 with the estimate 31 does, and its first two digits come out as "0:".
  The shortest mode, a single digit and no digits are right even then.
* The shortest mode of `format_dragon` can end on the excluded lower end of an odd significand's
  interval. It does so for the binary128 number 5192296858536545187234878540039063 * 2^31, which
  comes out as 11150372599269 * 10^30. The exact condition is `EndMistaken`; a remainder whose
  bigint exponent exceeds the gap's is needed.
* It can also print more digits than necessary, exactly if `DigitMissed`. A zero remainder may be
  placed above the gap: 2 * 5^32 * 2^31, which is 10^32, with the estimate 32 comes out as "10".
  And the lower end of an even significand's interval may be passed over: for the 64-bit significand
  11175870895385742188 with the exponent 32 the end 48 * 10^27 would do, and more than two digits
  come out.
* For significands of up to 64 bits, and an estimate at most one too large, only the last of these
  can happen.
* Of the numbers of its length in the interval it prints a nearest one exactly unless
  `NearestMissed`. That never happens with equal half-gaps, nor with the closer predecessor that
  only powers of two have; for other significands it would: 17089844 * 2^34 with a closer
  predecessor comes out as 29360129 * 10^10, though 29360128 * 10^10 is in the interval and nearer.
* A fixed precision that becomes negative, so that no digit is wanted, makes `format_dragon` choose
  the shortest mode with gaps that may not have been scaled. It always prints a number that is not
  zero then; the 64-bit number nearest to 0.009 with one place after the point comes out as 9 and
  more digits, although "9" would be shortest.
* `get_cached_power` does not keep its promise about the binary exponent for minimal exponents from
  -1242 to -1222, where the truncating division skips the first entry. Doubles stay above -1085.
* `parse_nonnegative_int` returns the error value for a representable number written with enough
  leading zeros.
* For years before 0 the number of weeks is always 52, because C++ remainders are negative there;
  the last day of year -2 is in its week 53 and comes out in week 1 of year -1.
* The pointer specialisation of `iterator_buffer` loses what is written after a call of `out`.
* Adding a subject without a name leaves a name in the cache that the table does not have; the
  subject "placeholder" is counted but never listed; deleting a marker row strands other rows.
* Queries begin a transaction and leave it open. `deleteQuestion` answers 200 exactly if one is open
  for its `commit` to end, so its answer says nothing about the row: a deletion right after another
  one, or after a successful change, is answered 404 although it is carried out.

## Model

| member | source | states |
|---|---|---|
| `Bigints.Bigint.Assign` | Front-end/Exam_Paper_and_Question_Bank_Management_System/fmt/format.h:2784-2795 | the bigits of a machine integer; the value is that integer, the exponent zero |
| `Bigints.Bigint.AssignCopy` | Front-end/Exam_Paper_and_Question_Bank_Management_System/fmt/format.h:2803-2809 | a copy has the same bigits and exponent |
| `Bigints.Bigint.RemoveLeadingZeros` | Front-end/Exam_Paper_and_Question_Bank_Management_System/fmt/format.h:2734-2738 | the value stays, the top bigit is not zero (one bigit is always kept) |
| `Bigints.Bigint.Multiply` | Front-end/Exam_Paper_and_Question_Bank_Management_System/fmt/format.h:2752-2761 | multiplies the value by a 32-bit factor, the 64-bit intermediate never overflows |
| `Bigints.Bigint.WideWord` | Front-end/Exam_Paper_and_Question_Bank_Management_System/fmt/format.h:2763-2782 | one step of the two-word product is exact and the carry stays below the factor, so within its type |
| `Bigints.Bigint.MultiplyWide` | Front-end/Exam_Paper_and_Question_Bank_Management_System/fmt/format.h:2763-2782 | multiplies the value by a factor of two 32-bit or two 64-bit halves |
| `Bigints.Bigint.ShiftLeft` | Front-end/Exam_Paper_and_Question_Bank_Management_System/fmt/format.h:2820-2833 | multiplies the value by the power of two, moving whole bigits into the exponent |
| `Bigints.Bigint.Square` | Front-end/Exam_Paper_and_Question_Bank_Management_System/fmt/format.h:2903-2929 | the bigits denote the square, with no carry left and every column sum below 2^128 |
| `Bigints.NoFinalCarry` | Front-end/Exam_Paper_and_Question_Bank_Management_System/fmt/format.h:2918-2929 | after the last column the carry is zero and the bigits are the product of the number with itself |
| `Columns.ColumnSumProduct` | Front-end/Exam_Paper_and_Question_Bank_Management_System/fmt/format.h:2909-2928 | all column sums at their weights add up to the product of the two numbers |
| `Bigints.Bigint.RaiseFive` | Front-end/Exam_Paper_and_Question_Bank_Management_System/fmt/format.h:2887-2899 | repeated squaring and multiplication over the bits of the exponent gives exactly 5^e |
| `Bigints.Bigint.AssignPow10` | Front-end/Exam_Paper_and_Question_Bank_Management_System/fmt/format.h:2884-2901 | the value is exactly 10^e for every e below 2^30 |
| `Bigints.Bigint.Compare` | Front-end/Exam_Paper_and_Question_Bank_Management_System/fmt/format.h:2841-2856 | the sign of the difference, except that equal values are told apart by their exponents and a zero is placed by its exponent alone |
| `Bigints.VerdictMeans` | Front-end/Exam_Paper_and_Question_Bank_Management_System/fmt/format.h:2841-2856 | compare is negative exactly if the left value is smaller, or equal with the larger exponent |
| `Bigints.VerdictAtEqualExponents` | Front-end/Exam_Paper_and_Question_Bank_Management_System/fmt/format.h:2841-2856 | at equal exponents it is the exact sign of the difference, zeros included |
| `Bigints.NotLessIsExact` | Front-end/Exam_Paper_and_Question_Bank_Management_System/fmt/format.h:2951 | the test compare >= 0 is exact when the left exponent is not the larger one |
| `Bigints.Bigint.AddCompare` | Front-end/Exam_Paper_and_Question_Bank_Management_System/fmt/format.h:2858-2881 | the order of lhs1 + lhs2 and rhs for all operands and exponents, despite the early exits; zeros with an exponent may count as larger than they are |
| `Bigints.SumVerdictExact` | Front-end/Exam_Paper_and_Question_Bank_Management_System/fmt/format.h:2858-2870 | the answer is the sign of the difference exactly unless a zero right-hand side lies more than one place above both operands, or a zero operand lies above a right-hand side that the sum does not exceed; zeros without an exponent are always right |
| `Bigints.SumVerdictMistaken` | Front-end/Exam_Paper_and_Question_Bank_Management_System/fmt/format.h:2862-2868 | an input for each of the two errors |
| `Bigints.Bigint.SubtractBigits` | Front-end/Exam_Paper_and_Question_Bank_Management_System/fmt/format.h:2728-2732 | one bigit of a subtraction in wrapping 64-bit arithmetic: the difference and the next borrow |
| `Bigints.Bigint.HandBorrow` | Front-end/Exam_Paper_and_Question_Bank_Management_System/fmt/format.h:2748 | the loop that does not advance: the borrow is taken from the one bigit above until it is gone |
| `Bigints.Bigint.SubtractAligned` | Front-end/Exam_Paper_and_Question_Bank_Management_System/fmt/format.h:2741-2750 | the value becomes the difference exactly if the borrow finds what it needs in the single bigit above the divisor; no index leaves the bigits |
| `Bigints.OneAbove` | Front-end/Exam_Paper_and_Question_Bank_Management_System/fmt/format.h:2741-2750 | with at most one place above the divisor's this condition holds |
| `Bigints.Bigint.SubtractMistaken` | Front-end/Exam_Paper_and_Question_Bank_Management_System/fmt/format.h:2741-2750 | an input at which the difference is wrong: 2^64 less one |
| `Bigints.Bigint.Align` | Front-end/Exam_Paper_and_Question_Bank_Management_System/fmt/format.h:2933-2942 | lowers the exponent to the other's without changing the value or the number of places |
| `Bigints.Bigint.DivmodAssign` | Front-end/Exam_Paper_and_Question_Bank_Management_System/fmt/format.h:2946-2957 | terminates with dividend == quotient * divisor + remainder; the remainder is below the divisor exactly unless an equal dividend with the larger exponent came in |
| `Bigints.Bigint.DivideEqual` | Front-end/Exam_Paper_and_Question_Bank_Management_System/fmt/format.h:2946-2957 | an input that is missed: the dividend equals the divisor, the quotient comes out as zero |
| `DigitGeneration.DivRemMeans` | Front-end/Exam_Paper_and_Question_Bank_Management_System/fmt/format.h:2951-2956 | the repeated subtraction is division with remainder |
| `DigitGeneration.ShortestSound` | Front-end/Exam_Paper_and_Question_Bank_Management_System/fmt/format.h:3033-3060 | every digit, incremented or not, is at most nine and the result lies in the rounding interval or on one of its ends |
| `DigitGeneration.ShortestNearest` | Front-end/Exam_Paper_and_Question_Bank_Management_System/fmt/format.h:3044-3051 | with equal half-gaps the result is a nearest number of its length, whatever the exponents of remainder and gap |
| `ShortestExact.ShortestStrict` | Front-end/Exam_Paper_and_Question_Bank_Management_System/fmt/format.h:3037-3060 | for an odd significand the result is strictly inside the interval exactly unless the lower end is mistaken for inside, and then it is that end |
| `ShortestExact.ShortestMinimal` | Front-end/Exam_Paper_and_Question_Bank_Management_System/fmt/format.h:3037-3060 | no number with fewer digits is in the interval exactly unless a number that should have ended the digits is missed: one with a zero remainder placed above the gap, or the lower end of an even significand below a larger gap exponent |
| `ShortestExact.ExponentsSuffice` | Front-end/Exam_Paper_and_Question_Bank_Management_System/fmt/format.h:3037-3041 | neither happens to an odd significand if the gap's exponent is not below both others, and for an even one at most the lower end is missed |
| `NearestInside.ShortestNearestInside` | Front-end/Exam_Paper_and_Question_Bank_Management_System/fmt/format.h:3037-3060 | of all numbers of its length in the interval the result is a nearest one, the even one of two, exactly unless at its last place the number itself or the lower end of an even significand is missed by the comparison with the gap; any half-gaps |
| `NearestInside.EqualGaps` | Front-end/Exam_Paper_and_Question_Bank_Management_System/fmt/format.h:3037-3051 | with equal half-gaps, none of half a unit, nothing is missed there |
| `NearestInside.NoneMissed` | Front-end/Exam_Paper_and_Question_Bank_Management_System/fmt/format.h:3037-3051 | nor where the gap's exponent is not above the others and the gap not below both |
| `DigitGeneration.RoundHalfEvenNearest` | Front-end/Exam_Paper_and_Question_Bank_Management_System/fmt/format.h:3075-3094 | the rounded quotient is within half a unit, and even at exactly half |
| `Dragon.DivideDigit` | Front-end/Exam_Paper_and_Question_Bank_Management_System/fmt/format.h:3038 | one division step leaves the remainder and yields a digit of at most nine, except after the one dividend that is mistaken |
| `Dragon.MistakenRounds` | Front-end/Exam_Paper_and_Question_Bank_Management_System/fmt/format.h:3038-3060 | after a mistaken division the shortest mode ends with the digit it should end with |
| `Dragon.GenerateShortest` | Front-end/Exam_Paper_and_Question_Bank_Management_System/fmt/format.h:3033-3060 | the bigint loop writes exactly the digits of the specification over the naturals, also when upper and lower are the same object |
| `Dragon.LeadingDigits` | Front-end/Exam_Paper_and_Question_Bank_Management_System/fmt/format.h:3070-3074 | the digits before the last one, mistakes included, with the ratio still to generate |
| `Dragon.RightDigits` | Front-end/Exam_Paper_and_Question_Bank_Management_System/fmt/format.h:3070-3074 | they are the leading digits of the quotient as long as no dividend is mistaken |
| `Dragon.DigitsAfter` | Front-end/Exam_Paper_and_Question_Bank_Management_System/fmt/format.h:3070-3074 | from a mistaken dividend on they are a zero, a ten and zeros |
| `Decimals.PropagateCarry` | Front-end/Exam_Paper_and_Question_Bank_Management_System/fmt/format.h:2587-2591 | propagating a carry through nines keeps the number; only the first digit can be left past nine, with zeros behind it |
| `Dragon.CarryNine` | Front-end/Exam_Paper_and_Question_Bank_Management_System/fmt/format.h:3078-3091 | a rounded-up last nine becomes 10...0 with the exponent raised by one, or a carry inside the digits |
| `Dragon.GenerateFixed` | Front-end/Exam_Paper_and_Question_Bank_Management_System/fmt/format.h:3061-3094 | count digits denote the quotient rounded half to even at that place, after any carry; exactly if a dividend is mistaken before the last digit they are zeros, the character after '9' and zeros |
| `Dragon.GenerateNone` | Front-end/Exam_Paper_and_Question_Bank_Management_System/fmt/format.h:3063-3068 | with no digits asked for, the single digit is the number in units of the place above the first digit, rounded half to even |
| `Dragon.Setup` | Front-end/Exam_Paper_and_Question_Bank_Management_System/fmt/format.h:2982-3020 | the three setups produce the numbers of the specification |
| `Dragon.StartMistaken` | Front-end/Exam_Paper_and_Question_Bank_Management_System/fmt/format.h:2982-3018 | in terms of the arguments: the power of ten of the estimate is the number times a power of ten, and the extra bits cross a bigit that it does not reach |
| `Dragon.Fixup` | Front-end/Exam_Paper_and_Question_Bank_Management_System/fmt/format.h:3021-3029 | an estimate that is one too large is lowered and the numbers scaled |
| `Decimals.AdjustPrecision` | Front-end/Exam_Paper_and_Question_Bank_Management_System/fmt/format.h:2604-2610 | fails exactly if the precision would exceed the largest int |
| `Dragon.FormatDragon` | Front-end/Exam_Paper_and_Question_Bank_Management_System/fmt/format.h:2970-3095 | for all arguments, modes and flags: the digits and exponent of the specification, the overflow error, or the text after a mistaken dividend |
| `TenPowers.OnlyMistaken` | Front-end/Exam_Paper_and_Question_Bank_Management_System/fmt/format.h:2946-2957 | with equal half-gaps a dividend is mistaken exactly for 5^31, exponent 31 and estimate 31 |
| `TenPowers.CloserNeverMistaken` | Front-end/Exam_Paper_and_Question_Bank_Management_System/fmt/format.h:1419-1426 | and never for a power of two, the only significand with a closer predecessor |
| `TenPowers.TenTo31` | Front-end/Exam_Paper_and_Question_Bank_Management_System/fmt/format.h:3061-3074 | that number with two digits comes out as "0:", and in shortest mode as "1" |
| `DragonMeaning.StartStands` | Front-end/Exam_Paper_and_Question_Bank_Management_System/fmt/format.h:2982-3020 | the setup represents f * 2^e and its two half-gaps exactly |
| `DragonMeaning.ShortestRoundTrips` | Front-end/Exam_Paper_and_Question_Bank_Management_System/fmt/format.h:3033-3060 | the printed number lies in the rounding interval of the real number or on an end; for an odd significand strictly inside exactly unless the lower end is mistaken, which is then printed |
| `DragonMeaning.ShortestIsShortest` | Front-end/Exam_Paper_and_Question_Bank_Management_System/fmt/format.h:3033-3060 | no shorter decimal lies in the interval, to which the ends of an even significand belong, exactly unless a digit is missed |
| `DragonMeaning.RoundedIsNearest` | Front-end/Exam_Paper_and_Question_Bank_Management_System/fmt/format.h:3061-3094 | the fixed number of digits is the real number rounded at the last place, halves to even |
| `DragonMeaning.DragonRounds` | Front-end/Exam_Paper_and_Question_Bank_Management_System/fmt/format.h:3061-3094 | for all arguments a fixed number of digits, none included, is f * 2^e rounded half to even at the last place, unless a dividend is mistaken |
| `DragonMeaning.ExponentsOf` | Front-end/Exam_Paper_and_Question_Bank_Management_System/fmt/format.h:2982-3018 | how the bigint exponents follow from the arguments, as equivalences: when the gap is not below both others, and when it is not above the power of ten |
| `DragonMeaning.PreparedStands` | Front-end/Exam_Paper_and_Question_Bank_Management_System/fmt/format.h:2982-3030 | lowered or not, the numbers the loop starts from stand for f * 2^e and its half-gaps at the place of the first digit |
| `DragonMeaning.LeadingDigit` | Front-end/Exam_Paper_and_Question_Bank_Management_System/fmt/format.h:3021-3031 | the first digit is zero exactly if the upper end of the interval is below its place, and never after the fixup for an estimate at most one too large |
| `DragonMeaning.DragonRoundTrips` | Front-end/Exam_Paper_and_Question_Bank_Management_System/fmt/format.h:2970-3060 | shortest output reads back into the rounding interval for all arguments, whether or not the estimate was lowered; for an odd significand strictly inside exactly unless the lower end is mistaken |
| `DragonMeaning.DragonIsShortest` | Front-end/Exam_Paper_and_Question_Bank_Management_System/fmt/format.h:2970-3060 | it has the fewest digits exactly unless a digit is missed, for all arguments |
| `DragonNearest.DragonIsNearest` | Front-end/Exam_Paper_and_Question_Bank_Management_System/fmt/format.h:2970-3060 | for all arguments, whether or not the predecessor is closer: of the numbers of its length in the rounding interval of f * 2^e it is a nearest one, the even one of two, exactly unless one is missed; with equal half-gaps it is within half a unit of its last place |
| `DragonNearest.AgreeingNearest` | Front-end/Exam_Paper_and_Question_Bank_Management_System/fmt/format.h:2984-3041 | under a condition on exponent and estimate alone none is missed; it holds for all negative exponents |
| `DragonNearest.FormatsNearest` | Front-end/Exam_Paper_and_Question_Bank_Management_System/fmt/format.h:1419-1426 | none is missed for equal half-gaps, nor for powers of two, which alone have a closer predecessor |
| `DragonMeaning.DragonRight` | Front-end/Exam_Paper_and_Question_Bank_Management_System/fmt/format.h:2984-3041 | under a condition on exponent and estimate alone no end is mistaken, nothing shorter lies strictly inside, and no digit of an odd significand is missed, nor of an even one unless the gap is a bigit above the power of ten |
| `DragonMeaning.SixtyFourBitsAgree` | Front-end/Exam_Paper_and_Question_Bank_Management_System/fmt/format.h:3128-3133 | for significands below 2^64 that condition always holds if 10^(estimate - 1) is at most the number, as the computed estimate promises |
| `Misled.EndPrinted` | Front-end/Exam_Paper_and_Question_Bank_Management_System/fmt/format.h:3037-3045 | a binary128 significand and its estimate for which the excluded lower end is printed |
| `Misled.ZeroMissed` | Front-end/Exam_Paper_and_Question_Bank_Management_System/fmt/format.h:3037-3042 | arguments for which 10^32 is printed with a needless zero |
| `Misled.EndMissed` | Front-end/Exam_Paper_and_Question_Bank_Management_System/fmt/format.h:3037-3042 | a 64-bit significand and its estimate for which a two-digit end of the interval is passed over |
| `Misled.NearerPassed` | Front-end/Exam_Paper_and_Question_Bank_Management_System/fmt/format.h:3037-3051 | a significand that is no power of two for which, with a closer predecessor, the nearer lower end is passed over |
| `DragonMeaning.NegativePrecision` | Front-end/Exam_Paper_and_Question_Bank_Management_System/fmt/format.h:3021-3036 | whenever the adjusted fixed precision is negative, zero would be right, and a number that is not zero is printed, in the rounding interval |
| `Misled.NearlyNine` | Front-end/Exam_Paper_and_Question_Bank_Management_System/fmt/format.h:3021-3036 | a 64-bit significand and its estimate for which more than the shortest digit 9 is printed then |
| `Grisu.GetRoundDirection` | Front-end/Exam_Paper_and_Question_Bank_Management_System/fmt/format.h:2534-2555 | down and up mean that every number within the error rounds that way, computed without overflow |
| `Grisu.GenDigitsHandler.Increment` | Front-end/Exam_Paper_and_Question_Bank_Management_System/fmt/format.h:2588-2600 | adding one to the digits, with the carry, the further zero in fixed mode or the raised exponent |
| `Grisu.GenDigitsHandler.OnDigit` | Front-end/Exam_Paper_and_Question_Bank_Management_System/fmt/format.h:2570-2601 | when it goes on, gives up and is done, as equivalences; done means that the digits are settled for every number within the error |
| `Grisu.IntegralDigits` | Front-end/Exam_Paper_and_Question_Bank_Management_System/fmt/format.h:2644-2692 | up to ten digits of the integral part; no unit or remainder leaves 64 bits |
| `Grisu.FractionalDigits` | Front-end/Exam_Paper_and_Question_Bank_Management_System/fmt/format.h:2694-2704 | the loop ends, the growing error stays below the remainder and within 64 bits |
| `Grisu.DivisorFits` | Front-end/Exam_Paper_and_Question_Bank_Management_System/fmt/format.h:2646-2691 | the shifted power of ten stays below 2^64 for every digit, and there are at most ten |
| `Grisu.GrisuGenDigits` | Front-end/Exam_Paper_and_Question_Bank_Management_System/fmt/format.h:2615-2705 | a finished run rounds correctly for every number within the error; one gives up only if what is left is within the error or no number of units is right for all of them, and leaves the count of digits the caller relies on |
| `Grisu.RoundsMeans` | Front-end/Exam_Paper_and_Question_Bank_Management_System/fmt/format.h:2615-2705 | every real number that the scaled value stands for is less than half a unit away |
| `Grisu.FinishedMeans` | Front-end/Exam_Paper_and_Question_Bank_Management_System/fmt/format.h:2615-2705 | and from the printed digits with their final exponent, after any carry |
| `FormatFloat.Normalize` | Front-end/Exam_Paper_and_Question_Bank_Management_System/fmt/format.h:1440-1455 | moves the top bit of the significand to bit 63 |
| `CachedPowers.EntryNearest` | Front-end/Exam_Paper_and_Question_Bank_Management_System/fmt/format.h:1481-1530 | each of the 87 significands with its exponent is nearest to its power of ten |
| `CachedPowers.CachedPowerServes` | Front-end/Exam_Paper_and_Question_Bank_Management_System/fmt/format.h:1546-1570 | for every minimal exponent that some entry serves the index is in the table, and the entry found serves it exactly outside -1242 to -1222 |
| `FormatFloat.ProductApproximates` | Front-end/Exam_Paper_and_Question_Bank_Management_System/fmt/format.h:1457-1476 | the rounded product with a cached power is closer than one to the scaled number |
| `FormatFloat.ScaleByCachedPower` | Front-end/Exam_Paper_and_Question_Bank_Management_System/fmt/format.h:3143-3148 | for every double the scaled significand is closer than one to the number times the power of ten, and has 32 to 60 bits after the point |
| `DoubleGaps.NoDoubleReaches` | Front-end/Exam_Paper_and_Question_Bank_Management_System/fmt/format.h:2623-2628 | no double is below a power of ten by less than one part in 2^62 |
| `FormatFloat.FoundTop` | Front-end/Exam_Paper_and_Question_Bank_Management_System/fmt/format.h:3147-3157 | so the digits of the scaled integral part tell the leading place of a double exactly |
| `TenPowers.PowersOfTenAreSmall` | Front-end/Exam_Paper_and_Question_Bank_Management_System/fmt/format.h:2946-2957 | a power of ten with a double's significand has a binary exponent below 30, so doubles never meet the dividend that the division mistakes |
| `FormatFloat.EstimateAcceptable` | Front-end/Exam_Paper_and_Question_Bank_Management_System/fmt/format.h:3155-3157 | the exponent left by a cancelled Grisu run is a right estimate for format_dragon |
| `FormatFloat.DoubleNeverMistaken` | Front-end/Exam_Paper_and_Question_Bank_Management_System/fmt/format.h:3155-3172 | and the division is never mistaken for it |
| `DoubleDigits.DigitsSuffice` | Front-end/Exam_Paper_and_Question_Bank_Management_System/fmt/format.h:3168-3171 | 767 digits from the leading one on hold a double exactly |
| `FormatFloat.DragonExact` | Front-end/Exam_Paper_and_Question_Bank_Management_System/fmt/format.h:3168-3172 | with 767 digits the text denotes the double itself, so limiting the precision loses nothing |
| `FormatFloat.RemoveTrailingZeros` | Front-end/Exam_Paper_and_Question_Bank_Management_System/fmt/format.h:3174-3182 | zeros taken off the end go into the exponent and the number stays the same |
| `FormatFloat.PrintDigits` | Front-end/Exam_Paper_and_Question_Bank_Management_System/fmt/format.h:3143-3173 | either path prints the digits asked for from the leading place on, correctly rounded; where the last place asked for lies above it, no digits with the exponent of the leading place |
| `FormatFloat.FormatFloat` | Front-end/Exam_Paper_and_Question_Bank_Management_System/fmt/format.h:3098-3184 | for every positive double, precision and mode: the digits start at the leading digit of the number or, after a carry, one place above, are as many as asked for up to trailing zeros and the limit of 767, end without a zero where zeros are removed, and are the number rounded half to even at the last place asked for; with places only above the number there are no digits and the exponent is that of its leading place; it fails exactly for an overflowing fixed precision |
| `FormatFloat.CorrectUnique` | Front-end/Exam_Paper_and_Question_Bank_Management_System/fmt/format.h:3098-3184 | this leaves one number to print: correct results fail together and print the same, and without digits they are equal |
| `WideMultiply.Uint128.Greater` | Front-end/Exam_Paper_and_Question_Bank_Management_System/fmt/format.h:348-351 | compares the 128-bit values |
| `WideMultiply.Uint128.Add` | Front-end/Exam_Paper_and_Question_Bank_Management_System/fmt/format.h:393-399 | the 128-bit sum, the high word not overflowing |
| `WideMultiply.Uint128.AddWord` | Front-end/Exam_Paper_and_Question_Bank_Management_System/fmt/format.h:401-422 | the sum modulo 2^128, its carry found by comparing the wrapped low word |
| `WideMultiply.Uint128.Times` | Front-end/Exam_Paper_and_Question_Bank_Management_System/fmt/format.h:368-375 | the exact product with a 32-bit factor |
| `WideMultiply.Uint128.Minus` | Front-end/Exam_Paper_and_Question_Bank_Management_System/fmt/format.h:376-379 | the difference modulo 2^128 |
| `WideMultiply.Umul128` | Front-end/Exam_Paper_and_Question_Bank_Management_System/fmt/format-inl.h:147-172 | the branch over 32-bit limbs is the exact 128-bit product with no intermediate overflow |
| `WideMultiply.Upper64` | Front-end/Exam_Paper_and_Question_Bank_Management_System/fmt/format-inl.h:178-187 | the upper 64 bits of the product |
| `WideMultiply.Umul192Upper128` | Front-end/Exam_Paper_and_Question_Bank_Management_System/fmt/format-inl.h:191-196 | the upper 128 bits of the 192-bit product |
| `WideMultiply.Umul192Lower128` | Front-end/Exam_Paper_and_Question_Bank_Management_System/fmt/format-inl.h:206-211 | the product modulo 2^128 |
| `WideMultiply.MultiplyNative` | Front-end/Exam_Paper_and_Question_Bank_Management_System/fmt/format.h:1458-1461 | the product divided by 2^64, rounded half up |
| `WideMultiply.Multiply` | Front-end/Exam_Paper_and_Question_Bank_Management_System/fmt/format.h:1463-1470 | the 32-bit branch computes the same |
| `Decimals.NumDigitsBracket` | Front-end/Exam_Paper_and_Question_Bank_Management_System/fmt/format.h:1092-1093 | the number of digits brackets the number between powers of ten |
| `DecimalIO.CountDigitsFallback` | Front-end/Exam_Paper_and_Question_Bank_Management_System/fmt/format.h:1050-1063 | the division loop counts the decimal digits |
| `DecimalIO.DoCountDigits64` | Front-end/Exam_Paper_and_Question_Bank_Management_System/fmt/format.h:1073-1089 | so does the table over the bit length for 64-bit numbers |
| `DecimalIO.DoCountDigits32` | Front-end/Exam_Paper_and_Question_Bank_Management_System/fmt/format.h:1122-1142 | and the table with the carry trick for 32-bit numbers |
| `DecimalIO.DecimalTextReads` | Front-end/Exam_Paper_and_Question_Bank_Management_System/fmt/format.h:1214-1236 | the decimal text reads back as the number and has no leading zero |
| `DecimalIO.DecimalTextUnique` | Front-end/Exam_Paper_and_Question_Bank_Management_System/fmt/format.h:1214-1236 | and is the only such text |
| `DecimalIO.FormatDecimal` | Front-end/Exam_Paper_and_Question_Bank_Management_System/fmt/format.h:1214-1236 | writes exactly this text right-aligned in place, returns its beginning and changes nothing else |
| `DecimalIO.ParseNonnegativeInt` | Front-end/Exam_Paper_and_Question_Bank_Management_System/fmt/core.h:2336-2356 | stops at the end of the digits and returns the number or the error value, despite the wrapping accumulator |
| `DecimalIO.ParseInvertsFormat` | Front-end/Exam_Paper_and_Question_Bank_Management_System/fmt/core.h:2336-2356 | reading what was written gives the number back, up to the largest int |
| `DecimalIO.ParsedRight` | Front-end/Exam_Paper_and_Question_Bank_Management_System/fmt/core.h:2346-2355 | the result is the number's exactly unless more than ten digits denote a number that an int can hold |
| `DecimalIO.LeadingZerosRejected` | Front-end/Exam_Paper_and_Question_Bank_Management_System/fmt/core.h:2346-2355 | ten or more leading zeros before any digit are such a case |
| `Grouping.Locale.Next` | Front-end/Exam_Paper_and_Question_Bank_Management_System/fmt/format.h:1942-1950 | the position grows by the next group, or is the largest int at a stop value and without a separator |
| `Grouping.Locale.CountSeparators` | Front-end/Exam_Paper_and_Question_Bank_Management_System/fmt/format.h:1963-1968 | counts the group boundaries inside the number; the loop terminates |
| `Grouping.Locale.Apply` | Front-end/Exam_Paper_and_Question_Bank_Management_System/fmt/format.h:1971-1990 | writes the digits with a separator at each boundary; both loops terminate |
| `Grouping.Locale.DigitsKept` | Front-end/Exam_Paper_and_Question_Bank_Management_System/fmt/format.h:1931-1991 | the length is digits plus count_separators, taking the separators out gives the digits back, and none comes first |
| `Grouping.Locale.SeparatorsPlaced` | Front-end/Exam_Paper_and_Question_Bank_Management_System/fmt/format.h:1931-1991 | the j-th separator from the right has exactly the digits of the j rightmost groups behind it, and none is missing |
| `Grouping.Locale.SeparatedEverywhere` | Front-end/Exam_Paper_and_Question_Bank_Management_System/fmt/format.h:1931-1991 | with all sizes from 1 to 126 the separators are exactly the boundaries of all groups inside the number, the last size repeating |
| `Grouping.Locale.SeparatedUpTo` | Front-end/Exam_Paper_and_Question_Bank_Management_System/fmt/format.h:1942-1950 | a size of 0 or less, or 127, after g others ends the grouping: the separators are exactly the boundaries of the first g groups |
| `Utf8.DecodeRight` | Front-end/Exam_Paper_and_Question_Bank_Management_System/fmt/format.h:603-639 | no error exactly for a sequence well-formed under section 4 of RFC 3629, and then its code point and length |
| `Utf8.DecodeIsCall` | Front-end/Exam_Paper_and_Question_Bank_Management_System/fmt/format.h:645-651 | reading zeros past the end finds the same sequences |
| `Utf8.TailCodepoints` | Front-end/Exam_Paper_and_Question_Bank_Management_System/fmt/format.h:661-671 | the padded buffer is never left and the rest of the string is walked as by the specification |
| `Utf8.ForEachCodepoint` | Front-end/Exam_Paper_and_Question_Bank_Management_System/fmt/format.h:643-672 | the block loop and the tail make the calls of the simple walk, up to the call at which the callback stops; no read is outside string or padding |
| `Utf8.NeverStopping` | Front-end/Exam_Paper_and_Question_Bank_Management_System/fmt/format.h:643-672 | a callback that never stops sees the whole walk |
| `Utf8.WalkSplits` | Front-end/Exam_Paper_and_Question_Bank_Management_System/fmt/format.h:643-672 | the views are non-empty and concatenate to the string, with a code point exactly for the well-formed ones |
| `Utf8.CallsRead` | Front-end/Exam_Paper_and_Question_Bank_Management_System/fmt/format.h:643-672 | every call is right for its place: a well-formed sequence is taken whole, and where none starts one byte is an error |
| `Utf16.SequenceEncodes` | Front-end/Exam_Paper_and_Question_Bank_Management_System/fmt/chrono.h:371-386 | encoding the code point of a well-formed sequence gives the sequence |
| `Utf16.EncodedIsSequence` | Front-end/Exam_Paper_and_Question_Bank_Management_System/fmt/chrono.h:371-386 | and every scalar value is encoded as a sequence for it |
| `Utf16.Recombines` | Front-end/Exam_Paper_and_Question_Bank_Management_System/fmt/chrono.h:369 | the one constant recombines surrogates as section 2.2 of RFC 2781 does |
| `Utf16.SurrogateSums` | Front-end/Exam_Paper_and_Question_Bank_Management_System/fmt/format-inl.h:1443-1445 | the surrogates are those of section 2.1 of RFC 2781 |
| `Utf16.Utf8ToUtf16` | Front-end/Exam_Paper_and_Question_Bank_Management_System/fmt/format-inl.h:1437-1450 | the buffer holds the UTF-16 form and a zero, or an exception is thrown exactly for malformed input |
| `Utf16.EncodeUnits` | Front-end/Exam_Paper_and_Question_Bank_Management_System/fmt/chrono.h:358-390 | encodes the code points of the units as UTF-8 or fails exactly if there is an unpaired surrogate or no scalar value |
| `Utf16.ConversionsInverse` | Front-end/Exam_Paper_and_Question_Bank_Management_System/fmt/format-inl.h:1437-1450 | a string converts to UTF-16 text exactly if encoding the text gives the string back |
| `IsoWeek.YearLength` | Front-end/Exam_Paper_and_Question_Bank_Management_System/fmt/chrono.h:1017-1025 | the day count adds the length of each year |
| `IsoWeek.WeekDateUnique` | Front-end/Exam_Paper_and_Question_Bank_Management_System/fmt/chrono.h:1031-1044 | a day has at most one week date |
| `IsoWeek.WeekOfThursday` | Front-end/Exam_Paper_and_Question_Bank_Management_System/fmt/chrono.h:1031-1044 | a week belongs to the year of its Thursday |
| `IsoWeek.CenturiesMean` | Front-end/Exam_Paper_and_Question_Bank_Management_System/fmt/chrono.h:1019-1024 | the truncated sums are weekdays of 1 January for years from 0 on |
| `IsoWeek.YearWeeksRight` | Front-end/Exam_Paper_and_Question_Bank_Management_System/fmt/chrono.h:1017-1026 | the number of weeks is the calendar's for every year from 0 on, and always 52 before |
| `IsoWeek.WeekDateRight` | Front-end/Exam_Paper_and_Question_Bank_Management_System/fmt/chrono.h:1027-1044 | the week year and week are the day's week date under ISO 8601 exactly unless the day is in week 53 of a year before 0 |
| `IsoWeek.WeekDateWrong` | Front-end/Exam_Paper_and_Question_Bank_Management_System/fmt/chrono.h:1017-1044 | a day in week 53 of year -2 that comes out in week 1 of year -1 |
| `FormatString.ParseArgId` | Front-end/Exam_Paper_and_Question_Bank_Management_System/fmt/core.h:2404-2440 | the argument id: automatic, an index or a name, and where it ends |
| `FormatString.ParseReplacementField` | Front-end/Exam_Paper_and_Question_Bank_Management_System/fmt/core.h:2634-2671 | one replacement field, or escaped brace, with all its errors |
| `FormatString.ParseShort` | Front-end/Exam_Paper_and_Question_Bank_Management_System/fmt/core.h:2680-2700 | the simple loop refines the specification |
| `FormatString.WriteText` | Front-end/Exam_Paper_and_Question_Bank_Management_System/fmt/core.h:2701-2715 | the text between fields, its closing braces undoubled |
| `FormatString.ParseLong` | Front-end/Exam_Paper_and_Question_Bank_Management_System/fmt/core.h:2716-2723 | so does the two-pass search: same calls up to empty texts, same end state, same error |
| `FormatString.ParseFormatString` | Front-end/Exam_Paper_and_Question_Bank_Management_System/fmt/core.h:2674-2724 | both paths together, for strings of any length |
| `FormatString.ParseMeans` | Front-end/Exam_Paper_and_Question_Bank_Management_System/fmt/core.h:2674-2724 | the result is that of reading the string character by character |
| `FormatString.DoubledRoundTrip` | Front-end/Exam_Paper_and_Question_Bank_Management_System/fmt/core.h:2674-2724 | formatting any text with its braces doubled gives the text |
| `FormatPieces.Characters` | Front-end/Exam_Paper_and_Question_Bank_Management_System/fmt/core.h:2399-2401 | a name begins with a letter or underscore and goes on with these and digits |
| `FormatPieces.FieldMeans` | Front-end/Exam_Paper_and_Question_Bank_Management_System/fmt/core.h:2634-2671 | {id} uses the argument it names: the next one, the one at the index up to the largest int, or the one with exactly that name |
| `FormatPieces.SpecsMean` | Front-end/Exam_Paper_and_Question_Bank_Management_System/fmt/core.h:2652-2664 | {id: hands that argument and the place after the colon to the specifiers |
| `FormatPieces.UnreadFails` | Front-end/Exam_Paper_and_Question_Bank_Management_System/fmt/core.h:2404-2440 | anything else after a brace is an error, with the message for where it goes wrong |
| `FormatPieces.PiecesRoundTrip` | Front-end/Exam_Paper_and_Question_Bank_Management_System/fmt/core.h:2674-2724 | parsing the written form of any sequence of texts and fields makes the calls for them in order |
| `OutputBuffer.IteratorBuffer.Flush` | Front-end/Exam_Paper_and_Question_Bank_Management_System/fmt/core.h:982-986 | passes on what the limit allows and counts all |
| `OutputBuffer.IteratorBuffer.TryReserve` | Front-end/Exam_Paper_and_Question_Bank_Management_System/fmt/core.h:924-929 | afterwards there is room for one more element |
| `OutputBuffer.IteratorBuffer.PushBack` | Front-end/Exam_Paper_and_Question_Bank_Management_System/fmt/core.h:931-934 | one more element has been written |
| `OutputBuffer.IteratorBuffer.Append` | Front-end/Exam_Paper_and_Question_Bank_Management_System/fmt/format.h:770-782 | all elements have been written; the chunk loop always progresses |
| `OutputBuffer.IteratorBuffer.Out` | Front-end/Exam_Paper_and_Question_Bank_Management_System/fmt/core.h:995-998 | the iterator has received the first elements up to the limit |
| `OutputBuffer.Deliver` | Front-end/Exam_Paper_and_Question_Bank_Management_System/fmt/core.h:970-1000 | any sequence of calls delivers exactly the first min(limit, total) elements in order, and count is the total |
| `OutputBuffer.PointerBuffer.Flush` | Front-end/Exam_Paper_and_Question_Bank_Management_System/fmt/core.h:1016-1023 | leaves the target for the local buffer |
| `OutputBuffer.DeliverInPlace` | Front-end/Exam_Paper_and_Question_Bank_Management_System/fmt/core.h:1002-1046 | the same for the specialisation that writes in place |
| `OutputBuffer.LostAfterOut` | Front-end/Exam_Paper_and_Question_Bank_Management_System/fmt/core.h:1016-1042 | what is written after out has been called there is counted but not delivered: the target keeps the elements from before, which are all that should be there exactly if nothing was written then or the limit had been reached |
| `Catalogue.QuestionBank.Insert` | Back-end/question_bank.cpp:75-106 | adds a row unless its key is there or SQLite fails, an empty subject stored as undefined |
| `Catalogue.Server.AddSubject` | Back-end/server_unencrypted.cpp:687-730 | the step of the specification; 200 exactly if the table has a new row |
| `Catalogue.SubjectAppears` | Back-end/server_unencrypted.cpp:687-730 | a new subject gets its marker row, its place in the cache and one in the count |
| `Catalogue.Server.AddChapter` | Back-end/server_unencrypted.cpp:732-786 | the same for a chapter of an existing subject |
| `Catalogue.ChapterAppears` | Back-end/server_unencrypted.cpp:732-786 | an unseen chapter of an existing subject gets exactly its marker row, in table and cache |
| `Catalogue.MarkersOnly` | Back-end/server_unencrypted.cpp:687-786 | otherwise these two requests change nothing; marker, cache entry and count change together |
| `Catalogue.Server.WriteQuestion` | Back-end/server_unencrypted.cpp:846-898 | the step of the specification; 200 exactly if an update is carried out, or an insert for an existing chapter |
| `Catalogue.QuestionSaved` | Back-end/server_unencrypted.cpp:846-898 | a question answered 200 reads back as it was sent; every other row keeps its content, an update keeps the set of rows, an insert is for a new row, and any other answer leaves the table alone |
| `Catalogue.SavedThenDeleted` | Back-end/server_unencrypted.cpp:846-915 | saving a new question and deleting it gives the table there was |
| `Catalogue.Server.DeleteQuestion` | Back-end/server_unencrypted.cpp:900-915 | removes the row and answers 200 exactly if a transaction was open |
| `Catalogue.DeleteAnswers` | Back-end/question_bank.cpp:295-317 | a deletion removes its row and no other; the answer says nothing about the row: 404 after a deletion or a successful change, 200 after a query |
| `Catalogue.Server.GetSubjects` | Back-end/server_unencrypted.cpp:601-644 | fills the counter once; in a consistent state it is the number of subjects listed |
| `Catalogue.SubjectsListed` | Back-end/server_unencrypted.cpp:601-644 | the subjects listed and counted are those of the rows, without the placeholder |
| `Catalogue.StepKeeps` | Back-end/server_unencrypted.cpp:687-915 | a request keeps the invariant of markers, caches and counter exactly if it is not one of the harmful ones |
| `Catalogue.RunsConsistent` | Back-end/server_unencrypted.cpp:601-915 | it holds after every run from an empty table without nameless or reserved subjects and without deletions at the reserved path, whatever the existence checks miss and whichever statements fail |
| `Catalogue.ExclusionsNeeded` | Back-end/question_bank.cpp:84 | three runs that break it, one for each exclusion |
| `Catalogue.RestartConsistent` | Back-end/server_unencrypted.hpp:161-164 | empty caches in front of a consistent table are consistent |
| `Catalogue.Serve` | Back-end/server_unencrypted.cpp:601-915 | a server object that handles such a run ends in a consistent state |
| `JsonEscape.Form.EscapeJsonString` | Front-end/Exam_Paper_and_Question_Bank_Management_System/ownInterface.h:18-35 | the in-place loop terminates and escapes every character by itself |
| `JsonEscape.Form.DecodesBack` | Back-end/server_unencrypted.hpp:78-92 | decoding gives the text back, in the server's and the client's form |
| `JsonEscape.Form.EscapedInjective` | Back-end/server_unencrypted.hpp:78-92 | different texts are escaped differently |
| `JsonEscape.Form.PlainUnchanged` | Front-end/Exam_Paper_and_Question_Bank_Management_System/ownInterface.h:18-35 | a text comes out unchanged exactly if it has no newline, no backslash and, for the client, no quote |
| `JsonEscape.Form.EscapedIsBody` | Front-end/Exam_Paper_and_Question_Bank_Management_System/ownInterface.h:18-35 | the result is a string body under section 7 of RFC 8259 exactly if newline is the only control character and, for the server's form, there is no quote |

## Left out

- Bigints.Bigint.Square: requires fewer than 2^30 bigits, so that twice their number fits the source's int; the same bound limits the exponents of assign_pow10.
- FormatFloat.FormatFloat: zero, negative, infinite and long double values, the shortest form of doubles and the final layout with sign and point are not part of it.
- Dragon.FormatDragon: the bits of a float are not taken apart; significand, exponent and the closer-predecessor flag are inputs.
- Grouping.Locale.Apply: numbers of more than INT_MAX - 127 digits, for which the position could overflow, are excluded, and a locale with a separator has at least one group.
- FormatString.ParseFormatString: the handler is a record of functions over an abstract state; format specifiers are read by the handler, so parse_format_specs itself is not modelled.
- Utf16.EncodeUnits: the conversion of the locale's bytes into code units comes before it.
- Catalogue.QuestionBank.Insert: SQLite statements are atomic operations on a finite map; a BEGIN or END that the database refuses, statements not reset and the text of the SQL are not modelled. A row's rubric is always zero and is dropped.
- Catalogue.Serve: requests are handled one after the other; the parallel dispatch loop and its data races are left out, and so are the user table, sessions and bulletins.
- The capacity of strings and buffers and the width of their size types, except where stated.
- Uninitialised memory after a resize, which is written before it is read.
- Shifts of uint128_fallback, hexadecimal, octal and binary output, and Dragonbox with its tables.
- Locale facets, colour, printf, compile-time format compilation, ranges and file output.
- Qt dialogs, sockets, epoll, TLS, MongoDB, and the glaze and nlohmann JSON libraries.
- The encrypted server, which is a near copy of the one modelled.
