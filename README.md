# as-bigfloat in Dafny

A model of `BigFloat`, the arbitrary-precision decimal type of polywrap's
as-bigfloat (AssemblyScript), with proofs about it.

A `BigFloat` is an exact decimal `mantissa * 10^e`. The mantissa is an integer
of the external `as-bigint` library and `e` is an `i32`. The model covers:

- the digit-string helpers `trimLeadingZeros` and `trimTrailingZeros`;
- the readers `fromString` and `fromFraction`;
- the writers `toString` (which truncates), `toFixed` (which rounds under the
  three `Rounding` policies) and `toSignificant`, plus `floor` and `ceil`
  built on them;
- the comparison `compareTo` with its textual magnitude comparison
  `magCompareTo` and the six comparison operators;
- exact `add`, `sub` and `mul`, the precision-padded `div`, `normalize` and
  the exponent-aligning loop `mulBigIntPowTen`.

No method of the class changes its receiver, so `BigFloat` is a datatype
(`bigfloat.dfy`). The numeric meaning is stated with integers: `Units(x, f)`
counts `x` in units of `10^f` on any grid `f <= e`. `SameValue` and
`LessValue` compare two values on the finer of their two grids.

The source's loops are methods proved against reference functions:

- `TrimLeadingZeros` and `TrimTrailingZeros` against `WithoutLeadingZeros` and `WithoutTrailingZeros`;
- `MulBigIntPowTen` against `ScaledUp`;
- `ToString` against `Rendered`;
- `MagCompareTo` and its digit loop `CompareDigits` against `MagnitudeOrder` and `FractionOrder`.

The functions are tied in turn to the numeric meaning by lemmas: what a
rendering reads back as, the rounding a policy performs, and when the
comparison agrees with the order of the numbers.

The backend integer (`as-bigint`) is modelled in `bigints.dfy`:

- `BigInt.toString` is `IntToString`: an optional `-` and canonical digits.
- `BigInt.fromString` is `ParseInt`: an optional `-` and a non-empty run of
  decimal digits, anything else `None`.
- `BigInt.div` is `Quot`: division truncated toward zero, written out.
- `countBits` is `BitLength`.

A string the backend refuses makes `FromString` return `Err(MalformedNumber)`.
A zero divisor makes `Div` and `FromFraction` return `Err(DivisionByZero)`.

Modules, in dependency order:

- `Outcomes` (`outcomes.dfy`): Option, Result, errors.
- `Digits` (`digits.dfy`): powers of ten, digit strings.
- `BigInts` (`bigints.dfy`): the backend.
- `Text` (`text.dfy`): indexOf, padStart/padEnd, substr, charAt.
- `BigFloats` (`bigfloat.dfy`): the value type.
- `Trimming` (`trimming.dfy`).
- `Parsing` (`parsing.dfy`).
- `Rendering` (`rendering.dfy`).
- `RoundTrip` (`roundtrip.dfy`).
- `Formatting` (`formatting.dfy`): toFixed, floor, ceil.
- `Significance` (`significant.dfy`): toSignificant.
- `Arithmetic` (`arithmetic.dfy`).
- `Ordering` (`ordering.dfy`).
- `ReadWriteCases` (`readwrite.dfy`): cases from the read/write tests.

## Model

| member | source | states |
|---|---|---|
| Trimming.TrimLeadingZeros | assembly/BigFloat.ts:51-59 | the loop returns a suffix r of str: everything removed is '0' (str == Zeros(k) + r), and r is empty or does not start with '0' |
| Trimming.TrimTrailingZeros | assembly/BigFloat.ts:61-69 | the loop returns a prefix r of str: everything removed is '0' (str == r + Zeros(k)), and r is empty or does not end with '0' |
| Trimming.LeadingShape | assembly/BigFloat.ts:51-59 | the reference trim removes only '0's, and what it keeps does not start with '0' |
| Trimming.TrailingShape | assembly/BigFloat.ts:61-69 | the reference trim removes only '0's at the end, and what it keeps does not end with '0' |
| Trimming.TrailingIdempotent | assembly/BigFloat.ts:61-69 | trimming trailing zeros twice is trimming once |
| Trimming.TrailingOfPadded | assembly/BigFloat.ts:61-69 | zeros appended to a string are all removed by the trim |
| Trimming.LeadingDigits | assembly/BigFloat.ts:51-59 | dropping leading zeros keeps a digit string a digit string and keeps its value |
| Trimming.TrailingDigits | assembly/BigFloat.ts:61-69 | dropping k trailing zeros divides the value of a digit string by exactly 10^k |
| Trimming.LeadingEmpty | assembly/BigFloat.ts:51-59 | a digit string trims to "" exactly when it is all zeros (value 0) |
| Trimming.TrailingEmpty | assembly/BigFloat.ts:61-69 | a digit string trims to "" at the end exactly when it is all zeros |
| Trimming.LeadingFirstKept | assembly/BigFloat.ts:51-59 | the loop stops at the first character that is not '0' |
| Trimming.TrailingLastKept | assembly/BigFloat.ts:61-69 | the loop stops at the last character that is not '0' |
| Trimming.ZerosDropped | assembly/BigFloat.ts:51-59 | zeros in front of a string not led by '0' are all removed and nothing else is |
| Parsing.FromString | assembly/BigFloat.ts:23-47 | every successfully read value has exponent at most 0 |
| Parsing.FromStringInteger | assembly/BigFloat.ts:33-35 | a literal without '.' reads as its signed integer value with exponent 0 |
| Parsing.FromStringSplits | assembly/BigFloat.ts:24-45 | a literal with '.' is split at it into integer and fraction digits, the sign stripped first |
| Parsing.FromDecimalValue | assembly/BigFloat.ts:36-45 | for digits with a non-zero payload the read succeeds; counted in units of 10^-\|fp\| the value is exactly the signed number the digits spell; the exponent is minus the length of the fraction without trailing zeros |
| Parsing.FromStringDecimal | assembly/BigFloat.ts:23-47 | the same for the whole literal -ip.fp: fromString yields exactly the number written |
| Parsing.FromStringAllZeros | assembly/BigFloat.ts:36-45 | a literal with '.' whose digits are all zeros leaves an empty payload and is refused (MalformedNumber) |
| Parsing.PayloadValue | assembly/BigFloat.ts:37-44 | the trimmed payload, scaled back by the dropped fraction zeros, has the value of the untrimmed digits |
| Parsing.PayloadEmpty | assembly/BigFloat.ts:37-44 | the trimmed payload is empty exactly when all the digits are zeros |
| Parsing.ParsePayload | assembly/BigFloat.ts:40-46 | a non-empty digit payload reads as its signed value with exponent minus the trimmed fraction's length |
| Rendering.ToString | assembly/BigFloat.ts:80-130 | the method, with the source's branches and reassignments, returns exactly the reference rendering Rendered |
| Rendering.SmallBlankRendered | assembly/BigFloat.ts:102-109 | a value below 1 that cuts to zero, or precision 0, renders "0", or "0." and precision zeros when fixed |
| Rendering.SmallFixedText | assembly/BigFloat.ts:110-118 | a value below 1 renders in fixed mode as sign, "0.", and the digits padded to -e then cut and padded to precision |
| Rendering.SmallTrimmedText | assembly/BigFloat.ts:110-118 | the same without fixed, with trailing zeros trimmed |
| Rendering.LargeWholeText | assembly/BigFloat.ts:120-122 | at precision 0 a value of at least 1 renders as its sign and the first L + e digits |
| Rendering.LargeFixedText | assembly/BigFloat.ts:120-128 | at precision p > 0, fixed: sign, the first L + e digits, '.', the next p digits padded to p |
| Rendering.LargeTrimmedText | assembly/BigFloat.ts:120-128 | the same without fixed: the fraction is trimmed, and "0" when nothing remains |
| Rendering.PositiveText | assembly/BigFloat.ts:96-100 | with e > 0 the text is the sign, then only '0' up to the width L + e, so the backend reads its integer part as 0; then ".0", or '.' and p zeros when fixed |
| Rendering.TruncatedBounds | assembly/BigFloat.ts:80-130 | the rendered magnitude at p places is \|x\| cut toward zero to a multiple of 10^-p, with the sign of x when it is not zero |
| RoundTrip.RenderCanonical | assembly/BigFloat.ts:23-47 | reading -ip.fp with a non-zero payload and writing it back (precision at least \|fp\|) gives the canonical spelling: integer part without leading zeros or "0", fraction without trailing zeros or "0" |
| RoundTrip.RenderedParse | assembly/BigFloat.ts:80-130 | reading back the fixed rendering at p places recovers exactly the value cut to p places |
| RoundTrip.ParseCutExact | assembly/BigFloat.ts:23-47 | a cut value written with p fraction digits and no trailing zero reads back with the same mantissa and exactly p places |
| RoundTrip.ZeroRendered | assembly/BigFloat.ts:82-109 | a value that cuts to zero renders "0", or "0." and p zeros when fixed (also for p = 0 when the mantissa is zero); it has no minus sign |
| RoundTrip.CanonicalFraction | assembly/BigFloat.ts:113-126 | canonical integer and fraction digits, cut to p places, render back to themselves |
| RoundTrip.RenderInteger | assembly/BigFloat.ts:23-47 | an integer literal reads and prints back (precision > 0) as its digits without leading zeros and ".0", or "0" when all its digits are zeros |
| Formatting.ToFixed | assembly/BigFloat.ts:132-155 | the method, following the source's steps, returns FixedText: the value rounded under the policy to p places with exactly p fraction digits |
| Formatting.Candidate | assembly/BigFloat.ts:145-151 | the re-read text of toString(p + 1, true) moved by ten units of the last place: its mantissa is the cut value plus or minus 10, with p + 1 places |
| Formatting.LastPlace | assembly/BigFloat.ts:138-139 | the last character of toString(p + 1, true) is a digit, the digit of \|x\| at place p + 1 (0 for a zero mantissa or a positive exponent) |
| Formatting.KeptFixed | assembly/BigFloat.ts:135-154 | under ROUND_DOWN, or when that digit is 0, or below 5 under ROUND_HALF_UP, the result is toString(p, true) |
| Formatting.CarriedFixed | assembly/BigFloat.ts:144-154 | otherwise rendering the moved candidate at p places gives the cut value one unit of 10^-p further from zero, carries included |
| Formatting.CarryParse | assembly/BigFloat.ts:145 | toString(p + 1, true) reads back as the value cut to p + 1 places, with p + 1 places |
| Formatting.CarryRendered | assembly/BigFloat.ts:147-154 | the cut value at p + 1 places moved by ten units renders at p places as the cut at p places moved by one unit |
| Formatting.HalfUpNearest | assembly/BigFloat.ts:141 | ROUND_HALF_UP keeps the multiple of 10^-p nearest to \|x\|, a tie going away from zero |
| Formatting.FixedTextParse | assembly/BigFloat.ts:132-155 | toFixed's text reads back as exactly the rounded value, counted in units of 10^-p |
| Formatting.NegativeCarryExample | assembly/__tests__/BigFloat_read_write.spec.ts:137-143 | -.002523527 to 2 places under ROUND_UP is "-0.01" |
| Formatting.NegativeToZeroExample | assembly/__tests__/BigFloat_read_write.spec.ts:144 | -.002523527 to 0 places under ROUND_UP is "0": the digit after the cut is 0, so the cut is kept |
| Formatting.RoundUpMissesLaterDigits | assembly/BigFloat.ts:139-142 | ROUND_UP of 0.001 to one place gives "0.0": only the one digit after the cut is looked at; RoundedAway, the least multiple of 10^-p not below \|x\|, would give "0.1" |
| Formatting.RoundedAwayCovers | assembly/BigFloat.ts:132-155 | rounding away from zero on every later digit (RoundedAway, the reference for the one-digit ROUND_UP) gives the least multiple of 10^-p not below \|x\| |
| Formatting.Floor | assembly/BigFloat.ts:183-185 | floor always reads back; it is x cut toward zero to an integer, and 0 for a positive exponent |
| Formatting.FloorText | assembly/BigFloat.ts:183-185 | the backend reads toString(0) as that integer |
| Formatting.Ceil | assembly/BigFloat.ts:187-189 | a zero mantissa hands "0." to the backend (MalformedNumber); a positive exponent gives 0; otherwise x rounded away from zero to an integer on the one-digit rule |
| Formatting.CeilText | assembly/BigFloat.ts:187-189 | what the backend reads from toFixed(0, ROUND_UP) in the three cases |
| Formatting.CeilOfNegative | assembly/BigFloat.ts:187-189 | ceil(-1.5) is -2, below the ceiling -1 |
| Formatting.CeilingLeast | assembly/BigFloat.ts:187-189 | the intended ceiling is the least multiple of 10^-p not below x |
| Formatting.FloorOfNegative | assembly/BigFloat.ts:183-185 | floor(-1.5) is -1, above the floor -2 |
| Formatting.FlooringGreatest | assembly/BigFloat.ts:183-185 | the intended floor is the greatest multiple of 10^-p not above x |
| Significance.SignificantOfZeroCut | assembly/BigFloat.ts:157-173 | for a value that cuts to zero, toSignificant is toFixed with the places the source derives from the rendering "0" |
| Significance.SignificantFraction | assembly/BigFloat.ts:161-173 | when the request reaches the fraction, toSignificant(sd) is toFixed(sd - W), W the count of integer digits |
| Significance.SignificantLayout | assembly/BigFloat.ts:161-171 | the rendering toSignificant inspects starts with the sign and the integer digits, then '.'; the source's count of integer digits is exactly W |
| Significance.CountOfHead | assembly/BigFloat.ts:162-171 | the index of '.' less the sign and a lone "0" counts the integer digits |
| Significance.WholePathTaken | assembly/BigFloat.ts:171-180 | with fewer digits requested than the integer part has, the whole-number path runs on a text that begins with the sign and the integer digits |
| Significance.SignificantTotal | assembly/BigFloat.ts:157-181 | for exponents at most 0, toSignificant never fails. toSignificant is modelled by the functions `ToSignificant`, `IntegerDigitCount` (the digit count read off the '.') and `WholeNumberPath` (lines 171-180); what the whole-number path rereads is digits, '.' and a digit with a non-zero payload |
| Significance.ExtraDigitParses | assembly/BigFloat.ts:177-178 | the text "<first sd characters>.<next character>" of a rendering that starts with the sign and digits not led by '0' reads back |
| Significance.SignificantPositiveFails | assembly/BigFloat.ts:157-181 | for e > 0, toSignificant fails exactly under ROUND_HALF_UP or ROUND_UP with 0 < sd below the L + e - \|sign\| integer places, and then with MalformedNumber |
| Significance.PositiveCount | assembly/BigFloat.ts:161-171 | for e > 0 the '.' sits at L + e and the count of integer digits is L + e less the sign, or 0 for "-0.0" |
| Significance.ZerosReread | assembly/BigFloat.ts:23-47 | a signed run of zeros with the fraction "0" has an empty payload and reads as MalformedNumber |
| Significance.SignificantWholeRounded | assembly/BigFloat.ts:177-180 | for a positive value, ROUND_HALF_UP and ROUND_UP give the leading digits rounded on the first dropped digit, padded with '0' to the width of the integer part |
| Significance.SignificantWholeAgrees | assembly/BigFloat.ts:171-180 | for a positive value whose rounded leading digits do not carry into an extra digit, toSignificant gives the intended text under every policy |
| Significance.SignificantWholeDown | assembly/BigFloat.ts:175-176 | for a positive value ROUND_DOWN gives the integer part cut down to a multiple of 10^k, k the dropped digits |
| Significance.SignificantSignLostDown | assembly/BigFloat.ts:175-176 | for a negative value the cut counts the '-' as a digit: "-" and sd - 1 digits, then W + 1 - sd zeros |
| Significance.SignificantSignLost | assembly/BigFloat.ts:175-176 | -12 to one significant digit, ROUND_DOWN, gives "-00"; the intended text is "-10" |
| Significance.SignificantSignLostRounded | assembly/BigFloat.ts:177-178 | for a negative value, ROUND_HALF_UP and ROUND_UP reread "-", sd - 1 digits, '.' and the sd-th digit: the leading sd digits as a number u, with its last digit dropped and rounded on, written as the integer -Q ("0" when Q is 0) and padded with '0' to W + 1 characters |
| Significance.SignificantSignLostHalfUp | assembly/BigFloat.ts:177-178 | -12 to one significant digit, ROUND_HALF_UP, gives "000"; the intended text is "-10" |
| Significance.SignificantCarryLost | assembly/BigFloat.ts:177-180 | 9999 to two significant digits, ROUND_HALF_UP, gives "1000"; the intended text is "10000" |
| Significance.SignificantWholeValue | assembly/BigFloat.ts:171-180 | the intended whole-number text is the sign and Q * 10^k, and Q * 10^k is the integer part rounded to a multiple of 10^k as each of the three policies says |
| Significance.LeadingCutRounds | assembly/BigFloat.ts:177-180 | keeping leading digits and rounding on the first dropped digit gives a multiple of 10^k: the integer part cut down (ROUND_DOWN), the nearest with ties up (ROUND_HALF_UP), or the least not below the integer part with the digits after the first dropped one cleared (ROUND_UP) |
| Significance.LeadingCutUp | assembly/BigFloat.ts:177-180 | the ROUND_UP cut Q * 10^k is the least multiple of 10^k not below the integer part with its digits after the first dropped one cleared |
| Arithmetic.MulBigIntPowTen | assembly/BigFloat.ts:288-295 | the loop of steps of at most 10^8 returns m * 10^k, and m itself when k <= 0 |
| Arithmetic.Add | assembly/BigFloat.ts:299-312 | add returns Sum: the two mantissas aligned on the smaller exponent and added |
| Arithmetic.Sub | assembly/BigFloat.ts:314-327 | sub returns Difference, the same with subtraction |
| Arithmetic.AlignedOnCommonGrid | assembly/BigFloat.ts:299-327 | the result exponent is min(e1, e2); the mantissa is the sum or difference of the operands counted on that grid |
| Arithmetic.SumExact | assembly/BigFloat.ts:299-312 | on every grid at or below both exponents the sum is exactly the sum of the values |
| Arithmetic.DifferenceExact | assembly/BigFloat.ts:314-327 | the same for the difference |
| Arithmetic.SubUndoesAdd | assembly/BigFloat.ts:299-327 | (x + y) - y has the value of x |
| Arithmetic.SumRespectsValue | assembly/BigFloat.ts:299-312 | adding y to equal values gives equal values |
| Arithmetic.Mul | assembly/BigFloat.ts:329-334 | the product has exponent e1 + e2, is zero exactly when an operand is, and is negative exactly when it is non-zero and the operands have opposite signs |
| Arithmetic.MulExact | assembly/BigFloat.ts:329-334 | the product's exponent is e1 + e2 and its value is exactly the product of the values |
| Arithmetic.Normalized | assembly/BigFloat.ts:71-76 | normalizing keeps the value, raises the exponent by the stripped zeros and leaves a mantissa not divisible by 10 |
| Arithmetic.Normalize | assembly/BigFloat.ts:71-76 | the method, through the mantissa's string and the trailing-zero trim, returns Normalized |
| Arithmetic.Div | assembly/BigFloat.ts:336-351 | a zero divisor gives Err(DivisionByZero); otherwise Ok of the quotient |
| Arithmetic.FromFraction | assembly/BigFloat.ts:17-21 | numerator and denominator as exponent-0 values divided with precision 32; a zero denominator gives Err(DivisionByZero) |
| Arithmetic.QuotientShape | assembly/BigFloat.ts:338-350 | the quotient is the truncated quotient of the padded dividend at exponent e1 - e2 - padding, normalized when it exceeds 384 bits |
| Arithmetic.QuotientCount | assembly/BigFloat.ts:341-350 | on the grid e1 - e2 - padding the quotient counts exactly the truncated integer quotient, normalized or not |
| Arithmetic.QuotientTruncates | assembly/BigFloat.ts:341-350 | that count u satisfies \|u\| * \|d\| <= \|m\| * 10^padding < (\|u\| + 1) * \|d\|, with the sign of the exact quotient, and padding >= minPrecision |
| Arithmetic.QuotientPrecision | assembly/BigFloat.ts:341-348 | for non-zero operands the quotient has at least minPrecision significant digits on that grid |
| Arithmetic.QuotientOfZero | assembly/BigFloat.ts:336-351 | a zero dividend gives a zero mantissa |
| Ordering.MagCompareTo | assembly/BigFloat.ts:236-284 | the method (renderings at 1000 places, integer parts, then the digit loop) returns MagnitudeOrder |
| Ordering.CompareDigits | assembly/BigFloat.ts:271-283 | the digit loop returns FractionOrder: the first differing digit decides, else the difference of the lengths, unclamped |
| Ordering.MagnitudeSplitOrder | assembly/BigFloat.ts:254-283 | for magnitudes cut to p places, the integer comparison then the fraction-text comparison has the sign of their difference |
| Ordering.FractionTextOrder | assembly/BigFloat.ts:258-283 | comparing the trimmed fraction texts orders the fractions by value |
| Ordering.FractionOrderPrefix | assembly/BigFloat.ts:271-283 | when one fraction text is a prefix of the other, the result is the difference of the lengths |
| Ordering.RenderedMagnitude | assembly/BigFloat.ts:237-269 | from a rendering with e <= 0, magCompareTo reads the integer part of the cut magnitude and its trimmed fraction |
| Ordering.MagnitudeOrderTruncated | assembly/BigFloat.ts:236-284 | for e <= 0, magCompareTo has the sign of the difference of the magnitudes cut to 1000 places |
| Ordering.EqualToPrecision | assembly/BigFloat.ts:236-284 | two non-negative values equal to 1000 places compare equal |
| Ordering.CompareToValue | assembly/BigFloat.ts:193-284 | for exponents from -1000 to 0, lt, eq and gt agree with the order of the numbers |
| Ordering.CompareToUnits | assembly/BigFloat.ts:223-284 | for exponents from -1000 to 0, compareTo has the sign of the difference of the two values counted in units of 10^-1000 |
| Ordering.CompareTo | assembly/BigFloat.ts:223-234 | a negative value compares below a non-negative one as -1, a non-negative one above a negative one as 1, and a value compares equal to itself |
| Ordering.MagnitudeOrderAntisymmetric | assembly/BigFloat.ts:236-284 | swapping the operands negates magCompareTo |
| Ordering.CompareToAntisymmetric | assembly/BigFloat.ts:223-234 | swapping the operands negates compareTo |
| Ordering.TextOrderAntisymmetric | assembly/BigFloat.ts:254-283 | the comparison of two renderings is antisymmetric |
| Ordering.Eq | assembly/BigFloat.ts:193-196 | eq holds exactly when compareTo with the operands swapped is 0: eq is symmetric |
| Ordering.Ne | assembly/BigFloat.ts:198-201 | ne is lt or gt, and holds exactly when compareTo with the operands swapped is not 0 |
| Ordering.Lt | assembly/BigFloat.ts:203-206 | lt(x, y) holds exactly when compareTo(y, x) is positive: lt mirrors gt |
| Ordering.Lte | assembly/BigFloat.ts:208-211 | lte is not gt, and lte(x, y) holds exactly when compareTo(y, x) is at least 0 |
| Ordering.Gt | assembly/BigFloat.ts:213-216 | gt(x, y) holds exactly when compareTo(y, x) is negative |
| Ordering.Gte | assembly/BigFloat.ts:218-221 | gte is not lt, and gte(x, y) holds exactly when compareTo(y, x) is at most 0 |
| Ordering.PositiveExponentAsZero | assembly/BigFloat.ts:236-284 | with e > 0 toString (lines 96-97) writes no digits, so magCompareTo treats the value as zero |
| Ordering.PositiveExponentBelow | assembly/BigFloat.ts:236-284 | every positive value with e > 0 compares below every positive value with exponent from -1000 to 0 |
| Ordering.PositiveExponentMisordered | assembly/BigFloat.ts:236-284 | 5 * 10^1 compares below 1 although it is the larger number |
| Ordering.CompareIntendedValue | assembly/BigFloat.ts:223-284 | with a positive exponent's digits written, compareTo agrees with the order of the numbers for every exponent from -1000 up |
| BigFloats.IsNegative | assembly/BigFloat.ts:356-358 | isNegative holds exactly when the value is below zero |
| BigFloats.CompareOnGrid | assembly/BigFloat.ts:299-334 | equality and order of values can be read on any common grid |
| BigInts.ParseIntToString | assembly/BigFloat.ts:72-75 | the backend reads its own integer text back as the same integer |
| BigInts.Quot | assembly/BigFloat.ts:347 | truncating division: \|q\| * \|d\| <= \|n\| < (\|q\| + 1) * \|d\|, and a non-zero q has the sign of n / d |
| ReadWriteCases.LeadingZerosDropped | assembly/__tests__/BigFloat_read_write.spec.ts:28-30 | "000100.12" prints "100.12" |
| ReadWriteCases.MissingIntegerDigit | assembly/__tests__/BigFloat_read_write.spec.ts:52-54 | "-.0000454" prints "-0.0000454" |
| ReadWriteCases.IntegerLiteral | assembly/__tests__/BigFloat_read_write.spec.ts:48-50 | "00000325723500000" prints "325723500000.0" |
| ReadWriteCases.SignificantRoundedUp | assembly/__tests__/BigFloat_read_write.spec.ts:202 | "32523523.2523527" to 5 significant digits under ROUND_UP or ROUND_HALF_UP is "32524000" |

## Left out

- The `as-bigint` backend is not part of this model. Its integers are Dafny `int`; `toString`, `fromString`, `div` and `countBits` are the functions named above. Its `add`, `sub`, `mul`, `mulInt` and `magCompareTo` are the integer operators.
- `i32` widths: exponents, precisions and `10 ** mulVal` are unbounded integers. Overflow of `e1 - e2 - padding`, `e + 1` or `precision + 2` is not modelled.
- Precision, decimal-place and significant-digit arguments are `nat`. Negative values are left undefined by the source and are excluded by the type.
- Default arguments (precision 18, `ROUND_HALF_UP`, `minPrecision` 32) are explicit parameters. `ReadWriteCases.DefaultPrecision` and the 32 in `FromFraction` are the defaults.
- A rounding argument other than 0, 1 or 2 behaves like `ROUND_UP` in `toFixed`. The model has only the three named policies.
- The static forwarding wrappers and the `@operator` sugar (assembly/BigFloat.ts:366-404) are not modelled. The named members are the instance methods.
- `copy()` (assembly/BigFloat.ts:360-362) is not modelled: under value semantics a copy is the value itself.
- The constructor (assembly/BigFloat.ts:12-15) is the datatype constructor.
- The field write on the fresh local in `toFixed` (assembly/BigFloat.ts:148-150) is the method `Formatting.Candidate`, which returns a new value.
- The backend's behaviour on an empty payload is unknown. `fromString("0.0")` and `ceil()` of zero hand it "" and "0." respectively. The model returns `Err(MalformedNumber)`, so `ToSignificant` and `Ceil` return a `Result`.
- `Arithmetic.Div` and `Arithmetic.FromFraction` return `Err(DivisionByZero)` for a zero divisor. The source has no guard there and leaves it to the backend.
- `Ordering.DigitOf` reads any character that is not a digit as 0. `I32.parseInt` is only ever applied to digits there.
- Ordering.CompareToValue: agreement with the order of the numbers is stated for exponents from -1000 to 0 only. A positive exponent renders without its digits, and below -1000 the rendering at 1000 places loses digits.
- Ordering.MagnitudeOrderTruncated: stated for exponents at most 0 only, for the same reason.
- Significance.SignificantWholeValue: for ROUND_UP the multiple is the least one not below the integer part with its digits after the first dropped one cleared, not the least one not below the integer part itself. The source looks only at the first dropped digit, as toFixed does (see Formatting.RoundUpMissesLaterDigits).
- Parsing.FromString: the numeric reading is stated for well-formed literals (`-`, digits, optionally `.` and digits). Other inputs reach the backend parser, which refuses them.

## Findings

| source | as written | input that shows it | evidently intended | confidence | as-written member | corrected member |
|---|---|---|---|---|---|---|
| assembly/BigFloat.ts:175-176 | the ROUND_DOWN whole-number path cuts the first sd characters of the text, which include the '-' of a negative value | -12, toSignificant(1, ROUND_DOWN) gives "-00" | "-10": the sign and the leading sd digits, padded with zeros | not executed | Significance.SignificantSignLost | Significance.SignificantWholeValue |
| assembly/BigFloat.ts:177-178 | the ROUND_HALF_UP and ROUND_UP whole-number path also cuts the first sd characters, '-' included, so it rounds on the sd-th digit with sd - 1 kept, and a result of zero loses the sign | -12, toSignificant(1, ROUND_HALF_UP) gives "000"; -325, toSignificant(2, ROUND_HALF_UP) gives "-300" | "-10" and "-330": the sign and the leading sd digits rounded, padded with zeros | not executed | Significance.SignificantSignLostHalfUp | Significance.SignificantWholeValue |
| assembly/BigFloat.ts:177-180 | the rounded digits are padded back to the old position of '.', so a carry that adds a digit loses a zero | 9999, toSignificant(2, ROUND_HALF_UP) gives "1000" | "10000" | not executed | Significance.SignificantCarryLost | Significance.SignificantWholeValue |
| assembly/BigFloat.ts:187-189 | ceil is toFixed(0, ROUND_UP), which rounds away from zero; with floor cutting toward zero, the two form an away-from-zero/toward-zero pair rather than a ceiling and a floor | -1.5, ceil() gives -2 | -1, the least integer not below x | not executed | Formatting.CeilOfNegative | Formatting.CeilingLeast |
| assembly/BigFloat.ts:183-185 | floor reads toString(0), which cuts toward zero, so it agrees with a floor only for values not below zero | -1.5, floor() gives -1 | -2, the greatest integer not above x | not executed | Formatting.FloorOfNegative | Formatting.FlooringGreatest |
| assembly/BigFloat.ts:96-97 | with e > 0, toString pads the sign with zeros and never writes the mantissa's digits, so magCompareTo sees zero | 5 * 10^1 compares below 1 | compareTo agrees with the order of the numbers | not executed | Ordering.PositiveExponentMisordered | Ordering.CompareIntendedValue |
