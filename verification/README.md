# a68lean runtime and front end: a verified model

A Dafny model of the decidable core of the Algol 68 compiler a68lean: the C runtime's
arithmetic, heap, rows, formatting and transput patterns, the reader of LLVM's stack maps,
and two passes of the Lean front end. Each module says what one component computes and
proves it for all inputs; the imperative components are methods and classes with the
source's own loops and state, proved against specification functions whose meaning is then
proved in lemmas.

| module | component |
|---|---|
| Arith, Options, Sequences | shared arithmetic facts, the option type, sequences without repetition |
| Limbs, Magnitude, Shifts, LongDivision, Decimal, BigInt | arbitrary-precision integers (csrc/bigint.c) |
| Radix, MpKernel, MpMul, MpCompare, MpDivide, MpStrings | radix-10^7 multi-precision numbers (csrc/mp.c) |
| DecNum, FixedFormat, FixedWidth, FloatFormat, FixedRead | exact decimals; `whole`, `fixed` and `float`, and what their texts show (csrc/fmt.c) |
| Heap, Programs, ProgramLaws, Runs | allocator and mark-sweep collector; what programs do, with and without it (csrc/rt.c) |
| Rows, Slices, CopyOnWrite, ValueRuns, ValueLaws | row descriptors, slices, shared stores; programs on rows (csrc/rt.c) |
| Pictures, PictureWalk | format pictures and their traversal (csrc/io.c) |
| IntegralPattern, PatternInsertions, SignedInsertions | integral patterns, printed and read (csrc/io.c) |
| StackMapFormat, StackMap | LLVM stack maps, version 3, and their parser (csrc/stackmap.c) |
| Modes, Coerce, CoerceLaws | modes, equivalence and coercion (A68/Elab.lean, csrc/tables.c) |
| Refinements, RefinementText | refinement expansion (A68/Lexer.lean) |

Main results, one per component:

* `LongDivision.MagDivMod` and `BigInt.BigDivMod`: Algorithm D of Knuth (The Art of Computer
  Programming, volume 2, section 4.3.1) is truncated division. Machine words are subset types,
  so every assignment to one is an obligation that the C expression does not wrap; the places
  that wrap on purpose use `Wrap64`.
* `MpMul.MpMul`, `MpCompare.MpEq`, `MpLt`, `MpGt`, `MpDivide.DivLoop`: truncated products with
  delayed carries stay within a stated bound, and at every moment below 2^53 exactly up to 92
  digits (`MpMul.ExactIff`); sums, differences and products are rounded by the rule of
  `MpKernel.RoundingRule`; comparison by rounded subtraction decides the exact order; long division
  is quotient times divisor plus residue for any estimates, up to what falls past the scratch.
* `MpStrings.StringDenotes`, `ReadersAgree`: the number read from a denotation is the one
  written, cut towards zero, and the two readers agree on integers.
* `FixedRead.FixedShows`, `FloatShows`, `FixedWidth.FixedFillsField`: read as text, what is printed
  is the correctly rounded number, in a field of exactly the width asked for.
* `Runs.Execute`: whatever objects, frames and rows a program makes, reads and writes, whatever
  roots it keeps and however often the heap is collected on the way, its roots and all it can
  reach are what `Programs.IdealRun`, a pure fold over the same operations that never collects,
  gives, up to the names of objects. `ProgramLaws` says what those operations are: a value read is
  the one last written to that cell of that object or frame.
* `ValueRuns.Execute`: whatever rows share, borrow or copy on write, over any run of operations
  every row and name holds what it holds when each row has a store of its own
  (`ValueRuns.PlainRun`), assignments between overlapping parts of one row included. `ValueLaws` says
  what those operations are, element by element, and `Slices.SliceBounds` what a slice has.
* `PictureWalk.Formats.NextPattern`: the traversal of embedded formats is a walk of the inlined
  format. `IntegralPattern.PrintReadRoundTrip`, `PatternInsertions.InsertionsTransparent`: what is
  read back of a number printed with a pattern, without and with insertions.
* `StackMap.Parser.StackmapInit`, `FindRec`: parsing inverts the encoding, and never reads
  outside the section whatever the bytes.
* `Coerce.CoercionWellTyped`, and in `CoerceLaws` which coercions are inserted;
  `Refinements.ApplyRefinements`, and in `RefinementText` what a program written with refinements
  stands for.

Where a promise fails, the model keeps the code's behaviour and says exactly when:

* `fixed` of width 0 gives up a place, or prints a star, exactly when the number plus
  half a unit of the last place is a power of ten from 1 on, from 10 on if no places are asked for
  (`FixedWidth.FixedAuto`, `NineAndAHalf`).
* A difference of multi-precision numbers gets a first digit of R, out of range, exactly when the
  aligned magnitudes differ by R * (R^n - 1) - R / 2, which occurs at every precision
  (`MpCompare.OverExactly`, `MpSub`, `DifferenceOutOfRange`).
* The header of csrc/mp.c promises scratch values below 2^53: multiplication keeps it for all
  operands exactly up to 92 digits, because a zero digit of the multiplier also skips the
  normalisation due at its row (`MpMul.ExactIff`, `NotAlwaysExact`).
* A zero printed all blank, and a number under a plus frame, do not read back; a zero under `z`
  frames alone before a plus frame loses its sign, the field is one character short, and the
  reader takes the next character of the file (`IntegralPattern.PrintReadRoundTrip`,
  `LostMeans`, `LostSignRead`).
* Insertions make no difference to what is read back unless a newline is blanked with the zeros
  before it, or an insertion stands between a sign frame and the sign
  (`PatternInsertions.InsertionsTransparent`). For a blanked newline the reader skips the rest of
  the line; if no newline is printed behind it, the number is read back exactly when none is
  blanked (`NewlinesExactly`, `LaterNewlines`). Between a sign frame and the sign, an insertion of
  marks that is printed makes the text no integer, and a blanked one costs a number its sign if
  the sign frame comes first (`SignedInsertions.SignedInsertionsRead`, `CommaRead`,
  `SignDropped`).
* Copying a row within its own store gives the source's elements exactly when none is written
  before it is read (`CopyOnWrite.CopyExactly`).
* A denotation whose digits do not fit the precision is read as invalid
  (`MpStrings.DenotationRead`).
* The comment above rounding in csrc/mp.c names the rule after Gauss; a tie adds two to an even
  digit and one to an odd one, so the error bound is three halves of the last place
  (`MpKernel.RoundError`).

Conventions: a method's precondition is what the source's callers guarantee; errors that end
the program are results or a Boolean; `old` states are compared through specification
functions (`Val`, `Values`, `Left`, `Shown`). A parameter marked `ghost good` lets one method
carry two contracts: memory safety for all bytes, and the full result for well-formed ones.

## Model

| member | source | states |
|---|---|---|
| Limbs.ValConcat | csrc/bigint.c:13-16 | the value of limbs side by side: little-endian, radix 2^32 |
| Limbs.TrimmedUnique | csrc/bigint.c:38-43 | without leading zero limbs a value has one representation |
| Magnitude.MagCmp | csrc/bigint.c:54-63 | the comparison of trimmed magnitudes is that of their values, lengths compared first |
| Magnitude.MagAdd | csrc/bigint.c:65-77 | value of the result is the sum; no 64-bit intermediate wraps |
| Magnitude.MagSub | csrc/bigint.c:79-88 | value of the result is the difference of a larger and a smaller magnitude, although the 64-bit subtraction wraps on borrows |
| Magnitude.MulRow | csrc/bigint.c:94-100 | one row: the window at i becomes itself plus x times the multiplicand; product, old limb and carry fit 64 bits |
| Magnitude.MagMul | csrc/bigint.c:90-102 | value of the result is the product |
| Magnitude.MagMulAddSmall | csrc/bigint.c:104-115 | in place a*k + c, at most one limb longer, still trimmed; no 64-bit wrap |
| Magnitude.MagDivSmall | csrc/bigint.c:117-128 | in place quotient by one limb and the remainder below it; the rest of the array stays |
| LongDivision.CountLeadingZeros | csrc/bigint.c:130-135 | the shift that brings the top bit of a non-zero limb to the top; 32 for zero |
| Shifts.ShlVal | csrc/bigint.c:146-151 | shifting limbs up by s < 32 bits, with bits moving in from below, multiplies by 2^s, the bits leaving the top limb included |
| Shifts.ShrExact | csrc/bigint.c:188-189 | shifting an exact multiple of 2^s down divides it |
| LongDivision.Estimate | csrc/bigint.c:155-163 | the estimate-and-correct loop ends with min(2^32 - 1, floor(u2u1u0 / v1v0)); no product or remainder in its test wraps |
| LongDivision.QhatBounds | csrc/bigint.c:155-163 | for a normalised divisor that estimate is the true digit or one more: U - qhat*V lies strictly between -V and V, so one add-back is enough |
| LongDivision.MulSub | csrc/bigint.c:164-176 | multiply-and-subtract on the window, and the sign read off the wrapped top word: negative exactly when qhat*V exceeds the window |
| LongDivision.AddBack | csrc/bigint.c:176-186 | adding the divisor back, the carry out of the window dropped |
| LongDivision.DivideDigit | csrc/bigint.c:153-187 | one turn: window = digit * divisor + new window, new window below the divisor |
| LongDivision.Denormalise | csrc/bigint.c:188-189 | the remainder shifted back is exact |
| LongDivision.MagDivMod | csrc/bigint.c:137-192 | Knuth's Algorithm D: u = q*v + r with 0 <= r < v for every dividend and every divisor of two or more limbs with a non-zero top limb |
| BigInt.Unique | csrc/bigint.c:38-43 | a value is determined, limb for limb and sign, by the integer it denotes |
| BigInt.BigTrim | csrc/bigint.c:38-43 | leading zeros dropped, zero never negative, the integer kept |
| BigInt.AddSigned | csrc/bigint.c:264-283 | sum of the signed magnitudes, whichever of the four sign cases |
| BigInt.BigAdd | csrc/bigint.c:285 | integer addition |
| BigInt.BigSub | csrc/bigint.c:286 | integer subtraction |
| BigInt.BigMul | csrc/bigint.c:288-293 | integer multiplication, zero normalised |
| BigInt.BigCmp | csrc/bigint.c:341-346 | -1, 0, 1 as the integers compare |
| BigInt.BigNeg | csrc/bigint.c:355 | the negated integer, zero still not negative |
| BigInt.BigAbs | csrc/bigint.c:356 | the absolute value |
| BigInt.BigDivMod | csrc/bigint.c:302-323 | no result exactly for a zero divisor; otherwise a = q*b + r, abs(r) < abs(b), r zero or signed like a, on the short, the one-limb and the long path |
| BigInt.TruncatedUnique | csrc/bigint.c:302-323 | that equation has one solution: the quotient is the truncated one |
| BigInt.BigFromDec | csrc/bigint.c:205-219 | the integer denoted by an optional sign and the leading digits, reading stopping at the first other character; the limb array never overflows |
| BigInt.SpellChunk | csrc/bigint.c:229-237 | the nine digits of one chunk, least significant first, the last chunk without leading zeros; the buffer of ten characters a limb suffices |
| BigInt.BigToDec | csrc/bigint.c:221-247 | the canonical decimal notation |
| BigInt.DecRoundTrip | csrc/bigint.c:205-247 | writing then reading gives the same value limb for limb |
| Decimal.ParseOfDecString | csrc/bigint.c:205-247 | canonical notation denotes the integer it was made from |
| Decimal.NatStringOfVal | csrc/bigint.c:221-247 | every digit string without leading zeros is the canonical notation of its value |
| Decimal.ReverseIsNatString | csrc/bigint.c:238-243 | digits collected backwards without a leading zero reverse to canonical notation |
| BigInt.BigPow10 | csrc/bigint.c:325-334 | 10^n, and 1 for negative n; nine digits a step stay within the array |
| Refinements.FindProgramEnd | A68/Lexer.lean:369-379 | the first point before a definition, unless a point at the end of the text comes first |
| Refinements.ParseDefs | A68/Lexer.lean:381-397 | the definitions when the rest of the text is exactly well-formed definitions with different names; otherwise the first error with its position, and there is no such reading |
| Refinements.DefinitionsUnique | A68/Lexer.lean:381-397 | a text has at most one reading as definitions |
| Refinements.FirstStep | A68/Lexer.lean:402-421 | a step of the substitution stack makes exactly the next application of the depth-first reading, cyclic texts included |
| Refinements.FirstOfExpansion | A68/Lexer.lean:402-421 | where recursive substitution ends its applications are that reading |
| Refinements.StepForward | A68/Lexer.lean:402-421 | a step of the stack machine keeps what the stack still expands to |
| Refinements.Substitute | A68/Lexer.lean:398-423 | the stack machine ends; success is recursive substitution with every definition applied once, "applied more than once" names the first repeated application, "not applied" the first definition the finished expansion lacks |
| Refinements.ApplyRefinements | A68/Lexer.lean:365-425 | a text without refinements is unchanged; otherwise success exactly when the recursive expansion exists and applies every refinement once, the result being that expansion and the end mark; the error reported is the first thing wrong |
| Refinements.ExpandsUnique | A68/Lexer.lean:365-425 | there is at most one expanded program |
| Refinements.ExpandedLength | A68/Lexer.lean:398-425 | length of the result: main tokens and all bodies less the number of refinements (the end mark comes on top) |
| Refinements.CyclicRejected | A68/Lexer.lean:402-421 | a program from which a refinement leading back to itself is reached has no expansion |
| Refinements.UnreachableRejected | A68/Lexer.lean:422-423 | nor has one with a refinement that no path from the main text reaches |
| RefinementText.WrittenIsRead | A68/Lexer.lean:365-397 | a main text, a point, and refinements written as name, colon, text, point are read as just these |
| RefinementText.ExpandReplaces | A68/Lexer.lean:398-423 | what a text expands to is reached by replacing names by their texts, as many as are applied, and no name is left |
| RefinementText.WrittenStandsFor | A68/Lexer.lean:365-425 | such a program stands for its main text with names replaced as many times as there are refinements, until none is left |
| MpKernel.CarryAt | csrc/mp.c:163-177 | one carry leaves a digit and keeps the value, for positive and negative entries |
| MpKernel.NormDigits | csrc/mp.c:179-183 | the loop is the carry applied from last down to k: the value is kept, digits are left from k to last, and outside k - 1 to last nothing changes |
| MpKernel.NormBounded | csrc/mp.c:179-183 | entries between 0 and M <= C*(R - 1) stay so at every moment of the carrying, up to the carry C coming in |
| MpKernel.GaussianRounding | csrc/mp.c:187-194 | adds to the last kept entry what the tie rule says: two on an even digit, one on an odd one, one above a tie, nothing below (RoundingRule) |
| MpKernel.RoundingRule | csrc/mp.c:187-194 | the rounded scratch is the scratch cut off where the first dropped digit is below R / 2, one more where it is above, and at R / 2 two more on an even number and one more on an odd one |
| MpKernel.RoundedNearest | csrc/mp.c:187-194 | so off a tie the number rounded to is less than half a unit away |
| MpKernel.RoundInternal | csrc/mp.c:185-206 | the result digits are the rounded scratch with its exponent, no carried digit lost |
| MpKernel.RoundedResult | csrc/mp.c:185-206 | as a number: the result is the scratch rounded by that rule to as many digits as it has |
| MpKernel.IntoNearest | csrc/mp.c:185-206 | and off a tie the error is below half of its last place |
| MpKernel.RoundError | csrc/mp.c:185-206 | rounding moves the value down by less than half and up by at most three halves of the last kept place |
| MpKernel.RoundedBound | csrc/mp.c:187-196 | the rounded number never passes the next power: R - 1 is odd, so a tie on it adds one |
| MpKernel.RoundedValue | csrc/mp.c:185-206 | what a rounded result is worth relative to its scratch |
| MpKernel.CheckExp | csrc/mp.c:148-154 | whether the exponent is within bounds, the bound itself admitted for a leading digit of at most one |
| MpMul.AddRow | csrc/mp.c:379-385 | the row loop is AddedFrom: each product of the multiplier digit is added once, from the right |
| MpMul.AddedIs | csrc/mp.c:379-385 | what a row adds at every moment: the digit product at each place reached, and in value the digit times the digits reached |
| MpMul.RowsLoss | csrc/mp.c:378-387 | the truncated scratch T and exact product P: 0 <= P - T <= max(0, digs - 2) * (R - 1) units of place digs + 2 |
| MpMul.MulScratch | csrc/mp.c:375-387 | the scratch is exactly Scratch(xs, ys): rows of zero digits skipped, the normalisation of every 44th row skipped with them; digits, and the sum of the rows |
| MpMul.ScratchSum | csrc/mp.c:375-386 | after any number of rows the scratch is their sum, no entry above as many largest products as rows were added since all but every 44th |
| MpMul.AlwaysExact | csrc/mp.c:366-387 | up to 92 digits every entry of the scratch at every moment, between any two writes of rows and carries, is below 2^53 |
| MpMul.NotAlwaysExact | csrc/mp.c:366-387 | from 93 digits on the multiplier with zeros just where the scratch would be normalised passes 2^53 |
| MpMul.ExactIff | csrc/mp.c:1-6 | so the promise that every scratch value is below 2^53 holds for all operands exactly up to 92 digits |
| MpMul.ProductRoundsInRange | csrc/mp.c:387-388 | a product using the first scratch entry is never rounded up to a power of R |
| MpMul.MpMul | csrc/mp.c:364-393 | finite operands: zero exactly for a zero operand, otherwise digits in range, the value within the truncation and rounding bounds of the product (of Scratch), the product's sign, and an error exactly when the exponent is out of bounds |
| MpCompare.AlignedSum | csrc/mp.c:261-269 | digit sums or differences of the operands, the one with the smaller exponent moved right and cut off |
| MpCompare.AddMagnitude | csrc/mp.c:272-283 | the rounded sum of the aligned magnitudes, digits in range |
| MpCompare.CutDecidesOrder | csrc/mp.c:261-269 | cutting off the moved operand does not change which magnitude is larger, whatever the exponent gap |
| MpCompare.MakePositive | csrc/mp.c:294-301 | the scratch negated exactly when its value is negative |
| MpCompare.SubMagnitude | csrc/mp.c:286-314 | the sign of the rounded difference is the sign of the exact one, zero only for equal magnitudes; its digits are in range exactly unless it rounds over |
| MpCompare.RoundedDifference | csrc/mp.c:302-310 | after moving left, the difference rounds to zero only when it is zero |
| MpCompare.OverExactly | csrc/mp.c:185-206 | the rounded difference passes R^n exactly when the aligned magnitudes differ by R*(R^n - 1) - R/2 |
| MpCompare.DifferenceOutOfRange | csrc/mp.c:185-206 | at every precision two numbers differ by the amount that rounds to the digit R, out of range |
| MpCompare.MpSub | csrc/mp.c:335-350 | finite operands: the sign of x - y is exact; the value is the aligned magnitudes combined and rounded, or the other operand's for a zero; digits in range exactly unless it rounds over; an error exactly when the exponent is out of bounds, which cannot occur away from them |
| MpCompare.CombinedClose | csrc/mp.c:261-269 | the aligned magnitudes combined are less than one unit of the place behind the last from the exact difference |
| MpCompare.MpEq | csrc/mp.c:771-779 | equality of the denoted values, infinities and not-a-number included, whenever no error is reported |
| MpCompare.MpLt | csrc/mp.c:781-790 | less-than of the denoted values, likewise |
| MpCompare.MpGt | csrc/mp.c:792-801 | greater-than of the denoted values, likewise |
| MpCompare.OrderIs | csrc/mp.c:771-801 | the order these decide: infinities below and above all else, finite numbers by exact value at a common exponent |
| MpDivide.DivDigitLoop | csrc/mp.c:471-490 | for any quotient-digit estimates and carry interval: dividend = divisor * quotient digits + residue; carries leave the quotient's value as that of the estimates |
| MpDivide.QuotientIsFloor | csrc/mp.c:471-490 | the quotient digits are the true quotient exactly when the residue is a remainder |
| MpDivide.DivideStep | csrc/mp.c:509-521 | one step of the long loop keeps the identity with the divisor digits actually subtracted |
| MpDivide.DivLoop | csrc/mp.c:495-526 | after the whole loop, for any estimates: dividend = quotient * divisor - what falls past the scratch + residue, the quotient the value of the estimates, which the final carries keep; exact when the divisor has digits at its first place only |
| MpDivide.TakenIs | csrc/mp.c:509-518 | what the loop subtracts is at each step the estimate times the whole divisor, moved k places and cut off at the end of the scratch, when the divisor's digits in use are among the first nz |
| MpDivide.TakenMeans | csrc/mp.c:509-518 | together with what is cut off that is the number the estimates make, times the divisor |
| MpDivide.PastSmall | csrc/mp.c:509-518 | what is cut off is at most the sum of the estimates, in units of the last place |
| MpDivide.NothingPast | csrc/mp.c:509-518 | nothing is cut off if the divisor has digits at its first place only |
| MpStrings.AlignMp | csrc/mp.c:815-834 | divides the mantissa by exactly 10^shift where 7e + 6 - shift = expo and 0 <= shift <= 6 |
| MpStrings.ReadMantissa | csrc/mp.c:953-970 | the significant digits, packed in groups of seven from the left, read until the digits are full |
| MpStrings.ReadExponent | csrc/mp.c:971-987 | the exponent and whether the text ends with it |
| MpStrings.ExponentSays | csrc/mp.c:971-987 | letter, blanks, sign and digits to the end of the text are the signed exponent, and valid |
| MpStrings.StringToMp | csrc/mp.c:942-1002 | digits, exponent, sign, validity and exponent error of the number read from any text |
| MpStrings.DenotationRead | csrc/mp.c:942-1002 | a denotation with leading zeros, point and exponent is read as valid exactly when its digits fit, and then with all its digits and its own exponent |
| MpStrings.StringDenotes | csrc/mp.c:942-1002 | what StringToMp makes of a denotation: valid exactly when its digits fit, and then digits and exponent denote the number written, cut towards zero; that very number exactly when alignment drops only zeros |
| MpStrings.MpOfDecString | csrc/mp.c:855-881 | exact reading of an integer: an error exactly for other characters, too many digits or a large exponent, otherwise its digits |
| MpStrings.ReadersAgree | csrc/mp.c:855-1002 | an integer both readers take, of up to 7*digs digits, is valid for both, with the same digits and exponent |
| DecNum.AlignMeans | csrc/fmt.c:115-120 | aligned mantissas add and subtract exactly |
| DecNum.Cmp | csrc/fmt.c:146-151 | the order of the denoted numbers |
| DecNum.FloorNat | csrc/fmt.c:157-171 | the integer part, 0 for a negative number |
| FixedFormat.ChooseDig | csrc/fmt.c:336-349 | the next decimal digit of a number below one and the exact rest |
| FixedFormat.CountPlaces | csrc/fmt.c:359-368 | the digits before the point, and the number shifted below one |
| FixedFormat.FixedDigitsExact | csrc/fmt.c:351-389 | up to 70 digits, what is printed is floor(x * 10^after + 1/2) digit for digit |
| FixedFormat.SubFixed | csrc/fmt.c:354-389 | those digits with the point `after` places from the right, digits beyond the seventieth zero; error characters exactly when they do not fit, the last length test never firing |
| FixedWidth.MeasureAuto | csrc/fmt.c:398-418 | the room measured for width 0, one digit short exactly when the number plus half a unit of the last place is a power of ten from 1 on (from 10 on if after is 0) |
| FixedWidth.FixedDec | csrc/fmt.c:391-436 | the field, with the most places after the point that fit |
| FixedRead.FixedShows | csrc/fmt.c:391-436 | read as text, after blanks and the sign, minus exactly for a negative number, an unstarred field has the digits of the number rounded at exactly the places kept, the point before the last of these |
| FixedRead.DigitBefore | csrc/fmt.c:425-429 | a field with a blank to spare has a digit before the point |
| FixedWidth.FixedFillsField | csrc/fmt.c:391-436 | with a width the field is filled exactly, stars included |
| FixedWidth.FixedStarsIff | csrc/fmt.c:391-436 | stars exactly when `after` leaves no room or the number rounded to an integer needs too much |
| FixedWidth.MostPlaces | csrc/fmt.c:391-436 | a place more than is kept would leave no room for the digits before the point |
| FixedWidth.StarsThroughout | csrc/fmt.c:317-436 | a number that does not fit is shown as stars and nothing else |
| FixedWidth.FixedAuto | csrc/fmt.c:393-436 | width 0: all places asked for, one fewer exactly when the number plus half a unit of the last place is a power of ten from 1 on (from 10 on if after is 0), a star only if there was none to give up |
| FixedWidth.NineAndAHalf | csrc/fmt.c:393-436 | fixed(9.5, 0, 0) is a star |
| FixedWidth.WholeFillsField | csrc/fmt.c:317-332 | the field is filled exactly; stars exactly when digits and sign exceed the width |
| FixedWidth.WholeRoundTrip | csrc/fmt.c:317-332 | what is printed without stars reads back as the number |
| FloatFormat.ScaleDown | csrc/fmt.c:447-456 | divides by ten until below 10^before, keeping y * 10^q |
| FloatFormat.ScaleUp | csrc/fmt.c:457-468 | multiplies by ten until at least 10^(before-1), keeping y * 10^q |
| FloatFormat.Standardize | csrc/fmt.c:440-481 | mantissa and exponent become the normal form; both loops end |
| FloatFormat.NormalMeans | csrc/fmt.c:440-481 | 10^(before-1) <= z < 10^before, z plus half a unit is still below 10^before, and z * 10^q is the number or, exactly when rounding would overflow, the next power of ten |
| FloatFormat.OverflowMeans | csrc/fmt.c:469-477 | the overflow test is that rounding at `after` places reaches 10^before |
| FloatFormat.Align | csrc/fmt.c:500-507 | the exponent lowered to a multiple of frmt, the number kept |
| FloatFormat.FloatDec | csrc/fmt.c:489-555 | the retry loop ends (first `after`, then the width left for the exponent shrinks) with the field specified |
| FloatFormat.FirstFit | csrc/fmt.c:508-552 | the text is that of the first attempt that fits: all before it had an exponent width of zero or printed stars |
| FloatFormat.SensibleIs | csrc/fmt.c:492-495 | an attempt has room for sign, point, places, exponent and at least one digit; else the stars |
| FloatFormat.TriedMeans | csrc/fmt.c:518-548 | the attempt after m others asks for m characters more for the exponent, and for at least m places fewer |
| FloatFormat.FloatFillsField | csrc/fmt.c:489-555 | with a width the field is filled exactly, stars included; width 0 gives one star |
| FloatFormat.FloatIsAttempt | csrc/fmt.c:489-555 | without stars the text is one attempt's, with no more places and no narrower exponent than asked for |
| FloatFormat.PrintedMeans | csrc/fmt.c:489-555 | mantissa times the power of ten printed is the number, or the power of ten it rounds up to; the exponent reads back and is a multiple of frmt |
| FixedRead.FloatShows | csrc/fmt.c:489-555 | read as text, mantissa and exponent show the number rounded to the last place printed, halves up, or the power of ten it is rounded up to; for frmt 1 with all places of the attempt and no blank in front |
| FixedRead.ZeroShows | csrc/fmt.c:440-555 | zero is shown as zero with exponent zero |
| Heap.ReachableStays | csrc/rt.c:768-784 | a closed set holding the roots holds everything reachable |
| Heap.TakeKeeps | csrc/rt.c:68-86 | the first block of a size class's list becomes an object; every block stays accounted for once |
| Heap.MallocKeeps | csrc/rt.c:68-86 | a fresh block becomes an object, its size recorded modulo 2^32 |
| Heap.ReleaseKeeps | csrc/rt.c:88-95 | a dead object goes to the list of its own class |
| Heap.FreeKeeps | csrc/rt.c:88-95 | a dead object too large for the classes leaves the heap |
| Heap.SameReachable | csrc/rt.c:768-784 | where contents agree on a closed set, the same is reachable |
| Heap.Store.ObjAlloc | csrc/rt.c:68-86 | an object with zeroed fields and room for n bytes, never null, never one in use or reachable before |
| Heap.Store.Scan | csrc/rt.c:775-782 | pushes exactly the unmarked objects that o points to |
| Heap.Store.PushRoots | csrc/rt.c:769-773 | pushes operand stack, environment, saved environments and further roots |
| Heap.Store.GcMark | csrc/rt.c:768-784 | ends with exactly the reachable objects marked and the worklist empty |
| Heap.Store.DropShares | csrc/rt.c:802-807 | each dead counted descriptor gives one share back to a surviving store, nothing else changes counts |
| Heap.Store.ObjRelease | csrc/rt.c:88-95 | the block is put in front of its class's list or leaves the heap |
| Heap.Store.Unlink | csrc/rt.c:808-819 | the unmarked objects leave the list in place, the rest keep their order, marks are cleared |
| Heap.Store.GcSweep | csrc/rt.c:801-821 | exactly the marked objects remain with their contents, marks cleared, free lists holding dead blocks of their class only |
| Heap.Store.GcCollect | csrc/rt.c:841-856 | exactly the reachable objects remain, and they keep their contents |
| Heap.Store.FrameAlloc | csrc/rt.c:199-206 | a frame of undefined cells inside the current environment, not reachable before |
| Heap.Store.Enter | csrc/rt.c:942-946 | the new frame becomes the environment |
| Heap.Store.Leave | csrc/rt.c:970 | the environment outside becomes current |
| Heap.Store.EnvSet | csrc/rt.c:898-906 | the current environment is saved and replaced |
| Heap.Store.EnvRestore | csrc/rt.c:911-914 | the saved environment comes back |
| Heap.Store.RowAlloc | csrc/rt.c:361-386 | a descriptor over a store, which counts one share more unless it is borrowed |
| Heap.Store.Unborrow | csrc/rt.c:388-394 | a borrow that is kept counts as a share from then on |
| Heap.CountedSwept | csrc/rt.c:801-821 | after a sweep the share counts of the surviving stores still cover the surviving descriptors |
| Runs.Collection | csrc/rt.c:841-856 | exactly the reachable objects remain, with their contents, the roots unchanged and the share counts still covering |
| Programs.StepMirrored | csrc/rt.c:361-394 | every operation of a program, objects, frames, rows, borrows, environments and further roots, has the same effect on two heaps that mirror each other |
| Programs.SameObjects | csrc/rt.c:768-784 | two heaps that mirror each other reach the same objects, under other names |
| Runs.Step | csrc/rt.c:898-971 | one operation on the collected heap is After: the object made, the cell written, the roots moved, and nothing else, or for a collection only what cannot be reached |
| Runs.Run | csrc/rt.c:750-856 | a run ends in the state the pure run of the same operations reaches without ever collecting, up to the names of objects |
| Runs.Execute | csrc/rt.c:750-856 | any program from an empty heap: what it can reach at the end, roots and contents, is what IdealRun of its operations gives |
| ProgramLaws.PutWrites | csrc/rt.c:1074-1075 | writing a value of the stack to cell k of an object or of the frame d levels out puts it into that cell; no other cell, object or root changes |
| ProgramLaws.PutRefused | csrc/rt.c:208-213 | without such a cell the state stays (the program ends there) |
| ProgramLaws.GetReads | csrc/rt.c:1058-1064 | reading pushes what the cell holds |
| ProgramLaws.GetAfterPut | csrc/rt.c:1058-1075 | after a write the cell written reads as the value put, every other cell of every object as before |
| ProgramLaws.OuterIs | csrc/rt.c:208-213 | the frame d levels out is found by following d parents |
| ProgramLaws.OutermostIs | csrc/rt.c:208-213 | beyond the outermost frame the search stays there |
| ProgramLaws.NewMakes | csrc/rt.c:68-86 | a new object stands beside the others with as many empty cells as asked for, and its pointer is pushed |
| ProgramLaws.FrameMade | csrc/rt.c:199-206 | a frame entered has empty cells and the current environment as parent; leaving it goes back |
| ProgramLaws.EnteredOuter | csrc/rt.c:942-946 | inside it every frame is one level further out |
| ProgramLaws.DescriptorMade | csrc/rt.c:361-386 | a descriptor lies over the store, over the store of a row's own descriptor for a value, over that descriptor for a name; borrowed exactly when asked for |
| ProgramLaws.BorrowKept | csrc/rt.c:388-394 | a borrow kept is a share over the same store |
| ProgramLaws.TargetsAre | csrc/rt.c:775-782 | an object points to the pointers in its cells, a frame also to its parent, a descriptor to what it lies over |
| ProgramLaws.RootsAre | csrc/rt.c:768-773 | the roots are what is on the stack or pinned, the current and the saved frames, and what native frames hold |
| ProgramLaws.FrameChanged | csrc/rt.c:898-914 | the frame given becomes the environment and restoring goes back |
| ProgramLaws.PinnedThenBack | csrc/rt.c:739-750 | a pinned value is one more root until it is given back |
| ProgramLaws.HeldThenBack | csrc/rt.c:739-750 | likewise a pointer a native frame holds |
| Rows.RowCount | csrc/rt.c:224-232 | the number of subscripts within the bounds |
| Rows.RowStoreIndex | csrc/rt.c:234-244 | the store index at a place in row-major order |
| Rows.UnflatMeans | csrc/rt.c:234-244 | each place has subscripts within bounds and is their place |
| Rows.FlatMeans | csrc/rt.c:234-244 | subscripts within bounds have one place |
| Rows.ElemIndex | csrc/rt.c:1149-1159 | the store index of a[i] or a[i, j], the error cases, and agreement with the row-major index |
| Rows.CanonicalIsFlat | csrc/rt.c:398-407 | on a canonical layout the store index is the row-major place: a bijection onto the first Count indices |
| Rows.CanonicalInjective | csrc/rt.c:398-407 | a canonical layout keeps elements apart |
| Rows.CanonicalDims | csrc/rt.c:400-409 | same bounds, canonical strides |
| Rows.RowCanonicalCopy | csrc/rt.c:396-422 | same bounds and the same element at every subscript, in a store of its own |
| Slices.SliceInto | csrc/rt.c:683-727 | subscripts and trims, each checked in order: one element, a view, or the first one out of bounds |
| Slices.SliceBounds | csrc/rt.c:697-714 | the trim lo:hi at n gives a dimension n : n + hi - lo; an omitted lo or hi is the row's bound, an omitted n is 1; the stride stays |
| Slices.SliceHas | csrc/rt.c:687-714 | where each subscript of the row is as far from the trim's lower bound as the slice's from its new one, both name one element |
| Slices.WholeTrim | csrc/rt.c:697-714 | a trim without bounds has as many elements as the dimension, the same ones, numbered from 1 |
| Slices.AllowedMeans | csrc/rt.c:690-706 | which subscripts and trims are out of bounds: the bounds written are checked, unless the trim is empty |
| Slices.SliceElements | csrc/rt.c:683-727 | elements of the slice are those of the row at the translated subscripts |
| Slices.TranslateMeans | csrc/rt.c:683-727 | subscripts of the slice translate to selected subscripts within the row's bounds, and back |
| Slices.BackMeans | csrc/rt.c:683-727 | every selected element of the row is in the slice |
| Slices.SliceKeeps | csrc/rt.c:683-727 | a slice of a row that lies in its store lies in it; separate elements stay separate |
| Slices.SliceOrder | csrc/rt.c:683-727 | subscripts in row-major order translate to subscripts in row-major order |
| Slices.SlicesCompose | csrc/rt.c:683-727 | slicing a slice is slicing once with subscripts translated twice |
| CopyOnWrite.State.Rebase | csrc/rt.c:351-359 | an owner moves to a new store with the same used elements; no value changes |
| CopyOnWrite.State.OwnStore | csrc/rt.c:348-359 | afterwards nobody else shares the owner's store; no value changes |
| CopyOnWrite.State.PutOwned | csrc/rt.c:511-521 | one element written, the store widened when its kind cannot hold it; only the owner's value and its names see it |
| CopyOnWrite.State.WriteElem | csrc/rt.c:591-609 | a write through a row or a name of a part changes that row alone: every other kept value stays |
| CopyOnWrite.State.NewRow | csrc/rt.c:396-422 | a new row has the given elements |
| CopyOnWrite.State.RowdShare | csrc/rt.c:361-371 | a value of its own with the same elements |
| CopyOnWrite.State.RowdBorrow | csrc/rt.c:373-386 | a borrow changes no kept value and shows what the row holds |
| CopyOnWrite.State.Unborrow | csrc/rt.c:388-394 | a borrow that is kept holds, from then on as its own value, what it shows now |
| CopyOnWrite.State.NamePart | csrc/rt.c:716-720 | a name of a part sees the owner's elements |
| CopyOnWrite.SliceCovered | csrc/rt.c:683-720 | names made by slicing are names of parts |
| CopyOnWrite.SliceInOrder | csrc/rt.c:683-720 | a slice of a part has its elements in the row's order |
| CopyOnWrite.WholePart | csrc/rt.c:683-720 | a part with as many elements as its row is the row, place by place |
| CopyOnWrite.State.AppendAll | csrc/rt.c:1309-1337 | elements appended to a store of the owner's own, widened when needed |
| CopyOnWrite.State.AppendInPlace | csrc/rt.c:1297-1340 | exactly rows of one dimension from 1 without gaps are extended, by exactly the elements; every other kept value stays |
| CopyOnWrite.State.Sweep | csrc/rt.c:801-821 | survivors keep their values, and no count falls below the surviving sharers |
| CopyOnWrite.State.RowCopyInto | csrc/rt.c:499-522 | assigning to a row or part writes the source's elements in order: all of them as they were, unless the source is read from the very store written to, then as seen on the way |
| CopyOnWrite.SeenIsView | csrc/rt.c:499-522 | copying within a store gives the source's elements if none is written before it is read |
| CopyOnWrite.CopyExactly | csrc/rt.c:499-522 | and for all contents of the store exactly then |
| CopyOnWrite.SamePlacesReadFirst | csrc/rt.c:499-522 | so a row may be assigned to itself under any bounds |
| CopyOnWrite.PourFills | csrc/rt.c:499-522 | what a row holds after elements were poured into it |
| CopyOnWrite.PourElsewhere | csrc/rt.c:499-522 | elements outside the row written to stay |
| CopyOnWrite.PouredMeans | csrc/rt.c:499-522 | what pouring means for each kept value |
| CopyOnWrite.AssignedHoldsSource | csrc/rt.c:499-522 | after an assignment the row holds what the source held |
| ValueRuns.Step | csrc/rt.c:348-394 | one operation on shared stores is the operation of After on rows that each have a store of their own |
| ValueRuns.NoneOverwritten | csrc/rt.c:499-522 | a row assigned to a name of a part of itself: the part is all of it, in order, so no element is written before it is read |
| ValueRuns.AssignBorrowed | csrc/rt.c:373-386 | assignment from a whole row, which is borrowed: the target holds what the row held, whoever shares the store; into its own store if each element is read first, which NoneOverwritten shows of any part that fits |
| ValueRuns.AssignShared | csrc/rt.c:453-458 | assignment from a name of a part, which is shared before it is copied: the target holds what the part showed, also where the two overlap |
| ValueRuns.Run | csrc/rt.c:348-522 | over any run of making, slicing, naming, keeping, writing, assigning, appending and freeing, every row and name holds what it holds when nothing is shared |
| ValueRuns.Execute | csrc/rt.c:348-522 | the same from an empty heap |
| ValueLaws.MakeHolds | csrc/rt.c:396-422 | a new row has the bounds and elements given; everything else holds what it held |
| ValueLaws.TakeHolds | csrc/rt.c:683-727 | a slice taken is a row of its own with the selected elements |
| ValueLaws.NameHolds | csrc/rt.c:716-720 | a name shows the selected elements of the row |
| ValueLaws.NameAlias | csrc/rt.c:716-720 | and is of those very elements: what is written to one is seen through the other |
| ValueLaws.KeepHolds | csrc/rt.c:361-394 | a value kept is a row of its own with the same elements |
| ValueLaws.WriteHolds | csrc/rt.c:591-609 | a write changes the element written, of the row and its names, and no other element of any row or name |
| ValueLaws.AliasOnce | csrc/rt.c:398-407 | elements of one row with different subscripts are different |
| ValueLaws.WriteRefused | csrc/rt.c:694-695 | subscripts out of bounds change nothing |
| ValueLaws.AssignHolds | csrc/rt.c:499-522 | after an assignment the target holds what the source held; what is no element of the target stays |
| ValueLaws.AppendHolds | csrc/rt.c:1297-1340 | a row appended to holds its elements and the new ones, from 1 on; names of its parts stay |
| ValueLaws.FreeHolds | csrc/rt.c:801-821 | what is not freed holds what it held |
| Pictures.Builder.AddFrame | csrc/io.c:1078-1086 | a frame takes the insertions held back into its pattern |
| Pictures.Builder.AddIns | csrc/io.c:1088-1095 | an insertion is a picture of its own or held back behind a pattern |
| Pictures.Builder.Flush | csrc/io.c:1066-1076 | the pictures are those of the items given so far |
| Pictures.Builder.AddPic | csrc/io.c:1097-1103 | flushed, then the picture |
| Pictures.DividesOneWay | csrc/io.c:1066-1095 | a run of frames and insertions divides one way into insertions, pattern, insertions |
| Pictures.PatternsProper | csrc/io.c:1066-1103 | every pattern starts and ends in a frame that is no insertion |
| Pictures.OrderKept | csrc/io.c:1066-1103 | the pictures hold the items in their order, nothing lost or added |
| Pictures.WalkOne | csrc/io.c:1130-1216 | the items of a format element; it dies exactly at a radix mark without a radix |
| Pictures.Replicated | csrc/io.c:1142-1149 | a replicator stands for as many copies of its element |
| Pictures.FramesMakePattern | csrc/io.c:1137-1141 | frame elements one after the other make one pattern of just these frames |
| Pictures.MarksWalked | csrc/io.c:1145-1151 | a column mark and a radix mark take their replicator as argument |
| Pictures.OthersWalked | csrc/io.c:1132-1136 | groups and separators only separate; literals, spaces, new lines and embedded formats are what they say |
| Pictures.ExpandFormat | csrc/io.c:1222-1229 | the pictures of a format text: those of its items, in order, patterns proper |
| PictureWalk.Formats.Advance | csrc/io.c:1238-1280 | one move of the traversal keeps written events followed by the rest of the inlined format |
| PictureWalk.Formats.NextPattern | csrc/io.c:1232-1282 | the events written and the pattern found are what comes next in the inlined format, then once more from its start; exhausted exactly when that has no pattern |
| PictureWalk.Formats.TakePatterns | csrc/io.c:1232-1282 | repeated calls walk the inlined format round and round, everything between the patterns written |
| PictureWalk.FormatWalked | csrc/io.c:1222-1282 | the traversal of the pictures of a format text shows its frames and insertions in order, embedded formats in place |
| IntegralPattern.ShiftSign | csrc/io.c:1297-1310 | the sign moved right over zeros under the z frames before the first d |
| IntegralPattern.WriteMould | csrc/io.c:1312-1340 | the characters the frames write: zeros blanked under z until a digit is written, insertions blanked with them |
| IntegralPattern.WriteIntegralPattern | csrc/io.c:1341-1361 | too many digits, a negative value without sign frame, or the field |
| IntegralPattern.FieldText | csrc/io.c:1297-1361 | the field is as long as digit and sign frames, without blanks it is sign and digits, only zeros missing; for a zero that loses its plus sign it is all blank and one character short |
| IntegralPattern.FieldIs | csrc/io.c:1297-1361 | the field character for character: blanks for the zeros before the sign, the sign, blanks for the zeros blanked behind it, the rest of the digits |
| IntegralPattern.LostMeans | csrc/io.c:1297-1361 | the sign is lost exactly by a zero under z frames alone with a plus frame at the end |
| IntegralPattern.IsIntText | csrc/io.c:856-863 | an optional minus sign and at least one digit |
| IntegralPattern.ReadIntegralPattern | csrc/io.c:1974-1992 | the characters under the frames, insertions skipped, blanks removed, converted; the end of the file and other text are errors |
| IntegralPattern.PrintReadRoundTrip | csrc/io.c:1297-1361 | printing then reading, any number of sign frames: the reader takes as many characters of what follows as sign frames printed nothing; if none did it gives the number back, except exactly a zero printed all blank and a number under a plus frame |
| IntegralPattern.LostSignRead | csrc/io.c:1297-1361 | after a zero that lost its plus sign the next character of the file is read: a digit as the number, the end of the file as an error |
| PatternInsertions.PrintedSoFar | csrc/io.c:1312-1340 | before any frame: the digits used up are as many as the digit frames, with the sign once these are more than the zeros it passed; an insertion there is blanked exactly behind a z frame, before any d, while only padding zeros were printed |
| PatternInsertions.InsertionsTransparent | csrc/io.c:1974-1992 | digit frames, signs and insertions in any order: if as many signs are printed as sign frames stand before each insertion with text, and no newline is blanked, reading what was printed gives what it gives without the insertions |
| PatternInsertions.InsertionsRoundTrip | csrc/io.c:1297-1361 | so numbers read back, except exactly a zero printed all blank and a number under a plus frame; unsigned patterns for every number of which no newline is blanked |
| PatternInsertions.LineMissed | csrc/io.c:1836-1840 | blanks printed for a newline and no newline behind: the reader skips all that is left, the end of the file is reported |
| PatternInsertions.NewlinesExactly | csrc/io.c:1297-1361 | with newlines only in blanked insertions or before the digit frames, a number not printed all blank reads back exactly when no newline is blanked |
| PatternInsertions.BlankedNewline | csrc/io.c:1836-1840 | an instance: 5 under two z frames with a newline between |
| PatternInsertions.LaterNewlines | csrc/io.c:1836-1840 | an instance with other newlines printed behind the blanked one: the number is read after all |
| SignedInsertions.SignedInsertionsRead | csrc/io.c:1974-1992 | one sign frame, insertions without digits, signs, blanks and newlines: no integer exactly when one out of step is printed as it is (or all is blank); the number without its sign when one stands, blanked, between the sign frame and its sign; otherwise what is read without insertions |
| SignedInsertions.CommaRead | csrc/io.c:1297-1340 | an instance: -12 with a comma between its sign and the sign frame is no integer |
| SignedInsertions.SignDropped | csrc/io.c:1297-1340 | an instance: -5 with a blanked comma between the sign frame and its sign reads back as 5 |
| StackMap.Parser.Read | csrc/stackmap.c:129-136 | reads within the section only, the little-endian number in the next bytes |
| StackMap.Parser.Align8 | csrc/stackmap.c:137-141 | skips to a multiple of eight within the section |
| StackMap.Parser.ReadLead | csrc/stackmap.c:188-204 | the three leading constants, direct or from the constant table |
| StackMap.Parser.ReadPlace | csrc/stackmap.c:220-247 | the place of one gc pointer |
| StackMap.Parser.ReadGc | csrc/stackmap.c:219-254 | all places of a record, a derived pointer at its base's place kept once |
| StackMap.Parser.ParseRecord | csrc/stackmap.c:182-261 | one record adds its entry: return address start + offset, frame size, places |
| StackMap.Parser.CheckCounts | csrc/stackmap.c:165-170 | on any bytes, accepted exactly when the counts in the function table sum to the number of records; the 64-bit sum does not hide an overflow |
| StackMap.Parser.ParseRecords | csrc/stackmap.c:172-263 | records are attributed to their functions, those without records skipped |
| StackMap.Parser.ParseMap | csrc/stackmap.c:144-264 | a well-formed version-3 map is consumed exactly and adds exactly its entries; any bytes are read within the section |
| StackMap.Parser.ParseSection | csrc/stackmap.c:278-282 | any concatenation of well-formed maps is consumed to its end |
| StackMap.Parser.Index | csrc/stackmap.c:283-285 | records in the order of their addresses, accepted exactly when these differ |
| StackMap.Parser.StackmapInit | csrc/stackmap.c:271-287 | for well-formed maps: accepted exactly when addresses differ, the index holding exactly their entries |
| StackMap.Parser.FindRec | csrc/stackmap.c:293-302 | the record of a recorded address, none for any other |
| StackMapFormat.PlacesComplete | csrc/stackmap.c:248-254 | every location of a record is among its places and nothing else is |
| StackMapFormat.EntrySays | csrc/stackmap.c:212-217 | an entry has the function's address plus the record's offset, its frame size, and places of exactly the locations' kind, register, offset and table constant |
| StackMapFormat.PairAdded | csrc/stackmap.c:219-254 | base and derived pointers in their order, the derived one left out exactly where it is at its base's place |
| StackMapFormat.ConstantSays | csrc/stackmap.c:188-204 | a leading constant is the offset sign-extended to 64 bits, or the table entry it names |
| StackMapFormat.LocationBytes | csrc/stackmap.c:220-227 | the bytes of a location: kind, size, register and signed offset, where the reader looks for them |
| StackMapFormat.RecordBytes | csrc/stackmap.c:182-187 | the bytes of a record: identifier, instruction offset, number of locations |
| StackMapFormat.FunctionBytes | csrc/stackmap.c:172-180 | the bytes of a function: address, frame size, number of records |
| StackMapFormat.HeaderBytes | csrc/stackmap.c:145-151 | the bytes of the header: version 3 and the numbers of functions, constants and records |
| StackMap.SortedShows | csrc/stackmap.c:266-285 | sorting keeps the entries |
| StackMapFormat.DecodeNumber | csrc/stackmap.c:132-136 | reading inverts the byte encoding of a number |
| Coerce.MeekTyped | A68/Elab.lean:213-218 | dereferencing and deproceduring keep typing |
| Coerce.SoftTyped | A68/Elab.lean:231-235 | deproceduring keeps typing |
| Coerce.EarlyTyped | A68/Elab.lean:267-287 | voiding and the transput targets give the target mode |
| Coerce.UnitedTyped | A68/Elab.lean:301-306 | uniting with a member, or keeping a union value whose members are all members, gives the union |
| Coerce.StrongTyped | A68/Elab.lean:298-345 | every strong rule gives the target mode |
| Coerce.CoercedTyped | A68/Elab.lean:261-355 | at any strength and fuel, from any typed expression, the result has the target mode |
| Coerce.CoercionWellTyped | A68/Elab.lean:261-355 | the same for the expression itself |
| CoerceLaws.UnwindsTo | A68/Elab.lean:288-297 | soft and meek positions, and firm ones without a union, take the calls and dereferencings that lead to the first equivalent mode |
| CoerceLaws.UnwindsOnly | A68/Elab.lean:261-297 | and succeed only then |
| CoerceLaws.MeekUnwinds | A68/Elab.lean:213-218 | to an unknown mode meek coercion dereferences and calls as far as it can |
| CoerceLaws.SoftUnwinds | A68/Elab.lean:231-235 | soft coercion calls as far as it can |
| CoerceLaws.StrongUnwindsTo | A68/Elab.lean:288-297 | a strong position unwinds to the first equivalent mode if there is one |
| CoerceLaws.StrongWidens | A68/Elab.lean:288-345 | otherwise it unwinds as far as it can and widens, if that can be widened |
| CoerceLaws.StrongUnites | A68/Elab.lean:308-318 | output and number positions unwind as far as they can and unite; a number position only an integer or real number |
| CoerceLaws.InputUnites | A68/Elab.lean:267-269 | input positions only call, and unite |
| CoerceLaws.VoidsCalled | A68/Elab.lean:275-287 | voiding calls every procedure without parameters there is, through names if need be, up to eight times, and voids what is left |
| CoerceLaws.FirstMember | A68/Elab.lean:301-306 | uniting takes the first member of the union that firm coercion reaches |
| CoerceLaws.NoMember | A68/Elab.lean:301-306 | without one, exactly a union value whose members are all members stays as it is |
| CoerceLaws.FlatIs | A68/Elab.lean:237-247 | the members of a union with members of member unions in their place |
| CoerceLaws.IncludedIs | A68/Elab.lean:249-259 | a union is included in another when each such member is equivalent to one of the other |
| CoerceLaws.ResolvesTo | A68/Mode.lean:77-82 | a named mode stands for its declaration, through up to 32 names |
| CoerceLaws.WidensFar | A68/Elab.lean:190-211 | widening is any chain of steps to the next length or the next kind of the same length, flexibility of a row aside |
| CoerceLaws.WidensOnly | A68/Elab.lean:190-211 | and nothing else |
| CoerceLaws.EquivalentIs | A68/Mode.lean:45-74 | without named modes and unions, modes are equivalent exactly when they are the same but for flexibility |
| CoerceLaws.EquivalentNamed | A68/Mode.lean:45-74 | named modes are equivalent when what they stand for is the same but for flexibility |
| Coerce.SoftIsMeek | A68/Elab.lean:261-355 | what soft accepts meek accepts, with the same result |
| Coerce.MeekIsFirm | A68/Elab.lean:261-355 | what meek accepts firm accepts, with the same result |
| Coerce.FirmIsStrong | A68/Elab.lean:261-355 | what firm accepts strong accepts |

## Left out

- Running out of memory, and the texts of error messages; an error is a result value.
- Bit operations: shifts are multiplications and divisions by powers of two, and the bitwise or of disjoint parts is their sum.
- csrc/bigint.c: conversions to and from 64-bit integers, digit counts and multiplication by a small factor, which are easy.
- Refinements: source positions are carried along, the rest of the lexer is not modelled.
- Digits of multi-precision numbers are exact integers, as the header of csrc/mp.c describes them and MpMul.ExactIff qualifies; the quotient estimates of division (`fma`, `trunc`) are arbitrary integers.
- MpDivide.DivDigitLoop: the rounding of the quotient after the loop and the sign and infinity cases around it are not modelled, because without knowing the estimates the residue has no bound.
- MpDivide.DivLoop: as for DivDigitLoop; the choice of the divisor digits used (`nzdigs`) is a parameter.
- MpMul.MpMul: operands that are infinite or not a number are handled by a case list before the part modelled; from 93 digits on, where entries may pass 2^53 (MpMul.NotAlwaysExact), the rounding of doubles is not modelled.
- MpCompare.MpSub: likewise finite operands only; MpEq, MpLt and MpGt cover the other cases.
- csrc/mp.c: `mp_add`, which chooses between the same two magnitude operations as `mp_sub`, and scaling by a digit.
- MpStrings: embedded NUL characters in the text; the exponent is unbounded where C has 64 bits.
- Conversions between REAL and decimals or multi-precision numbers, and csrc/mpmath.c: the rounding of libm is not visible.
- FloatFormat.FloatDec: `frmt` of zero or less, for which the source does not end on zero; widths and exponents are unbounded integers.
- FixedFormat.SubFixed: beyond the seventieth digit zeros are printed; FixedDigitsExact is therefore stated for up to 70.
- FixedRead.FixedShows: likewise, from the seventy-first digit on the digits shown are those of the number cut off there.
- FixedRead.FloatShows: likewise, for mantissas of up to 70 characters.
- Runs.Execute: elements of leaf stores are not objects and not part of a program's operations, and the collector runs where the program says.
- ValueRuns.Run: a borrow is taken and given up within one operation; the assignment of other bounds to a flexible row (`row_replace`) is no operation of a run.
- Heap: pacing, statistics and the memory limit; verify mode and its quarantine; roots held in native frames are part of a field of further roots.
- Heap: the links of the object list and of the free lists are sequences, header fields are maps from addresses; unlinking and marking still happen one object at a time.
- Rows and Slices: the field selector of multiple selections; 64-bit overflow of strides and offsets.
- CopyOnWrite: stores of structures or rows, whose elements are copied shallowly while structures are assigned in place.
- CopyOnWrite: `row_replace` (flexible assignment), which hands over a store counted once while the discarded descriptor still counts.
- CopyOnWrite.State.RowdBorrow: a borrow shows later writes until it is kept; the theorem is about kept descriptors.
- CopyOnWrite.State.Sweep: which descriptors and stores are dead is a parameter; that the collector takes only what cannot be reached, and gives back the shares of the dead, is Heap.Store.GcCollect and Heap.CountedSwept.
- Pictures.WalkOne: patterns other than frames and insertions (general, boolean, choice, C style, `h`) are opaque pictures; replicators are evaluated before the walk.
- PictureWalk: an embedded format is given with its pictures, not evaluated anew at each visit; column tabulation is an event whose effect on the position is not modelled.
- IntegralPattern.ReadIntegralPattern: the event routines of a file (end of file, end of line) are not called.
- PatternInsertions.NewlinesExactly: patterns that print another newline behind a blanked one; what is read then depends on what stands in those lines (PatternInsertions.LaterNewlines).
- SignedInsertions.SignedInsertionsRead: one sign frame, and insertions without digits, signs, blanks and newlines, which could be read as part of the number; in step InsertionsTransparent has no such condition.
- Real, exponent, bits and string patterns, and the reader's own loop over pictures.
- StackMap.Parser.ReadLead: for ill-formed bytes only that reading stays within the section.
- StackMap.Parser.ReadPlace: likewise.
- StackMap.Parser.ReadGc: likewise.
- StackMap.Parser.ParseRecord: likewise.
- StackMap.Parser.ParseRecords: likewise.
- StackMap.Parser.ParseMap: likewise, not which error is found first; sorting is by insertion where C calls `qsort`.
- The walk over native frames and the processor's return-address signing.
- StackMap.Parser.StackmapInit: which ill-formed sections are refused is not stated; finding the section in the executable is left out, and a section of size zero parses to an empty index.
- Coerce.CoercedTyped: dereferencing and deproceduring to an unknown target stop after 1000 steps, where the source recurses without bound on a cyclic mode.
- CoerceLaws.UnwindsTo: a chain of modes longer than the limit of twelve steps is not followed, as in the source.
- CoerceLaws.EquivalentIs: modes with named modes or unions, which the source compares member by member one way round.
- Coerce: weak coercion, and the messages of failed coercions; the mode table is a map from names to modes.
- Modules of the compiler beyond these (intermediate representation, optimisation passes, code generation) are not part of this model.
