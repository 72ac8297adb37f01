# Taskete and its bundled logging and formatting code, verified

Taskete is a task library with its own pool allocator and ring buffer; its sources ship spdlog, which
ships the fmt formatting library. This project models the parts of that code with the most arithmetic
and state, in the form the code has them (classes whose methods update their fields, loops over
buffers, pure expressions), and proves what they are for.

## Components

- **Big integers and shortest digits** (`Words`, `BigNat`, `BigintLemmas`, `Bigint`, `Decimals`,
  `DigitLoop`, `FallbackSetup`, `RealDecimals`, `FallbackFormat`). `Bigint` is fmt's `bigint` with its buffer of 32-bit
  bigits and its exponent; every method is proved against the integer that they stand for. On top of it
  the Steele and White digit loop of `fallback_format` is proved from the significand and the exponent
  of a double to the digits.
- **Digits with 64 bits** (`FpMultiply`, `Grisu`, `GrisuShortest`, `FormatFloat`). `grisu_gen_digits` with
  its handlers. For a fixed number of digits, with at most 19 in the fraction, a result is finished exactly
  when it is a correct rounding of every number that the inexact input may stand for; for the shortest
  digits, exactly when some are sure to be the best. `FormatFloat` joins it with the fallback, from the
  scaled numbers of a double to digits that read back.
- **Numbers as text and UTF-8** (`DecimalText`, `Utf8`). Digit counting, `format_decimal` and
  `parse_nonnegative_int`; the branchless decoder and the conversion to UTF-16.
- **Format strings** (`FormatString`, `FormatSpecs`, `FormatText`, `BraceMatching`, `CompiledFormat`,
  `FormatCompiler`, `PartCounting`, `FormatMeaning`, `FormatReference`, `FormatGrammar`, `StringGrammar`).
  A parse is the sequence of calls that the handler receives. Both parsing strategies are proved to make
  the same calls; formatting directly is proved to agree with compiling and running the parts, for all
  arguments and any way of rendering values, and both to follow a reference semantics of written format
  strings; only strings spelled by a grammar are accepted; the part counter is compared with the compiler.
- **Handles and pools** (`PoolHelper`, `PoolManager`). Bit-packed handles, free lists threaded through
  the blocks, and the manager as a map from live handles to objects.
- **Queues and shutdown** (`CircularQueue`, `ThreadPool`, `BlockingQueue`, `RingBuffer`). Two rings refined
  to bounded sequences, and the shutdown of the thread pool as a protocol over all interleavings of the
  critical sections, each of which is a method on the circular queue.
- **Rotating files** (`RotatingSink`). The sink over a map from file numbers to texts.

Words of the original that are 32 or 64 bits wide are subset types here, so that every overflow has to
be excluded or written out. Sizes and lengths are unbounded unless a contract says otherwise.

## What does not hold

- `fallback_format` divides by 2 where it has shifted by 2 (format-inl.h, line 1015): for a power of two
  with a non-negative exponent it starts from twice the number. `LoopInvariantHolds` says exactly when
  the invariant of line 1038 holds. `Format` proves that the output is all digits and reads back exactly in
  the other cases; in this one it never does, because of the digits (`DigitsOfTwice`) or because the first
  quotient is 10 or more and becomes no digit (`FirstIsNoDigit`).
- `compare` may call equal numbers unequal when they are stored with different numbers of zero bigits
  (`CompareExact`). `divmod_assign` then leaves a remainder equal to the divisor (`DivmodAssign`), which never
  happens in the digit loop. There it misses that the remainder equals the lower gap exactly when they are
  not stored alike (`Tight`), so that the lower end of the interval of an even significand is never printed
  then, and more digits are, exactly where that end is shorter than all others (`Format`, `LowerEndMissed`).
- `subtract_aligned` borrows twice from the same bigit (line 565). `StrayError` is its exact effect; the
  division never meets it (`NeverStrays`).
- In `grisu_gen_digits` the error is multiplied by ten without a check. It wraps around after 19
  fractional digits, which are the precision asked for less the integral digits. Up to there `GenDigits` is
  exact; beyond, no output is a correct rounding (`Outcome`), but some numbers are finished (`ErrorMissed`),
  and all from the 64th digit on, where the error is 0. A precision of at most 17 that does not count from
  the point never gets there.
- Before the first digit `grisu_gen_digits` may give up although a digit would be right (`GivesUpEarly`).
- The part counter finds the end of the specifiers by matching braces. It counts too few parts exactly when
  a field that does not end the string has the type `{` (`CountIsExact`, `CountCanMiss`).
- A compiled format with a missing argument writes nothing for it if assertions are off
  (`CompiledIsDirect`, `FieldUnnoticed`).
- Pools whose capacity is no power of two give out handles that decode to other offsets (`CapacityExact`).
- The free list is not in address order as the comment at pool_manager.hpp, line 139, says: a block below
  the head goes behind it (`FullOrder`).
- The default `max_pools` of 2^32 - 1 has 32 bits, and shifting a word by 32 is undefined; the helper asks
  for fewer.
- A thread pool with a queue for no messages never shuts down (`NoRoomNoEnd`).
- The rotating sink does not reset its counter when it rotates on opening. Until it rotates again, it does so
  when messages do not fit on top of the size found (`RotatesWhen`), and may lose a file (`LosesEarly`).

## Model

| member | source | states |
|---|---|---|
| BigintModel.Accumulator.Add | source/spdlog/include/spdlog/fmt/bundled/format-inl.h:515-518 | adds a 64-bit word to the 128-bit sum that both halves stand for, modulo 2^128 |
| BigintModel.Accumulator.Bigit | source/spdlog/include/spdlog/fmt/bundled/format-inl.h:513 | the conversion gives the sum modulo 2^32 |
| BigintModel.Accumulator.ShiftRight | source/spdlog/include/spdlog/fmt/bundled/format-inl.h:519-524 | shifting by 32 divides the 128-bit sum by 2^32 |
| BigintModel.Bigint.SubtractBigits | source/spdlog/include/spdlog/fmt/bundled/format-inl.h:544-548 | one column: new bigit less 2^32 times the borrow is old bigit less both subtrahends; nothing else changes |
| BigintModel.Bigint.RemoveLeadingZeros | source/spdlog/include/spdlog/fmt/bundled/format-inl.h:550-554 | keeps the value and leaves a non-zero top bigit, or a single zero |
| BigintModel.Bigint.SubtractAligned | source/spdlog/include/spdlog/fmt/bundled/format-inl.h:556-567 | leaves the difference plus `StrayError`, the exact effect of the borrow loop that does not advance |
| BigintLemmas.SubtractMisses | source/spdlog/include/spdlog/fmt/bundled/format-inl.h:565-565 | an input on which that effect is not zero |
| BigintLemmas.NeverStrays | source/spdlog/include/spdlog/fmt/bundled/format-inl.h:736-758 | it is zero whenever the quotient of the two numbers fits in an `int`, as in `divmod_assign` |
| BigintModel.Bigint.Multiply32 | source/spdlog/include/spdlog/fmt/bundled/format-inl.h:569-578 | in-place product by a 32-bit factor: exact value, same exponent, top bigit stays non-zero for a positive factor; every intermediate value is a 64-bit word |
| BigintModel.Bigint.Multiply64 | source/spdlog/include/spdlog/fmt/bundled/format-inl.h:580-595 | the same for a 64-bit factor |
| BigintModel.Bigint.AssignU64 | source/spdlog/include/spdlog/fmt/bundled/format-inl.h:613-621 | stores exactly the given word, without leading zeros |
| BigintModel.Bigint.ShiftLeft | source/spdlog/include/spdlog/fmt/bundled/format-inl.h:625-638 | multiplies the value by 2^shift, moving whole bigits into the exponent |
| BigintModel.Bigint.Compare | source/spdlog/include/spdlog/fmt/bundled/format-inl.h:646-660 | the sign of the difference of the values or, for equal values, of the stored lengths |
| BigintLemmas.CompareExact | source/spdlog/include/spdlog/fmt/bundled/format-inl.h:646-660 | that result is the true sign if and only if the stored lengths are equal, the total lengths differ or some bigit differs |
| BigintLemmas.CompareDecides | source/spdlog/include/spdlog/fmt/bundled/format-inl.h:646-660 | less and not less are always told apart when the left operand is stored as far down as the right one |
| BigintLemmas.CompareMisjudges | source/spdlog/include/spdlog/fmt/bundled/format-inl.h:646-660 | 2^32 stored in two ways compares as smaller |
| BigintModel.Bigint.AddCompare | source/spdlog/include/spdlog/fmt/bundled/format-inl.h:662-684 | the exact sign of lhs1 + lhs2 - rhs for all exponents, through both early returns and the cut-off on the borrow |
| BigintModel.Bigint.TopBit | source/spdlog/include/spdlog/fmt/bundled/format-inl.h:690-693 | the first loop and the halving after it find the highest power of two in the exponent |
| BigintModel.Bigint.TakeBit | source/spdlog/include/spdlog/fmt/bundled/format-inl.h:698-702 | one turn of the squaring loop takes in one more bit of the exponent |
| BigintModel.Bigint.AssignPow5 | source/spdlog/include/spdlog/fmt/bundled/format-inl.h:694-702 | repeated squaring gives exactly 5^exp |
| BigintModel.Bigint.AssignPow10 | source/spdlog/include/spdlog/fmt/bundled/format-inl.h:686-704 | the value is exactly 10^exp, for every exponent whose bit mask fits in an `int` |
| BigintModel.Bigint.AddLowerColumn | source/spdlog/include/spdlog/fmt/bundled/format-inl.h:716-719 | the inner loop adds exactly the column sum of the product |
| BigintModel.Bigint.AddUpperColumn | source/spdlog/include/spdlog/fmt/bundled/format-inl.h:726-727 | the same for the upper half of the columns |
| BigintModel.Bigint.Square | source/spdlog/include/spdlog/fmt/bundled/format-inl.h:706-734 | leaves exactly the square of the old value, for any length |
| BigintModel.Bigint.Align | source/spdlog/include/spdlog/fmt/bundled/format-inl.h:743-751 | trades exponent for zero bigits without changing the value |
| BigintModel.Bigint.SubtractOnce | source/spdlog/include/spdlog/fmt/bundled/format-inl.h:753-756 | one turn of the division loop subtracts the divisor once and tells whether to stop |
| BigintModel.Bigint.SubtractWhileNotLess | source/spdlog/include/spdlog/fmt/bundled/format-inl.h:752-757 | the loop ends with quotient * divisor + rest equal to the old value and a rest below the divisor |
| BigintModel.Bigint.DivmodAssign | source/spdlog/include/spdlog/fmt/bundled/format-inl.h:736-758 | quotient * divisor + remainder is the old value; the remainder is below the divisor unless the numbers are equal and the dividend is stored in fewer bigits, and then exactly equal to it; the loop ends |
| FpMultiply.Multiply | source/spdlog/include/spdlog/fmt/bundled/format-inl.h:474-483 | the product by 32-bit parts is the full product over 2^64 rounded half up; no part leaves 64 bits |
| FpMultiply.MultiplyWide | source/spdlog/include/spdlog/fmt/bundled/format-inl.h:470-473 | the 128-bit branch gives the same number |
| DigitLoop.NextDigit | source/spdlog/include/spdlog/fmt/bundled/format-inl.h:1043-1046 | one digit and the remainder, and exactly what the two tests for the end say: a remainder equal to the lower gap is noticed if and only if the numbers are stored so that `tight` |
| DigitLoop.RoundLast | source/spdlog/include/spdlog/fmt/bundled/format-inl.h:1047-1058 | the last digit after the choice between rounding down, up and half to even: a number that the bounds admit (for an even significand with the upper one, and the lower one exactly when `tight`), no shorter one is admitted, none as short is nearer; the first character is 0 or no digit exactly when the upper end says so |
| DigitLoop.ScaleByTen | source/spdlog/include/spdlog/fmt/bundled/format-inl.h:1061-1063 | all three numbers are scaled once each, also when `upper` is `lower` itself |
| DigitLoop.PrintDigit | source/spdlog/include/spdlog/fmt/bundled/format-inl.h:1042-1064 | one turn either finishes with correct digits or keeps the loop invariant and comes nearer the end |
| DigitLoop.PrintDigits | source/spdlog/include/spdlog/fmt/bundled/format-inl.h:1039-1065 | the loop terminates for every start whose upper end has at most two digits, also with a first quotient of 0 or of 10 and more; the bounds admit what it writes, but no shorter number, and none of the same length is nearer; the lower bound of an even significand is admitted exactly when `tight` |
| FallbackSetup.PrepareIntegral | source/spdlog/include/spdlog/fmt/bundled/format-inl.h:1004-1015 | the four numbers set up for a non-negative binary exponent are those of `Start`, stored as the loop needs them |
| FallbackSetup.PrepareSmall | source/spdlog/include/spdlog/fmt/bundled/format-inl.h:1016-1026 | the same for a negative decimal exponent |
| FallbackSetup.PrepareFraction | source/spdlog/include/spdlog/fmt/bundled/format-inl.h:1027-1036 | the same for the remaining case |
| FallbackFormat.StartValue | source/spdlog/include/spdlog/fmt/bundled/format-inl.h:1002-1038 | numerator and bounds over denominator times 10^exp10 are the number and the middles of its gaps, or twice those in the case of line 1015 |
| FallbackFormat.Format | source/spdlog/include/spdlog/fmt/bundled/format-inl.h:986-1065 | for every estimate that is not too small for the upper end of the interval: digits * 10^exp10 lies in the interval of the numbers that round to the double, and is the nearest of the decimals with its unit, the even one of two; no decimal with a larger unit lies above the lower end and in the interval; for an even significand none lies in the closed interval either if and only if `Tight`, or the lower end is not a decimal with a larger unit than all others; the output is all digits and reads back if and only if the exponent is negative or the predecessor is not nearer |
| FallbackFormat.ShortestClosed | source/spdlog/include/spdlog/fmt/bundled/format-inl.h:1042-1046 | what is shortest without the lower end is shortest with it, unless the end itself is shorter |
| FallbackFormat.LowerEndMissed | source/spdlog/include/spdlog/fmt/bundled/format-inl.h:1042-1046 | the double nearest to 3.584 * 10^25 is printed with 17 digits, although those four would read back |
| FallbackFormat.EstimatedFromAbove | source/spdlog/include/spdlog/fmt/bundled/format-inl.h:1115-1119 | for the double nearest to 10^23 the only estimate that is not too large is above the double |
| FallbackFormat.EstimatedStart | source/spdlog/include/spdlog/fmt/bundled/format-inl.h:1002-1038 | how many digits the upper end has in the scaled problem is how many it has in the reals |
| FallbackFormat.PrintedMeans | source/spdlog/include/spdlog/fmt/bundled/format-inl.h:1039-1065 | what the digits mean in the scaled problem is what they mean in the reals |
| FallbackFormat.LoopInvariantHolds | source/spdlog/include/spdlog/fmt/bundled/format-inl.h:1002-1038 | the invariant written above the loop holds if and only if the exponent is negative or the predecessor is not nearer |
| FallbackFormat.TwicePrinted | source/spdlog/include/spdlog/fmt/bundled/format-inl.h:1004-1015 | in the remaining case every number that may be printed lies above the whole interval of the double |
| FallbackFormat.FirstIsNoDigit | source/spdlog/include/spdlog/fmt/bundled/format-inl.h:1004-1046 | 2^807, estimated as 242: the first character is no digit |
| FallbackFormat.DigitsOfTwice | source/spdlog/include/spdlog/fmt/bundled/format-inl.h:1004-1046 | 2^81 is printed as 4835703278458517 * 10^9, which is twice as large |
| Grisu.GetRoundDirection | source/spdlog/include/spdlog/fmt/bundled/format-inl.h:763-781 | down and up exactly when every number within the error rounds that way |
| Grisu.GrisuCountDigits | source/spdlog/include/spdlog/fmt/bundled/format-inl.h:791-803 | the number of decimal digits |
| Grisu.FixedHandler.OnStart | source/spdlog/include/spdlog/fmt/bundled/format-inl.h:898-913 | when digits are wanted, when none are, and that a single digit given here is rounded the sure way; an error exactly when the direction is not sure |
| Grisu.FixedHandler.OnDigit | source/spdlog/include/spdlog/fmt/bundled/format-inl.h:915-941 | more digits exactly while too few; at the end the value of the digits, plus one if rounded up, without a zero in front; an error exactly when the error leaves a doubt |
| Grisu.FixedHandler.Increment | source/spdlog/include/spdlog/fmt/bundled/format-inl.h:931-939 | the carry loop adds exactly one to the number written, with a new digit exactly after all nines |
| Grisu.DivmodIntegral | source/spdlog/include/spdlog/fmt/bundled/format-inl.h:828-868 | the switch divides by the power of ten that belongs to the position |
| Grisu.IntegralDigit | source/spdlog/include/spdlog/fmt/bundled/format-inl.h:826-875 | one integral digit keeps: f is the digits at their place plus a remainder below one unit of it |
| Grisu.IntegralDigits | source/spdlog/include/spdlog/fmt/bundled/format-inl.h:825-876 | the same over the loop; it is done, and soundly, exactly when a correct rounding exists, at the place given by the precision |
| Grisu.DivmodOne | source/spdlog/include/spdlog/fmt/bundled/format-inl.h:879-883 | the product by ten of the fraction fits 64 bits and splits into a digit and the next fraction |
| Grisu.FractionDigits | source/spdlog/include/spdlog/fmt/bundled/format-inl.h:877-887 | ends at the place given by the precision; down to 19 digits of the fraction done exactly when a correct rounding exists, beyond that exactly when the wrapped error leaves no doubt |
| Grisu.GenDigits | source/spdlog/include/spdlog/fmt/bundled/format-inl.h:805-888 | the last place is the number of integral digits less the precision asked for (at least one); down to 10^-19 the result is finished if and only if some number of units is a correct rounding of every number within one unit of f, and then it is one; below that none ever is, and the exact condition under which it is finished all the same, always from 10^-64 on |
| Grisu.NoneSound | source/spdlog/include/spdlog/fmt/bundled/format-inl.h:763-781 | where the direction is not sure, no number of units is a correct rounding of all |
| Grisu.ErrorMissed | source/spdlog/include/spdlog/fmt/bundled/format-inl.h:877-887 | a number that is finished with 37 digits of the fraction, although no 37 digits are a correct rounding |
| Grisu.CorrectAbove | source/spdlog/include/spdlog/fmt/bundled/format-inl.h:821-823 | a rounding to the place above the first digit is correct for all if and only if 2(f + 1) is at most, or 2(f - 1) at least, one unit; with `GenDigits`: when it gives up needlessly |
| Grisu.GivesUpEarly | source/spdlog/include/spdlog/fmt/bundled/format-inl.h:821-823 | before the first digit a correct rounding may be missed, because the error is taken as ten times too large |
| GrisuShortest.ShortestHandler.Round | source/spdlog/include/spdlog/fmt/bundled/format-inl.h:956-963 | the loop lowers the digits, never below zero, until no multiple within the bounds is nearer to the highest number that the scaled one may stand for |
| GrisuShortest.ShortestHandler.OnDigit | source/spdlog/include/spdlog/fmt/bundled/format-inl.h:965-983 | goes on exactly while no multiple lies within the bounds; then done if and only if some multiple is safely inside and the best for every number that the scaled one may stand for |
| GrisuShortest.SettledWhen | source/spdlog/include/spdlog/fmt/bundled/format-inl.h:971-982 | the two tests decide exactly whether such a multiple exists |
| GrisuShortest.LastNotZero | source/spdlog/include/spdlog/fmt/bundled/format-inl.h:960-960 | the last digit is never zero when it is lowered |
| GrisuShortest.IntegralDigits | source/spdlog/include/spdlog/fmt/bundled/format-inl.h:825-876 | the same over the loop over the integral digits |
| GrisuShortest.FractionDigits | source/spdlog/include/spdlog/fmt/bundled/format-inl.h:877-887 | the same over the fraction, where neither the product nor the error outgrows its word and the table of powers suffices |
| GrisuShortest.GenDigits | source/spdlog/include/spdlog/fmt/bundled/format-inl.h:805-888 | the result ends at the first place with a multiple within the bounds, and is finished if and only if one is sure to be the best; then the first digit is no zero |
| GrisuShortest.ManyDigits | source/spdlog/include/spdlog/fmt/bundled/format-inl.h:820-876 | as many digits as counted, without a zero in front |
| GrisuShortest.ShortestMeans | source/spdlog/include/spdlog/fmt/bundled/format-inl.h:1097-1122 | for all true numbers less than a unit from the scaled ones: finished digits lie strictly inside the interval, no decimal with a larger unit lies in it or at its ends, and none with the same unit is nearer |
| FormatFloat.Unscaled | source/spdlog/include/spdlog/fmt/bundled/format-inl.h:1140-1140 | what is right for the number times a power of ten is right for the number |
| FormatFloat.Handed | source/spdlog/include/spdlog/fmt/bundled/format-inl.h:1117-1121 | the exponent handed to the fallback is never too small |
| FormatFloat.FormatShortest | source/spdlog/include/spdlog/fmt/bundled/format-inl.h:1090-1122 | it is fast if and only if the generator finds settled digits, and then writes just those, the first no zero; otherwise just what the fallback prints from the estimate, the first digit 0 exactly when the interval does not reach it; digits and exponent add up to the digits of the scaled number; whichever way it takes, the digits read back, no shorter decimal does (above the lower end), and none as short is nearer, if and only if it did not fall back to a power of two with a non-negative exponent |
| Utf8.DecodeSound | source/spdlog/include/spdlog/fmt/bundled/format-inl.h:1262-1298 | a character that the branchless decoder accepts is a scalar value whose encoding (section 3 of RFC 3629) starts the block, and the length is that of the encoding |
| Utf8.DecodeComplete | source/spdlog/include/spdlog/fmt/bundled/format-inl.h:1262-1298 | every encoded scalar value is accepted and gives itself back |
| Utf8.PointsSound | source/spdlog/include/spdlog/fmt/bundled/format-inl.h:1325-1354 | decoding one character at a time succeeds only on strings that are the encoding of its result |
| Utf8.PointsComplete | source/spdlog/include/spdlog/fmt/bundled/format-inl.h:1325-1354 | it succeeds on every valid string, with its characters |
| Utf8.ConvertsValid | source/spdlog/include/spdlog/fmt/bundled/format-inl.h:1325-1354 | success if and only if the string is valid UTF-8 (section 4 of RFC 3629), and then with the unique characters |
| Utf8.Transcode | source/spdlog/include/spdlog/fmt/bundled/format-inl.h:1331-1337 | the units of one character are its UTF-16 encoding (section 2.1 of RFC 2781) |
| Utf8.TranscodeNext | source/spdlog/include/spdlog/fmt/bundled/format-inl.h:1326-1339 | one call decodes the next character of the string from its block, or shows the string invalid |
| Utf8.Utf8ToUtf16 | source/spdlog/include/spdlog/fmt/bundled/format-inl.h:1325-1354 | blocks of four bytes and the padded tail together give the UTF-16 encoding of the characters, and fail exactly on invalid UTF-8 |
| DecimalText.CountDigits | source/spdlog/include/spdlog/fmt/bundled/format.h:785-792 | the leading-zero formula is the number of decimal digits of every 64-bit number |
| DecimalText.CountDigitsByGroups | source/spdlog/include/spdlog/fmt/bundled/format.h:794-808 | the loop by four digits gives the same number |
| DecimalText.FormatDecimal | source/spdlog/include/spdlog/fmt/bundled/format.h:903-927 | exactly the digits of the number stand right before the end of the field, and the rest of the buffer is unchanged |
| DecimalText.ToDigitsValue | source/spdlog/include/spdlog/fmt/bundled/format.h:903-927 | those digits denote the number and have no leading zero |
| DecimalText.ParseNonnegativeInt | source/spdlog/include/spdlog/fmt/bundled/format.h:2015-2036 | reads all digits of the run, and fails exactly when the number exceeds the largest `int` |
| DecimalText.ParseOfFormat | source/spdlog/include/spdlog/fmt/bundled/format.h:2015-2036 | reading what was written gives the number back, or the error, exactly as it fits in an `int` |
| FormatString.ParseArgId | source/spdlog/include/spdlog/fmt/bundled/format.h:2369-2400 | the loop finds the same argument id, position and error as its description by cases |
| FormatString.ParseReplacementField | source/spdlog/include/spdlog/fmt/bundled/format.h:2610-2635 | the calls for one replacement field, where it ends and whether the parse goes on |
| FormatString.Find | source/spdlog/include/spdlog/fmt/bundled/format.h:2579-2586 | the first occurrence before the end |
| FormatString.ParseShort | source/spdlog/include/spdlog/fmt/bundled/format.h:2642-2659 | for strings of any length the short-string loop tells its handler exactly the one-pass sequence `Run`, up to empty text |
| FormatString.WriteSegment | source/spdlog/include/spdlog/fmt/bundled/format.h:2660-2675 | the calls for text without an opening brace, with doubled and unmatched closing braces |
| FormatString.ParseLong | source/spdlog/include/spdlog/fmt/bundled/format.h:2676-2685 | the search for braces tells the handler the same sequence, with the same error at the same point |
| FormatString.ParseFormatString | source/spdlog/include/spdlog/fmt/bundled/format.h:2637-2685 | so the length of the string makes no difference to what the handler is told |
| FormatSpecs.SpecsAt | source/spdlog/include/spdlog/fmt/bundled/format.h:2528-2577 | the calls come in one fixed order, each kind at most once, and the end lies within the string |
| FormatGrammar.SpecsSpelled | source/spdlog/include/spdlog/fmt/bundled/format.h:2528-2577 | specifiers that are accepted are spelled out, character by character, by the calls that they lead to; anything else is an error |
| FormatGrammar.ArgSpelled | source/spdlog/include/spdlog/fmt/bundled/format.h:2369-2400 | an id is accepted only as it is written |
| StringGrammar.FormattedAccepted | source/spdlog/include/spdlog/fmt/bundled/format.h:2637-2685 | a string is formatted or compiled only if it consists of text, doubled braces and fields as they are told: lone braces and ill-formed fields are errors |
| StringGrammar.RunAccepted | source/spdlog/include/spdlog/fmt/bundled/format.h:2610-2685 | the same for the parse from any position |
| FormatText.ParseDigits | source/spdlog/include/spdlog/fmt/bundled/format.h:2015-2036 | a number written in decimal is read back up to the first character that is no digit |
| FormatText.ArgRoundTrip | source/spdlog/include/spdlog/fmt/bundled/format.h:2369-2400 | an id written as nothing, a number or a name is read back, and ends where it ends |
| FormatText.IndexUnique | source/spdlog/include/spdlog/fmt/bundled/format.h:2378-2389 | a numeric id is accepted only in the one way in which it is written, without leading zeros |
| FormatText.DynamicRead | source/spdlog/include/spdlog/fmt/bundled/format.h:2495-2502 | a width or precision in braces is read back as its id |
| FormatText.FillRead | source/spdlog/include/spdlog/fmt/bundled/format.h:2445-2487 | a fill of one code point, with its alignment, is read back |
| FormatText.SpecRoundTrip | source/spdlog/include/spdlog/fmt/bundled/format.h:2528-2577 | specifiers composed in any way (fill, alignment, sign, flags, width and precision given or taken from arguments, any character as the type that cannot be taken for a part left out or a further digit) are read back as exactly the calls that they stand for |
| BraceMatching.SpecsLead | source/spdlog/include/spdlog/fmt/bundled/compile.h:99-112 | matching braces over specifiers leads to their end, one brace deeper if a brace was taken for the type |
| BraceMatching.MatchBraces | source/spdlog/include/spdlog/fmt/bundled/compile.h:97-112 | the loop over the braces finds that end, a closing brace if there is one |
| BraceMatching.SameEnd | source/spdlog/include/spdlog/fmt/bundled/compile.h:99-112 | the brace counter and the specifier parser find the same end if and only if the type is not an opening brace |
| CompiledFormat.StepMatches | source/spdlog/include/spdlog/fmt/bundled/format.h:2171-2216 | one call of the checking handler and of the deferring handler keep their results the same |
| CompiledFormat.PrecisionMatches | source/spdlog/include/spdlog/fmt/bundled/format.h:2215-2216 | the same for a precision together with its check |
| CompiledFormat.RunMatches | source/spdlog/include/spdlog/fmt/bundled/compile.h:246-257 | for all calls in the order of the parser: checking and resolving at each call gives the same layout and next index, and fails in the same cases, as saving references and doing it at the end |
| CompiledFormat.SpecsAgree | source/spdlog/include/spdlog/fmt/bundled/compile.h:168-182 | the same for the specifiers of any field |
| CompiledFormat.RunPaired | source/spdlog/include/spdlog/fmt/bundled/format.h:2637-2685 | each argument id is followed by its field or by an error, and fields come nowhere else |
| CompiledFormat.FoundInStep | source/spdlog/include/spdlog/fmt/bundled/compile.h:240-265 | after a field whose argument exists, the parts so far write what has been written directly |
| CompiledFormat.MissingInStep | source/spdlog/include/spdlog/fmt/bundled/compile.h:240-265 | a field whose argument does not exist fails directly, and as a part unless assertions are off |
| CompiledFormat.StaysInStep | source/spdlog/include/spdlog/fmt/bundled/compile.h:125-183 | the same over all that the parser tells |
| FormatMeaning.SpecMeans | source/spdlog/include/spdlog/fmt/bundled/format.h:2104-2279 | the checking handler turns written specifiers into exactly the layout that they ask for, with the arguments for width and precision, or fails exactly where the argument does not allow them |
| FormatMeaning.FieldStep | source/spdlog/include/spdlog/fmt/bundled/format.h:2610-2635 | a written field adds exactly what it means to the text |
| FormatMeaning.WrittenMeans | source/spdlog/include/spdlog/fmt/bundled/format.h:2637-2753 | formatting any sequence of literal text and fields, as it is written, gives what the pieces mean to the handlers, for all arguments, or the error |
| FormatReference.WrittenDescribed | source/spdlog/include/spdlog/fmt/bundled/format.h:2637-2753 | a reference semantics without handlers: formatting a written string gives exactly what is described, each id standing for the argument with its number, its name, or in turn, in fields as in widths and precisions, or the error |
| FormatReference.CompiledDescribed | source/spdlog/include/spdlog/fmt/bundled/compile.h:203-270 | so does compiling it and running the parts, with assertions on |
| FormatReference.TwoFields | source/spdlog/include/spdlog/fmt/bundled/format.h:2702-2753 | "{} {}" is the first argument, a space, and the second |
| FormatReference.AllParts | source/spdlog/include/spdlog/fmt/bundled/format.h:2528-2577 | "*<+#012.3e" is read as fill, alignment, sign, hash, zero, width, precision and type |
| FormatReference.RefersTo | source/spdlog/include/spdlog/fmt/bundled/format.h:2720-2738 | a reference is looked up as the argument that its id names |
| FormatReference.RefNames | source/spdlog/include/spdlog/fmt/bundled/core.h:566-590 | in a whole string the automatic ids name the arguments in turn |
| FormatMeaning.CompiledMeans | source/spdlog/include/spdlog/fmt/bundled/compile.h:203-270 | so does compiling and running the parts, with assertions on |
| FormatMeaning.Numbering | source/spdlog/include/spdlog/fmt/bundled/core.h:566-590 | ids are accepted if and only if automatic ones and numbers are not mixed; automatic ones count up from zero |
| FormatMeaning.NeverMixed | source/spdlog/include/spdlog/fmt/bundled/core.h:566-590 | no format string that mixes them is formatted, also where the ids are those of widths and precisions |
| FormatCompiler.CompiledIsDirect | source/spdlog/include/spdlog/fmt/bundled/compile.h:203-270 | for every string and all arguments: what does not compile cannot be formatted; otherwise running the parts and formatting directly agree, unless assertions are off, an argument is missing, and every part has the arguments for its specifiers and a value that can be written if it is there; then they differ |
| FormatCompiler.FieldUnnoticed | source/spdlog/include/spdlog/fmt/bundled/compile.h:230-238 | "{}" without arguments and assertions: nothing is written where direct formatting fails |
| FormatCompiler.CountParts | source/spdlog/include/spdlog/fmt/bundled/compile.h:117-123 | counts the arguments and the pieces of text in what the parser tells the counter |
| FormatCompiler.CountIsEmitted | source/spdlog/include/spdlog/fmt/bundled/compile.h:125-183 | the compiler emits one part for each count |
| FormatCompiler.CountCanMiss | source/spdlog/include/spdlog/fmt/bundled/compile.h:99-112 | "{:1{}{}" counts as one part and compiles to two |
| FormatCompiler.CompileShown | source/spdlog/include/spdlog/fmt/bundled/compile.h:142-145 | empty text makes no difference to the compiler |
| FormatCompiler.StringCompiler.OnText | source/spdlog/include/spdlog/fmt/bundled/compile.h:142-145 | non-empty text becomes a part |
| FormatCompiler.StringCompiler.OnArgId | source/spdlog/include/spdlog/fmt/bundled/compile.h:147-161 | resolves an argument id, automatic, by number or by name, or fails on a mix |
| FormatCompiler.StringCompiler.OnReplacementField | source/spdlog/include/spdlog/fmt/bundled/compile.h:163-166 | emits the pending argument |
| FormatCompiler.StringCompiler.OnFormatSpecs | source/spdlog/include/spdlog/fmt/bundled/compile.h:168-182 | emits the pending argument with the saved specifiers, or fails |
| FormatCompiler.StringCompiler.Handle | source/spdlog/include/spdlog/fmt/bundled/compile.h:125-183 | one call of the compiler is one step of the compilation, with at most one part |
| FormatCompiler.CompileFormat | source/spdlog/include/spdlog/fmt/bundled/compile.h:185-192 | the vector holds exactly the compiled parts |
| FormatCompiler.VformatTo | source/spdlog/include/spdlog/fmt/bundled/compile.h:203-270 | the loop over the parts writes what the parts stand for, and fails exactly where they do; `CompiledDescribed` ties that to the reference |
| FormatCompiler.FormatTo | source/spdlog/include/spdlog/fmt/bundled/format.h:2702-2753 | the handler called while parsing writes the text of direct formatting, which `WrittenDescribed` ties to the reference |
| PartCounting.FieldPassed | source/spdlog/include/spdlog/fmt/bundled/compile.h:99-112 | matching braces passes over any field, and comes out deeper only behind the type "{" |
| PartCounting.Shifted | source/spdlog/include/spdlog/fmt/bundled/compile.h:99-123 | resuming in the middle of a doubled closing brace, the counter never counts more than the compiler emits |
| PartCounting.Overshoot | source/spdlog/include/spdlog/fmt/bundled/compile.h:99-123 | having gone on behind a field, it has missed at least one part by the time it finds an end |
| PartCounting.AtMost | source/spdlog/include/spdlog/fmt/bundled/compile.h:117-192 | from any position: never more counts than parts, and as many if and only if no field has the type "{" but at the very end |
| PartCounting.CountIsExact | source/spdlog/include/spdlog/fmt/bundled/compile.h:117-192 | for every string that compiles the count is at most the number of parts, and equal to it if and only if no field has the type "{" but at the very end of the string |
| PartCounting.CompileToParts | source/spdlog/include/spdlog/fmt/bundled/compile.h:300-320 | under that condition an array of as many parts as were counted, at least one, is never exceeded and holds exactly the parts, or one empty text if there are none |
| PoolHelper.AndLow | source/taskete/pool_helper.hpp:66-69 | a mask of the lowest bits takes the remainder |
| PoolHelper.AndBand | source/taskete/pool_helper.hpp:61-64 | a mask of a band of bits takes the difference of two remainders |
| PoolHelper.OrDisjoint | source/taskete/pool_helper.hpp:71-75 | joining an offset to a shifted index adds them |
| PoolHelper.Log2 | source/taskete/pool_helper.hpp:77-90 | the loop counts the bits |
| PoolHelper.Helper.constructor | source/taskete/pool_helper.hpp:48-59 | the three masks as the constructor computes them from the options, for any capacity |
| PoolHelper.ClippedMask | source/taskete/pool_helper.hpp:54-58 | shifting the mask up and down again leaves the band of bits from the offset up to the bound |
| PoolHelper.ConstructedPacks | source/taskete/pool_helper.hpp:48-59 | for a capacity of 2^k the constructor leaves the masks for k offset bits |
| PoolHelper.HandleRoundTrip | source/taskete/pool_helper.hpp:61-75 | a handle gives back its offset always, and its pool if and only if the index is below 2^(32-b-k) |
| PoolHelper.HandleBits | source/taskete/pool_helper.hpp:71-75 | the handle is the index shifted up by the offset bits, plus the offset |
| PoolHelper.CapacityExact | source/taskete/pool_helper.hpp:48-75 | for any capacity, every offset below it is given back if and only if the capacity is a power of two |
| PoolManager.InsertKeeps | source/taskete/pool_manager.hpp:139-146 | a freed block goes behind the head, which stays, so that all nodes after the head stay ascending, and nothing else enters or leaves the list |
| PoolManager.FullOrder | source/taskete/pool_manager.hpp:139-146 | the list stays in full address order if and only if it was empty or the block lies above its head |
| PoolManager.LaidPartition | source/taskete/pool_manager.hpp:109-147 | free nodes and objects partition the blocks, and the chain passes each free block once |
| PoolManager.Pool.PopulateList | source/taskete/pool_manager.hpp:108-121 | the chain holds all blocks in order |
| PoolManager.Pool.TakeHead | source/taskete/pool_manager.hpp:170-176 | the head becomes the object, the chain is the rest |
| PoolManager.Pool.FindPlace | source/taskete/pool_manager.hpp:141-143 | the walk stops at the last node that lies below the block or at the head |
| PoolManager.Pool.MarkAsFree | source/taskete/pool_manager.hpp:126-147 | the chain is the old one with the block inserted, and no other object moves |
| PoolManager.StoredConstruct | source/taskete/pool_manager.hpp:163-179 | constructing in a free block gives a handle that no live object has, and disturbs no other |
| PoolManager.StoredDestroy | source/taskete/pool_manager.hpp:181-193 | freeing a block removes exactly its own handle |
| PoolManager.DecodesExactly | source/taskete/pool_manager.hpp:157-160 | every handle can be decoded if and only if the capacity is a power of two and the bits that are left suffice for the pools |
| PoolManager.Manager.constructor | source/taskete/pool_manager.hpp:157-160 | no pools, no objects; the manager is valid exactly for such options |
| PoolManager.Manager.AllLive | source/taskete/pool_manager.hpp:81-88 | if every pool is full and there are as many as allowed, every handle is live |
| PoolManager.Manager.FindOrCreatePool | source/taskete/pool_manager.hpp:77-103 | takes the first pool with a free block; only if there is none adds one pool at the end, all of whose blocks are free in order; fails exactly when all are full and there are as many as allowed |
| PoolManager.Manager.Construct | source/taskete/pool_manager.hpp:162-179 | the handle is that of the head of the first pool with a free block, or of the first block of a pool added if all were full; it was not live and now stands for the object, all others stand as before; failure only when every handle is live |
| PoolManager.Manager.Get | source/taskete/pool_manager.hpp:195-201 | the object that was constructed under the handle |
| PoolManager.Manager.Destroy | source/taskete/pool_manager.hpp:181-193 | removes exactly this handle from the live ones; its block goes into the list of its own pool |
| CircularQueue.KeepsTheLast | source/spdlog/include/spdlog/details/circular_q.h:49-62 | pushing any number of items leaves the last ones in order |
| CircularQueue.RingPushes | source/spdlog/include/spdlog/details/circular_q.h:53-60 | on the ring a push appends, and drops the oldest item exactly when the queue is full |
| CircularQueue.RingPop | source/spdlog/include/spdlog/details/circular_q.h:99-102 | on the ring a pop removes the oldest item |
| CircularQueue.CircularQueue.PushBack | source/spdlog/include/spdlog/details/circular_q.h:48-62 | appends and drops the oldest exactly when full; pushes = pops + overruns + size |
| CircularQueue.CircularQueue.PopFront | source/spdlog/include/spdlog/details/circular_q.h:97-102 | removes the oldest item |
| CircularQueue.CircularQueue.Front | source/spdlog/include/spdlog/details/circular_q.h:64-69 | the oldest item |
| CircularQueue.CircularQueue.At | source/spdlog/include/spdlog/details/circular_q.h:89-95 | the item at a position |
| CircularQueue.CircularQueue.Size | source/spdlog/include/spdlog/details/circular_q.h:76-87 | the number of items, in both positions of the cursors |
| CircularQueue.CircularQueue.IsEmpty | source/spdlog/include/spdlog/details/circular_q.h:104-107 | true exactly when there is no item |
| CircularQueue.CircularQueue.IsFull | source/spdlog/include/spdlog/details/circular_q.h:109-117 | true exactly when the capacity is used up; never for a disabled queue |
| CircularQueue.CircularQueue.CopyMoveable | source/spdlog/include/spdlog/details/circular_q.h:125-138 | takes over contents and counters and leaves the other queue disabled and empty |
| ThreadPool.StartInv | source/spdlog/include/spdlog/details/thread_pool-inl.h:16-31 | the invariant holds for a new pool |
| ThreadPool.KeepsAccounted | source/spdlog/include/spdlog/details/thread_pool-inl.h:38-121 | active workers = terminate messages queued + terminate messages still to be posted, after every step |
| ThreadPool.KeepsAwake | source/spdlog/include/spdlog/details/mpmc_blocking_q.h:31-67 | no wake-up gets lost: a waiting worker means that somebody will see to the queue, a waiting destructor that the queue is full or a worker is about to notify |
| ThreadPool.KeepsInOrder | source/spdlog/include/spdlog/details/mpmc_blocking_q.h:31-67 | what has left the queue followed by what is in it is what was posted; only log messages are overwritten |
| ThreadPool.KeepsTerminatesLast | source/spdlog/include/spdlog/details/thread_pool-inl.h:38-53 | terminate messages are posted after all others |
| ThreadPool.StepInv | source/spdlog/include/spdlog/details/thread_pool-inl.h:38-121 | every step keeps all of this |
| ThreadPool.NeverStuck | source/spdlog/include/spdlog/details/thread_pool-inl.h:38-121 | with room for a message some thread can always go on, without any time-out, until the destructor returns |
| ThreadPool.StepDecreases | source/spdlog/include/spdlog/details/thread_pool-inl.h:38-121 | a measure decreases on every step that is not a time-out or spurious wake-up |
| ThreadPool.RunsEnd | source/spdlog/include/spdlog/details/thread_pool-inl.h:38-121 | so a run after the destructor has started has only so many steps, plus two for each time-out or spurious wake-up |
| ThreadPool.DoneDelivers | source/spdlog/include/spdlog/details/thread_pool-inl.h:38-121 | when all workers are joined the queue is empty and each message was taken once, in order, or is a log message that was overwritten |
| ThreadPool.ShutdownCompletes | source/spdlog/include/spdlog/details/thread_pool-inl.h:16-121 | every run from a new pool that cannot go on by itself after the destructor has started has ended in that state, with exactly the messages that producers posted, in order |
| ThreadPool.RunPosts | source/spdlog/include/spdlog/details/thread_pool-inl.h:59-87 | nothing is posted but what producers post, in their order, and terminate messages |
| ThreadPool.StepLoses | source/spdlog/include/spdlog/details/mpmc_blocking_q.h:31-67 | a message is overwritten only by a post that does not block on a full queue, and it is the oldest |
| ThreadPool.RunLosesNothing | source/spdlog/include/spdlog/details/mpmc_blocking_q.h:31-40 | if all posts block, no message is overwritten |
| ThreadPool.NoRoomNoEnd | source/spdlog/include/spdlog/details/thread_pool-inl.h:38-53 | with a queue for no messages no run lets the destructor return |
| ThreadPool.OverwritingLosesWorker | source/spdlog/include/spdlog/details/mpmc_blocking_q.h:42-50 | overwriting a terminate message leaves one worker more than messages to end them |
| BlockingQueue.Monitor.constructor | source/spdlog/include/spdlog/details/thread_pool-inl.h:16-31 | a new pool stands for the start of the protocol |
| BlockingQueue.Monitor.EnqueueNowait | source/spdlog/include/spdlog/details/mpmc_blocking_q.h:42-50 | the message is the last one in the queue, and the oldest has been overwritten exactly when it was full; that is the step of the protocol |
| BlockingQueue.Monitor.Enqueue | source/spdlog/include/spdlog/details/mpmc_blocking_q.h:31-40 | with room the message is appended and nothing lost, without room nothing happens; that is the blocking step |
| BlockingQueue.Monitor.NotifyPush | source/spdlog/include/spdlog/details/mpmc_blocking_q.h:39-39 | the notification is the step that wakes one waiting worker, if there is one |
| BlockingQueue.Monitor.DequeueFor | source/spdlog/include/spdlog/details/mpmc_blocking_q.h:52-67 | takes the oldest message and leaves the others in order, or waits exactly when there is none |
| BlockingQueue.Monitor.ProcessMsg | source/spdlog/include/spdlog/details/thread_pool-inl.h:89-121 | the notification wakes the destructor if it waits, and only a terminate message ends the loop |
| BlockingQueue.Monitor.CloseAll | source/spdlog/include/spdlog/details/thread_pool-inl.h:38-42 | the destructor starts with one terminate message owed to each thread |
| BlockingQueue.Monitor.PostTerminate | source/spdlog/include/spdlog/details/thread_pool-inl.h:42-45 | one turn of the loop in the destructor appends a terminate message, or waits exactly when there is no room |
| BlockingQueue.Monitor.NotifyTerminate | source/spdlog/include/spdlog/details/mpmc_blocking_q.h:39-39 | the notification after a terminate message is the step that wakes one waiting worker |
| RotatingSink.ConcatMove | source/spdlog/include/spdlog/sinks/rotating_file_sink-inl.h:94-116 | moving a file one place up loses only the text it replaces, and only in the last place |
| RotatingSink.ConcatWrite | source/spdlog/include/spdlog/sinks/rotating_file_sink-inl.h:74-74 | writing appends to the concatenation of all files |
| RotatingSink.RotatingSink.constructor | source/spdlog/include/spdlog/sinks/rotating_file_sink-inl.h:26-39 | the counter is the size that was found, all of it stale when the file is rotated away at once; what is lost then |
| RotatingSink.RotatingSink.MoveUp | source/spdlog/include/spdlog/sinks/rotating_file_sink-inl.h:94-116 | each file up to the last is the one before, if there was one, with gaps kept; only the last one stays if nothing takes its place; the live file is free, and at most the text of the last one is lost |
| RotatingSink.RotatingSink.Rotate | source/spdlog/include/spdlog/sinks/rotating_file_sink-inl.h:83-118 | each file is the one before and the live file empty; files max_files down to 0 stay a suffix of all text, and exactly the last file is lost, only if another takes its place |
| RotatingSink.RotatesWhen | source/spdlog/include/spdlog/sinks/rotating_file_sink-inl.h:63-75 | for any messages: the sink rotates if and only if they do not all fit on top of what is counted at the start |
| RotatingSink.RotatingSink.SinkIt | source/spdlog/include/spdlog/sinks/rotating_file_sink-inl.h:63-75 | initial contents followed by all messages = lost text + files max_files down to 0; it rotates exactly when the message does not fit on top of the live file and of the size found on opening, if that was rotated away and nothing has been since; exactly what is lost; the live file stays within `max_size` when the message does |
| RotatingSink.LosesEarly | source/spdlog/include/spdlog/sinks/rotating_file_sink-inl.h:26-75 | a file of ten characters with a limit of ten is lost to a message of one, although both would fit |
| RingBuffer.PushItem | source/taskete/lockfree_ringbuffer.hpp:83-100 | on the ring a push appends, and the flag tells full from empty |
| RingBuffer.PullItem | source/taskete/lockfree_ringbuffer.hpp:102-120 | on the ring a pull removes the oldest item |
| RingBuffer.RingBuffer.TryPush | source/taskete/lockfree_ringbuffer.hpp:83-100 | appends, and fails exactly when `size` items are held |
| RingBuffer.RingBuffer.TryPull | source/taskete/lockfree_ringbuffer.hpp:102-120 | removes the oldest item, and fails exactly when nothing is held |
| RingBuffer.RingBuffer.IsEmpty | source/taskete/lockfree_ringbuffer.hpp:122-129 | true exactly when nothing is held |
| RingBuffer.RingBuffer.Clear | source/taskete/lockfree_ringbuffer.hpp:131-137 | nothing is held afterwards |

## Left out

- `snprintf_float`, taking doubles apart, the table of cached powers of ten and the choice between the float
  algorithms: the model starts from a significand, an exponent and scaled 64-bit numbers.
- FormatFloat.FormatShortest: that the scaled numbers are less than a unit off, and the bounds not closer than
  four units, is asked for; it rests on the table of cached powers. Single precision is not modelled.
- BigintModel.Bigint.AssignPow10: stated below 2^30, because the bit mask of the original is an `int`
  that overflows from there on.
- BigintModel.Bigint.DivmodAssign: stated for quotients that fit the `int` of the original.
- FormatString.ParseFormatString: a handler is the position that its specifier callback returns; what it
  does besides is modelled on the sequence of calls that it receives.
- FormatSpecs.SpecsAt: `parse_format_specs` is a function from the position to the calls; it has no loop
  of its own. Numeric alignment with `=`, which is off by default, is not modelled.
- FormatMeaning.WrittenMeans: the pieces cover text, ids and specifiers; strings that no pieces write, such as
  those with a width that has leading zeros, are covered by `ParseFormatString` and `CompiledIsDirect` only.
- FormatCompiler.CountParts: on malformed strings the counter's parse ends at the first error here,
  while the original ignores errors and may count on; such strings do not compile.
- Arguments of custom types, which parse their own specifiers, and the position kept for them
  (`arg_id_end`); locale-dependent output; error messages after parsing.
- Compile-time recursion over format strings (compile.h, lines 507-536), `printf.h`, `chrono.h`,
  `ranges.h`, `color.h`: either the same parts by other means or only easy members.
- DecimalText.CountDigits: the table of powers of ten is the function that it tabulates.
- PoolManager.Manager.Construct: locks, allocation failures of the memory resource, and constructors that
  throw are not modelled; operations are sequential.
- PoolManager.Manager.Destroy: asks for a live handle, as the original does of its callers.
- ThreadPool.StepInv: a step is what happens under the mutex, or a notification outside it; producers
  other than the destructor that wait for room are not modelled as waiting threads.
- RotatingSink.RotatingSink.Rotate: renaming succeeds; retries, failures and the file names behind the
  numbers are not modelled.
- RingBuffer.RingBuffer.TryPush: each call is one step; the separate stores of cursor and flag, and
  `free_space`, are not modelled.
- `shared_memory`, `node`, `execution_payload`, `spinlock`, the other sinks, the registry and the clock:
  plumbing, or only easy members.
