# Number formatting, argument permutation, JSON trees and result queues, in Dafny

This project models the parts of the proxy's bundled libraries whose correctness is arithmetic or bookkeeping over
many steps, and proves what each is for:

- **Exact decimal output of floating-point numbers (fmt).** `Bigint.dfy` is the variable-length integer with a shared
  exponent, `FallbackFormat.dfy` the digit generator of Steele & White on top of it, `Grisu.dfy` the fast digit loop
  with error tracking, `GrisuProduct.dfy` the normalization and the 64-bit product that feed it, and `FormatFloat.dfy` the function that
  joins them. The main result: the digits printed for a precision are the value rounded half to even, whichever of
  the two generators produced them, with the exact condition under which they are not. Values are significand * 2^exponent; fractions are compared by integers.
- **Division-free tests (fmt).** `DivTest.dfy`: modular inverses decide divisibility, for both tables, and strip
  trailing zeros.
- **Text (fmt, base32).** `Utf8.dfy`: the branch-free UTF-8 decoder accepts the grammar of section 4 of RFC 3629, and
  the converter gives the UTF-16 form of section 2.1 of RFC 2781. `Base32.dfy`: the bit-packing loop against section 6
  of RFC 4648.
- **Format strings (fmt).** `FormatString.dfy`: the two scanning algorithms agree. `FormatFields.dfy`: the grammar of
  replacement fields. `FormatPrint.dfy`: what is written from it is read back. `FormatCompile.dfy`: compiling to
  parts and running them is interpreting. `FormatMeaning.dfy`: what a string prints that was written from texts and
  fields. `FormatCount.dfy`: the parts fit the array that was counted for them.
- **Arguments (getopt).** `Permute.dfy`: the block exchange along gcd cycles. `Getopt.dfy`: the scanner that uses it,
  over every run, and the command lines that it reads back.
- **JSON (RapidJSON).** `Json.dfy`: visiting a tree and rebuilding it from the events. `Members.dfy`: the index by name
  kept beside the member array. `Pool.dfy`: the pool allocator and the counting of its handles.
- **Results of mining threads.** `JobResults.dfy`: the queue between threads as interleaved steps.

`Powers.dfy`, `Rounding.dfy` and `Options.dfy` hold what several of them share.

## What the proofs found

The model follows the code where it and the intention part; each of these is stated with the exact condition.

- In the exact generator, for a value whose exponent is not negative and whose predecessor is closer (a power of two
  from 2^52 on), the denominator is shifted by one bit where the numerator was shifted by two, so digits of twice the
  value are generated. If the double has as many digits as expected it is printed. If it has one more, the first
  character is no digit, or, where the last nine is rounded up after a leading ten, the digits are neither the value nor
  its double (`FallbackFormats.HalvedDenominatorExample` has all three). The output is right exactly where
  `FallbackFormats.ExactUnlessHalved` says. Values that Grisu decides are not affected; 2^52 in the fixed format with
  precision zero is one that it does not decide (`FormatFloats.HalvedOutputExample`).
- With precision zero and no fixed point Grisu prints one digit and the exact generator rounds to none: 4.5 leaves no
  digit, 4.4 prints 4 (`FormatFloats.PrecisionZeroExample`, `FormatFloats.PrecisionZeroDecided`). When the output is the
  value rounded to one digit is `FormatFloats.PrecisionZeroExactly`. A precision above 767 is cut to 767.
- `compare` takes two equal numbers for different exactly if the longer array ends in zero words
  (`Bigints.Bigint.Compare`); `subtract_aligned` is wrong exactly if its borrow sticks (`Bigints.Bigint.SubtractAligned`);
  a division ends with a remainder equal to the divisor exactly on a tie of the first kind
  (`Bigints.Bigint.DivModAssign`). Digit generation never reaches any of these (`Bigints.NoStuckBorrow`,
  `FallbackFormats.NoHiddenTie`).
- `count_parts` looks for the end of a field by counting braces, so a field whose type is an opening brace makes the
  count too small, unless it is the last part; the count is never too large. That is exact for every string that compiles
  (`FormatCount.CountExact`), also where the counter meets a closing brace that is unmatched for it: there the loop for
  short strings stops with the parts so far and the search for long ones goes on with the next field. No string that
  formats anything has such a type.
- A JSON number made without a value is visited as a double and loses its integer flags (`Json.UnsetNumberBecomesDouble`).

## Model
| member | source | states |
|---|---|---|
| Bigints.Accumulator.Add | src/3rdparty/fmt/format-inl.h:1218-1221 | the two-word sum grows by exactly n while it fits 128 bits, the carry between the words included |
| Bigints.Accumulator.ShiftRightWord | src/3rdparty/fmt/format-inl.h:1222-1227 | the sum is divided by 2^32, rounding down |
| Bigints.Bigint.SubtractBits | src/3rdparty/fmt/format-inl.h:1247-1252 | one word of a subtraction: the word wraps and the new borrow is 1 exactly if it was too small |
| Bigints.Bigint.RemoveLeadingZeros | src/3rdparty/fmt/format-inl.h:1253-1258 | the value stays and no zero word is left on top, except the lowest one |
| Bigints.Bigint.SubtractAligned | src/3rdparty/fmt/format-inl.h:1260-1269 | the difference is exact if and only if the borrow does not stick in a zero word above the subtrahend, because the borrow tail never advances |
| Bigints.SubtractWordsPartial | src/3rdparty/fmt/format-inl.h:1264-1266 | word by word: the low part is the difference of the low parts, up to the borrow that is still owed |
| Bigints.DifferenceValue | src/3rdparty/fmt/format-inl.h:1260-1269 | words, borrow tail and trimming together give the difference exactly when the borrow does not stick |
| Bigints.BorrowFits | src/3rdparty/fmt/format-inl.h:1267 | a borrow left over after the common words always has a word to be taken from |
| Bigints.Bigint.Multiply32 | src/3rdparty/fmt/format-inl.h:1271-1280 | the value is multiplied exactly, and a trimmed number stays trimmed |
| Bigints.Bigint.Multiply64 | src/3rdparty/fmt/format-inl.h:1282-1297 | the same for a 64-bit factor taken in two halves with a 64-bit carry |
| Bigints.Bigint.Assign | src/3rdparty/fmt/format-inl.h:1315-1323 | the number has the value n, exponent zero and no leading zero word |
| Bigints.Bigint.ShiftLeft | src/3rdparty/fmt/format-inl.h:1327-1340 | the value is multiplied by 2^shift, 32-bit steps going to the exponent |
| Bigints.Bigint.Compare | src/3rdparty/fmt/format-inl.h:1348-1362 | the sign of the difference, except exactly when the operands are equal and the longer array ends in zero words; then the longer array wins |
| Bigints.TopWordsDecide | src/3rdparty/fmt/format-inl.h:1355-1359 | the first differing word from the top decides |
| Bigints.LeftoverDecides | src/3rdparty/fmt/format-inl.h:1360 | once all common words agree, the longer array is at least as large, and larger exactly if a leftover word is not zero |
| Bigints.Bigint.AddCompare | src/3rdparty/fmt/format-inl.h:1365-1386 | the sign of lhs1 + lhs2 - rhs without forming the sum |
| Bigints.DeficitDecides | src/3rdparty/fmt/format-inl.h:1376-1384 | a surplus, or a deficit of two, in the upper words cannot be undone by the lower ones: both early exits are right |
| Bigints.SumBelow | src/3rdparty/fmt/format-inl.h:1370 | the exit by length: two numbers at least two words shorter than a third add up to less |
| Bigints.Bigint.AssignPow10 | src/3rdparty/fmt/format-inl.h:1389-1406 | the value is exactly 10^power |
| Bigints.Bigint.Square | src/3rdparty/fmt/format-inl.h:1408-1436 | the value is squared and the exponent doubled |
| Bigints.ConvSumIsProduct | src/3rdparty/fmt/format-inl.h:1415-1433 | the sum of all column sums, each at its weight, is the product of the two numbers |
| Bigints.SquareWordsValue | src/3rdparty/fmt/format-inl.h:1415-1433 | the words written so far plus the carry at its weight are the column sums so far, and the carry stays small enough |
| Bigints.SquareComplete | src/3rdparty/fmt/format-inl.h:1408-1436 | 2n words hold the whole square: nothing is carried out at the top |
| Bigints.Bigint.Align | src/3rdparty/fmt/format-inl.h:1440-1449 | the exponent is lowered to the other one and the value stays |
| Bigints.Bigint.DivModAssign | src/3rdparty/fmt/format-inl.h:1453-1464 | old value == quotient * divisor + new value for quotients below 2^32; the new value is below the divisor if and only if the operands are not a tie that the comparison takes for less |
| Bigints.NoStuckBorrow | src/3rdparty/fmt/format-inl.h:1440-1464 | with a quotient below 2^32 no subtraction of the division loop leaves its borrow stuck |
| FallbackFormats.SetUp | src/3rdparty/fmt/format-inl.h:2318-2356 | numerator / denominator is the value over 10^exp10, times two exactly in the case with the halved denominator; the operands can never be the tie that the division mistakes |
| FallbackFormats.NoHiddenTie | src/3rdparty/fmt/format-inl.h:2322-2356 | because of the powers of two in both numbers the division loop always ends with a remainder below the denominator |
| FallbackFormats.TakeDigit | src/3rdparty/fmt/format-inl.h:2395-2400 | one digit and the exact remainder below the denominator |
| FallbackFormats.LeadingDigits | src/3rdparty/fmt/format-inl.h:2395-2399 | the digits so far, times the denominator, plus what is left, are the numerator moved by as many places |
| FallbackFormats.GenerateDigits | src/3rdparty/fmt/format-inl.h:2394-2419 | for every numerator below twenty denominators: the characters stand for the fraction at that many places, rounded half to even, unless ten in front becomes one; they are all digits exactly below ten or in that case |
| FallbackFormats.PropagateCarry | src/3rdparty/fmt/format-inl.h:2404-2415 | the carry keeps the value, except that exactly a ten in front becomes one with the exponent one higher; the result is all digits exactly if the value is below eleven in front |
| FallbackFormats.RoundToNothing | src/3rdparty/fmt/format-inl.h:2388-2393 | with no digits asked for the one character is 1 exactly if the numerator is above one half of ten denominators |
| FallbackFormats.FallbackFormat | src/3rdparty/fmt/format-inl.h:2306-2420 | the number printed, its exponent and whether all its characters are digits, for every value, also where the doubled value has a digit too many |
| FallbackFormats.ExactUnlessHalved | src/3rdparty/fmt/format-inl.h:2333 | for every value below 10^(exp10 + 1) and every number of digits: the output is all digits and the value rounded half to even if and only if the denominator was not halved or the value is so small against the last position that doubling it does not show |
| FallbackFormats.HalvedDenominatorExample | src/3rdparty/fmt/format-inl.h:2333 | the generator called on 2^52, 2^53 and 2^102 with closer predecessors: twice the value; a first character that is no digit; and twenty digits that are neither the value nor its double |
| Rounding.RoundedHalfEvenUnique | src/3rdparty/fmt/format-inl.h:2401-2402 | there is at most one number that is a value rounded half to even |
| GrisuProducts.MultiplyRoundsHalfUp | src/3rdparty/fmt/format-inl.h:1170-1185 | the 128-bit form and the form on 32-bit parts both give lhs * rhs / 2^64 rounded half up, within 64 bits |
| GrisuProducts.ProductApproximates | src/3rdparty/fmt/format-inl.h:1170-1187 | the product with a power of ten that is rounded to nearest is less than one unit off |
| GrisuProducts.Normalize | src/3rdparty/fmt/format-inl.h:1152-1165 | the highest bit is set and the value kept, for subnormal numbers too |
| GrisuProducts.ScaledApproximates | src/3rdparty/fmt/format-inl.h:2457-2460 | normalizing and multiplying gives the value times the power of ten to less than one unit, the error the digit generator is started with, and an integral part that is not zero and fits 32 bits |
| Grisu.GetRoundDirection | src/3rdparty/fmt/format-inl.h:1473-1487 | down exactly if 2(r + e) <= d, up exactly if not down and 2(r - e) >= d, in 64-bit arithmetic without overflow |
| Grisu.DirectionDecides | src/3rdparty/fmt/format-inl.h:1473-1487 | a direction given for the approximation is the nearest rounding of every true value within the tracked error |
| Grisu.FixedHandler.OnStart | src/3rdparty/fmt/format-inl.h:1588-1603 | goes on, ends or gives up exactly when the precision, counted from the decimal point, is positive, used up, or undecidable |
| Grisu.FixedHandler.OnDigit | src/3rdparty/fmt/format-inl.h:1605-1633 | asks for more exactly while digits are missing, gives up exactly when the error leaves the last digit undecided, and otherwise writes the digit rounded |
| Grisu.FixedHandler.IncrementLast | src/3rdparty/fmt/format-inl.h:1622-1631 | one more in the last place, with the carry through all nines, is the old number plus one |
| Grisu.IntegralDigits | src/3rdparty/fmt/format-inl.h:1517-1567 | at most ten integral digits; an outcome is right for every true value within one unit |
| Grisu.IntegralStep | src/3rdparty/fmt/format-inl.h:1519-1562 | value == digits * unit + rest after every integral digit |
| Grisu.FractionalDigits | src/3rdparty/fmt/format-inl.h:1568-1577 | the fractional digits, with the error growing tenfold a digit; ends before the precision is exceeded and never overflows |
| Grisu.GenDigits | src/3rdparty/fmt/format-inl.h:1501-1578 | when it is done the digits are a nearest rounding, at their position, of every value within one unit of the approximation; it gives up exactly on the inputs that Grisu.GivesUp describes |
| FormatFloats.FormatFloat | src/3rdparty/fmt/format-inl.h:2452-2482 | for every value and precision, with a table entry rounded to nearest: a fixed format with precision p rounds at position -p (-767 above 767), the others as many digits below the first digit of the value as the precision says; the number printed is the value rounded half to even there if and only if the exact generator did not halve a denominator or the doubling does not show, and always where none is halved; trailing zeros are dropped without changing the number |
| FormatFloats.LeadSeen | src/3rdparty/fmt/format-inl.h:2454-2460 | the digits that the product with the cached power shows begin where the value's begin, except exactly where the product was rounded up onto the power of ten above the value |
| FormatFloats.GenerateOutput | src/3rdparty/fmt/format-inl.h:2454-2472 | Grisu digits, or the exact generator started at the right exponent exactly when Grisu gives up; rounded at the positions stated for format_float |
| FormatFloats.GrisuPrints | src/3rdparty/fmt/format-inl.h:2460-2472 | the digits that Grisu decided print the value itself, because its approximation is close enough |
| FormatFloats.FormatsRight | src/3rdparty/fmt/format-inl.h:2466-2472 | the number printed is the value rounded if and only if Grisu decided it, no denominator was halved, or the doubling does not show |
| FormatFloats.PrecisionZeroExactly | src/3rdparty/fmt/format-inl.h:2465-2482 | precision zero without a fixed point: the output of format_float, halved denominators included, is the value rounded to one digit if and only if Grisu decides it, or the value is at least nine and a half units of the leading position or at most half of one |
| FormatFloats.NoDigitAgreesWithOne | src/3rdparty/fmt/format-inl.h:2465-2468 | of the value alone: rounding to no digit and rounding to one digit print the same exactly in these two cases |
| FormatFloats.HalvedOutputExample | src/3rdparty/fmt/format-inl.h:2452-2482 | format_float called on 2^52 with a closer predecessor, in the fixed format with precision zero, prints twice the value |
| FormatFloats.PrecisionZeroExample | src/3rdparty/fmt/format-inl.h:2452-2482 | 4.5 with precision zero in the general format leaves no digit at all |
| FormatFloats.PrecisionZeroDecided | src/3rdparty/fmt/format-inl.h:2452-2482 | 4.4 there prints its one digit |
| FormatFloats.ZeroDropped | src/3rdparty/fmt/format-inl.h:2473-2481 | dropping a trailing zero and raising the exponent keeps the number and its rounding |
| DivTest.InverseTest | src/3rdparty/fmt/format-inl.h:1762-1771 | x * inverse mod 2^w is at most (2^w - 1) / d if and only if d divides x, and then it is x / d |
| DivTest.TablesChained | src/3rdparty/fmt/format-inl.h:321-354 | every table entry follows from the one before by dividing by five modulo the word size |
| DivTest.ChainedEntry | src/3rdparty/fmt/format-inl.h:321-354 | entry k holds the inverse of 5^k and the largest quotient by 5^k |
| DivTest.DivisibleByPowerOf5In32 | src/3rdparty/fmt/format-inl.h:1762-1766 | true exactly for the multiples of 5^exp |
| DivTest.DivisibleByPowerOf5In64 | src/3rdparty/fmt/format-inl.h:1767-1771 | true exactly for the multiples of 5^exp |
| DivTest.RemoveTrailingZeros32 | src/3rdparty/fmt/format-inl.h:2003-2028 | n / 10^s for the largest s up to seven with 10^s dividing n |
| DivTest.RemoveTrailingZeros64 | src/3rdparty/fmt/format-inl.h:2031-2113 | n / 10^s for the largest s up to sixteen, for every n below 2^32 * 10^8 |
| DivTest.StripQuotient | src/3rdparty/fmt/format-inl.h:2053-2062 | the zeros beyond the eighth, counted on the 32-bit quotient |
| DivTest.StripRemainder | src/3rdparty/fmt/format-inl.h:2066-2112 | fewer than eight zeros, counted on the remainder by 10^8 only |
| DivTest.EightZeros | src/3rdparty/fmt/format-inl.h:2049-2053 | the 64-bit test finds the multiples of 5^8 and yields the quotient by 10^8 |
| DivTest.StrippedUnique | src/3rdparty/fmt/format-inl.h:2003-2113 | the number without its zeros and their count are determined by the input |
| Utf8.DecodeExact | src/3rdparty/fmt/format-inl.h:2606-2642 | the branch-free decoder reports no error exactly for a character of section 4 of RFC 3629, and then gives the character whose encoding it read and its length |
| Utf8.EncodingIsChar | src/3rdparty/fmt/format-inl.h:2606-2642 | the encoding of every scalar value obeys the grammar, whatever follows |
| Utf8.Utf8ToUtf16.Transcode | src/3rdparty/fmt/format-inl.h:2683-2696 | one character is read and its UTF-16 form appended |
| Utf8.Utf8ToUtf16.Convert | src/3rdparty/fmt/format-inl.h:2682-2711 | succeeds exactly on well-formed text, and then the buffer holds the UTF-16 form of the characters and a terminator, every byte consumed once |
| Utf8.Utf8ToUtf16.ConvertTail | src/3rdparty/fmt/format-inl.h:2702-2709 | the last bytes, out of a zero-padded copy, are read like the rest |
| Utf8.PaddedWindow | src/3rdparty/fmt/format-inl.h:2702-2709 | zero padding never completes a character, and reads stay inside the seven bytes |
| Utf8.Utf16RoundTrip | src/3rdparty/fmt/format-inl.h:2688-2694 | decoding the UTF-16 form as section 2.2 of RFC 2781 says, where a surrogate out of its range or on its own is an error, gives the characters back |
| Utf8.SurrogateRanges | src/3rdparty/fmt/format-inl.h:2688-2694 | a character above 65535 is two units, in the first and in the second surrogate range; any other is itself |
| Utf8.EncodingsAreWellFormed | src/3rdparty/fmt/format-inl.h:2606-2642 | the encoding of every list of characters is accepted |
| Utf8.Encode8Injective | src/3rdparty/fmt/format-inl.h:2606-2642 | a text is the encoding of one list of characters only |
| Base32.Encode | src/3rdparty/base32/base32.h:35-65 | as much of the encoding as fits, the count, and a terminator if there is room; a negative or too large length is refused and nothing written |
| Base32.EncodeBits | src/3rdparty/base32/base32.h:39-60 | the characters written are always a prefix of the encoding of the whole input |
| Base32.NextSymbol | src/3rdparty/base32/base32.h:45-58 | the low bits of the accumulator, at most twelve, are the bits not yet written, across the refill, the fill-up with zeros and 32-bit wrap-around |
| Base32.ByteAppended | src/3rdparty/base32/base32.h:47-48 | shifting in a byte appends its bits even when the accumulator wraps |
| Base32.RoundTrip | src/3rdparty/base32/base32.h:35-65 | decoding by section 6 of RFC 4648 gives the input back, and the length is 8n/5 rounded up |
| Base32.AlphabetIsTable | src/3rdparty/base32/base32.h:58 | the alphabet is table 3 of RFC 4648 |
| FormatStrings.ParseShort | src/3rdparty/fmt/format.h:2858-2875 | calls the handler as the brace-by-brace reading of the string says, or fails where that fails |
| FormatStrings.ParseLong | src/3rdparty/fmt/format.h:2876-2900 | the same for the two searches, although the text is split differently |
| FormatStrings.Write | src/3rdparty/fmt/format.h:2876-2891 | splits text after every doubled closing brace and fails at a single one |
| FormatStrings.TextThenField | src/3rdparty/fmt/format.h:2892-2900 | searching for the opening brace first and for closing braces afterwards reads the same as going brace by brace |
| FormatStrings.ParseFormatString | src/3rdparty/fmt/format.h:2853-2901 | the length of the string decides the algorithm and nothing else |
| FormatStrings.ScanSimulates | src/3rdparty/fmt/format.h:2853-2901 | two handlers that stay related step by step are related after the whole string |
| FormatStrings.ScanEscaped | src/3rdparty/fmt/format.h:2858-2875 | scanning text with doubled braces yields the text |
| FormatFields.ParseNonnegativeInt | src/3rdparty/fmt/format.h:2234-2252 | the decimal value of the digits, or an error exactly if it is above 2^31 - 1 |
| FormatPrint.ArgIdRoundTrip | src/3rdparty/fmt/format.h:2585-2616 | every argument id, written in front of a brace or colon, is read back as that id with its end |
| FormatPrint.HeadRoundTrip | src/3rdparty/fmt/format.h:2826-2851 | a field with or without specifiers is told apart and gives the id that was written |
| FormatPrint.SyntaxRoundTrip | src/3rdparty/fmt/format.h:2744-2793 | every fill, alignment, sign, alternate form, zero flag, width, precision and type that can be written is read back, up to the closing brace |
| FormatFields.EarlyIsLate | src/3rdparty/fmt/format.h:2452-2499 | looking up dynamic width and precision while parsing, with the checks, gives the same specifiers as remembering the arguments and settling them when running, or both fail |
| FormatMeaning.ResolvedInTurn | src/3rdparty/fmt/core.h:585-604 | behind any ids that do not mix, an automatic id is the argument with the number of automatic ids before it, an index and a name are the argument they say, and an id that mixes the two ways of counting is an error |
| FormatMeaning.SpecsInTurn | src/3rdparty/fmt/format.h:2329-2351 | the specifiers that interpreting hands to a formatter: width and precision as written, as the referenced argument says, or 0 and -1; type, sign and alternate form as written; numeric alignment exactly with the zero flag; the fill written, a space, or a zero in front; an error exactly for a type that cannot have them, an argument that is no such number, or mixed ids |
| FormatMeaning.Given | src/3rdparty/fmt/format.h:2329-2351 | these specifiers, said field by field of what was written |
| FormatMeaning.SpecsInRun | src/3rdparty/fmt/compile.h:240-258 | compiling and settling when running comes to the same specifiers, or to an error in the same cases |
| FormatMeaning.MarksWritten | src/3rdparty/fmt/format.h:2744-2793 | the characters that alignment, sign, alternate form, zero flag, precision and references are written with |
| FormatCompile.PartAgrees | src/3rdparty/fmt/compile.h:163-182 | one field, with the same formatters on both sides: its part, run later, gives the text that interpreting gives now, and both move to the same place |
| FormatCompile.CompilerSimulates | src/3rdparty/fmt/compile.h:126-183 | running what is compiled so far always is what the interpreter has printed so far; a part that cannot be run stays |
| FormatCompile.VformatTo | src/3rdparty/fmt/compile.h:213-264 | the loop over the parts gives the texts one after the other, or fails at the first part that fails |
| FormatCompile.CompiledMeansInterpreted | src/3rdparty/fmt/compile.h:205-269 | for every format string, arguments and formatters used on both sides, compiling and running prints what interpreting prints, or both fail |
| FormatCompile.CompilingIsInterpreting | src/3rdparty/fmt/format.h:2026-2046 | with the formatters that each side really uses: for given arguments, compiling and running prints what interpreting prints for every format string if and only if the floating-point arguments are written alike by the function without specifiers and the one with default specifiers |
| FormatMeaning.WrittenMeans | src/3rdparty/fmt/format.h:2826-2969 | for any texts and fields in between, with or without ids and specifiers, and braces in the texts doubled: interpreting the string written from them prints the texts with what each field's argument prints in between, or fails exactly if ids mix, an argument is missing, or specifiers or arguments are refused |
| FormatMeaning.WrittenRuns | src/3rdparty/fmt/compile.h:205-269 | and so does compiling that string and running its parts |
| FormatMeaning.FieldAlone | src/3rdparty/fmt/format.h:2826-2851 | a string that is one field prints what the field prints |
| FormatMeaning.EachInTurn | src/backend/cpu/platform/lscpu_riscv.cpp:124 | texts with empty pairs of braces in between print the arguments in turn |
| FormatMeaning.MixingFails | src/3rdparty/fmt/core.h:585-602 | a string with an automatic id and an index anywhere is an error |
| FormatMeaning.PaddedHex | src/base/net/stratum/benchmark/BenchConfig.cpp:121 | a 64-bit number in the field {:016X} reaches the formatter with width 16, numeric alignment, fill zero and type X |
| FormatMeaning.Format | src/3rdparty/fmt/format.h:2918-2969 | interpreting through the parser is the brace-by-brace interpretation, and prints what a written string means |
| FormatMeaning.FormatCompiled | src/3rdparty/fmt/compile.h:185-192 | compiling through the parser and running the parts is running what the brace-by-brace compiler emits, prints what a written string means, and gives the interpreted output where the floating-point arguments are written alike |
| FormatCompile.EscapeRoundTrip | src/3rdparty/fmt/format.h:2826-2875 | formatting a string with its braces doubled gives the string, whatever the arguments |
| FormatCount.SpecsField | src/3rdparty/fmt/compile.h:99-112 | counting braces ends at the closing brace that the grammar finds, unless the type is an opening brace; then it ends at the next brace that balances after that one |
| FormatCount.SyncedBound | src/3rdparty/fmt/compile.h:84-115 | from any place where counter and compiler are together, the counter adds at most as many parts as are emitted from there on, and as many exactly if no part before the last has an opening brace as its type |
| FormatCount.CountExact | src/3rdparty/fmt/compile.h:117-123 | for every string that compiles: the count is never above the number of parts emitted, and is that number if and only if no part before the last has an opening brace as its type |
| FormatCount.InsideBound | src/3rdparty/fmt/compile.h:99-115 | where the counter looks for a balancing brace behind a field that the compiler has finished, it misses at least one part, unless the string has ended |
| FormatCount.CountShort | src/3rdparty/fmt/format.h:2858-2875 | the loop for short strings gives this count; at an unmatched closing brace it stops with the parts so far |
| FormatCount.CountLong | src/3rdparty/fmt/format.h:2876-2900 | the two searches give it too, except that an unmatched closing brace drops the text up to the next opening brace and the count goes on there |
| FormatCount.Count | src/3rdparty/fmt/compile.h:117-123 | counting through the parser is the count of these lemmas, the length deciding the algorithm |
| FormatCount.FormattingStringsFit | src/3rdparty/fmt/compile.h:296-315 | hence for every string that formats some arguments the parts fill their array exactly |
| FormatCount.BraceTypeExamples | src/3rdparty/fmt/compile.h:99-112 | such a field alone is counted right; in front of text, or of a doubled brace that stops the counter, two parts are counted as one |
| Json.ConstructorsExact | src/3rdparty/rapidjson/document.h:792-828 | every integer constructor sets exactly the flags of the types that its argument fits |
| Json.VisitedAsFirstFit | src/3rdparty/rapidjson/document.h:1977-1984 | an integer is visited as itself, as the first of int, unsigned, 64-bit int and 64-bit unsigned that it fits |
| Json.NumberComesBack | src/3rdparty/rapidjson/document.h:1977-1984 | a number read as one of its types and constructed again has the same flags and bytes |
| Json.FlagsComeBack | src/3rdparty/rapidjson/document.h:1977-1984 | that holds exactly for the numbers made by a constructor with a value |
| Json.UnsetNumberBecomesDouble | src/3rdparty/rapidjson/document.h:720-731 | a number made by type alone has every flag, is visited as a double and loses its integer flags |
| Json.GenericDocument.EndObject | src/3rdparty/rapidjson/document.h:2849-2853 | the popped names and values become the members of the object below them |
| Json.GenericDocument.EndArray | src/3rdparty/rapidjson/document.h:2857-2861 | the popped values become the elements of the array below them |
| Json.GenericDocument.Accept | src/3rdparty/rapidjson/document.h:1948-1985 | visiting a value with the document as the handler sends exactly the events of the value, pushes exactly that value and leaves the stack below unchanged |
| Json.ElementEventsAt | src/3rdparty/rapidjson/document.h:1969-1971 | elements are visited from the first to the last |
| Json.MemberEventsAt | src/3rdparty/rapidjson/document.h:1957-1962 | members are visited from the first to the last, each name in front of its value |
| Json.ReplayRebuilds | src/3rdparty/rapidjson/document.h:1948-1985 | replaying the events of any value rebuilds it on top of any stack |
| Json.EventsInjective | src/3rdparty/rapidjson/document.h:1948-1985 | different values have different events |
| Members.FindInArray | src/3rdparty/rapidjson/document.h:2282-2288 | the first member with the name, or the end |
| Members.ObjectMembers.FindMember | src/3rdparty/rapidjson/document.h:2229-2238 | a member with the name if there is one, the end otherwise; for distinct names the one that the linear search finds |
| Members.ObjectMembers.Insert | src/3rdparty/rapidjson/document.h:2312-2316 | an iterator no member has; with it the array stays indexed one to one when the member is appended |
| Members.ObjectMembers.Reserve | src/3rdparty/rapidjson/document.h:2191-2226 | as many members and iterators are moved as the map has nodes, and these are all of them |
| Members.ObjectMembers.AddMember | src/3rdparty/rapidjson/document.h:2304-2318 | the member is appended and indexed; the capacity stays while there is room, grows by half, rounded up, when full, and starts with sixteen |
| Members.ObjectMembers.RemoveMember | src/3rdparty/rapidjson/document.h:2320-2342 | the last member takes the place of the removed one, in the array, among the iterators and in the map |
| Members.ObjectMembers.EraseMembers | src/3rdparty/rapidjson/document.h:2344-2376 | the members of the range are gone, the others in order, and every iterator is at its member |
| Members.ObjectMembers.ClearMembers | src/3rdparty/rapidjson/document.h:2240-2250 | no member and no node is left |
| Members.ShiftOne | src/3rdparty/rapidjson/document.h:2359-2369 | one step of moving members down keeps array, iterators and map in step |
| Members.IndexedAgain | src/3rdparty/rapidjson/document.h:2344-2376 | after the range is erased, names and positions are indexed one to one again |
| Pool.MemoryPool.constructor | src/3rdparty/rapidjson/allocators.h:169-189 | no block is live and nothing is used |
| Pool.MemoryPool.Malloc | src/3rdparty/rapidjson/allocators.h:321-334 | a new aligned block, disjoint from all live ones and inside one chunk, with all contents kept: the next bytes of the head chunk if they fit, else the first of a new chunk of the larger of chunk size and block; fails exactly for size zero or when a needed chunk is refused |
| Pool.MemoryPool.AddChunk | src/3rdparty/rapidjson/allocators.h:390-402 | a chunk that is granted becomes the head, a refused one changes nothing |
| Pool.MemoryPool.Realloc | src/3rdparty/rapidjson/allocators.h:337-369 | the old contents are kept, for any size up to the block's own; in place exactly for the last block of the head chunk given with its full size and room behind it; every other live block keeps its contents |
| Pool.MemoryPool.CopyBlock | src/3rdparty/rapidjson/allocators.h:362-366 | the copy changes no live block but the new one |
| Pool.MemoryPool.Clear | src/3rdparty/rapidjson/allocators.h:277-288 | only the first chunk is left, empty |
| Pool.MemoryPool.Size | src/3rdparty/rapidjson/allocators.h:304-310 | the bytes in use, never more than the capacity |
| Pool.MemoryPool.Capacity | src/3rdparty/rapidjson/allocators.h:293-299 | the bytes of all chunks, never less than those in use |
| Pool.HandleCount.CopyConstruct | src/3rdparty/rapidjson/allocators.h:216-223 | one more handle of the same pool, counted |
| Pool.HandleCount.MoveConstruct | src/3rdparty/rapidjson/allocators.h:236-243 | the pool goes to the new handle and the count stays |
| Pool.HandleCount.CopyAssign | src/3rdparty/rapidjson/allocators.h:224-233 | the old pool is released exactly if this was its last handle and the other is not one of it; assigning a handle to itself changes nothing |
| Pool.HandleCount.MoveAssign | src/3rdparty/rapidjson/allocators.h:244-253 | the old pool is released exactly if this was its last handle; a handle moved to itself is left without a pool |
| Pool.HandleCount.Destroy | src/3rdparty/rapidjson/allocators.h:259-274 | the pool is released exactly with its last handle, and never twice |
| JobResults.SubmitNeverRefused | src/net/JobResults.cpp:61-67 | a result can be submitted in every state |
| JobResults.StepKeepsSound | src/net/JobResults.cpp:61-87 | every step of every thread keeps: delivered, then swapped out, then queued results are those submitted by the steps so far, in order |
| JobResults.ListenerCalls | src/net/JobResults.cpp:82-84 | only a step of the main thread inside the callback calls the listener, once |
| JobResults.RunsAreSound | src/net/JobResults.cpp:61-87 | and so does every interleaving of them, with wake-ups joined or not |
| JobResults.DeliveredInOrder | src/net/JobResults.cpp:61-87 | for every run from the start, the listener hears what the submitting steps of the run carry, once each and in that order; the swap always takes an empty vector, and with no wake-up pending and no callback under way all are out |
| JobResults.ConsumerNeverStuck | src/net/JobResults.cpp:75-87 | while there is work the main thread can take a step that lessens it |
| JobResults.EverythingDelivered | src/net/JobResults.cpp:61-87 | after every run from the start the main thread alone, without another submission, delivers everything that the run submitted |
| Permute.Gcd | src/3rdparty/getopt/getopt.h:155-168 | the greatest common divisor: it divides both lengths and is a combination of them |
| Permute.CycleCovers | src/3rdparty/getopt/getopt.h:191-205 | the cycle through a class reaches every slot of it |
| Permute.CycleInjective | src/3rdparty/getopt/getopt.h:191-205 | and none twice |
| Permute.CycleCloses | src/3rdparty/getopt/getopt.h:191-205 | and returns to its start after n / gcd steps |
| Permute.SwapMoves | src/3rdparty/getopt/getopt.h:191-205 | one swap puts one more entry where it belongs and touches no other class |
| Permute.PermuteArgs | src/3rdparty/getopt/getopt.h:176-206 | the two blocks are exchanged, order kept inside each and everything outside untouched |
| Getopt.ReplayLayout | src/3rdparty/getopt/getopt.h:488-503 | at every moment the skipped non-options are one block in their original order, among the options in theirs |
| Getopt.PickedPartition | src/3rdparty/getopt/getopt.h:449-523 | options and skipped arguments together are all arguments |
| Getopt.Scanner.Skip | src/3rdparty/getopt/getopt.h:488-500 | a skipped non-option joins the block, which moves behind the options found since |
| Getopt.Scanner.Finish | src/3rdparty/getopt/getopt.h:508-522 | the options come first, then the skipped arguments, then what was not read, and optind is at the first skipped one |
| Getopt.Scanner.FinishAtEnd | src/3rdparty/getopt/getopt.h:452-469 | the same at the end of the argument vector, with or without an open block |
| Getopt.Scanner.NextElement | src/3rdparty/getopt/getopt.h:449-523 | moves to the next option or to the end of the scan, passing over the non-options in between; the results and the arguments passed over from here on are those of the original arguments |
| Getopt.Scanner.PassedOver | src/3rdparty/getopt/getopt.h:470-501 | the arguments passed over are exactly the non-options that no option, and no -W with its name, takes as its argument |
| Getopt.Scanner.BeginOption | src/3rdparty/getopt/getopt.h:502-523 | "--" ends the scan with the vector sorted; anything else starts an option |
| Getopt.MatchLong | src/3rdparty/getopt/getopt.h:303-331 | the first entry with the full name, else the first abbreviated one unless another abbreviated one differs from it; a single letter that is a short option does not abbreviate |
| Getopt.NameUnderstood | src/3rdparty/getopt/getopt.h:303-331 | a name that stands for an entry, in full or as an abbreviation of entries that do not differ, is understood as that entry |
| Getopt.Scanner.ParseLong | src/3rdparty/getopt/getopt.h:284-406 | one or two arguments used up with the value behind an equals sign or in the next argument, or none and a short option tried instead, for every way a long option can be matched |
| Getopt.Scanner.ByArity | src/3rdparty/getopt/getopt.h:547-604 | of a letter where it first stands in the option string: with one colon behind it, it takes the rest of the cluster or the next argument, or is an error without one; with two, only what is attached; with none, nothing; a letter that does not stand there is a bad option |
| Getopt.Scanner.ShortOption | src/3rdparty/getopt/getopt.h:547-604 | the same said of optind, place, the argument vector and the option string; the result, with the option's argument, the arguments used up and the rest of the cluster are those that the original arguments give |
| Getopt.Scanner.OneOption | src/3rdparty/getopt/getopt.h:525-604 | the same with long options tried first |
| Getopt.Scanner.OneDashRead | src/3rdparty/getopt/getopt.h:531-545 | where only long options are meant, a name of more than one letter behind one dash is read as the long option, even if it begins with a short one |
| Getopt.Scanner.WordRead | src/3rdparty/getopt/getopt.h:564-580 | -W with a name behind it, or in the next argument, is that long option |
| Getopt.Scanner.GetoptInternal | src/3rdparty/getopt/getopt.h:412-604 | each call returns the next result of the original arguments, uses up the arguments they say, and at the end sorts behind the options exactly those passed over |
| Getopt.Scanner.WrittenScanned | src/3rdparty/getopt/getopt.h:412-617 | an argument vector written from clusters of letters, letters with their arguments, long options and operands, up to its end, a "--", or an operand where order is required, is scanned back to exactly these letters, entries and arguments |
| Getopt.Scanner.WrittenSorted | src/3rdparty/getopt/getopt.h:449-523 | and ends with the words of the options in front, in order, and from optind on exactly the operands and what comes after "--" |
| Getopt.Scanner.PoolAndSwitch | src/core/config/Config_platform.h:18 | with the miner's own option string, -o takes the pool behind it and -k takes nothing |
| Getopt.Scanner.ScanAll | src/3rdparty/getopt/getopt.h:610-617 | a whole scan returns the results of the original arguments and ends with the vector sorted by which of them are passed over, optind at the first of these; a written argument vector is scanned back and sorted as above |
| Getopt.SortedIsPermutation | src/3rdparty/getopt/getopt.h:454-466 | a sorted vector is a permutation, and from optind on come the skipped arguments and then the unread ones |

## Left out
- Bigints.Bigint.AssignPow10: the loop's bit mask and the exponents are unbounded integers, so a power of 2^30 or more, where the mask of the code would overflow, is computed as if it did not.
- Bigints.Bigint.Square: an operand of 2^30 words or more is excluded, and only the two-word accumulator is modelled, not the compiler's 128-bit integer.
- Bigints.Bigint.SubtractAligned: the array of words is a field of type `seq`, so growth of the inline buffer and aliasing between numbers are not modelled; shifts and masks are written as multiplication, division and remainder by powers of two. Loops and branches are split into helper methods (SubtractCommon, SettleBorrow, SubtractRepeatedly, SquareLowHalf, SquareTopHalf, LeadingDigits, WriteLast, CarryNines).
- Bigints.Bigint.DivModAssign: the quotient is unbounded here and a signed 32-bit integer in the code, where quotients from 2^31 on would overflow; digit generation stays below twenty.
- FormatFloats.FormatFloat: the table of cached powers of ten and the choice of an entry are not modelled; that the entry is rounded to nearest, has its highest bit set and brings the exponent between -60 and -32 is required (`GrisuProducts.FitsScale`). The significand and exponent are those of the exact generator; a float converted to double has the same normalized form. Zero, `snprintf_float` and negative precision are not part of it.
- FallbackFormats.FallbackFormat: the shortest-output branch and the two interval boundaries it needs are left out; `format_float` sends negative precision elsewhere.
- Grisu.IntegralDigits: the switch over the number of digits is the division by the power of ten it selects.
- DivTest.RemoveTrailingZeros64: only for n below 2^32 * 10^8, where the code's 32-bit quotient is exact; its own comment promises less. The seven unrolled tests are one loop.
- Utf8.Utf8ToUtf16.Convert: the exception is a result, and the buffer after an error is not described.
- Base32.Encode: the accumulator is the 32-bit pattern read as unsigned; only its low twelve bits are ever used, so its sign does not matter.
- FormatStrings.ParseFormatString: after an error only the fact of the error is kept, not the text written before it.
- FormatCompile.CompilingIsInterpreting: for built-in arguments, with the functions that write them as parameters; whether the two for floating-point numbers give the same text is the condition and not proved of them. Custom formatters and locale are left out, and a part that refers to a missing argument is the formatter's assertion.
- FormatPrint.SyntaxRoundTrip: for specifiers in the form that can be told apart when written: a type is a letter or underscore, a fill is one UTF-8 character other than a brace, and a width does not begin with the zero flag.
- Json.GenericDocument.Accept: floating-point values are their eight bytes; in-situ strings, raw numbers, handlers that stop early and the stack's memory are left out. The inline limit of thirteen characters is that of the 48-bit pointer layout.
- Members.ObjectMembers.Reserve: array, iterators, capacity and map are fields; that they share one allocation is not modelled.
- Members.ObjectMembers.FindMember: with a name that occurs more than once the multimap may return any of its members.
- Pool.MemoryPool.Realloc: pointers are a chunk and an offset, sizes unbounded; the caller is trusted to pass no more than the block's size. Pools in a user's buffer, whose handles can disagree on the base allocator, are left out.
- Getopt.Scanner.ParseLong: an entry's flag and value are one number, and the call returns the entry's place in the table; error messages, `optopt`, POSIXLY_CORRECT, `optreset` and a leading `+` or `-` (which the caller turns into the mode) are left out.
- JobResults.RunsAreSound: the lock makes submitting and swapping single steps; the event loop may join wake-ups but not lose one sent before the callback starts; the end of the event loop is left out.
- Dragonbox, locale grouping, `printf`, the compile-time template compiler, the HTTP parser, file wrappers and the miner's controllers are left out: they rest on large tables, foreign calls or components that are not part of this model.
