# Models of the cctools assembler and archiver, with proofs

This project models the parts of the `as` assembler and of the `ar` archiver in which a mistake
would be hardest to notice: arithmetic on multiprecision floating point numbers, the conversion of
decimal text to IEEE words, the DWARF line program, the table of source files, the archive format
and the commands that edit an archive, the expression parser, the hash table, the encoding of x86
memory operands, and the scrubber that removes comments. Code that changes things in place is
modelled as classes and methods over arrays and fields; each such method is proved against a
specification function, and what the program promises is proved about those functions.

## How the files belong together

| component | files |
|---|---|
| floating point | `Littlenums`, `FlonumProduct`, `Flonums`, `FlonumValue`, `PowerOfTen`, `Decimal`, `AtofGeneric`, `AtofCorrect`, `AtofDigits`, `DecimalText`, `BitReader`, `IeeeWords`, `AtofIeee`, `IeeeRounding`, `AtofText` |
| DWARF line program | `Leb128`, `LineMachine`, `DwarfStandard`, `LineEncoder`, `LineProgram`, `Paths`, `FileTable` |
| archives | `ArFormat`, `ArHeaders`, `ArFile`, `ArItems`, `ArSpec`, `ArCommands` |
| expressions | `Expr`, `ExprParser`, `ExprPrinter`, `ExprMeaning`, `ExprOperators`, `ExprText`, `ExprReader` |
| hash table | `HashTable` |
| x86 operands | `X86Memory`, `X86Standard` |
| scrubber | `ScrubSteps`, `ScrubText`, `Scrubber` |
| shared | `Wrappers`, `Characters`, `Numerals`, `LittleEndians` |

Each component has an independent reference beside the program's own steps: the product of two
integers for `flonum_multip`; the grammar of decimal numbers for `atof_generic`; a decoder of IEEE
754-2008 section 3.4 with the rounding of section 4.3.1 (nearest, ties away from zero) for
`gen_to_words`; the state machine of section 6.2 and the numbers of section 7.6 of the DWARF
Debugging Information Format, Version 3, for `process_entries`; a reader of archives, and the byte
offsets of a header, for `put_arobj`; definitions on lists of members for `move`, `delete` and
`replace`; expression trees, and the spellings of operators and numbers, for `expr`; a finite map for
the hash table; the tables of sections 2.1.5 and 2.2.1 of the Intel 64 and IA-32 Architectures
Software Developer's Manual, Volume 2A, for memory operands; and for the scrubber a definition of
what a text leaves (`Glyphs`) that knows nothing of its states. Where writer and reader could agree
with each other and still be wrong, lemmas with literal bytes say what both have to be
(`DwarfStandard`, `X86Standard`, `ArHeaders`).

## Where the code does something else than it seems to promise

Each of these is proved, as an exact condition over all inputs and mostly with an example; the
member named states it.

- **Products.** A product is not always exact when it fits. When low columns were dropped, the code
  asks the wrong question about room for the final carry and may shift one digit too far; this
  loses digits exactly when `NeedlessShift` holds (`ExactIff`), and may leave no digit at all
  (`LeaderIff`, `VanishingProduct`: 2^31 times 2 into one littlenum is 0). A column wraps 32 bits
  exactly when the first product added to its carry does (`LostIffWrap`); three all-ones littlenums
  squared do (`WrapExample`), a factor of at most two littlenums never does (`ShortFactorNoWrap`).
  Whatever wraps, a product of normalized factors is empty or normalized (`MultipNormalized`); so
  the loop that skips the leading zero bits ends for every text (`ReadIeee`).
- **Digits.** Zeros right after the decimal mark count as digits worth keeping, so a small number
  with enough of them is converted to 0, whatever the tables hold (`OnlyZerosLost`, `LostIff`,
  `LostExample`).
- **IEEE words.** Encoding is correct except for four families (`EncodedWithAbove`): numbers whose
  biased exponent is all ones become NaN, or zero if rounding carries out of them, instead of
  infinity; numbers far below the smallest denormal become infinity (`TooSmallExample`); a denormal
  of exactly 16 bits that are all ones, with a one behind them, loses its carry and becomes zero
  (`CarryLostExample`); and a denormal whose whole mantissa is the number 1 becomes zero unless the
  littlenum above it in memory is odd (`MisplacedExample`). When a carry runs out of the exponent,
  the sign is cleared with everything else (`StoreNormal`).
- **Line deltas.** A line delta equal to `INT_MAX` is taken for the end of the sequence; decoding
  gives back the table exactly when there is none (`LineTable`). A first line of 2^31 is such a one
  (`ConfusedExample`). With line numbers up to `INT_MAX` it would take a step from line 0 to line
  `INT_MAX` (`OrdinaryLines`), and as line 0 is not recorded there is none (`RecordedLines`).
- **Archive names.** An archive reads back exactly when no name is empty, begins with `#1/` while
  being short, or is 253 to 255 characters long, because those are padded to more than the reader
  accepts (`HeaderBack`, `ListBytes`, `LongNameExample`). A member of another archiver, which `move`,
  `delete` or `replace` passes on, is copied byte for byte exactly when the stored length of its name
  is a multiple of 4 (`CopyFaithfulIff`). Otherwise NULs are put in front of its data while the header
  stays as it was, and the data read back are its own only if they are NULs throughout
  (`CopyReadIff`, `FiveByteExample`).
- **Moving.** The member that gives the position is found exactly when more members have its name
  than arguments ask for that name, because members that arguments select are passed over
  (`KeyFoundIff`; `Move` and `Replace` state it). So with one member `a`, moving `a` behind `a` finds
  no position, but with two members of that name the second is the position (`KeyExamples`).
- **Creating.** Replacing with a position in an archive that is not there fails exactly when one of
  the files can be opened, and leaves an empty archive behind (`Create`, `CreateExample`).
- **Expressions.** A minus sign in front of a symbol and a number changes only the symbol's sign. It
  is right exactly when the number's double is 0 modulo 2^64 (`NegateValue`). A chain of sums,
  differences and minus signs that is read without a warning keeps its value exactly when the number
  that these signs leave is the right one (`EvalSum`, and `SumReads` for texts), which can be told from
  the tree: a sign changes the number behind it only where all symbols behind it cancel (`Kept`). So
  `b+-(a+5)` is read as `b - a + 5`, and no part of the reader warns (`NegatedSumExample`). An operator
  that is found stands in the text exactly when it is not an exclamation mark without an equals sign
  behind it (`SpelledIff`): that is taken for `!=` and swallows the character behind it, so that `5!34`
  is read as `5 != 4` (`LoneExclamation`, `LoneExample`).
- **Displacements.** A 64-bit address keeps its displacement exactly when that fits 32 signed bits
  (`DisplacementBack`). Of the others exactly those are changed without a warning that are 2^31 to
  2^32 - 1 and take four bytes, or -2^32 to -2^31 - 1 (`SilentIff`); so `0x80000000(%rax)` addresses
  0x80000000 below the register (`SilentExample`).
- **Scrubbing.** A call loses a newline exactly when it gives out the parenthesis of a character
  constant and the two characters it took last are a quote and a newline (`QuotedNewlineExample`); it
  makes one up exactly when it gives out a newline at the end of an input whose last line is not
  ended, or is in a string where the input ends (`Next`). On input with neither quoted newlines nor an
  unfinished last line, the count is kept over every run, but for one line exactly if some step found
  the input at its end in a string (`Run`, `ScrubText`). A backslash at the end of a line in a string
  comes out as two backslashes and the letter n (`EscapedNewline`), where the source's own comment
  speaks of a newline in the string. A blank between symbols that a string or a constant separates can
  come out behind it instead of in front of it, never twice (`Spaced`).
- **Octal numbers.** The digits 8 and 9 are read in octal numbers too, as eight and nine
  (`ExprTexts.NumberReads`).

## Model

| member | source | states |
|---|---|---|
| FlonumProduct.ColumnsAreProduct | cctools/as/flonum-mult.c:121-144 | The column sums at their place values add up to the product of the two integers |
| FlonumProduct.Balance | cctools/as/flonum-mult.c:121-162 | After any number of columns, digits stored, carry and what wrapped away account for the columns so far |
| FlonumProduct.MachineTotal | cctools/as/flonum-mult.c:119-170 | Digits and final carry are the exact product less what 32-bit wrap-around took out |
| FlonumProduct.FinalCarryFits | cctools/as/flonum-mult.c:163-191 | The carry left after the last column always fits one littlenum, even after wrap-around |
| FlonumProduct.MultipValue | cctools/as/flonum-mult.c:103-197 | For all factors and sizes the digits kept are floor((product - lost) / 65536^k), and they fit the destination |
| FlonumProduct.CarryBound | cctools/as/flonum-mult.c:119-144 | The exact carry into a column is at most 0xFFFF times the largest number of terms of an earlier column |
| FlonumProduct.ShortFactorNoWrap | cctools/as/flonum-mult.c:137-139 | No column wraps when one factor has at most two littlenums |
| FlonumProduct.LostIffWrap | cctools/as/flonum-mult.c:125-139 | The machine loses nothing if and only if no column's carry leaves too little room for its first product |
| FlonumProduct.FloorBounds | cctools/as/flonum-mult.c:103-197 | Without wrap the result is at most the product and less than one unit of its last place below it |
| FlonumProduct.ExactIff | cctools/as/flonum-mult.c:109-196 | The result is exact if and only if the product fits the destination and is not shifted for nothing |
| FlonumProduct.InexactIsFull | cctools/as/flonum-mult.c:144-196 | Unless shifted for nothing, an inexact result fills the destination and has a non-zero leader |
| FlonumProduct.Accuracy | cctools/as/flonum-mult.c:103-197 | Its relative error is then below one part in 65536^(size-1) |
| FlonumProduct.LeaderIff | cctools/as/flonum-mult.c:170-196 | The leader of the result is non-zero unless the product ends in that many zero digits and spans two destinations; then nothing is left |
| FlonumProduct.ZeroProduct | cctools/as/flonum-mult.c:145-196 | A zero factor leaves leader = low - 1 |
| FlonumProduct.DigitsNormalized | cctools/as/flonum-mult.c:119-170 | The digits of two normalized factors, before any is dropped, have a non-zero leader, even if columns have wrapped |
| FlonumProduct.MultipNormalized | cctools/as/flonum-mult.c:103-197 | For all normalized factors and sizes the result is empty or normalized, wraps and needless shifts included |
| FlonumProduct.VanishingProduct | cctools/as/flonum-mult.c:170-191 | 2^31 times 2 into a destination of one littlenum loses its only digit |
| FlonumProduct.WrapExample | cctools/as/flonum-mult.c:137-139 | Three all-ones littlenums squared wrap |
| FlonumProduct.Truncated | cctools/as/flonum-copy.c:32-72 | A copy keeps the high littlenums, that is the value divided by a power of 65536 |
| Flonums.SumColumn | cctools/as/flonum-mult.c:125-144 | The inner loop leaves exactly the digit and carry of its column, with 32-bit wrap-around |
| Flonums.ShiftIn | cctools/as/flonum-mult.c:180-189 | All digits move down one place, the lowest is dropped and the carry becomes the highest |
| Flonums.PlaceCarry | cctools/as/flonum-mult.c:170-197 | The carry gets a place of its own or pushes out one digit; leader and exponent say which |
| Flonums.StoreColumn | cctools/as/flonum-mult.c:145-161 | A column is stored unless it is dropped or one more low zero |
| Flonums.SumColumns | cctools/as/flonum-mult.c:104-162 | The outer loop leaves the digits kept, the final carry, the position and the exponent that goes with them |
| Flonums.MultiplyDigits | cctools/as/flonum-mult.c:104-197 | Digits, leader and exponent in place are those of the specified product |
| Flonums.FlonumMultip | cctools/as/flonum-mult.c:76-198 | The same with signs; with an unsigned factor only the sign is set, to 0 |
| Flonums.ZeroBytes | cctools/as/flonum-copy.c:51-55 | A memset of a count of bytes clears half as many littlenums, rounded, and the low byte of an odd one |
| Flonums.ClearedBytes | cctools/as/flonum-copy.c:51-55 | Byte by byte, the bytes counted are zeros and the others as they were |
| Flonums.CopyDigits | cctools/as/flonum-copy.c:57-69 | Copies a run of littlenums to the start of the destination and nothing else |
| Flonums.CopyWhole | cctools/as/flonum-copy.c:43-61 | A flonum that fits is copied whole, and the bytes above are cleared as far as the count of bytes reaches |
| Flonums.CopyHigh | cctools/as/flonum-copy.c:62-72 | Of one that does not fit the high littlenums are kept, and the exponent counts those left out |
| Flonums.FlonumCopy | cctools/as/flonum-copy.c:24-74 | The destination gets the high littlenums that fit, the exponent for them, and the bytes above cleared as far as the count of bytes reaches |
| FlonumValue.TimesExact | cctools/as/flonum-mult.c:103-197 | As real numbers, a product that fits is exactly the product of the values |
| FlonumValue.TimesClose | cctools/as/flonum-mult.c:103-197 | Every sound product is at most the true one and at least that times u/(u+1), u = 65536^(size-1) |
| FlonumValue.TimesOfClose | cctools/as/flonum-mult.c:103-197 | Multiplying values n and m truncations away from the true ones gives one n+m+1 truncations away |
| FlonumValue.RadixPowSum | cctools/as/flonum-mult.c:106-106 | Adding exponents multiplies powers of the radix, for any signs |
| PowerOfTen.OverflowIff | cctools/as/atof-generic.c:446-472 | The loop runs off its table if and only if the exponent is 2^(entries left) or more |
| PowerOfTen.PowerExact | cctools/as/atof-generic.c:446-484 | When every multiplication fits and the entries are exact, the result is exactly base^exponent |
| PowerOfTen.PowerClose | cctools/as/atof-generic.c:446-484 | Otherwise it is at most two truncations per one bit of the exponent below it |
| PowerOfTen.PowerTidy | cctools/as/atof-generic.c:446-484 | With table entries that are empty or normalized every power is, whatever wraps on the way |
| Decimal.FoundValue | cctools/as/atof-generic.c:130-226 | The digits found, times ten for each zero stripped, are the mantissa of the number the text denotes |
| Decimal.FoundNonZero | cctools/as/atof-generic.c:224-235 | No digits are found if and only if the number is zero |
| Decimal.ScanWhole | cctools/as/atof-generic.c:134-156 | Counts the digits before the mark from the first that is not zero |
| Decimal.ScanFraction | cctools/as/atof-generic.c:157-181 | Counts the digits behind the mark; those not counted are zeros |
| Decimal.StripZeros | cctools/as/atof-generic.c:182-183 | Takes off exactly the zeros at the end of the fraction |
| Decimal.ScanExponent | cctools/as/atof-generic.c:186-220 | Reads an optional sign and the digits of the exponent, and stops behind them |
| Decimal.ScanNumber | cctools/as/atof-generic.c:130-222 | The whole scan finds the digits that matter, the exponent, and the end of the number |
| AtofGeneric.SizeSuffices | cctools/as/atof-generic.c:270-276 | The array computed for n digits holds every number of n digits |
| AtofGeneric.TimesTenPlus | cctools/as/atof-generic.c:326-340 | In place, the array becomes ten times itself plus a digit, less a carry below ten |
| AtofGeneric.NoCarry | cctools/as/atof-generic.c:341-348 | That carry is zero, so the abort cannot be reached |
| AtofGeneric.ParseDigits | cctools/as/atof-generic.c:310-354 | The array ends up holding exactly the decimal value of the digits used, over any decimal mark among them |
| AtofGeneric.TrimSize | cctools/as/atof-generic.c:361-363 | Leaves out the high zeros but keeps one littlenum, and the value |
| AtofGeneric.PowerLoop | cctools/as/atof-generic.c:446-484 | The loop in place computes the specified power and reports the overflow of its table |
| AtofGeneric.DigitsFlonum | cctools/as/atof-generic.c:288-381 | The digits used become a normalized flonum of that value with exponent 0 |
| AtofGeneric.PowerFlonum | cctools/as/atof-generic.c:400-490 | The power starts from 1 at the precision of the destination |
| AtofGeneric.Convert | cctools/as/atof-generic.c:250-501 | The destination is the truncated product of the digits and a power, by the negative table exactly for negative net exponents |
| AtofGeneric.AtofGeneric | cctools/as/atof-generic.c:65-507 | All cases: NaN, the infinities and where they end, zero, numbers with their sign, and error 2; what a number is worth follows by `NumberRead` |
| AtofCorrect.ErrorIff | cctools/as/atof-generic.c:446-472 | Error 2 is returned if and only if the net exponent's magnitude is 2048 or more |
| AtofCorrect.UsedIsDenoted | cctools/as/atof-generic.c:260-268 | When no digit is left out, digits and net exponent are worth the number denoted |
| AtofCorrect.ConvertedExact | cctools/as/atof-generic.c:446-501 | With exact table entries and products that fit, the result is digits times 10^exponent |
| AtofCorrect.ExactConversion | cctools/as/atof-generic.c:65-507 | So a number whose digits are all used is converted to exactly what its text denotes |
| AtofCorrect.ConvertedClose | cctools/as/atof-generic.c:446-501 | In all other sound cases it is at most 2 * (one bits of the exponent) + 1 truncations below, also for negative exponents |
| AtofCorrect.ConvertedTidy | cctools/as/atof-generic.c:250-501 | For every text, and any tables whose entries are not zero, the result is zero or normalized, so that it has a one bit to be found |
| AtofDigits.HornerTail | cctools/as/atof-generic.c:310-354 | Reading m more digits multiplies by 10^m and adds less than that |
| AtofDigits.UsedBrackets | cctools/as/atof-generic.c:255-268 | The digits left out are worth less than one unit of the last one used |
| AtofDigits.ConvertedBelow | cctools/as/atof-generic.c:255-501 | The result is never above the number denoted and within both errors below it |
| AtofDigits.ZeroDigitsIff | cctools/as/atof-generic.c:157-183 | The digits used are all zeros if and only if nothing but zeros is among the first behind the mark |
| AtofDigits.OnlyZerosLost | cctools/as/atof-generic.c:160-268 | Such a number is converted to zero although it is not zero, whatever the tables hold and whatever wraps |
| AtofDigits.LostIff | cctools/as/atof-generic.c:160-268 | And where the products are sound, a number that is not zero is converted to zero if and only if that is so |
| AtofDigits.LostExample | cctools/as/atof-generic.c:160-268 | 0.000000000001 is converted to zero at the precision of a single, with any tables |
| AtofDigits.NumberRead | cctools/as/atof-generic.c:446-501 | If the positive table is one for 10 and the negative one for 0.1, and products are sound, every number is read as what its text denotes, up to the digits left out and the truncations, and exactly where all digits are used and the products are exact |
| DecimalText.NumberReads | cctools/as/atof-generic.c:130-222 | In every text of digits, perhaps a point and more digits, perhaps a mark, a sign and an exponent, these are the numbers read, and where they end |
| DecimalText.TextDenotes | cctools/as/atof-generic.c:186-220 | So it denotes its figures times ten to the signed exponent less the digits behind the point |
| DecimalText.LeadReads | cctools/as/atof-generic.c:95-102 | A sign in front of a number is told from it, and a number from the names of what is none |
| DecimalText.NamesRead | cctools/as/atof-generic.c:104-132 | The names of NaN and of the infinities, letter by letter, small or capital |
| DecimalText.WrittenExample | cctools/as/atof-generic.c:130-222 | 2.5e-4 denotes 0.00025 |
| BitReaders.FirstBits | cctools/as/atof-ieee.c:83-107 | The reference: the first i+1 bits are the first i and bit i, counted from the leader down |
| BitReaders.ReadWithin | cctools/as/atof-ieee.c:101-105 | Bits that are left of one littlenum, shifted and masked, are the next ones |
| BitReaders.ReadAcross | cctools/as/atof-ieee.c:90-101 | Bits joined from two littlenums are the next ones |
| BitReaders.ReadLast | cctools/as/atof-ieee.c:90-101 | Behind the lowest littlenum zeros follow |
| BitReaders.ReadNothing | cctools/as/atof-ieee.c:88-89 | An exhausted reader gives zeros |
| BitReaders.RunReads | cctools/as/atof-ieee.c:83-107 | Any run of reads gives the successive bits of the mantissa, leader first, then zeros |
| BitReaders.BitReader.NextBits | cctools/as/atof-ieee.c:83-107 | The cursor moves by k bits and those k bits are returned |
| BitReaders.BitReader.TakeAcross | cctools/as/atof-ieee.c:90-101 | Bits left of one littlenum joined with those missing of the next are the next bits, and the cursor is behind them |
| BitReaders.BitReader.UngetBits | cctools/as/atof-ieee.c:110-125 | Moves the cursor back; an exhausted reader goes on with the bits of the littlenum above the low one instead |
| IeeeWords.StoredNext | cctools/as/atof-ieee.c:500-502 | One more word of mantissa bits extends the number the words hold |
| IeeeWords.FillWords | cctools/as/atof-ieee.c:500-502 | The loop stores the mantissa bits in order and touches no other word |
| IeeeWords.RoundUp | cctools/as/atof-ieee.c:523-527 | The carry loop adds 1 to the whole number in the words, through all of them if need be |
| AtofIeee.SkipZeros | cctools/as/atof-ieee.c:319-321 | The skip loop ends for every mantissa that is not zero, just behind its first one bit |
| AtofIeee.StoreNormal | cctools/as/atof-ieee.c:485-538 | Sign, exponent and fraction, rounded by the next bit; when the carry runs out of the exponent all words become zero, the sign too |
| AtofIeee.ClearFlippedSign | cctools/as/atof-ieee.c:528-536 | A sign bit set by a carry is cleared |
| AtofIeee.CarriedOut | cctools/as/atof-ieee.c:504-537 | Adding 1 and clearing the sign gives the code, or zero when the code reaches the sign bit |
| AtofIeee.StoredNormal | cctools/as/atof-ieee.c:485-502 | Before rounding the words hold sign, exponent and fraction as one number |
| AtofIeee.ZeroWords | cctools/as/atof-ieee.c:352-381 | The sign and as many words of zeros as the exponent asks for |
| AtofIeee.DenormalWords | cctools/as/atof-ieee.c:343-402 | A denormal's words before rounding hold the sign and as many bits as there is room for |
| AtofIeee.StoreDenormal | cctools/as/atof-ieee.c:339-458 | All denormal branches: the rounded bits, the carry that is lost, and infinity for the tiniest numbers |
| AtofIeee.StoredDenormal | cctools/as/atof-ieee.c:343-402 | Those words are the sign and the first k bits as one number, with room for the carry |
| AtofIeee.RoundedByBit | cctools/as/atof-ieee.c:504-504 | Adding the bit that was read next to the bits before it gives the bits as rounded by the model |
| IeeeRounding.RoundedUnits | cctools/as/atof-ieee.c:504-504 | And those are the nearest whole number of units, ties away from zero |
| AtofIeee.AddBit | cctools/as/atof-ieee.c:404-458 | Adds the rounding bit of a denormal: with more than 16 bits through all words, otherwise to one word, whose carry is lost |
| AtofIeee.ExhaustedIff | cctools/as/atof-ieee.c:319-343 | Putting the first one bit back finds the reader exhausted if and only if the mantissa is the number 1 |
| AtofIeee.StoreSmall | cctools/as/atof-ieee.c:339-458 | A denormal's words, with the first one bit put back, also where the reader is exhausted |
| AtofIeee.StoreSpecial | cctools/as/atof-ieee.c:259-305 | Zero, NaN and the infinities with their signs |
| AtofIeee.StoreFinite | cctools/as/atof-ieee.c:307-539 | Every flonum that is not zero gets the specified code with its sign; the skip loop ends on it |
| AtofIeee.FillRest | cctools/as/atof-ieee.c:259-305 | The words of zeros, NaN and infinities |
| AtofIeee.GenToWords | cctools/as/atof-ieee.c:244-539 | For single and double and every flonum that is zero, special or has a one bit, the words hold exactly the specified code with its sign |
| IeeeRounding.DecodeNext | cctools/as/atof-ieee.c:506-513 | Neighbouring codes are one unit of the last place apart, also from one binade to the next |
| IeeeRounding.DecodeMonotone | cctools/as/atof-ieee.c:506-513 | A larger code stands for a larger number, so a carry into the exponent does the right thing |
| IeeeRounding.CorrectUnique | cctools/as/atof-ieee.c:485-538 | There is only one correctly rounded code |
| IeeeRounding.NormalRounds | cctools/as/atof-ieee.c:485-538 | In the normal range the code is the nearest to the flonum's value, ties away from zero |
| IeeeRounding.DenormalRounds | cctools/as/atof-ieee.c:339-456 | So are the rounded bits of a denormal |
| IeeeRounding.ZeroRounds | cctools/as/atof-ieee.c:349-372 | Below half the smallest number the nearest is zero |
| IeeeRounding.InfinityRounds | cctools/as/atof-ieee.c:459-484 | From twice the largest power of two on the correct result is infinity |
| IeeeRounding.IeeeCodeCorrect | cctools/as/atof-ieee.c:316-538 | The reference code is the correctly rounded one for every non-zero flonum |
| IeeeRounding.CodeIsIeee | cctools/as/atof-ieee.c:316-538 | The program's code differs from it exactly in three families of numbers |
| IeeeRounding.EncodedCorrectly | cctools/as/atof-ieee.c:316-538 | The program rounds correctly if and only if the number is in none of them |
| IeeeRounding.CodeAboveIs | cctools/as/atof-ieee.c:110-125 | What stands above the low littlenum matters only for a denormal that is the number 1, and makes it zero if it is even |
| IeeeRounding.EncodedWithAbove | cctools/as/atof-ieee.c:316-538 | Whatever stands there, the words are correctly rounded if and only if the number is in none of the four families |
| IeeeRounding.SingleCodes | cctools/as/atof-ieee.c:485-538 | The codes of 1, 1.5, 3, the smallest single, infinity and the sign bit, by section 3.4 of the standard |
| IeeeRounding.DoubleCodes | cctools/as/atof-ieee.c:485-538 | The same for doubles |
| AtofText.TextToWords | cctools/as/atof-ieee.c:153-240 | When conversion is exact, the words are the IEEE encoding of the number the text denotes if and only if the result is in none of the four families |
| AtofText.ReadIeee | cctools/as/atof-ieee.c:152-240 | From any text to words, with tables whose entries are not zero: NaN, infinities, zero, error 2, and otherwise the code of a normalized result, wraps included; with tables for 10 and for 0.1 that result is within the stated truncations of the number denoted, and exact where the products are |
| AtofText.WholeNumber | cctools/as/atof-generic.c:250-501 | A whole number without power of ten whose digits are all used is correctly encoded, whatever the tables and the memory hold |
| AtofText.UsefulDigits | cctools/as/atof-generic.c:250-259 | Single and double use as many decimal digits as 32 and 64 bits hold, and two more |
| AtofText.TooSmallExample | cctools/as/atof-ieee.c:353-367 | About 5.2e-54 as a single becomes infinity instead of zero |
| AtofText.CarryLostExample | cctools/as/atof-ieee.c:449-451 | A denormal single of 16 one bits and another behind them becomes zero |
| AtofText.MisplacedExample | cctools/as/atof-ieee.c:339-343 | 2^-128 held as the number 1 becomes zero as a single when the littlenum above is even |
| AtofText.NanExample | cctools/as/atof-ieee.c:459-487 | 1.5 * 2^128 as a single becomes NaN instead of infinity |
| Leb128.UlebRoundTrip | cctools/as/read.c:5175-5193 | Every unsigned LEB128 number is read back with what follows untouched |
| Leb128.SlebRoundTrip | cctools/as/read.c:5148-5173 | Every signed one too |
| Leb128.UlebMonotone | cctools/as/read.c:5107-5124 | A larger number does not take fewer bytes |
| Leb128.MoreBytes | cctools/as/read.c:5148-5193 | The program's test for another byte asks for exactly the bytes of section 7.6 |
| Leb128.SizeofLeb128 | cctools/as/read.c:5065-5134 | The size is that of the bytes written, for either signedness |
| Leb128.OutputLeb128 | cctools/as/read.c:5146-5202 | Writes exactly those bytes at the pointer and returns how many |
| DwarfStandard.UlebPlaces | cctools/as/read.c:5175-5193 | An unsigned number has seven bits in each byte, the low ones first, and all bytes but the last are marked |
| DwarfStandard.SlebPlaces | cctools/as/read.c:5148-5173 | So has a signed one, which is negative if the second highest bit of its last byte is set |
| DwarfStandard.StandardNumbers | cctools/as/read.c:5146-5202 | The examples of section 7.6, byte by byte |
| LittleEndians.LittleEndianRoundTrip | cctools/as/dwarf2dbg.c:963-977 | An address written low byte first is read back |
| DwarfStandard.LittleEndianAt | cctools/as/dwarf2dbg.c:963-977 | Byte i of an address is its i-th byte from the low end |
| LineMachine.ReadOpBytes | cctools/as/dwarf2dbg.c:117-150 | Every operation is read back from its bytes, with special opcodes apart from all others |
| DwarfStandard.StandardOpcodes | cctools/as/dwarf2dbg.c:1375-1483 | The numbers that section 6.2.5.2 gives to the operations without operands |
| DwarfStandard.StandardOperands | cctools/as/dwarf2dbg.c:1375-1483 | And to those with operands |
| DwarfStandard.ExtendedOpcodes | cctools/as/dwarf2dbg.c:963-977 | The bytes of the two extended operations of section 6.2.5.3, with their length |
| DwarfStandard.StandardEffects | cctools/as/dwarf2dbg.c:123-151 | What the operations do to the registers and to the table, with the constants written out |
| DwarfStandard.SpecialOpcodes | cctools/as/dwarf2dbg.c:123-151 | A special opcode n moves the address by (n - 13) / 14 and the line by (n - 13) % 14 - 5, and appends a row |
| LineMachine.ExecuteConcat | cctools/as/dwarf2dbg.c:1375-1483 | Executing two runs of operations is executing one after the other |
| LineMachine.DecodeBytes | cctools/as/dwarf2dbg.c:1375-1483 | Decoding the bytes of operations executes exactly those operations |
| LineMachine.DecodeAll | cctools/as/dwarf2dbg.c:1375-1483 | And stops at their end |
| LineEncoder.NoUnderflow | cctools/as/dwarf2dbg.c:1042-1052 | The largest special address delta is only taken off where there is that much |
| LineEncoder.OpcodeRange | cctools/as/dwarf2dbg.c:1039-1052 | Below the limit the computed opcode does not wrap |
| LineEncoder.SpecialRow | cctools/as/dwarf2dbg.c:1121-1143 | A special opcode moves line and address by its two deltas and appends a row |
| LineEncoder.RowOpsRow | cctools/as/dwarf2dbg.c:1113-1152 | Behind the line advance, every choice of opcodes appends the same row |
| LineEncoder.IncOpsRow | cctools/as/dwarf2dbg.c:1064-1157 | For every line and 64-bit address delta exactly one row is appended, moved by those deltas |
| LineEncoder.IncOpsEnd | cctools/as/dwarf2dbg.c:1078-1096 | INT_MAX ends the sequence at the moved address and resets the registers |
| LineEncoder.IncBytesParts | cctools/as/dwarf2dbg.c:1064-1157 | The bytes of an increment, branch by branch |
| LineEncoder.SizeIncLineAddr | cctools/as/dwarf2dbg.c:1005-1062 | The computed size is the number of bytes that are emitted |
| LineEncoder.LargerIsLonger | cctools/as/dwarf2dbg.c:1005-1062 | No increment takes more than one of a larger address delta that opcodes do not cover |
| LineEncoder.ReservedSuffices | cctools/as/dwarf2dbg.c:1257-1265 | What is reserved for an unknown address delta suffices for every one |
| LineEncoder.Put | cctools/as/dwarf2dbg.c:1092-1094 | One byte through the moving pointer |
| LineEncoder.PutOperand | cctools/as/dwarf2dbg.c:1105-1106 | An opcode and its operand through the moving pointer |
| LineEncoder.EmitRow | cctools/as/dwarf2dbg.c:1113-1152 | The emitted row bytes are the specified ones and nothing before them changes |
| LineEncoder.EmitEnd | cctools/as/dwarf2dbg.c:1078-1096 | The same for the end of a sequence |
| LineEncoder.EmitIncLineAddr | cctools/as/dwarf2dbg.c:1064-1157 | Emits exactly the specified bytes, and the assertion about the length holds if and only if the two functions are in step |
| LineProgram.ExecuteHeader | cctools/as/dwarf2dbg.c:1393-1427 | The opcodes in front of an increment set file, column, isa and the four flags, and append no row |
| LineProgram.ExecuteEntry | cctools/as/dwarf2dbg.c:1389-1463 | One entry appends its row, unless its line delta is INT_MAX, which ends the sequence |
| LineProgram.ExecuteEntries | cctools/as/dwarf2dbg.c:1389-1464 | All entries append one row each, in order |
| LineProgram.ConfusedShows | cctools/as/dwarf2dbg.c:1433-1452 | A delta taken for the end leaves a row that ends the sequence too soon |
| LineProgram.DecodesToTable | cctools/as/dwarf2dbg.c:1375-1483 | Decoding the program gives one row per entry with all its attributes and the end row, if and only if no delta is INT_MAX |
| LineProgram.TableShows | cctools/as/dwarf2dbg.c:1375-1483 | Each row of the table shows all attributes of its entry, and the last one the end of the sequence |
| LineProgram.OrdinaryLines | cctools/as/dwarf2dbg.c:1433-1433 | With lines up to INT_MAX that fails only from line 0 to line INT_MAX |
| LineProgram.RecordedLines | cctools/as/dwarf2dbg.c:382-383 | Lines from 1 to INT_MAX are never confused |
| LineProgram.ConfusedExample | cctools/as/dwarf2dbg.c:1389-1433 | A first line of 2^31 is taken for the end of the sequence |
| LineProgram.EstimateSize | cctools/as/dwarf2dbg.c:1275-1311 | At the addresses of the moment, which are relative to their section, a variant gets the size of its final increment |
| LineProgram.RelaxFrag | cctools/as/dwarf2dbg.c:1317-1326 | So it does again in a pass, and the growth is told |
| LineProgram.Section.Relax | cctools/as/layout.c:1102-1338 | After the estimates a pass in which no variant grows follows, and then every variant has the size of its increment |
| LineProgram.ConvertFrag | cctools/as/dwarf2dbg.c:1330-1370 | A variant becomes the bytes of its increment in the size chosen last, within what was reserved |
| LineProgram.Section.FragMore | cctools/as/dwarf2dbg.c:871-876 | Bytes are appended to the section, behind a variant in a new frag |
| LineProgram.Section.OutSetAddr | cctools/as/dwarf2dbg.c:963-977 | Appends the set-address operation of the label |
| LineProgram.Section.OutIncLineAddr | cctools/as/dwarf2dbg.c:1161-1167 | Appends the bytes of an increment at once |
| LineProgram.Section.RelaxIncLineAddr | cctools/as/dwarf2dbg.c:1223-1267 | Appends a variant that stands for the same bytes once the code is laid out |
| LineProgram.Section.OutNumbers | cctools/as/dwarf2dbg.c:1393-1412 | Appends opcodes for those of file, column and isa that change |
| LineProgram.Section.OutFlags | cctools/as/dwarf2dbg.c:1414-1427 | Appends the toggle of is_stmt if needed, and the marks of the row |
| LineProgram.Section.OutHeader | cctools/as/dwarf2dbg.c:1393-1427 | Both, and the registers the loop remembers agree with the machine's |
| LineProgram.Section.ProcessEntries | cctools/as/dwarf2dbg.c:1375-1483 | The loop appends exactly the specified program, through both kinds of increment |
| LineProgram.Section.Convert | cctools/as/dwarf2dbg.c:1330-1370 | All variants convert to their bytes and none is out of step |
| LineProgram.LineTable | cctools/as/dwarf2dbg.c:1330-1483 | From entries to rows: the bytes written for a chain of entries, all increments relaxed and converted, decode to its table if and only if no line delta is INT_MAX |
| Paths.BaseStartUnique | cctools/as/dwarf2dbg.c:517-529 | The base name is the only part behind a slash that holds none |
| FileTable.AskKeeps | cctools/as/dwarf2dbg.c:595-638 | Asking for a number keeps all earlier numbers and keeps names apart |
| FileTable.AnswersName | cctools/as/dwarf2dbg.c:536-639 | In any later run a number is the answer for its name and for no other |
| FileTable.AnswersDistinguish | cctools/as/dwarf2dbg.c:536-639 | Over every run, two answers are equal if and only if the names are |
| FileTable.AnswersDense | cctools/as/dwarf2dbg.c:600-639 | Numbers are given out from 1 on, and none is left out |
| FileTable.SplitAgain | cctools/as/dwarf2dbg.c:559-573 | A path joined from directory and base name is split into those two |
| FileTable.SameName | cctools/as/dwarf2dbg.c:597-600 | Two entries with the same full name are the same entry |
| FileTable.EntrySplit | cctools/as/dwarf2dbg.c:559-573 | The stored directory and base name rejoin to the file name that was split |
| FileTable.ShortcutIsSearch | cctools/as/dwarf2dbg.c:545-557 | The number used last is what the full search finds if and only if no lower number has that name; so always, while names are apart |
| FileTable.Table.Shortcut | cctools/as/dwarf2dbg.c:545-557 | The piecewise comparison succeeds if and only if the names are equal |
| FileTable.Table.FindDir | cctools/as/dwarf2dbg.c:570-593 | Finds the directory or adds it, and changes no name |
| FileTable.Table.FindFile | cctools/as/dwarf2dbg.c:595-606 | Comparing directory numbers and base names finds the first entry with that full name |
| FileTable.Table.GetFilenum | cctools/as/dwarf2dbg.c:536-639 | The number wished for, or the one used last, or the first found, or the next free; while names are apart and none is wished for, that is to ask for the name, and they stay apart |
| FileTable.Table.StoreFile | cctools/as/dwarf2dbg.c:559-638 | Without the shortcut: the number wished for, or the first with that name, or the next free one, and the name is stored there |
| FileTable.Table.GetFilenums | cctools/as/dwarf2dbg.c:536-639 | A run of files gets exactly the answers of the reference, so equal numbers for equal names only |
| Numerals.DigitsBound | cctools/ar/archive.h:122-127 | A number below base^k takes at most k digits |
| ArFormat.StrtolBack | cctools/ar/archive.c:226-231 | A number printed into a column is read back from it, in octal and decimal, with its sign |
| ArFormat.HeaderSize | cctools/ar/archive.c:386-396 | When the fields fit their columns a header takes 60 bytes |
| ArFormat.NumbersBack | cctools/ar/archive.c:259-269 | All numeric fields come back from their columns |
| ArFormat.LongColumn | cctools/ar/archive.c:279-282 | The name column of a long name gives its padded length |
| ArFormat.LongName | cctools/ar/archive.c:283-290 | A padded long name ends at its first NUL, where it did before |
| ArFormat.ShortName | cctools/ar/archive.c:291-298 | A short name comes back when trailing spaces are stripped |
| ArFormat.HeaderBack | cctools/ar/archive.c:237-300 | A header comes back as written if and only if the name is readable; the bytes between are those of `HeaderColumns` |
| ArFormat.MemberParts | cctools/ar/archive.c:308-416 | Where the parts of a written member stand, for any length |
| ArFormat.ListBytes | cctools/ar/archive.c:237-487 | Reading a whole archive gives back every member, names, numbers and data, if and only if all names are readable |
| ArFormat.LongNameExample | cctools/ar/archive.c:279-284 | A member with a name of 253 characters is not read back |
| Numerals.DigitsNumeral | cctools/ar/archive.h:122-127 | Printed numbers are the figures of their value by their places, without a zero in front |
| ArHeaders.HeaderColumns | cctools/ar/archive.h:122-127 | A written header has date, uid, gid and size in decimal and mode in octal, left justified, at bytes 16, 28, 34, 48 and 40, and ends in its two characters |
| ArHeaders.ReadColumns | cctools/ar/archive.c:259-269 | Of any bytes, the header read has the numbers that stand at those offsets |
| ArHeaders.StrtolReads | cctools/ar/archive.c:226-231 | A field is read as its sign and figures behind its blanks, by their places |
| ArHeaders.FieldsRead | cctools/ar/archive.c:259-269 | Numerals at the offsets of the columns are read as their numbers |
| ArHeaders.ShortExample | cctools/ar/archive.c:308-416 | A whole member with a short name, byte by byte |
| ArHeaders.LongExample | cctools/ar/archive.c:344-390 | And one with a long name |
| ArFile.Ar.GetArobj | cctools/ar/archive.c:237-300 | The reader returns what the format says, which is what stands at the byte offsets of `ReadColumns`, leaves the file as it is, and stops behind the name |
| ArFile.Ar.CopyBytes | cctools/ar/archive.c:448-461 | The buffered loop copies exactly that many bytes, or fails if there are fewer |
| ArFile.Ar.CopyAr | cctools/ar/archive.c:432-472 | The same with both kinds of padding, none of them for size 0 |
| ArFile.Ar.PutName | cctools/ar/archive.c:397-413 | Writes the name and pads it to a multiple of 4 |
| ArFile.Ar.PutMember | cctools/ar/archive.c:386-415 | Header, name and data in that order; fails when the header is not 60 bytes |
| ArFile.Ar.PutArobjCopy | cctools/ar/archive.c:380-415 | Writes the member whose header was read last |
| ArFile.Ar.PutArobjNew | cctools/ar/archive.c:308-416 | Writes a file as a member in exactly the specified bytes, with every column at its byte offset (`HeaderColumns`) |
| ArFile.Ar.SkipArobj | cctools/ar/archive.c:478-487 | Goes over data and padding |
| ArFile.NewMember | cctools/ar/archive.c:344-415 | A new member has the same parts, padded alike, whether its name is long or short |
| ArFile.NoNul | cctools/ar/archive.c:386-396 | No NUL cuts a header short |
| ArItems.GetItem | cctools/ar/archive.c:237-300 | The header read where a well-formed member stands is that member's, and its data come next |
| ArItems.PassedCopy | cctools/ar/archive.c:432-472 | Copying a member lands on the next header |
| ArItems.PassedSkip | cctools/ar/archive.c:478-487 | Going over one does, too, or comes to the end of an archive that is cut short |
| ArItems.HeaderParts | cctools/ar/archive.c:237-300 | A header that is read stands there with the bytes of its name, and no more than those matter for it |
| ArItems.CopyFaithfulIff | cctools/ar/archive.c:397-415 | A member is copied byte for byte if and only if its stored name takes a multiple of four bytes |
| ArItems.CopyReadIff | cctools/ar/archive.c:397-415 | What is read of a copy has the same header, and the same data if and only if that is so or the data are NULs throughout |
| ArItems.FiveByteExample | cctools/ar/archive.c:397-415 | A member with a stored name of five bytes is well-formed, but of its copy another byte is read |
| ArItems.ListItems | cctools/ar/archive.c:237-487 | An archive of well-formed members, whatever wrote it, lists as those members |
| ArItems.CopyWellFormed | cctools/ar/archive.c:380-415 | A copy with such a name is a well-formed member again and shows as before |
| ArItems.ListCopies | cctools/ar/archive.c:380-415 | So an archive of such copies lists as the members that were copied |
| ArItems.ItemOfMember | cctools/ar/archive.c:308-416 | A member this program writes from a file is copied byte for byte, and is well-formed if its name can be read back |
| ArSpec.ChosenCount | cctools/ar/misc.c:119-133 | Every argument is either left over or has selected exactly one member |
| ArSpec.ChosenAll | cctools/ar/move.c:116-136 | Selected and unselected members together are all members |
| ArSpec.KeyAtNext | cctools/ar/move.c:124-131 | How one more member changes the position found: only the first unselected one of the name does |
| ArSpec.LeftAsked | cctools/ar/misc.c:119-133 | Members use up the arguments that ask for their name, as far as there are any |
| ArSpec.PickedIff | cctools/ar/misc.c:119-161 | A member is selected if and only if more arguments ask for its name than members of that name stand before it |
| ArSpec.KeyFoundIff | cctools/ar/move.c:124-141 | The position is found if and only if more members have its name than arguments ask for it, and it is the one behind as many others of the name |
| ArSpec.KeyExamples | cctools/ar/move.c:124-141 | With one member, moving it behind itself finds no position; with two of the name the second is found |
| ArSpec.MovedNext | cctools/ar/move.c:116-136 | What one turn of the loop does to the three parts |
| ArSpec.MovedKeepsOrder | cctools/ar/move.c:115-168 | Unselected members keep their order |
| ArSpec.MovedPermutes | cctools/ar/move.c:115-168 | Moving permutes the members |
| ArSpec.ReplacedNext | cctools/ar/replace.c:125-164 | What one turn of the loop does to the two parts |
| ArSpec.ReplacedKeepsPlaces | cctools/ar/replace.c:125-207 | Every old member stays in its place under its name, new ones all stand together at the key or the end |
| ArSpec.ReplacedMembers | cctools/ar/replace.c:125-207 | After replacing, the archive lists, place by place, the file with its date, owner, group, mode and data for a selected member if it is on the disk and need not be newer or is, and otherwise the old member; and the files added with theirs |
| ArSpec.PlaceShows | cctools/ar/replace.c:127-163 | What is listed in the place of one old member |
| ArSpec.AddedShow | cctools/ar/replace.c:172-187 | What is listed for a file that is added |
| ArSpec.MovedPlaces | cctools/ar/move.c:110-165 | After moving, unselected members stand before and behind the selected ones as the position says |
| ArSpec.AnyArchive | cctools/ar/replace.c:125-164 | Any bytes are read by any command, with any arguments, as members it can pass and an end, unless one of negative size is gone over |
| ArSpec.NextMember | cctools/ar/archive.c:432-487 | Where a command neither ends nor goes back there is a member that it copies or goes over, as the arguments ask |
| ArSpec.OrdinaryRead | cctools/ar/archive.c:237-487 | Well-formed members are read by every command with every argument |
| ArSpec.MovedListed | cctools/ar/move.c:115-168 | After moving, the archive lists as the moved members, if all stored names take multiples of four bytes |
| ArSpec.KeptListed | cctools/ar/delete.c:95-116 | After deleting, it lists as the members not selected |
| ArSpec.ReplacedListed | cctools/ar/replace.c:125-207 | After replacing, it lists as the replaced members with the new ones, whose names can be read back |
| ArCommands.Arguments.Files | cctools/ar/misc.c:119-133 | Finds the first argument that matches and takes it out of the list in place |
| ArCommands.Arguments.Remove | cctools/ar/misc.c:128-129 | Closes the gap of one argument in place and keeps the others in order |
| ArCommands.Look | cctools/ar/archive.c:237-300 | Reading a header succeeds while members are left, then gives the end, no header, or one that cannot be copied |
| ArCommands.PassOn | cctools/ar/archive.c:380-415 | Appends the copy of the current member to a temporary file and stops at the next, or fails where the member cannot be copied |
| ArCommands.SkipOver | cctools/ar/archive.c:478-487 | Leaves the current member out and stops at the next |
| ArCommands.PutNew | cctools/ar/replace.c:181-186 | Appends a file from the disk as a member |
| ArCommands.CopyBack | cctools/ar/move.c:145-148 | Copies a temporary file over the archive from the current position |
| ArCommands.Keep | cctools/ar/delete.c:95-104 | The loop of delete copies exactly the members no argument selects, or stops at what cannot be read or copied |
| ArCommands.Delete | cctools/ar/delete.c:86-124 | The archive holds exactly the copies of members no argument selects; arguments left over are reported; an archive that cannot be read to its end is left alone |
| ArCommands.PassBy | cctools/ar/move.c:124-135 | A member no argument selects goes to the file before or behind the key; the first of that name is the key |
| ArCommands.PartitionOne | cctools/ar/move.c:116-135 | One turn of the loop adds the member to the part it belongs to, or fails where it cannot be copied |
| ArCommands.Partition | cctools/ar/move.c:115-136 | The loop splits the archive into the members before the key, those selected, and those after |
| ArCommands.Reassemble | cctools/ar/move.c:143-160 | Three temporary files replace all behind the magic string, and the file is cut there |
| ArCommands.Move | cctools/ar/move.c:90-168 | The archive holds the copies in the exact new order; with the position not found, as stated by `KeyFoundIff`, or an archive that cannot be read to its end, nothing changes |
| ArCommands.PutInPlace | cctools/ar/replace.c:127-163 | A selected member is replaced by the file unless that is missing or, with -u, not newer (`PlaceShows`) |
| ArCommands.SubstituteOne | cctools/ar/replace.c:126-163 | One turn of the loop adds the member, or the file in its place, to the part it belongs to, or fails where it cannot be copied |
| ArCommands.Substitute | cctools/ar/replace.c:125-164 | The loop splits the archive at the key, with selected members replaced in place |
| ArCommands.AddFiles | cctools/ar/replace.c:172-187 | Arguments left over are added in their order, missing files skipped and reported |
| ArCommands.ReassembleTwo | cctools/ar/replace.c:189-204 | Two temporary files replace all behind the magic string |
| ArCommands.Replace | cctools/ar/replace.c:90-207 | The archive holds exactly the replaced list, which `ReplacedMembers` tells member by member; with the position not found, as stated by `KeyFoundIff`, or an archive that cannot be read to its end, nothing changes |
| ArCommands.Create | cctools/ar/replace.c:106-207 | An archive that is not there is made as by replacing in an empty one; with a position it stays empty, and the program fails if and only if a file can be opened |
| ArCommands.CreateExample | cctools/ar/replace.c:106-186 | Adding a readable file behind a member of an archive that is not there fails |
| HashTable.Hash | cctools/as/hash.c:150-158 | The hash of a key, with 32-bit wrap-around |
| HashTable.HashExamples | cctools/as/hash.c:150-158 | The hashes of the empty key, of `mov`, and of a character that is negative as a plain char |
| HashTable.Relink | cctools/as/hash.c:183-188 | Moving an entry to the front relinks the chain to the same entries in the new order |
| HashTable.FrontKeys | cctools/as/hash.c:183-188 | Its keys stay distinct and in their bucket |
| HashTable.Table.Walk | cctools/as/hash.c:163-197 | The walk finds a key if and only if the map has it |
| HashTable.Table.MoveToFront | cctools/as/hash.c:183-190 | One chain is reordered, nothing else changes |
| HashTable.Table.Lookup | cctools/as/hash.c:134-198 | Agrees with the map, leaves it as it is, and has its entry in front of the chain |
| HashTable.Table.Add | cctools/as/hash.c:220-226 | A new entry in front of its chain adds the key to the map |
| HashTable.Table.SetData | cctools/as/hash.c:243-250 | Storing in an entry changes that key's value only |
| HashTable.Table.RemoveFirst | cctools/as/hash.c:337-350 | Unlinking the first entry removes its key only |
| HashTable.Table.OnlyHere | cctools/as/hash.c:156-198 | No entry is in two chains |
| HashTable.Table.KeyOnlyHere | cctools/as/hash.c:156-198 | A key is in no chain but that of its bucket |
| HashTable.Table.HashInsert | cctools/as/hash.c:205-229 | Adds a key, or reports that it is there and changes nothing |
| HashTable.Table.HashJam | cctools/as/hash.c:235-267 | Adds a key or changes its value |
| HashTable.Table.HashReplace | cctools/as/hash.c:273-292 | Changes the value of a key that is there and returns the one before |
| HashTable.Table.HashFind | cctools/as/hash.c:297-307 | The value in the map, or NULL |
| HashTable.Table.HashFindN | cctools/as/hash.c:312-322 | The same for the first bytes of a string |
| HashTable.Table.HashDelete | cctools/as/hash.c:327-351 | Removes the key; the abort is unreachable because lookup has moved the entry to the front |
| Expressions.AddValue | cctools/as/expr.c:424-503 | Adding without a warning adds the values modulo 2^64, wherever the symbols are |
| Expressions.SubtractValue | cctools/as/expr.c:405-503 | Subtracting without a warning subtracts them |
| Expressions.AddWarnsIff | cctools/as/expr.c:440-450 | Adding warns if and only if two symbols are added or two are subtracted |
| Expressions.SubtractWarnsIff | cctools/as/expr.c:405-450 | Subtracting warns if and only if one is added on one side and subtracted on the other |
| Expressions.OtherWarnsIff | cctools/as/expr.c:504-646 | The other operators warn if and only if an operand is no constant, but for half of a difference, or they divide by zero; the number 0 is left then |
| Expressions.NegateValue | cctools/as/expr.c:1046-1078 | A minus sign negates the value if and only if there is no symbol or the number's double is 0 modulo 2^64 |
| ExprPrinter.OpStands | cctools/as/expr.c:266-312 | Every printed operator is recognized, and not as a longer or shorter one |
| ExprPrinter.SpelledIff | cctools/as/expr.c:1400-1440 | In any text an operator that is found stands there if and only if it is no lone exclamation mark, and only one at the end takes the pointer beyond it |
| ExprPrinter.LoneExclamation | cctools/as/expr.c:351-376 | Behind a lone exclamation mark one character is swallowed, and the rest is the right operand of != |
| ExprPrinter.LoneExample | cctools/as/expr.c:1427-1430 | 5!34 is read as 5 != 4, whole and without a warning |
| ExprPrinter.NumberStands | cctools/as/expr.c:682-835 | A printed decimal number is read as itself |
| ExprPrinter.OperandReads | cctools/as/expr.c:669-1101 | Printed numbers, names, unary operators and parentheses are read as one operand |
| ExprPrinter.TreeReads | cctools/as/expr.c:334-655 | A printed tree is read as a left operand of the same value, whatever follows at lower rank |
| ExprPrinter.ReadsBack | cctools/as/expr.c:334-655 | Every tree printed with only the parentheses that rank and left associativity need is read whole, as its own value |
| ExprPrinter.ReadStops | cctools/as/expr.c:350-376 | For all texts, the operator behind what was read has at most the rank asked for |
| ExprOperators.ArithmeticYields | cctools/as/expr.c:540-645 | By their spellings: product, sum and difference modulo 2^64; quotient and remainder rounded towards zero; shifts as powers of two; bit i of and, or and exclusive or; comparisons and logical operators as 0 or 1 |
| ExprTexts.BinaryReads | cctools/as/expr.c:334-655 | In every text, two numbers with an operator between them are read as what the operator yields, with a warning exactly for a division by zero |
| ExprTexts.GroupReads | cctools/as/expr.c:248-262 | For every two operators, three numbers are grouped by the rows of the operators, and within a row from the left |
| ExprTexts.UnaryReads | cctools/as/expr.c:1046-1078 | A minus sign negates, a tilde complements, an exclamation mark tells zero |
| ExprTexts.NumberReads | cctools/as/expr.c:682-835 | Decimal, octal and hexadecimal numbers, with small or capital figures and suffixes, are read as what their figures are worth by their places, modulo 2^64 |
| ExprTexts.NameReads | cctools/as/expr.c:974-1032 | A name, by the characters that make names, is read as what is known about it |
| ExprTexts.PrintedReads | cctools/as/expr.c:297-318 | Two printed numbers with any operator between them, as a whole expression |
| ExprTexts.ReadsAmount | cctools/as/expr.c:334-655 | The text of every tree of constants is read as what its operators yield, by their spellings |
| ExprMeaning.EvalSymbols | cctools/as/expr.c:405-503 | Without a warning the symbols of what is read are those of the chain that do not cancel, with their signs |
| ExprMeaning.AbsoluteIff | cctools/as/expr.c:1115-1160 | Nothing but a number is left if and only if every symbol is subtracted as often as it is added |
| ExprMeaning.EvalKept | cctools/as/expr.c:1046-1078 | The number beside the symbols is the one that can be told from the tree, with signs that only count where all symbols cancel |
| ExprMeaning.EvalSum | cctools/as/expr.c:405-503 | Chains of +, - and minus signs without a warning keep their mathematical value modulo 2^64, under every assignment of addresses, if and only if that number is the right one |
| ExprMeaning.SumReads | cctools/as/expr.c:297-318 | The same from the text of a chain to what a whole expression is read as, its warnings included |
| ExprMeaning.SignsSuffice | cctools/as/expr.c:1046-1078 | That number is right where every minus sign stands before no symbol, or before numbers whose double is 0 modulo 2^64 |
| ExprMeaning.EvalSigned | cctools/as/expr.c:405-503 | So such chains keep their value |
| ExprMeaning.Cancels | cctools/as/expr.c:1138-1150 | A symbol less itself is the constant 0 |
| ExprMeaning.NegatedSumExample | cctools/as/expr.c:297-318 | b+-(a+5) with defined symbols is read whole as b - a + 5, without a warning from any part of the reader |
| ExprMeaning.HalfReads | cctools/as/expr.c:528-541 | Half of a difference of two symbols, (a-b)/2, is marked as such |
| ExprReader.Reader.Digits | cctools/as/expr.c:789-797 | The digit loop computes the number in 64 bits and counts the digits |
| ExprReader.Reader.NumberFrom | cctools/as/expr.c:765-800 | A number of a radix, or a bignum when it has too many digits |
| ExprReader.Reader.Number | cctools/as/expr.c:682-970 | Chooses the radix by what the number starts with |
| ExprReader.Reader.SymbolEnd | cctools/as/expr.c:974-984 | The pointer moves to the end of the name |
| ExprReader.Reader.Operand | cctools/as/expr.c:669-1101 | The recursive reader agrees with the specified operand, its end and its warnings |
| ExprReader.Reader.Expr | cctools/as/expr.c:334-655 | So does the loop over operators |
| ExprReader.Reader.Whole | cctools/as/expr.c:297-318 | The entry agrees with the specified reading, and complains about a defined symbol subtracted from nothing |
| X86Memory.IndexCheck | cctools/as/i386.c:4734-4813 | Accepts exactly the valid pairs of base and index, trying the other address size once |
| X86Memory.AddressAccepted | cctools/as/i386.c:4734-4813 | Base, index and scale that any bytes can stand for are accepted with the address size of those bytes |
| X86Standard.Forms16 | cctools/as/i386.c:3241-3270 | Table 2-1 of the manual: what each 16-bit form stands for |
| X86Standard.Absolute16 | cctools/as/i386.c:3186-3200 | And the 16-bit displacement alone |
| X86Standard.FormsBase | cctools/as/i386.c:3273-3319 | Table 2-2: the forms with a base register |
| X86Standard.FormsAlone | cctools/as/i386.c:3186-3230 | A 32-bit displacement alone, relative to the instruction pointer in 64-bit code |
| X86Standard.FormsSib | cctools/as/i386.c:3772-3796 | Table 2-3: the forms with a SIB byte |
| X86Memory.OptimizeDisp | cctools/as/i386.c:2293-2345 | Which displacement types are left, and that zero beside a register needs none |
| X86Memory.BuildWithoutBase | cctools/as/i386.c:3186-3230 | Base-less fields decode to the operand, also as the redundant SIB form in 64-bit code |
| X86Memory.Build16 | cctools/as/i386.c:3241-3270 | So do the eight 16-bit forms, with a zero displacement for (%bp) |
| X86Memory.BaseTypes | cctools/as/i386.c:3273-3291 | The displacement type beside a 32- or 64-bit base, and the zero that ebp and r13 need |
| X86Memory.BuildWithBase | cctools/as/i386.c:3232-3319 | Fields with a base decode to it, with esp and r12 in a SIB byte and rip relative |
| X86Memory.BuildModrm | cctools/as/i386.c:3177-3335 | All accepted operands |
| X86Memory.HeaderFields | cctools/as/i386.c:3772-3796 | The ModR/M and SIB bytes give their fields back |
| X86Memory.OutputBytes | cctools/as/i386.c:3772-3843 | Decoding the bytes by the processor's tables gives base, index, scale and the displacement written |
| X86Memory.OffsetInRange | cctools/as/i386.c:774-806 | The low bytes of a value, and a warning if and only if it fits them neither with a sign nor without |
| X86Memory.NarrowedSame | cctools/as/i386.c:2305-2323 | Narrowing changes a displacement only by a multiple of its width |
| X86Memory.Narrow | cctools/as/i386.c:2305-2323 | Takes a displacement that fits the address width for a signed one, and drops the 64-bit type with it |
| X86Memory.DisplacementBack | cctools/as/i386.c:3813-3843 | It comes back modulo the address width, and in 64-bit addresses if and only if it fits 32 signed bits |
| X86Memory.EncodeMemory | cctools/as/i386.c:2293-2345 | From check to bytes: an operand is encoded if and only if some prefix and bytes decode to its base, index and scale, and then decodes to the same address; there is a warning if and only if `DispReported` holds of the displacement |
| X86Memory.SilentIff | cctools/as/i386.c:774-806 | In 64-bit addresses exactly the displacements from 2^31 to 2^32 - 1 that take four bytes, and from -2^32 to -2^31 - 1, are changed without a warning; those that fit are never complained about |
| X86Memory.SilentExample | cctools/as/i386.c:3829-3843 | 0x80000000(%rax) is encoded as an address 0x80000000 below the register, without a warning |
| Scrubber.Scrub.ReadLine | cctools/as/app.c:464-478 | Reads to the end of a line without losing its newline |
| Scrubber.Scrub.BlockComment | cctools/as/app.c:339-357 | The newlines of a comment are owed, none is lost |
| Scrubber.Scrub.FromOutString | cctools/as/app.c:158-164 | Characters held back keep the count |
| Scrubber.Scrub.RestOfComment | cctools/as/app.c:166-178 | A comment that goes on over several calls keeps the count |
| Scrubber.Scrub.LineNumber | cctools/as/app.c:180-211 | So does a line directive |
| Scrubber.Scrub.StringChar | cctools/as/app.c:213-240 | So does a string, but for the newline made up at the end of the input |
| Scrubber.Scrub.Escape | cctools/as/app.c:242-280 | A newline behind a backslash is owed |
| Scrubber.Scrub.CharacterConstant | cctools/as/app.c:389-407 | A newline is lost if and only if it is the character behind the quote |
| Scrubber.Scrub.LineComment | cctools/as/app.c:464-489 | A comment of a whole line ends in its newline, or in one made up if and only if the input ends without |
| Scrubber.Scrub.RestOfLine | cctools/as/app.c:490-499 | So does a comment to the end of a line |
| Scrubber.Scrub.Misc | cctools/as/app.c:435-510 | Whatever has no case of its own is given out, or a newline for a comment, as `StepHolds` relates to the text, and keeps the count, but for a newline made up if and only if a comment ends an input whose last line is not ended |
| Scrubber.Scrub.Mark | cctools/as/app.c:383-434 | A quotation mark, a quote, a colon, a semicolon or the end of a line keeps the count, but for a quoted newline |
| Scrubber.Scrub.Slash | cctools/as/app.c:339-382 | A comment behind a slash keeps the count, its newlines owed or left in front |
| Scrubber.Scrub.FlushOne | cctools/as/app.c:299-517 | One character is given out or something is flushed, and a quote gives out the parenthesis of a number |
| Scrubber.Scrub.Flush | cctools/as/app.c:299-517 | Everything flushed before the next character keeps the count; the two upsets happen if and only if input and output are as `Told` says |
| Scrubber.Scrub.Dispatch | cctools/as/app.c:122-517 | One step of any state: lines taken are those given out and owed, but for upsets that happen exactly when input and output show it |
| Scrubber.Scrub.Next | cctools/as/app.c:122-517 | At every step what is given out and remembered is what `Step` says, and newlines read net of pushback are those returned and owed; one is lost if and only if a quote and a newline are taken last for a parenthesis, and made up if and only if an unfinished line or a string ends |
| Scrubber.RegularStays | cctools/as/app.c:122-517 | Input without quoted newlines whose last line ends stays so over every step |
| Scrubber.RegularTold | cctools/as/app.c:122-517 | A step on such input can only be upset by the end of a string |
| Scrubber.Scrub.Run | cctools/as/app.c:916-921 | In text without directives the next glyphs are given out, well spaced, and all of them in calls enough; and on regular input any number of steps keeps the count, but for one line if and only if some step of the run found the input at its end in a string |
| Scrubber.ScrubText | cctools/as/app.c:916-921 | For a whole text without directives, its glyphs come out in their order, well spaced, with comments left out; and of any regular text, lines given out and left make up the lines of the text, and one more if and only if some step found it at its end in a string, which needs a quotation mark and all of it read |
| ScrubTexts.StepHolds | cctools/as/app.c:122-517 | In text without directives every step gives out the next glyph of the text or one blank in front of it, until all are given out |
| ScrubTexts.SpacedAt | cctools/as/app.c:299-338 | A blank only comes for blanks or comments in the text; it comes between two characters of symbols and at the first places of a line, and otherwise at most three times in a line |
| ScrubTexts.StringVerbatim | cctools/as/app.c:213-280 | A string comes out as it is, up to its quotation mark |
| ScrubTexts.EscapedNewline | cctools/as/app.c:246-253 | A backslash at the end of a line becomes two backslashes and the letter n |
| ScrubTexts.LineCommentEnds | cctools/as/app.c:490-499 | What is left out of a line ends at the first newline |
| ScrubTexts.StarCommentEnds | cctools/as/app.c:339-357 | A comment ends at the first star with a slash behind it |
| ScrubTexts.BlanksEnd | cctools/as/app.c:299-306 | Blanks end at the first character that is none |
| ScrubTexts.IntelTabled | cctools/as/i386.c:169-170 | The tables of the Intel assembler are as these results ask |
| Scrubber.CommentExample | cctools/as/app.c:916-921 | Of two symbols with a comment between them and one behind them, the symbols and a blank come out |
| Scrubber.QuotedNewlineExample | cctools/as/app.c:389-407 | A quote and a newline as the first two characters lose the newline |

## Left out

- AtofIeee.GenToWords: extended precision is not modelled; the array of a finite flonum has two littlenums or more, as all arrays of the program have.
- AtofGeneric.AtofGeneric: the program computes sizes with floating point; the model uses the rational 3.321928094887362 for the logarithm and destinations of 2 to 200 littlenums, and lets the exponent in the text grow without bound where the program overflows.
- AtofCorrect.ConvertedExact: the entries of `cctools/as/flonum-const.c` are hypotheses, as that file says that their low bits may be wrong.
- AtofCorrect.ConvertedClose: the same hypotheses on the tables, and products that do not wrap 32 bits.
- Flonums.FlonumMultip: exponents are unbounded integers, and the product of two littlenums is taken as unsigned, where the C expression multiplies two ints.
- Flonums.ZeroBytes: an odd count clears the low byte of its last littlenum, as on a little-endian host.
- LineProgram.Section.ProcessEntries: positions and final addresses of labels are inputs; frag memory, the addresses within the line section and the fixed-advance variant of the increments are not modelled.
- LineProgram.Section.Relax: the code has been laid out before, as the program does sections for debugging last, so its labels stay where they are but for the start of their section.
- LineEncoder.EmitIncLineAddr: address deltas are below 2^63, as the program holds them in a signed number before it gets here.
- Leb128.OutputLeb128: numbers are unbounded integers, of which the 64-bit build holds those that the line program needs; the 32-bit build is not modelled.
- FileTable.Table.GetFilenum: the growth of the tables in steps of 32 is not modelled, nor are the names' storage and DOS paths.
- ArFile.Ar.PutArobjNew: every read and write is complete, and what `stat` and the environment variables supply are parameters.
- ArFile.Ar.CopyAr: the inner loop that writes in pieces is one write, as only complete writes make it meaningful.
- ArCommands.Replace: the files on the disk fit the columns of a header, as the program stops otherwise; `ReplacedListed` also asks that their names can be read back.
- ArCommands.Move: a member of negative size that has to be gone over is not modelled, because the program then goes backwards in the archive; every other archive is covered (`AnyArchive`). The same holds for `Delete` and `Replace`.
- HashTable.Table.HashInsert: keys are values, so that a caller who changes a string after inserting it is not modelled; nor are statistics and traversal.
- ExprOperators.ArithmeticYields: says nothing of shift counts outside 0 to 63, which C leaves undefined.
- ExprReader.Reader.Operand: local labels, the pseudo symbol `.`, quotes, quoted names, bignums and floats are read as a placeholder that operators refuse, and names with attached expressions are left out; nor is the mode without dynamic linking modelled.
- ExprReader.Reader.Number: floats, bignums and local labels are that placeholder, and where they end is not stated.
- ExprReader.Reader.NumberFrom: numbers of too many digits and local labels are the same placeholder.
- ExprPrinter.SpelledIff: behind a lone exclamation mark at the end of the line the program reads on in memory; the model finds nothing there.
- ExprPrinter.ReadsBack: the operator "or not" has no spelling and cannot be printed, and shift counts are those in 0 to 63.
- X86Memory.EncodeMemory: displacements are constants of 64 bits; relocations, segment overrides, register operands, Intel syntax and everything else of an instruction are left out.
- Scrubber.Scrub.Next: which characters come out is stated for text without line directives of the preprocessor; directives only keep the count. It covers the I386 build, and state 8 needs a newline ahead, because the program loops for ever at the end of the input there.
- The other debug sections, symbol and section plumbing, relocations, all other machines, and the drivers of both programs.
- The commands `extract`, `print`, `contents` and `append` of `ar`, its option -T, and locking: these would add easy members or none.
- The text of warnings and errors; the model records only that there is one.
