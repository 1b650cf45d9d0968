# QuickJS support libraries, modelled and proved in Dafny

The library embeds a JavaScript engine whose supporting C files carry most of its difficult
algorithms. This project models five of them and proves what they compute, for every input:

- **Limb arithmetic** (`libbf.c`, 64-bit limbs). The carry loops, schoolbook division, Newton's
  reciprocal and the division that multiplies by it, the Karatsuba square root, normalisation and
  rounding, correctly rounded addition, multiplication and division of floating-point numbers, the
  number-theoretic transform with its lazily reduced entries and its tables, bitwise operations on
  sign-magnitude integers, and radix conversion. Limbs live in arrays that the methods change in
  place; wrap-around is written out. Modules `Limbs`, `Division`, `Reciprocal`, `SquareRoot`, `Bits`,
  `Bitwise`, `Rounding`, `Arithmetic`, `Addition`, `Congruence`, `NttModular`, `Ntt`, `NttInverse`,
  `NttTables`, `LogicOps`, `Radix`.
- **Regular expressions** (`libregexp.c`). A pattern means the list of all ways to match it, most
  preferred first (`RegexSyntax.Match`), with the quantifier rule of section 22.2.2.3.1 of ECMA-262.
  The compiler appends, inserts, copies and patches bytes; the machine is a transition function that
  gets stuck wherever the C code would be undefined, and the execution loop is proved against it. The
  main theorem says that the machine on the compiled bytes finds the first way of the list; another
  one says where the ways of the list end, without the matcher. Modules `Regex*`, with `Runs` for runs
  of a machine.
- **Sorting and text** (`cutils.c`). The introsort with its fixed stack, and the UTF-8 and UTF-16
  codecs with lone surrogates and truncated buffers. Modules `Sorting`, `Utf8`.
- **Character sets** (`libunicode.c`). Sets as sorted boundary points, with their normal form, merge,
  complement and sort. Modules `CharSets`, `CharRanges`.
- **The worker message pipe** (`quickjs-libc.c` over `list.h`). The linked list, the queue, its
  reference-counted buffers as objects in memory, and then any interleaving of any number of threads
  as a protocol. Modules `Lists`, `WorkerPipe`, `PipeProtocol`.

`dafny verify dfyconfig.toml` checks the whole project.

Functions and predicates define what is meant (`Num`, `Match`, `IsRounding`, `Dft`, `EncodeAll`,
`In`, `Inv`); methods follow the loops and branches of the C functions and are proved against them;
lemmas say what the definitions are worth (uniqueness, round trips, invariants over every run).

## Findings

Where the code does less than it, its comments or its name promise:

- A failed write of the wake-up byte is never retried: the condition on `errno` at
  `quickjs-libc.c:3730` is true for every value. The queue can then be non-empty with nothing to wake
  the receiver: `PipeProtocol.LostWakeUp` is such a run, and `PipeProtocol.HeldUp` continues it with a
  receiver that holds the mutex and waits on its read. A failed read of the byte
  (`quickjs-libc.c:2409-2416`) leaves it behind an empty queue: `PipeProtocol.StaleWakeUp`.
  `PipeProtocol.WakeUp` gives the number of bytes after every run and says when it is one exactly for a
  non-empty queue; `PipeProtocol.HolderProceeds` says when the holder of the mutex is held up, in both
  directions.
- Decoding and encoding again does not restore every byte string: `Utf8.NotRestored` has two that it
  does not. `Utf8.EncodesBack` says that it does if and only if the decoder reports no error and the
  string holds no surrogate pair written as two three-byte sequences.
- The comment at `libbf.c:1362` gives B^(2n) < a*r + 2 for the reciprocal. What the code ensures, and
  what the division needs, is B^(2n) < a*(r + 2) (`Reciprocal.MpRecip`). The comment's bound fails for
  the least normalised number of every length (`Reciprocal.LeastNormalised`) and for every even one
  (`Reciprocal.CommentBoundFails`). For one and two limbs it holds if and only if a divides B^(2n) - 1
  (`Reciprocal.CommentBoundShort`); for every length, if and only if besides r is the greatest number
  with a*r < B^(2n) (`Reciprocal.CommentBoundIf`).

## Model

| member | source | states |
|---|---|---|
| Limbs.MpAdd | Sources/SubstrataQuickJS/libbf.c:1040-1056 | The two wrapping additions per limb give the exact sum with the carry out, also when the result overwrites an operand; nothing outside the window changes. |
| Limbs.MpSub | Sources/SubstrataQuickJS/libbf.c:1074-1090 | The same for the difference and the borrow. |
| Limbs.MpNeg | Sources/SubstrataQuickJS/libbf.c:1093-1108 | The negation modulo B^n, with the borrow. |
| Limbs.MpShr | Sources/SubstrataQuickJS/libbf.c:1129-1143 | A right shift of a whole number, in place, with the bits shifted in above and out below. |
| Limbs.MpMul1 | Sources/SubstrataQuickJS/libbf.c:1146-1158 | The product with one limb plus an incoming limb, with the high limb out. |
| Limbs.MpAddMul1 | Sources/SubstrataQuickJS/libbf.c:1161-1175 | Adds a product with one limb; the 128-bit accumulator cannot wrap. |
| Limbs.MpMulBasecase | Sources/SubstrataQuickJS/libbf.c:1177-1188 | The rows add up to the exact product. |
| Limbs.MpSubMul1 | Sources/SubstrataQuickJS/libbf.c:1214-1227 | Subtracts a product; the negated high half of the 128-bit image is the right borrow although the difference may be negative. |
| Division.Udiv1Norm | Sources/SubstrataQuickJS/libbf.c:1230-1258 | Two limbs by one: from the precomputed inverse, the quotient and remainder are exact for every normalised divisor and every smaller high limb. |
| Division.MpDiv1Norm | Sources/SubstrataQuickJS/libbf.c:1261-1281 | Division by one limb: quotient, and remainder below the divisor. |
| Division.AddBack | Sources/SubstrataQuickJS/libbf.c:1344-1355 | The digit that was too large is lowered until the partial remainder is not negative, which takes one or two additions of the divisor. |
| Division.DivnormSchoolbook | Sources/SubstrataQuickJS/libbf.c:1301-1360 | In place: a = q * b + r with r < b and the top limb of q at most one. |
| Reciprocal.MpRecip | Sources/SubstrataQuickJS/libbf.c:1362-1428 | For every normalised a of n limbs, a * r < B^(2n) < a * (r + 2) and the top limb of r is one, through the half-size call, the decrement loop and the truncated product. |
| Reciprocal.CommentBoundIf | Sources/SubstrataQuickJS/libbf.c:1362-1364 | The bound of the comment holds if and only if a divides B^(2n) - 1 and r is the greatest number with a * r < B^(2n). |
| Reciprocal.CommentBoundShort | Sources/SubstrataQuickJS/libbf.c:1376-1387 | For one and two limbs the divisibility alone decides. |
| Reciprocal.CommentBoundFails | Sources/SubstrataQuickJS/libbf.c:1362-1364 | It fails for every even a, of any length. |
| Reciprocal.LeastNormalised | Sources/SubstrataQuickJS/libbf.c:1362-1364 | For a = B^n / 2 the result is 2 * B^n - 1 and the comment's bound fails. |
| Reciprocal.MpDivnormLarge | Sources/SubstrataQuickJS/libbf.c:1449-1538 | Dividing by multiplying with the approximate inverse gives the quotient and remainder of exact division, also with the shortened and incremented divisor; the adjusting loop ends. |
| Reciprocal.MpDivnorm | Sources/SubstrataQuickJS/libbf.c:1291-1360 | The dispatch between the methods: the same contract as schoolbook division for every pair of lengths; the mutual recursion of the three functions ends. |
| SquareRoot.MpSqrtrem1 | Sources/SubstrataQuickJS/libbf.c:1910-1951 | From the table and two refinements, a = s * s + r with 0 <= r <= 2s for one limb. |
| SquareRoot.MpSqrtrem2 | Sources/SubstrataQuickJS/libbf.c:1967-1993 | The same for two limbs, with the top bit of the remainder returned. |
| SquareRoot.MpSqrtremRec | Sources/SubstrataQuickJS/libbf.c:1999-2065 | For every length: a = s * s + r with 0 <= r <= 2s in place; one downward correction is enough, also when the quotient reaches B^l. |
| SquareRoot.MpSqrtrem | Sources/SubstrataQuickJS/libbf.c:2073-2089 | s is the root rounded down, s * s <= a < (s + 1) * (s + 1), and the remainder is left in a. |
| SquareRoot.SqrtIsFloor | Sources/SubstrataQuickJS/libbf.c:1995-1999 | The two conditions on root and remainder determine the root. |
| Bits.GetBits | Sources/SubstrataQuickJS/libbf.c:334-355 | The 64 bits of a number from any position, below its lowest and above its highest limb included. |
| Rounding.GetRndAdd | Sources/SubstrataQuickJS/libbf.c:411-462 | The scan over single bits adds a unit exactly if the rounding direction selects the next multiple above, and reports inexactness exactly if a dropped bit is set. |
| Rounding.BF.AddUlp | Sources/SubstrataQuickJS/libbf.c:540-566 | Adding one unit in the last place gives the next mantissa, also when the carry leaves the top limb and the mantissa moves by a bit. |
| Rounding.BF.SetOverflow | Sources/SubstrataQuickJS/libbf.c:464-493 | Overflow gives an infinity or the largest finite number of the precision, as the direction and the sign demand. |
| Rounding.BF.NormalizeAndRound | Sources/SubstrataQuickJS/libbf.c:500-641 | The result is the multiple of the unit that the direction selects for the number in the fields, in normal form, or the underflow or overflow result; inexact is reported exactly if the value changed; precision at or below zero and subnormals included. |
| Rounding.RoundingUnit | Sources/SubstrataQuickJS/libbf.c:510-524 | The unit of the rounding, written out: 2^(e - prec); with subnormal numbers not below 2^(3 - 2^(expBits - 1) - prec); with a precision counted from the radix point 2^-prec. |
| Rounding.SubnormalGrid | Sources/SubstrataQuickJS/libbf.c:518-522 | With subnormal numbers every rounded number is a multiple of the unit that all subnormal numbers share. |
| Rounding.RoundingUnique | Sources/SubstrataQuickJS/libbf.c:411-462 | Except for faithful rounding there is only one such multiple. |
| Rounding.RoundingNearest | Sources/SubstrataQuickJS/libbf.c:411-462 | In the nearest directions no multiple of the unit is closer. |
| Rounding.RoundingTies | Sources/SubstrataQuickJS/libbf.c:411-462 | Halfway between two multiples: the even one for RNDN, the one farther from zero for RNDNA. |
| Rounding.RoundingDirected | Sources/SubstrataQuickJS/libbf.c:411-462 | Rounding down and up: no multiple on the right side is closer. |
| Rounding.RoundingMagnitude | Sources/SubstrataQuickJS/libbf.c:411-462 | Rounding to and away from zero: no multiple of smaller or greater magnitude is closer. |
| NttModular.ModFast | Sources/SubstrataQuickJS/libbf.c:7366-7382 | The reduction with a precomputed inverse and three subtractions is the exact remainder. |
| NttModular.MulModFast2 | Sources/SubstrataQuickJS/libbf.c:7405-7415 | The product modulo m with an inverse prepared for one factor. |
| NttModular.MulModFast3 | Sources/SubstrataQuickJS/libbf.c:7420-7428 | The lazy form: below 2m and congruent to the product, for any 64-bit factor. |
| Ntt.BFNTTState.GetTrig | Sources/SubstrataQuickJS/libbf.c:7794-7829 | The cached table holds the powers of the root of order 2^k, with their inverses. |
| Ntt.PassAdvances | Sources/SubstrataQuickJS/libbf.c:7716-7740 | A pass of butterflies keeps what determines the transform: half the entries per column, twice the columns, the square of the root. |
| Ntt.BFNTTState.Fft | Sources/SubstrataQuickJS/libbf.c:7697-7754 | For every length 2^k and entries below 2m, the passes between two buffers end with entries below 2m that are the discrete Fourier transform modulo m in natural order. |
| NttInverse.InverseTransform | Sources/SubstrataQuickJS/libbf.c:7697-7754 | Transforming with a root and then with its inverse gives the input times the length. |
| NttTables.Tabulated | Sources/SubstrataQuickJS/libbf.c:7262-7278 | Every tabulated modulus lies between 2^61 and 2^62, and both tabulated roots have the order 2^51 with it, by fifty squarings each. |
| NttTables.InverseRoots | Sources/SubstrataQuickJS/libbf.c:7270-7273 | The roots of the second row are the inverses of those of the first. |
| NttTables.NttStaticInit | Sources/SubstrataQuickJS/libbf.c:8200-8245 | The loop that fills the tables of powers leaves a state that the transform accepts. |
| NttTables.ThereAndBack | Sources/SubstrataQuickJS/libbf.c:7697-7754 | With each of the five moduli, transforming with the first root and then with the second gives the input times the length, modulo m. |
| Arithmetic.Cmpu | Sources/SubstrataQuickJS/libbf.c:754-777 | The sign of the difference of the magnitudes of any two finite numbers, with mantissas of different lengths. |
| Arithmetic.CorrectSubnormal | Sources/SubstrataQuickJS/libbf.c:568-625 | With subnormal numbers the rounded number is kept, and underflow is reported exactly if it is inexact and below the normal range, or nothing of the number was kept. |
| Arithmetic.OverflowSide | Sources/SubstrataQuickJS/libbf.c:464-493 | An overflow gives an infinity or the largest finite number so that directed rounding stays on its side of the exact number. |
| Arithmetic.Mul | Sources/SubstrataQuickJS/libbf.c:1540-1619 | The result is the exact product, rounded in the given direction to the given precision, with overflow, underflow and inexactness reported. |
| Arithmetic.Div | Sources/SubstrataQuickJS/libbf.c:1668-1741 | The same for the quotient: the limbs of the truncated one with the remainder folded into the lowest bit are enough to round the exact one. |
| Addition.CountCancelledBits | Sources/SubstrataQuickJS/libbf.c:832-882 | A difference loses at most as many bits at the top as are counted from the equal limbs and the run of zeros over ones. |
| Addition.AddInternal | Sources/SubstrataQuickJS/libbf.c:884-1026 | For any two finite numbers the exact sum or difference, correctly rounded, although only the limbs that the precision needs are computed and the space between the mantissas is passed over; with the sign of a zero result. |
| LogicOps.LogicOp | Sources/SubstrataQuickJS/libbf.c:2345-2429 | The bits of the result are the disjunction, conjunction or exclusive disjunction of the bits of the infinite two's complement forms of the operands, at every position; the shortened length for "and" is enough. |
| LogicOps.SumLaws | Sources/SubstrataQuickJS/libbf.c:2345-2429 | The results of "or" and "and" add up to the sum of the operands, and that of "xor" is their difference. |
| LogicOps.NeutralLaws | Sources/SubstrataQuickJS/libbf.c:2345-2429 | What each operation makes of a number and itself, zero, and all ones. |
| LogicOps.BitwiseUnique | Sources/SubstrataQuickJS/libbf.c:2345-2429 | There is only one integer with these bits. |
| Radix.PowUi | Sources/SubstrataQuickJS/libbf.c:2284-2300 | Squaring and multiplying from the top bit of the exponent gives the power, with infinite precision. |
| Radix.Parts | Sources/SubstrataQuickJS/libbf.c:2727-2728 | At every level both parts have digits, the upper one at most one more than the lower one, so that one cached power serves the level. |
| Radix.LevelBound | Sources/SubstrataQuickJS/libbf.c:2763-2770 | The level stays inside the table of powers, with one entry to spare for from-conversion and two levels for to-conversion; no shift reaches 64. |
| Radix.IntegerFromRadix | Sources/SubstrataQuickJS/libbf.c:2715-2776 | The number with the given digits, through the library's products and sums. |
| Radix.InverseOfPower | Sources/SubstrataQuickJS/libbf.c:3425-3439 | The cached inverse is one divided by the power, rounded to nearest to the precision asked for. |
| Radix.EstimateOff | Sources/SubstrataQuickJS/libbf.c:3430-3444 | With the precisions the code asks for, the truncated product with the rounded inverse leaves a remainder between -B and 2B. |
| Radix.EstimateQuotient | Sources/SubstrataQuickJS/libbf.c:3440-3442 | The rounded product with the inverse, rounded to an integer, is that estimate. |
| Radix.Adjust | Sources/SubstrataQuickJS/libbf.c:3446-3464 | The two loops repair any estimate; after an estimate like the one above at most one of them runs, once. |
| Radix.Divide | Sources/SubstrataQuickJS/libbf.c:3430-3464 | Quotient and remainder by the power of a level are exact. |
| Radix.IntegerToRadix | Sources/SubstrataQuickJS/libbf.c:3395-3505 | Every limb is a digit, and the digits are those of the number, through the library's products, quotients and sums. |
| Radix.DigitsUnique | Sources/SubstrataQuickJS/libbf.c:3395-3505 | The digits of a number are unique. |
| Radix.ThereAndBack | Sources/SubstrataQuickJS/libbf.c:2755-2776 | Converting an integer to digits and back gives the integer. |
| Radix.BackAndThere | Sources/SubstrataQuickJS/libbf.c:3481-3505 | Converting digits to an integer and back gives the digits. |
| RegexCompiler.NeedCheckAdvance | Sources/SubstrataQuickJS/libregexp.c:926-978 | The scan asks for an advance check unless it finds only listed instructions, one of them a character. |
| RegexCompiler.IsSimpleQuantifier | Sources/SubstrataQuickJS/libregexp.c:982-1020 | The number of characters of a simple atom, -1 for any other. |
| RegexScans.Scans | Sources/SubstrataQuickJS/libregexp.c:926-1020 | On the code of any pattern, told on the pattern: the check is needed exactly unless the pattern is linear and has a character, and the width is that of a simple pattern and -1 for any other. |
| RegexQuantifiers.QuantBehaves | Sources/SubstrataQuickJS/libregexp.c:1458-1658 | Every form of quantifier code does what repetition means, given that the atom's code does what the atom means; leaving out the advance check is harmless. |
| RegexCompiler.REParseState.Parse | Sources/SubstrataQuickJS/libregexp.c:1169-1727 | Insertion, copying and jump patching end with the code of the pattern behind what was emitted before; it fails exactly if there are too many captures or a class has too many ranges. |
| RegexCompiler.ComputeStackSize | Sources/SubstrataQuickJS/libregexp.c:1730-1772 | The greatest depth the linear scan finds, or -1 above the limit. |
| RegexProgram.StackSizeExact | Sources/SubstrataQuickJS/libregexp.c:1730-1772 | The stack size of the header is the greatest depth of the scan: no depth exceeds it and one reaches it. |
| RegexCompiler.Compile | Sources/SubstrataQuickJS/libregexp.c:1778-1869 | A header with the flags, the captures, the stack size and the length, and then the program; it fails exactly in the two cases above and if the stack is too deep. |
| RegexTheorem.Compiled | Sources/SubstrataQuickJS/libregexp.c:1169-1727 | Wherever the code of a pattern stands in a program, the machine tries the ways to match it in order, with captures, value stack and backtrack stack as they must be. |
| RegexProgram.ExecutionCorrect | Sources/SubstrataQuickJS/libregexp.c:2042-2449 | For every pattern, subject and start, the machine on the compiled program halts with the first way to match, or with failure if there is none, and is never stuck. |
| RegexMeaning.MatchSpans | Sources/SubstrataQuickJS/libregexp.c:2042-2449 | Some way to match ends at j if and only if the pattern can cover the stretch up to j, by a definition without backtracking, with sums of rounds that may be empty and with the character sets of ECMA-262. |
| RegexMeaning.NoRepetition | Sources/SubstrataQuickJS/libregexp.c:1560-1569 | The way that repeats nothing is the last of a greedy quantifier, the first of a lazy one and the only one with maximum zero; it forgets what the groups inside had captured and changes nothing else. |
| RegexMeaning.GroupMarks | Sources/SubstrataQuickJS/libregexp.c:2212-2219 | Every way through a group marks where it started and where it ended. |
| RegexMeaning.OtherMarks | Sources/SubstrataQuickJS/libregexp.c:2212-2232 | No way to match changes the marks of groups outside the pattern. |
| RegexMeaning.LeftFirst | Sources/SubstrataQuickJS/libregexp.c:1688-1727 | An alternative prefers its left side and comes to the right one if that fails. |
| RegexProgram.StackBound | Sources/SubstrataQuickJS/libregexp.c:1730-1772 | In every state a run reaches, the value stack is as long as the linear scan says at that instruction, and no longer than the header's size. |
| RegexProgram.SearchIsLeftmost | Sources/SubstrataQuickJS/libregexp.c:1809-1817 | Without the sticky flag the answer is the first match from the leftmost position that has one. |
| RegexGreedy.GreedyVisits | Sources/SubstrataQuickJS/libregexp.c:2090-2112 | One run-length entry on the backtrack stack visits exactly the positions after j, j - 1, ..., min repetitions, in that order. |
| RegexGreedy.ScanIsLongest | Sources/SubstrataQuickJS/libregexp.c:2405-2444 | The inner scan ends and counts the longest run of the atom within the limit. |
| RegexRanges.RangeInstruction | Sources/SubstrataQuickJS/libregexp.c:2322-2398 | The binary search over the emitted table, with 0xFFFF for infinity, passes exactly the characters of the set; no index underflows. |
| RegexExec.REExecContext.ExecBacktrack | Sources/SubstrataQuickJS/libregexp.c:2042-2449 | The loop over mutable fields takes the transitions of the machine until it halts. |
| RegexExec.Exec | Sources/SubstrataQuickJS/libregexp.c:2454-2490 | Running compiled bytes tells whether there is a way to match, and gives the captures of the first. |
| RegexResult.CompileAndExec | Sources/SubstrataQuickJS/libregexp.c:1778-2490 | Compiling and running together: compilation fails exactly above 254 groups, 65534 ranges in a class or a stack of 255; a sticky pattern is matched at the start, any other at the leftmost position from which the pattern can cover a stretch; capture 0 tells that stretch, and the captures are those of the preferred way there, all empty for a pattern repeated zero times. |
| Sorting.HeapSort | Sources/SubstrataQuickJS/cutils.c:969-1001 | A permutation of the segment for any answers of the comparison; sorted if they come from a total preorder. |
| Sorting.Partition | Sources/SubstrataQuickJS/cutils.c:1040-1099 | Four parts, two block swaps: smaller, equal and greater elements, the middle never empty. |
| Sorting.SortSegment | Sources/SubstrataQuickJS/cutils.c:1011-1128 | For any answers at all the stack never holds more than 50 entries, because the entry at index k has depth k + 1 or more, and the work left decreases. |
| Sorting.Sort | Sources/SubstrataQuickJS/cutils.c:1011-1128 | A permutation whatever the comparison answers, even differently from call to call; sorted if the answers are those of a total preorder. |
| Utf8.DecodeEncode | Sources/SubstrataQuickJS/cutils.c:249-359 | Decoding what was written for a code point gives it back, whatever follows. |
| Utf8.DecodedIsEncoded | Sources/SubstrataQuickJS/cutils.c:293-359 | A sequence of several bytes that is accepted is exactly what the encoder writes for that code point: the forms of section 4 of RFC 3629, with surrogates. |
| Utf8.Forms | Sources/SubstrataQuickJS/cutils.c:249-291 | The lengths and byte ranges of section 3 of RFC 3629, and examples of its section 7. |
| Utf8.Ordered | Sources/SubstrataQuickJS/cutils.c:249-291 | Code points compare as their bytes do. |
| Utf8.FirstPiece | Sources/SubstrataQuickJS/cutils.c:293-384 | A string that starts with the form of a code point decodes to it and then the rest; any other gives U+FFFD for its first byte alone. |
| Utf8.Surrogates | Sources/SubstrataQuickJS/cutils.c:473-497 | The two units of a character above U+FFFF, as in section 2.1 of RFC 2781. |
| Utf8.RoundTrip | Sources/SubstrataQuickJS/cutils.c:473-581 | Decoding the encoding of any 16-bit string, lone surrogates included, gives the string. |
| Utf8.EncodesBack | Sources/SubstrataQuickJS/cutils.c:473-581 | Encoding the decoding gives the bytes back if and only if there is no error and no surrogate pair in two parts. |
| Utf8.NotRestored | Sources/SubstrataQuickJS/cutils.c:473-581 | A stray byte and a surrogate pair in two parts do not come back. |
| Utf8.FittingRoundTrip | Sources/SubstrataQuickJS/cutils.c:543-581 | What fits into a short buffer decodes to a prefix of the string, never splitting a character. |
| Utf8.FittingIsAll | Sources/SubstrataQuickJS/cutils.c:543-581 | The whole encoding is written if and only if it and its terminator fit. |
| Utf8.Scan | Sources/SubstrataQuickJS/cutils.c:397-435 | The kind flags and the length are those of the decoded units. |
| Utf8.DecodeLen | Sources/SubstrataQuickJS/cutils.c:361-384 | Decoding the next character near the end of the input reads nothing behind it. |
| Utf8.EncodeBuf16 | Sources/SubstrataQuickJS/cutils.c:543-581 | The full length for every buffer, and a terminated prefix of whole characters in it. |
| Utf8.EncodeBuf8 | Sources/SubstrataQuickJS/cutils.c:506-534 | The same for 8-bit sources. |
| Utf8.DecodeBuf16 | Sources/SubstrataQuickJS/cutils.c:473-497 | The full number of units, and as many of them as fit. |
| Utf8.DecodeBuf8 | Sources/SubstrataQuickJS/cutils.c:445-464 | The same for text without characters above 0xFF. |
| CharRanges.CanonicalUnique | Sources/SubstrataQuickJS/libunicode.c:426-452 | A set has only one normal form. |
| CharRanges.CharRange.Compress | Sources/SubstrataQuickJS/libunicode.c:426-452 | Empty and touching intervals go; the set stays. |
| CharRanges.CharRange.Combine | Sources/SubstrataQuickJS/libunicode.c:455-505 | Merging the points with parities gives, in normal form, the characters in one set or the other, in both, or in exactly one. |
| CharRanges.SetLaws | Sources/SubstrataQuickJS/libunicode.c:455-505 | What each operation makes of a set and itself, the empty set, and its complement. |
| CharRanges.CharRange.AddInterval | Sources/SubstrataQuickJS/include/libunicode.h:81-90 | Appends an interval and leaves the points before it as they were, also when the buffer has to grow. |
| CharRanges.CharRange.Union | Sources/SubstrataQuickJS/libunicode.c:507-517 | Union with a second set, into the first. |
| CharRanges.CharRange.UnionInterval | Sources/SubstrataQuickJS/include/libunicode.h:94-100 | Union with one interval. |
| CharRanges.CharRange.Invert | Sources/SubstrataQuickJS/libunicode.c:519-531 | Complement with respect to all characters. |
| CharRanges.CharRange.SortAndRemoveOverlap | Sources/SubstrataQuickJS/libunicode.c:1345-1379 | Intervals in any order and overlapping become the normal form of their union. |
| Lists.AddTail | Sources/SubstrataQuickJS/include/list.h:68-71 | Links an element in as the last of the ring. |
| Lists.Del | Sources/SubstrataQuickJS/include/list.h:73-82 | Takes any element out of the ring and clears its links. |
| WorkerPipe.JSWorkerMessagePipe.Post | Sources/SubstrataQuickJS/quickjs-libc.c:3717-3737 | Reference counts first, then the wake-up byte if the queue was empty, then the message at the end. |
| WorkerPipe.JSWorkerMessagePipe.Dequeue | Sources/SubstrataQuickJS/quickjs-libc.c:2398-2423 | The first message, and with the last one a read of up to 16 bytes, which may fail and then leaves them. |
| WorkerPipe.FreeMessage | Sources/SubstrataQuickJS/quickjs-libc.c:3442-3452 | Every buffer loses as many references as the message has entries of it, and is freed exactly when none is left. |
| WorkerPipe.JSWorkerMessagePipe.Free | Sources/SubstrataQuickJS/quickjs-libc.c:3454-3475 | The last user gives back the references of all queued messages. |
| PipeProtocol.EventKeeps | Sources/SubstrataQuickJS/quickjs-libc.c:2398-3737 | Every step of every thread keeps the invariant. |
| PipeProtocol.WakeUp | Sources/SubstrataQuickJS/quickjs-libc.c:3719-3735 | Over every interleaving, while the mutex is free the pipe holds the bytes that failed reads left and, if the queue is non-empty, the one of the last write if it succeeded; hence when there is one byte exactly for a non-empty queue. |
| PipeProtocol.WakeUpIfRead | Sources/SubstrataQuickJS/quickjs-libc.c:2405-2417 | With every read succeeding: one byte if and only if the queue is non-empty and the last write succeeded. |
| PipeProtocol.WakeUpIfWritten | Sources/SubstrataQuickJS/quickjs-libc.c:3719-3735 | With every read and write succeeding: one byte exactly if the queue is non-empty. |
| PipeProtocol.LostWakeUp | Sources/SubstrataQuickJS/quickjs-libc.c:3724-3732 | A run of one post whose write fails: the mutex is free, the message is queued, the pipe is empty. |
| PipeProtocol.HeldUp | Sources/SubstrataQuickJS/quickjs-libc.c:2405-2417 | Continued by a receiver that takes the message: it holds the mutex and has no step onward. |
| PipeProtocol.StaleWakeUp | Sources/SubstrataQuickJS/quickjs-libc.c:2409-2416 | A post and a receive whose read fails: the queue is empty and the byte is still there. |
| PipeProtocol.MutualExclusion | Sources/SubstrataQuickJS/quickjs-libc.c:2398-3737 | Two threads are never inside the critical sections at once. |
| PipeProtocol.HolderProceeds | Sources/SubstrataQuickJS/quickjs-libc.c:2407-2417 | The thread with the mutex can take a step onward, if and only if it is not a receiver that took the last message while neither the last write nor a failed read left a byte. |
| PipeProtocol.InOrder | Sources/SubstrataQuickJS/quickjs-libc.c:2398-3737 | What was sent is what was received and then what is queued, in order: every message leaves once. |
| PipeProtocol.References | Sources/SubstrataQuickJS/quickjs-libc.c:3442-3452 | Every undelivered message holds one reference per entry, counted over all threads. |
| PipeProtocol.NoUnderflow | Sources/SubstrataQuickJS/quickjs-libc.c:3395-3412 | No reference count is lowered below zero. |
| PipeProtocol.NoLeak | Sources/SubstrataQuickJS/quickjs-libc.c:3454-3475 | Once the pipe is closed only the references held elsewhere remain. |
| PipeProtocol.PostSection | Sources/SubstrataQuickJS/quickjs-libc.c:3717-3737 | The steps of a post, run without interruption, have the effect that the object's method is proved to have. |
| PipeProtocol.ReceiveSection | Sources/SubstrataQuickJS/quickjs-libc.c:2398-2423 | The same for a receive, whether its read succeeds or fails. |

## Left out

Limb arithmetic:

- Products of long operands always use the schoolbook rows; the branch that multiplies by the transform is not part of the division and square root here.
- The transform's callers: splitting into several moduli, partial transforms, the convolution and the Chinese remainder step; of the tables, the inverses of the lengths and the products for the Chinese remainder step.
- The versions for 32-bit limbs and for AVX2; allocation failures, NaN and infinite operands.
- Rounding.BF.NormalizeAndRound: excludes precision zero with an exponent at the top of its range, where an overflow would ask for the largest number of zero bits, and infinite precision together with subnormal numbers.
- Addition.AddInternal: excludes a precision counted from the radix point, with which the library only rounds. Results are new objects, here and in the other operations, so an operand that is also the result is not covered.
- Arithmetic.Mul: excludes faithful rounding, for which operands are shortened first.
- Arithmetic.Div: excludes division by zero, infinite precision and a precision counted from the radix point.
- LogicOps.LogicOp: excludes exponents within 256 of the largest one; such a number has 2^60 bits.
- Radix.IntegerToRadix: takes the number to have no more digits than asked for, and those to be at most 2^52. The constant-divisor branch for radix 10 computes the same quotient and is not modelled. get_limb_radix is not part of this model, so the digit radix is any limb from 2 up. One empty number stands for all entries of the table that are not filled.
- Radix.IntegerFromRadix: at most 2^52 digits.
- Radix.PowUi: infinite precision, as its callers here ask for; the table of powers of ten that bf_pow_ui_ui may read instead is not part of this model.
- Conversion of text to numbers and back, transcendental functions, decimal twins.

Regular expressions:

- Patterns are syntax trees; reading pattern text and its escapes is not modelled.
- Back references, lookbehind, ignore-case matching, named groups and the stepping over surrogate pairs; a subject is a sequence of units of any width.
- Captures are not cleared at each iteration, as in the code; in this the meaning differs from ECMA-262.
- RegexExec.Exec: says nothing of the captures after a failed match, and takes programs shorter than 2^31 bytes, beyond which jump offsets do not fit.
- RegexResult.CompileAndExec: the same bound on the length.
- Limits on memory and the interrupt handler.

Sorting and text:

- Sorting.Sort: elements are values of any type, so the exchange functions for each element size are not modelled; the explicit stack is a sequence of at most 50 entries. The comparison's answers depend on how often it has been called and on its two arguments, which covers every sequence of answers.
- Utf8.DecodeBuf8: takes text without characters above 0xFF, which is what its caller has found with the scan.
- Growing buffers and number formatting.

Character sets:

- CharRanges.CharRange.UnionInterval: excludes an upper end of UINT32_MAX, at which the exclusive end wraps to zero.
- Copying and releasing sets, canonicalisation for case folding, and everything that needs the Unicode tables.

Worker pipe:

- Serialising and delivering message values, the finalizer and the poll loop; memory orders of the atomic counters; a message is an element of the list with its data left out.
- WorkerPipe.JSWorkerMessagePipe.Dequeue: a read that succeeds finds a byte; a read that waits for one is a state of the protocol in which the holder has no step onward.
