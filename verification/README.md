# The irqbalance bitmap library in Dafny

irqbalance stores sets of CPU numbers in `cpumask_t`, an array of `unsigned long` words handled by
`bitmap.c`, `bitmap.h` and `non-atomic.h`. This project models those three files for 64-bit words and
proves what their operations do for every width, every content and every shift, in two views of the
same array:

- the number `Value(words)`, least significant word first (`Number(a, bits)` for the words of a bitmap);
- the set `Members(x, bits)` of positions below `bits` that hold a 1 (`Set(a, bits)` for an array).

Words are natural numbers below 2^64. `+ - * << >> ~` are C's unsigned arithmetic written out with its
wrap-around; `& | ^` are defined bit by bit (`Bits.Bitwise`) and tied to `Bit` by `BitBitwise`. The
operations that the source writes as loops or in-place updates are methods over `array<Word>`, and
nothing forbids `dst` from being one of the sources: all results are stated over the old contents.

| file | what it holds |
|---|---|
| `Bits.dfy` | powers of two, bits, bitwise operations, bit counts, bit length, sets of positions |
| `Words.dfy` | C operators on words, rows of words as numbers, partial last words |
| `Weights.dfy` | `hweight32`, `hweight64`, `hweight_long`, `fls` |
| `Bitmap.dfy` | the word loops of `bitmap.c` other than the shifts |
| `Shifts.dfy` | the multi-word shifts and their algebra |
| `BitOps.dfy` | `non-atomic.h` |
| `Inlines.dfy` | the inline operations of `bitmap.h`, fast paths included |
| `Hex.dfy`, `Layout.dfy`, `TextForm.dfy`, `Letters.dfy` | character classes and digits, the text that is printed, and each of its characters |
| `Printer.dfy` | `bitmap_scnprintf` |
| `Parser.dfy`, `Grammar.dfy`, `Characters.dfy` | `__bitmap_parse`, the meaning of every text, and of single characters in it |
| `RoundTrip.dfy` | printing, then parsing |
| `Runs.dfy`, `Laws.dfy` | whole runs against plain sets; weights of combined bitmaps |

## Where the code and its comments part

The model follows the code. Each of these is a theorem below.

- Printing does not always show the bitmap. The chunk size of the top group is kept until some group has
  been printed, so after a zero partial top group the next groups are masked too narrowly. The text shows
  the bitmap exactly when it is empty or its highest group of 32 bits fits in the top chunk
  (`TextForm.ShownExactly`); widths that are multiples of 32 or at most 32 always do
  (`TextForm.AlwaysFits`). With 33 bits and only bit 31 set the text is `0` (`TextForm.HiddenBit`).
- Embedded white space is said to be refused. The code returns 0 and keeps only the groups that a comma
  had ended (`Grammar.ParsedGroups`, `Grammar.EmbeddedBlankIsAccepted`).
- A trailing comma is treated differently at the end of the buffer, where it is accepted, and before a NUL,
  where it is an error (`Grammar.TrailingComma`). The comment lists "1,,5", ",44", "," and "" as errors and
  says nothing about "1,".
- The one-word `bitmap_shift_right` does not mask its source. It agrees with the loop exactly when no 1
  moves in from beyond the bitmap (`Inlines.FastShiftRightExact`); with one bit in use and only the bit above
  it set, shifting by 1 gives {0} on the fast path and {} in the loop (`Inlines.FastShiftRightDiffers`).

## Model

| member | source | states |
|---|---|---|
| Weights.Hweight32 | irqbalance代码分析/bitmap.h:22-29 | the branch-free sums give the number of 1 bits of every 32-bit word |
| Weights.Hweight64 | irqbalance代码分析/bitmap.h:36-39 | the sums and the wrapping multiplication give the number of 1 bits of every 64-bit word |
| Weights.CountHalves | irqbalance代码分析/bitmap.h:33-34 | counting a 64-bit word is counting its two 32-bit halves, as the 32-bit branch does |
| Weights.HweightLong | irqbalance代码分析/bitmap.h:72-75 | the number of 1 bits of an unsigned long |
| Weights.Fls | irqbalance代码分析/bitmap.h:43-70 | the five halving steps find the bit length of every 32-bit pattern, 0 for 0 |
| Bits.BitLengthBounds | irqbalance代码分析/bitmap.h:43-70 | bit length L means 2^(L-1) <= x < 2^L for nonzero x |
| Words.AndLastWordMask | irqbalance代码分析/bitmap.h:198-202 | masking with the last-word mask keeps the low bits modulo 64, or all of them |
| Bitmap.Empty | irqbalance代码分析/bitmap.c:10-22 | true exactly when the set is empty, whatever the tail holds |
| Bitmap.Full | irqbalance代码分析/bitmap.c:24-36 | true exactly when the set has every position, whatever the tail holds |
| Bitmap.Weight | irqbalance代码分析/bitmap.c:38-49 | the cardinality of the set, whatever the tail holds |
| Bitmap.Equal | irqbalance代码分析/bitmap.c:51-64 | true exactly when the two sets are equal, whatever the tails hold |
| Bitmap.Intersects | irqbalance代码分析/bitmap.c:198-210 | true exactly when the two sets overlap, whatever the tails hold |
| Bitmap.Complement | irqbalance代码分析/bitmap.c:66-74 | the complement of the low bits with a clean tail, in place or not; words beyond untouched |
| Bitmap.AndWords | irqbalance代码分析/bitmap.c:158-166 | the bitwise and of the two old numbers, with any aliasing; words beyond untouched |
| Bitmap.OrWords | irqbalance代码分析/bitmap.c:168-176 | the bitwise or of the two old numbers, with any aliasing; words beyond untouched |
| Bitmap.XorWords | irqbalance代码分析/bitmap.c:178-186 | the exclusive or of the two old numbers, with any aliasing; words beyond untouched |
| Bitmap.AndNotWords | irqbalance代码分析/bitmap.c:188-196 | the bits of the first number that the second lacks, with any aliasing; words beyond untouched |
| Bitmap.MembersBitwise | irqbalance代码分析/bitmap.c:158-196 | which positions the combined bitmaps have, in terms of the two sets |
| Shifts.ShiftRight | irqbalance代码分析/bitmap.c:87-116 | (V mod 2^bits) / 2^shift for every shift and tail, in place or not; words beyond untouched |
| Shifts.ShiftLeft | irqbalance代码分析/bitmap.c:131-156 | V * 2^shift mod 2^bits for every shift and tail, in place or not; words beyond untouched |
| Shifts.BitShiftedRight | irqbalance代码分析/bitmap.c:83-85 | bit j of a right shift is bit j + shift below the width, and 0 above |
| Shifts.BitShiftedLeft | irqbalance代码分析/bitmap.c:126-128 | bit j of a left shift is bit j - shift from shift up to the width, and 0 elsewhere |
| Shifts.RightTarget | irqbalance代码分析/bitmap.c:93-112 | the word one round of the right shift writes is the word of the shifted number, carry and masks included |
| Shifts.LeftTarget | irqbalance代码分析/bitmap.c:136-152 | the word one round of the left shift writes is the word of the shifted number, carry and masks included |
| Shifts.ShiftLeftTwice | irqbalance代码分析/bitmap.c:131-156 | shifting left by a then b is shifting left by a + b |
| Shifts.ShiftRightTwice | irqbalance代码分析/bitmap.c:87-116 | shifting right by a then b is shifting right by a + b |
| Shifts.RightAfterLeft | irqbalance代码分析/bitmap.c:87-156 | left then right by the same shift keeps exactly the low width - shift bits, and their count |
| Shifts.LeftAfterRight | irqbalance代码分析/bitmap.c:87-156 | right then left by the same shift keeps exactly the positions from shift up |
| BitOps.SetBit | irqbalance代码分析/non-atomic.h:22-28 | the number of the whole array gains bit nr |
| BitOps.ClearBit | irqbalance代码分析/non-atomic.h:30-36 | the number of the whole array loses bit nr |
| BitOps.ChangeBit | irqbalance代码分析/non-atomic.h:47-53 | bit nr of the number of the whole array is flipped |
| BitOps.TestAndSetBit | irqbalance代码分析/non-atomic.h:64-72 | returns the old bit and sets it |
| BitOps.TestAndClearBit | irqbalance代码分析/non-atomic.h:83-91 | returns the old bit and clears it |
| BitOps.TestAndChangeBit | irqbalance代码分析/non-atomic.h:94-103 | returns the old bit and flips it |
| BitOps.TestBit | irqbalance代码分析/non-atomic.h:110-113 | 1 or 0 as bit nr of the number of the whole array |
| BitOps.OtherBitsStay | irqbalance代码分析/non-atomic.h:22-103 | an update decides bit nr and leaves every other bit alone |
| BitOps.MembersAfterSet | irqbalance代码分析/non-atomic.h:64-72 | the set gains nr; its weight rises by 1 minus the old bit |
| BitOps.SetOfArray | irqbalance代码分析/non-atomic.h:22-28 | the set of a bitmap is that of the number of its whole array, words beyond the bitmap included |
| BitOps.WeighAroundSet | irqbalance代码分析/non-atomic.h:64-72 | on an array, the set gains nr and bitmap_weight rises by 1 minus what the call returned |
| BitOps.MembersAfterClear | irqbalance代码分析/non-atomic.h:83-91 | the set loses nr; its weight falls by the old bit |
| BitOps.MembersAfterChange | irqbalance代码分析/non-atomic.h:94-103 | nr moves in or out; the weight moves by 1 minus twice the old bit |
| Inlines.BitmapZero | irqbalance代码分析/bitmap.h:204-212 | the number becomes 0, tail included |
| Inlines.BitmapFill | irqbalance代码分析/bitmap.h:214-222 | the number becomes 2^nbits - 1, with a clean tail |
| Inlines.BitmapCopy | irqbalance代码分析/bitmap.h:224-233 | the number of the source, on one word or many |
| Inlines.BitmapAnd | irqbalance代码分析/bitmap.h:235-242 | fast path and loop give the same: the bitwise and |
| Inlines.BitmapOr | irqbalance代码分析/bitmap.h:244-251 | fast path and loop give the same: the bitwise or |
| Inlines.BitmapXor | irqbalance代码分析/bitmap.h:253-260 | fast path and loop give the same: the exclusive or |
| Inlines.BitmapAndNot | irqbalance代码分析/bitmap.h:262-269 | fast path and loop give the same: the bits the second lacks |
| Inlines.BitmapComplement | irqbalance代码分析/bitmap.h:271-278 | fast path and loop give the same: the complement with a clean tail |
| Inlines.BitmapEqual | irqbalance代码分析/bitmap.h:280-287 | fast path and loop both decide equality of the sets |
| Inlines.BitmapIntersects | irqbalance代码分析/bitmap.h:289-296 | fast path and loop both decide overlap of the sets |
| Inlines.BitmapEmpty | irqbalance代码分析/bitmap.h:307-313 | fast path and loop both decide emptiness of the set |
| Inlines.BitmapFull | irqbalance代码分析/bitmap.h:315-321 | fast path and loop both decide fullness of the set |
| Inlines.BitmapWeight | irqbalance代码分析/bitmap.h:323-328 | fast path and loop both give the cardinality of the set |
| Inlines.BitmapShiftRight | irqbalance代码分析/bitmap.h:330-337 | the loop's result on more than one word or a clean source; otherwise the unmasked word shifted |
| Inlines.FastShiftRightExact | irqbalance代码分析/bitmap.h:333-334 | the unmasked one-word shift agrees with the loop exactly when no 1 moves in from beyond nbits |
| Inlines.FastShiftRightDiffers | irqbalance代码分析/bitmap.h:330-337 | an input on which the two paths of the right shift give different sets |
| Inlines.BitmapShiftLeft | irqbalance代码分析/bitmap.h:339-346 | fast path and loop give the same left shift, for any tail |
| Printer.ReadChunk | irqbalance代码分析/bitmap.c:248-251 | the value read is the low chunksz bits of that group of the number |
| Printer.Snprintf | irqbalance代码分析/bitmap.c:253-254 | returns the length of separator and zero-padded lowercase digits; writes at len what fits of them and a zero byte, and nothing else |
| Hex.PaddedIsFixed | irqbalance代码分析/bitmap.c:253-254 | a value that fits in the field width is printed with exactly that many digits |
| Hex.FixedValue | irqbalance代码分析/bitmap.c:219 | reading back w printed digits with unhex gives the value modulo 16^w |
| Letters.PrintedAt | irqbalance代码分析/bitmap.c:247-258 | each character by its place from the end: every ninth is a comma, the others are the digits of the number shown, by their place in "0123456789abcdef" |
| Letters.PrintedLetters | irqbalance代码分析/bitmap.c:253-256 | nothing but digits, lowercase letters and commas is printed |
| Letters.PrintedLength | irqbalance代码分析/bitmap.c:242-260 | for every width, nine characters for each group below the leading one, and the least number of digits that covers the bits above the full groups |
| Printer.Scnprintf | irqbalance代码分析/bitmap.c:232-261 | returns that length; the buffer holds the text of the masked number and a zero byte, or the part that fits and a zero byte, and no other letters than "0123456789abcdef," |
| TextForm.PrintedIsText | irqbalance代码分析/bitmap.c:242-259 | the text is the comma-separated 8-digit groups of the number shown, the leading group in the least number of digits that covers the bits above the full groups of the width |
| TextForm.ShownExactly | irqbalance代码分析/bitmap.c:247-258 | the number shown is the bitmap exactly when its highest group fits in the top chunk |
| TextForm.AlwaysFits | irqbalance代码分析/bitmap.c:229-230 | it does for every content when the width is a multiple of 32 or at most 32 |
| TextForm.HiddenBit | irqbalance代码分析/bitmap.c:252-258 | with 33 bits and only bit 31 set the text is a single 0 |
| TextForm.RoomForText | irqbalance代码分析/bitmap.c:225 | nine characters for each 32 bits hold the text and its NUL |
| TextForm.TextOfWholeGroups | irqbalance代码分析/bitmap.c:242-260 | for multiples of 32, m groups from the highest nonzero one take 9m - 1 characters |
| Parser.TakeDigit | irqbalance代码分析/bitmap.c:320-323 | a digit is taken exactly when the chunk has 4 free bits, and then chunk becomes 16 chunk + digit |
| Parser.NextGroup | irqbalance代码分析/bitmap.c:290-325 | the inner loop reads one group, or stops, as the scan over the text prescribes |
| Parser.PushGroup | irqbalance代码分析/bitmap.c:331-332 | shifting the bitmap by 32 in place and or-ing the chunk appends the group, if the result fits |
| Parser.CountBits | irqbalance代码分析/bitmap.c:334-336 | nbits is the bit length of the value, and exceeds the width exactly when the value does not fit |
| Parser.AddBits | irqbalance代码分析/bitmap.c:333-334 | adding fls of the first nonzero group, or 32, keeps nbits the bit length of the value |
| Parser.AddGroup | irqbalance代码分析/bitmap.c:328-336 | a group is appended to bitmap, count and value, or found not to fit; leading zero groups change nothing |
| Parser.Parse | irqbalance代码分析/bitmap.c:279-340 | for every text, the return code and the bitmap are those of the scan; the tail is clean unless it overflows |
| Grammar.ParsedWellFormed | irqbalance代码分析/bitmap.c:272-277 | white space (codes 9 to 13 and 32), groups, then the end: the number exactly when every group and the number fit, and overflow otherwise |
| Grammar.ParsedGroups | irqbalance代码分析/bitmap.c:289-339 | the verdict on every text with a group, by how the text goes on after its last group |
| Grammar.ParsedNothing | irqbalance代码分析/bitmap.c:326-327 | a text without a group is invalid and leaves the bitmap empty |
| Grammar.Decomposed | irqbalance代码分析/bitmap.c:289-339 | every text has one of those two forms |
| Grammar.AcceptedExactly | irqbalance代码分析/bitmap.c:300-310 | which texts are accepted, documented or not: an if and only if on what follows the groups and on what fits |
| Grammar.EmbeddedBlankIsAccepted | irqbalance代码分析/bitmap.c:300-306 | "1 2" is accepted and leaves the bitmap empty |
| Grammar.TrailingComma | irqbalance代码分析/bitmap.c:326-337 | a comma that ends the buffer is accepted, one before a NUL is an error |
| Characters.ParsedSameRoles | irqbalance代码分析/bitmap.c:297-322 | no text changes its meaning when white space (codes 9 to 13 and 32) is replaced by other white space, or hexadecimal letters by their capitals |
| Characters.ZeroEndsText | irqbalance代码分析/bitmap.c:309-310 | a zero byte ends every text that does not end in a comma, whatever follows it |
| Characters.CharacterAfter | irqbalance代码分析/bitmap.c:297-314 | groups and one more character: nothing changes for codes 0, 9 to 13, 32 and a comma; any other but a digit is an error that keeps the groups before the last |
| Characters.CharacterBefore | irqbalance代码分析/bitmap.c:297-327 | one character before the groups: nothing changes for codes 9 to 13 and 32; any other but a digit is an error that keeps nothing |
| Characters.DigitAfter | irqbalance代码分析/bitmap.c:219-323 | the digit at place k of "0123456789abcdef" or "0123456789ABCDEF" after the groups moves the last one up by 4 bits and adds k, or overflows |
| Characters.DigitAlone | irqbalance代码分析/bitmap.c:219-323 | the digit at place k of either string alone is the number k, if it fits |
| RoundTrip.CharacterAfterText | irqbalance代码分析/bitmap.c:232-340 | the same for a printed text and a character after it |
| RoundTrip.CharacterBeforeText | irqbalance代码分析/bitmap.c:232-340 | the same for a character and a printed text after it |
| RoundTrip.ZeroAfterText | irqbalance代码分析/bitmap.c:232-340 | a printed text, a zero byte and anything after it parse as the text alone, to the number it shows |
| RoundTrip.ParsedText | irqbalance代码分析/bitmap.c:232-340 | the text of a bitmap parses to the number it shows, ended by a NUL or by the buffer |
| RoundTrip.RoundTripExactly | irqbalance代码分析/bitmap.c:232-340 | the round trip is exact if and only if the highest group fits in the top chunk |
| RoundTrip.SameTextExactly | irqbalance代码分析/bitmap.c:232-261 | two bitmaps print alike exactly when their texts show the same number; for multiples of 32, when they are equal |
| RoundTrip.PrintedTextIsStable | irqbalance代码分析/bitmap.c:232-340 | printing what a printed text parses to gives the same text |
| RoundTrip.PrintThenParse | irqbalance代码分析/bitmap.c:232-340 | both functions in turn on one buffer, read up to the returned length or up to the NUL, restore the set exactly under that condition |
| Runs.NumberStandsForSet | irqbalance代码分析/bitmap.h:104-119 | on clean bitmaps every operation leaves a clean bitmap that holds the set its table entry promises |
| Runs.Step | irqbalance代码分析/bitmap.h:204-352 | one call keeps the pool clean, gives its destination the new set and leaves the others alone |
| Runs.Run | irqbalance代码分析/bitmap.h:204-352 | after any sequence of calls on any pool, with any aliasing, the bitmaps hold exactly the sets of plain set operations; a rejected text leaves what was read before it |
| Laws.WeightOfUnion | irqbalance代码分析/bitmap.c:38-49 | weight(a or b) + weight(a and b) = weight(a) + weight(b) |
| Laws.WeightOfDifference | irqbalance代码分析/bitmap.c:178-196 | weight(a xor b) is the sum of the two one-sided differences |
| Laws.WeightOfComplement | irqbalance代码分析/bitmap.c:66-74 | weight of the complement is the width minus the weight |
| Laws.WeightOfShifted | irqbalance代码分析/bitmap.c:131-156 | a left-shifted bitmap weighs what the low width - shift bits weigh |

`Run`, `Perform`, `Step`, `PrintThenParse` and `WeighAroundSet` are not functions of the source. They call the
modelled functions in turn, so that statements about whole runs and round trips are about the real operations.
The C functions `hweight32`, `hweight64`, the two shifts, `bitmap_scnprintf` and `__bitmap_parse` are each split
into a few methods that hold one part of the body; the order of effects is the source's.

## Left out

- Parser.Parse: says nothing about the bitmap after an overflow, because callers may not use it then.
- Printer.Scnprintf: asks for a buffer at most 9 characters shorter than the text, because beyond that the last `buflen - len` would wrap around.
- Inlines.BitmapZero: like all inlines, asks for at least one bit, because `*dst` needs a first word.
- Inlines.BitmapShiftRight: a shift of 64 or more on one word is excluded, because C does not define it.
- Shifts.ShiftRight: as for ShiftLeft, when the shift is a multiple of 64 the source shifts a zero operand by 64; the model takes 0.
- Runs.Run: stops at the first text that overflows and then promises only the other bitmaps, as Parser.Parse does.
- Builds with 32-bit words, `volatile`, and the overflow of `int` counters on texts of 2^31 digits.
- Characters outside ASCII and locales other than C: they are neither white space nor digits here.
- Partly overlapping arrays: two bitmaps are the same array or disjoint ones.
- `bitmap_subset`: its general counterpart `__bitmap_subset` is not part of this model, for its body is not in the repository; nor are remapping, lists and region allocation.
- The `cpumask.h` wrappers, which pass NR_CPUS through, and the rest of the daemon, whose code is not in the repository.
