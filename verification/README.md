# Verification of the Subtilis compiler core

Subtilis is a BASIC compiler. This project models, in Dafny, the parts of it that
lower arithmetic, array access and numerals to a 32-bit intermediate
representation (IR), together with the data structures underneath, and proves
what they promise.

The emitters are methods that append instructions to a section; the section
carries, as ghost state, the outcome of running everything emitted so far, so a
contract of an emitter speaks about what its code computes. The routines whose
emitted code is a loop (printing and reading numbers, the random number
generator, the destructor of string arrays) are modelled as the loop they run.
The data structures of the compiler and of its virtual machine are classes.

| file | what it holds |
|---|---|
| `Wrappers.dfy` | values that may be missing, computations that may fail |
| `Int32.dfy` | wrapping 32-bit words, truncating division, bitwise operators |
| `IR.dfy` | instructions, their meaning, sections |
| `Int32Lowering.dfy` | constant folding, choice of opcodes, division by powers of two |
| `RowMajor.dfy`, `ArrayIndex.dfy` | row-major offsets, bounds checks, array sizes |
| `ArrayRefs.dfy` | descriptors, slices and reference counts of string arrays |
| `Numerals.dfy` | printing and reading decimal and hexadecimal numbers |
| `Rnd.dfy` | the random number generator |
| `RuleMatcher.dfy` | the IR rule matcher and its greedy driver |
| `RulePositions.dfy` | what a verdict of the matcher says of the places in the rule and the window |
| `LexText.dfy`, `Lexer.dfy` | what the tokens of a text are, and the buffered lexer |
| `TokenLaws.dfy` | what each kind of token looks like |
| `VmHeap.dfy` | the splitting allocator on linked lists |
| `Bitset.dfy` | the word-array bitset with a cached maximum |
| `Types.dfy`, `Records.dfy` | structural type matching, deep copies, record layout |

Main results:

* Running the code emitted for an integer expression tree gives the value of the
  tree on wrapping 32-bit integers, and faults exactly when the tree divides by
  zero (`Int32Lowering.Lower`). What each operator's value is, is said by laws of its
  own: comparisons give -1 or 0, bitwise operators go bit by bit, sums, differences
  and products are congruent modulo 2^32, quotients truncate
  (`Int32Lowering.ComparisonMeaning` and those after it).
* For every rank and every mix of constant and dynamic dimensions and subscripts,
  the code emitted for an element access computes the row-major address whenever it
  goes on, and it goes on exactly when all its checks pass (`ArrayIndex.IndexCalc`).
  If no subscript that is checked against a constant dimension at compile time comes
  before one that is not, the checks are the bounds checks. In-bounds subscripts and
  offsets are in bijection.
* Over every run of the array operations each block's reference count is the
  number of live non-empty descriptors that name it, and every element ever made is
  either live or has been released exactly once (`ArrayRefs.Balanced`). The elements
  of a block are released over its whole original size when the last descriptor goes,
  even if that one is a slice.
* Reading a printed number gives it back, for every 32-bit integer. A numeral that
  fits in 32 bits is read exactly, in every base and with any number of leading
  zeros, unless the character behind it is the one after the last digit of the base.
* The seed of the random number generator runs through all 2^32 values.
* The tokens and lines of a text do not depend on the size of the buffer or on how
  the stream is chunked, and going back to the start of a block repeats them.
  The laws of `TokenLaws` say for every way to write a token, with any text behind it
  that cannot belong to it, which token is read, or which error.
* A rule matches when one assignment of its floating names fits the window, which is
  to say when kinds and fixed operands agree and no two places of one name differ
  (`RulePositions.MatchByPositions`); the driver succeeds exactly when the section has
  a tiling, and the tiling is unique.
* One type matches another exactly if they agree but for dimensions, and each
  dimension of the first is free or equal to that of the second (`Types.MatchIff`).

Where the code does not meet what it is for, an input and the exact condition are
proved:

* A constant subscript of a constant dimension that comes before a subscript checked
  at run time has its comparisons folded, and the folded -1 or 0 is handed to a jump
  that takes a register (frontend/array_type.c:1519). The jump tests what the machine
  finds past its last register, or register 0, which is reserved. With
  `DIM a%(2,2)`, whether `a%(1,i%)` is accepted is decided by the former, and whether
  `a%(5,i%)` is rejected by the latter (`ArrayIndex.ConstantThenVariable`). Every jump of an access tests a register
  exactly when the subscripts are in order (`ArrayIndex.IndexCalc`); an access is let
  through on every machine exactly when it is in bounds and in order
  (`ArrayIndex.AlwaysAccepted`), and turned away on every machine exactly when a
  subscript that is not folded is out of bounds (`ArrayIndex.AlwaysRejected`).
* Reading a number too large for 32 bits is not always reported: `4294967297`
  reads as 1 (`Numerals.MissedOverflow`). `Numerals.ParseCorrectIff` says when
  the sign-bit test is enough; below 2^32 it always is (`Numerals.ParseExact`).
* In bases up to ten the character after the last digit of the base is accepted
  too, so "2" is two in binary and "1:" twenty in decimal
  (`Numerals.DigitBeyondBase`). What is read is what the digits of the base denote
  exactly if that character does not follow them (`Numerals.ProperMeaningIff`), and
  `Numerals.ParseProperIff` says when the result is right, for every text.
* Hexadecimal is printed unsigned and read signed, so the round trip holds exactly
  for the numbers that are not negative (`Numerals.HexadecimalRoundTrip`).
* Assigning a string array to itself drops its block first; the machine then stops
  on an assertion exactly when that was the only reference
  (`ArrayRefs.Machine.Assign`), as it is for an array just made
  (`ArrayRefs.SelfAssignment`). The same goes for an element stored over itself
  (`ArrayRefs.Machine.StoreElement`, `ArrayRefs.SelfStore`).

## Model

| member | source | states |
|---|---|---|
| Int32.AndMask | frontend/int32_type.c:1715-1731 | masking with 2^s - 1 is the remainder by 2^s, for negative numbers too |
| Int32.BitOfAnd | common/ir.h:477-500 | bit i of the recursive AND is the AND of the bits, so the operators are the bitwise ones |
| Int32.BitOfOr | common/ir.h:477-500 | the same for OR |
| Int32.BitOfEor | common/ir.h:477-500 | the same for exclusive OR |
| Int32.QuotRem | frontend/vm.c:308-318 | truncating division is fixed by its identity and by the size and the sign of the remainder |
| IR.TraceIsRun | frontend/vm.c:1971-2022 | the outcome recorded for a section is the outcome of running its instructions in order |
| IR.Section.Append | common/ir.c:440-470 | appending an instruction executes it after everything emitted before |
| IR.Section.NowIsRun | frontend/vm.c:1971-2022 | so contracts about the outcome of a section are about running its code |
| IR.Section.ErrorLabel | frontend/array_type.c:1690-1702 | the error label is created once and shared by all checks |
| IR.InstructionMeaning | common/ir.h:893-955 | shifts multiply or divide by a power of two, the logical one the unsigned word; reversed subtraction and complement modulo 2^32 |
| IR.MoveMeaning | frontend/vm.c:222-289 | moves copy, and a load reads the word at the register plus its offset modulo 2^32 |
| IR.JumpMeaning | frontend/vm.c:631-646 | a jump on a register goes to its first label unless the register is zero, then to the second; nothing before that label has an effect |
| Int32Lowering.FindShift | frontend/int32_type.c:1567-1586 | the search loop succeeds exactly for the powers of two up to 2^31, and finds the exponent |
| Int32Lowering.DivSequence | frontend/int32_type.c:1588-1616 | the biased arithmetic shift is division truncated towards zero, for every dividend and every divisor ±2^s |
| Int32Lowering.ModSequence | frontend/int32_type.c:1715-1741 | masking the biased dividend and taking the bias off is the remainder with the sign of the dividend |
| Int32Lowering.DivModIdentity | frontend/int32_type.c:1567-1810 | quotient times divisor plus remainder is the dividend modulo 2^32; the quotient wraps only for INT_MIN / -1 |
| Int32Lowering.OptimiseDiv | frontend/int32_type.c:1567-1616 | code is emitted exactly for divisors ±2^s, and running it gives the quotient |
| Int32Lowering.OptimiseMod | frontend/int32_type.c:1694-1741 | code is emitted exactly for divisors ±2^s, and running it gives the remainder |
| Int32Lowering.Divide | frontend/int32_type.c:413-597 | division and remainder of any operands: an error exactly for a constant zero divisor, else code with the truncated result |
| Int32Lowering.MirrorCorrect | frontend/int32_type.c:1812-1890 | the reversed opcode gives the same result with its operands exchanged |
| Int32Lowering.Arithmetic | frontend/int32_type.c:1332-1565 | folding, plain, immediate and swapped immediate forms all give the operator's value |
| Int32Lowering.AbsSequence | frontend/int32_type.c:2018-2049 | adding the sign word and flipping by it is the absolute value, wrapping for INT_MIN |
| Int32Lowering.EmitSign | frontend/int32_type.c:2051-2106 | the branching code for SGN leaves -1, 0 or 1 by the sign of the operand |
| Int32Lowering.Lower | frontend/int32_type.c:214-411 | for every tree, running the emitted code gives its value, or faults exactly when it divides by zero; folding and compile time errors are right for all memories |
| Int32Lowering.LeafMeaning | frontend/int32_type.c:49-82 | a constant is itself, a variable the word at its place in the frame |
| Int32Lowering.ComparisonMeaning | frontend/int32_type.c:330-384 | each comparison is -1 exactly when the integers compare so and 0 otherwise |
| Int32Lowering.BitwiseMeaning | frontend/int32_type.c:275-328 | bit i of AND, OR, EOR and NOT comes from bit i of the operands |
| Int32Lowering.ArithmeticMeaning | frontend/int32_type.c:214-273 | sums, differences, products and negation are congruent to the integer result modulo 2^32 |
| Int32Lowering.SignMeaning | frontend/int32_type.c:882-900 | SGN is -1, 0 or 1; the absolute value is exact but for INT_MIN |
| Int32Lowering.DivisionMeaning | frontend/int32_type.c:509-597 | quotient and remainder satisfy the division identity, the remainder smaller than the divisor and of the dividend's sign; none for a zero divisor; INT_MIN by -1 wraps |
| RowMajor.OffsetInRange | frontend/array_type.c:1867-2032 | offsets of in-bounds subscripts lie below the number of elements |
| RowMajor.OffsetInjective | frontend/array_type.c:1867-2032 | different in-bounds subscripts have different offsets |
| RowMajor.OffsetSurjective | frontend/array_type.c:1867-2032 | every offset below the size belongs to in-bounds subscripts |
| RowMajor.Bijection | frontend/array_type.c:1536-1623 | in-bounds subscripts and the offsets 0 to size - 1 are in bijection |
| RowMajor.SizeSplit | frontend/array_type.c:1556-1618 | however the dimensions are divided into constant and dynamic ones, the sizes multiply to the whole |
| RowMajor.RowMajorOrder | frontend/array_type.c:1867-2032 | a further dimension of n + 1 multiplies sizes and offsets by n + 1 and adds the last subscript: the last one varies fastest |
| ArrayIndex.CheckConstantDims | frontend/array_type.c:1809-1865 | the trailing dimensions with constant subscripts are in bounds, and their part of the offset and block size are the row-major ones |
| ArrayIndex.JumpOrGoOn | frontend/vm.c:631-646 | the jump goes on if the register its operand names is not zero, also when the operand holds a constant |
| ArrayIndex.CheckDynamicDim | frontend/array_type.c:1476-1534 | the emitted check continues if the subscript is in range and goes to the error code otherwise, unless both operands are constant: then register 0 or what lies past the registers decides |
| ArrayIndex.DynamicPart | frontend/array_type.c:1935-1994 | the run time loop adds the remaining dimensions from any split point, with a check of each; its jumps all test registers exactly if none of these subscripts is static |
| ArrayIndex.IndexCalc | frontend/array_type.c:1786-2032 | for any rank and mix of constants: an error exactly for a bad subscript handled at compile time; control continues exactly when all checks pass, and then the element's address is the data pointer plus the row-major offset times the element size; in order, exactly when all subscripts are in bounds; all jumps test registers exactly if the subscripts are in order |
| ArrayIndex.InOrderChecks | frontend/array_type.c:1809-1865 | in order, the checks are the bounds checks |
| ArrayIndex.AlwaysAccepted | frontend/array_type.c:1476-1534 | an access passes whatever the jumps find exactly if it is in bounds and in order |
| ArrayIndex.AlwaysRejected | frontend/array_type.c:1476-1534 | an access fails whatever the jumps find exactly if a subscript that is not folded is out of bounds |
| ArrayIndex.ConstantThenVariable | frontend/array_type.c:1519-1522 | an access with a folded check, and what decides it |
| ArrayIndex.StaticErrorIsError | frontend/array_type.c:1726-1751 | a compile time subscript error is raised only where every run would fail |
| ArrayIndex.SizeCalc | frontend/array_type.c:1536-1623 | an error exactly for a negative or too large constant part; else the code checks the dynamic dimensions and computes the number of elements |
| ArrayIndex.ComputeElementAddress | frontend/array_type.c:1753-1784 | the address is the data pointer plus the offset scaled by the element size |
| ArrayIndex.DescriptorLayout | frontend/array_type.c:1753-1784 | the data pointer is the second word of a descriptor, the dimensions follow the first four; elements take 4 bytes, string descriptors 16 |
| ArrayIndex.ElementsDisjoint | frontend/array_type.c:1753-1784 | in a block of the computed size elements lie inside the block and do not overlap |
| ArrayRefs.AddDescriptor | frontend/array_type.c:1139-1266 | a copy, slice or element assignment keeps counts equal to the live non-empty descriptors and windows inside their blocks |
| ArrayRefs.RemoveDescriptor | frontend/reference_type.c:1293-1332 | dropping a descriptor keeps the invariant; a block goes exactly when its last name does |
| ArrayRefs.RemoveBox | frontend/builtins_ir.c:2239-2256 | dropping the last descriptor of an array removes its block when all elements have been released |
| ArrayRefs.AddBlock | frontend/reference_type.c:824-873 | a new block with one name, and empty strings in it if it is an array, keeps the invariant |
| ArrayRefs.SliceIsSound | frontend/array_type.c:722-870 | the window of a slice lies inside the window of its source and keeps the original size of the block |
| ArrayRefs.ReleaseKeepsBalance | frontend/array_type.c:2249-2306 | releasing an element that is live keeps every element live or released once |
| ArrayRefs.MakingKeepsBalance | frontend/array_type.c:280-454 | so does making the elements of an array |
| ArrayRefs.AllReleased | frontend/builtins_ir.c:2182-2275 | when the heap is empty every element has been released exactly once |
| ArrayRefs.NothingLeft | frontend/vm.c:1319-1330 | when no variable holds anything the heap is empty |
| ArrayRefs.Machine.Ref | frontend/vm.c:1412-1427 | adds one to the count of a live block, fails for anything else |
| ArrayRefs.Machine.Deref | frontend/vm.c:1356-1382 | takes one off the count of a live block and frees it at zero |
| ArrayRefs.Machine.DerefElements | frontend/array_type.c:2249-2306 | releases the elements of a block one by one, each once and in order |
| ArrayRefs.Machine.DerefArrayElements | frontend/builtins_ir.c:2182-2275 | the destructor never fails; it releases all elements over the original size exactly when the descriptor is the last one |
| ArrayRefs.Machine.NewArray | frontend/array_type.c:280-454 | an array starts with empty strings in a fresh block; a negative index fails for arrays and makes vectors empty |
| ArrayRefs.Machine.NewText | frontend/reference_type.c:824-873 | a string owns a fresh block, an empty one none |
| ArrayRefs.Machine.CopyFields | frontend/reference_type.c:30-119 | copies a descriptor and takes a reference; fails only if the block is gone |
| ArrayRefs.Machine.Copy | frontend/array_type.c:1139-1322 | a copy covers what its source covers and shares its block |
| ArrayRefs.Machine.Slice | frontend/array_type.c:872-1137 | fails exactly for bad indices; element i of the slice is element index1 + i of the source; an empty slice takes no reference |
| ArrayRefs.Machine.Drop | frontend/reference_type.c:1334-1400 | never fails; exactly the blocks that lost their last name are freed |
| ArrayRefs.Machine.Assign | frontend/array_string_type.c:74-97 | fails exactly when an array that holds the only reference is assigned to itself |
| ArrayRefs.Machine.StoreElement | frontend/array_type.c:2034-2062 | replaces one element; fails exactly when the only reference is stored over itself |
| ArrayRefs.Machine.DropAll | frontend/reference_type.c:1334-1394 | dropping all variables in any order empties the heap, and every element has then been released once |
| ArrayRefs.SliceOutlivesArray | frontend/array_type.c:722-870 | a slice dropped after its array releases the elements of the whole array |
| ArrayRefs.SelfAssignment | frontend/array_string_type.c:74-97 | a new array assigned to itself stops the machine |
| ArrayRefs.SelfStore | frontend/array_type.c:2034-2062 | an element that holds the only reference to its string, stored over itself, stops the machine |
| Numerals.DecimalShape | frontend/builtins_ir.c:886-1148 | decimal output has at most 11 characters, a minus exactly for negatives and no leading zero |
| Numerals.DigitExtraction | frontend/builtins_ir.c:953-1030 | remainder and quotient by ten of a signed word give the digits of its absolute value, INT_MIN included |
| Numerals.EmitDigits | frontend/builtins_ir.c:953-1030 | the loop writes the digits of the absolute value backwards |
| Numerals.ReverseDigits | frontend/builtins_ir.c:1080-1135 | swapping from both ends reverses a range in place |
| Numerals.DecToStr | frontend/builtins_ir.c:886-1148 | the buffer holds the decimal notation of the argument and nothing else changes |
| Numerals.HexToStr | frontend/builtins_ir.c:1150-1344 | the buffer holds the hexadecimal notation of the word, without leading zeros |
| Numerals.DecimalCharacters | frontend/builtins_ir.c:886-1148 | decimal output is made of the characters 0 to 9, a minus sign in front exactly for negatives |
| Numerals.HexadecimalCharacters | frontend/builtins_ir.c:1150-1344 | hexadecimal output has at most 8 characters 0 to 9 and A to F, with a leading zero only for zero |
| Numerals.IsStop | frontend/builtins_ir.c:2631-2697 | the combined comparisons stop exactly at characters that are no digits of the base |
| Numerals.FindFirstStop | frontend/builtins_ir.c:1346-1537 | skips one sign and finds the end of the longest run of digits |
| Numerals.Accumulate | frontend/builtins_ir.c:2024-2046 | one step of the wrapping sum keeps it the wrapped value of the digits read, even after the factor has wrapped |
| Numerals.OverflowTest | frontend/builtins_ir.c:2048-2074 | the exclusive-or test fires exactly when the wrapped sum is not zero and has the wrong sign |
| Numerals.LeadingDigit | frontend/builtins_ir.c:1953-2074 | reading from the right gives the same value as reading from the left |
| Numerals.ComputeWholePart | frontend/builtins_ir.c:1953-2074 | right-to-left accumulation returns the wrapped value of the digits unless some suffix has the wrong sign |
| Numerals.StrToInt32 | frontend/builtins_ir.c:2076-2180 | the routine computes the wrapped meaning of the text, or overflow, for both kinds of numerals |
| Numerals.ParseExact | frontend/builtins_ir.c:1953-2180 | a number that fits is returned exactly whatever its leading zeros; any other below 2^32 is reported |
| Numerals.NumeralRead | frontend/builtins_ir.c:1397-1445 | digits with or without a plus sign read as their positional value, with a minus sign as its opposite, if it fits, and are reported below 2^32 if it does not, in every base and with any tail that is no digit |
| Numerals.NothingRead | frontend/builtins_ir.c:1346-1537 | no digits, after a sign or not, read as zero |
| Numerals.ParseCorrectIff | frontend/builtins_ir.c:2048-2074 | reading is right exactly if the number fits or some suffix of its digits lies in the upper half modulo 2^32 |
| Numerals.MissedOverflow | frontend/builtins_ir.c:2048-2074 | an overflow that is missed |
| Numerals.ProperRun | frontend/builtins_ir.c:1346-1537 | the run of digits ends where the digits of the base end exactly if the next character is not the one after the last digit |
| Numerals.BeyondIsMore | frontend/builtins_ir.c:2135-2144 | otherwise a larger magnitude is read than the digits of the base denote |
| Numerals.ProperMeaningIff | frontend/builtins_ir.c:2135-2144 | what is read is what the digits of the base denote exactly if no such character follows them |
| Numerals.ParseProperIff | frontend/builtins_ir.c:1953-2180 | for any text: a number that fits is read right exactly if no such character follows, or the longer number happens to be the same modulo 2^32 and no suffix has the wrong sign; one that does not fit is reported exactly if some suffix has the wrong sign |
| Numerals.ParseProperExact | frontend/builtins_ir.c:1953-2180 | below 2^32 reading is right exactly if no such character follows or the number is too large already |
| Numerals.DigitBeyondBase | frontend/builtins_ir.c:2135-2144 | such texts in every base, with what they read as and what their digits denote |
| Numerals.ValueOfNotation | frontend/builtins_ir.c:886-1344 | positional notation denotes the number it was made from |
| Numerals.DecimalRoundTrip | frontend/builtins_ir.c:886-2180 | reading a printed decimal gives the number, for every 32-bit integer |
| Numerals.HexadecimalRoundTrip | frontend/builtins_ir.c:1150-2968 | the hexadecimal round trip is the identity on 0 to 2^31 - 1 and an overflow on the others |
| Numerals.PrintThenRead | frontend/builtins_ir.c:3176-3341 | the two routines run one after the other return the argument |
| Rnd.Generator.RndPos | frontend/builtins_ir.c:264-317 | a draw for a constant n lies in 1 to n and follows from the low 31 bits of the new seed |
| Rnd.Generator.RndInt | frontend/builtins_ir.c:349-476 | draws for variables: positive draw, negative reseed, and division by zero for 0 |
| Rnd.NextCongruent | frontend/builtins_ir.c:131-164 | the new seed is congruent to 1664525 times the old one plus 1013904223 modulo 2^32 |
| Rnd.Permutation | frontend/builtins_ir.c:131-164 | the seed map has an inverse |
| Rnd.PowerDraws | frontend/builtins_ir.c:131-164 | 2^k draws act as an affine map that moves by an odd multiple of 2^k |
| Rnd.SeedPeriod | frontend/builtins_ir.c:131-164 | the seed returns after n draws exactly when 2^32 divides n |
| Rnd.FullCycle | frontend/builtins_ir.c:131-164 | any 2^32 consecutive draws visit every seed exactly once |
| RuleMatcher.MatchState.ProcessFloating | common/ir.c:1576-1650 | a floating name matches if it is new or stands for the same thing as before; the seventeenth name is an assertion |
| RuleMatcher.MatchState.MatchOp | common/ir.c:1652-1732 | one operation against one pattern: all obligations met and recorded, or the first one that settles the verdict |
| RuleMatcher.MatchState.MatchRule | common/ir.c:1755-1771 | a rule matches exactly when its window fits the section and one assignment meets it, with at most 16 names of a kind |
| RulePositions.MatchByPositions | common/ir.c:1652-1771 | a rule matches exactly when the window fits, kinds and fixed operands agree, two places of one name in one space (integer registers, real registers, labels) hold the same, and no space has more than 16 names |
| RulePositions.AssertionByPositions | common/ir.c:1576-1732 | the matcher stops on an assertion exactly at an operand it cannot compare or at the seventeenth name, everything before agreeing |
| RuleMatcher.HaltsDecides | common/ir.c:1652-1732 | the first failing obligation decides the verdict on the whole window |
| RuleMatcher.Conflict | common/ir.c:1599-1649 | a pair list with another value means no assignment exists |
| RuleMatcher.TilingUnique | common/ir.c:1734-1783 | a section has at most one tiling by first matching rules |
| RuleMatcher.TilingPartitions | common/ir.c:1734-1783 | every operation that does something lies in exactly one window of a tiling |
| RuleMatcher.TilingMeaning | common/ir.c:1734-1783 | each step of a tiling begins at an operation that is no NOP and uses the first rule that matches there; operations outside all windows are NOPs |
| RuleMatcher.WindowsOrdered | common/ir.c:1734-1783 | windows are disjoint and in order |
| RuleMatcher.BlockedHasNoTiling | common/ir.c:1777-1780 | where no rule is chosen, the section has no tiling at all |
| RuleMatcher.MatchSection | common/ir.c:1734-1783 | the driver terminates and succeeds exactly when the section has a tiling, and its steps are that tiling |
| LexText.RunIs | common/lexer.c:312-342 | a run is the longest prefix of its kind of character |
| LexText.StringRoundTrip | common/lexer.c:502-544 | a string with its quotes doubled lexes back to itself |
| LexText.IntegerRead | common/lexer.c:369-419 | digits are read as the number they denote, up to what follows them |
| LexText.NegativeRead | common/lexer.c:421-458 | a minus sign and a number are two tokens, except for the smallest integer |
| LexText.ShiftsRead | common/lexer.c:250-310 | two or three greater signs are one operator |
| LexText.KeywordRead | common/lexer.c:759-892 | a word of the keyword table is read as that keyword |
| LexText.FrontTokenProgress | common/lexer.c:919-970 | a token uses up a proper prefix of the text: nothing is skipped or read twice |
| TokenLaws.WhiteRead | common/lexer.c:972-989 | white space is skipped, and every newline in it counts as a line |
| TokenLaws.RemarkRead | common/lexer.c:860-866 | a remark is skipped to the end of its line, which counts |
| TokenLaws.EndRead | common/lexer.c:1166-1193 | a token read ahead comes first, and the end of the text is a token |
| TokenLaws.SimpleRead | common/lexer.c:236-243 | the operators of one character |
| TokenLaws.ComplexRead | common/lexer.c:250-310 | the operators of one to three characters take as much as can belong to them |
| TokenLaws.StringOpen | common/lexer.c:502-544 | a string without its closing quote is an error |
| TokenLaws.UnknownRead | common/lexer.c:894-917 | the characters that begin no token |
| TokenLaws.DecimalRead | common/lexer.c:369-419 | digits read as the number they denote by their places, or are reported as too long or too large |
| TokenLaws.HexadecimalRead | common/lexer.c:460-483 | hexadecimal digits are a bit pattern, negative from 2^31 on |
| TokenLaws.BinaryRead | common/lexer.c:485-500 | binary digits likewise |
| TokenLaws.RealRead | common/lexer.c:344-419 | digits and a dot, or a dot and digits, are a real, up to 254 or 255 characters |
| TokenLaws.MinusInteger | common/lexer.c:421-458 | a minus sign comes first and its number next; the smallest integer is one token |
| TokenLaws.MinusReal | common/lexer.c:421-458 | a minus sign in front of a real |
| TokenLaws.IdentifierRead | common/lexer.c:643-692 | a name that is no keyword is an identifier: real without a suffix, string, integer or byte by $, % or &, record or function by an at sign and a type name; longer ones are an error |
| TokenLaws.UnderscoreRead | common/lexer.c:694-699 | the same for names that begin with an underscore |
| TokenLaws.BadTypeRead | common/lexer.c:554-619 | an at sign followed by any other name is an error |
| TokenLaws.FunctionRead | common/lexer.c:701-732 | a name that begins with FN is a function, with a result type by its suffix |
| TokenLaws.ProcedureRead | common/lexer.c:701-732 | a name that begins with PROC is a procedure if it has no suffix |
| TokenLaws.RecordRead | common/lexer.c:734-757 | a name that begins with REC is a record if it is longer than that and has no suffix |
| TokenLaws.HashRead | common/lexer.c:759-892 | a word and a hash are a keyword or an unknown token |
| TokenLaws.MarkedKeywordRead | common/lexer.c:759-892 | keywords may end in $, %, & or @ |
| Lexer.Stream.Read | common/stream.c:70-85 | delivers a prefix of what is left, empty only at the end |
| Lexer.Lexer.EnsureInput | common/lexer.c:181-216 | refilling or growing the buffer changes neither the text left nor what blocks remember |
| Lexer.Lexer.Grow | common/lexer.c:196-215 | with blocks stacked nothing that is buffered is overwritten |
| Lexer.Lexer.TakeRun | common/lexer.c:312-342 | reads the longest run whatever refills happen inside it |
| Lexer.Lexer.ProcessComplexOperator | common/lexer.c:250-310 | the operator at the front of the text, or the number behind a sign or a dot |
| Lexer.Lexer.ProcessNegativeDecimal | common/lexer.c:421-458 | the number after a minus sign is kept for the next call, the smallest integer is returned at once |
| Lexer.Lexer.ProcessDecimal | common/lexer.c:397-419 | the integer or real at the front of the text, or the error |
| Lexer.Lexer.ProcessBits | common/lexer.c:460-500 | hexadecimal and binary numbers |
| Lexer.Lexer.ProcessString | common/lexer.c:502-544 | the string literal of the text, with refills between the two quotes of a pair |
| Lexer.Lexer.CompleteCustomType | common/lexer.c:554-619 | the type name after an at sign, or the error |
| Lexer.Lexer.ValidateIdentifier | common/lexer.c:643-692 | the identifier with its type and the limit on its length |
| Lexer.Lexer.ProcessCall | common/lexer.c:701-732 | procedure and function names |
| Lexer.Lexer.ProcessRec | common/lexer.c:734-757 | record names |
| Lexer.Lexer.ProcessKeyword | common/lexer.c:759-892 | words: keywords, remarks, calls, records, identifiers or an error |
| Lexer.Lexer.ProcessSkipWhite | common/lexer.c:972-989 | skips white space and counts lines |
| Lexer.Lexer.ProcessSkipLine | common/lexer.c:991-1006 | skips to the next line |
| Lexer.Lexer.ProcessToken | common/lexer.c:919-970 | the token at the front of the text |
| Lexer.Lexer.Get | common/lexer.c:1166-1193 | the next token and the state after it are functions of the text left, the line and the token read ahead |
| Lexer.Lexer.PushBlock | common/lexer.c:1112-1136 | remembers the text left and the line, up to 32 deep, unless a token is read ahead |
| Lexer.Lexer.SetBlockStart | common/lexer.c:1138-1153 | restores the text and line of the innermost block, with its token first |
| Lexer.Lexer.PopBlock | common/lexer.c:1155-1164 | forgets the innermost block only |
| Lexer.LexAll | common/lexer.c:43-81 | the tokens and lines of a text are the same for every buffer size and every chunking |
| Lexer.ReadTwice | common/lexer.c:1138-1153 | after going back the lexer returns the block's token and then the same tokens and lines |
| VmHeap.MoveKeepsPartition | common/vm_heap.c:56-125 | moving a block between the lists keeps them a partition of the arena |
| VmHeap.SplitKeepsPartition | common/vm_heap.c:85-98 | splitting a block keeps the partition |
| VmHeap.Choice | common/vm_heap.c:56-79 | a claim fails exactly when no free block is large enough, takes the first exact fit, and only without one the first that is large enough |
| VmHeap.UsedStartsUnique | common/vm_heap.c:44-54 | no two used blocks start at the same address |
| VmHeap.ClaimThenFree | common/vm_heap.c:56-125 | a claim takes the front of the chosen block, and its release restores the free space and the other used blocks |
| VmHeap.Heap.FindBlock | common/vm_heap.c:44-54 | finds the used block at an address, or none |
| VmHeap.Heap.ClaimBlock | common/vm_heap.c:56-101 | takes the chosen block, whole or its front, to the front of the used list, or changes nothing |
| VmHeap.Heap.FreeBlock | common/vm_heap.c:103-125 | moves the block at an address to the front of the free list, or fails and changes nothing |
| VmHeap.Heap.Realloc | common/vm_heap.c:127-147 | claims a new block beside the old one and returns the size of the old one |
| VmHeap.Heap.FreeSpace | common/vm_heap.c:169-181 | free and used space add up to the arena |
| Bitset.MaskTest | common/bitset.c:109-125 | a mask meets a word exactly if the word has a bit in the masked places |
| Bitset.AndResult | common/bitset.c:157-163 | AND of the words up to the limit and zeros above is intersection |
| Bitset.OrResult | common/bitset.c:181-184 | OR of the words up to the limit is union |
| Bitset.SubResult | common/bitset.c:219-225 | AND NOT of the words up to the limit is difference |
| Bitset.NotResult | common/bitset.c:198-205 | complementing the words and masking the last is the complement below the maximum |
| Bitset.TopBit | common/bitset.c:109-125 | the byte and bit searches find the highest bit of a word |
| Bitset.BitSet.Set | common/bitset.c:59-79 | adds a member and grows as needed; numbers above INT_MAX are refused |
| Bitset.BitSet.IsSet | common/bitset.c:81-92 | membership |
| Bitset.BitSet.FindMax | common/bitset.c:94-126 | the largest member from a block downwards, or -1 |
| Bitset.BitSet.Clear | common/bitset.c:128-141 | removes a number from a set that is not empty |
| Bitset.BitSet.And | common/bitset.c:143-167 | intersection, also of a set with itself, with the cached maximum exact |
| Bitset.BitSet.Or | common/bitset.c:169-188 | union |
| Bitset.BitSet.Not | common/bitset.c:190-206 | the complement below the old maximum |
| Bitset.BitSet.Sub | common/bitset.c:208-227 | difference |
| Bitset.BitSet.Count | common/bitset.c:253-266 | the number of members |
| Bitset.BitSet.Values | common/bitset.c:268-293 | the members in increasing order |
| Types.Reflexive | common/type.c:167-188 | every type matches itself |
| Types.Transitive | common/type.c:77-188 | matching is transitive over nested functions, arrays and records |
| Types.NotSymmetric | common/type.c:150-155 | a dynamic dimension matches a fixed one, not the other way round |
| Types.MutualMatch | common/type.c:141-188 | two types match each other exactly when they have the same shape, with equal dimensions wherever they are compared |
| Types.MatchIff | common/type.c:77-188 | one type matches another exactly if they are equal with all compared dimensions blanked out and each compared dimension of the first is -1 or equal to the second's |
| Types.ShapeIff | common/type.c:77-188 | two types have one shape exactly if they agree blanked out and in their dimensions |
| Types.FixedMatch | common/type.c:141-165 | without a free dimension a type matches exactly the types of its shape |
| Types.MatchSurvives | common/type.c:141-165 | a match survives exactly the changes on the right where the left is free |
| Types.MatchKeeps | common/type.c:77-188 | a match fixes everything else at the top: the kind, the element, the name and number of fields, the number of parameters |
| Types.InitCopy | common/type.c:450-569 | a deep copy stands for the same type and shares no object with its source |
| Types.CopyMatches | common/type.c:450-569 | a copy and its source match in both directions |
| Records.PowerTest | common/type.c:680-687 | the bit test accepts exactly the powers of two |
| Records.OffsetIsLeast | common/type.c:732-753 | a field lies at the least multiple of its alignment after the field before |
| Records.FieldsDisjoint | common/type.c:732-753 | fields do not overlap |
| Records.AddingMovesNothing | common/type.c:669-753 | a new field moves no earlier one |
| Records.Record.FindField | common/type.c:656-667 | the place of the field with a name, or none |
| Records.Record.AddField | common/type.c:669-730 | accepts exactly new names with power of two alignments, keeps the record alignment the largest, and moves nothing |
| Records.Record.FieldOffset | common/type.c:732-753 | the masked 32-bit computation gives the offset |
| Records.Record.Size | common/type.c:766-777 | the size is where the last field ends |

## Left out

- Floating point: real operands of the folders, fp_to_str, str_to_fp, real RND and the value of real literals, which are kept as text; only the integer side is modelled.
- Undefined behaviour of C in the folders: sums, INT_MIN divided by -1 and the absolute value of INT_MIN overflow a signed int there; the model wraps, as the IR does.
- Backends without a divide instruction, which call a routine instead; only the direct form is modelled.
- Int32Lowering.Lower: leaves out shifts, whose counts are masked by 63 when folded, and powers.
- ArrayIndex.CheckDynamicDim: what the machine finds past its last register is one unknown word, the same for every jump.
- The loops that print and read numbers, draw random numbers and release elements: the sections of this model have no backward jumps, so these routines are modelled as the loops they run, not as the instructions they consist of.
- ArrayIndex.SizeCalc: requires the product of the constant dimensions to fit in the 64-bit accumulator, which is not checked at each step; the limit on it is the constant of the code.
- ArrayRefs.Machine.Slice: both indices are given; with the upper one omitted the code does not compare the lower one with the length.
- ArrayRefs.Machine.NewArray: the allocator's choice of address is a parameter, addresses and sizes are not wrapped, arrays have one dimension, and running out of memory is left out. Descriptors are stored as one value rather than word by word.
- Vector append and growth, copy on write and the string functions; arrays of other reference types and records with destructors, which have the same shape.
- Numerals.StrToInt32: pointers are positions in the text; the two routines for bases up to ten and for sixteen are one method with a branch. Bases other than 2 to 10 and 16 are refused before the call.
- RND with a constant 0 or 1 or a negative constant, and the real generator; RND of a variable runs the same draw.
- Rule parsing and the actions of rules: an action is taken to leave the section as it is, and rules are not empty.
- RuleMatcher.MatchState.MatchOp: operands are integers; comparing real operands that are not numbers is left out.
- Lexer.Lexer.ProcessKeyword: the keyword table is a map and its binary search a lookup; the switch to the assembler's keywords is left out.
- Lexer.Lexer.CheckInteger: strtoul is modelled by the number its digits denote. Error message texts, read errors of the stream and memory failures are left out.
- VmHeap.Heap.ClaimBlock: requires a size above zero, without which blocks of no bytes share addresses.
- Bitset.BitSet.Clear: requires a set that is not empty, because the comparison with the maximum is unsigned.
- Records.Record.FieldOffset: requires the record to end below 2^32.
- Types.InitCopy: the fixed limits on parameters and dimensions, and freeing, are left out.
- Parser, register allocator, code generators and the rest of the virtual machine.
