# Verified models of ClickHouse base algorithms

A Dafny model of eight self-contained algorithms from ClickHouse's `base` and `contrib` directories, with proofs of
what they promise. `dafny verify dfyconfig.toml` checks all files.

- **Pattern-defeating quicksort** (`PdqOrder`, `PdqInsertion`, `PdqPartition`, `PdqBranchless`, `PdqHeap`, `PdqDepth`,
  `PdqAnswer`, `PdqSort`, `PdqTry`): in-place sorting of an array by any strict weak order. The unguarded scans are shown
  to stay in bounds, the block partition to refine the plain one, and the bad-partition budget to bound recursion depth
  and comparisons for every input. The ghost result `used` of every method is the number of calls of the comparator. The
  answer of the variant that may give up is pinned down by the arrays at its splits, the first of which is the input.
- **PCG engine algebra** (`PcgEngine`, `PcgDistance`, `PcgPeriod`, `PcgOutput`, `PcgMixing`, `PcgGenerator`): skip-ahead,
  distance, exact periods, and the output permutation bit by bit and with its inverse, for every word width. The exact condition for a full period
  (known as the Hull-Dobell theorem for powers of two) is proved in both directions.
- **Wide integers** (`WideLimbs`, `WideArith`, `WideShift`, `WideDivide`, `WideMultiply`, `WideText`): sequences of
  64-bit limbs of any count, refining the integers modulo 2^N.
- **JSON reader** (`JsonText`, `JsonSkip`, `JsonReader`, `JsonPrinted`, `JsonTypes`, `JsonNames`, `JsonAccess`,
  `JsonWritten`, `JsonDepth`, `JsonCuts`): the skippers, iteration and lookup, against a compact printer of JSON values,
  strings against a writer of characters, and arrays and objects on every text. `JsonSkip` says what each skipper computes on any
  text; `JsonReader` and `JsonAccess` hold the loops.
- **Consistent hashing** (`ConsistentHashing`, `ConsistentFairness`, `ConsistentAsterisk`, `ConsistentSmooth`,
  `ConsistentShares`, `ConsistentEvenness`, `ConsistentMoves`, `ConsistentBits`): minimal disruption for every hash and
  every pair of bucket numbers, the exact share of every bucket over all hashes, and the bucket by the bits of the hash.
- **Float against integer comparison** (`DecomposedFloat`), the **object pool** (`ObjectPool`) as a class and as a state
  machine over any number of threads, and **integer to text** (`Itoa`, `ItoaWide`).

`Bits`, `Decimal` and `Sums` hold the shared arithmetic of binary digits, decimal digits and finite sums.

Where a claim fails, the exact condition is proved and a lemma gives the failing family:

- A number with a plus sign in its exponent is not skipped as JSON allows it: the skipper stops at the sign, and inside
  an array or object the iteration ends there, so `size` and indexing see too few items and later keys are not found.
  `JSON.h` (line 26) promises that correct JSON is read correctly.
- Indexing an array at its size returns the end iterator instead of an error.
- The sort that may give up is documented to answer true if the elements were already sorted (`base/base/sort.h`, line
  144). It does so for strictly increasing ranges, but not if many elements are alike: 24 equal elements are answered
  false. The exact condition on the input is proved.
- Infinities are documented to compare correctly (`DecomposedFloat.h`, line 93); against integers wider than
  2^(exponent_bits - 1) bits they need not: a 32-bit infinity equals the 256-bit integer 2^128.
- A container at level 100 can be skipped when empty, but not iterated: building the end iterator already throws.
- The header of consistent hashing promises equal probabilities for all buckets and a moved part of (n2 - n1) / n2. What
  the code gives depends on the number of asterisk bits, from which the smooth scheme draws its answer: for n between
  2^(k - 1) and 2^k it is 66 - 3k with 16-bit words, and 64 or 98 - 2k with 32-bit words, while the divisor has up to 2k.
  - For every n, n times the share of a bucket is the number of hashes up to an error of n (2^k - n) / 2^bits of it, and
    the moved part is (n2 - n1) / n2 up to that error for each new bucket. The error is zero for powers of two; no other
    n can divide the hashes evenly, whatever the scheme.
  - Above 2^13 buckets with 16-bit words and above 2^24 with 32-bit words the asterisk bits are fewer than 2k. If n is at
    least 2^(k - 1) + 2^(bits - k), every hash the large scheme cannot place lands in a window of 2^(bits - k) buckets
    at the start of the octave. Every other bucket gets just a 2^k-th part, and growing from 2^(k - 1) to n moves half of
    all hashes, whatever n is. Within the limit of 32768 buckets the header states for 16-bit words this holds for all n
    from 16448 on, where 64 buckets take all of these hashes.
- Stepping a PCG engine back undoes stepping forward exactly for odd multipliers.
- The quotient of the minimum by minus one is the minimum.
- A negative wide integer shifted right by its width or more gives zero with `>>` and minus one with `>>=`.

Texts are sequences of characters and stand for bytes. Machine words are natural numbers with the wrap-around written
out. Thrown exceptions are values of result types. `PdqHeap` stands for the two standard heap functions and is a textbook
heap sort.

## Model

| member | source | states |
|---|---|---|
| `PdqSort.Pdqsort` | contrib/pdqsort/pdqsort.h:670-696 | for every strict weak order and every range, the range becomes a sorted rearrangement of itself, nothing outside changes, recursion never goes deeper than 7 log2(n) + 5, and at most n (73 log2(n) + 79) comparisons are made, with either partition |
| `PdqSort.PdqsortLoop` | contrib/pdqsort/pdqsort.h:413-505 | the same for a range inside a larger sort: given the element in front of the range as a lower bound unless leftmost, sorted rearrangement, every unguarded read in bounds, depth and comparisons bounded from any point of a chain of nested calls |
| `PdqDepth.DepthIsLogarithmic` | contrib/pdqsort/pdqsort.h:455-467 | on every chain of nested calls from a range of size n, fewer than log2(n) levels are highly unbalanced, at most 6 log2(n) + 5 are balanced (size times 8^g stays within n times 7^g), so depth is logarithmic |
| `PdqDepth.SixLevelsHalve` | contrib/pdqsort/pdqsort.h:455-458 | six balanced levels at least halve the range: 2^m * 7^(6m) <= 8^(6m) |
| `PdqDepth.SolventAfterSplit` | contrib/pdqsort/pdqsort.h:455-497 | the comparisons allowed for a range pay for its level and for those allowed for both parts of its partition, one level further down |
| `PdqDepth.SolventAfterSkip` | contrib/pdqsort/pdqsort.h:438-445 | and for a level that only splits off the elements equal to the sentinel, if what is left is above it |
| `PdqSort.NotSkippedTwice` | contrib/pdqsort/pdqsort.h:438-445 | splitting off the equal elements leaves a range strictly above its sentinel, and no such range is split there again, so these levels at most double the count |
| `PdqSort.Level` | contrib/pdqsort/pdqsort.h:426-497 | one turn of the loop: pivot, equal-elements case, partition, budget, pattern breaking and early insertion sort leave a split around the pivot position, a finished range or an all-equal prefix; balanced splits leave an eighth on both sides; at most five comparisons for each element, the heap sort aside |
| `PdqTry.TrySortLoop` | contrib/pdqsort/pdqsort.h:507-630 | always a rearrangement; sorted when it answers true; forced runs and small ranges always answer true; an unforced run records the arrays at its splits, which decide the answer; the comparison bound of the full sort |
| `PdqAnswer.PivotIsMedian` | contrib/pdqsort/pdqsort.h:533-541 | the pivot of 24 to 128 elements is the median of the first, middle and last one |
| `PdqAnswer.PivotIsNinther` | contrib/pdqsort/pdqsort.h:533-541 | that of more than 128 is the median of the medians of three such triples at the stated places |
| `PdqAnswer.SplitIsCounted` | contrib/pdqsort/pdqsort.h:554-563 | so on every array the split is behind as many places as there are elements below that pivot, with either partition |
| `PdqTry.FalseMeans` | contrib/pdqsort/pdqsort.h:519-569 | an unforced run answers false only after a split with less than an eighth of the range on one side, or after as many splits as there are iterations |
| `PdqTry.TrueMeans` | contrib/pdqsort/pdqsort.h:560-569 | and never true after such a split |
| `PdqTry.RecordedMeans` | contrib/pdqsort/pdqsort.h:507-630 | what an unforced run records: the input comes first, and the arrays decide the answer; false after an unbalanced split or as many splits as iterations, true never after an unbalanced one |
| `PdqTry.RecordedSplit` | contrib/pdqsort/pdqsort.h:566-619 | a split that is balanced, but not of a range partitioned before with at most eight inversions on both sides, hands the answer on to the left part with one iteration less |
| `PdqTry.SortedRun` | base/base/sort.h:139-145 | on every range sorted before, an unforced run answers true if and only if the range is recognised: at least an eighth of it is below its middle element, and that is the first of its kind or the part below is recognised with one iteration less; fewer than 24 elements always are |
| `PdqTry.SortedMoved` | contrib/pdqsort/pdqsort.h:337-380 | because a split of a sorted range leaves the part below the pivot as it was, with either partition |
| `PdqTry.IncreasingIsRecognised` | base/base/sort.h:139-145 | strictly increasing ranges of any length are recognised |
| `PdqTry.ConstantIsNotRecognised` | base/base/sort.h:139-145 | 24 or more elements all alike are sorted and not recognised |
| `PdqTry.NoBrokenSamples` | contrib/pdqsort/pdqsort.h:641-663 | no sample of a strictly increasing range is broken, so the sampling lets it pass |
| `PdqTry.TrySort` | contrib/pdqsort/pdqsort.h:632-738 | true means sorted rearrangement; false leaves a rearrangement, and exactly the input when the sampling refused it; else the answer is the one the splits of the input and of the arrays that follow from it give within three iterations; a range sorted before is answered true if and only if the sampling lets it pass and it is recognised; ranges below 24 elements and strictly increasing ones of any length are answered true; at most n (73 log2(n) + 80) comparisons |
| `PdqTry.LooksUnsorted` | contrib/pdqsort/pdqsort.h:639-663 | refuses exactly when the range is longer than 160 and more than three of the fifteen samples, at sixteenths of the range, rise once and do not rise the other time |
| `PdqSort.ComputeLog2` | contrib/pdqsort/pdqsort.h:69-75 | the rounded down binary logarithm |
| `PdqHeap.HeapSort` | contrib/pdqsort/pdqsort.h:463-467 | the fallback: sorted rearrangement with at most 3 n log2(n) comparisons, for every input |
| `PdqInsertion.InsertionSort` | contrib/pdqsort/pdqsort.h:77-97 | sorted rearrangement of any range, empty included |
| `PdqInsertion.UnguardedInsertionSort` | contrib/pdqsort/pdqsort.h:99-120 | sorted rearrangement without a bound test, every read in bounds because the element in front is not above any element of the range |
| `PdqInsertion.PartialInsertionSort` | contrib/pdqsort/pdqsort.h:122-150 | answers true exactly when the range has at most eight inversions (counted on the input), and then it is sorted; always a rearrangement, with at most 2n + 8 comparisons |
| `PdqInsertion.MovesAreInversions` | contrib/pdqsort/pdqsort.h:132-145 | the places an element moves down are the elements above it in front of it, so the counter of the partial sort counts inversions |
| `PdqPartition.Sort3` | contrib/pdqsort/pdqsort.h:152-163 | the three places are in order and the range is rearranged |
| `PdqPartition.ChoosePivot` | contrib/pdqsort/pdqsort.h:428-436 | median of three or ninther: the front element has an element not below and one not above it elsewhere in the range, which is what stops the unguarded scans |
| `PdqPartition.OpeningScans` | contrib/pdqsort/pdqsort.h:352-363 | both first scans stop inside the range, and meet exactly when the range already is partitioned |
| `PdqPartition.PartitionRight` | contrib/pdqsort/pdqsort.h:337-380 | rearrangement, everything before the returned place is below the pivot, nothing behind it is, and the flag is true exactly when the range was partitioned before; at most n + 1 comparisons |
| `PdqPartition.PartitionLeft` | contrib/pdqsort/pdqsort.h:382-410 | rearrangement with the elements equal to the pivot on the left; everything behind the returned place is above it |
| `PdqBranchless.PartitionRightBranchless` | contrib/pdqsort/pdqsort.h:198-335 | the block version meets the very contract of the plain partition, all offset buffer indices in bounds, and also with at most n + 1 comparisons: no element is looked at twice |
| `PdqBranchless.SwapOffsets` | contrib/pdqsort/pdqsort.h:176-196 | pairwise or cyclic, the listed elements trade sides and no element is lost |
| `PdqBranchless.BlockRound` | contrib/pdqsort/pdqsort.h:232-281 | one round over two blocks of 64 keeps both finished flanks correct and the pending offsets exact |
| `PdqBranchless.LastBlocks` | contrib/pdqsort/pdqsort.h:283-328 | the remaining elements, the leftover offsets of either side included, end up on their side |
| `PcgEngine.Advance` | base/pcg-random/pcg_random.hpp:636-662 | for every delta, the skip-ahead loop equals delta steps of the generator modulo 2^bits |
| `PcgEngine.FullCircle` | base/pcg-random/pcg_random.hpp:645-646 | with an odd multiplier 2^bits steps are the identity |
| `PcgEngine.BackstepUndoesAdvance` | base/pcg-random/pcg_random.hpp:456-459 | stepping back by delta undoes stepping forward by delta, in both orders |
| `PcgEngine.BackstepNeedsOddMultiplier` | base/pcg-random/pcg_random.hpp:456-459 | stepping back undoes stepping forward from every state if and only if the multiplier is odd |
| `PcgDistance.Distance` | base/pcg-random/pcg_random.hpp:664-685 | terminates within the word width, and advancing by the result reaches a state equal to the target under the mask, for every mask; the target itself under the full one; both generator kinds |
| `PcgDistance.Round` | base/pcg-random/pcg_random.hpp:674-683 | one round makes one more low bit agree, which is the assertion in the loop |
| `PcgDistance.StepsReach` | base/pcg-random/pcg_random.hpp:664-685 | the sum of the powers of two chosen by the rounds is a number of steps that leads from any state to any other |
| `PcgPeriod.PeriodIsExact` | base/pcg-random/pcg_random.hpp:388-391 | a state returns after k > 0 steps if and only if k is a multiple of the stated period, 2^bits or 2^(bits - 2) |
| `PcgPeriod.FullPeriodCondition` | base/pcg-random/pcg_random.hpp:157-172 | every state is reachable from every other if and only if the increment is odd and the multiplier is 1 modulo 4 |
| `PcgGenerator.DefaultsAreGood` | base/pcg-random/pcg_random.hpp:157-172 | the default constants of all five word sizes fit and have the residues the algebra needs |
| `PcgGenerator.DefaultsReachAll` | base/pcg-random/pcg_random.hpp:157-172 | hence the default generator of every word size runs through all states |
| `PcgGenerator.StreamIncrementIsOdd` | base/pcg-random/pcg_random.hpp:328-331 | every stream gets an odd increment that fits the word |
| `PcgGenerator.StreamNumberOfIncrement` | base/pcg-random/pcg_random.hpp:323-331 | from which its number is read off again, but for the topmost bit |
| `PcgGenerator.StreamsDiffer` | base/pcg-random/pcg_random.hpp:323-331 | two numbers give the same stream if and only if they agree modulo 2^(bits - 1) |
| `PcgGenerator.DefaultStep` | base/pcg-random/pcg_random.hpp:157-172 | one step of the default generator of each word size in numbers |
| `PcgGenerator.Engine.Advance` | base/pcg-random/pcg_random.hpp:451-454 | the state moves delta steps and stays in its class |
| `PcgGenerator.Engine.Backstep` | base/pcg-random/pcg_random.hpp:456-459 | the state moves to the one from which delta steps lead to the old state |
| `PcgGenerator.Engine.Stream` | base/pcg-random/pcg_random.hpp:488-495 | from any seed and stream number a generator in its class, whose increment is twice the number modulo 2^(bits - 1), plus one |
| `PcgGenerator.Engine.Default` | base/pcg-random/pcg_random.hpp:478-483 | the same on the default stream |
| `PcgGenerator.Engine.Multiplicative` | base/pcg-random/pcg_random.hpp:478-483 | from any seed a multiplicative generator in its class: the low two bits of the state are set, the others are the seed's |
| `PcgGenerator.Engine.Next` | base/pcg-random/pcg_random.hpp:407-431 | the output is the mixed old state or the mixed new one, as the generator is set up, and unoutput recovers that state from it; the new state is the next one |
| `PcgGenerator.Engine.DistanceTo` | base/pcg-random/pcg_random.hpp:445-448 | advancing by the result reaches the given state, and the result is below the period |
| `PcgOutput.UnxorshiftInverts` | base/pcg-random/pcg_extras.hpp:262-280 | the recursion undoes the xorshift for every width and every positive shift |
| `PcgOutput.UnoutputInverts` | base/pcg-random/pcg_random.hpp:919-960 | unoutput of output is the state, for every width of at least eight bits and every inverse pair of constants: the data-dependent shift is recovered |
| `PcgOutput.OutputInverts` | base/pcg-random/pcg_random.hpp:919-960 | output of unoutput is the word: every word is the output of exactly one state, so output is a permutation |
| `PcgOutput.OutputIsInvertible` | base/pcg-random/pcg_random.hpp:901-960 | with the constants of each of the five word sizes unoutput inverts output |
| `PcgMixing.OutputIsMixed` | base/pcg-random/pcg_random.hpp:917-940 | for every state of the five word sizes: each bit is turned round by the one s places above, s being 2 to 6 plus the number in as many topmost bits; the result is multiplied by a stated number modulo 2^bits and folded again by 6, 11, 22, 43 or 86 places |
| `PcgMixing.MixedUnique` | base/pcg-random/pcg_random.hpp:917-940 | only one word has these bits, so this says what the output is |
| `PcgMixing.MultiplierIsTruncated` | base/pcg-random/pcg_random.hpp:886-915 | all multipliers are the low bits of the 128-bit one |
| `PcgMixing.OpBitsCount` | base/pcg-random/pcg_random.hpp:925-929 | the word size is twice 2 to the number of bits that choose the shift |
| `WideArith.Plus` | base/base/wide_integer_impl.h:539-570 | the two passes over the limbs give the sum modulo 2^N, for any limb count and any narrower operand |
| `WideArith.Minus` | base/base/wide_integer_impl.h:506-537 | the two passes with borrows give the difference modulo 2^N |
| `WideArith.UnaryMinus` | base/base/wide_integer_impl.h:675-688 | complement plus one is the negation modulo 2^N |
| `WideArith.MakePositive` | base/base/wide_integer_impl.h:235-239 | the magnitude of a signed or unsigned number, the minimum included |
| `WideArith.Greater` | base/base/wide_integer_impl.h:755-779 | the order of the numbers as their type reads them |
| `WideArith.Less` | base/base/wide_integer_impl.h:781-805 | the order of the numbers as their type reads them |
| `WideArith.Equal` | base/base/wide_integer_impl.h:807-828 | equality of the numbers, also with a narrower operand |
| `WideArith.IsZero` | base/base/wide_integer_impl.h:866-879 | whether the number is zero |
| `WideArith.Pipe` | base/base/wide_integer_impl.h:830-846 | limb by limb this is bitwise or of the whole numbers |
| `WideArith.Amp` | base/base/wide_integer_impl.h:848-864 | limb by limb this is bitwise and of the whole numbers |
| `WideShift.ShiftLeft` | base/base/wide_integer_impl.h:416-441 | multiplication by 2^n modulo 2^N, for every n below the width |
| `WideShift.ShiftRight` | base/base/wide_integer_impl.h:443-481 | the quotient by 2^n rounded down, arithmetic for negative numbers |
| `WideShift.LeftOperator` | base/base/wide_integer_impl.h:1422-1430 | for every count of at least zero, however large, the product with 2^n modulo 2^N; zero for negative counts |
| `WideShift.RightAssign` | base/base/wide_integer_impl.h:1197-1210 | for every count of at least zero, however large, the quotient by 2^n rounded down |
| `WideShift.RightOperator` | base/base/wide_integer_impl.h:1431-1439 | the quotient rounded down if and only if the count is below the width or the number is not negative; zero otherwise |
| `WideDivide.Divide` | base/base/wide_integer_impl.h:881-931 | throws exactly on a zero denominator; otherwise numerator = quotient * denominator + remainder with a smaller remainder |
| `WideDivide.Align` | base/base/wide_integer_impl.h:909-916 | the denominator is doubled until it exceeds the numerator or fills the top bit, without losing a bit |
| `WideDivide.TrialStep` | base/base/wide_integer_impl.h:918-928 | one trial subtraction keeps the division equation and settles one quotient bit, which or-ing adds |
| `WideDivide.Slash` | base/base/wide_integer_impl.h:933-944 | the quotient truncated toward zero, modulo 2^N |
| `WideDivide.Percent` | base/base/wide_integer_impl.h:953-964 | the remainder with the sign of the dividend, modulo 2^N |
| `WideDivide.SlashIsExact` | base/base/wide_integer_impl.h:933-944 | read back with its sign the quotient is exact if and only if the dividend is not the minimum with divisor minus one; there it is the minimum again |
| `WideDivide.PercentIsExact` | base/base/wide_integer_impl.h:953-964 | read back with its sign the remainder is always exact |
| `WideDivide.QuotientAndRemainder` | base/base/wide_integer_impl.h:933-971 | quotient times divisor plus remainder is the dividend modulo 2^N, for every pair with a nonzero divisor |
| `WideDivide.TruncLaw` | base/base/wide_integer_impl.h:933-971 | truncated quotient and remainder recompose the dividend; the remainder is smaller than the divisor and has the sign of the dividend |
| `WideMultiply.Multiply256` | base/base/wide_integer_impl.h:576-619 | the product of four limbs with one, two or four modulo 2^256, every carry into the top limb accounted for |
| `WideMultiply.Assemble` | base/base/wide_integer_impl.h:595-617 | the partial products put together with both carries |
| `WideMultiply.Multiply128` | base/base/wide_integer_impl.h:620-630 | the product modulo 2^128 |
| `WideMultiply.MultiplyGeneric` | base/base/wide_integer_impl.h:631-671 | the windowed shift-and-add loop gives the product modulo 2^N for any limb count |
| `WideMultiply.MultiplyItem` | base/base/wide_integer_impl.h:640-667 | one limb of the multiplier, in windows of three, two or one bit, adds its share |
| `WideMultiply.Star` | base/base/wide_integer_impl.h:726-753 | the product of the signed numbers modulo 2^N |
| `WideText.FromStr` | base/base/wide_integer_impl.h:993-1046 | the number the text denotes, decimal or hexadecimal, modulo 2^N; an error exactly when a character is invalid |
| `WideText.ToString` | base/base/wide_integer_to_string.h:13-36 | the canonical decimal text of the number, the minimum and zero included |
| `WideText.ParsePrinted` | base/base/wide_integer_impl.h:993-1046 | parsing the canonical text of any integer gives the integer back |
| `WideText.ParseHexWritten` | base/base/wide_integer_impl.h:993-1046 | hexadecimal texts of every number, in small or capital letters and with leading zeros, parse to it |
| `WideText.RoundTrip` | base/base/wide_integer_to_string.h:13-36 | printing and parsing gives back the same limbs, for every signed and unsigned value |
| `Itoa.SplitIsDivision` | base/base/itoa.cpp:87-117 | multiplying with the reciprocal and shifting is true division by 10^N for every value of 2, 4 and 8 bytes, and no conversion loses a bit |
| `Itoa.ScaleIsShift` | base/base/itoa.cpp:89-95 | the divisors used in the model are two to the power of the shifts |
| `Itoa.TableContents` | base/base/itoa.cpp:130-146 | the table of two-digit texts is right at each of its hundred entries |
| `Itoa.Tail` | base/base/itoa.cpp:187-202 | exactly 2N digits of the number, leading zeros included, and nothing else in the buffer changes |
| `Itoa.Head` | base/base/itoa.cpp:159-181 | the canonical text of a number of at most 2N digits |
| `Itoa.Large` | base/base/itoa.cpp:204-216 | the canonical text of a number of more than 2N digits |
| `Itoa.Uitoa` | base/base/itoa.cpp:218-246 | the canonical text of every unsigned integer of 1, 2, 4 or 8 bytes, and nothing else in the buffer changes |
| `Itoa.MagnitudeIsAbs` | base/base/itoa.cpp:263-282 | the branchless magnitude is the absolute value, the most negative value included |
| `Itoa.Itoa` | base/base/itoa.cpp:259-293 | the canonical text of every signed integer of up to 8 bytes; the sign that is always stored survives exactly for negative numbers |
| `ItoaWide.TakeBlocks` | base/base/itoa.cpp:319-333 | the rest and the two-digit blocks together are the number, and the block buffer is never overrun |
| `ItoaWide.FillBlocks` | base/base/itoa.cpp:325-331 | the nine blocks hold the remainder, also when the loop ends early |
| `ItoaWide.WriteUInt128` | base/base/itoa.cpp:300-343 | the canonical text of every 128-bit unsigned integer |
| `ItoaWide.WriteUInt256` | base/base/itoa.cpp:345-408 | the canonical text of every 256-bit unsigned integer |
| `ItoaWide.WriteSInt` | base/base/itoa.cpp:416-446 | the canonical text of every signed 128- and 256-bit integer, the constants for the minimum included |
| `ItoaWide.MinText128` | base/base/itoa.cpp:426-431 | the constant text is the one of minus 2^127 |
| `ItoaWide.MinText256` | base/base/itoa.cpp:432-437 | the constant text is the one of minus 2^255 |
| `Decimal.DecimalIsCanonical` | base/base/itoa.cpp:155-181 | a number has exactly one text without leading zeros, and it is the one used here |
| `Decimal.DecimalRoundTrip` | base/base/wide_integer_to_string.h:13-36 | the canonical text denotes the number |
| `ConsistentHashing.ResultInRange` | contrib/consistent-hashing/consistent_hashing.h:9-10 | for every n above zero a bucket below n results, and no n of zero is accepted |
| `ConsistentHashing.MinimalDisruption` | contrib/consistent-hashing/consistent_hashing.h:9-19 | for all words and n1 < n2 in range, the bucket under n2 is the one under n1 or is at least n1 |
| `ConsistentHashing.OctaveForm` | contrib/consistent-hashing/consistent_hashing.cpp:83-114 | within one octave the three schemes give the first of the large, smooth and short results that is below n |
| `ConsistentHashing.SmallResultIsShared` | contrib/consistent-hashing/consistent_hashing.cpp:55-68 | a large result below half the range is the result of the smaller scheme |
| `ConsistentHashing.PowerResultRange` | contrib/consistent-hashing/consistent_hashing.cpp:55-68 | the power-of-two scheme stays below 2^k and in the octave of its c block |
| `ConsistentFairness.PowerSchemeIsFair` | contrib/consistent-hashing/consistent_hashing.cpp:48-68 | for every word width and every k up to it, each of the 2^k buckets gets exactly the 2^k-th part of all hashes whose upper half is below a multiple of 2^k |
| `ConsistentFairness.TriplesAreFair` | contrib/consistent-hashing/consistent_hashing.cpp:48-68 | each of the 2^k buckets is the image of exactly 2^(2k) of the triples of k-bit words |
| `ConsistentFairness.SharesAddUp` | contrib/consistent-hashing/consistent_hashing.h:9-10 | the hash values of all buckets add up to all hash values |
| `ConsistentFairness.FairExactlyForPowers` | contrib/consistent-hashing/consistent_hashing.h:10-11 | the buckets get equally many of all hash values if their number is a power of two, and only then, as no other number divides that of the hash values |
| `ConsistentFairness.MovedAndKept` | contrib/consistent-hashing/consistent_hashing.h:11-14 | for all n1 <= n2, the hash values that change their bucket are exactly those the first n1 of the n2 buckets do not get |
| `ConsistentFairness.LeastMovesExactlyForPowers` | contrib/consistent-hashing/consistent_hashing.h:11-14 | the part of the hash values that moves is exactly (n2 - n1) / n2 for every n1 if n2 is a power of two, and only then, for the same reason |
| `ConsistentFairness.PowerAnswers` | contrib/consistent-hashing/consistent_hashing.cpp:118-125 | for n = 2^k the bucket of the words of a hash is the one of the power-of-two scheme |
| `ConsistentBits.PopCountOfWord` | contrib/consistent-hashing/consistent_hashing.cpp:48-53 | the population count of a number is the size of the set of its one bits |
| `ConsistentBits.PowerBucketBits` | contrib/consistent-hashing/consistent_hashing.cpp:48-68 | for every hash and k, the bits of the bucket of the 2^k scheme: the highest one of the low k bits of c, and below it the bits of a if the number of these ones is even, else those of b, all by their places in the hash |
| `ConsistentBits.PowerBucketZero` | contrib/consistent-hashing/consistent_hashing.cpp:58-63 | bucket zero if there is no such one |
| `ConsistentBits.PowerResultIs` | contrib/consistent-hashing/consistent_hashing.cpp:55-68 | one of the two is always the case |
| `ConsistentAsterisk.AsteriskBitsOfOverloads` | contrib/consistent-hashing/consistent_hashing.cpp:70-81 | the number of asterisk bits left after the shifts in 32 and 64 bits: 66 - 3k with 16-bit words; with 32-bit words 64 up to k = 17 and 98 - 2k above |
| `ConsistentAsterisk.AsteriskIsFree` | contrib/consistent-hashing/consistent_hashing.cpp:70-81 | for every hash, the asterisk bits are the low ones of the bits the large scheme does not use, put together |
| `ConsistentAsterisk.AsteriskBound` | contrib/consistent-hashing/consistent_hashing.cpp:70-81 | so they are below 2 to that number |
| `ConsistentBits.AsteriskByPlace` | contrib/consistent-hashing/consistent_hashing.cpp:70-81 | every asterisk bit is the bit of the hash at a stated place: a from k - 1 on, then b from k - 1 on, then c from k on, then d |
| `ConsistentBits.BucketByBits` | contrib/consistent-hashing/consistent_hashing.cpp:83-114 | the bucket of every hash for every n, from numbers given by their bits alone: large if it is below n, else (s mod large (large + 1)) / 2^k + 2^(k - 1) if that is, else short |
| `ConsistentSmooth.Independent` | contrib/consistent-hashing/consistent_hashing.cpp:48-81 | any count over all hashes that depends on used and free bits separately is the product of the counts over each |
| `ConsistentSmooth.UsedBits` | contrib/consistent-hashing/consistent_hashing.cpp:48-68 | a large result in the octave goes together with every short result for equally many choices of the used bits |
| `ConsistentSmooth.WeightSum` | contrib/consistent-hashing/consistent_hashing.cpp:83-114 | so large result, short result and asterisk bits are independent and each evenly spread over all hashes |
| `ConsistentShares.ShareFormula` | contrib/consistent-hashing/consistent_hashing.cpp:83-114 | the exact share of every bucket for every n: its 2^k-th part, and what lands in it of the hashes the large scheme cannot place |
| `ConsistentEvenness.NearlyEven` | contrib/consistent-hashing/consistent_hashing.h:9-11 | for every n and every bucket, n times the share differs from the number of hashes by at most n (2^k - n) of its 2^bits-th parts |
| `ConsistentMoves.NearlyLeastMoves` | contrib/consistent-hashing/consistent_hashing.h:11-14 | for all n1 <= n2, the part that moves is (n2 - n1) / n2 up to that error for each new bucket |
| `ConsistentMoves.Concentrated` | contrib/consistent-hashing/consistent_hashing.cpp:100-110 | if the asterisk bits reach fewer buckets than the octave has below n, every hash the large scheme cannot place lands in the window at the start of the octave |
| `ConsistentMoves.ShareOutside` | contrib/consistent-hashing/consistent_hashing.h:10-11 | then every bucket outside the window gets exactly a 2^k-th part, however many buckets there are |
| `ConsistentMoves.WindowGetsAll` | contrib/consistent-hashing/consistent_hashing.h:10-14 | and the buckets of the window together their own parts and all the rest; growing from 2^(k - 1) to n moves exactly half of all hashes |
| `ConsistentMoves.CollapsingOctaves` | contrib/consistent-hashing/consistent_hashing.cpp:70-114 | an octave has such numbers of buckets if and only if there are fewer than 2k asterisk bits |
| `ConsistentMoves.CollapsingOverloads` | contrib/consistent-hashing/consistent_hashing.h:9-19 | this is so exactly from k = 14 on with 16-bit words and from k = 25 on with 32-bit words |
| `ConsistentMoves.CollapsedExample` | contrib/consistent-hashing/consistent_hashing.h:9-19 | with 16-bit words it is so for all n from 16448 to the limit of 32768, with a window of 64 buckets |
| `DecomposedFloat.CompareIsExact` | base/base/DecomposedFloat.h:98-177 | for every bit pattern and every value of every integer type the comparison is the sign of the exact difference |
| `DecomposedFloat.CompareIsSignOfDifference` | base/base/DecomposedFloat.h:98-177 | the same over the real numbers |
| `DecomposedFloat.InfinityComparesCorrectly` | base/base/DecomposedFloat.h:138-140 | an infinity is ordered beyond the integer if and only if the integer lies within 2^(2^(exponent_bits - 1)) on its side |
| `DecomposedFloat.InfinityBeyondNarrowIntegers` | base/base/DecomposedFloat.h:138-140 | infinities are ordered beyond every integer of at most 2^(exponent_bits - 1) bits |
| `DecomposedFloat.InfinityEqualsItsBound` | base/base/DecomposedFloat.h:138-140 | a wider integer equal to that bound compares as equal to infinity, as 32-bit infinity and 2^128 do |
| `DecomposedFloat.InfinitiesOfFloats` | base/base/DecomposedFloat.h:138-140 | 32-bit infinities are right against all integers of at most 128 bits, 64-bit ones against all of at most 1024 bits |
| `DecomposedFloat.Float32InfinityEqualsInteger` | base/base/DecomposedFloat.h:138-140 | a 32-bit infinity compares as equal to a 256-bit integer |
| `DecomposedFloat.IntegerTestIsExact` | base/base/DecomposedFloat.h:79-88 | true exactly for plus zero and the integers of magnitude 1 to 2^(mantissa_bits + 1) - 1; minus zero is refused |
| `DecomposedFloat.FieldsOfEncode` | base/base/DecomposedFloat.h:46-74 | the accessors take apart what sign, exponent and mantissa put together |
| `DecomposedFloat.FieldsOfFloats` | base/base/DecomposedFloat.h:46-74 | sign, exponent without its bias and mantissa of 32-bit and 64-bit patterns by division with numbers |
| `DecomposedFloat.SignIsExact` | base/base/DecomposedFloat.h:51-59 | the sign of the value, zero for both zeros |
| `ObjectPool.BorrowedObjectPool.BorrowOrWait` | base/base/BorrowedObjectPool.h:37-56 | an idle object if there is one, else a new one if the pool may grow, else nothing changes and the caller waits |
| `ObjectPool.BorrowedObjectPool.BorrowAfterWakeup` | base/base/BorrowedObjectPool.h:55-86 | the wait condition is evaluated again: the last idle object, or nothing |
| `ObjectPool.BorrowedObjectPool.ReturnObject` | base/base/BorrowedObjectPool.h:88-99 | the object becomes the last idle one and the count of borrowed objects drops |
| `ObjectPool.BorrowedObjectPool.AllocateObjectForBorrowing` | base/base/BorrowedObjectPool.h:131-138 | both counters grow and the factory's object is handed out |
| `ObjectPool.BorrowedObjectPool.BorrowFromObjects` | base/base/BorrowedObjectPool.h:140-149 | the last idle object is handed out |
| `ObjectPool.LastInFirstOut` | base/base/BorrowedObjectPool.h:88-149 | the object returned last is borrowed first, and the pool is then as before |
| `ObjectPoolProtocol.StepKeeps` | base/base/BorrowedObjectPool.h:37-99 | every event of every thread keeps exclusiveness, the counters and the covering of idle objects |
| `ObjectPoolProtocol.Conservation` | base/base/BorrowedObjectPool.h:37-99 | in every state of every run allocated = borrowed + idle, the limit holds, and no object has two holders or is idle and held |
| `ObjectPoolProtocol.WaitsWhenExhausted` | base/base/BorrowedObjectPool.h:33-56 | in every run, a client has to wait exactly if the pool is limited and as many objects as it allows are out |
| `ObjectPoolProtocol.NoLostWakeup` | base/base/BorrowedObjectPool.h:55-98 | while threads sleep, idle objects are at most pending notifications plus threads awake and about to look; with none of these all objects are out |
| `ObjectPoolProtocol.SleepersAreServed` | base/base/BorrowedObjectPool.h:55-98 | from every reachable state and in whatever order, the threads already inside the pool make at most as many steps as are pending, and when none is left no object is idle beside a sleeper |
| `ObjectPoolProtocol.NeverStuck` | base/base/BorrowedObjectPool.h:55-98 | in every reachable state with an idle object beside a sleeper one of them can make a step |
| `JsonReader.ReadString` | base/base/JSON.cpp:224-259 | the loop with its fast path computes the string skipping function, on every text |
| `JsonReader.ReadNumber` | base/base/JSON.cpp:262-284 | the loops compute the number skipping function, on every text |
| `JsonReader.ReadArray` | base/base/JSON.cpp:323-350 | the loop over the elements computes the array skipping function, on every text, and terminates |
| `JsonReader.ReadObject` | base/base/JSON.cpp:353-380 | the loop over the members computes the object skipping function, on every text, and terminates |
| `JsonReader.ReadElement` | base/base/JSON.cpp:383-406 | the mutually recursive skippers terminate and compute the element skipping function |
| `JsonPrinted.StringSkip` | base/base/JSON.cpp:224-259 | fast and careful path agree on every printed string and stop exactly behind it |
| `JsonPrinted.NumberSkip` | base/base/JSON.cpp:262-284 | a printed number is passed exactly, but for one with a plus sign in its exponent, where the skipper stops at the sign |
| `JsonPrinted.ElementSkip` | base/base/JSON.cpp:383-406 | at any position and level, a good printed value is passed exactly, a number with a plus sign is left at the sign, any other value throws |
| `JsonPrinted.GoodIsShallow` | base/base/JSON.cpp:167-174 | good means no plus sign in an exponent and at most 100 levels, an array counting one and an object two |
| `JsonPrinted.SkipUndoesPrint` | base/base/JSON.cpp:383-406 | a printed value at the front of a text is passed exactly if and only if it has no plus sign in an exponent and nests at most 100 levels; deeper values throw |
| `JsonDepth.BracketsSkip` | base/base/JSON.cpp:167-174 | n opening and n closing brackets are skipped if and only if n is at most 101 |
| `JsonCuts.ArrayAccepted` | base/base/JSON.cpp:323-350 | on every text, an array is skipped up to q if and only if it is empty or can be cut into elements one level deeper with a comma at every cut and the closing bracket before q |
| `JsonCuts.ObjectAccepted` | base/base/JSON.cpp:353-380 | on every text, the same for objects: a name, a colon and an element two levels deeper between the cuts |
| `JsonCuts.StringAccepted` | base/base/JSON.cpp:224-259 | on every text, a skipped string begins and ends with a quotation mark, and the first one without a backslash in front ends it |
| `JsonCuts.ElementStarts` | base/base/JSON.cpp:177-214 | an element that does not begin with one of the seventeen possible characters is refused |
| `JsonCuts.OnlyContainersIterate` | base/base/JSON.cpp:727-745 | on every text, beginning to iterate, size and index throw on anything but arrays and objects |
| `JsonTypes.TypeOfPrinted` | base/base/JSON.cpp:177-214 | the type found at a printed value is the type of the value, whatever follows; only a string before a colon is taken for a name |
| `JsonTypes.TypeOfMember` | base/base/JSON.cpp:177-214 | a printed member of an object is found to be a pair |
| `JsonNames.ReadText` | base/base/JSON.cpp:552-642 | the loop collects exactly the unescaped characters, on every text; what they are is the next three rows |
| `JsonWritten.StringIsRead` | base/base/JSON.cpp:552-642 | every string is read back whatever way each of its characters is written: plainly, behind a backslash, or the codes 8, 9, 10, 12 and 13 as b, t, n, f and r behind a backslash |
| `JsonWritten.WrittenIsRead` | base/base/JSON.cpp:552-642 | in particular with the short escapes wherever there is one |
| `JsonWritten.WrittenNameIs` | base/base/JSON.cpp:461-472 | so a written name equals a key exactly if it was written from the key |
| `JsonNames.StringOfPrinted` | base/base/JSON.cpp:552-642 | unescaping a printed string, with hexadecimal escapes handed to their decoder, gives its meaning |
| `JsonNames.RawIsUnescaped` | base/base/JSON.cpp:482-493 | on every text, a string without escapes reads the same raw and unescaped |
| `JsonNames.NameIsUnescaped` | base/base/JSON.cpp:461-472 | so the comparison of a name with a key is the one with the unescaped name |
| `JsonAccess.Size` | base/base/JSON.cpp:408-416 | the number of elements the iteration visits, or an error exactly when the iteration fails, on every text |
| `JsonAccess.Index` | base/base/JSON.cpp:425-448 | the iterator moved n times, or an error, on every text |
| `JsonAccess.SearchField` | base/base/JSON.cpp:451-479 | the first member whose name is the key, null, or an error, on every text |
| `JsonAccess.BeginArray` | base/base/JSON.cpp:727-745 | iteration over a printed array can begin if and only if it is not at the last level; then it begins at the first item, or with null when there is none |
| `JsonAccess.BeginObject` | base/base/JSON.cpp:727-745 | the same for a printed object and its members |
| `JsonAccess.EmptyAtLastLevel` | base/base/JSON.cpp:727-745 | an empty container at level 100 is skipped, but beginning to iterate over it and taking its size throw |
| `JsonAccess.ItemAdvance` | base/base/JSON.cpp:747-762 | from a printed item, the next one, null behind the last one and behind an item with a plus sign, an error if the item nests too deep |
| `JsonAccess.MemberAdvance` | base/base/JSON.cpp:747-762 | the same from a printed member |
| `JsonAccess.IndexFromWalk` | base/base/JSON.cpp:436-447 | on every text that can be walked: the element with that index, the null iterator when the index is the size, an error only beyond |
| `JsonAccess.ArrayIteration` | base/base/JSON.cpp:727-762 | iteration over any printed array visits its items in order up to the first that stops it, all of them if and only if all but the last are good and the last is good or has a plus sign |
| `JsonAccess.PlusShortensArray` | base/base/JSON.cpp:408-416 | a printed array whose first number with a plus sign has index j, all items before it being good, has size j + 1 |
| `JsonAccess.ArrayIndex` | base/base/JSON.cpp:425-448 | indexing any printed array with any n: the position of item n if and only if all items before it are good; null at the size, and right behind an item with a plus sign; an error otherwise |
| `JsonAccess.IndexIsItem` | base/base/JSON.cpp:425-448 | that position is where item n is printed |
| `JsonAccess.ObjectIteration` | base/base/JSON.cpp:727-762 | the same for any printed object and its members |
| `JsonAccess.ObjectSearch` | base/base/JSON.cpp:451-479 | search in any printed object gives the first member whose decoded name is the key, unless a value before it ends the iteration or throws |
| `JsonAccess.SearchFindsFirst` | base/base/JSON.cpp:451-479 | the member with index j is found if and only if its decoded name is the key, all names before it differ, and all values before it are good |
| `JsonWritten.KeyIsFound` | base/base/JSON.cpp:451-479 | in an object with written names, the member with index j is found if and only if it is the first one with that name and all values before it are good |

## Left out

- Everything under `programs/`, and the rest of `base` and `contrib`: I/O, operating system calls and tables.
- Floating-point conversions of wide integers, `mulOverflow`, mixed-width and mixed-sign operators, the exclusive or and
  the assigning operators: they add no new argument.
- WideDivide.Divide: models the generic path; 128-bit division is done by the compiler's own type, which does not check
  for a zero denominator.
- WideText.FromStr: has no two-limb version, as the small-constant product it needs does not exist at that width.
- The entry for one-byte division in the table of reciprocals: no instance of `split` uses it.
- PdqHeap.HeapSort: a textbook heap sort stands for the two standard functions, whose text is not part of the repository.
- PdqBranchless.FillLeft: the eight-fold unrolling of the fill loops is modelled as the loop it unrolls, and the
  alignment of the offset buffers is not modelled.
- The move and copy operations of sorted elements: they are plain assignments here.
- PdqTry.TrySort: what it answers on ranges in reverse order depends on how each partition exchanges many elements, which
  is left open; the shuffling of debug builds is not modelled.
- The PCG `extended` and `inside_out` generators, stream input and output, address-based streams, `bounded_rand`,
  `shuffle`, and output functions other than RXS M XS.
- PcgDistance.Distance: states of a multiplicative generator must agree in their two lowest bits, as the assertion in the
  loop demands.
- PcgOutput.UnoutputInverts: for a result type as wide as the state; narrower results cannot be inverted.
- Conversion of four hexadecimal digits to UTF-8: a parameter `decode` that may fail.
- JSON texts with white space, number values (`getDouble`, `getInt`, `getUInt`), `hasSpecialChars`, `toString` and the
  typed getters.
- JsonNames.HasEscapes: a string that is not closed makes the original read one character past the text; here it throws.
- Ordering of NaN patterns: the comparison theorem reads an exponent of all ones as one more binade, NaN included.
- ConsistentHashing.ResultInRange: for n up to 2^(width - 1), the limits stated in the header for both overloads.
- Throwing factories of the object pool, real time in its timeouts, mutex fairness and the accessors of its counters.
- The SIMD searches behind `memchr` and `find_first_symbols`: they are first-match functions here.
