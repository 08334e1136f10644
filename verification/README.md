# swar in Dafny

A model of the core of the Go library `swar` ("SIMD within a register"). The library treats
a `uint64` as eight independent byte lanes and processes all eight with a few branchless
word operations. Its parts:

- comparators (`HighBitWhereLess`, `HighBitWhereGreater`, `HighBitWhereEqual`);
- lane arithmetic: wrapping and saturating add and subtract, absolute difference, minimum,
  maximum and average;
- per-byte bit shuffles: nibble swap, bit reversal, population count and select-by-low-bit;
- helpers: `Dupe`, `ExtractLowBits`, the `Lookup.OnesPositions` table and the index that
  `BytesToLanes` returns.

The project proves two things for every formula:

- it computes the naive per-byte result in every lane;
- no carry or borrow leaks from one lane into another in a way that changes the result.

## Layout

- `words.dfy` (`Words`): a Go `uint64` as `Word`, a sequence of eight `bv8` lanes.
  - Lane k holds bits 8k..8k+7, so lane 0 is the least significant byte.
  - The bitwise operators act lane by lane.
  - `-` and `+` are ripple borrow and carry chains: the only coupling between lanes is the
    borrow or carry one lane passes to the next.
  - Shifts by a constant move bits between neighbouring lanes.
  - `*` is schoolbook multiplication: each lane of one operand scales the other, carries
    are whole numbers, and the partial products are added.
  - Go literals enter through `FromBits`.
- `lane_facts.dfy` (`LaneFacts`): facts shared by the operations:
  - a subtraction (addition) whose lanes cannot borrow (carry) is a lane-wise one;
  - `(flags >> 7) * 0xFF` widens 0x80 flags to full-lane masks;
  - shifts by literal amounts.
- `byte_bits.dfy` (`ByteBits`): the one-byte meanings: bit i, `OnesCount` (Go's
  `bits.OnesCount8`) and `Reverse8` (Go's `bits.Reverse8`).
- `logic.dfy`, `math.dfy`, `shuffle.dfy`, `utils.dfy`: one module per Go file, each
  operation written as the Go expression over `Word`, with lemmas for its meaning.
- `word_value.dfy` (`WordValue`): the number a `Word` stands for. It proves that the
  lane-wise `+`, `-` and `*` of `Words` are Go's `uint64` arithmetic, the whole-number
  result reduced modulo 2^64, so the lane model of the operators is the operators.
- `shift_value.dfy` (`ShiftValue`): the lanes of a 64-bit literal stand for the literal,
  and the lane-wise shifts of `Words` are Go's shifts on the number: `x >> n` is division
  by 2^n and `x << n` is multiplication by 2^n modulo 2^64, for every n < 64.
- `independence.dfy` (`Independence`): lane k of every two-operand operation depends only
  on lane k of its operands. Each of these lemmas follows from the per-lane formulas
  proved in `reference.dfy`.
- `reference.dfy` (`Reference`): the byte-at-a-time reference functions of the repository's
  tests, over big-endian `[8]byte` arrays. It proves every formula equal to its reference on
  all inputs, and checks the test vectors.

Two behaviours of the code are easy to misread:

- **Select-by-low-bit.** Bits above bit 0 of a selection mask lane are not ignored: the
  code multiplies the mask by 0xFF, so a mask lane of 2 yields 0xFE and carries 1 into the
  next lane (`Shuffle.SelectByLowBitNeedsBitLanes`). The select lemma therefore requires
  every mask lane to be 0 or 1, which is how the repository's callers and tests use it.
- **Low-bit gathering.** `ExtractLowBits` gathers low bits only for a word whose lanes
  are 0 or 1, which is what its callers pass (a word masked with `LowBits`, or a
  comparator result shifted down by 7). For such a word, counting lanes from the most
  significant byte, as the tests' `toBytes` array does, lane i's low bit lands in output
  bit 7 - i. In the code's own numbering (lane 0 = least significant byte), it lands in
  bit i (`Utils.ExtractLowBitsOfBitWord`). Both statements are proved, the first through
  `Reference.ExtractLowBitsMatches`. Any other lane value carries across lanes in the
  multiplication: a word whose lane 0 is 2 and whose other lanes are 0 gives 2, although
  no lane has its low bit set (`Utils.ExtractLowBitsNeedsBitLanes`).

## Model

| member | source | states |
|---|---|---|
| WordValue.AddValue | math.go:29 | the lane-wise adder with its carry chain computes `(Value(x) + Value(y)) mod 2^64`, Go's `uint64` `+` |
| WordValue.SubValue | math.go:45 | the lane-wise subtractor with its borrow chain computes `(Value(x) - Value(y)) mod 2^64`, Go's `uint64` `-` |
| WordValue.MulByteValue | shuffle.go:23 | multiplying by a one-byte constant such as 0xFF lane by lane, with whole-number carries, computes `(Value(x) * c) mod 2^64` |
| WordValue.MulValue | utils.go:37 | schoolbook multiplication by lanes computes `(Value(x) * Value(y)) mod 2^64`, Go's `uint64` `*` |
| ShiftValue.FromBitsValue | logic.go:5 | the eight lanes of a 64-bit literal such as `HighBits` stand for the literal itself: `Value(FromBits(v)) == v` for every v |
| ShiftValue.ShiftRightValue | shuffle.go:30-32 | the lane-wise `x >> n` is Go's logical right shift: its value is `Value(x) / 2^n` for every n < 64 |
| ShiftValue.ShiftLeftValue | shuffle.go:14-16 | the lane-wise `x << n` is Go's left shift: its value is `(Value(x) * 2^n) mod 2^64` for every n < 64 |
| Logic.BiasedSubtraction | logic.go:11 | `(x \| HighBits) - (y &^ HighBits)` never borrows across lanes: lane k is `(x_k \| 0x80) - (y_k & 0x7F)` |
| Logic.HighBitWhereLessLanes | logic.go:10-15 | lane k is 0x80 exactly when v_k < cm_k and 0 otherwise, for any cm (not only broadcasts) |
| Logic.HighBitWhereGreaterLanes | logic.go:19-24 | lane k is 0x80 exactly when v_k > cm_k and 0 otherwise |
| Logic.HighBitWhereEqualLanes | logic.go:28-33 | lane k is 0x80 exactly when v_k == cm_k and 0 otherwise |
| Logic.ComparatorsAreFlagWords | logic.go:10-33 | each comparator returns a flag word: lanes are 0 or 0x80, and `result &^ HighBits == 0` |
| Logic.GreaterMirrorsLess | logic.go:19-24 | `HighBitWhereGreater(v, cm) == HighBitWhereLess(cm, v)` |
| Logic.ComparatorTrichotomy | logic.go:10-33 | less, equal and greater are pairwise disjoint and their union is HighBits |
| Math.SubtractBytesWithWrappingLanes | math.go:14-16 | lane k is `a_k - b_k` modulo 256 |
| Math.SubtractionBorrowFlags | math.go:21-22 | the borrow flag word is a flag word with 0x80 exactly in the lanes where a_k < b_k |
| Math.SubtractBytesWithMinimumLanes | math.go:20-24 | lane k is `a_k - b_k` when b_k <= a_k, and 0 otherwise |
| Math.AddBytesWithWrappingLanes | math.go:28-31 | lane k is `a_k + b_k` modulo 256 |
| Math.AdditionCarryFlags | math.go:36-38 | the carry flag word has 0x80 exactly where `a_k + b_k` exceeds 255 |
| Math.AddBytesWithMaximumLanes | math.go:35-40 | lane k is `a_k + b_k` when that is at most 255, and 255 otherwise |
| Math.BorrowMaskLanes | math.go:45-47 | the mask lane is 0xFF where the full-width `a - b` borrows out of lane k; hence 0xFF where a_k < b_k and 0 where a_k > b_k, while lanes with a_k == b_k depend on the lanes below |
| Math.BorrowMaskSpurious | math.go:45-47 | for a = 0 and b = 1 the mask is 0xFF in every lane, including the seven lanes where a and b agree |
| Math.AbsoluteDifferenceBetweenBytesLanes | math.go:44-51 | lane k is `\|a_k - b_k\|`, even in lanes where the mask is set spuriously |
| Math.SelectSmallerBytesLanes | math.go:55-60 | lane k is min(a_k, b_k) |
| Math.SelectLargerBytesLanes | math.go:64-69 | lane k is max(a_k, b_k) |
| Math.AverageBytesLocal | math.go:74-76 | `common + (diff >> 1)` adds lane by lane without a carry, and the shift moves no bit between lanes |
| Math.AverageBytesLanes | math.go:73-77 | lane k is `(a_k + b_k) >> 1`, computed as in 16 bits |
| Math.AverageOfEqualAndSwapped | math.go:73-77 | the average of a with itself is a, and swapping the operands does not change the result |
| Math.AverageIsBetween | math.go:73-77 | each lane of the average lies between min(a_k, b_k) and max(a_k, b_k) |
| Shuffle.SwapByteHalvesLanes | shuffle.go:5-9 | lane k is `((v_k & 0x0F) << 4) \| ((v_k & 0xF0) >> 4)` |
| Shuffle.SwapByteHalvesInvolution | shuffle.go:5-9 | swapping the halves twice gives v back |
| Shuffle.ReverseEachByteLanes | shuffle.go:13-18 | lane k is v_k with its bits reversed; bytes stay in their lanes |
| Shuffle.ReverseEachByteInvolution | shuffle.go:13-18 | reversing twice gives v back |
| Shuffle.SelectByLowBitLanes | shuffle.go:22-25 | for a mask whose lanes are 0 or 1, lane k is a_k where the mask lane is 1 and b_k where it is 0 |
| Shuffle.SelectByLowBitNone | shuffle.go:22-25 | with an all-zero mask the result is b |
| Shuffle.SelectByLowBitAll | shuffle.go:22-25 | with mask LowBits the result is a |
| Shuffle.SelectByLowBitNeedsBitLanes | shuffle.go:23 | a mask lane of 2 gives the lane mask 0xFE and carries 1 into the next lane's mask |
| Shuffle.PairCountsLanes | shuffle.go:30 | the first step subtracts lane by lane (no borrow); each two-bit field of lane k holds the number of set bits of that field of v_k |
| Shuffle.NibbleCountsLanes | shuffle.go:31 | the second step adds lane by lane (no carry); each nibble of lane k holds the sum of the two two-bit fields of that nibble of m_k, so for pair counts the nibble's bit count |
| Shuffle.FoldNibblesLanes | shuffle.go:32 | for nibbles of at most 4, the last step adds lane by lane (no carry) and lane k is the sum of the two nibbles of n_k |
| Shuffle.CountOnesPerByteLanes | shuffle.go:29-33 | lane k is the number of set bits of v_k, so every lane is between 0 and 8 |
| Utils.PackMaskLanes | utils.go:9 | lane j of packMask is the single bit 7 - j |
| Utils.DupeLanes | utils.go:30-32 | `Dupe(c)` has c in every lane |
| Utils.PackPrefix | utils.go:37 | for a word of 0/1 lanes, the partial products of `v * packMask` add up without a carry |
| Utils.ExtractLowBitsGathers | utils.go:36-38 | for a word of 0/1 lanes, the result has lane i's low bit as its bit i |
| Utils.ExtractLowBitsNeedsBitLanes | utils.go:36-38 | a word with 2 in lane 0 and 0 elsewhere is extracted to 2, while no lane has its low bit set, so the gathering needs 0/1 lanes |
| Utils.ExtractLowBitsOfBitWord | utils.go:36-38 | for a word of 0/1 lanes, bit i of the result is set exactly when lane i is 1 |
| Utils.ExtractLowBitsOfFlags | utils.go:36-38 | for a flag word f, bit i of `ExtractLowBits(f >> 7)` is set exactly when lane i of f is 0x80 |
| Utils.ExtractLowBitsOfMasked | utils.go:36-38 | for any n, bit i of `ExtractLowBits(n & LowBits)` is the low bit of lane i of n |
| Utils.PositionsBelow | utils.go:59-63 | after n rounds of the inner loop, the entry is ascending, holds only positions below n, and holds i exactly when bit i of b is set |
| Utils.OnesPositionsSpec | utils.go:57-66 | `OnesPositions[b]` is strictly ascending, holds i exactly when bit i of b is set, has `OnesCount(b)` entries, and is empty for 0 |
| Utils.BuildOnesPositions | utils.go:57-66 | the table initialiser fills all 256 entries, each ascending and holding exactly the set-bit positions of its index |
| Utils.BytesToLanesIndex | utils.go:14-18 | panics exactly on an empty slice; otherwise returns `len / 8` lanes and an index that is 8 times the lane count, at most len, with fewer than 8 bytes after it |
| Utils.BytesToLanesIndexUnique | utils.go:15-17 | the returned index is the only multiple of 8 that leaves fewer than 8 trailing bytes |
| Independence.ComparatorsAreLaneLocal | logic.go:10-33 | lane k of each comparator's result depends only on lane k of its operands |
| Independence.SubtractionIsLaneLocal | math.go:14-24 | lane k of both subtractions depends only on lane k of a and b |
| Independence.AdditionIsLaneLocal | math.go:28-40 | lane k of both additions depends only on lane k of a and b |
| Independence.SelectionIsLaneLocal | math.go:44-69 | lane k of the absolute difference, minimum and maximum depends only on lane k of a and b, although the borrow mask does not |
| Independence.AverageIsLaneLocal | math.go:73-77 | lane k of the average depends only on lane k of a and b |
| Reference.BytesRoundTrip | all_reference_test.go:23-39 | `fromBytes(toBytes(v)) == v` and `toBytes(fromBytes(b)) == b` |
| Reference.SubtractBytesWithWrappingMatches | all_reference_test.go:275-285 | `SubtractBytesWithWrapping` equals `subBytesWrap` on all inputs |
| Reference.SubtractBytesWithMinimumMatches | all_reference_test.go:287-329 | `SubtractBytesWithMinimum` equals `subBytesSat` on all inputs |
| Reference.AddBytesWithWrappingMatches | all_reference_test.go:70-80 | `AddBytesWithWrapping` equals `addWrapBytes` on all inputs |
| Reference.AddBytesWithMaximumMatches | all_reference_test.go:186-228 | `AddBytesWithMaximum` equals `addSatBytes` on all inputs |
| Reference.SaturatingAddReferencesAgree | all_reference_test.go:331-381 | the 16-bit reference `addBytesSat` agrees with `addSatBytes` |
| Reference.AbsoluteDifferenceMatches | all_reference_test.go:383-425 | `AbsoluteDifferenceBetweenBytes` equals `absDiffBytes` on all inputs |
| Reference.SelectSmallerBytesMatches | all_reference_test.go:82-108 | `SelectSmallerBytes` equals `minBytes` on all inputs |
| Reference.SelectLargerBytesMatches | all_reference_test.go:110-136 | `SelectLargerBytes` equals `maxBytes` on all inputs |
| Reference.AverageOf16BitSum | all_reference_test.go:138-148 | the 16-bit mean of two bytes equals the whole-number mean rounded down |
| Reference.AverageBytesMatches | all_reference_test.go:138-148 | `AverageBytes` equals `averageBytes` on all inputs |
| Reference.HighBitWhereLessMatches | all_reference_test.go:427-469 | `HighBitWhereLess` equals `highBitWhereLess` for any second operand |
| Reference.HighBitWhereGreaterMatches | all_reference_test.go:471-513 | `HighBitWhereGreater` equals `highBitWhereGreater` for any second operand |
| Reference.HighBitWhereEqualMatches | all_reference_test.go:515-557 | `HighBitWhereEqual` equals `highBitWhereEqual` for any second operand |
| Reference.SwapByteHalvesMatches | all_reference_test.go:150-160 | `SwapByteHalves` equals `swapNibbles` on all inputs |
| Reference.ReverseEachByteMatches | all_reference_test.go:162-172 | `ReverseEachByte` equals `reverseBits` on all inputs |
| Reference.CountOnesPerByteMatches | all_reference_test.go:174-184 | `CountOnesPerByte` equals `popcountPerByte` on all inputs |
| Reference.SelectByLowBitMatches | all_reference_test.go:230-273 | for a mask of 0/1 lanes, `SelectByLowBit` equals `selectByLowBits` |
| Reference.SweepMaskIsBitWord | all_reference_test.go:613 | the sweep's mask `0x01_00_01_01_00_00_01_00` has 0/1 lanes, so the previous row covers it |
| Reference.ExtractLowBitsMatches | all_reference_test.go:41-68 | `ExtractLowBits(n & LowBits)` equals `byteFromLowBits(toBytes(n & LowBits))` for every n |
| Reference.EqualityVector | logic_test.go:20 | `HighBitWhereEqual(0xFF00, Dupe(0)) == 0x8080808080800080` |
| Reference.WrappingAddVector | math_test.go:51 | `AddBytesWithWrapping(0xFF0FFF, 0x01F000) == 0x00FFFF` |
| Reference.AverageVector | math_test.go:17 | `AverageBytes(0x011040FF, 0xFF3080FD) == 0x802060FE`, including avg(0x01, 0xFF) = 0x80 |

## Left out

- `LanesToBytes`, `IntToLanes`, `LanesToInt` and the slice that `BytesToLanes` returns reinterpret raw memory through `unsafe`. That is platform-endian aliasing, not arithmetic, so only the lane count and index of `BytesToLanes` are modelled.
- The `Lookup` variable's run-once initialisation is not modelled. `OnesPositions` is a pure function of the byte, and `BuildOnesPositions` models the initialiser's loops.
- `mEven` and `mOdd` are declared in math.go but used nowhere, so no lemma mentions them.
- The benchmarks and example programs of examples_test.go are not part of this model.
- Math.AverageBytesLanes: states the lane as `(a_k + b_k) >> 1` in 16-bit arithmetic. The whole-number mean is proved equal to it separately (`Reference.AverageOf16BitSum`).
- Utils.ExtractLowBitsGathers: requires every lane to be 0 or 1. For other lanes the product carries across lanes (lane 0 = 2 yields 0x02, see `Utils.ExtractLowBitsNeedsBitLanes`), and no per-lane meaning exists.
- Shuffle.SelectByLowBitLanes: requires every mask lane to be 0 or 1. For other masks the Go expression mixes a and b bitwise and leaks into the next lane, and no per-lane meaning exists.
- The comparator sweep in all_reference_test.go:602-611 only uses broadcast second operands `Dupe(byte(m % 0xFE))`; the comparator agreement lemmas hold for every second operand, so that restriction is not modelled.
