/** The byte-at-a-time reference versions of the lane operations that the
    repository's tests compare the SWAR formulas against, and proofs that
    every formula agrees with its reference on all inputs.

    The reference helpers work on an `[8]byte` array holding the word in
    big-endian order: array element i is lane 7 - i. */
module Reference {
  import opened Words
  import opened LaneFacts
  import opened ByteBits
  import Logic
  import Math
  import Shuffle
  import Utils

  /** A Go `[8]byte`, most significant byte first. */
  type ByteArray = b: seq<Byte> | |b| == 8 witness [0, 0, 0, 0, 0, 0, 0, 0]

  /** `toBytes`: element i is byte `(v >> 8(7 - i)) & 0xFF`, that is lane 7 - i. */
  function ToBytes(v: Word): ByteArray
  {
    seq(8, i requires 0 <= i < 8 => v[7 - i])
  }

  /** `fromBytes`: element i is or-ed into the word shifted left by 8(7 - i),
      that is, into lane 7 - i. */
  function FromBytes(b: ByteArray): Word
  {
    seq(8, k requires 0 <= k < 8 => b[7 - k])
  }

  /** The two conversions are inverse to each other. */
  lemma BytesRoundTrip(v: Word, b: ByteArray)
    ensures FromBytes(ToBytes(v)) == v
    ensures ToBytes(FromBytes(b)) == b
  {
    assert forall k: LaneIndex :: FromBytes(ToBytes(v))[k] == v[k];
    assert forall i: LaneIndex :: ToBytes(FromBytes(b))[i] == b[i];
  }

  // ---------------------------------------------------------------------------
  // Byte-at-a-time references

  function AddWrapBytes(ba: ByteArray, bb: ByteArray): ByteArray
  {
    seq(8, i requires 0 <= i < 8 => AddWrap(ba[i], bb[i]))
  }

  function AddWrap(p: Byte, q: Byte): Byte
  {
    p + q
  }

  function SubBytesWrap(aa: ByteArray, bb: ByteArray): ByteArray
  {
    seq(8, i requires 0 <= i < 8 => SubWrap(aa[i], bb[i]))
  }

  function SubWrap(p: Byte, q: Byte): Byte
  {
    p - q
  }

  function AddSatBytes(ba: ByteArray, bb: ByteArray): ByteArray
  {
    seq(8, i requires 0 <= i < 8 => AddSat(ba[i], bb[i]))
  }

  function AddSat(p: Byte, q: Byte): Byte
  {
    if q > 0xFF - p then 0xFF else p + q
  }

  /** The second saturating-add reference, which detects overflow on a 16-bit sum. */
  function AddBytesSat(aa: ByteArray, bb: ByteArray): ByteArray
  {
    seq(8, i requires 0 <= i < 8 => AddSat16(aa[i], bb[i]))
  }

  function AddSat16(p: Byte, q: Byte): Byte
  {
    var s := p as bv16 + q as bv16;
    if s > 255 then 0xFF else s as Byte
  }

  function SubBytesSat(aa: ByteArray, bb: ByteArray): ByteArray
  {
    seq(8, i requires 0 <= i < 8 => SubSat(aa[i], bb[i]))
  }

  function SubSat(p: Byte, q: Byte): Byte
  {
    if q > p then 0 else p - q
  }

  function AbsDiffBytes(aa: ByteArray, bb: ByteArray): ByteArray
  {
    seq(8, i requires 0 <= i < 8 => AbsDiff(aa[i], bb[i]))
  }

  function AbsDiff(p: Byte, q: Byte): Byte
  {
    if p >= q then p - q else q - p
  }

  function MinBytes(ba: ByteArray, bb: ByteArray): ByteArray
  {
    seq(8, i requires 0 <= i < 8 => Min(ba[i], bb[i]))
  }

  function Min(p: Byte, q: Byte): Byte
  {
    if q < p then q else p
  }

  function MaxBytes(ba: ByteArray, bb: ByteArray): ByteArray
  {
    seq(8, i requires 0 <= i < 8 => Max(ba[i], bb[i]))
  }

  function Max(p: Byte, q: Byte): Byte
  {
    if q > p then q else p
  }

  /** The mean in whole numbers, rounded down. */
  function AverageBytes(ba: ByteArray, bb: ByteArray): ByteArray
  {
    seq(8, i requires 0 <= i < 8 => Average(ba[i], bb[i]))
  }

  function Average(p: Byte, q: Byte): Byte
  {
    ((p as int + q as int) / 2) as Byte
  }

  function SwapNibbles(b: ByteArray): ByteArray
  {
    seq(8, i requires 0 <= i < 8 => Shuffle.SwapNibbles(b[i]))
  }

  function ReverseBits(b: ByteArray): ByteArray
  {
    seq(8, i requires 0 <= i < 8 => Reverse8(b[i]))
  }

  function PopcountPerByte(b: ByteArray): ByteArray
  {
    seq(8, i requires 0 <= i < 8 => OnesCountAsBound(b[i]); SmallByte(OnesCount(b[i])))
  }

  function SelectByLowBits(ba: ByteArray, bb: ByteArray, ma: ByteArray): ByteArray
  {
    seq(8, i requires 0 <= i < 8 => if ma[i] != 0 then ba[i] else bb[i])
  }

  function HighBitWhereLess(b: ByteArray, c: ByteArray): ByteArray
  {
    seq(8, i requires 0 <= i < 8 => LessFlag(b[i], c[i]))
  }

  function LessFlag(p: Byte, q: Byte): Byte
  {
    if p < q then 0x80 else 0
  }

  function HighBitWhereGreater(b: ByteArray, c: ByteArray): ByteArray
  {
    seq(8, i requires 0 <= i < 8 => GreaterFlag(b[i], c[i]))
  }

  function GreaterFlag(p: Byte, q: Byte): Byte
  {
    if p > q then 0x80 else 0
  }

  function HighBitWhereEqual(b: ByteArray, c: ByteArray): ByteArray
  {
    seq(8, i requires 0 <= i < 8 => EqualFlag(b[i], c[i]))
  }

  function EqualFlag(p: Byte, q: Byte): Byte
  {
    if p == q then 0x80 else 0
  }

  /** Bit 7 - i of the result is the low bit of array element i. */
  function ByteFromLowBits(b: ByteArray): Byte
  {
    (if b[0] & 1 != 0 then 1 << 7 else 0) |
    (if b[1] & 1 != 0 then 1 << 6 else 0) |
    (if b[2] & 1 != 0 then 1 << 5 else 0) |
    (if b[3] & 1 != 0 then 1 << 4 else 0) |
    (if b[4] & 1 != 0 then 1 << 3 else 0) |
    (if b[5] & 1 != 0 then 1 << 2 else 0) |
    (if b[6] & 1 != 0 then 1 << 1 else 0) |
    (if b[7] & 1 != 0 then 1 << 0 else 0)
  }

  lemma OnesCountAsBound(b: Byte)
    ensures OnesCount(b) <= 8
  {
    OnesCountAsByte(b);
  }

  // ---------------------------------------------------------------------------
  // Every formula agrees with its reference on every input

  /** Wrapping subtraction agrees with `subBytesWrap`. */
  lemma SubtractBytesWithWrappingMatches(n: Word, m: Word)
    ensures Math.SubtractBytesWithWrapping(n, m) == FromBytes(SubBytesWrap(ToBytes(n), ToBytes(m)))
  {
    forall k: LaneIndex
      ensures Math.SubtractBytesWithWrapping(n, m)[k] == FromBytes(SubBytesWrap(ToBytes(n), ToBytes(m)))[k]
    {
      SubtractBytesWithWrappingLane(n, m, k);
    }
  }

  lemma SubtractBytesWithWrappingLane(n: Word, m: Word, k: LaneIndex)
    ensures Math.SubtractBytesWithWrapping(n, m)[k] == SubWrap(n[k], m[k])
  {
    Math.SubtractBytesWithWrappingLanes(n, m);
  }

  /** Saturating subtraction agrees with `subBytesSat`. */
  lemma SubtractBytesWithMinimumMatches(n: Word, m: Word)
    ensures Math.SubtractBytesWithMinimum(n, m) == FromBytes(SubBytesSat(ToBytes(n), ToBytes(m)))
  {
    forall k: LaneIndex
      ensures Math.SubtractBytesWithMinimum(n, m)[k] == FromBytes(SubBytesSat(ToBytes(n), ToBytes(m)))[k]
    {
      SubtractBytesWithMinimumLane(n, m, k);
    }
  }

  lemma SubtractBytesWithMinimumLane(n: Word, m: Word, k: LaneIndex)
    ensures Math.SubtractBytesWithMinimum(n, m)[k] == SubSat(n[k], m[k])
  {
    Math.SubtractBytesWithMinimumLanes(n, m);
  }

  /** Wrapping addition agrees with `addWrapBytes`. */
  lemma AddBytesWithWrappingMatches(n: Word, m: Word)
    ensures Math.AddBytesWithWrapping(n, m) == FromBytes(AddWrapBytes(ToBytes(n), ToBytes(m)))
  {
    forall k: LaneIndex
      ensures Math.AddBytesWithWrapping(n, m)[k] == FromBytes(AddWrapBytes(ToBytes(n), ToBytes(m)))[k]
    {
      AddBytesWithWrappingLane(n, m, k);
    }
  }

  lemma AddBytesWithWrappingLane(n: Word, m: Word, k: LaneIndex)
    ensures Math.AddBytesWithWrapping(n, m)[k] == AddWrap(n[k], m[k])
  {
    Math.AddBytesWithWrappingLanes(n, m);
  }

  /** Saturating addition agrees with `addSatBytes`. */
  lemma AddBytesWithMaximumMatches(n: Word, m: Word)
    ensures Math.AddBytesWithMaximum(n, m) == FromBytes(AddSatBytes(ToBytes(n), ToBytes(m)))
  {
    forall k: LaneIndex
      ensures Math.AddBytesWithMaximum(n, m)[k] == FromBytes(AddSatBytes(ToBytes(n), ToBytes(m)))[k]
    {
      AddBytesWithMaximumLane(n, m, k);
    }
  }

  lemma AddBytesWithMaximumLane(n: Word, m: Word, k: LaneIndex)
    ensures Math.AddBytesWithMaximum(n, m)[k] == AddSat(n[k], m[k])
  {
    Math.AddBytesWithMaximumLanes(n, m);
  }

  /** The absolute difference agrees with `absDiffBytes`. */
  lemma AbsoluteDifferenceMatches(n: Word, m: Word)
    ensures Math.AbsoluteDifferenceBetweenBytes(n, m) == FromBytes(AbsDiffBytes(ToBytes(n), ToBytes(m)))
  {
    forall k: LaneIndex
      ensures Math.AbsoluteDifferenceBetweenBytes(n, m)[k] == FromBytes(AbsDiffBytes(ToBytes(n), ToBytes(m)))[k]
    {
      AbsoluteDifferenceLane(n, m, k);
    }
  }

  lemma AbsoluteDifferenceLane(n: Word, m: Word, k: LaneIndex)
    ensures Math.AbsoluteDifferenceBetweenBytes(n, m)[k] == AbsDiff(n[k], m[k])
  {
    Math.AbsoluteDifferenceBetweenBytesLanes(n, m);
  }

  /** The minimum agrees with `minBytes`. */
  lemma SelectSmallerBytesMatches(n: Word, m: Word)
    ensures Math.SelectSmallerBytes(n, m) == FromBytes(MinBytes(ToBytes(n), ToBytes(m)))
  {
    forall k: LaneIndex
      ensures Math.SelectSmallerBytes(n, m)[k] == FromBytes(MinBytes(ToBytes(n), ToBytes(m)))[k]
    {
      SelectSmallerBytesLane(n, m, k);
    }
  }

  lemma SelectSmallerBytesLane(n: Word, m: Word, k: LaneIndex)
    ensures Math.SelectSmallerBytes(n, m)[k] == Min(n[k], m[k])
  {
    Math.SelectSmallerBytesLanes(n, m);
  }

  /** The maximum agrees with `maxBytes`. */
  lemma SelectLargerBytesMatches(n: Word, m: Word)
    ensures Math.SelectLargerBytes(n, m) == FromBytes(MaxBytes(ToBytes(n), ToBytes(m)))
  {
    forall k: LaneIndex
      ensures Math.SelectLargerBytes(n, m)[k] == FromBytes(MaxBytes(ToBytes(n), ToBytes(m)))[k]
    {
      SelectLargerBytesLane(n, m, k);
    }
  }

  lemma SelectLargerBytesLane(n: Word, m: Word, k: LaneIndex)
    ensures Math.SelectLargerBytes(n, m)[k] == Max(n[k], m[k])
  {
    Math.SelectLargerBytesLanes(n, m);
  }

  /** The less-than comparator agrees with `highBitWhereLess`, for any second operand. */
  lemma HighBitWhereLessMatches(n: Word, m: Word)
    ensures Logic.HighBitWhereLess(n, m) == FromBytes(HighBitWhereLess(ToBytes(n), ToBytes(m)))
  {
    forall k: LaneIndex
      ensures Logic.HighBitWhereLess(n, m)[k] == FromBytes(HighBitWhereLess(ToBytes(n), ToBytes(m)))[k]
    {
      HighBitWhereLessLane(n, m, k);
    }
  }

  lemma HighBitWhereLessLane(n: Word, m: Word, k: LaneIndex)
    ensures Logic.HighBitWhereLess(n, m)[k] == LessFlag(n[k], m[k])
  {
    Logic.HighBitWhereLessLanes(n, m);
  }

  /** The greater-than comparator agrees with `highBitWhereGreater`, for any second operand. */
  lemma HighBitWhereGreaterMatches(n: Word, m: Word)
    ensures Logic.HighBitWhereGreater(n, m) == FromBytes(HighBitWhereGreater(ToBytes(n), ToBytes(m)))
  {
    forall k: LaneIndex
      ensures Logic.HighBitWhereGreater(n, m)[k] == FromBytes(HighBitWhereGreater(ToBytes(n), ToBytes(m)))[k]
    {
      HighBitWhereGreaterLane(n, m, k);
    }
  }

  lemma HighBitWhereGreaterLane(n: Word, m: Word, k: LaneIndex)
    ensures Logic.HighBitWhereGreater(n, m)[k] == GreaterFlag(n[k], m[k])
  {
    Logic.HighBitWhereGreaterLanes(n, m);
  }

  /** The equality comparator agrees with `highBitWhereEqual`, for any second operand. */
  lemma HighBitWhereEqualMatches(n: Word, m: Word)
    ensures Logic.HighBitWhereEqual(n, m) == FromBytes(HighBitWhereEqual(ToBytes(n), ToBytes(m)))
  {
    forall k: LaneIndex
      ensures Logic.HighBitWhereEqual(n, m)[k] == FromBytes(HighBitWhereEqual(ToBytes(n), ToBytes(m)))[k]
    {
      HighBitWhereEqualLane(n, m, k);
    }
  }

  lemma HighBitWhereEqualLane(n: Word, m: Word, k: LaneIndex)
    ensures Logic.HighBitWhereEqual(n, m)[k] == EqualFlag(n[k], m[k])
  {
    Logic.HighBitWhereEqualLanes(n, m);
  }

  /** Swapping the halves of each byte agrees with `swapNibbles`. */
  lemma SwapByteHalvesMatches(n: Word)
    ensures Shuffle.SwapByteHalves(n) == FromBytes(SwapNibbles(ToBytes(n)))
  {
    Shuffle.SwapByteHalvesLanes(n);
    assert forall k: LaneIndex :: Shuffle.SwapByteHalves(n)[k] == FromBytes(SwapNibbles(ToBytes(n)))[k];
  }

  /** Reversing each byte agrees with `reverseBits`. */
  lemma ReverseEachByteMatches(n: Word)
    ensures Shuffle.ReverseEachByte(n) == FromBytes(ReverseBits(ToBytes(n)))
  {
    Shuffle.ReverseEachByteLanes(n);
    assert forall k: LaneIndex :: Shuffle.ReverseEachByte(n)[k] == FromBytes(ReverseBits(ToBytes(n)))[k];
  }

  /** The per-byte population count agrees with `popcountPerByte`. */
  lemma CountOnesPerByteMatches(n: Word)
    ensures Shuffle.CountOnesPerByte(n) == FromBytes(PopcountPerByte(ToBytes(n)))
  {
    Shuffle.CountOnesPerByteLanes(n);
    assert forall k: LaneIndex :: Shuffle.CountOnesPerByte(n)[k] == FromBytes(PopcountPerByte(ToBytes(n)))[k];
  }

  /** The mean computed as in 16 bits, as the lane lemma states it, is the
      whole-number mean rounded down. */
  lemma AverageOf16BitSum(p: Byte, q: Byte)
    ensures ((p as bv16 + q as bv16) >> 1) as Byte == Average(p, q)
  {
    HalfOfSum(p, q);
    ByteAsInt(((p as bv16 + q as bv16) >> 1) as Byte);
  }

  /** Halving the whole-number sum gives the 16-bit half. */
  lemma HalfOfSum(p: Byte, q: Byte)
    ensures (p as int + q as int) / 2 == (((p as bv16 + q as bv16) >> 1) as Byte) as int
  {
    SumAsTwiceHalf(p, q);
    IntHalf(p as int + q as int, (((p as bv16 + q as bv16) >> 1) as Byte) as int);
  }

  /** The sum of two bytes is twice its 16-bit half, plus its low bit. */
  lemma SumAsTwiceHalf(p: Byte, q: Byte)
    ensures var h := ((p as bv16 + q as bv16) >> 1) as Byte;
      p as int + q as int == h as int + h as int + (if (p as bv16 + q as bv16) & 1 == 0 then 0 else 1)
  {
    var s := p as bv16 + q as bv16;
    var h := (s >> 1) as Byte;
    HalfSplit(p, q);
    WideSum(p, q);
    if s & 1 == 0 {
      WideSum(h, h);
    } else {
      WideSum(h, h + 1);
      ByteSucc(h);
    }
  }

  /** A 16-bit sum of two bytes cannot overflow. */
  lemma WideSum(p: Byte, q: Byte)
    ensures (p as bv16 + q as bv16) as int == p as int + q as int
  {
  }

  lemma ByteSucc(h: Byte)
    requires h < 255
    ensures (h + 1) as int == h as int + 1
  {
  }

  lemma HalfSplit(p: Byte, q: Byte)
    ensures var s := p as bv16 + q as bv16; var h := (s >> 1) as Byte;
      if s & 1 == 0 then s == h as bv16 + h as bv16
      else h < 255 && s == h as bv16 + (h + 1) as bv16
  {
  }

  lemma IntHalf(a: int, h: int)
    requires a == h + h || a == h + h + 1
    ensures a / 2 == h
  {
  }

  lemma AverageBytesLane(n: Word, m: Word, k: LaneIndex)
    ensures Math.AverageBytes(n, m)[k] == Average(n[k], m[k])
  {
    Math.AverageBytesLanes(n, m);
    AverageOf16BitSum(n[k], m[k]);
  }

  /** The average agrees with `averageBytes`, which divides the whole-number
      sum by 2. */
  lemma AverageBytesMatches(n: Word, m: Word)
    ensures Math.AverageBytes(n, m) == FromBytes(AverageBytes(ToBytes(n), ToBytes(m)))
  {
    forall k: LaneIndex
      ensures Math.AverageBytes(n, m)[k] == FromBytes(AverageBytes(ToBytes(n), ToBytes(m)))[k]
    {
      AverageBytesLane(n, m, k);
    }
  }

  /** The two saturating-add references agree: overflow of the byte sum is
      the 16-bit sum exceeding 255. */
  lemma SaturatingAddReferencesAgree(aa: ByteArray, bb: ByteArray)
    ensures AddBytesSat(aa, bb) == AddSatBytes(aa, bb)
  {
    forall i: LaneIndex
      ensures AddBytesSat(aa, bb)[i] == AddSatBytes(aa, bb)[i]
    {
      SaturatingAdd16(aa[i], bb[i]);
    }
  }

  lemma SaturatingAdd16(p: Byte, q: Byte)
    ensures AddSat16(p, q) == AddSat(p, q)
  {
  }

  /** For a mask of 0/1 lanes, such as the one the tests use, selecting by
      low bit agrees with `selectByLowBits`, which tests the whole mask byte
      against zero. */
  lemma SelectByLowBitMatches(n: Word, m: Word, d: Word)
    requires IsBitWord(d)
    ensures Shuffle.SelectByLowBit(n, m, d) == FromBytes(SelectByLowBits(ToBytes(n), ToBytes(m), ToBytes(d)))
  {
    Shuffle.SelectByLowBitLanes(n, m, d);
    assert forall k: LaneIndex ::
      Shuffle.SelectByLowBit(n, m, d)[k] == FromBytes(SelectByLowBits(ToBytes(n), ToBytes(m), ToBytes(d)))[k];
  }

  /** The mask of the tests' sweep has 0/1 lanes. */
  lemma SweepMaskIsBitWord()
    ensures IsBitWord(FromBits(0x01_00_01_01_00_00_01_00))
  {
  }

  /** Bit i of the gathered byte is the low bit of lane i, whichever way the
      lanes are numbered. */
  lemma GatherMatchesByteFromLowBits(v: Word)
    ensures Utils.GatherLowBits(v) == ByteFromLowBits(ToBytes(v))
  {
  }

  /** Extracting the low bits of `n & LowBits` agrees with `byteFromLowBits`
      on the big-endian bytes of the same word. */
  lemma ExtractLowBitsMatches(n: Word)
    ensures Utils.ExtractLowBits(And(n, Utils.LowBits)) == ByteFromLowBits(ToBytes(And(n, Utils.LowBits)))
  {
    var v := And(n, Utils.LowBits);
    assert Utils.LowBits == Fill(1) by { RepeatedLiterals(); }
    assert IsBitWord(v);
    Utils.ExtractLowBitsGathers(v);
    GatherMatchesByteFromLowBits(v);
  }

  // ---------------------------------------------------------------------------
  // Vectors from the repository's tests

  /** Comparing 0xFF00 with a broadcast 0 flags every lane but lane 1. */
  lemma EqualityVector()
    ensures Logic.HighBitWhereEqual(FromBits(0xFF00), Utils.Dupe(0)) == FromBits(0x8080_8080_8080_0080)
  {
    Utils.DupeLanes(0);
    Logic.HighBitWhereEqualLanes(FromBits(0xFF00), Utils.Dupe(0));
  }

  /** 0xFF0FFF + 0x01F000 lane by lane is 0x00FFFF: the 0xFF + 0x01 in lane 2
      wraps to 0 without carrying into lane 3. */
  lemma WrappingAddVector()
    ensures Math.AddBytesWithWrapping(FromBits(0xFF_0F_FF), FromBits(0x01_F0_00)) == FromBits(0x00_FF_FF)
  {
    Math.AddBytesWithWrappingLanes(FromBits(0xFF_0F_FF), FromBits(0x01_F0_00));
  }

  /** The mean of 0x01 and 0xFF is 0x80, and of 0xFD and 0xFF is 0xFE. */
  lemma AverageVector(a: Word, b: Word)
    requires a == FromBits(0x01_10_40_FF) && b == FromBits(0xFF_30_80_FD)
    ensures Math.AverageBytes(a, b) == FromBits(0x80_20_60_FE)
  {
    assert a == [0xFF, 0x40, 0x10, 0x01, 0, 0, 0, 0];
    assert b == [0xFD, 0x80, 0x30, 0xFF, 0, 0, 0, 0];
    assert FromBits(0x80_20_60_FE) == [0xFE, 0x60, 0x20, 0x80, 0, 0, 0, 0];
    Math.AverageBytesLanes(a, b);
  }
}
