/** The per-byte bit operations of shuffle.go: nibble swap, bit reversal and
    population count inside every lane, and the select driven by a word of
    0/1 lanes. */
module Shuffle {
  import opened Words
  import opened LaneFacts
  import opened ByteBits

  // ---------------------------------------------------------------------------
  // SwapByteHalves

  function SwapByteHalves(v: Word): Word
  {
    var lo := And(v, FromBits(0x0F0F_0F0F_0F0F_0F0F));
    var hi := And(v, FromBits(0xF0F0_F0F0_F0F0_F0F0));
    Or(ShiftLeft(lo, 4), ShiftRight(hi, 4))
  }

  /** The nibble swap of one byte, as the reference test writes it. */
  function SwapNibbles(b: Byte): Byte
  {
    ((b & 0x0F) << 4) | ((b & 0xF0) >> 4)
  }

  lemma SwapByteHalvesLane(v: Word, k: LaneIndex)
    ensures SwapByteHalves(v)[k] == SwapNibbles(v[k])
  {
    RepeatedLiterals();
    var lo, hi := And(v, Fill(0x0F)), And(v, Fill(0xF0));
    ShiftLeftLane(lo, 4, k);
    ShiftRightLane(hi, 4, k);
    if 0 < k {
      assert ByteShr(lo[k - 1], 4) == 0;
    }
    if k < 7 {
      assert ByteShl(hi[k + 1], 4) == 0;
    }
  }

  /** Lane k of `SwapByteHalves(v)` is v_k with its two nibbles exchanged:
      no bit crosses into a neighbouring lane. */
  lemma SwapByteHalvesLanes(v: Word)
    ensures forall k: LaneIndex :: SwapByteHalves(v)[k] == SwapNibbles(v[k])
  {
    forall k: LaneIndex
      ensures SwapByteHalves(v)[k] == SwapNibbles(v[k])
    {
      SwapByteHalvesLane(v, k);
    }
  }

  /** Swapping the nibbles twice restores every lane. */
  lemma SwapByteHalvesInvolution(v: Word)
    ensures SwapByteHalves(SwapByteHalves(v)) == v
  {
    var w := SwapByteHalves(v);
    SwapByteHalvesLanes(v);
    SwapByteHalvesLanes(w);
    forall k: LaneIndex
      ensures SwapByteHalves(w)[k] == v[k]
    {
      SwapNibblesTwice(v[k]);
    }
  }

  lemma SwapNibblesTwice(b: Byte)
    ensures SwapNibbles(SwapNibbles(b)) == b
  {
  }

  // ---------------------------------------------------------------------------
  // ReverseEachByte

  /** One step of the reversal network: exchange neighbouring groups of r
      bits, the groups selected by the mask m. */
  function ExchangeGroups(x: Word, r: nat, m: Word): Word
    requires 0 < r < 8
  {
    Or(And(ShiftRight(x, r), m), ShiftLeft(And(x, m), r))
  }

  function ReverseEachByte(v: Word): Word
  {
    var x1 := ExchangeGroups(v, 1, FromBits(0x5555555555555555));
    var x2 := ExchangeGroups(x1, 2, FromBits(0x3333333333333333));
    ExchangeGroups(x2, 4, FromBits(0x0F0F0F0F0F0F0F0F))
  }

  lemma ExchangeBitsLane(x: Word, k: LaneIndex)
    ensures ExchangeGroups(x, 1, Fill(0x55))[k] == ((x[k] >> 1) & 0x55) | ((x[k] & 0x55) << 1)
  {
    ShiftRightLane(x, 1, k);
    ShiftLeftLane(And(x, Fill(0x55)), 1, k);
    if k < 7 {
      assert ByteShl(x[k + 1], 7) & 0x55 == 0;
    }
    if 0 < k {
      assert ByteShr(x[k - 1] & 0x55, 7) == 0;
    }
  }

  lemma ExchangePairsLane(x: Word, k: LaneIndex)
    ensures ExchangeGroups(x, 2, Fill(0x33))[k] == ((x[k] >> 2) & 0x33) | ((x[k] & 0x33) << 2)
  {
    ShiftRightLane(x, 2, k);
    ShiftLeftLane(And(x, Fill(0x33)), 2, k);
    if k < 7 {
      assert ByteShl(x[k + 1], 6) & 0x33 == 0;
    }
    if 0 < k {
      assert ByteShr(x[k - 1] & 0x33, 6) == 0;
    }
  }

  lemma ExchangeNibblesLane(x: Word, k: LaneIndex)
    ensures ExchangeGroups(x, 4, Fill(0x0F))[k] == ((x[k] >> 4) & 0x0F) | ((x[k] & 0x0F) << 4)
  {
    ShiftRightLane(x, 4, k);
    ShiftLeftLane(And(x, Fill(0x0F)), 4, k);
    if k < 7 {
      assert ByteShl(x[k + 1], 4) & 0x0F == 0;
    }
    if 0 < k {
      assert ByteShr(x[k - 1] & 0x0F, 4) == 0;
    }
  }

  /** The three exchange steps on one byte reverse its bits. */
  lemma ReverseByte(b: Byte)
    ensures var b1 := ((b >> 1) & 0x55) | ((b & 0x55) << 1);
            var b2 := ((b1 >> 2) & 0x33) | ((b1 & 0x33) << 2);
            ((b2 >> 4) & 0x0F) | ((b2 & 0x0F) << 4) == Reverse8(b)
  {
  }

  lemma ReverseEachByteLane(v: Word, k: LaneIndex)
    ensures ReverseEachByte(v)[k] == Reverse8(v[k])
  {
    RepeatedLiterals();
    var x1 := ExchangeGroups(v, 1, Fill(0x55));
    var x2 := ExchangeGroups(x1, 2, Fill(0x33));
    ExchangeBitsLane(v, k);
    ExchangePairsLane(x1, k);
    ExchangeNibblesLane(x2, k);
    ReverseByte(v[k]);
  }

  /** Lane k of `ReverseEachByte(v)` is v_k with its bits in reverse order;
      the order of the lanes is unchanged. */
  lemma ReverseEachByteLanes(v: Word)
    ensures forall k: LaneIndex :: ReverseEachByte(v)[k] == Reverse8(v[k])
  {
    forall k: LaneIndex
      ensures ReverseEachByte(v)[k] == Reverse8(v[k])
    {
      ReverseEachByteLane(v, k);
    }
  }

  /** Reversing the bits of every lane twice restores the word. */
  lemma ReverseEachByteInvolution(v: Word)
    ensures ReverseEachByte(ReverseEachByte(v)) == v
  {
    var w := ReverseEachByte(v);
    ReverseEachByteLanes(v);
    ReverseEachByteLanes(w);
    forall k: LaneIndex
      ensures ReverseEachByte(w)[k] == v[k]
    {
      Reverse8Bits(v[k], 0);
    }
  }

  // ---------------------------------------------------------------------------
  // SelectByLowBit

  function SelectByLowBit(a: Word, b: Word, mask: Word): Word
  {
    var byteMask := Mul(mask, FromBits(0xFF));
    Or(And(a, byteMask), AndNot(b, byteMask))
  }

  /** Where every lane of the mask is 0 or 1, lane k of the result is a_k
      where the mask lane is 1 and b_k where it is 0. */
  lemma SelectByLowBitLanes(a: Word, b: Word, mask: Word)
    requires IsBitWord(mask)
    ensures forall k: LaneIndex :: SelectByLowBit(a, b, mask)[k] == if mask[k] == 1 then a[k] else b[k]
  {
    SpreadBits(mask);
  }

  /** The zero mask selects b. */
  lemma SelectByLowBitNone(a: Word, b: Word, zero: Word)
    requires forall k: LaneIndex :: zero[k] == 0
    ensures SelectByLowBit(a, b, zero) == b
  {
    SelectByLowBitLanes(a, b, zero);
    assert forall k: LaneIndex :: SelectByLowBit(a, b, zero)[k] == b[k];
  }

  /** The mask `LowBits` selects a. */
  lemma SelectByLowBitAll(a: Word, b: Word)
    ensures SelectByLowBit(a, b, FromBits(0x0101_0101_0101_0101)) == a
  {
    RepeatedLiterals();
    SelectByLowBitLanes(a, b, Fill(1));
    assert forall k: LaneIndex :: SelectByLowBit(a, b, Fill(1))[k] == a[k];
  }

  /** A mask lane other than 0 or 1 does not select either input: with the
      value 2 in lane 0, `2 * 0xFF == 0x1FE` blends a and b in lane 0 and
      carries into lane 1, whose mask lane is 0. */
  lemma SelectByLowBitNeedsBitLanes()
    ensures SelectByLowBit(Fill(0xFF), Fill(0), FromByte(2))[0] == 0xFE
    ensures SelectByLowBit(Fill(0xFF), Fill(0), FromByte(2))[1] == 0x01
  {
    var m := FromByte(2);
    LiteralFF();
    MulByByte(m, 0xFF);
    ProductBound(2, 255);
    assert MulCarryInto(m, 0xFF, 1) == 1;
    assert MulByte(m, 0xFF)[0] == 0xFE;
    assert MulByte(m, 0xFF)[1] == 0x01;
  }

  // ---------------------------------------------------------------------------
  // CountOnesPerByte

  function CountOnesPerByte(v: Word): Word
  {
    var m1 := Sub(v, And(ShiftRight(v, 1), FromBits(0x5555_5555_5555_5555)));
    var m2 := Add(And(m1, FromBits(0x3333_3333_3333_3333)),
                  And(ShiftRight(m1, 2), FromBits(0x3333_3333_3333_3333)));
    And(Add(m2, ShiftRight(m2, 4)), FromBits(0x0F0F_0F0F_0F0F_0F0F))
  }

  /** Each two-bit field of r holds the number of set bits of the same field
      of p. */
  predicate PairsCounted(p: Byte, r: Byte)
  {
    && r & 3 == (p & 1) + ((p >> 1) & 1)
    && (r >> 2) & 3 == ((p >> 2) & 1) + ((p >> 3) & 1)
    && (r >> 4) & 3 == ((p >> 4) & 1) + ((p >> 5) & 1)
    && r >> 6 == ((p >> 6) & 1) + (p >> 7)
  }

  /** Each nibble of r holds the sum of the two two-bit fields of the same
      nibble of p. */
  predicate NibblesSummed(p: Byte, r: Byte)
  {
    && r & 0x0F == (p & 3) + ((p >> 2) & 3)
    && r >> 4 == ((p >> 4) & 3) + (p >> 6)
  }

  /** Each two-bit field of the byte replaced by the number of its set bits. */
  function PairCounts(p: Byte): (r: Byte)
    ensures PairsCounted(p, r)
  {
    p - ((p >> 1) & 0x55)
  }

  /** Each nibble replaced by the sum of its two two-bit fields: applied to
      pair counts, the number of set bits of the nibble. */
  function NibbleCounts(p: Byte): (r: Byte)
    ensures NibblesSummed(p, r)
  {
    (p & 0x33) + ((p >> 2) & 0x33)
  }

  /** The two nibble counts added into the low nibble: for nibbles of at most
      4 (nibble counts), exactly their sum. */
  function FoldNibbles(p: Byte): (r: Byte)
    ensures r <= 0x0F
    ensures p & 0x0F <= 4 && p >> 4 <= 4 ==> r == (p & 0x0F) + (p >> 4)
  {
    (p + (p >> 4)) & 0x0F
  }

  lemma PairCountsNoBorrow(p: Byte)
    ensures (p >> 1) & 0x55 <= p
  {
  }

  lemma NibbleCountsNoCarry(p: Byte)
    ensures (p >> 2) & 0x33 <= 0xFF - (p & 0x33)
  {
  }

  /** Both nibbles of the per-nibble counts are at most 4. */
  lemma NibbleCountsBound(p: Byte)
    ensures NibbleCounts(PairCounts(p)) & 0x0F <= 4
    ensures NibbleCounts(PairCounts(p)) >> 4 <= 4
  {
  }

  /** Adding `n >> 4`, which brings in the low nibble of the next lane at the
      top, never carries out of the lane and leaves the low nibble as if
      nothing had been brought in. */
  lemma FoldNibblesLane(n: Byte, next: Byte)
    requires n & 0x0F <= 4 && n >> 4 <= 4 && next & 0x0F <= 4
    ensures (n >> 4) | (next << 4) <= 0xFF - n
    ensures (n + ((n >> 4) | (next << 4))) & 0x0F == FoldNibbles(n)
  {
  }

  /** The three steps count the set bits of a byte. */
  lemma CountOnesByte(p: Byte)
    ensures OnesCount(p) <= 8
    ensures FoldNibbles(NibbleCounts(PairCounts(p))) == SmallByte(OnesCount(p))
  {
    OnesCountAsByte(p);
  }

  lemma PairCountsLane(v: Word, k: LaneIndex)
    requires forall j: LaneIndex :: And(ShiftRight(v, 1), Fill(0x55))[j] <= v[j]
    ensures Sub(v, And(ShiftRight(v, 1), Fill(0x55)))[k] == PairCounts(v[k])
  {
    var s1 := And(ShiftRight(v, 1), Fill(0x55));
    SubWithoutBorrow(v, s1);
    ShiftRightLane(v, 1, k);
    if k < 7 {
      assert ByteShl(v[k + 1], 7) & 0x55 == 0;
    }
    assert s1[k] == (v[k] >> 1) & 0x55;
  }

  /** First step: every two-bit field holds the count of its set bits. No
      lane borrows, because `(p >> 1) & 0x55` never exceeds p. */
  lemma PairCountsLanes(v: Word)
    ensures forall k: LaneIndex :: Sub(v, And(ShiftRight(v, 1), Fill(0x55)))[k] == PairCounts(v[k])
    ensures forall k: LaneIndex :: PairsCounted(v[k], Sub(v, And(ShiftRight(v, 1), Fill(0x55)))[k])
  {
    var s1 := And(ShiftRight(v, 1), Fill(0x55));
    forall j: LaneIndex
      ensures s1[j] <= v[j]
    {
      ShiftRightLane(v, 1, j);
      if j < 7 {
        assert ByteShl(v[j + 1], 7) & 0x55 == 0;
      }
      PairCountsNoBorrow(v[j]);
    }
    forall k: LaneIndex
      ensures Sub(v, s1)[k] == PairCounts(v[k])
    {
      PairCountsLane(v, k);
    }
  }

  lemma NibbleCountsLane(m: Word, k: LaneIndex)
    requires forall j: LaneIndex :: And(ShiftRight(m, 2), Fill(0x33))[j] <= 0xFF - And(m, Fill(0x33))[j]
    ensures Add(And(m, Fill(0x33)), And(ShiftRight(m, 2), Fill(0x33)))[k] == NibbleCounts(m[k])
  {
    var lo, hi := And(m, Fill(0x33)), And(ShiftRight(m, 2), Fill(0x33));
    AddWithoutCarry(lo, hi);
    ShiftRightLane(m, 2, k);
    if k < 7 {
      assert ByteShl(m[k + 1], 6) & 0x33 == 0;
    }
    assert hi[k] == (m[k] >> 2) & 0x33;
  }

  /** Second step: every nibble holds the count of its set bits. The two
      halves added are at most 0x33 each, so no lane carries. */
  lemma NibbleCountsLanes(m: Word)
    ensures forall k: LaneIndex ::
      Add(And(m, Fill(0x33)), And(ShiftRight(m, 2), Fill(0x33)))[k] == NibbleCounts(m[k])
    ensures forall k: LaneIndex ::
      NibblesSummed(m[k], Add(And(m, Fill(0x33)), And(ShiftRight(m, 2), Fill(0x33)))[k])
  {
    var lo, hi := And(m, Fill(0x33)), And(ShiftRight(m, 2), Fill(0x33));
    forall j: LaneIndex
      ensures hi[j] <= 0xFF - lo[j]
    {
      ShiftRightLane(m, 2, j);
      if j < 7 {
        assert ByteShl(m[j + 1], 6) & 0x33 == 0;
      }
      NibbleCountsNoCarry(m[j]);
    }
    forall k: LaneIndex
      ensures Add(lo, hi)[k] == NibbleCounts(m[k])
    {
      NibbleCountsLane(m, k);
    }
  }

  /** Whether both nibbles of every lane are at most 4. */
  predicate SmallNibbles(n: Word)
  {
    forall j: LaneIndex :: n[j] & 0x0F <= 4 && n[j] >> 4 <= 4
  }

  lemma FoldNibblesNoCarry(n: Word, j: LaneIndex)
    requires SmallNibbles(n)
    ensures ShiftRight(n, 4)[j] <= 0xFF - n[j]
  {
    ShiftRightLane(n, 4, j);
    if j < 7 {
      FoldNibblesLane(n[j], n[j + 1]);
    } else {
      FoldNibblesLane(n[j], 0);
    }
  }

  lemma FoldNibblesWordLane(n: Word, k: LaneIndex)
    requires SmallNibbles(n)
    ensures And(Add(n, ShiftRight(n, 4)), Fill(0x0F))[k] == FoldNibbles(n[k])
  {
    forall j: LaneIndex
      ensures ShiftRight(n, 4)[j] <= 0xFF - n[j]
    {
      FoldNibblesNoCarry(n, j);
    }
    AddWithoutCarry(n, ShiftRight(n, 4));
    ShiftRightLane(n, 4, k);
    if k < 7 {
      FoldNibblesLane(n[k], n[k + 1]);
    } else {
      FoldNibblesLane(n[k], 0);
    }
  }

  /** Third step: the high nibble count is added into the low nibble. The
      shift brings the next lane's low nibble into the top of each lane, but
      with nibbles of at most 4 the sum never carries out of the lane and
      the mask drops what was brought in. */
  lemma FoldNibblesLanes(n: Word)
    requires SmallNibbles(n)
    ensures forall k: LaneIndex :: And(Add(n, ShiftRight(n, 4)), Fill(0x0F))[k] == FoldNibbles(n[k])
    ensures forall k: LaneIndex :: And(Add(n, ShiftRight(n, 4)), Fill(0x0F))[k] == (n[k] & 0x0F) + (n[k] >> 4)
  {
    forall k: LaneIndex
      ensures And(Add(n, ShiftRight(n, 4)), Fill(0x0F))[k] == FoldNibbles(n[k])
    {
      FoldNibblesWordLane(n, k);
    }
  }

  /** Lane k of `CountOnesPerByte(v)` is the number of set bits of v_k, so
      every lane is at most 8. */
  lemma CountOnesPerByteLanes(v: Word)
    ensures forall k: LaneIndex :: OnesCount(v[k]) <= 8 && CountOnesPerByte(v)[k] == SmallByte(OnesCount(v[k]))
  {
    RepeatedLiterals();
    var m1 := Sub(v, And(ShiftRight(v, 1), Fill(0x55)));
    var m2 := Add(And(m1, Fill(0x33)), And(ShiftRight(m1, 2), Fill(0x33)));
    PairCountsLanes(v);
    NibbleCountsLanes(m1);
    forall j: LaneIndex
      ensures m2[j] & 0x0F <= 4 && m2[j] >> 4 <= 4
    {
      NibbleCountsBound(v[j]);
    }
    FoldNibblesLanes(m2);
    forall k: LaneIndex
      ensures OnesCount(v[k]) <= 8 && CountOnesPerByte(v)[k] == SmallByte(OnesCount(v[k]))
    {
      CountOnesByte(v[k]);
    }
  }
}
