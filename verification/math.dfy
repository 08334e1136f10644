/** The lane arithmetic of math.go: wrapping and saturating addition and
    subtraction, absolute difference, minimum, maximum and average of the
    eight byte pairs of two words. */
module Math {
  import opened Words
  import opened LaneFacts
  import opened Logic

  /** Declared in math.go but used by none of its operations. */
  const mEven: Word := FromBits(0x00FF_00FF_00FF_00FF)
  const mOdd: Word := FromBits(0xFF00_FF00_FF00_FF00)

  /** Every bit of every lane except the high bit. */
  const laneNotHigh: Word := FromBits(0x7F7F_7F7F_7F7F_7F7F)

  lemma LaneNotHighLanes()
    ensures forall k: LaneIndex :: laneNotHigh[k] == 0x7F
  {
  }

  function SubtractBytesWithWrapping(a: Word, b: Word): Word
  {
    Xor(Sub(Or(a, HighBits), AndNot(b, HighBits)), And(Xor(a, Not(b)), HighBits))
  }

  /** `a - b` computed with the high bits forced apart, then the true high
      bit restored: the high bit of `p - q` is the high bit of
      `(p | 0x80) - (q & 0x7F)` flipped whenever p and q agree in it. */
  lemma SubWrapByte(p: Byte, q: Byte)
    ensures ((p | 0x80) - (q & 0x7F)) ^ ((p ^ !q) & 0x80) == p - q
  {
  }

  lemma SubtractBytesWithWrappingLane(a: Word, b: Word, k: LaneIndex)
    ensures SubtractBytesWithWrapping(a, b)[k] == a[k] - b[k]
  {
    HighBitsLanes();
    BiasedSubtraction(a, b);
    SubWrapByte(a[k], b[k]);
  }

  /** Lane k of `SubtractBytesWithWrapping(a, b)` is `(a_k - b_k) mod 256`. */
  lemma SubtractBytesWithWrappingLanes(a: Word, b: Word)
    ensures forall k: LaneIndex :: SubtractBytesWithWrapping(a, b)[k] == a[k] - b[k]
  {
    forall k: LaneIndex
      ensures SubtractBytesWithWrapping(a, b)[k] == a[k] - b[k]
    {
      SubtractBytesWithWrappingLane(a, b, k);
    }
  }

  /** The high bit of `(^p & q) | ((^p | q) & d)` is the borrow out of
      `d = p - q - c`: the classic borrow-out formula of a subtractor. */
  lemma BorrowByte(p: Byte, q: Byte, c: bool)
    ensures ((!p & q) | ((!p | q) & ByteSub(p, q, c))) & 0x80
            == if BorrowOut(p, q, c) then 0x80 else 0
  {
    if c {
      BorrowByteIn(p, q);
    } else {
      BorrowByteNoIn(p, q);
    }
  }

  lemma BorrowByteNoIn(p: Byte, q: Byte)
    ensures ((!p & q) | ((!p | q) & ByteSub(p, q, false))) & 0x80
            == if BorrowOut(p, q, false) then 0x80 else 0
  {
    assert ByteSub(p, q, false) == p - q;
  }

  lemma BorrowByteIn(p: Byte, q: Byte)
    ensures ((!p & q) | ((!p | q) & ByteSub(p, q, true))) & 0x80
            == if BorrowOut(p, q, true) then 0x80 else 0
  {
    assert ByteSub(p, q, true) == p - q - 1;
  }

  /** The borrow flag word of a byte-wise difference d of a and b. */
  function BorrowFlags(a: Word, b: Word, d: Word): Word
  {
    And(Or(And(Not(a), b), And(Or(Not(a), b), d)), HighBits)
  }

  function SubtractBytesWithMinimum(a: Word, b: Word): Word
  {
    var diff := SubtractBytesWithWrapping(a, b);
    var bo := BorrowFlags(a, b, diff);
    AndNot(diff, Mul(ShiftRight(bo, 7), FromBits(0xFF)))
  }

  lemma SubtractionBorrowFlags(a: Word, b: Word)
    ensures IsFlagWord(BorrowFlags(a, b, SubtractBytesWithWrapping(a, b)))
    ensures forall k: LaneIndex ::
      BorrowFlags(a, b, SubtractBytesWithWrapping(a, b))[k] == if a[k] < b[k] then 0x80 else 0
  {
    var diff := SubtractBytesWithWrapping(a, b);
    HighBitsLanes();
    SubtractBytesWithWrappingLanes(a, b);
    forall k: LaneIndex
      ensures BorrowFlags(a, b, diff)[k] == if a[k] < b[k] then 0x80 else 0
    {
      BorrowByte(a[k], b[k], false);
    }
  }

  /** Lane k of `SubtractBytesWithMinimum(a, b)` is `a_k - b_k` when
      `b_k <= a_k` and 0 otherwise. */
  lemma SubtractBytesWithMinimumLanes(a: Word, b: Word)
    ensures forall k: LaneIndex ::
      SubtractBytesWithMinimum(a, b)[k] == if b[k] <= a[k] then a[k] - b[k] else 0
  {
    var diff := SubtractBytesWithWrapping(a, b);
    var bo := BorrowFlags(a, b, diff);
    var mask := Mul(ShiftRight(bo, 7), FromBits(0xFF));
    SubtractBytesWithWrappingLanes(a, b);
    SubtractionBorrowFlags(a, b);
    SpreadFlags(bo);
    forall k: LaneIndex
      ensures SubtractBytesWithMinimum(a, b)[k] == if b[k] <= a[k] then a[k] - b[k] else 0
    {
      assert SubtractBytesWithMinimum(a, b)[k] == diff[k] & !mask[k];
    }
  }

  function AddBytesWithWrapping(a: Word, b: Word): Word
  {
    var sum := Add(And(a, laneNotHigh), And(b, laneNotHigh));
    Xor(sum, And(Xor(a, b), HighBits))
  }

  /** Adding the low seven bits cannot carry out of the lane; the high bit of
      the sum is then the parity of the two high bits and that carry. */
  lemma AddWrapByte(p: Byte, q: Byte)
    ensures q & 0x7F <= 0xFF - (p & 0x7F)
    ensures ((p & 0x7F) + (q & 0x7F)) ^ ((p ^ q) & 0x80) == p + q
  {
  }

  lemma AddBytesWithWrappingLane(a: Word, b: Word, k: LaneIndex)
    ensures AddBytesWithWrapping(a, b)[k] == a[k] + b[k]
  {
    HighBitsLanes();
    LaneNotHighLanes();
    var x, y := And(a, laneNotHigh), And(b, laneNotHigh);
    forall j: LaneIndex
      ensures y[j] <= 0xFF - x[j]
    {
      AddWrapByte(a[j], b[j]);
    }
    AddWithoutCarry(x, y);
    AddWrapByte(a[k], b[k]);
  }

  /** Lane k of `AddBytesWithWrapping(a, b)` is `(a_k + b_k) mod 256`. */
  lemma AddBytesWithWrappingLanes(a: Word, b: Word)
    ensures forall k: LaneIndex :: AddBytesWithWrapping(a, b)[k] == a[k] + b[k]
  {
    forall k: LaneIndex
      ensures AddBytesWithWrapping(a, b)[k] == a[k] + b[k]
    {
      AddBytesWithWrappingLane(a, b, k);
    }
  }

  /** The high bit of `(p & q) | ((p | q) & ^(p + q))` is the carry out of
      `p + q`: the classic carry-out formula of an adder. */
  lemma CarryByte(p: Byte, q: Byte)
    ensures ((p & q) | ((p | q) & !(p + q))) & 0x80 == if q > 0xFF - p then 0x80 else 0
  {
  }

  /** The carry flag word of the byte-wise sum s of a and b. */
  function CarryFlags(a: Word, b: Word, s: Word): Word
  {
    And(Or(And(a, b), And(Or(a, b), Not(s))), HighBits)
  }

  function AddBytesWithMaximum(a: Word, b: Word): Word
  {
    var sum := AddBytesWithWrapping(a, b);
    var carry := CarryFlags(a, b, sum);
    Or(sum, Mul(ShiftRight(carry, 7), FromBits(0xFF)))
  }

  lemma AdditionCarryFlags(a: Word, b: Word)
    ensures IsFlagWord(CarryFlags(a, b, AddBytesWithWrapping(a, b)))
    ensures forall k: LaneIndex ::
      CarryFlags(a, b, AddBytesWithWrapping(a, b))[k] == if b[k] > 0xFF - a[k] then 0x80 else 0
  {
    var sum := AddBytesWithWrapping(a, b);
    HighBitsLanes();
    AddBytesWithWrappingLanes(a, b);
    forall k: LaneIndex
      ensures CarryFlags(a, b, sum)[k] == if b[k] > 0xFF - a[k] then 0x80 else 0
    {
      CarryByte(a[k], b[k]);
    }
  }

  /** Lane k of `AddBytesWithMaximum(a, b)` is `a_k + b_k` when that fits in a
      byte and 0xFF otherwise. */
  lemma AddBytesWithMaximumLanes(a: Word, b: Word)
    ensures forall k: LaneIndex ::
      AddBytesWithMaximum(a, b)[k] == if b[k] > 0xFF - a[k] then 0xFF else a[k] + b[k]
  {
    var sum := AddBytesWithWrapping(a, b);
    var carry := CarryFlags(a, b, sum);
    var mask := Mul(ShiftRight(carry, 7), FromBits(0xFF));
    AddBytesWithWrappingLanes(a, b);
    AdditionCarryFlags(a, b);
    SpreadFlags(carry);
    forall k: LaneIndex
      ensures AddBytesWithMaximum(a, b)[k] == if b[k] > 0xFF - a[k] then 0xFF else a[k] + b[k]
    {
      assert AddBytesWithMaximum(a, b)[k] == sum[k] | mask[k];
    }
  }

  /** The selection mask of AbsoluteDifferenceBetweenBytes,
      SelectSmallerBytes and SelectLargerBytes: the borrow flags of the full
      64-bit `a - b`, widened to whole lanes. */
  function BorrowMask(a: Word, b: Word): Word
  {
    var d := Sub(a, b);
    var borrow := BorrowFlags(a, b, d);
    Mul(ShiftRight(borrow, 7), FromBits(0xFF))
  }

  lemma BorrowMaskLane(a: Word, b: Word, k: LaneIndex)
    ensures BorrowFlags(a, b, Sub(a, b))[k]
            == if BorrowOut(a[k], b[k], BorrowInto(a, b, k)) then 0x80 else 0
  {
    var p, q, c := a[k], b[k], BorrowInto(a, b, k);
    var d := Sub(a, b)[k];
    assert d == SubLane(a, b, k) == ByteSub(p, q, c);
    HighBitsLanes();
    assert BorrowFlags(a, b, Sub(a, b))[k] == ((!p & q) | ((!p | q) & d)) & 0x80;
    BorrowByte(p, q, c);
  }

  /** Lane k of the mask is 0xFF where the full-width subtraction borrows out
      of lane k and 0x00 elsewhere. That borrow depends on the lanes below
      when `a_k == b_k`, so the mask is only determined by a_k and b_k where
      they differ: 0xFF where `a_k < b_k`, 0x00 where `a_k > b_k`. */
  lemma BorrowMaskLanes(a: Word, b: Word)
    ensures forall k: LaneIndex ::
      BorrowMask(a, b)[k] == if BorrowOut(a[k], b[k], BorrowInto(a, b, k)) then 0xFF else 0
    ensures forall k: LaneIndex :: a[k] < b[k] ==> BorrowMask(a, b)[k] == 0xFF
    ensures forall k: LaneIndex :: a[k] > b[k] ==> BorrowMask(a, b)[k] == 0
  {
    var borrow := BorrowFlags(a, b, Sub(a, b));
    forall k: LaneIndex
      ensures borrow[k] == if BorrowOut(a[k], b[k], BorrowInto(a, b, k)) then 0x80 else 0
    {
      BorrowMaskLane(a, b, k);
    }
    SpreadFlags(borrow);
  }

  /** The mask can be full in lanes whose operands are equal: for a = 0 and
      b = 1 the borrow out of lane 0 ripples through every lane above it,
      although lanes 1 to 7 of a and b agree. */
  lemma BorrowMaskSpurious(a: Word, b: Word)
    requires forall k: LaneIndex :: a[k] == 0
    requires b[0] == 1 && forall k: LaneIndex :: 0 < k ==> b[k] == 0
    ensures forall k: LaneIndex :: BorrowMask(a, b)[k] == 0xFF
  {
    BorrowMaskLanes(a, b);
    assert BorrowInto(a, b, 1);
    assert BorrowInto(a, b, 2);
    assert BorrowInto(a, b, 3);
    assert BorrowInto(a, b, 4);
    assert BorrowInto(a, b, 5);
    assert BorrowInto(a, b, 6);
    assert BorrowInto(a, b, 7);
  }

  /** `(p & m) | (q &^ m)` picks p where the lane mask is full and q where it
      is empty. */
  lemma PickByte(p: Byte, q: Byte, m: Byte)
    requires m == 0 || m == 0xFF
    ensures (p & m) | (q & !m) == if m == 0xFF then p else q
    ensures (p & !m) | (q & m) == if m == 0xFF then q else p
  {
  }

  function AbsoluteDifferenceBetweenBytes(a: Word, b: Word): Word
  {
    var mask := BorrowMask(a, b);
    var n := Or(AndNot(a, mask), And(b, mask));
    var m := Or(And(a, mask), AndNot(b, mask));
    SubtractBytesWithWrapping(n, m)
  }

  /** Lane k of `AbsoluteDifferenceBetweenBytes(a, b)` is `|a_k - b_k|`: the
      two selections are the larger and the smaller lane. Where `a_k == b_k`
      the mask may be set by a borrow from the lanes below, but then both
      selections are the same byte and the difference is 0. */
  lemma AbsoluteDifferenceBetweenBytesLanes(a: Word, b: Word)
    ensures forall k: LaneIndex ::
      AbsoluteDifferenceBetweenBytes(a, b)[k] == if a[k] >= b[k] then a[k] - b[k] else b[k] - a[k]
  {
    var n, m := SelectLargerBytes(a, b), SelectSmallerBytes(a, b);
    assert AbsoluteDifferenceBetweenBytes(a, b) == SubtractBytesWithWrapping(n, m);
    SelectLargerBytesLanes(a, b);
    SelectSmallerBytesLanes(a, b);
    forall k: LaneIndex
      ensures AbsoluteDifferenceBetweenBytes(a, b)[k] == if a[k] >= b[k] then a[k] - b[k] else b[k] - a[k]
    {
      if a[k] < b[k] {
        DifferenceOfCopies(b, a, n, m, k);
      } else {
        DifferenceOfCopies(a, b, n, m, k);
      }
    }
  }

  /** The wrapping difference of two words whose lane k copies that of a
      and b is `a_k - b_k`. */
  lemma DifferenceOfCopies(a: Word, b: Word, n: Word, m: Word, k: LaneIndex)
    requires n[k] == a[k] && m[k] == b[k]
    ensures SubtractBytesWithWrapping(n, m)[k] == a[k] - b[k]
  {
    SubtractBytesWithWrappingLane(n, m, k);
  }

  function SelectSmallerBytes(a: Word, b: Word): Word
  {
    var mask := BorrowMask(a, b);
    Or(And(a, mask), AndNot(b, mask))
  }

  /** Lane k of `SelectSmallerBytes(a, b)` is `min(a_k, b_k)`. */
  lemma SelectSmallerBytesLanes(a: Word, b: Word)
    ensures forall k: LaneIndex :: SelectSmallerBytes(a, b)[k] == if a[k] < b[k] then a[k] else b[k]
  {
    var mask := BorrowMask(a, b);
    BorrowMaskLanes(a, b);
    forall k: LaneIndex
      ensures SelectSmallerBytes(a, b)[k] == if a[k] < b[k] then a[k] else b[k]
    {
      PickByte(a[k], b[k], mask[k]);
    }
  }

  function SelectLargerBytes(a: Word, b: Word): Word
  {
    var mask := BorrowMask(a, b);
    Or(AndNot(a, mask), And(b, mask))
  }

  /** Lane k of `SelectLargerBytes(a, b)` is `max(a_k, b_k)`. */
  lemma SelectLargerBytesLanes(a: Word, b: Word)
    ensures forall k: LaneIndex :: SelectLargerBytes(a, b)[k] == if a[k] < b[k] then b[k] else a[k]
  {
    var mask := BorrowMask(a, b);
    BorrowMaskLanes(a, b);
    forall k: LaneIndex
      ensures SelectLargerBytes(a, b)[k] == if a[k] < b[k] then b[k] else a[k]
    {
      PickByte(a[k], b[k], mask[k]);
    }
  }

  function AverageBytes(a: Word, b: Word): Word
  {
    var common := And(a, b);
    var diff := And(Xor(a, b), FromBits(0xFEFE_FEFE_FEFE_FEFE));
    Add(common, ShiftRight(diff, 1))
  }

  /** `p + q == 2 * (p & q) + (p ^ q)`, so halving the differing bits and
      adding the common ones gives the floor of the mean without overflow. */
  lemma AverageByte(p: Byte, q: Byte)
    ensures ((p ^ q) & 0xFE) >> 1 <= 0xFF - (p & q)
    ensures (p & q) + (((p ^ q) & 0xFE) >> 1) == ((p as bv16 + q as bv16) >> 1) as Byte
  {
  }

  /** The average formula passes nothing between lanes: the halved
      differing bits of each lane are even before the shift, so no bit
      crosses a lane boundary, and adding them to the common bits never
      carries. */
  lemma AverageBytesLocal(a: Word, b: Word)
    ensures forall k: LaneIndex ::
      AverageBytes(a, b)[k] == (a[k] & b[k]) + (((a[k] ^ b[k]) & 0xFE) >> 1)
  {
    var common := And(a, b);
    var fe := FromBits(0xFEFE_FEFE_FEFE_FEFE);
    assert forall j: LaneIndex :: fe[j] == 0xFE;
    var diff := And(Xor(a, b), fe);
    forall j: LaneIndex
      ensures diff[j] & 1 == 0
    {
      EvenLane(a[j] ^ b[j]);
    }
    HalveEvenLanes(diff);
    var half := ShiftRight(diff, 1);
    forall j: LaneIndex
      ensures half[j] <= 0xFF - common[j]
    {
      AverageByte(a[j], b[j]);
    }
    AddWithoutCarry(common, half);
  }

  /** Lane k of `AverageBytes(a, b)` is the floor of the mean of a_k and b_k,
      computed as in 16 bits so that the sum cannot overflow. */
  lemma AverageBytesLanes(a: Word, b: Word)
    ensures forall k: LaneIndex ::
      AverageBytes(a, b)[k] == ((a[k] as bv16 + b[k] as bv16) >> 1) as Byte
  {
    AverageBytesLocal(a, b);
    forall k: LaneIndex
      ensures AverageBytes(a, b)[k] == ((a[k] as bv16 + b[k] as bv16) >> 1) as Byte
    {
      AverageLane(a, b, k);
    }
  }

  lemma EvenLane(x: Byte)
    ensures (x & 0xFE) & 1 == 0
  {
  }

  lemma AverageLane(a: Word, b: Word, k: LaneIndex)
    ensures (a[k] & b[k]) + (((a[k] ^ b[k]) & 0xFE) >> 1) == ((a[k] as bv16 + b[k] as bv16) >> 1) as Byte
  {
    AverageByte(a[k], b[k]);
  }

  /** Averaging a word with itself gives it back, and the average does not
      depend on the order of the operands. */
  lemma AverageOfEqualAndSwapped(a: Word, b: Word)
    ensures AverageBytes(a, a) == a
    ensures AverageBytes(a, b) == AverageBytes(b, a)
  {
    AverageBytesLanes(a, a);
    AverageBytesLanes(a, b);
    AverageBytesLanes(b, a);
    forall k: LaneIndex
      ensures AverageBytes(a, a)[k] == a[k]
      ensures AverageBytes(a, b)[k] == AverageBytes(b, a)[k]
    {
      MeanOf16BitSum(a[k], b[k]);
    }
  }

  /** Every lane of the average lies between the two operand lanes. */
  lemma AverageIsBetween(a: Word, b: Word)
    ensures forall k: LaneIndex :: AverageBytes(a, b)[k] >= (if a[k] < b[k] then a[k] else b[k])
    ensures forall k: LaneIndex :: AverageBytes(a, b)[k] <= (if a[k] < b[k] then b[k] else a[k])
  {
    AverageBytesLanes(a, b);
    forall k: LaneIndex
      ensures (if a[k] < b[k] then a[k] else b[k]) <= AverageBytes(a, b)[k] <= (if a[k] < b[k] then b[k] else a[k])
    {
      MeanOf16BitSum(a[k], b[k]);
    }
  }

  /** The 16-bit mean of two bytes lies between them, is symmetric, and is p
      when both are p. */
  lemma MeanOf16BitSum(p: Byte, q: Byte)
    ensures var h := ((p as bv16 + q as bv16) >> 1) as Byte;
      (if p < q then p else q) <= h <= (if p < q then q else p)
    ensures ((p as bv16 + q as bv16) >> 1) as Byte == ((q as bv16 + p as bv16) >> 1) as Byte
    ensures ((p as bv16 + p as bv16) >> 1) as Byte == p
  {
  }
}
