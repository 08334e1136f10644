/** Facts about the word operators that the SWAR formulas rely on: when a
    subtraction or addition passes no borrow or carry between lanes, when a
    shift stays inside its lane, and how `(f >> 7) * 0xFF` widens a flag word
    into a byte mask. */
module LaneFacts {
  import opened Words

  /** Every lane is 0x00 or 0x80: the shape of a comparison result. */
  predicate IsFlagWord(f: Word)
  {
    forall k: LaneIndex :: f[k] == 0 || f[k] == 0x80
  }

  /** Every lane is 0 or 1. */
  predicate IsBitWord(m: Word)
  {
    forall k: LaneIndex :: m[k] == 0 || m[k] == 1
  }

  /** No lane of `x - y` borrows if no lane of y exceeds the lane of x. */
  lemma {:induction false} NoBorrow(x: Word, y: Word, k: LaneIndex)
    requires forall j: LaneIndex :: y[j] <= x[j]
    ensures !BorrowInto(x, y, k)
  {
    if k > 0 {
      NoBorrow(x, y, k - 1);
    }
  }

  /** Lane-wise subtraction when no lane of y exceeds the lane of x. */
  lemma SubWithoutBorrow(x: Word, y: Word)
    requires forall j: LaneIndex :: y[j] <= x[j]
    ensures forall k: LaneIndex :: Sub(x, y)[k] == x[k] - y[k]
  {
    forall k: LaneIndex
      ensures Sub(x, y)[k] == x[k] - y[k]
    {
      NoBorrow(x, y, k);
    }
  }

  /** No lane of `x + y` carries if every lane sum fits in a byte. */
  lemma {:induction false} NoCarry(x: Word, y: Word, k: LaneIndex)
    requires forall j: LaneIndex :: y[j] <= 0xFF - x[j]
    ensures !CarryInto(x, y, k)
  {
    if k > 0 {
      NoCarry(x, y, k - 1);
    }
  }

  /** Lane-wise addition when every lane sum fits in a byte. */
  lemma AddWithoutCarry(x: Word, y: Word)
    requires forall j: LaneIndex :: y[j] <= 0xFF - x[j]
    ensures forall k: LaneIndex :: Add(x, y)[k] == x[k] + y[k]
  {
    forall k: LaneIndex
      ensures Add(x, y)[k] == x[k] + y[k]
    {
      NoCarry(x, y, k);
    }
  }

  /** Adding the zero word changes nothing. */
  lemma AddZero(x: Word)
    ensures Add(x, Fill(0)) == x
    ensures Add(Fill(0), x) == x
  {
    AddWithoutCarry(x, Fill(0));
    AddWithoutCarry(Fill(0), x);
  }

  /** `f >> 7` turns a flag word into a word of 0/1 lanes. */
  lemma FlagShift(f: Word)
    requires IsFlagWord(f)
    ensures forall k: LaneIndex :: ShiftRight(f, 7)[k] == if f[k] == 0x80 then 1 else 0
  {
    assert 7 / 8 == 0 && 7 % 8 == 7;
    forall k: LaneIndex
      ensures ShiftRight(f, 7)[k] == if f[k] == 0x80 then 1 else 0
    {
      if k < 7 {
        assert ByteShl(f[k + 1], 1) == 0;
        assert ShiftRight(f, 7)[k] == ByteShr(f[k], 7) | ByteShl(f[k + 1], 1);
      } else {
        assert ShiftRight(f, 7)[k] == ByteShr(f[k], 7) | 0;
      }
    }
  }

  /** `x >> 1` stays inside each lane when every lane of x is even. */
  lemma HalveEvenLanes(x: Word)
    requires forall j: LaneIndex :: x[j] & 1 == 0
    ensures forall k: LaneIndex :: ShiftRight(x, 1)[k] == x[k] >> 1
  {
    assert 1 / 8 == 0 && 1 % 8 == 1;
    forall k: LaneIndex
      ensures ShiftRight(x, 1)[k] == x[k] >> 1
    {
      if k < 7 {
        assert ByteShl(x[k + 1], 7) == 0;
        assert ShiftRight(x, 1)[k] == ByteShr(x[k], 1) | ByteShl(x[k + 1], 7);
      } else {
        assert ShiftRight(x, 1)[k] == ByteShr(x[k], 1) | 0;
      }
    }
  }

  /** Multiplying a word of 0/1 lanes by 0xFF never carries. */
  lemma {:induction false} NoMulCarry(m: Word, k: LaneIndex)
    requires IsBitWord(m)
    ensures MulCarryInto(m, 0xFF, k) == 0
  {
    if k > 0 {
      NoMulCarry(m, k - 1);
    }
  }

  /** Multiplying by the zero byte never carries. */
  lemma {:induction false} NoMulCarryByZero(x: Word, k: LaneIndex)
    ensures MulCarryInto(x, 0, k) == 0
  {
    if k > 0 {
      NoMulCarryByZero(x, k - 1);
    }
  }

  lemma MulByteZeroLane(x: Word, k: LaneIndex)
    ensures MulByte(x, 0)[k] == 0
  {
    NoMulCarryByZero(x, k);
    assert x[k] as int * 0 + MulCarryInto(x, 0, k) == 0;
  }

  lemma MulByteZero(x: Word)
    ensures MulByte(x, 0) == Fill(0)
  {
    forall k: LaneIndex
      ensures MulByte(x, 0)[k] == 0
    {
      MulByteZeroLane(x, k);
    }
  }

  lemma ShiftLeftZero(n: nat)
    requires n < 64
    ensures ShiftLeft(Fill(0), n) == Fill(0)
  {
    forall k: LaneIndex
      ensures ShiftLeft(Fill(0), n)[k] == 0
    {
      assert ByteShl(0, n % 8) == 0;
      assert n % 8 > 0 ==> ByteShr(0, 8 - n % 8) == 0;
    }
  }

  lemma ShiftLeftNothing(x: Word)
    ensures ShiftLeft(x, 0) == x
  {
    forall k: LaneIndex
      ensures ShiftLeft(x, 0)[k] == x[k]
    {
      assert 0 / 8 == 0 && 0 % 8 == 0;
      assert ShiftLeft(x, 0)[k] == ByteShl(x[k], 0) | 0;
    }
  }

  /** A product with a one-lane multiplier is a single partial product. */
  lemma {:induction false} PartialProductsOfByte(x: Word, c: Byte, n: nat)
    requires 1 <= n <= 8
    ensures PartialProducts(x, FromByte(c), n) == MulByte(x, c)
  {
    var y := FromByte(c);
    if n == 1 {
      ShiftLeftNothing(MulByte(x, c));
      AddZero(MulByte(x, c));
    } else {
      PartialProductsOfByte(x, c, n - 1);
      MulByteZero(x);
      ShiftLeftZero(8 * (n - 1));
      AddZero(MulByte(x, c));
    }
  }

  /** `x * uint64(c)` is the single-byte product. */
  lemma MulByByte(x: Word, c: Byte)
    ensures Mul(x, FromByte(c)) == MulByte(x, c)
  {
    PartialProductsOfByte(x, c, 8);
  }

  /** The Go literal 0xFF is `uint64(0xFF)`. */
  lemma LiteralFF()
    ensures FromBits(0xFF) == FromByte(0xFF)
  {
  }

  /** `m * 0xFF` widens each 0/1 lane of m into 0xFF/0x00. */
  lemma SpreadBits(m: Word)
    requires IsBitWord(m)
    ensures forall k: LaneIndex :: Mul(m, FromBits(0xFF))[k] == if m[k] == 1 then 0xFF else 0
  {
    LiteralFF();
    MulByByte(m, 0xFF);
    forall k: LaneIndex
      ensures MulByte(m, 0xFF)[k] == if m[k] == 1 then 0xFF else 0
    {
      SpreadBit(m, k);
    }
  }

  lemma SpreadBit(m: Word, k: LaneIndex)
    requires IsBitWord(m)
    ensures MulByte(m, 0xFF)[k] == if m[k] == 1 then 0xFF else 0
  {
    NoMulCarry(m, k);
    var p := m[k];
    assert MulByte(m, 0xFF)[k] == ((p as int * 255 + 0) % 256) as Byte;
    if p == 1 {
      assert p as int == 1;
    } else {
      assert p as int == 0;
    }
  }

  /** `(f >> 7) * 0xFF` widens each flag lane of f into 0xFF/0x00. */
  lemma SpreadFlags(f: Word)
    requires IsFlagWord(f)
    ensures forall k: LaneIndex ::
      Mul(ShiftRight(f, 7), FromBits(0xFF))[k] == if f[k] == 0x80 then 0xFF else 0
  {
    FlagShift(f);
    SpreadBits(ShiftRight(f, 7));
  }

  // ---------------------------------------------------------------------------
  // Shifts whose bits stay inside their lane once masked

  /** The repeated-byte literals of the library, lane by lane. */
  lemma RepeatedLiterals()
    ensures FromBits(0x5555_5555_5555_5555) == Fill(0x55)
    ensures FromBits(0x3333_3333_3333_3333) == Fill(0x33)
    ensures FromBits(0x0F0F_0F0F_0F0F_0F0F) == Fill(0x0F)
    ensures FromBits(0xF0F0_F0F0_F0F0_F0F0) == Fill(0xF0)
    ensures FromBits(0x0101_0101_0101_0101) == Fill(0x01)
  {
    assert forall k: LaneIndex :: FromBits(0x5555_5555_5555_5555)[k] == 0x55;
    assert forall k: LaneIndex :: FromBits(0x3333_3333_3333_3333)[k] == 0x33;
    assert forall k: LaneIndex :: FromBits(0x0F0F_0F0F_0F0F_0F0F)[k] == 0x0F;
    assert forall k: LaneIndex :: FromBits(0xF0F0_F0F0_F0F0_F0F0)[k] == 0xF0;
    assert forall k: LaneIndex :: FromBits(0x0101_0101_0101_0101)[k] == 0x01;
  }

  /** Lane k of `x >> r` for 0 < r < 8: the high bits of lane k shifted
      down, and the low r bits of lane k + 1 brought in at the top. */
  lemma ShiftRightLane(x: Word, r: nat, k: LaneIndex)
    requires 0 < r < 8
    ensures ShiftRight(x, r)[k] == ByteShr(x[k], r) | (if k < 7 then ByteShl(x[k + 1], 8 - r) else 0)
  {
    assert r / 8 == 0 && r % 8 == r;
  }

  /** Lane k of `x << r` for 0 < r < 8: the low bits of lane k shifted up,
      and the high r bits of lane k - 1 brought in at the bottom. */
  lemma ShiftLeftLane(x: Word, r: nat, k: LaneIndex)
    requires 0 < r < 8
    ensures ShiftLeft(x, r)[k] == ByteShl(x[k], r) | (if 0 < k then ByteShr(x[k - 1], 8 - r) else 0)
  {
    assert r / 8 == 0 && r % 8 == r;
  }

  /** `x << 8q` moves every lane up by q lanes and fills with zeros. */
  lemma ShiftLeftLanes(x: Word, q: nat)
    requires q < 8
    ensures forall l: LaneIndex :: ShiftLeft(x, 8 * q)[l] == if q <= l then x[l - q] else 0
  {
    assert (8 * q) / 8 == q && (8 * q) % 8 == 0;
    forall l: LaneIndex
      ensures ShiftLeft(x, 8 * q)[l] == if q <= l then x[l - q] else 0
    {
      if q <= l {
        assert ShiftLeft(x, 8 * q)[l] == ByteShl(x[l - q], 0) | 0;
      } else {
        assert ShiftLeft(x, 8 * q)[l] == 0 | 0;
      }
    }
  }
}
