/** Reference meanings for a single byte, stated bit by bit: which bits are
    set, how many are set, and the byte with its bits in reverse order. The
    per-byte results of the lane operations are specified against these. */
module ByteBits {
  import opened Words

  /** Bit i of b; bit 0 is the least significant. */
  predicate Bit(b: Byte, i: nat)
    requires i < 8
  {
    ByteShr(b, i) & 1 == 1
  }

  /** The number of set bits among bits 0 .. n-1 of b. */
  function OnesBelow(b: Byte, n: nat): nat
    requires n <= 8
  {
    if n == 0 then 0 else OnesBelow(b, n - 1) + (if Bit(b, n - 1) then 1 else 0)
  }

  /** The number of set bits of b (Go's `bits.OnesCount8`). */
  function OnesCount(b: Byte): nat
  {
    OnesBelow(b, 8)
  }

  /** A count between 0 and 8 as a byte. */
  function SmallByte(n: nat): Byte
    requires n <= 8
  {
    match n
    case 0 => 0
    case 1 => 1
    case 2 => 2
    case 3 => 3
    case 4 => 4
    case 5 => 5
    case 6 => 6
    case 7 => 7
    case 8 => 8
  }

  /** The bits of b in reverse order (Go's `bits.Reverse8`): each bit is
      moved from position i to position 7 - i. */
  function Reverse8(b: Byte): Byte
  {
    ((b & 0x01) << 7) | ((b & 0x02) << 5) | ((b & 0x04) << 3) | ((b & 0x08) << 1) |
    ((b & 0x10) >> 1) | ((b & 0x20) >> 3) | ((b & 0x40) >> 5) | ((b & 0x80) >> 7)
  }

  /** Bit i of `Reverse8(b)` is bit 7 - i of b, and reversing twice gives b
      back. */
  lemma Reverse8Bits(b: Byte, i: nat)
    requires i < 8
    ensures Bit(Reverse8(b), i) == Bit(b, 7 - i)
    ensures Reverse8(Reverse8(b)) == b
  {
  }

  // ---------------------------------------------------------------------------
  // The count of set bits, as a byte

  /** The sum of bits 0 .. n-1 of b, added up in byte arithmetic. */
  function BitSumBelow(b: Byte, n: nat): Byte
    requires n <= 8
  {
    if n == 0 then 0 else BitSumBelow(b, n - 1) + (ByteShr(b, n - 1) & 1)
  }

  lemma SmallByteSucc(c: nat)
    requires c < 8
    ensures SmallByte(c + 1) == SmallByte(c) + 1
  {
  }

  lemma BitValue(b: Byte, i: nat)
    requires i < 8
    ensures ByteShr(b, i) & 1 == if Bit(b, i) then 1 else 0
  {
  }

  /** Counting the set bits in whole numbers and summing the bits in byte
      arithmetic agree, since the count never exceeds 8. */
  lemma {:induction false} OnesBelowAsByte(b: Byte, n: nat)
    requires n <= 8
    ensures OnesBelow(b, n) <= n
    ensures SmallByte(OnesBelow(b, n)) == BitSumBelow(b, n)
  {
    if n > 0 {
      OnesBelowAsByte(b, n - 1);
      BitValue(b, n - 1);
      if Bit(b, n - 1) {
        SmallByteSucc(OnesBelow(b, n - 1));
      }
    }
  }

  /** The byte sum of all eight bits of b is `OnesCount(b)`, at most 8. */
  lemma OnesCountAsByte(b: Byte)
    ensures OnesCount(b) <= 8
    ensures SmallByte(OnesCount(b)) ==
      (b & 1) + ((b >> 1) & 1) + ((b >> 2) & 1) + ((b >> 3) & 1) +
      ((b >> 4) & 1) + ((b >> 5) & 1) + ((b >> 6) & 1) + ((b >> 7) & 1)
  {
    OnesBelowAsByte(b, 8);
    assert BitSumBelow(b, 1) == b & 1;
    assert BitSumBelow(b, 2) == BitSumBelow(b, 1) + ((b >> 1) & 1);
    assert BitSumBelow(b, 3) == BitSumBelow(b, 2) + ((b >> 2) & 1);
    assert BitSumBelow(b, 4) == BitSumBelow(b, 3) + ((b >> 3) & 1);
    assert BitSumBelow(b, 5) == BitSumBelow(b, 4) + ((b >> 4) & 1);
    assert BitSumBelow(b, 6) == BitSumBelow(b, 5) + ((b >> 5) & 1);
    assert BitSumBelow(b, 7) == BitSumBelow(b, 6) + ((b >> 6) & 1);
    assert BitSumBelow(b, 8) == BitSumBelow(b, 7) + ((b >> 7) & 1);
  }
}
