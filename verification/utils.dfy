/** The helpers of utils.go: broadcasting a byte to every lane, gathering
    the low bit of every lane into one byte, the table of set-bit positions,
    and the index arithmetic of BytesToLanes. */
module Utils {
  import opened Words
  import opened LaneFacts
  import opened ByteBits
  import WordValue
  import ShiftValue

  /** The lowest bit of every lane. */
  const LowBits: Word := FromBits(0x0101_0101_0101_0101)

  /** Lane j holds the single bit 7 - j, so that multiplying by it moves the
      low bit of lane i to bit i of lane 7. */
  const packMask: Word := FromBits(0x0102_0408_1020_4080)

  lemma PackMaskLanes()
    ensures forall j: LaneIndex :: packMask[j] == ByteShr(0x80, j)
  {
    assert packMask[0] == 0x80 && packMask[1] == 0x40 && packMask[2] == 0x20 && packMask[3] == 0x10;
    assert packMask[4] == 0x08 && packMask[5] == 0x04 && packMask[6] == 0x02 && packMask[7] == 0x01;
  }

  // ---------------------------------------------------------------------------
  // Shared facts about the multiplications

  /** Bytes with no bit in common add without carry, to their union. */
  lemma DisjointSum(p: Byte, q: Byte)
    requires p & q == 0
    ensures q <= 0xFF - p
    ensures p + q == p | q
  {
  }

  /** Adding two words whose lanes share no bit never carries: the sum is
      the union. */
  lemma AddDisjoint(x: Word, y: Word)
    requires forall j: LaneIndex :: x[j] & y[j] == 0
    ensures forall k: LaneIndex :: Add(x, y)[k] == x[k] | y[k]
  {
    forall j: LaneIndex
      ensures y[j] <= 0xFF - x[j]
    {
      DisjointSum(x[j], y[j]);
    }
    AddWithoutCarry(x, y);
    forall k: LaneIndex
      ensures Add(x, y)[k] == x[k] | y[k]
    {
      DisjointSum(x[k], y[k]);
    }
  }

  /** Multiplying lanes that are 0 or 1 by a byte never carries. */
  lemma {:induction false} NoCarryFromBits(m: Word, c: Byte, k: LaneIndex)
    requires IsBitWord(m)
    ensures MulCarryInto(m, c, k) == 0
  {
    if k > 0 {
      NoCarryFromBits(m, c, k - 1);
      ByteAsInt(c);
      if m[k - 1] == 1 {
        assert m[k - 1] as int == 1;
      } else {
        assert m[k - 1] as int == 0;
      }
    }
  }

  lemma ScaleBit(m: Word, c: Byte, k: LaneIndex)
    requires IsBitWord(m)
    ensures MulByte(m, c)[k] == if m[k] == 1 then c else 0
  {
    NoCarryFromBits(m, c, k);
    var t := m[k] as int * c as int + MulCarryInto(m, c, k);
    if m[k] == 1 {
      assert m[k] as int == 1;
      LowByteOfByte(t, c);
    } else {
      assert m[k] as int == 0;
      LowByteOfByte(t, 0);
    }
  }

  /** `m * uint64(c)` for a word of 0/1 lanes puts c where m has a 1. */
  lemma ScaleBits(m: Word, c: Byte)
    requires IsBitWord(m)
    ensures forall k: LaneIndex :: MulByte(m, c)[k] == if m[k] == 1 then c else 0
  {
    forall k: LaneIndex
      ensures MulByte(m, c)[k] == if m[k] == 1 then c else 0
    {
      ScaleBit(m, c, k);
    }
  }

  // ---------------------------------------------------------------------------
  // Dupe

  function Dupe(c: Byte): Word
  {
    Mul(FromByte(c), LowBits)
  }

  /** The first n partial products of `uint64(c) * LowBits` fill lanes
      0 .. n-1 with c: each is c moved up by one more lane, into a lane the
      sum has not reached yet. */
  lemma {:induction false} DupePrefix(c: Byte, n: nat)
    requires n <= 8
    ensures forall l: LaneIndex :: PartialProducts(FromByte(c), Fill(1), n)[l] == if l < n then c else 0
  {
    if n > 0 {
      var x := FromByte(c);
      var prev := PartialProducts(x, Fill(1), n - 1);
      DupePrefix(c, n - 1);
      MulByOne(x);
      ShiftLeftLanes(x, n - 1);
      var shifted := ShiftLeft(x, 8 * (n - 1));
      assert forall j: LaneIndex :: shifted[j] == if j == n - 1 then c else 0;
      DupeStep(c, n, prev, shifted);
    }
  }

  /** Adding c in lane n - 1 to c in lanes 0 .. n-2 gives c in lanes 0 .. n-1. */
  lemma DupeStep(c: Byte, n: nat, prev: Word, shifted: Word)
    requires 0 < n <= 8
    requires forall j: LaneIndex :: prev[j] == if j < n - 1 then c else 0
    requires forall j: LaneIndex :: shifted[j] == if j == n - 1 then c else 0
    ensures forall l: LaneIndex :: Add(prev, shifted)[l] == if l < n then c else 0
  {
    forall j: LaneIndex
      ensures prev[j] & shifted[j] == 0
    {
      if j == n - 1 {
        assert prev[j] == 0;
      } else {
        assert shifted[j] == 0;
      }
    }
    AddDisjoint(prev, shifted);
    forall l: LaneIndex
      ensures Add(prev, shifted)[l] == if l < n then c else 0
    {
      if l == n - 1 {
        assert prev[l] == 0;
        assert Add(prev, shifted)[l] == 0 | c;
      } else {
        assert shifted[l] == 0;
        assert Add(prev, shifted)[l] == prev[l] | 0;
      }
    }
  }

  lemma MulByOne(x: Word)
    ensures MulByte(x, 1) == x
  {
    forall k: LaneIndex
      ensures MulByte(x, 1)[k] == x[k]
    {
      MulByOneLane(x, k);
    }
  }

  lemma {:induction false} MulByOneLane(x: Word, k: LaneIndex)
    ensures MulCarryInto(x, 1, k) == 0
    ensures MulByte(x, 1)[k] == x[k]
  {
    if k > 0 {
      MulByOneLane(x, k - 1);
      ByteAsInt(x[k - 1]);
      BelowBase(x[k - 1] as int);
    }
    ByteAsInt(x[k]);
    BelowBase(x[k] as int);
  }

  /** Every lane of `Dupe(c)` is c. */
  lemma DupeLanes(c: Byte)
    ensures Dupe(c) == Fill(c)
  {
    RepeatedLiterals();
    DupePrefix(c, 8);
  }

  // ---------------------------------------------------------------------------
  // ExtractLowBits

  function ExtractLowBits(v: Word): Byte
  {
    ShiftRight(Mul(v, packMask), 56)[0]
  }

  /** The byte whose bit i is the low bit of lane i. */
  function GatherLowBits(v: Word): Byte
  {
    (v[0] & 1) | ((v[1] & 1) << 1) | ((v[2] & 1) << 2) | ((v[3] & 1) << 3) |
    ((v[4] & 1) << 4) | ((v[5] & 1) << 5) | ((v[6] & 1) << 6) | ((v[7] & 1) << 7)
  }

  /** Lane l of the sum of the first n partial products of `v * packMask`
      for a word v of 0/1 lanes: partial product j contributes bit 7 - j to
      lane l exactly when lane l - j of v is 1. */
  function Packed(v: Word, n: nat, l: LaneIndex): Byte
    requires n <= 8
  {
    if n == 0 then 0
    else Packed(v, n - 1, l) | (if n - 1 <= l && v[l - (n - 1)] == 1 then ByteShr(0x80, n - 1) else 0)
  }

  /** The first n partial products only set the top n bits of a lane. */
  lemma {:induction false} PackedBitsHigh(v: Word, n: nat, l: LaneIndex)
    requires n <= 8
    ensures Packed(v, n, l) & ByteShr(0xFF, n) == 0
  {
    if n > 0 {
      PackedBitsHigh(v, n - 1, l);
      NextBitBelow(n - 1);
    }
  }

  lemma NextBitBelow(j: nat)
    requires j < 8
    ensures ByteShr(0x80, j) & ByteShr(0xFF, j + 1) == 0
    ensures ByteShr(0xFF, j + 1) & !ByteShr(0xFF, j) == 0
    ensures ByteShr(0x80, j) & !ByteShr(0xFF, j) == 0
  {
  }

  /** Adding partial product n - 1 to the sum of the ones before it. */
  lemma PackStep(v: Word, n: nat, prev: Word, term: Word)
    requires 0 < n <= 8
    requires forall l: LaneIndex :: prev[l] == Packed(v, n - 1, l)
    requires forall l: LaneIndex ::
               term[l] == if n - 1 <= l && v[l - (n - 1)] == 1 then ByteShr(0x80, n - 1) else 0
    ensures forall l: LaneIndex :: Add(prev, term)[l] == Packed(v, n, l)
  {
    forall j: LaneIndex
      ensures prev[j] & term[j] == 0
    {
      PackedBitsHigh(v, n - 1, j);
      NextBitBelow(n - 1);
      if term[j] != 0 {
        assert term[j] == ByteShr(0x80, n - 1);
      }
    }
    AddDisjoint(prev, term);
  }

  /** For a word of 0/1 lanes, the first n partial products of
      `v * packMask` add up without a carry to `Packed(v, n, _)`. */
  lemma {:induction false} PackPrefix(v: Word, n: nat)
    requires IsBitWord(v)
    requires n <= 8
    ensures forall l: LaneIndex :: PartialProducts(v, packMask, n)[l] == Packed(v, n, l)
  {
    if n > 0 {
      PackPrefix(v, n - 1);
      PackMaskLanes();
      var c := packMask[n - 1];
      ScaleBits(v, c);
      var scaled := MulByte(v, c);
      ShiftLeftLanes(scaled, n - 1);
      PackStep(v, n, PartialProducts(v, packMask, n - 1), ShiftLeft(scaled, 8 * (n - 1)));
    }
  }

  /** `x >> 56` leaves lane 7 in lane 0. */
  lemma TopLane(x: Word)
    ensures ShiftRight(x, 56)[0] == x[7]
  {
    assert 56 / 8 == 7 && 56 % 8 == 0;
    assert ShiftRight(x, 56)[0] == ByteShr(x[7], 0) | 0;
  }

  lemma PackedTopLane(v: Word)
    requires IsBitWord(v)
    ensures Packed(v, 8, 7) == GatherLowBits(v)
  {
    assert Packed(v, 1, 7) == (if v[7] == 1 then 0x80 else 0);
    assert Packed(v, 2, 7) == Packed(v, 1, 7) | (if v[6] == 1 then 0x40 else 0);
    assert Packed(v, 3, 7) == Packed(v, 2, 7) | (if v[5] == 1 then 0x20 else 0);
    assert Packed(v, 4, 7) == Packed(v, 3, 7) | (if v[4] == 1 then 0x10 else 0);
    assert Packed(v, 5, 7) == Packed(v, 4, 7) | (if v[3] == 1 then 0x08 else 0);
    assert Packed(v, 6, 7) == Packed(v, 5, 7) | (if v[2] == 1 then 0x04 else 0);
    assert Packed(v, 7, 7) == Packed(v, 6, 7) | (if v[1] == 1 then 0x02 else 0);
    assert Packed(v, 8, 7) == Packed(v, 7, 7) | (if v[0] == 1 then 0x01 else 0);
  }

  /** For a word of 0/1 lanes, `ExtractLowBits(v)` has bit i set exactly
      when lane i is 1: the multiplication by packMask gathers the lanes into
      the top lane without any carry. */
  lemma ExtractLowBitsGathers(v: Word)
    requires IsBitWord(v)
    ensures ExtractLowBits(v) == GatherLowBits(v)
  {
    PackPrefix(v, 8);
    TopLane(Mul(v, packMask));
    PackedTopLane(v);
  }

  /** Bit i of `GatherLowBits(v)` is the low bit of lane i. */
  lemma GatherLowBitsBits(v: Word)
    ensures forall i: LaneIndex :: Bit(GatherLowBits(v), i) <==> v[i] & 1 == 1
  {
  }

  /** For a word of 0/1 lanes, bit i of `ExtractLowBits(v)` is set exactly
      when lane i is 1. */
  lemma ExtractLowBitsOfBitWord(v: Word)
    requires IsBitWord(v)
    ensures forall i: LaneIndex :: Bit(ExtractLowBits(v), i) <==> v[i] == 1
  {
    ExtractLowBitsGathers(v);
    GatherLowBitsBits(v);
  }

  /** Applied to a comparator's result shifted down by 7, `ExtractLowBits`
      gives the byte whose bit i says whether lane i was flagged. */
  lemma ExtractLowBitsOfFlags(f: Word)
    requires IsFlagWord(f)
    ensures forall i: LaneIndex :: Bit(ExtractLowBits(ShiftRight(f, 7)), i) <==> f[i] == 0x80
  {
    FlagShift(f);
    ExtractLowBitsOfBitWord(ShiftRight(f, 7));
  }

  /** Masking any word with LowBits first gives a byte whose bit i is the low
      bit of lane i. */
  lemma ExtractLowBitsOfMasked(n: Word)
    ensures forall i: LaneIndex :: Bit(ExtractLowBits(And(n, LowBits)), i) <==> n[i] & 1 == 1
  {
    var m := And(n, LowBits);
    assert LowBits == Fill(1) by { RepeatedLiterals(); }
    assert IsBitWord(m);
    ExtractLowBitsOfBitWord(m);
  }

  /** The value arithmetic of `ExtractLowBitsNeedsBitLanes`: 2 times the
      packMask value, modulo 2^64. */
  lemma PackTwoProduct(a: int, b: int, c: int)
    requires a == 2 && b == 0x0102_0408_1020_4080
    requires c == (a * b) % 0x1_0000_0000_0000_0000
    ensures c == 0x0204_0810_2040_8100
  {
  }

  /** ... and that product shifted right by 56 bits. */
  lemma PackTwoQuotient(c: int, d: int, e: int)
    requires c == 0x0204_0810_2040_8100 && d == 0x100_0000_0000_0000
    requires e == c / d
    ensures e == 2
  {
  }

  /** For any multiplier m of packMask's value, a word of value 2 gives a
      product whose top byte is 2: `2 * m` is 0x0204_0810_2040_8100 modulo
      2^64. */
  lemma TopByteOfDoubled(v: Word, m: Word)
    requires WordValue.Value(v) == 2 && WordValue.Value(m) == 0x0102_0408_1020_4080
    ensures ShiftRight(Mul(v, m), 56)[0] == 2
  {
    var p := Mul(v, m);
    var y := ShiftRight(p, 56);
    WordValue.MulValue(v, m);
    PackTwoProduct(WordValue.Value(v), WordValue.Value(m), WordValue.Value(p));
    ShiftValue.ShiftRightValue(p, 56);
    ShiftValue.Pow2Lanes(7);
    PackTwoQuotient(WordValue.Value(p), ShiftValue.Pow2(56), WordValue.Value(y));
    ShiftValue.ValueOfLanes(y);
  }

  /** A word of value 2 is extracted to 2. */
  lemma ExtractLowBitsOfTwo(v: Word)
    requires WordValue.Value(v) == 2
    ensures ExtractLowBits(v) == 2
  {
    ShiftValue.FromBitsValue(0x0102_0408_1020_4080);
    TopByteOfDoubled(v, packMask);
  }

  /** A lane other than 0 or 1 is not reduced to its low bit: with the value
      2 in lane 0, the product `2 * packMask` carries into the top lane, so
      `ExtractLowBits` gives 2 while lane 0's low bit is 0. */
  lemma ExtractLowBitsNeedsBitLanes()
    ensures ExtractLowBits(FromByte(2)) == 2
    ensures GatherLowBits(FromByte(2)) == 0
  {
    ShiftValue.ValueOfLanes(FromByte(2));
    ExtractLowBitsOfTwo(FromByte(2));
  }

  // ---------------------------------------------------------------------------
  // Lookup.OnesPositions

  /** Strictly increasing. */
  predicate Ascending(s: seq<nat>)
  {
    forall i, j :: 0 <= i < j < |s| ==> s[i] < s[j]
  }

  /** The positions below n of the set bits of b, in increasing order: what
      the inner loop of the table initialiser has appended after n rounds. */
  function PositionsBelow(b: Byte, n: nat): (r: seq<nat>)
    requires n <= 8
    ensures Ascending(r)
    ensures forall j :: 0 <= j < |r| ==> r[j] < n
    ensures forall i: nat :: i in r <==> i < n && Bit(b, i)
  {
    if n == 0 then []
    else PositionsBelow(b, n - 1) + (if ByteShr(b, n - 1) & 1 == 1 then [n - 1] else [])
  }

  /** `Lookup.OnesPositions[b]`: the positions of the set bits of b. */
  function OnesPositions(b: Byte): seq<nat>
  {
    PositionsBelow(b, 8)
  }

  /** One position per set bit. */
  lemma {:induction false} PositionsBelowCount(b: Byte, n: nat)
    requires n <= 8
    ensures |PositionsBelow(b, n)| == OnesBelow(b, n)
  {
    if n > 0 {
      PositionsBelowCount(b, n - 1);
    }
  }

  /** The entry for b lists `OnesCount(b)` positions, each a set bit of b, in
      increasing order; the entry for 0 is empty. */
  lemma OnesPositionsSpec(b: Byte)
    ensures Ascending(OnesPositions(b))
    ensures forall i: nat :: i in OnesPositions(b) <==> i < 8 && Bit(b, i)
    ensures |OnesPositions(b)| == OnesCount(b)
    ensures b == 0 ==> OnesPositions(b) == []
  {
    PositionsBelowCount(b, 8);
  }

  /** The table initialiser: for every byte value b, and every bit position i
      from 0 up to 7, append i to entry b when bit i of b is set. */
  method BuildOnesPositions() returns (res: seq<seq<nat>>)
    ensures |res| == 256
    ensures forall b :: 0 <= b < 256 ==> Ascending(res[b])
    ensures forall b, i: nat :: 0 <= b < 256 ==> (i in res[b] <==> i < 8 && Bit(b as Byte, i))
  {
    res := [];
    for b := 0 to 256
      invariant |res| == b
      invariant forall c :: 0 <= c < b ==> res[c] == OnesPositions(c as Byte)
    {
      var entry: seq<nat> := [];
      for i := 0 to 8
        invariant entry == PositionsBelow(b as Byte, i)
      {
        if ByteShr(b as Byte, i) & 1 == 1 {
          entry := entry + [i];
        }
      }
      res := res + [entry];
    }
  }

  // ---------------------------------------------------------------------------
  // BytesToLanes: the index where the unconverted bytes begin

  /** The result of a call that may panic. */
  datatype Outcome<T> = Panics | Returns(value: T)

  /** The lane count and index BytesToLanes returns for a slice of n bytes:
      `n / 8` whole lanes, and the index just past them. Taking `&b[0]`
      panics on an empty slice. */
  function BytesToLanesIndex(n: nat): (r: Outcome<(nat, nat)>)
    ensures r.Panics? <==> n == 0
    ensures r.Returns? ==> r.value.1 == 8 * r.value.0
    ensures r.Returns? ==> r.value.1 <= n < r.value.1 + 8
  {
    if n == 0 then Panics
    else
      var countChunks := n / 8;
      Returns((countChunks, countChunks * 8))
  }

  /** The index is the only multiple of 8 that leaves fewer than 8 bytes
      over. */
  lemma BytesToLanesIndexUnique(n: nat, m: nat)
    requires n > 0
    requires m % 8 == 0 && m <= n < m + 8
    ensures BytesToLanesIndex(n) == Returns((m / 8, m))
  {
  }
}
