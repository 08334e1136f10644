/** The numbers behind the literals and the shifts of `Words`: a literal's
    lanes stand for the literal itself, `x >> n` is division by 2^n and
    `x << n` is multiplication by 2^n modulo 2^64, for every shift count
    n < 64. */
module ShiftValue {
  import opened Words
  import opened LaneFacts
  import opened WordValue

  // ---------------------------------------------------------------------------
  // Literals

  /** A word's value written out lane by lane. */
  lemma ValueOfLanes(x: Word)
    ensures Value(x) == x[0] as int + x[1] as int * 0x100 + x[2] as int * 0x1_0000
                        + x[3] as int * 0x100_0000 + x[4] as int * 0x1_0000_0000
                        + x[5] as int * 0x100_0000_0000 + x[6] as int * 0x1_0000_0000_0000
                        + x[7] as int * 0x100_0000_0000_0000
  {
    assert Pow256(1) == 0x100 && Pow256(2) == 0x1_0000 && Pow256(3) == 0x100_0000;
    assert Pow256(4) == 0x1_0000_0000 && Pow256(5) == 0x100_0000_0000;
    assert Pow256(6) == 0x1_0000_0000_0000 && Pow256(7) == 0x100_0000_0000_0000;
    PrefixValueStep(x, 0, 1);
    PrefixValueStep(x, 1, 2);
    PrefixValueStep(x, 2, 3);
    PrefixValueStep(x, 3, 4);
    PrefixValueStep(x, 4, 5);
    PrefixValueStep(x, 5, 6);
    PrefixValueStep(x, 6, 7);
    PrefixValueStep(x, 7, 8);
  }

  /** Two bytes side by side */
  function JoinBytes(h: Byte, l: Byte): bv16
  {
    (h as bv16 << 8) | l as bv16
  }

  /** Two 16-bit halves side by side */
  function JoinHalves(h: bv16, l: bv16): bv32
  {
    (h as bv32 << 16) | l as bv32
  }

  /** Two 32-bit halves side by side */
  function JoinWords(h: bv32, l: bv32): bv64
  {
    (h as bv64 << 32) | l as bv64
  }

  // The three lemmas below give the value of a join, stated on the join's
  // own expression: the high part weighs 2^8, 2^16 or 2^32, the low part 1.

  lemma JoinBytesValue(h: Byte, l: Byte)
    ensures ((h as bv16 << 8) | l as bv16) as int == h as int * 0x100 + l as int
  {
  }

  lemma JoinHalvesValue(h: bv16, l: bv16)
    ensures ((h as bv32 << 16) | l as bv32) as int == h as int * 0x1_0000 + l as int
  {
  }

  lemma JoinWordsValue(h: bv32, l: bv32)
    ensures ((h as bv64 << 32) | l as bv64) as int == h as int * 0x1_0000_0000 + l as int
  {
  }

  /** A 64-bit literal is its eight lanes put side by side. */
  lemma LanesJoin(v: bv64)
    ensures v == JoinWords(JoinHalves(JoinBytes(LaneOf(v, 7), LaneOf(v, 6)), JoinBytes(LaneOf(v, 5), LaneOf(v, 4))),
                           JoinHalves(JoinBytes(LaneOf(v, 3), LaneOf(v, 2)), JoinBytes(LaneOf(v, 1), LaneOf(v, 0))))
  {
  }

  /** The value of a literal from its two 32-bit halves */
  lemma LiteralHalves(v: bv64)
    ensures v as int == JoinHalves(JoinBytes(LaneOf(v, 7), LaneOf(v, 6)), JoinBytes(LaneOf(v, 5), LaneOf(v, 4))) as int * 0x1_0000_0000
                        + JoinHalves(JoinBytes(LaneOf(v, 3), LaneOf(v, 2)), JoinBytes(LaneOf(v, 1), LaneOf(v, 0))) as int
  {
    LanesJoin(v);
    JoinWordsValue(JoinHalves(JoinBytes(LaneOf(v, 7), LaneOf(v, 6)), JoinBytes(LaneOf(v, 5), LaneOf(v, 4))),
                   JoinHalves(JoinBytes(LaneOf(v, 3), LaneOf(v, 2)), JoinBytes(LaneOf(v, 1), LaneOf(v, 0))));
  }

  /** The value of four bytes side by side */
  lemma FourBytes(a: Byte, b: Byte, c: Byte, d: Byte)
    ensures JoinHalves(JoinBytes(a, b), JoinBytes(c, d)) as int
            == a as int * 0x100_0000 + b as int * 0x1_0000 + c as int * 0x100 + d as int
  {
    var hi, lo := JoinBytes(a, b), JoinBytes(c, d);
    JoinHalvesValue(hi, lo);
    JoinBytesValue(a, b);
    JoinBytesValue(c, d);
    Regroup(JoinHalves(hi, lo) as int, hi as int, lo as int, a as int, b as int, c as int, d as int);
  }

  /** Two 16-bit halves of two bytes each, regrouped by byte. */
  lemma Regroup(j: int, hi: int, lo: int, a: int, b: int, c: int, d: int)
    requires j == hi * 0x1_0000 + lo && hi == a * 0x100 + b && lo == c * 0x100 + d
    ensures j == a * 0x100_0000 + b * 0x1_0000 + c * 0x100 + d
  {
  }

  /** The word of a literal stands for the literal. */
  lemma FromBitsValue(v: bv64)
    ensures Value(FromBits(v)) == v as int
  {
    var x := FromBits(v);
    LiteralHalves(v);
    FourBytes(x[7], x[6], x[5], x[4]);
    FourBytes(x[3], x[2], x[1], x[0]);
    ValueOfLanes(x);
  }

  // ---------------------------------------------------------------------------
  // Bytes split at a bit position

  /** 2^n */
  function Pow2(n: nat): (r: nat)
    ensures r >= 1
  {
    if n == 0 then 1 else 2 * Pow2(n - 1)
  }

  /** 2^1 .. 2^8 */
  lemma Pow2Small()
    ensures Pow2(1) == 2 && Pow2(2) == 4 && Pow2(3) == 8 && Pow2(4) == 16
    ensures Pow2(5) == 32 && Pow2(6) == 64 && Pow2(7) == 128 && Pow2(8) == 256
  {
  }

  /** The low r bits of a byte, 0 <= r <= 8 */
  function LowBitsOf(b: Byte, r: nat): Byte
    requires r <= 8
  {
    match r
    case 0 => 0
    case 1 => b & 0x01
    case 2 => b & 0x03
    case 3 => b & 0x07
    case 4 => b & 0x0F
    case 5 => b & 0x1F
    case 6 => b & 0x3F
    case 7 => b & 0x7F
    case 8 => b
  }

  /** A byte is its bits above position r, scaled by 2^r, plus its low r
      bits, which stand for less than 2^r. */
  lemma ByteSplit(b: Byte, r: nat)
    requires r <= 8
    ensures b as int == ByteShr(b, r) as int * Pow2(r) + LowBitsOf(b, r) as int
    ensures LowBitsOf(b, r) as int < Pow2(r)
  {
    match r
    case 0 => ByteSplit0(b, r);
    case 1 => ByteSplit1(b, r);
    case 2 => ByteSplit2(b, r);
    case 3 => ByteSplit3(b, r);
    case 4 => ByteSplit4(b, r);
    case 5 => ByteSplit5(b, r);
    case 6 => ByteSplit6(b, r);
    case 7 => ByteSplit7(b, r);
    case 8 => ByteSplit8(b, r);
  }

  // One lemma per amount: each states the split for one fixed shift of a
  // byte, and `ByteSplit` picks the one for its amount.

  lemma ByteSplit0(b: Byte, r: nat)
    requires r == 0
    ensures b as int == ByteShr(b, r) as int * Pow2(r) + LowBitsOf(b, r) as int
    ensures LowBitsOf(b, r) as int < Pow2(r)
  {
  }

  lemma ByteSplit8(b: Byte, r: nat)
    requires r == 8
    ensures b as int == ByteShr(b, r) as int * Pow2(r) + LowBitsOf(b, r) as int
    ensures LowBitsOf(b, r) as int < Pow2(r)
  {
  }

  lemma ByteSplit1(b: Byte, r: nat)
    requires r == 1
    ensures b as int == ByteShr(b, r) as int * Pow2(r) + LowBitsOf(b, r) as int
    ensures LowBitsOf(b, r) as int < Pow2(r)
  {
  }

  lemma ByteSplit2(b: Byte, r: nat)
    requires r == 2
    ensures b as int == ByteShr(b, r) as int * Pow2(r) + LowBitsOf(b, r) as int
    ensures LowBitsOf(b, r) as int < Pow2(r)
  {
  }

  lemma ByteSplit3(b: Byte, r: nat)
    requires r == 3
    ensures b as int == ByteShr(b, r) as int * Pow2(r) + LowBitsOf(b, r) as int
    ensures LowBitsOf(b, r) as int < Pow2(r)
  {
  }

  lemma ByteSplit4(b: Byte, r: nat)
    requires r == 4
    ensures b as int == ByteShr(b, r) as int * Pow2(r) + LowBitsOf(b, r) as int
    ensures LowBitsOf(b, r) as int < Pow2(r)
  {
  }

  lemma ByteSplit5(b: Byte, r: nat)
    requires r == 5
    ensures b as int == ByteShr(b, r) as int * Pow2(r) + LowBitsOf(b, r) as int
    ensures LowBitsOf(b, r) as int < Pow2(r)
  {
  }

  lemma ByteSplit6(b: Byte, r: nat)
    requires r == 6
    ensures b as int == ByteShr(b, r) as int * Pow2(r) + LowBitsOf(b, r) as int
    ensures LowBitsOf(b, r) as int < Pow2(r)
  {
  }

  lemma ByteSplit7(b: Byte, r: nat)
    requires r == 7
    ensures b as int == ByteShr(b, r) as int * Pow2(r) + LowBitsOf(b, r) as int
    ensures LowBitsOf(b, r) as int < Pow2(r)
  {
  }

  /** Two neighbouring lanes p (below) and q (above) meet in one byte of
      `x >> s`, 0 < s < 8: the high 8 - s bits of p at the bottom and the low
      s bits of q above them. */
  lemma JoinLane(p: Byte, q: Byte, s: nat)
    requires 0 < s < 8
    ensures (ByteShr(p, s) | ByteShl(q, 8 - s)) as int == ByteShr(p, s) as int + LowBitsOf(q, s) as int * Pow2(8 - s)
  {
    match s
    case 1 => JoinLane1(p, q, s);
    case 2 => JoinLane2(p, q, s);
    case 3 => JoinLane3(p, q, s);
    case 4 => JoinLane4(p, q, s);
    case 5 => JoinLane5(p, q, s);
    case 6 => JoinLane6(p, q, s);
    case 7 => JoinLane7(p, q, s);
  }

  /** The same meeting in one byte of `x << r`, 0 < r < 8: the low 8 - r
      bits of q moved up by r, above the high r bits of p. */
  lemma JoinLaneLeft(p: Byte, q: Byte, r: nat)
    requires 0 < r < 8
    ensures (ByteShl(q, r) | ByteShr(p, 8 - r)) as int == ByteShr(p, 8 - r) as int + LowBitsOf(q, 8 - r) as int * Pow2(r)
  {
    match r
    case 1 => JoinLaneLeft1(p, q, r);
    case 2 => JoinLaneLeft2(p, q, r);
    case 3 => JoinLaneLeft3(p, q, r);
    case 4 => JoinLaneLeft4(p, q, r);
    case 5 => JoinLaneLeft5(p, q, r);
    case 6 => JoinLaneLeft6(p, q, r);
    case 7 => JoinLaneLeft7(p, q, r);
  }

  // One lemma per amount, as for `ByteSplit0` .. `ByteSplit8`.

  lemma JoinLane1(p: Byte, q: Byte, s: nat)
    requires s == 1
    ensures (ByteShr(p, s) | ByteShl(q, 8 - s)) as int == ByteShr(p, s) as int + LowBitsOf(q, s) as int * Pow2(8 - s)
  {
  }

  lemma JoinLane2(p: Byte, q: Byte, s: nat)
    requires s == 2
    ensures (ByteShr(p, s) | ByteShl(q, 8 - s)) as int == ByteShr(p, s) as int + LowBitsOf(q, s) as int * Pow2(8 - s)
  {
  }

  lemma JoinLane3(p: Byte, q: Byte, s: nat)
    requires s == 3
    ensures (ByteShr(p, s) | ByteShl(q, 8 - s)) as int == ByteShr(p, s) as int + LowBitsOf(q, s) as int * Pow2(8 - s)
  {
  }

  lemma JoinLane4(p: Byte, q: Byte, s: nat)
    requires s == 4
    ensures (ByteShr(p, s) | ByteShl(q, 8 - s)) as int == ByteShr(p, s) as int + LowBitsOf(q, s) as int * Pow2(8 - s)
  {
  }

  lemma JoinLane5(p: Byte, q: Byte, s: nat)
    requires s == 5
    ensures (ByteShr(p, s) | ByteShl(q, 8 - s)) as int == ByteShr(p, s) as int + LowBitsOf(q, s) as int * Pow2(8 - s)
  {
  }

  lemma JoinLane6(p: Byte, q: Byte, s: nat)
    requires s == 6
    ensures (ByteShr(p, s) | ByteShl(q, 8 - s)) as int == ByteShr(p, s) as int + LowBitsOf(q, s) as int * Pow2(8 - s)
  {
  }

  lemma JoinLane7(p: Byte, q: Byte, s: nat)
    requires s == 7
    ensures (ByteShr(p, s) | ByteShl(q, 8 - s)) as int == ByteShr(p, s) as int + LowBitsOf(q, s) as int * Pow2(8 - s)
  {
  }

  lemma JoinLaneLeft1(p: Byte, q: Byte, r: nat)
    requires r == 1
    ensures (ByteShl(q, r) | ByteShr(p, 8 - r)) as int == ByteShr(p, 8 - r) as int + LowBitsOf(q, 8 - r) as int * Pow2(r)
  {
  }

  lemma JoinLaneLeft2(p: Byte, q: Byte, r: nat)
    requires r == 2
    ensures (ByteShl(q, r) | ByteShr(p, 8 - r)) as int == ByteShr(p, 8 - r) as int + LowBitsOf(q, 8 - r) as int * Pow2(r)
  {
  }

  lemma JoinLaneLeft3(p: Byte, q: Byte, r: nat)
    requires r == 3
    ensures (ByteShl(q, r) | ByteShr(p, 8 - r)) as int == ByteShr(p, 8 - r) as int + LowBitsOf(q, 8 - r) as int * Pow2(r)
  {
  }

  lemma JoinLaneLeft4(p: Byte, q: Byte, r: nat)
    requires r == 4
    ensures (ByteShl(q, r) | ByteShr(p, 8 - r)) as int == ByteShr(p, 8 - r) as int + LowBitsOf(q, 8 - r) as int * Pow2(r)
  {
  }

  lemma JoinLaneLeft5(p: Byte, q: Byte, r: nat)
    requires r == 5
    ensures (ByteShl(q, r) | ByteShr(p, 8 - r)) as int == ByteShr(p, 8 - r) as int + LowBitsOf(q, 8 - r) as int * Pow2(r)
  {
  }

  lemma JoinLaneLeft6(p: Byte, q: Byte, r: nat)
    requires r == 6
    ensures (ByteShl(q, r) | ByteShr(p, 8 - r)) as int == ByteShr(p, 8 - r) as int + LowBitsOf(q, 8 - r) as int * Pow2(r)
  {
  }

  lemma JoinLaneLeft7(p: Byte, q: Byte, r: nat)
    requires r == 7
    ensures (ByteShl(q, r) | ByteShr(p, 8 - r)) as int == ByteShr(p, 8 - r) as int + LowBitsOf(q, 8 - r) as int * Pow2(r)
  {
  }

  /** 2^(a + b) = 2^a 2^b */
  lemma {:induction false} Pow2Sum(a: nat, b: nat)
    ensures Pow2(a + b) == Pow2(a) * Pow2(b)
  {
    if a > 0 {
      Pow2Sum(a - 1, b);
      assert Pow2(a + b) == 2 * Pow2(a - 1 + b);
    }
  }

  /** A shift by q lanes is a shift by 8q bits: 2^(8q) = 256^q. */
  lemma {:induction false} Pow2Lanes(q: nat)
    ensures Pow2(8 * q) == Pow256(q)
  {
    if q > 0 {
      Pow2Lanes(q - 1);
      Pow2Sum(8, 8 * (q - 1));
      Pow2Small();
    }
  }

  /** 2^r 2^(8 - r) = 2^8 */
  lemma Pow2Split(r: nat)
    requires r <= 8
    ensures Pow2(r) * Pow2(8 - r) == 256
  {
    Pow2Sum(r, 8 - r);
    assert r + (8 - r) == 8;
    Pow2Small();
  }

  // ---------------------------------------------------------------------------
  // Right shifts within a lane boundary

  /** The arithmetic of one lane of `x >> r`. */
  lemma ShrLaneArith(y: int, h: int, l: int, lo: int, b: int, p: int, p2: int)
    requires y == h + l * p2 && b == h * p + lo && p * p2 == 256
    ensures y * p + lo == b + l * 256
  {
    assert y * p == h * p + l * (p2 * p);
  }

  /** The low r bits that lane n hands down to lane n - 1 in `x >> r`. */
  function Spill(x: Word, r: nat, n: nat): int
    requires r <= 8
  {
    if n < 8 then LowBitsOf(x[n], r) as int else 0
  }

  /** Lane k of `x >> r`, 0 < r < 8, scaled back by 2^r, is lane k of x less
      its low r bits, plus the low r bits of lane k + 1 at weight 256. */
  lemma ShiftRightLaneValue(x: Word, r: nat, k: LaneIndex)
    requires 0 < r < 8
    ensures ShiftRight(x, r)[k] as int * Pow2(r) + LowBitsOf(x[k], r) as int
            == x[k] as int + Spill(x, r, k + 1) * 256
  {
    ShiftRightLane(x, r, k);
    ByteSplit(x[k], r);
    Pow2Split(r);
    if k < 7 {
      JoinLane(x[k], x[k + 1], r);
      ShrLaneArith(ShiftRight(x, r)[k] as int, ByteShr(x[k], r) as int, LowBitsOf(x[k + 1], r) as int,
                   LowBitsOf(x[k], r) as int, x[k] as int, Pow2(r), Pow2(8 - r));
    } else {
      assert ShiftRight(x, r)[k] == ByteShr(x[k], r) | 0;
    }
  }

  /** The arithmetic of one step of `ShiftRightPrefix`. */
  lemma ShrStep(pvy: int, pvx: int, lo0: int, lom: int, ym: int, xm: int, cn: int, p: int, w: int,
                pvy1: int, pvx1: int, w1: int)
    requires pvy * p + lo0 == pvx + lom * w
    requires ym * p + lom == xm + cn * 256
    requires pvy1 == pvy + ym * w && pvx1 == pvx + xm * w && w1 == 256 * w
    ensures pvy1 * p + lo0 == pvx1 + cn * w1
  {
    assert pvy1 * p == pvy * p + (ym * p) * w;
    assert (ym * p + lom) * w == xm * w + cn * w1;
  }

  /** The invariant of `ShiftRightPrefix` at n lanes. */
  predicate ShrPrefixHolds(x: Word, r: nat, n: nat)
    requires 0 < r < 8 && n <= 8
  {
    PrefixValue(ShiftRight(x, r), n) * Pow2(r) + LowBitsOf(x[0], r) as int
    == PrefixValue(x, n) + Spill(x, r, n) * Pow256(n)
  }

  /** Lane m of `x >> r` takes the invariant from m lanes to m + 1. */
  lemma ShiftRightPrefixStep(x: Word, r: nat, m: nat, n: nat)
    requires 0 < r < 8 && n == m + 1 && n <= 8
    requires ShrPrefixHolds(x, r, m)
    ensures ShrPrefixHolds(x, r, n)
  {
    var y := ShiftRight(x, r);
    ShiftRightLaneValue(x, r, m);
    PrefixValueStep(y, m, n);
    PrefixValueStep(x, m, n);
    ShrStep(PrefixValue(y, m), PrefixValue(x, m), LowBitsOf(x[0], r) as int, Spill(x, r, m),
            y[m] as int, x[m] as int, Spill(x, r, n), Pow2(r), Pow256(m),
            PrefixValue(y, n), PrefixValue(x, n), Pow256(n));
  }

  /** The lowest n lanes of `x >> r`, 0 < r < 8, scaled back by 2^r: the
      lowest n lanes of x, less the r bits shifted out at the bottom, plus
      the r bits lane n hands down. */
  lemma {:induction false} ShiftRightPrefix(x: Word, r: nat, n: nat)
    requires 0 < r < 8 && n <= 8
    ensures PrefixValue(ShiftRight(x, r), n) * Pow2(r) + LowBitsOf(x[0], r) as int
            == PrefixValue(x, n) + Spill(x, r, n) * Pow256(n)
  {
    if n > 0 {
      ShiftRightPrefix(x, r, n - 1);
      ShiftRightPrefixStep(x, r, n - 1, n);
    }
  }

  /** `x >> 0` is x. */
  lemma ShiftRightNothing(x: Word)
    ensures ShiftRight(x, 0) == x
  {
    forall k: LaneIndex
      ensures ShiftRight(x, 0)[k] == x[k]
    {
      assert 0 / 8 == 0 && 0 % 8 == 0;
      assert ShiftRight(x, 0)[k] == ByteShr(x[k], 0) | 0;
    }
  }

  /** `x >> r` for r < 8 is division by 2^r. */
  lemma ShiftRightBitsValue(x: Word, r: nat)
    requires r < 8
    ensures Value(ShiftRight(x, r)) == Value(x) / Pow2(r)
  {
    if r == 0 {
      ShiftRightNothing(x);
    } else {
      ShiftRightPrefix(x, r, |x|);
      ByteSplit(x[0], r);
      ModUnique(Value(x), Value(ShiftRight(x, r)), LowBitsOf(x[0], r) as int, Pow2(r));
    }
  }

  // ---------------------------------------------------------------------------
  // Left shifts within a lane boundary

  /** The arithmetic of one lane of `x << r`. */
  lemma ShlLaneArith(z: int, g: int, l: int, hk: int, b: int, p: int, p2: int)
    requires z == g + l * p && b == hk * p2 + l && p * p2 == 256
    ensures z + 256 * hk == b * p + g
  {
    assert b * p == hk * (p2 * p) + l * p;
  }

  /** The high r bits of lane k, which `x << r` carries into lane k + 1. */
  function Carried(x: Word, r: nat, k: LaneIndex): int
    requires r <= 8
  {
    ByteShr(x[k], 8 - r) as int
  }

  /** What lane n - 1 carries into lane n in `x << r`, nothing for n = 0. */
  function CarriedInto(x: Word, r: nat, n: nat): int
    requires r <= 8 && n <= 8
  {
    if n == 0 then 0 else Carried(x, r, n - 1)
  }

  /** Lane k of `x << r`, 0 < r < 8: the low 8 - r bits of lane k moved up
      by r, above the bits lane k - 1 carries in. */
  lemma ShiftLeftLaneJoin(x: Word, r: nat, k: LaneIndex)
    requires 0 < r < 8
    ensures ShiftLeft(x, r)[k] as int == CarriedInto(x, r, k) + LowBitsOf(x[k], 8 - r) as int * Pow2(r)
  {
    ShiftLeftLane(x, r, k);
    if 0 < k {
      JoinLaneLeft(x[k - 1], x[k], r);
    } else {
      JoinLaneLeft(0, x[k], r);
      assert ByteShr(0, 8 - r) == 0;
      assert ShiftLeft(x, r)[k] == ByteShl(x[k], r) | ByteShr(0, 8 - r);
    }
  }

  /** Lane k of `x << r`, 0 < r < 8, plus the bits it loses at weight 256, is
      lane k of x scaled by 2^r plus what lane k - 1 carries in. */
  lemma ShiftLeftLaneValue(x: Word, r: nat, k: LaneIndex)
    requires 0 < r < 8
    ensures ShiftLeft(x, r)[k] as int + 256 * Carried(x, r, k) == x[k] as int * Pow2(r) + CarriedInto(x, r, k)
  {
    ShiftLeftLaneJoin(x, r, k);
    ByteSplit(x[k], 8 - r);
    Pow2Split(r);
    ShlLaneArith(ShiftLeft(x, r)[k] as int, CarriedInto(x, r, k), LowBitsOf(x[k], 8 - r) as int,
                 Carried(x, r, k), x[k] as int, Pow2(r), Pow2(8 - r));
  }

  /** The arithmetic of one step of `ShiftLeftPrefix`. */
  lemma ShlStep(pvz: int, pvx: int, g: int, zm: int, xm: int, hm: int, p: int, w: int,
                pvz1: int, pvx1: int, w1: int)
    requires pvz + g * w == pvx * p
    requires zm + 256 * hm == xm * p + g
    requires pvz1 == pvz + zm * w && pvx1 == pvx + xm * w && w1 == 256 * w
    ensures pvz1 + hm * w1 == pvx1 * p
  {
    assert pvx1 * p == pvx * p + (xm * p) * w;
    assert (zm + 256 * hm) * w == zm * w + hm * w1;
  }

  /** The invariant of `ShiftLeftPrefix` at n lanes. */
  predicate ShlPrefixHolds(x: Word, r: nat, n: nat)
    requires 0 < r < 8 && n <= 8
  {
    PrefixValue(ShiftLeft(x, r), n) + CarriedInto(x, r, n) * Pow256(n) == PrefixValue(x, n) * Pow2(r)
  }

  /** Lane m of `x << r` takes the invariant from m lanes to m + 1. */
  lemma ShiftLeftPrefixStep(x: Word, r: nat, m: nat, n: nat)
    requires 0 < r < 8 && n == m + 1 && n <= 8
    requires ShlPrefixHolds(x, r, m)
    ensures ShlPrefixHolds(x, r, n)
  {
    var z := ShiftLeft(x, r);
    ShiftLeftLaneValue(x, r, m);
    PrefixValueStep(z, m, n);
    PrefixValueStep(x, m, n);
    ShlStep(PrefixValue(z, m), PrefixValue(x, m), CarriedInto(x, r, m), z[m] as int, x[m] as int,
            Carried(x, r, m), Pow2(r), Pow256(m), PrefixValue(z, n), PrefixValue(x, n), Pow256(n));
  }

  /** The lowest n lanes of `x << r`, 0 < r < 8, plus the bits lane n - 1
      carries out, are the lowest n lanes of x scaled by 2^r. */
  lemma {:induction false} ShiftLeftPrefix(x: Word, r: nat, n: nat)
    requires 0 < r < 8 && n <= 8
    ensures PrefixValue(ShiftLeft(x, r), n) + CarriedInto(x, r, n) * Pow256(n) == PrefixValue(x, n) * Pow2(r)
  {
    if n > 0 {
      ShiftLeftPrefix(x, r, n - 1);
      ShiftLeftPrefixStep(x, r, n - 1, n);
    }
  }

  /** `x << r` for r < 8 is multiplication by 2^r modulo 2^64. */
  lemma ShiftLeftBitsValue(x: Word, r: nat)
    requires r < 8
    ensures Value(ShiftLeft(x, r)) == (Value(x) * Pow2(r)) % Modulus
  {
    if r == 0 {
      ShiftLeftNothing(x);
      ValueBound(x);
      ModUnique(Value(x), 0, Value(x), Modulus);
    } else {
      ShiftLeftPrefix(x, r, |x|);
      Pow256Eight();
      ValueBound(ShiftLeft(x, r));
      ModUnique(Value(x) * Pow2(r), CarriedInto(x, r, 8), Value(ShiftLeft(x, r)), Modulus);
    }
  }

  // ---------------------------------------------------------------------------
  // Right shifts by whole lanes

  /** `x >> 8q` moves every lane down by q lanes and fills with zeros. */
  lemma ShiftRightLanes(x: Word, q: nat)
    requires q < 8
    ensures forall l: LaneIndex :: ShiftRight(x, 8 * q)[l] == if l + q < 8 then x[l + q] else 0
  {
    assert (8 * q) / 8 == q && (8 * q) % 8 == 0;
    forall l: LaneIndex
      ensures ShiftRight(x, 8 * q)[l] == if l + q < 8 then x[l + q] else 0
    {
      if l + q < 8 {
        assert ShiftRight(x, 8 * q)[l] == ByteShr(x[l + q], 0) | 0;
      } else {
        assert ShiftRight(x, 8 * q)[l] == 0 | 0;
      }
    }
  }

  /** The lowest m lanes of `x >> 8q` are lanes q .. q + m - 1 of x. */
  lemma {:induction false} LoweredPrefix(x: Word, q: nat, m: nat)
    requires q < 8 && q + m <= 8
    ensures PrefixValue(ShiftRight(x, 8 * q), m) == UpperValue(x, q, q + m)
  {
    if m > 0 {
      LoweredPrefix(x, q, m - 1);
      ShiftRightLanes(x, q);
      assert ShiftRight(x, 8 * q)[m - 1] == x[q + m - 1];
    }
  }

  /** Lanes above n that are all zero add nothing. */
  lemma {:induction false} ZeroTop(x: Word, m: nat, n: nat)
    requires m <= n <= 8
    requires forall k: LaneIndex :: m <= k ==> x[k] == 0
    ensures PrefixValue(x, n) == PrefixValue(x, m)
  {
    if n > m {
      ZeroTop(x, m, n - 1);
      assert x[n - 1] == 0;
    }
  }

  /** `x >> 8q` is division by 256^q. */
  lemma ShiftRightLanesValue(x: Word, q: nat)
    requires q < 8
    ensures Value(ShiftRight(x, 8 * q)) == Value(x) / Pow256(q)
  {
    var y := ShiftRight(x, 8 * q);
    ShiftRightLanes(x, q);
    ZeroTop(y, 8 - q, 8);
    LoweredPrefix(x, q, 8 - q);
    PrefixSplit(x, q, 8);
    PrefixValueBound(x, q);
    ModUnique(Value(x), Value(y), PrefixValue(x, q), Pow256(q));
  }

  // ---------------------------------------------------------------------------
  // Any shift count

  /** A shift by 8q + r bits is a shift by r bits, then by q lanes. */
  lemma ShiftRightSplit(x: Word, q: nat, r: nat)
    requires q < 8 && r < 8
    ensures ShiftRight(x, 8 * q + r) == ShiftRight(ShiftRight(x, r), 8 * q)
  {
    var w := ShiftRight(x, r);
    ShiftRightLanes(w, q);
    assert (8 * q + r) / 8 == q && (8 * q + r) % 8 == r;
    assert r / 8 == 0 && r % 8 == r;
    forall k: LaneIndex
      ensures ShiftRight(x, 8 * q + r)[k] == ShiftRight(w, 8 * q)[k]
    {
      if k + q >= 8 {
        assert ShiftRight(x, 8 * q + r)[k] == 0 | 0;
      }
    }
  }

  /** A shift by 8q + r bits is a shift by r bits, then by q lanes. */
  lemma ShiftLeftSplit(x: Word, q: nat, r: nat)
    requires q < 8 && r < 8
    ensures ShiftLeft(x, 8 * q + r) == ShiftLeft(ShiftLeft(x, r), 8 * q)
  {
    var w := ShiftLeft(x, r);
    ShiftLeftLanes(w, q);
    assert (8 * q + r) / 8 == q && (8 * q + r) % 8 == r;
    assert r / 8 == 0 && r % 8 == r;
    forall k: LaneIndex
      ensures ShiftLeft(x, 8 * q + r)[k] == ShiftLeft(w, 8 * q)[k]
    {
      if k < q {
        assert ShiftLeft(x, 8 * q + r)[k] == 0 | 0;
      }
    }
  }

  /** The two divisions of `DivDiv` put together. */
  lemma DivDivSum(a: int, b: int, c: int, q1: int, r1: int, q2: int, r2: int)
    requires a == q1 * b + r1 && q1 == q2 * c + r2
    ensures a == q2 * (b * c) + (r2 * b + r1)
  {
    assert q1 * b == (q2 * c) * b + r2 * b;
    MulRegroup(q2, c, b);
  }

  /** The combined remainder of `DivDiv` is below b c. */
  lemma DivDivBound(b: int, c: int, r1: int, r2: int)
    requires 0 <= r1 < b && 0 <= r2 < c
    ensures 0 <= r2 * b + r1 < b * c
  {
    var d := c - 1 - r2;
    assert d * b >= 0;
    assert b * c == r2 * b + b + d * b;
  }

  /** Dividing by b and then by c is dividing by b c. */
  lemma DivDiv(a: int, b: int, c: int)
    requires a >= 0 && b > 0 && c > 0
    ensures (a / b) / c == a / (b * c)
  {
    var q1, r1 := a / b, a % b;
    var q2, r2 := q1 / c, q1 % c;
    DivDivSum(a, b, c, q1, r1, q2, r2);
    DivDivBound(b, c, r1, r2);
    ModUnique(a, q2, r2 * b + r1, b * c);
  }

  /** 2^(8q + r) = 2^r 256^q */
  lemma Pow2Split8(q: nat, r: nat)
    ensures Pow2(8 * q + r) == Pow2(r) * Pow256(q)
  {
    Pow2Sum(r, 8 * q);
    Pow2Lanes(q);
  }

  /** `x >> n` is division by 2^n, for every n < 64. */
  lemma ShiftRightValue(x: Word, n: nat)
    requires n < 64
    ensures Value(ShiftRight(x, n)) == Value(x) / Pow2(n)
  {
    var q, r := n / 8, n % 8;
    ShiftRightSplit(x, q, r);
    ShiftRightLanesValue(ShiftRight(x, r), q);
    ShiftRightBitsValue(x, r);
    Pow2Split8(q, r);
    DivDiv(Value(x), Pow2(r), Pow256(q));
  }

  /** Scaling by p and then by w, each modulo m, is scaling by p w modulo m. */
  lemma ScaleTwice(a: int, p: int, w: int, pw: int, m: int)
    requires m > 0 && pw == p * w
    ensures (((a * p) % m) * w) % m == (a * pw) % m
  {
    ModScale(a * p, w, m);
    MulRegroup(a, p, w);
  }

  /** `x << n` is multiplication by 2^n modulo 2^64, for every n < 64. */
  lemma ShiftLeftValue(x: Word, n: nat)
    requires n < 64
    ensures Value(ShiftLeft(x, n)) == (Value(x) * Pow2(n)) % Modulus
  {
    var q, r := n / 8, n % 8;
    ShiftLeftSplit(x, q, r);
    ShiftLeftLanesValue(ShiftLeft(x, r), q);
    ShiftLeftBitsValue(x, r);
    Pow2Split8(q, r);
    ScaleTwice(Value(x), Pow2(r), Pow256(q), Pow2(n), Modulus);
  }
}
