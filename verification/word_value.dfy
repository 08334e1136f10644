/** The number a word stands for, and the proof that the lane-wise `+`, `-`
    and `*` of `Words` are Go's `uint64` arithmetic: the value of each result
    is the whole-number result reduced modulo 2^64. */
module WordValue {
  import opened Words
  import opened LaneFacts

  /** 256^n */
  function Pow256(n: nat): (r: nat)
    ensures r >= 1
  {
    if n == 0 then 1 else 256 * Pow256(n - 1)
  }

  /** 2^64, the modulus of Go's `uint64` arithmetic */
  const Modulus: nat := 0x1_0000_0000_0000_0000

  /** The number the lowest n lanes of x stand for. */
  function PrefixValue(x: Word, n: nat): nat
    requires n <= 8
  {
    if n == 0 then 0 else PrefixValue(x, n - 1) + x[n - 1] as int * Pow256(n - 1)
  }

  /** The number a word stands for. */
  function Value(x: Word): nat
  {
    PrefixValue(x, |x|)
  }

  /** One lane more: lane m enters the prefix value at weight 256^m, and the
      weight of the next lane is 256 times that. */
  lemma PrefixValueStep(y: Word, m: nat, n: nat)
    requires n == m + 1 && n <= 8
    ensures PrefixValue(y, n) == PrefixValue(y, m) + y[m] as int * Pow256(m)
    ensures Pow256(n) == 256 * Pow256(m)
  {
  }

  lemma Pow256Eight()
    ensures Pow256(8) == Modulus
  {
    assert Pow256(4) == 0x1_0000_0000;
  }

  /** The lowest n lanes stand for a number below 256^n. */
  lemma {:induction false} PrefixValueBound(x: Word, n: nat)
    requires n <= 8
    ensures PrefixValue(x, n) < Pow256(n)
  {
    if n > 0 {
      PrefixValueBound(x, n - 1);
      var p := Pow256(n - 1);
      var b := x[n - 1] as int;
      assert b <= 255;
      assert b * p <= 255 * p;
    }
  }

  /** Every word stands for a number below 2^64. */
  lemma ValueBound(x: Word)
    ensures Value(x) < Modulus
  {
    PrefixValueBound(x, |x|);
    Pow256Eight();
  }

  // ---------------------------------------------------------------------------
  // Addition

  /** Widening two bytes to 16 bits and adding them loses nothing. */
  lemma WideSum(p: Byte, q: Byte)
    ensures (p as bv16 + q as bv16) as int == p as int + q as int
  {
  }

  lemma WideSucc(s: bv16)
    requires s as int < 511
    ensures (s + 1) as int == s as int + 1
  {
  }

  /** A 9-bit sum is its low byte plus 256 when bit 8 is set. */
  lemma LowByteAndCarry(w: bv16)
    requires w as int < 512
    ensures ((w & 0xFF) as Byte) as int + (if w >= 256 then 256 else 0) == w as int
  {
  }

  /** A byte d that, added to q with the low byte and the carry of a 16-bit
      sum, gives p and the carry b: in whole numbers `d + q == p + 256 b`. */
  lemma LowByteSum(d: Byte, q: Byte, p: Byte, b: bool)
    requires ((d as bv16 + q as bv16) & 0xFF) as Byte == p
    requires b == (d as bv16 + q as bv16 >= 256)
    ensures d as int + q as int == p as int + (if b then 256 else 0)
  {
    var w := d as bv16 + q as bv16;
    WideSum(d, q);
    LowByteAndCarry(w);
  }

  /** The same with one more added in. */
  lemma LowByteSumPlusOne(d: Byte, q: Byte, p: Byte, b: bool)
    requires ((d as bv16 + q as bv16 + 1) & 0xFF) as Byte == p
    requires b == (d as bv16 + q as bv16 + 1 >= 256)
    ensures d as int + q as int + 1 == p as int + (if b then 256 else 0)
  {
    var w := d as bv16 + q as bv16;
    WideSum(d, q);
    WideSucc(w);
    LowByteAndCarry(w + 1);
  }

  /** Without a carry in, the byte adder computes the low byte of the 16-bit
      sum and carries exactly when that sum reaches 256. */
  lemma AdderWithoutCarryIn(p: Byte, q: Byte)
    ensures ByteAdd(p, q, false) == ((p as bv16 + q as bv16) & 0xFF) as Byte
    ensures CarryOut(p, q, false) == (p as bv16 + q as bv16 >= 256)
  {
  }

  /** The same with a carry in. */
  lemma AdderWithCarryIn(p: Byte, q: Byte)
    ensures ByteAdd(p, q, true) == ((p as bv16 + q as bv16 + 1) & 0xFF) as Byte
    ensures CarryOut(p, q, true) == (p as bv16 + q as bv16 + 1 >= 256)
  {
  }

  /** The adder lane without a carry in, in whole numbers. */
  lemma AddByteCarryClear(p: Byte, q: Byte)
    ensures ByteAdd(p, q, false) as int + (if CarryOut(p, q, false) then 256 else 0)
         == p as int + q as int
  {
    AdderWithoutCarryIn(p, q);
    LowByteSum(p, q, ByteAdd(p, q, false), CarryOut(p, q, false));
  }

  /** The adder lane with a carry in, in whole numbers. */
  lemma AddByteCarrySet(p: Byte, q: Byte)
    ensures ByteAdd(p, q, true) as int + (if CarryOut(p, q, true) then 256 else 0)
         == p as int + q as int + 1
  {
    AdderWithCarryIn(p, q);
    LowByteSumPlusOne(p, q, ByteAdd(p, q, true), CarryOut(p, q, true));
  }

  /** One lane of the adder: the lane's sum and the carry it passes on make up
      the whole-number sum of its inputs. */
  lemma AddByte(p: Byte, q: Byte, c: bool)
    ensures ByteAdd(p, q, c) as int + (if CarryOut(p, q, c) then 256 else 0)
         == p as int + q as int + (if c then 1 else 0)
  {
    if c {
      AddByteCarrySet(p, q);
    } else {
      AddByteCarryClear(p, q);
    }
  }

  /** The arithmetic of one step of a ripple adder: a lane relation
      `s + 256 co == a + b + c` scaled by the lane's weight p. */
  lemma LaneStep(s: int, co: int, a: int, b: int, c: int, p: int)
    requires s + 256 * co == a + b + c
    ensures s * p + co * (256 * p) == a * p + b * p + c * p
  {
    calc {
      s * p + co * (256 * p);
      (s + 256 * co) * p;
      (a + b + c) * p;
    }
  }

  /** The arithmetic of one step of a ripple adder over whole prefixes:
      the relation for the lowest lanes, `ps + ci p == px + py`, and the
      lane relation `s + 256 co == a + b + ci` at weight p combine into the
      relation for one lane more. */
  lemma RippleStep(ps: int, px: int, py: int, ci: int, co: int, s: int, a: int, b: int, p: int)
    requires ps + ci * p == px + py
    requires s + 256 * co == a + b + ci
    ensures (ps + s * p) + co * (256 * p) == (px + a * p) + (py + b * p)
  {
    LaneStep(s, co, a, b, ci, p);
  }

  /** The carry out of the lowest n lanes of `x + y`. */
  function CarryOutOf(x: Word, y: Word, n: nat): bool
    requires n <= 8
  {
    if n == 0 then false else CarryOut(x[n - 1], y[n - 1], CarryOutOf(x, y, n - 1))
  }

  lemma CarryOutOfIsCarryInto(x: Word, y: Word, n: nat)
    requires n < 8
    ensures CarryOutOf(x, y, n) == CarryInto(x, y, n)
  {
  }

  /** Lane m of `x + y` in whole numbers, with the carries in and out. */
  lemma AddLaneValue(x: Word, y: Word, m: nat)
    requires m < 8
    ensures Add(x, y)[m] as int + (if CarryOutOf(x, y, m + 1) then 256 else 0)
         == x[m] as int + y[m] as int + (if CarryOutOf(x, y, m) then 1 else 0)
  {
    CarryOutOfIsCarryInto(x, y, m);
    AddByte(x[m], y[m], CarryOutOf(x, y, m));
  }

  /** The lowest n lanes of `x + y`, with the carry out of them, stand for
      the sum of the numbers the lowest n lanes of x and y stand for. */
  lemma {:induction false} AddPrefix(x: Word, y: Word, n: nat)
    requires n <= 8
    ensures PrefixValue(Add(x, y), n) + (if CarryOutOf(x, y, n) then Pow256(n) else 0)
         == PrefixValue(x, n) + PrefixValue(y, n)
  {
    if n > 0 {
      var m := n - 1;
      AddPrefix(x, y, m);
      AddLaneValue(x, y, m);
      RippleStep(PrefixValue(Add(x, y), m), PrefixValue(x, m), PrefixValue(y, m),
                 if CarryOutOf(x, y, m) then 1 else 0, if CarryOutOf(x, y, n) then 1 else 0,
                 Add(x, y)[m] as int, x[m] as int, y[m] as int, Pow256(m));
    }
  }

  /** `x + y` on words is addition modulo 2^64. */
  lemma AddValue(x: Word, y: Word)
    ensures Value(Add(x, y)) == (Value(x) + Value(y)) % Modulus
  {
    AddPrefix(x, y, |x|);
    Pow256Eight();
    ValueBound(Add(x, y));
  }

  // ---------------------------------------------------------------------------
  // Subtraction

  /** Without a borrow in, the byte subtractor's result plus q is p, or
      p + 256 exactly when it borrows. */
  lemma SubtractorWithoutBorrowIn(p: Byte, q: Byte)
    ensures ((ByteSub(p, q, false) as bv16 + q as bv16) & 0xFF) as Byte == p
    ensures BorrowOut(p, q, false) == (ByteSub(p, q, false) as bv16 + q as bv16 >= 256)
  {
  }

  /** The same with a borrow in. */
  lemma SubtractorWithBorrowIn(p: Byte, q: Byte)
    ensures ((ByteSub(p, q, true) as bv16 + q as bv16 + 1) & 0xFF) as Byte == p
    ensures BorrowOut(p, q, true) == (ByteSub(p, q, true) as bv16 + q as bv16 + 1 >= 256)
  {
  }

  /** The subtractor lane without a borrow in, in whole numbers. */
  lemma SubByteBorrowClear(p: Byte, q: Byte)
    ensures ByteSub(p, q, false) as int + q as int
         == p as int + (if BorrowOut(p, q, false) then 256 else 0)
  {
    SubtractorWithoutBorrowIn(p, q);
    LowByteSum(ByteSub(p, q, false), q, p, BorrowOut(p, q, false));
  }

  /** The subtractor lane with a borrow in, in whole numbers. */
  lemma SubByteBorrowSet(p: Byte, q: Byte)
    ensures ByteSub(p, q, true) as int + q as int + 1
         == p as int + (if BorrowOut(p, q, true) then 256 else 0)
  {
    SubtractorWithBorrowIn(p, q);
    LowByteSumPlusOne(ByteSub(p, q, true), q, p, BorrowOut(p, q, true));
  }

  /** One lane of the subtractor: the lane's difference plus what it takes
      away is its first input, plus 256 when it borrows from the next lane. */
  lemma SubByte(p: Byte, q: Byte, c: bool)
    ensures ByteSub(p, q, c) as int + q as int + (if c then 1 else 0)
         == p as int + (if BorrowOut(p, q, c) then 256 else 0)
  {
    if c {
      SubByteBorrowSet(p, q);
    } else {
      SubByteBorrowClear(p, q);
    }
  }

  /** The borrow out of the lowest n lanes of `x - y`. */
  function BorrowOutOf(x: Word, y: Word, n: nat): bool
    requires n <= 8
  {
    if n == 0 then false else BorrowOut(x[n - 1], y[n - 1], BorrowOutOf(x, y, n - 1))
  }

  lemma BorrowOutOfIsBorrowInto(x: Word, y: Word, n: nat)
    requires n < 8
    ensures BorrowOutOf(x, y, n) == BorrowInto(x, y, n)
  {
  }

  /** Lane m of `x - y` in whole numbers, with the borrows in and out. */
  lemma SubLaneValue(x: Word, y: Word, m: nat)
    requires m < 8
    ensures Sub(x, y)[m] as int + y[m] as int + (if BorrowOutOf(x, y, m) then 1 else 0)
         == x[m] as int + (if BorrowOutOf(x, y, m + 1) then 256 else 0)
  {
    BorrowOutOfIsBorrowInto(x, y, m);
    SubByte(x[m], y[m], BorrowOutOf(x, y, m));
  }

  /** The lowest n lanes of `x - y`, added to those of y, give those of x,
      plus 256^n when the lowest n lanes borrow. */
  lemma {:induction false} SubPrefix(x: Word, y: Word, n: nat)
    requires n <= 8
    ensures PrefixValue(Sub(x, y), n) + PrefixValue(y, n)
         == PrefixValue(x, n) + (if BorrowOutOf(x, y, n) then Pow256(n) else 0)
  {
    if n > 0 {
      var m := n - 1;
      SubPrefix(x, y, m);
      SubLaneValue(x, y, m);
      LaneStep(x[m] as int, if BorrowOutOf(x, y, n) then 1 else 0,
               Sub(x, y)[m] as int, y[m] as int, if BorrowOutOf(x, y, m) then 1 else 0, Pow256(m));
    }
  }

  /** `x - y` on words is subtraction modulo 2^64. */
  lemma SubValue(x: Word, y: Word)
    ensures Value(Sub(x, y)) == (Value(x) - Value(y)) % Modulus
  {
    SubPrefix(x, y, |x|);
    Pow256Eight();
    ValueBound(Sub(x, y));
  }

  // ---------------------------------------------------------------------------
  // Remainders

  lemma MultipleSign(d: int, m: int)
    requires m > 0
    ensures d >= 1 ==> d * m >= m
    ensures d <= -1 ==> d * m <= -m
  {
    if d >= 1 {
      assert (d - 1) * m >= 0;
    } else if d <= -1 {
      assert (-d - 1) * m >= 0;
    }
  }

  /** A number written as `k * m + r` with 0 <= r < m has quotient k and
      remainder r. */
  lemma ModUnique(a: int, k: int, r: int, m: int)
    requires m > 0 && 0 <= r < m
    requires a == k * m + r
    ensures a % m == r && a / m == k
  {
    var q, s := a / m, a % m;
    assert a == q * m + s;
    var d := k - q;
    assert d * m == s - r by {
      assert k * m - q * m == s - r;
      assert d * m == k * m - q * m;
    }
    MultipleSign(d, m);
  }

  /** Reducing the summands first does not change the remainder of a sum. */
  lemma ModSum(a: int, b: int, m: int)
    requires m > 0
    ensures (a % m + b % m) % m == (a + b) % m
  {
    var qa, qb := a / m, b / m;
    var q, r := (a + b) / m, (a + b) % m;
    assert a % m + b % m == (a + b) - (qa + qb) * m;
    assert a % m + b % m == (q - qa - qb) * m + r;
    ModUnique(a % m + b % m, q - qa - qb, r, m);
  }

  /** Reducing a factor first does not change the remainder of a product. */
  lemma ModScale(a: int, p: int, m: int)
    requires m > 0
    ensures ((a % m) * p) % m == (a * p) % m
  {
    var qa := a / m;
    var q, r := (a * p) / m, (a * p) % m;
    assert (a % m) * p == a * p - qa * p * m by {
      assert a % m == a - qa * m;
      assert (a - qa * m) * p == a * p - qa * m * p;
    }
    assert (a % m) * p == (q - qa * p) * m + r;
    ModUnique((a % m) * p, q - qa * p, r, m);
  }

  // ---------------------------------------------------------------------------
  // Multiplication by one byte

  lemma NibbleAsByte(v: int)
    requires 0 <= v < 16
    ensures (v as Byte) as int == v
  {
  }

  lemma JoinNibbles(p: Byte, q: Byte)
    requires p < 16 && q < 16
    ensures ((p << 4) | q) as int == 16 * (p as int) + q as int
  {
  }

  /** A number below 256 converts to the byte with that value: the byte is
      the join of the number's two hexadecimal digits. */
  lemma IntAsByte(v: int)
    requires 0 <= v < 256
    ensures (v as Byte) as int == v
  {
    var h, l := v / 16, v % 16;
    NibbleAsByte(h);
    NibbleAsByte(l);
    JoinNibbles(h as Byte, l as Byte);
    ByteAsInt(((h as Byte) << 4) | (l as Byte));
  }

  /** The carry out of the lowest n lanes of `x * c`. */
  function MulCarryOutOf(x: Word, c: Byte, n: nat): (r: nat)
    requires n <= 8
    ensures r < 256
  {
    if n == 0 then 0 else
      ProductBound(x[n - 1] as int, c as int);
      (x[n - 1] as int * c as int + MulCarryOutOf(x, c, n - 1)) / 256
  }

  lemma MulCarryOutOfIsMulCarryInto(x: Word, c: Byte, n: nat)
    requires n < 8
    ensures MulCarryOutOf(x, c, n) == MulCarryInto(x, c, n)
  {
  }

  lemma MulByteLane(x: Word, c: Byte, m: nat)
    requires m < 8
    ensures 0 <= x[m] as int * c as int + MulCarryOutOf(x, c, m) < 65536
    ensures MulByte(x, c)[m] == ((x[m] as int * c as int + MulCarryOutOf(x, c, m)) % 256) as Byte
  {
    MulCarryOutOfIsMulCarryInto(x, c, m);
    ProductBound(x[m] as int, c as int);
  }

  /** Lane m of `x * c` in whole numbers: its byte and the carry it passes on
      make up the lane's product plus the carry it receives. */
  lemma MulLaneValue(x: Word, c: Byte, m: nat)
    requires m < 8
    ensures MulByte(x, c)[m] as int + 256 * MulCarryOutOf(x, c, m + 1)
         == x[m] as int * c as int + MulCarryOutOf(x, c, m)
  {
    var t := x[m] as int * c as int + MulCarryOutOf(x, c, m);
    MulByteLane(x, c, m);
    IntAsByte(t % 256);
    assert MulCarryOutOf(x, c, m + 1) == t / 256;
  }

  /** The arithmetic of one step of the byte multiplier: the relation for
      the lowest lanes, `low + ci p == pv c`, and the lane relation
      `s + 256 co == a c + ci` at weight p give the relation for one lane
      more, whose prefix values are low1 and pv1 and next weight pn. */
  lemma MulStep(low: int, pv: int, s: int, co: int, a: int, c: int, ci: int, p: int,
                low1: int, pv1: int, pn: int)
    requires low + ci * p == pv * c
    requires s + 256 * co == a * c + ci
    requires low1 == low + s * p && pv1 == pv + a * p && pn == 256 * p
    ensures low1 + co * pn == pv1 * c
  {
    calc {
      low1 + co * pn;
      low + (s + 256 * co) * p;
      low + (a * c + ci) * p;
      low + ci * p + a * c * p;
      pv * c + a * c * p;
      pv1 * c;
    }
  }

  /** One more lane of `x * c`: the relation for the lowest m lanes gives the
      relation for the lowest n = m + 1. */
  lemma MulBytePrefixStep(x: Word, c: Byte, m: nat, n: nat)
    requires n == m + 1 && n <= 8
    requires PrefixValue(MulByte(x, c), m) + MulCarryOutOf(x, c, m) * Pow256(m)
          == PrefixValue(x, m) * c as int
    ensures PrefixValue(MulByte(x, c), n) + MulCarryOutOf(x, c, n) * Pow256(n)
         == PrefixValue(x, n) * c as int
  {
    var z := MulByte(x, c);
    MulLaneValue(x, c, m);
    PrefixValueStep(z, m, n);
    PrefixValueStep(x, m, n);
    MulStep(PrefixValue(z, m), PrefixValue(x, m), z[m] as int, MulCarryOutOf(x, c, n),
            x[m] as int, c as int, MulCarryOutOf(x, c, m), Pow256(m),
            PrefixValue(z, n), PrefixValue(x, n), Pow256(n));
  }

  /** The lowest n lanes of `x * c`, with the carry out of them, stand for
      c times the number the lowest n lanes of x stand for. */
  lemma {:induction false} MulBytePrefix(x: Word, c: Byte, n: nat)
    requires n <= 8
    ensures PrefixValue(MulByte(x, c), n) + MulCarryOutOf(x, c, n) * Pow256(n)
         == PrefixValue(x, n) * c as int
  {
    if n > 0 {
      var m := n - 1;
      MulBytePrefix(x, c, m);
      MulBytePrefixStep(x, c, m, n);
    }
  }

  /** `x * uint64(c)` on words is multiplication modulo 2^64. */
  lemma MulByteValue(x: Word, c: Byte)
    ensures Value(MulByte(x, c)) == (Value(x) * c as int) % Modulus
  {
    MulBytePrefix(x, c, |x|);
    Pow256Eight();
    ValueBound(MulByte(x, c));
    ModUnique(Value(x) * c as int, MulCarryOutOf(x, c, |x|), Value(MulByte(x, c)), Modulus);
  }

  // ---------------------------------------------------------------------------
  // Shifting by whole lanes, and the full product

  lemma {:induction false} Pow256Sum(a: nat, b: nat)
    ensures Pow256(a + b) == Pow256(a) * Pow256(b)
  {
    if a > 0 {
      Pow256Sum(a - 1, b);
      assert Pow256(a + b) == 256 * Pow256(a - 1 + b);
    }
  }

  /** The number lanes l .. n - 1 of x stand for on their own. */
  function UpperValue(x: Word, l: nat, n: nat): nat
    requires l <= n <= 8
    decreases n
  {
    if n == l then 0 else UpperValue(x, l, n - 1) + x[n - 1] as int * Pow256(n - 1 - l)
  }

  lemma SplitStep(pl: int, u: int, a: int, p: int, pu: int)
    ensures pl + u * p + a * (pu * p) == pl + (u + a * pu) * p
  {
  }

  /** The arithmetic of one step of `PrefixSplit`: lane m, at weight
      pm = pu pl, joins both the whole prefix and the upper part. */
  lemma SplitPrefixStep(pvl: int, pvm: int, um: int, a: int, pl: int, pu: int, pm: int, pvn: int, un: int)
    requires pvm == pvl + um * pl
    requires pm == pu * pl
    requires pvn == pvm + a * pm && un == um + a * pu
    ensures pvn == pvl + un * pl
  {
    SplitStep(pvl, um, a, pl, pu);
  }

  /** The lowest n lanes are the lowest l lanes plus lanes l .. n - 1 scaled
      by 256^l. */
  lemma {:induction false} PrefixSplit(x: Word, l: nat, n: nat)
    requires l <= n <= 8
    ensures PrefixValue(x, n) == PrefixValue(x, l) + UpperValue(x, l, n) * Pow256(l)
  {
    if n > l {
      var m := n - 1;
      PrefixSplit(x, l, m);
      PrefixValueStep(x, m, n);
      Pow256Sum(m - l, l);
      assert UpperValue(x, l, n) == UpperValue(x, l, m) + x[m] as int * Pow256(m - l);
      SplitPrefixStep(PrefixValue(x, l), PrefixValue(x, m), UpperValue(x, l, m), x[m] as int,
                      Pow256(l), Pow256(m - l), Pow256(m), PrefixValue(x, n), UpperValue(x, l, n));
    }
  }

  /** Lanes that are all zero stand for 0. */
  lemma {:induction false} ZeroPrefix(x: Word, n: nat)
    requires n <= 8
    requires forall k: LaneIndex :: k < n ==> x[k] == 0
    ensures PrefixValue(x, n) == 0
  {
    if n > 0 {
      ZeroPrefix(x, n - 1);
    }
  }

  /** The lowest n lanes of `x << 8q` are the lowest n - q lanes of x scaled
      by 256^q. */
  lemma {:induction false} ShiftedPrefix(x: Word, q: nat, n: nat)
    requires q < 8 && q <= n <= 8
    ensures PrefixValue(ShiftLeft(x, 8 * q), n) == PrefixValue(x, n - q) * Pow256(q)
  {
    ShiftLeftLanes(x, q);
    if n == q {
      ZeroPrefix(ShiftLeft(x, 8 * q), n);
    } else {
      ShiftedPrefix(x, q, n - 1);
      Pow256Sum(n - 1 - q, q);
      SplitStep(0, PrefixValue(x, n - 1 - q), x[n - 1 - q] as int, Pow256(q),
                Pow256(n - 1 - q));
    }
  }

  /** The arithmetic of `ShiftLeftLanesValue`: splitting v at weight pr into
      low and up, the low part scaled by pq is what remains of v pq modulo
      m = pr pq. */
  lemma ShiftMod(v: int, low: int, up: int, pq: int, pr: int, m: int, s: int)
    requires v == low + up * pr && m == pr * pq
    requires s == low * pq && 0 <= s < m
    ensures (v * pq) % m == s
  {
    assert v * pq == up * m + s by {
      SplitStep(0, low, up, pq, pr);
    }
    ModUnique(v * pq, up, s, m);
  }

  /** `x << 8q` on words is multiplication by 256^q modulo 2^64. */
  lemma ShiftLeftLanesValue(x: Word, q: nat)
    requires q < 8
    ensures Value(ShiftLeft(x, 8 * q)) == (Value(x) * Pow256(q)) % Modulus
  {
    var n := |x|;
    var z := ShiftLeft(x, 8 * q);
    ShiftedPrefix(x, q, n);
    PrefixSplit(x, n - q, n);
    Pow256Sum(n - q, q);
    Pow256Eight();
    ValueBound(z);
    ShiftMod(Value(x), PrefixValue(x, n - q), UpperValue(x, n - q, n), Pow256(q), Pow256(n - q),
             Modulus, Value(z));
  }

  /** Multiplication regroups. */
  lemma MulRegroup(a: int, b: int, c: int)
    ensures (a * b) * c == a * (b * c)
  {
  }

  /** Partial product m of `x * y`, `(x * y_m) << 8m`, stands for x times
      y_m times 256^m, modulo 2^64. */
  lemma PartialProductValue(x: Word, c: Byte, m: nat)
    requires m < 8
    ensures Value(ShiftLeft(MulByte(x, c), 8 * m)) == (Value(x) * (c as int * Pow256(m))) % Modulus
  {
    var v, p := Value(x), Pow256(m);
    MulByteValue(x, c);
    ShiftLeftLanesValue(MulByte(x, c), m);
    ModScale(v * c as int, p, Modulus);
    MulRegroup(v, c as int, p);
  }

  /** The arithmetic of one step of schoolbook multiplication modulo m:
      adding the next partial product, reduced, to the reduced running sum. */
  lemma ProductModStep(v: int, pm: int, t: int, m: int, sum: int, part: int, next: int, pm1: int)
    requires m > 0
    requires sum == (v * pm) % m
    requires part == (v * t) % m
    requires next == (sum + part) % m
    requires pm1 == pm + t
    ensures next == (v * pm1) % m
  {
    ModSum(v * pm, v * t, m);
    assert v * pm + v * t == v * pm1;
  }

  /** Adding a word that stands for v times t to one that stands for v
      times pm gives one that stands for v times (pm + t), modulo 2^64. */
  lemma ScaledSum(v: int, pm: int, t: int, prev: Word, part: Word)
    requires Value(prev) == (v * pm) % Modulus
    requires Value(part) == (v * t) % Modulus
    ensures Value(Add(prev, part)) == (v * (pm + t)) % Modulus
  {
    AddValue(prev, part);
    ProductModStep(v, pm, t, Modulus, Value(prev), Value(part), Value(Add(prev, part)), pm + t);
  }

  /** Adding a word that stands for v times lane m of y, scaled by 256^m,
      to one that stands for v times the lowest m lanes of y gives v times
      the lowest n = m + 1 lanes of y (all modulo 2^64). */
  lemma ProductSumStep(v: int, y: Word, m: nat, n: nat, prev: Word, part: Word)
    requires n == m + 1 && n <= 8
    requires Value(prev) == (v * PrefixValue(y, m)) % Modulus
    requires Value(part) == (v * (y[m] as int * Pow256(m))) % Modulus
    ensures Value(Add(prev, part)) == (v * PrefixValue(y, n)) % Modulus
  {
    PrefixValueStep(y, m, n);
    ScaledSum(v, PrefixValue(y, m), y[m] as int * Pow256(m), prev, part);
  }

  /** Adding the next partial product: if `prev` stands for x times the
      lowest m lanes of y, then `prev` plus partial product m stands for x
      times the lowest n = m + 1 lanes of y (all modulo 2^64). */
  lemma PartialProductsStep(x: Word, y: Word, m: nat, n: nat, prev: Word)
    requires n == m + 1 && n <= 8
    requires Value(prev) == (Value(x) * PrefixValue(y, m)) % Modulus
    ensures Value(Add(prev, ShiftLeft(MulByte(x, y[m]), 8 * m))) == (Value(x) * PrefixValue(y, n)) % Modulus
  {
    PartialProductValue(x, y[m], m);
    ProductSumStep(Value(x), y, m, n, prev, ShiftLeft(MulByte(x, y[m]), 8 * m));
  }

  /** With no partial products summed, the running sum is zero. */
  lemma NoPartialProducts(x: Word, y: Word)
    ensures Value(PartialProducts(x, y, 0)) == (Value(x) * PrefixValue(y, 0)) % Modulus
  {
    var z := PartialProducts(x, y, 0);
    assert z == Fill(0);
    ZeroPrefix(z, |z|);
    assert Value(x) * PrefixValue(y, 0) == 0;
  }

  /** The sum of the first n partial products of `x * y` is x times the
      number the lowest n lanes of y stand for, modulo 2^64. */
  lemma {:induction false} PartialProductsValue(x: Word, y: Word, n: nat)
    requires n <= 8
    ensures Value(PartialProducts(x, y, n)) == (Value(x) * PrefixValue(y, n)) % Modulus
  {
    if n == 0 {
      NoPartialProducts(x, y);
    } else {
      var m := n - 1;
      PartialProductsValue(x, y, m);
      PartialProductsStep(x, y, m, n, PartialProducts(x, y, m));
    }
  }

  /** `x * y` on words is multiplication modulo 2^64. */
  lemma MulValue(x: Word, y: Word)
    ensures Value(Mul(x, y)) == (Value(x) * Value(y)) % Modulus
  {
    PartialProductsValue(x, y, |y|);
  }
}
