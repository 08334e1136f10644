/** A Go `uint64` seen as eight byte lanes.

    Lane k holds bits 8k..8k+7 of the word, so lane 0 is the least significant
    byte. Bitwise operators act on each lane separately; `+`, `-` and `*` are
    the usual ripple-carry constructions, in which the only link between lanes
    is the carry (or borrow) that one lane passes to the next; shifts by a
    constant move bits between neighbouring lanes. `WordValue` and `ShiftValue`
    prove that these constructions are Go's `uint64` arithmetic modulo 2^64. */
module Words {

  type Byte = bv8

  type LaneIndex = k: int | 0 <= k < 8

  /** The eight lanes of a 64-bit word, least significant lane first. */
  type Word = w: seq<Byte> | |w| == 8 witness [0, 0, 0, 0, 0, 0, 0, 0]

  /** Lane k of a 64-bit literal. */
  function LaneOf(v: bv64, k: LaneIndex): Byte
  {
    match k
    case 0 => (v & 0xFF) as Byte
    case 1 => ((v >> 8) & 0xFF) as Byte
    case 2 => ((v >> 16) & 0xFF) as Byte
    case 3 => ((v >> 24) & 0xFF) as Byte
    case 4 => ((v >> 32) & 0xFF) as Byte
    case 5 => ((v >> 40) & 0xFF) as Byte
    case 6 => ((v >> 48) & 0xFF) as Byte
    case 7 => (v >> 56) as Byte
  }

  /** The word a Go `uint64` literal denotes. */
  function FromBits(v: bv64): Word
  {
    seq(8, k requires 0 <= k < 8 => LaneOf(v, k))
  }

  /** `uint64(c)`: the byte in lane 0, zeros above it. */
  function FromByte(c: Byte): Word
  {
    seq(8, k requires 0 <= k < 8 => if k == 0 then c else 0)
  }

  /** The word with every lane equal to `b`. */
  function Fill(b: Byte): Word
  {
    seq(8, k requires 0 <= k < 8 => b)
  }

  // ---------------------------------------------------------------------------
  // Bitwise operators: lane by lane

  /** `^x` */
  function Not(x: Word): Word
  {
    seq(8, k requires 0 <= k < 8 => !x[k])
  }

  /** `x & y` */
  function And(x: Word, y: Word): Word
  {
    seq(8, k requires 0 <= k < 8 => x[k] & y[k])
  }

  /** `x | y` */
  function Or(x: Word, y: Word): Word
  {
    seq(8, k requires 0 <= k < 8 => x[k] | y[k])
  }

  /** `x ^ y` */
  function Xor(x: Word, y: Word): Word
  {
    seq(8, k requires 0 <= k < 8 => x[k] ^ y[k])
  }

  /** `x &^ y` (and-not) */
  function AndNot(x: Word, y: Word): Word
  {
    seq(8, k requires 0 <= k < 8 => x[k] & !y[k])
  }

  // ---------------------------------------------------------------------------
  // Addition and subtraction: lanes linked by a carry or borrow chain

  function ByteBit(c: bool): Byte
  {
    if c then 1 else 0
  }

  /** Whether `p - q - c` borrows from the next lane. */
  predicate BorrowOut(p: Byte, q: Byte, c: bool)
  {
    p < q || (p == q && c)
  }

  /** The borrow that lane k of `x - y` receives from the lanes below it. */
  function BorrowInto(x: Word, y: Word, k: LaneIndex): bool
    decreases k
  {
    if k == 0 then false else BorrowOut(x[k - 1], y[k - 1], BorrowInto(x, y, k - 1))
  }

  /** One lane of a subtractor: `p - q - c` modulo 256. */
  function ByteSub(p: Byte, q: Byte, c: bool): Byte
  {
    p - q - ByteBit(c)
  }

  /** Lane k of `x - y`: the byte difference less the borrow from below. */
  function SubLane(x: Word, y: Word, k: LaneIndex): Byte
  {
    ByteSub(x[k], y[k], BorrowInto(x, y, k))
  }

  /** `x - y`, wrapping modulo 2^64 */
  function Sub(x: Word, y: Word): Word
  {
    seq(8, k requires 0 <= k < 8 => SubLane(x, y, k))
  }

  /** Whether `p + q + c` carries into the next lane. */
  predicate CarryOut(p: Byte, q: Byte, c: bool)
  {
    q > 0xFF - p || (q == 0xFF - p && c)
  }

  /** The carry that lane k of `x + y` receives from the lanes below it. */
  function CarryInto(x: Word, y: Word, k: LaneIndex): bool
    decreases k
  {
    if k == 0 then false else CarryOut(x[k - 1], y[k - 1], CarryInto(x, y, k - 1))
  }

  /** One lane of an adder: `p + q + c` modulo 256. */
  function ByteAdd(p: Byte, q: Byte, c: bool): Byte
  {
    p + q + ByteBit(c)
  }

  /** Lane k of `x + y`: the byte sum plus the carry from below. */
  function AddLane(x: Word, y: Word, k: LaneIndex): Byte
  {
    ByteAdd(x[k], y[k], CarryInto(x, y, k))
  }

  /** `x + y`, wrapping modulo 2^64 */
  function Add(x: Word, y: Word): Word
  {
    seq(8, k requires 0 <= k < 8 => AddLane(x, y, k))
  }

  // ---------------------------------------------------------------------------
  // Shifts by a constant

  /** `b >> r` for a byte and 0 <= r <= 8 */
  function ByteShr(b: Byte, r: nat): Byte
    requires r <= 8
  {
    match r
    case 0 => b
    case 1 => b >> 1
    case 2 => b >> 2
    case 3 => b >> 3
    case 4 => b >> 4
    case 5 => b >> 5
    case 6 => b >> 6
    case 7 => b >> 7
    case 8 => 0
  }

  /** `b << r` for a byte and 0 <= r <= 8, dropping the bits shifted out */
  function ByteShl(b: Byte, r: nat): Byte
    requires r <= 8
  {
    match r
    case 0 => b
    case 1 => b << 1
    case 2 => b << 2
    case 3 => b << 3
    case 4 => b << 4
    case 5 => b << 5
    case 6 => b << 6
    case 7 => b << 7
    case 8 => 0
  }

  /** `x >> n` (logical): lane k takes its low bits from lane k + n/8 and its
      high bits from the lane above that. */
  function ShiftRight(x: Word, n: nat): Word
    requires n < 64
  {
    var q, r := n / 8, n % 8;
    seq(8, k requires 0 <= k < 8 =>
      (if k + q < 8 then ByteShr(x[k + q], r) else 0) |
      (if 0 < r && k + q + 1 < 8 then ByteShl(x[k + q + 1], 8 - r) else 0))
  }

  /** `x << n`: lane k takes its high bits from lane k - n/8 and its low bits
      from the lane below that; bits shifted past lane 7 are lost. */
  function ShiftLeft(x: Word, n: nat): Word
    requires n < 64
  {
    var q, r := n / 8, n % 8;
    seq(8, k requires 0 <= k < 8 =>
      (if 0 <= k - q then ByteShl(x[k - q], r) else 0) |
      (if 0 < r && 0 <= k - q - 1 then ByteShr(x[k - q - 1], 8 - r) else 0))
  }

  // ---------------------------------------------------------------------------
  // Multiplication

  lemma ProductBound(a: int, b: int)
    requires 0 <= a < 256 && 0 <= b < 256
    ensures 0 <= a * b <= 255 * 255
  {
    assert a * b <= a * 255 <= 255 * 255;
  }

  /** A byte read as a whole number lies in 0 .. 255 and converts back to
      itself. */
  lemma ByteAsInt(b: Byte)
    ensures 0 <= b as int < 256
    ensures (b as int) as Byte == b
  {
  }

  /** A number below 256 is its own remainder and has quotient 0. */
  lemma BelowBase(q: int)
    requires 0 <= q < 256
    ensures q % 256 == q && q / 256 == 0
  {
  }

  /** The low byte of a whole number that is a byte's value is that byte. */
  lemma LowByteOfByte(t: int, b: Byte)
    requires t == b as int
    ensures (t % 256) as Byte == b
  {
    ByteAsInt(b);
    BelowBase(t);
  }

  /** The carry that lane k of `x * c` receives from the lanes below it. */
  function MulCarryInto(x: Word, c: Byte, k: LaneIndex): (r: nat)
    ensures r < 256
    decreases k
  {
    if k == 0 then 0 else
      ProductBound(x[k - 1] as int, c as int);
      (x[k - 1] as int * c as int + MulCarryInto(x, c, k - 1)) / 256
  }

  /** `x * uint64(c)` for a single byte c, wrapping modulo 2^64 */
  function MulByte(x: Word, c: Byte): Word
  {
    seq(8, k requires 0 <= k < 8 =>
      ProductBound(x[k] as int, c as int);
      ((x[k] as int * c as int + MulCarryInto(x, c, k)) % 256) as Byte)
  }

  /** The sum of the partial products `(x * y_j) << 8j` for j < n */
  function PartialProducts(x: Word, y: Word, n: nat): Word
    requires n <= 8
  {
    if n == 0 then Fill(0)
    else Add(PartialProducts(x, y, n - 1), ShiftLeft(MulByte(x, y[n - 1]), 8 * (n - 1)))
  }

  /** `x * y`, wrapping modulo 2^64 (schoolbook multiplication by lanes of y) */
  function Mul(x: Word, y: Word): Word
  {
    PartialProducts(x, y, 8)
  }
}
