/** Integer helpers, block constants and byte-order conversions (utils.h). */
module Utils {

  datatype Option<T> = None | Some(value: T)

  const BITS_PER_BYTE: int := 8
  const BYTES_PER_BLOCK: int := 512

  /** One byte of a block buffer or of an on-disk record. */
  type byte = bv8

  /** The content of one 512-byte device block. */
  type Block = s: seq<byte> | |s| == 512 witness seq(512, _ => 0 as bv8)

  /** A block of zero bytes, as `memset(buf, 0, BYTES_PER_BLOCK)` leaves it. */
  function ZeroBlock(): (b: Block)
    ensures forall i | 0 <= i < |b| :: b[i] == 0
  {
    seq(512, _ => 0 as bv8)
  }

  // ---------------------------------------------------------------------
  // C integer division
  // ---------------------------------------------------------------------

  /** C's `/` on a positive divisor: the quotient is truncated toward zero. */
  function CDiv(a: int, d: int): int
    requires d > 0
  {
    if a >= 0 then a / d else -((-a) / d)
  }

  /** C's `%` on a positive divisor: the remainder takes the sign of `a`. */
  function CMod(a: int, d: int): int
    requires d > 0
  {
    a - d * CDiv(a, d)
  }

  /** DIV_ROUND_UP(n, d): for n >= 0 the least r with r * d >= n. */
  function DivRoundUp(n: int, d: int): (r: int)
    requires d > 0
    ensures n >= 0 ==> r >= 0 && (r - 1) * d < n <= r * d
  {
    var q := CDiv(n + d - 1, d);
    assert n >= 0 ==> n + d - 1 == d * q + (n + d - 1) % d;
    q
  }

  /** max(a, b): one of its arguments, and no smaller than either. */
  function Max(a: int, b: int): (r: int)
    ensures r == a || r == b
    ensures r >= a && r >= b
  {
    if a > b then a else b
  }

  /** min(a, b): one of its arguments, and no larger than either. */
  function Min(a: int, b: int): (r: int)
    ensures r == a || r == b
    ensures r <= a && r <= b
  {
    if a < b then a else b
  }

  // ---------------------------------------------------------------------
  // Power-of-two rounding: round_up and round_down work bitwise on
  // two's-complement integers, with __round_mask(x, y) == y - 1.
  // ---------------------------------------------------------------------

  predicate IsPow2(y: int)
    decreases y
  {
    y == 1 || (y > 1 && y % 2 == 0 && IsPow2(y / 2))
  }

  /** v | (y - 1) for a power of two y: the low bits below y are set.
      Halving an integer is an arithmetic right shift, so this holds for
      negative v as well. */
  function OrMask(v: int, y: int): int
    requires IsPow2(y)
    decreases y
  {
    if y == 1 then v else 2 * OrMask(v / 2, y / 2) + 1
  }

  /** v & ~(y - 1) for a power of two y: the low bits below y are cleared. */
  function AndNotMask(v: int, y: int): int
    requires IsPow2(y)
    decreases y
  {
    if y == 1 then v else 2 * AndNotMask(v / 2, y / 2)
  }

  /** round_up(x, y) == ((x - 1) | (y - 1)) + 1 */
  function RoundUp(x: int, y: int): int
    requires IsPow2(y)
  {
    OrMask(x - 1, y) + 1
  }

  /** round_down(x, y) == x & ~(y - 1) */
  function RoundDown(x: int, y: int): int
    requires IsPow2(y)
  {
    AndNotMask(x, y)
  }

  lemma MulAtLeast(d: int, m: int)
    requires d > 0 && m >= 1
    ensures d * m >= d
  {
    assert d * m == d * (m - 1) + d;
    assert d * (m - 1) >= 0;
  }

  /** The quotient is determined by any decomposition a == d * q + r with 0 <= r < d. */
  lemma DivUnique(a: int, d: int, q: int, r: int)
    requires d > 0 && 0 <= r < d && a == d * q + r
    ensures a / d == q && a % d == r
  {
    var q', r' := a / d, a % d;
    assert a == d * q' + r' && 0 <= r' < d;
    assert d * q - d * q' == d * (q - q');
    if q' < q {
      MulAtLeast(d, q - q');
      assert false;
    }
    if q' > q {
      MulAtLeast(d, q' - q);
      assert false;
    }
  }

  /** Floor division by 2 then by h is floor division by 2 * h. */
  lemma HalveThenDivide(v: int, h: int)
    requires h > 0
    ensures (v / 2) / h == v / (2 * h)
  {
    var q := v / (2 * h);
    var r := v % (2 * h);
    var hq := h * q;
    assert v == 2 * hq + r && 0 <= r < 2 * h;
    DivUnique(v, 2, hq + r / 2, r % 2);
    DivUnique(v / 2, h, q, r / 2);
  }

  lemma {:induction false} OrMaskValue(v: int, y: int)
    requires IsPow2(y)
    ensures OrMask(v, y) == (v / y) * y + y - 1
    decreases y
  {
    if y != 1 {
      OrMaskValue(v / 2, y / 2);
      HalveThenDivide(v, y / 2);
    }
  }

  lemma {:induction false} AndNotMaskValue(v: int, y: int)
    requires IsPow2(y)
    ensures AndNotMask(v, y) == (v / y) * y
    decreases y
  {
    if y != 1 {
      AndNotMaskValue(v / 2, y / 2);
      HalveThenDivide(v, y / 2);
    }
  }

  /** round_up(x, y) is the least multiple of y that is at least x. */
  lemma RoundUpIsLeastMultiple(x: int, y: int)
    requires IsPow2(y)
    ensures RoundUp(x, y) % y == 0
    ensures x <= RoundUp(x, y) < x + y
  {
    OrMaskValue(x - 1, y);
    var k := (x - 1) / y;
    assert x - 1 == y * k + (x - 1) % y;
    assert RoundUp(x, y) == y * (k + 1);
    DivUnique(RoundUp(x, y), y, k + 1, 0);
  }

  /** round_down(x, y) is the greatest multiple of y that is at most x. */
  lemma RoundDownIsGreatestMultiple(x: int, y: int)
    requires IsPow2(y)
    ensures RoundDown(x, y) % y == 0
    ensures x - y < RoundDown(x, y) <= x
  {
    AndNotMaskValue(x, y);
    var k := x / y;
    assert x == y * k + x % y;
    DivUnique(RoundDown(x, y), y, k, 0);
  }

  lemma BlockSizeIsPow2()
    ensures IsPow2(BYTES_PER_BLOCK)
  {
    assert IsPow2(2) && IsPow2(4) && IsPow2(8) && IsPow2(16) && IsPow2(32);
    assert IsPow2(64) && IsPow2(128) && IsPow2(256);
  }

  // ---------------------------------------------------------------------
  // Little-endian byte images and the cpu_to_leN / leN_to_cpu macros
  // ---------------------------------------------------------------------

  function Pow256(n: nat): (p: nat)
    ensures p >= 1
  {
    if n == 0 then 1 else 256 * Pow256(n - 1)
  }

  /** Cast of an int to the n-byte unsigned type (__u16, __u32, __u64):
      two's-complement truncation. */
  function Trunc(x: int, n: nat): (u: nat)
    ensures u < Pow256(n)
  {
    x % Pow256(n)
  }

  /** Conversion of a __u32 to int, as the source assigns le32_to_cpu(...)
      to its `int` fields: values from 2^31 up read as negative. */
  function ToInt32(u: nat): (r: int)
    ensures u < 0x1_0000_0000 ==> -0x8000_0000 <= r < 0x8000_0000 && (r >= 0 ==> r == u)
  {
    if u >= 0x8000_0000 then u - 0x1_0000_0000 else u
  }

  /** A __u32 cast followed by the conversion back to int gives every
      32-bit int back (HOLE = -32 among them). */
  lemma ToInt32Trunc(x: int)
    requires -0x8000_0000 <= x < 0x8000_0000
    ensures ToInt32(Trunc(x, 4)) == x
  {
    assert Pow256(4) == 0x1_0000_0000;
  }

  /** The n bytes that store x least significant byte first. */
  function EncodeLE(x: nat, n: nat): (s: seq<byte>)
    ensures |s| == n
  {
    if n == 0 then [] else [(x % 256) as bv8] + EncodeLE(x / 256, n - 1)
  }

  /** The unsigned value of bytes stored least significant byte first. */
  function DecodeLE(s: seq<byte>): (x: nat)
    ensures x < Pow256(|s|)
  {
    if s == [] then 0 else s[0] as int + 256 * DecodeLE(s[1..])
  }

  lemma {:induction false} DecodeEncodeLE(x: nat, n: nat)
    requires x < Pow256(n)
    ensures DecodeLE(EncodeLE(x, n)) == x
  {
    if n > 0 {
      assert x == 256 * (x / 256) + x % 256;
      assert x / 256 < Pow256(n - 1);
      DecodeEncodeLE(x / 256, n - 1);
      ByteValue(x % 256);
      assert EncodeLE(x, n)[1..] == EncodeLE(x / 256, n - 1);
    }
  }

  lemma ByteValue(v: int)
    requires 0 <= v < 256
    ensures (v as bv8) as int == v
  {
    ByteToIntToByte(Counted(v));
  }

  /** The byte reached from zero by v increments; it witnesses that every
      value below 256 is the value of some byte. */
  function Counted(v: int): (b: byte)
    requires 0 <= v < 256
    ensures b as int == v
  {
    if v == 0 then 0 else Increment(Counted(v - 1)); Counted(v - 1) + 1
  }

  lemma Increment(c: byte)
    requires c as int < 255
    ensures (c + 1) as int == c as int + 1
  {
  }

  lemma ByteToIntToByte(b: byte)
    ensures (b as int) as bv8 == b
  {
  }

  /** Zero bytes read as zero, whatever their number. */
  lemma {:induction false} DecodeLEZeros(s: seq<byte>)
    requires forall i | 0 <= i < |s| :: s[i] == 0
    ensures DecodeLE(s) == 0
  {
    if s != [] {
      DecodeLEZeros(s[1..]);
    }
  }

  lemma {:induction false} EncodeDecodeLE(s: seq<byte>)
    ensures EncodeLE(DecodeLE(s), |s|) == s
  {
    if s != [] {
      EncodeDecodeLE(s[1..]);
      var x := DecodeLE(s);
      DivUnique(x, 256, DecodeLE(s[1..]), s[0] as int);
      assert (x % 256) as bv8 == s[0];
    }
  }

  function Reverse(s: seq<byte>): (r: seq<byte>)
    ensures |r| == |s|
    ensures forall i | 0 <= i < |s| :: r[i] == s[|s| - 1 - i]
  {
    if s == [] then [] else Reverse(s[1..]) + [s[0]]
  }

  datatype ByteOrder = LittleEndian | BigEndian

  /** __builtin_bswapN on an N-byte value. */
  function ByteSwap(x: nat, n: nat): nat
  {
    DecodeLE(Reverse(EncodeLE(x, n)))
  }

  /** The bytes a host of byte order `host` keeps in memory for an n-byte
      unsigned value. */
  function HostBytes(x: nat, n: nat, host: ByteOrder): seq<byte>
  {
    if host == LittleEndian then EncodeLE(x, n) else Reverse(EncodeLE(x, n))
  }

  /** cpu_to_leN (n = N / 8 bytes): a plain cast on a little-endian host,
      a byte swap on a big-endian one. leN_to_cpu has the same definition
      in the source, so LeToCpu is this very function. */
  function CpuToLe(x: int, n: nat, host: ByteOrder): nat
  {
    if host == LittleEndian then Trunc(x, n) else ByteSwap(Trunc(x, n), n)
  }

  function LeToCpu(x: int, n: nat, host: ByteOrder): nat
  {
    CpuToLe(x, n, host)
  }

  lemma ByteSwapInvolution(x: nat, n: nat)
    requires x < Pow256(n)
    ensures ByteSwap(x, n) < Pow256(n)
    ensures ByteSwap(ByteSwap(x, n), n) == x
  {
    var s := EncodeLE(x, n);
    EncodeDecodeLE(Reverse(s));
    assert Reverse(Reverse(s)) == s;
    DecodeEncodeLE(x, n);
  }

  /** leN_to_cpu(cpu_to_leN(x)) == (__uN)x on both byte orders. */
  lemma LeToCpuInvertsCpuToLe(x: int, n: nat, host: ByteOrder)
    ensures LeToCpu(CpuToLe(x, n, host), n, host) == Trunc(x, n)
  {
    var u := Trunc(x, n);
    DivUnique(u, Pow256(n), 0, u);
    if host == BigEndian {
      ByteSwapInvolution(u, n);
      DivUnique(ByteSwap(u, n), Pow256(n), 0, ByteSwap(u, n));
    }
  }

  /** What cpu_to_leN is for: the value it yields lies in memory, on
      either byte order, as the little-endian image of the cast value,
      which is what the on-disk layout holds. */
  lemma CpuToLeStoresLittleEndian(x: int, n: nat, host: ByteOrder)
    ensures HostBytes(CpuToLe(x, n, host), n, host) == EncodeLE(Trunc(x, n), n)
  {
    if host == BigEndian {
      var s := EncodeLE(Trunc(x, n), n);
      EncodeDecodeLE(Reverse(s));
      assert Reverse(Reverse(s)) == s;
    }
  }
}
