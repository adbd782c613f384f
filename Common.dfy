/** Machine-level vocabulary shared by the codec modules: bytes, the C
    `size_t` and `uint32_t` ranges with their wrap-around, and the
    little- and big-endian readings of a buffer. */
module Common {

  /** An octet of a buffer, as its unsigned value. */
  type Byte = x: int | 0 <= x < 256

  const Two16: int := 0x1_0000
  const Two32: int := 0x1_0000_0000
  const Two63: int := 0x8000_0000_0000_0000
  const Two64: int := 0x1_0000_0000_0000_0000
  /** `~0` stored in a `size_t` */
  const SizeMax: int := Two64 - 1
  /** INT_MAX of a 32-bit C `int` */
  const IntMax: int := 0x7FFF_FFFF

  type SizeT = x: int | 0 <= x < Two64
  type U32 = x: int | 0 <= x < Two32

  datatype Option<+T> = None | Some(value: T)

  function Min(a: int, b: int): int {
    if a <= b then a else b
  }

  /** Unsigned `size_t` arithmetic: the mathematical result reduced modulo 2^64. */
  function WrapSize(x: int): (r: SizeT)
    ensures 0 <= x < Two64 ==> r == x
    ensures (r - x) % Two64 == 0
  {
    x % Two64
  }

  /** `a * b` on two `size_t` operands. */
  function SizeMul(a: SizeT, b: SizeT): (r: SizeT)
    ensures a * b < Two64 ==> r == a * b
  {
    WrapSize(a * b)
  }

  /** The four bytes in which a little-endian machine stores `v`. */
  function LeBytes(v: U32): (b: seq<Byte>)
    ensures |b| == 4
  {
    [v % 256, v / 0x100 % 256, v / 0x1_0000 % 256, v / 0x100_0000]
  }

  /** The value a little-endian `uint32_t` load gives for four bytes. */
  function LeValue(b0: Byte, b1: Byte, b2: Byte, b3: Byte): U32 {
    b0 + 0x100 * b1 + 0x1_0000 * b2 + 0x100_0000 * b3
  }

  /** An unaligned little-endian 32-bit load at offset `off`; it reads exactly
      the bytes `s[off..off+4]`, which are the storage of the value read. */
  function ReadLeU32(s: seq<Byte>, off: nat): (v: U32)
    requires off + 4 <= |s|
    ensures LeBytes(v) == s[off..off + 4]
  {
    var v := LeValue(s[off], s[off + 1], s[off + 2], s[off + 3]);
    LeValueBytes(s[off], s[off + 1], s[off + 2], s[off + 3]);
    v
  }

  lemma {:induction false} MulAtLeast(a: int, d: int)
    requires a >= 1 && d > 0
    ensures a * d >= d
    decreases a
  {
    if a > 1 {
      MulAtLeast(a - 1, d);
      assert a * d == (a - 1) * d + d;
    }
  }

  /** Euclidean division is determined by quotient and remainder. */
  lemma DivModUnique(x: int, d: int, q: int, r: int)
    requires d > 0 && 0 <= r < d && x == q * d + r
    ensures x / d == q && x % d == r
  {
    var q', r' := x / d, x % d;
    assert x == q' * d + r';
    assert (q - q') * d == r' - r;
    if q > q' {
      MulAtLeast(q - q', d);
    } else if q < q' {
      MulAtLeast(q' - q, d);
    }
  }

  lemma MulLeft(a: int, b: int, d: int)
    requires 0 <= a <= b && d >= 0
    ensures 0 <= a * d <= b * d
  {
    assert b * d == a * d + (b - a) * d;
  }

  lemma MulSucc(a: int, b: int)
    ensures (a + 1) * b == a * b + b
  {
  }

  /** `p / d` is the largest `q` with `q * d <= p`. */
  lemma DivBounds(p: int, d: int, h: int)
    requires p >= 0 && d > 0 && h >= 0
    ensures p >= h * d ==> p / d >= h
    ensures p < h * d ==> p / d < h
  {
    var q := p / d;
    assert p == q * d + p % d;
    if q < h {
      MulLeft(q + 1, h, d);
    } else {
      MulLeft(h, q, d);
    }
  }

  /** Row-major index `r * w + c` of an in-range cell is in range. */
  lemma RowMajorInRange(r: nat, c: nat, w: nat, h: nat)
    requires r < h && c < w
    ensures r * w + c < w * h
  {
    MulLeft(r + 1, h, w);
  }

  /** Distinct cells have distinct row-major indices. */
  lemma RowMajorInjective(r: nat, c: nat, r': nat, c': nat, w: nat)
    requires c < w && c' < w
    ensures r * w + c == r' * w + c' <==> r == r' && c == c'
  {
    if r * w + c == r' * w + c' {
      DivModUnique(r * w + c, w, r, c);
      DivModUnique(r' * w + c', w, r', c');
    }
  }

  /** Integer division as C computes it, truncating toward zero. */
  function CDiv(a: int, b: int): int
    requires b > 0
  {
    if a >= 0 then a / b else -((-a) / b)
  }

  /** The base-256 digits of `i0 + 256 i1 + 65536 i2 + 16777216 i3`. */
  lemma LeDigits(i0: int, i1: int, i2: int, i3: int)
    requires 0 <= i0 < 256 && 0 <= i1 < 256 && 0 <= i2 < 256 && 0 <= i3 < 256
    ensures var v := i0 + 0x100 * i1 + 0x1_0000 * i2 + 0x100_0000 * i3;
      v % 256 == i0 && v / 0x100 % 256 == i1 && v / 0x1_0000 % 256 == i2 && v / 0x100_0000 == i3
  {
    var v := i0 + 0x100 * i1 + 0x1_0000 * i2 + 0x100_0000 * i3;
    var q2 := i2 + 0x100 * i3;
    var q1 := i1 + 0x100 * q2;
    DivModUnique(v, 0x100, q1, i0);
    DivModUnique(q1, 0x100, q2, i1);
    DivModUnique(q2, 0x100, i3, i2);
    DivModUnique(v, 0x1_0000, q2, i0 + 0x100 * i1);
    DivModUnique(v, 0x100_0000, i3, i0 + 0x100 * i1 + 0x1_0000 * i2);
  }

  lemma LeValueBytes(b0: Byte, b1: Byte, b2: Byte, b3: Byte)
    ensures LeBytes(LeValue(b0, b1, b2, b3)) == [b0, b1, b2, b3]
  {
    LeDigits(b0, b1, b2, b3);
  }

  /** Every 32-bit value is the sum of its base-256 digits. */
  lemma DigitsRebuild(v: int)
    requires 0 <= v < Two32
    ensures v == v % 256 + 0x100 * (v / 0x100 % 256) + 0x1_0000 * (v / 0x1_0000 % 256) + 0x100_0000 * (v / 0x100_0000)
  {
    var q1 := v / 0x100;
    var q2 := q1 / 0x100;
    var q3 := q2 / 0x100;
    assert v == v % 256 + 0x100 * q1;
    assert q1 == q1 % 256 + 0x100 * q2;
    assert q2 == q2 % 256 + 0x100 * q3;
    DivModUnique(v, 0x1_0000, q2, v % 256 + 0x100 * (q1 % 256));
    DivModUnique(v, 0x100_0000, q3, v % 256 + 0x100 * (q1 % 256) + 0x1_0000 * (q2 % 256));
  }

  /** Storing a value and loading it back gives the value. */
  lemma {:induction false} LeRoundTrip(v: U32)
    ensures ReadLeU32(LeBytes(v), 0) == v
  {
    var b := LeBytes(v);
    DigitsRebuild(v);
  }

  /** A big-endian 16-bit length as JPEG marker segments carry it
      (section B.1.1.4 of ITU-T T.81). */
  function ReadBeU16(s: seq<Byte>, off: nat): (v: nat)
    requires off + 2 <= |s|
    ensures v < Two16
    ensures v / 256 == s[off] && v % 256 == s[off + 1]
  {
    s[off] as int * 256 + s[off + 1] as int
  }

  function BeBytes16(v: nat): (b: seq<Byte>)
    requires v < Two16
    ensures |b| == 2
  {
    [v / 256, v % 256]
  }

  /** `std::vector::resize`: keeps the first `n` elements and pads with `fill`. */
  function Resized<T>(s: seq<T>, n: nat, fill: T): (r: seq<T>)
    ensures |r| == n
    ensures forall i :: 0 <= i < n ==> r[i] == if i < |s| then s[i] else fill
  {
    if n <= |s| then s[..n] else s + seq(n - |s|, _ => fill)
  }
}
