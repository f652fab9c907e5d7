/** Fixed-width integers as the JVM sees them, and the little-endian byte
    forms that java.nio.ByteBuffer writes in LITTLE_ENDIAN order. */
module Numeric {

  /** One octet on the wire, as an unsigned bit pattern. */
  type byte = x: int | 0 <= x < 0x100

  /** Kotlin's signed Byte, Short and Int. */
  type i8 = x: int | -0x80 <= x < 0x80
  type i16 = x: int | -0x8000 <= x < 0x8000
  type i32 = x: int | -0x8000_0000 <= x < 0x8000_0000

  const I32_MAX: i32 := 0x7FFF_FFFF

  /** Two's-complement truncation to 32 bits: what Kotlin `Int` arithmetic
      does on overflow. */
  function Wrap32(v: int): (r: i32)
    ensures (r - v) % 0x1_0000_0000 == 0
    ensures -0x8000_0000 <= v < 0x8000_0000 ==> r == v
  {
    var u := v % 0x1_0000_0000;
    if u < 0x8000_0000 then u else u - 0x1_0000_0000
  }

  /** Two's-complement truncation to 16 bits: Kotlin's `Int.toShort()`. */
  function Wrap16(v: int): (r: i16)
    ensures (r - v) % 0x10000 == 0
    ensures -0x8000 <= v < 0x8000 ==> r == v
  {
    var u := v % 0x10000;
    if u < 0x8000 then u else u - 0x10000
  }

  /** Integers that agree modulo 2^32 wrap to the same Int. */
  lemma Wrap32Congruent(a: int, b: int)
    requires (a - b) % 0x1_0000_0000 == 0
    ensures Wrap32(a) == Wrap32(b)
  {
    assert a % 0x1_0000_0000 == b % 0x1_0000_0000;
  }

  /** Integers less than 2^32 apart wrap to different Ints: a counter
      does not repeat within 2^32 steps. */
  lemma Wrap32Distinct(a: int, b: int)
    requires 0 < b - a < 0x1_0000_0000
    ensures Wrap32(a) != Wrap32(b)
  {
  }

  /** Incrementing a wrapped counter is the same as wrapping the sum:
      repeated `x++` on an Int never needs the unbounded history. */
  lemma Wrap32Increment(a: int)
    ensures Wrap32(Wrap32(a) + 1) == Wrap32(a + 1)
  {
    Wrap32Congruent(Wrap32(a) + 1, a + 1);
  }

  /** ByteBuffer.put(Byte). */
  function LE8(v: i8): (r: seq<byte>)
    ensures |r| == 1
  {
    [v % 0x100]
  }

  /** ByteBuffer.putShort(Short) in little-endian order. */
  function LE16(v: i16): (r: seq<byte>)
    ensures |r| == 2
  {
    var u := v % 0x10000;
    [u % 0x100, u / 0x100]
  }

  /** ByteBuffer.putInt(Int) in little-endian order. */
  function LE32(v: i32): (r: seq<byte>)
    ensures |r| == 4
  {
    var u := v % 0x1_0000_0000;
    [u % 0x100, (u / 0x100) % 0x100, (u / 0x1_0000) % 0x100, u / 0x100_0000]
  }

  /** Unsigned little-endian readers: the value a receiver sees. */
  function U16(b: seq<byte>): (r: nat)
    requires |b| == 2
    ensures r < 0x10000
  {
    b[0] as int + 0x100 * (b[1] as int)
  }

  function U32(b: seq<byte>): (r: nat)
    requires |b| == 4
    ensures r < 0x1_0000_0000
  {
    b[0] as int + 0x100 * (b[1] as int) + 0x1_0000 * (b[2] as int) + 0x100_0000 * (b[3] as int)
  }

  /** Signed reinterpretation of an unsigned bit pattern. */
  function S8(u: byte): i8
  {
    if u < 0x80 then u else u - 0x100
  }

  function S16(u: nat): i16
    requires u < 0x10000
  {
    if u < 0x8000 then u else u - 0x10000
  }

  function S32(u: nat): i32
    requires u < 0x1_0000_0000
  {
    if u < 0x8000_0000 then u else u - 0x1_0000_0000
  }

  lemma LE8RoundTrip(v: i8)
    ensures |LE8(v)| == 1 && S8(LE8(v)[0]) == v
  {
  }

  lemma LE16RoundTrip(v: i16)
    ensures |LE16(v)| == 2 && S16(U16(LE16(v))) == v
  {
    var u := v % 0x10000;
    assert U16(LE16(v)) == u;
  }

  lemma LE32RoundTrip(v: i32)
    ensures |LE32(v)| == 4 && S32(U32(LE32(v))) == v
  {
    var u := v % 0x1_0000_0000;
    var b := LE32(v);
    assert u == u % 0x100 + 0x100 * (u / 0x100);
    assert u / 0x100 == (u / 0x100) % 0x100 + 0x100 * (u / 0x1_0000);
    assert u / 0x1_0000 == (u / 0x1_0000) % 0x100 + 0x100 * (u / 0x100_0000);
    assert U32(b) == u;
  }

  /** Reading a 16-bit field and writing it back reproduces the bytes. */
  lemma U16Inverse(b: seq<byte>)
    requires |b| == 2
    ensures LE16(S16(U16(b))) == b
  {
    var u := U16(b);
    assert S16(u) % 0x10000 == u;
  }

  lemma U32Inverse(b: seq<byte>)
    requires |b| == 4
    ensures LE32(S32(U32(b))) == b
  {
    var u := U32(b);
    assert S32(u) % 0x1_0000_0000 == u;
    var (b0, b1, b2, b3) := (b[0] as int, b[1] as int, b[2] as int, b[3] as int);
    DivModUnique(b0, b1 + 0x100 * b2 + 0x1_0000 * b3, 0x100);
    DivModUnique(b0 + 0x100 * b1, b2 + 0x100 * b3, 0x1_0000);
    DivModUnique(b0 + 0x100 * b1 + 0x1_0000 * b2, b3, 0x100_0000);
    DivModUnique(b1, b2 + 0x100 * b3, 0x100);
    DivModUnique(b2, b3, 0x100);
  }

  /** Division and remainder by `d` of a number written as `a + d * q`. */
  lemma DivModUnique(a: int, q: int, d: int)
    requires 0 <= a < d
    ensures (a + d * q) / d == q && (a + d * q) % d == a
  {
    var r := a + d * q;
    var k := r / d - q;
    MulDistributes(r / d, q, d);
    assert k * d == a - r % d;
    if k > 0 {
      MulAtLeast(k, d);
    } else if k < 0 {
      MulAtLeast(-k, d);
    }
  }

  /** Two 16-bit fields that read the same hold the same bytes. */
  lemma U16Injective(a: seq<byte>, b: seq<byte>)
    requires |a| == 2 && |b| == 2 && U16(a) == U16(b)
    ensures a == b
  {
    U16Inverse(a);
    U16Inverse(b);
  }

  lemma MulAtLeast(a: int, w: int)
    requires a >= 1 && w > 0
    ensures a * w >= w
  {
  }

  lemma MulDistributes(a: int, b: int, w: int)
    ensures (a - b) * w == a * w - b * w
  {
  }
}
