/** Machine integer widths and little-endian byte encodings. */
module Bytes {

  type byte = x: int | 0 <= x < 0x100
  type u32 = x: int | 0 <= x < 0x1_0000_0000
  type u64 = x: int | 0 <= x < 0x1_0000_0000_0000_0000
  type i32 = x: int | -0x8000_0000 <= x < 0x8000_0000

  /** 256 to the power n: one more than the largest value that fits in n bytes. */
  function Pow256(n: nat): (r: nat)
    ensures r > 0
  {
    if n == 0 then 1 else 256 * Pow256(n - 1)
  }

  /** A Rust `as u32` cast from a wider integer: keep the low 32 bits.  Dafny's
      `%` never yields a negative remainder, so negative values wrap exactly as
      two's complement truncation does. */
  function TruncateU32(x: int): (r: u32)
    ensures (x - r) % 0x1_0000_0000 == 0
    ensures 0 <= x < 0x1_0000_0000 ==> r == x
  {
    x % 0x1_0000_0000
  }

  /** The bit pattern of an `i32`, read as a `u32`. */
  function I32Bits(x: i32): (r: u32)
    ensures r == TruncateU32(x)
  {
    if x < 0 then x + 0x1_0000_0000 else x
  }

  /** The inverse of I32Bits: a `u32` bit pattern, read as an `i32`. */
  function I32FromBits(b: u32): i32 {
    if b < 0x8000_0000 then b else b - 0x1_0000_0000
  }

  lemma I32BitsRoundTrip(x: i32)
    ensures I32FromBits(I32Bits(x)) == x
  {
  }

  /** `to_ne_bytes()` on a little-endian target: the n low-order bytes of x,
      least significant first. */
  function LeBytes(x: nat, n: nat): (r: seq<byte>)
    ensures |r| == n
  {
    if n == 0 then [] else [x % 256] + LeBytes(x / 256, n - 1)
  }

  /** `from_le_bytes`: the number whose little-endian bytes are s. */
  function LeValue(s: seq<byte>): (v: nat)
    ensures v < Pow256(|s|)
  {
    if s == [] then 0 else s[0] + 256 * LeValue(s[1..])
  }

  /** Decoding the encoding of a value that fits gives the value back. */
  lemma {:induction false} LeRoundTrip(x: nat, n: nat)
    requires x < Pow256(n)
    ensures LeValue(LeBytes(x, n)) == x
  {
    if n > 0 {
      LeRoundTrip(x / 256, n - 1);
      assert LeBytes(x, n)[1..] == LeBytes(x / 256, n - 1);
    }
  }

  /** Encoding is injective on the values that fit in n bytes. */
  lemma LeBytesInjective(x: nat, y: nat, n: nat)
    requires x < Pow256(n) && y < Pow256(n)
    requires LeBytes(x, n) == LeBytes(y, n)
    ensures x == y
  {
    LeRoundTrip(x, n);
    LeRoundTrip(y, n);
  }

  /** n zero bytes. */
  function Zeros(n: nat): (r: seq<byte>)
    ensures |r| == n && forall i :: 0 <= i < n ==> r[i] == 0
  {
    seq(n, _ => 0)
  }

  lemma LeBytesOfZero(n: nat)
    ensures LeBytes(0, n) == Zeros(n)
  {
    if n > 0 {
      LeBytesOfZero(n - 1);
    }
  }
}
