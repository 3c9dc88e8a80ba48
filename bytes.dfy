/** Fixed-width unsigned integers and little-endian field decoding.
    The on-disk structures of a FAT volume are little-endian; the C code reads them with
    fread straight into host integers, which this model replaces by explicit decoding. */
module Bytes {

  type u8 = x: int | 0 <= x < 0x100
  type u16 = x: int | 0 <= x < 0x1_0000
  type u32 = x: int | 0 <= x < 0x1_0000_0000

  const U32_MODULUS: int := 0x1_0000_0000

  /** Reduction modulo 2^32: the result of C's `uint32_t` arithmetic. */
  function Wrap32(x: int): (r: u32)
    ensures 0 <= x < U32_MODULUS ==> r == x
    ensures (r - x) % U32_MODULUS == 0
  {
    x % U32_MODULUS
  }

  /** The 16-bit little-endian value stored at `s[off..off+2]`. */
  function LE16(s: seq<u8>, off: nat): u16
    requires off + 2 <= |s|
  {
    s[off] as int + s[off + 1] as int * 0x100
  }

  /** The 32-bit little-endian value stored at `s[off..off+4]`. */
  function LE32(s: seq<u8>, off: nat): u32
    requires off + 4 <= |s|
  {
    LE16(s, off) as int + LE16(s, off + 2) as int * 0x1_0000
  }

  /** The two bytes that store `x` in little-endian order. */
  function Enc16(x: u16): (r: seq<u8>)
    ensures |r| == 2 && LE16(r, 0) == x
  {
    [x % 0x100, x / 0x100]
  }

  /** The four bytes that store `x` in little-endian order. */
  function Enc32(x: u32): (r: seq<u8>)
    ensures |r| == 4 && LE32(r, 0) == x
  {
    var lo, hi := Enc16(x % 0x1_0000), Enc16(x / 0x1_0000);
    assert LE16(lo + hi, 0) == LE16(lo, 0);
    assert LE16(lo + hi, 2) == LE16(hi, 0);
    lo + hi
  }

  /** Reading a field out of a larger buffer only depends on the bytes of that field. */
  lemma LE32Slice(s: seq<u8>, off: nat, t: seq<u8>, k: nat)
    requires k + 4 <= |t| && off + 4 <= |s|
    requires t[k..k + 4] == s[off..off + 4]
    ensures LE32(t, k) == LE32(s, off)
  {
    assert t[k] == t[k..k + 4][0] == s[off..off + 4][0] == s[off];
    assert t[k + 1] == t[k..k + 4][1] == s[off..off + 4][1] == s[off + 1];
    assert t[k + 2] == t[k..k + 4][2] == s[off..off + 4][2] == s[off + 2];
    assert t[k + 3] == t[k..k + 4][3] == s[off..off + 4][3] == s[off + 3];
  }

  /** `n` zero bytes. */
  function Zeros(n: nat): (r: seq<u8>)
    ensures |r| == n && forall i :: 0 <= i < n ==> r[i] == 0
  {
    seq(n, _ => 0)
  }
}
