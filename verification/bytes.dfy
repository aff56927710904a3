/** Machine integers of the acquisition loop: the `u8` bytes of the serial
    buffer and the `u16` samples decoded from them, together with the
    big-endian reading of two bytes as one sample. */
module Bytes {

  newtype u8 = x: int | 0 <= x < 0x100
  newtype u16 = x: int | 0 <= x < 0x1_0000

  /** Rust's `x << 8` on a `u16`: bits shifted past bit 15 are discarded. */
  function Shl8(x: u16): (r: u16)
    ensures r as int % 0x100 == 0
    ensures x < 0x100 ==> r as int == x as int * 0x100
  {
    ((x as int * 0x100) % 0x1_0000) as u16
  }

  /** `((hi as u16) << 8) + (lo as u16)`. The `+` on `u16` panics on overflow
      in a debug build; here the newtype's range makes the verifier prove that
      it cannot overflow. The result is the exact big-endian value, and the
      two bytes can be read back from it. */
  function FromBigEndian(hi: u8, lo: u8): (r: u16)
    ensures r as int == hi as int * 0x100 + lo as int
    ensures High(r) == hi && Low(r) == lo
  {
    Shl8(hi as u16) + lo as u16
  }

  /** Most significant byte of a sample, as it appears first on the wire. */
  function High(v: u16): u8
  {
    (v as int / 0x100) as u8
  }

  /** Least significant byte of a sample, as it appears second on the wire. */
  function Low(v: u16): u8
  {
    (v as int % 0x100) as u8
  }

  /** Splitting a sample into its wire bytes and decoding them gives it back. */
  lemma FromBigEndianOfSplit(v: u16)
    ensures FromBigEndian(High(v), Low(v)) == v
  {
  }
}
