/** Bytes and 32-bit floats as the host code sees them: floats are only copied,
    never computed on, so a float is known by its four bytes in host order. */
module Float32 {

  newtype byte = b: int | 0 <= b < 256

  /** An IEEE-754 single-precision value, given by its four bytes in native
      (host) order, as `f32::to_ne_bytes` produces them. */
  datatype F32 = F32(b0: byte, b1: byte, b2: byte, b3: byte)

  /** `1.0f32`, whose bit pattern is 0x3F80_0000, on a little-endian host. */
  const ONE: F32 := F32(0x00, 0x00, 0x80, 0x3F)

  /** The bytes of a float back into the float. */
  function Dec(s: seq<byte>): F32
    requires |s| == 4
  {
    F32(s[0], s[1], s[2], s[3])
  }

  /** `f.to_ne_bytes()`: four bytes that decode back to `f`. */
  function Enc(f: F32): (s: seq<byte>)
    ensures |s| == 4
    ensures Dec(s) == f
  {
    [f.b0, f.b1, f.b2, f.b3]
  }

  /** Distinct floats have distinct encodings. */
  lemma EncInjective(f: F32, g: F32)
    requires Enc(f) == Enc(g)
    ensures f == g
  {
    assert Dec(Enc(f)) == f;
  }

  /** The colour channels held by a 16-byte RGBA texel. */
  function Channels(t: seq<byte>): (F32, F32, F32)
    requires |t| == 16
  {
    (Dec(t[0..4]), Dec(t[4..8]), Dec(t[8..12]))
  }

  /** One RGBA float32 texel with the alpha channel forced to 1.0, the layout
      both the `.cube` parser and `add_lut_raw` give every LUT voxel. */
  function Texel(r: F32, g: F32, b: F32): (t: seq<byte>)
    ensures |t| == 16
    ensures Channels(t) == (r, g, b)
    ensures Dec(t[12..16]) == ONE
    ensures t[0..4] == Enc(r) && t[4..8] == Enc(g) && t[8..12] == Enc(b)
  {
    Enc(r) + Enc(g) + Enc(b) + Enc(ONE)
  }
}
