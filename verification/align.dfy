/** Row-stride arithmetic for host/device copies (`BufferAlign` in utils.rs). */
module Align {

  /** `wgpu::COPY_BYTES_PER_ROW_ALIGNMENT`: every row of a buffer taking part in
      a buffer/texture copy starts at a multiple of this many bytes. */
  const ALIGN: nat := 256

  /** `u32::MAX`. */
  const U32_MAX: nat := 0xFFFF_FFFF

  /** A row of `width` texels: its tight size and its size padded to `ALIGN`. */
  datatype BufferAlign = BufferAlign(width: nat, unpadded: nat, padded: nat)

  /** `BufferAlign::new`. All arithmetic is `u32`: the product and the padded
      size must not overflow, which holds exactly when the tight row is at most
      `U32_MAX - (ALIGN - 1)` bytes (`U32_MAX + 1` is a multiple of `ALIGN`). */
  function New(width: nat, bytesPerPixel: nat): (b: BufferAlign)
    requires width <= U32_MAX && bytesPerPixel <= U32_MAX
    requires width * bytesPerPixel <= U32_MAX - (ALIGN - 1)
    ensures b.width == width
    ensures b.unpadded == width * bytesPerPixel
    ensures b.padded % ALIGN == 0
    ensures b.unpadded <= b.padded < b.unpadded + ALIGN
    ensures b.unpadded % ALIGN == 0 ==> b.padded == b.unpadded
    ensures b.padded <= U32_MAX
  {
    var unpadded := width * bytesPerPixel;
    var padding := (ALIGN - unpadded % ALIGN) % ALIGN;
    BufferAlign(width, unpadded, unpadded + padding)
  }

  /** The padded row is the least multiple of `ALIGN` that holds the tight row. */
  lemma PaddedIsLeast(width: nat, bytesPerPixel: nat, m: nat)
    requires width <= U32_MAX && bytesPerPixel <= U32_MAX
    requires width * bytesPerPixel <= U32_MAX - (ALIGN - 1)
    requires m % ALIGN == 0 && m >= width * bytesPerPixel
    ensures New(width, bytesPerPixel).padded <= m
  {
  }

  /** Three RGBA8 pixels (12 bytes) still take a whole 256-byte row. */
  lemma ThreePixelRow()
    ensures New(3, 4) == BufferAlign(3, 12, 256)
  {
  }

  /** A row of 64 RGBA8 pixels is already aligned and gets no padding. */
  lemma AlignedRowUnpadded()
    ensures New(64, 4) == BufferAlign(64, 256, 256)
  {
  }
}
