/** The compute dispatch of `process` (lib.rs): the image as 4-byte pixels,
    the workgroup count per axis, and the grid of invocations that shades
    every pixel once. */
module Dispatch {
  import opened Arith
  import opened Float32

  /** `WORKGROUP_SIZE`: invocations per workgroup along each axis. */
  const WORKGROUP_SIZE: nat := 32

  /** One texel of an `rgba8`, `bgra8` or `rgb10a2` image: four bytes whose
      meaning only the kernel interprets. */
  datatype Pixel = Pixel(c0: byte, c1: byte, c2: byte, c3: byte)

  /** `width / WORKGROUP_SIZE + 1` workgroups along an axis of `n` pixels. */
  function WorkgroupCount(n: nat): (g: nat)
    ensures n < g * WORKGROUP_SIZE
    ensures 0 < g && (g - 1) * WORKGROUP_SIZE <= n
  {
    n / WORKGROUP_SIZE + 1
  }

  /** When the axis is a whole number of workgroups, the last workgroup
      starts at the axis' end: every one of its invocations is outside. */
  lemma IdleLastWorkgroup(n: nat)
    requires n % WORKGROUP_SIZE == 0
    ensures (WorkgroupCount(n) - 1) * WORKGROUP_SIZE == n
  {
  }

  /** A `u32` extent needs no more than `u32::MAX` workgroups: the `+ 1`
      cannot overflow. */
  lemma WorkgroupCountFits(n: nat)
    requires n <= 0xFFFF_FFFF
    ensures WorkgroupCount(n) <= 0xFFFF_FFFF
  {
  }

  /** Pixel `i` of a tight image. */
  function PixelAt(img: seq<byte>, i: nat): Pixel
    requires 4 * i + 4 <= |img|
  {
    Pixel(img[4 * i], img[4 * i + 1], img[4 * i + 2], img[4 * i + 3])
  }

  /** The whole pixels of a tight image, in order. */
  function Pixels(img: seq<byte>): (ps: seq<Pixel>)
    ensures |ps| == |img| / 4
    ensures forall i | 0 <= i < |ps| :: 4 * i + 4 <= |img| && ps[i] == PixelAt(img, i)
  {
    seq(|img| / 4, i requires 0 <= i < |img| / 4 => PixelAt(img, i))
  }

  /** Pixels laid out back to back, four bytes each. */
  function Bytes(ps: seq<Pixel>): (img: seq<byte>)
    ensures |img| == 4 * |ps|
  {
    if |ps| == 0 then []
    else [ps[0].c0, ps[0].c1, ps[0].c2, ps[0].c3] + Bytes(ps[1..])
  }

  /** Pixel `i` of the laid-out bytes is `ps[i]`. */
  lemma {:induction false} BytesAt(ps: seq<Pixel>, i: nat)
    requires i < |ps|
    ensures 4 * i + 4 <= |Bytes(ps)| && PixelAt(Bytes(ps), i) == ps[i]
    decreases i
  {
    var img := Bytes(ps);
    var tail := Bytes(ps[1..]);
    assert img == [ps[0].c0, ps[0].c1, ps[0].c2, ps[0].c3] + tail;
    if i > 0 {
      BytesAt(ps[1..], i - 1);
      assert PixelAt(tail, i - 1) == ps[i];
      assert img[4 * i .. 4 * i + 4] == tail[4 * (i - 1) .. 4 * (i - 1) + 4];
    }
  }

  /** Reading the pixels back from their bytes gives the same pixels. */
  lemma PixelsOfBytes(ps: seq<Pixel>)
    ensures Pixels(Bytes(ps)) == ps
  {
    var qs := Pixels(Bytes(ps));
    forall i | 0 <= i < |ps| ensures qs[i] == ps[i] {
      BytesAt(ps, i);
    }
  }

  /** A tight image of whole pixels is its pixels laid out back to back. */
  lemma BytesOfPixels(img: seq<byte>)
    requires |img| % 4 == 0
    ensures Bytes(Pixels(img)) == img
  {
    var ps := Pixels(img);
    var out := Bytes(ps);
    forall q | 0 <= q < |img| ensures out[q] == img[q] {
      var i := q / 4;
      BytesAt(ps, i);
      assert PixelAt(out, i) == PixelAt(img, i);
    }
  }

  /** The dispatch of `groupsX` by `groupsY` workgroups over a `width` by
      `height` image: invocation `(x, y)` shades pixel `y * width + x` when
      it lies in the image and does nothing otherwise. Invocations run in
      no fixed order on the device; each touches only its own pixel, so the
      order chosen here does not change the result. */
  method RunKernel(img: seq<Pixel>, width: nat, height: nat, groupsX: nat, groupsY: nat,
                   shade: Pixel -> Pixel) returns (out: seq<Pixel>)
    requires |img| == width * height
    requires width <= groupsX * WORKGROUP_SIZE && height <= groupsY * WORKGROUP_SIZE
    ensures |out| == |img|
    ensures forall i | 0 <= i < |img| :: out[i] == shade(img[i])
  {
    out := img;
    var y, row := 0, 0;
    while y < groupsY * WORKGROUP_SIZE
      invariant y <= groupsY * WORKGROUP_SIZE && |out| == |img|
      invariant y <= height ==> row == y * width
      invariant height <= y ==> row == |img|
      invariant forall j | 0 <= j < |out| :: out[j] == if j < row then shade(img[j]) else img[j]
    {
      if y < height {
        MulSucc(y, width);
        MulMono(y + 1, height, width);
      }
      var x := 0;
      while x < groupsX * WORKGROUP_SIZE
        invariant x <= groupsX * WORKGROUP_SIZE && |out| == |img|
        invariant forall j | 0 <= j < |out| ::
          out[j] == if j < row + (if y < height && x <= width then x else if y < height then width else 0)
                    then shade(img[j]) else img[j]
      {
        if x < width && y < height {
          out := out[row + x := shade(img[row + x])];
        }
        x := x + 1;
      }
      if y < height {
        row := row + width;
      }
      y := y + 1;
    }
  }
}
