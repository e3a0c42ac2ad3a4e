/** `Processor` (lib.rs): the registries of samplers and LUTs, the ways to
    add and remove a LUT, and `process`, which checks its arguments, pads the
    image into a staging buffer, runs the kernel over every pixel and copies
    the result back. The device objects are replaced by what they hold: a
    LUT by its edge length and RGBA-f32 bytes, a sampler by its filter. */
module Engine {
  import opened Results
  import opened Float32
  import opened Arith
  import Align
  import Cube
  import CubeProps
  import Text
  import Seqs
  import opened RowCopy
  import opened Staging
  import opened Dispatch

  datatype FilterMode = Nearest | Linear

  /** A 3D LUT texture: `dim` texels along each axis, 16 bytes each. */
  datatype Lut = Lut(dim: nat, texels: seq<byte>)

  datatype Processor = Processor(samplers: map<string, FilterMode>, luts: map<string, Lut>)

  datatype Error =
    | CubeFormat(cause: Cube.ParseError)  // the `.cube` text was rejected
    | UnsupportedLutFormat                // `add_lut` with a format other than "cube"
    | RgbLength                           // `add_lut_raw`: not `dim³ * 3` floats
    | RgbaLength                          // `add_lut_raw_alpha`: not `dim³ * 16` bytes
    | UnsupportedInputFormat              // `process` with an unknown pixel format
    | NoSuchSampler
    | UnknownLut
    | MapFailed                           // reading the result buffer back failed

  datatype PixelFormat = Bgra8 | Rgba8 | Rgb10a2

  const NEAREST: string := "nearest"
  const LINEAR: string := "linear"
  const CUBE_FORMAT: string := "cube"

  /** Bytes per pixel of every input format. */
  const PIXEL_BYTES: nat := 4

  /** Bytes per LUT texel: four `f32` channels. */
  const TEXEL_BYTES: nat := 16

  /** Every registered LUT is a full cube of texels. */
  predicate Valid(p: Processor)
  {
    forall name | name in p.luts ::
      1 <= p.luts[name].dim && |p.luts[name].texels| == TEXEL_BYTES * Cube.Cube(p.luts[name].dim)
  }

  /** `Processor::new`: the two samplers and no LUT. */
  function New(): (p: Processor)
    ensures p.samplers.Keys == {NEAREST, LINEAR}
    ensures p.samplers[NEAREST] == Nearest && p.samplers[LINEAR] == Linear
    ensures p.luts == map[] && Valid(p)
  {
    Processor(map[NEAREST := Nearest, LINEAR := Linear], map[])
  }

  /** The `BufferAlign::new(dim³, 16)` of `add_lut_raw_alpha` does not
      overflow, and the texture is not empty. */
  predicate TextureFits(dim: nat)
  {
    1 <= dim && TEXEL_BYTES * Cube.Cube(dim) <= Align.U32_MAX - (Align.ALIGN - 1)
  }

  /** `lut` now registered under `name`, every other entry as in `p`, the
      samplers untouched. */
  ghost predicate Registers(p: Processor, q: Processor, name: string, lut: Lut)
  {
    && q.samplers == p.samplers
    && name in q.luts && q.luts[name] == lut
    && (forall other | other != name :: other in q.luts <==> other in p.luts)
    && (forall other | other in p.luts && other != name :: q.luts[other] == p.luts[other])
  }

  /** `add_lut_raw_alpha`: the bytes must be exactly `dim³` texels of 16
      bytes; then they replace whatever `name` held. `dim³` is computed in
      `u32`. */
  function AddLutRawAlpha(p: Processor, name: string, dim: nat, lut: seq<byte>): (r: Result<Processor, Error>)
    requires Cube.Cube(dim) <= Align.U32_MAX
    requires |lut| == TEXEL_BYTES * Cube.Cube(dim) ==> TextureFits(dim)
    ensures r.Ok? <==> |lut| == TEXEL_BYTES * Cube.Cube(dim)
    ensures r.Err? ==> r.error == RgbaLength
    ensures r.Ok? ==> Registers(p, r.value, name, Lut(dim, lut))
    ensures r.Ok? && Valid(p) ==> Valid(r.value)
  {
    if |lut| != TEXEL_BYTES * Cube.Cube(dim) then Err(RgbaLength)
    else
      // The `BufferAlign::new(dim³, 16)` of lib.rs:142. Its result only sizes
      // the staging buffer, which the texture upload never reads, so it is
      // not used here; the call is kept because its no-overflow precondition
      // is the bound `TextureFits` states.
      var align := Align.New(Cube.Cube(dim), TEXEL_BYTES);
      Ok(p.(luts := p.luts[name := Lut(dim, lut)]))
  }

  /** The loop of `add_lut_raw`: every RGB triple becomes a texel with alpha
      1.0. */
  function ExpandRgb(rgb: seq<F32>): (rgba: seq<byte>)
    requires |rgb| % 3 == 0
    ensures |rgba| == TEXEL_BYTES * (|rgb| / 3)
  {
    if |rgb| == 0 then [] else Texel(rgb[0], rgb[1], rgb[2]) + ExpandRgb(rgb[3..])
  }

  /** Texel `k` of the expansion is triple `k` with alpha 1.0. */
  lemma {:induction false} ExpandAt(rgb: seq<F32>, k: nat)
    requires |rgb| % 3 == 0 && k < |rgb| / 3
    ensures 16 * k + 16 <= |ExpandRgb(rgb)|
    ensures ExpandRgb(rgb)[16 * k .. 16 * k + 16] == Texel(rgb[3 * k], rgb[3 * k + 1], rgb[3 * k + 2])
    decreases k
  {
    var head := Texel(rgb[0], rgb[1], rgb[2]);
    var tail := ExpandRgb(rgb[3..]);
    assert ExpandRgb(rgb) == head + tail;
    if k > 0 {
      ExpandAt(rgb[3..], k - 1);
      Seqs.SliceOfSuffix(head, tail, 16 * k, 16 * k + 16);
      assert rgb[3..][3 * (k - 1)] == rgb[3 * k];
    }
  }

  /** The colour channels of texels laid out back to back. */
  function DropAlpha(rgba: seq<byte>): (rgb: seq<F32>)
    requires |rgba| % 16 == 0
    ensures |rgb| == 3 * (|rgba| / 16)
  {
    if |rgba| == 0 then []
    else
      var (r, g, b) := Channels(rgba[..16]);
      [r, g, b] + DropAlpha(rgba[16..])
  }

  /** Dropping the alpha channel again recovers the floats the caller gave. */
  lemma {:induction false} DropAlphaOfExpand(rgb: seq<F32>)
    requires |rgb| % 3 == 0
    ensures DropAlpha(ExpandRgb(rgb)) == rgb
    decreases |rgb|
  {
    if |rgb| > 0 {
      var head := Texel(rgb[0], rgb[1], rgb[2]);
      var rgba := ExpandRgb(rgb);
      assert rgba == head + ExpandRgb(rgb[3..]);
      assert rgba[..16] == head && rgba[16..] == ExpandRgb(rgb[3..]);
      DropAlphaOfExpand(rgb[3..]);
      assert rgb == rgb[..3] + rgb[3..];
    }
  }

  /** `add_lut_raw`: exactly `dim³` RGB triples of floats (the count is
      computed in `u32`), expanded with alpha 1.0 and registered as by
      `add_lut_raw_alpha`, which the expanded bytes always satisfy. */
  function AddLutRaw(p: Processor, name: string, dim: nat, lut: seq<F32>): (r: Result<Processor, Error>)
    requires 3 * Cube.Cube(dim) <= Align.U32_MAX
    requires |lut| == 3 * Cube.Cube(dim) ==> TextureFits(dim)
    ensures r.Ok? <==> |lut| == 3 * Cube.Cube(dim)
    ensures r.Err? ==> r.error == RgbLength
    ensures r.Ok? ==> |lut| % 3 == 0 && Registers(p, r.value, name, Lut(dim, ExpandRgb(lut)))
    ensures r.Ok? && Valid(p) ==> Valid(r.value)
  {
    if |lut| != 3 * Cube.Cube(dim) then Err(RgbLength)
    else AddLutRawAlpha(p, name, dim, ExpandRgb(lut))
  }

  /** What `add_lut` demands of a `.cube` text it gets to parse: fewer than
      2³² lines, and a parsed size whose texture fits. */
  predicate CubeFits(lines: seq<string>, toF32: Cube.FloatParser)
  {
    |lines| <= Align.U32_MAX
    && (Cube.Parse(lines, toF32).Ok? ==> TextureFits(Cube.Parse(lines, toF32).value.0))
  }

  /** `add_lut`: a name already registered is kept as it is and the call
      succeeds; otherwise only the "cube" format is known, and a text the
      parser accepts is registered with its last declared size and the
      voxels of its data lines in file order. */
  function AddLut(p: Processor, name: string, format: string, lines: seq<string>,
                  toF32: Cube.FloatParser): (r: Result<Processor, Error>)
    requires name !in p.luts && format == CUBE_FORMAT ==> CubeFits(lines, toF32)
    ensures name in p.luts ==> r == Ok(p)
    ensures name !in p.luts ==> (r.Ok? <==> format == CUBE_FORMAT && CubeProps.Accepts(lines, toF32))
    ensures name !in p.luts && format != CUBE_FORMAT ==> r == Err(UnsupportedLutFormat)
    ensures name !in p.luts && format == CUBE_FORMAT && r.Err? ==> r.error.CubeFormat?
    ensures name !in p.luts && r.Ok? ==>
              && CubeProps.AllWellFormed(CubeProps.DataLines(lines), toF32)
              && Registers(p, r.value, name,
                           Lut(CubeProps.LastSize(lines), CubeProps.Texels(CubeProps.DataLines(lines), toF32)))
    ensures r.Ok? && Valid(p) ==> Valid(r.value)
  {
    if name in p.luts then Ok(p)
    else if format != CUBE_FORMAT then Err(UnsupportedLutFormat)
    else
      CubeProps.ParseSpec(lines, toF32);
      match Cube.Parse(lines, toF32)
      case Err(e) => Err(CubeFormat(e))
      case Ok((dim, texels)) => AddLutRawAlpha(p, name, dim, texels)
  }

  /** `del_lut`. */
  function DelLut(p: Processor, name: string): (q: Processor)
    ensures name !in q.luts && q.samplers == p.samplers
    ensures forall other | other != name :: other in q.luts <==> other in p.luts
    ensures forall other | other in q.luts :: q.luts[other] == p.luts[other]
    ensures Valid(p) ==> Valid(q)
  {
    p.(luts := p.luts - {name})
  }

  /** Removing a name that is not registered changes nothing. */
  lemma DelAbsent(p: Processor, name: string)
    requires name !in p.luts
    ensures DelLut(p, name) == p
  {
    assert DelLut(p, name).luts == p.luts;
  }

  /** Registering a new name and removing it again restores the processor. */
  lemma DelUndoesAdd(p: Processor, name: string, dim: nat, lut: seq<byte>)
    requires name !in p.luts
    requires Cube.Cube(dim) <= Align.U32_MAX && |lut| == TEXEL_BYTES * Cube.Cube(dim) && TextureFits(dim)
    ensures DelLut(AddLutRawAlpha(p, name, dim, lut).value, name) == p
  {
    var q := DelLut(AddLutRawAlpha(p, name, dim, lut).value, name);
    assert q.luts == p.luts;
  }

  /** `add_lut_raw_alpha` always replaces: of two calls for one name the
      second wins, as if the first had not happened. */
  lemma RawAlphaReplaces(p: Processor, name: string, dim1: nat, lut1: seq<byte>, dim2: nat, lut2: seq<byte>)
    requires Cube.Cube(dim1) <= Align.U32_MAX && |lut1| == TEXEL_BYTES * Cube.Cube(dim1) && TextureFits(dim1)
    requires Cube.Cube(dim2) <= Align.U32_MAX && |lut2| == TEXEL_BYTES * Cube.Cube(dim2) && TextureFits(dim2)
    ensures AddLutRawAlpha(AddLutRawAlpha(p, name, dim1, lut1).value, name, dim2, lut2)
            == AddLutRawAlpha(p, name, dim2, lut2)
  {
    var once := AddLutRawAlpha(p, name, dim2, lut2).value;
    var twice := AddLutRawAlpha(AddLutRawAlpha(p, name, dim1, lut1).value, name, dim2, lut2).value;
    assert twice.luts == once.luts;
  }

  /** `add_lut` is first-writer-wins: once a name is registered, adding it
      again, with any format and text, succeeds and changes nothing. */
  lemma AddLutFirstWins(p: Processor, name: string, format: string, lines: seq<string>,
                        toF32: Cube.FloatParser, format2: string, lines2: seq<string>)
    requires name !in p.luts && format == CUBE_FORMAT ==> CubeFits(lines, toF32)
    requires AddLut(p, name, format, lines, toF32).Ok?
    ensures var q := AddLut(p, name, format, lines, toF32).value;
            AddLut(q, name, format2, lines2, toF32) == Ok(q)
  {
  }

  /** The pixel formats `process` takes. */
  function PixelFormatOf(format: string): (f: Option<PixelFormat>)
    ensures f.Some? <==> format in {"bgra8", "rgba8", "rgb10a2"}
  {
    match format
    case "bgra8" => Some(Bgra8)
    case "rgba8" => Some(Rgba8)
    case "rgb10a2" => Some(Rgb10a2)
    case _ => None
  }

  /** What `process` needs of the image once its arguments are accepted: a
      non-empty extent; no `u32` overflow in `BufferAlign::new(width, 4)` or
      in the staging buffer size `padded * height`; and bytes the two row
      copies never overrun (whole rows of `4 * width` bytes, or at least
      `height` rows). */
  predicate ImageFits(width: nat, height: nat, len: nat)
  {
    && 1 <= width && 1 <= height && height <= Align.U32_MAX
    && PIXEL_BYTES * width <= Align.U32_MAX - (Align.ALIGN - 1)
    && Align.New(width, PIXEL_BYTES).padded * height <= Align.U32_MAX
    && WholeRows(len, PIXEL_BYTES * width, height)
  }

  /** The argument checks of `process` pass. */
  predicate Accepted(p: Processor, lutName: string, samplerName: string, format: string)
  {
    PixelFormatOf(format).Some? && samplerName in p.samplers && lutName in p.luts
  }

  /** What the kernel does to one pixel, given the sampler's filter, the LUT
      and the input format. The kernel itself is not part of this model. */
  type Kernel = (FilterMode, Lut, PixelFormat) -> Pixel -> Pixel

  /** `process`. The checks come first, in this order: the pixel format, the
      sampler, the LUT; a rejected call returns its error and leaves the
      caller's bytes alone. Then the image's rows are padded into a staging
      buffer, copied into the texture, shaded by a dispatch of
      `width / 32 + 1` by `height / 32 + 1` workgroups, copied into a second
      padded buffer and, if mapping that buffer for reading succeeds
      (`mapped`), copied back over the caller's bytes. */
  method Process(p: Processor, lutName: string, samplerName: string, format: string,
                 width: nat, height: nat, data: seq<byte>, kernel: Kernel, mapped: bool)
    returns (r: Result<seq<byte>, Error>)
    requires width <= Align.U32_MAX
    requires Accepted(p, lutName, samplerName, format) ==> ImageFits(width, height, |data|)
    ensures PixelFormatOf(format).None? ==> r == Err(UnsupportedInputFormat)
    ensures PixelFormatOf(format).Some? && samplerName !in p.samplers ==> r == Err(NoSuchSampler)
    ensures PixelFormatOf(format).Some? && samplerName in p.samplers && lutName !in p.luts
            ==> r == Err(UnknownLut)
    ensures Accepted(p, lutName, samplerName, format) && !mapped ==> r == Err(MapFailed)
    ensures r.Ok? <==> Accepted(p, lutName, samplerName, format) && mapped
    ensures r.Ok? ==> |r.value| == |data|
    ensures r.Ok? ==> forall i | 0 <= i < width * height && 4 * i + 4 <= |data| ::
              PixelAt(r.value, i)
              == kernel(p.samplers[samplerName], p.luts[lutName], PixelFormatOf(format).value)(PixelAt(data, i))
    ensures r.Ok? ==> forall q | PIXEL_BYTES * (width * height) <= q < |data| :: r.value[q] == data[q]
  {
    var fmt := PixelFormatOf(format);
    if fmt.None? {
      return Err(UnsupportedInputFormat);
    }
    if samplerName !in p.samplers {
      return Err(NoSuchSampler);
    }
    if lutName !in p.luts {
      return Err(UnknownLut);
    }
    var align := Align.New(width, PIXEL_BYTES);
    var u, pd := align.unpadded, align.padded;
    var staging := Pad(data, height, u, pd);
    var tex := Unpad(Zeros(height * u), staging, height, u, pd);
    var shade := kernel(p.samplers[samplerName], p.luts[lutName], fmt.value);
    ImageSize(width, height, u);
    var shaded := RunKernel(Pixels(tex), width, height, WorkgroupCount(width), WorkgroupCount(height), shade);
    if !mapped {
      return Err(MapFailed);
    }
    var back := Pad(Bytes(shaded), height, u, pd);
    var out := Unpad(data, back, height, u, pd);
    forall i | 0 <= i < width * height && 4 * i + 4 <= |data|
      ensures PixelAt(out, i) == shade(PixelAt(data, i))
    {
      ShadedPixel(data, width, height, u, pd, tex, shaded, shade, i);
    }
    forall q | u * height <= q < |data| ensures out[q] == data[q] {
      DownloadAt(data, Bytes(shaded), height, u, pd, q);
    }
    return Ok(out);
  }

  /** A tight image of `height` rows of `u == 4 * width` bytes holds
      `width * height` pixels. */
  lemma ImageSize(width: nat, height: nat, u: nat)
    requires u == PIXEL_BYTES * width
    ensures height * u == PIXEL_BYTES * (width * height)
    ensures (height * u) / 4 == width * height
  {
  }

  /** Pixel `i` of the bytes copied back is the kernel applied to pixel `i`
      of the caller's image. */
  lemma ShadedPixel(data: seq<byte>, width: nat, height: nat, u: nat, pd: nat,
                    tex: seq<byte>, shaded: seq<Pixel>, shade: Pixel -> Pixel, i: nat)
    requires 0 < u <= pd && u == PIXEL_BYTES * width && WholeRows(|data|, u, height)
    requires tex == Unpad(Zeros(height * u), Pad(data, height, u, pd), height, u, pd)
    requires |shaded| == width * height
    requires forall j | 0 <= j < |shaded| :: 4 * j + 4 <= |tex| && shaded[j] == shade(PixelAt(tex, j))
    requires i < width * height && 4 * i + 4 <= |data|
    ensures |Bytes(shaded)| == height * u && WholeRows(height * u, u, height)
    ensures PixelAt(Unpad(data, Pad(Bytes(shaded), height, u, pd), height, u, pd), i)
            == shade(PixelAt(data, i))
  {
    ImageSize(width, height, u);
    BytesAt(shaded, i);
    PixelTrip(data, height, u, pd, Bytes(shaded), tex, i);
  }

  /** Pixel `i` of the image reaches the texture, and pixel `i` of the
      shaded bytes reaches the caller. */
  lemma PixelTrip(data: seq<byte>, height: nat, u: nat, pd: nat, img: seq<byte>, tex: seq<byte>, i: nat)
    requires 0 < u <= pd && WholeRows(|data|, u, height) && |img| == height * u
    requires tex == Unpad(Zeros(height * u), Pad(data, height, u, pd), height, u, pd)
    requires 4 * i + 4 <= |data| && 4 * i + 4 <= height * u
    ensures WholeRows(|img|, u, height)
    ensures PixelAt(Unpad(data, Pad(img, height, u, pd), height, u, pd), i) == PixelAt(img, i)
    ensures PixelAt(tex, i) == PixelAt(data, i)
  {
    PixelUp(data, height, u, pd, tex, i);
    PixelDown(data, height, u, pd, img, i);
  }

  /** Pixel `i` of the image reaches the texture. */
  lemma PixelUp(data: seq<byte>, height: nat, u: nat, pd: nat, tex: seq<byte>, i: nat)
    requires 0 < u <= pd && WholeRows(|data|, u, height)
    requires tex == Unpad(Zeros(height * u), Pad(data, height, u, pd), height, u, pd)
    requires 4 * i + 4 <= |data| && 4 * i + 4 <= height * u
    ensures PixelAt(tex, i) == PixelAt(data, i)
  {
    TextureAt(data, height, u, pd, 4 * i);
    TextureAt(data, height, u, pd, 4 * i + 1);
    TextureAt(data, height, u, pd, 4 * i + 2);
    TextureAt(data, height, u, pd, 4 * i + 3);
  }

  /** Pixel `i` of the shaded bytes reaches the caller. */
  lemma PixelDown(data: seq<byte>, height: nat, u: nat, pd: nat, img: seq<byte>, i: nat)
    requires 0 < u <= pd && WholeRows(|data|, u, height) && |img| == height * u
    requires 4 * i + 4 <= |data| && 4 * i + 4 <= height * u
    ensures WholeRows(|img|, u, height)
    ensures PixelAt(Unpad(data, Pad(img, height, u, pd), height, u, pd), i) == PixelAt(img, i)
  {
    DownloadAt(data, img, height, u, pd, 4 * i);
    DownloadAt(data, img, height, u, pd, 4 * i + 1);
    DownloadAt(data, img, height, u, pd, 4 * i + 2);
    DownloadAt(data, img, height, u, pd, 4 * i + 3);
  }

  /** Every byte of a tight image of `height` rows of `u == 4 * width` bytes
      that the trip can change lies in a whole pixel of the caller's image:
      an image of whole rows is a whole number of pixels, and a longer one
      holds all `height` rows. */
  lemma PixelsCoverImage(width: nat, height: nat, u: nat, len: nat, q: nat)
    requires 0 < width && u == PIXEL_BYTES * width && WholeRows(len, u, height)
    requires q < len && q < height * u
    ensures 4 * (q / 4) + 4 <= len
  {
    if len % u == 0 {
      var k := len / u;
      DivMod(len, u);
      assert len == 4 * (k * width);
      WholePixel(q, k * width);
    } else {
      assert height * u == 4 * (height * width);
      WholePixel(q, height * width);
    }
  }

  /** A byte before `4 * m` lies in one of the first `m` pixels. */
  lemma WholePixel(q: nat, m: nat)
    requires q < 4 * m
    ensures 4 * (q / 4) + 4 <= 4 * m
  {
    DivMod(q, 4);
  }

  /** With a kernel that leaves every pixel as it is, a successful `process`
      hands the caller's bytes back unchanged: the padded trip loses and
      moves nothing. `ImageFits` gives the two facts required here. */
  lemma IdentityKernelKeepsImage(width: nat, height: nat, data: seq<byte>, out: seq<byte>)
    requires 0 < width && WholeRows(|data|, PIXEL_BYTES * width, height) && |out| == |data|
    requires forall i | 0 <= i < width * height && 4 * i + 4 <= |data| :: PixelAt(out, i) == PixelAt(data, i)
    requires forall q | PIXEL_BYTES * (width * height) <= q < |data| :: out[q] == data[q]
    ensures out == data
  {
    var u := PIXEL_BYTES * width;
    ImageSize(width, height, u);
    forall q | 0 <= q < |data| ensures out[q] == data[q] {
      if q < PIXEL_BYTES * (width * height) {
        PixelsCoverImage(width, height, u, |data|, q);
        var i := q / 4;
        assert PixelAt(out, i) == PixelAt(data, i);
        assert q == 4 * i || q == 4 * i + 1 || q == 4 * i + 2 || q == 4 * i + 3;
      }
    }
  }

  /** The floats of well-formed data lines, three per line, in file order. */
  function LineRgb(ls: seq<string>, toF32: Cube.FloatParser): (rgb: seq<F32>)
    requires CubeProps.AllWellFormed(ls, toF32)
    ensures |rgb| == 3 * |ls|
  {
    if |ls| == 0 then []
    else
      assert Cube.WellFormed(ls[0], toF32);
      Cube.Floats(Text.SplitWhitespace(ls[0]), toF32).value + LineRgb(ls[1..], toF32)
  }

  /** The parser lays out the voxels exactly as `add_lut_raw` expands the
      same floats. */
  lemma {:induction false} TexelsAreExpanded(ls: seq<string>, toF32: Cube.FloatParser)
    requires CubeProps.AllWellFormed(ls, toF32)
    ensures CubeProps.Texels(ls, toF32) == ExpandRgb(LineRgb(ls, toF32))
    decreases |ls|
  {
    if |ls| > 0 {
      assert Cube.WellFormed(ls[0], toF32);
      var fs := Cube.Floats(Text.SplitWhitespace(ls[0]), toF32).value;
      var rest := LineRgb(ls[1..], toF32);
      var rgb := LineRgb(ls, toF32);
      assert rgb == fs + rest;
      assert rgb[0] == fs[0] && rgb[1] == fs[1] && rgb[2] == fs[2] && rgb[3..] == rest;
      TexelsAreExpanded(ls[1..], toF32);
    }
  }

  /** `add_lut` with an accepted text registers the same LUT as
      `add_lut_raw` given the text's size and the floats of its data lines. */
  lemma AddLutAsRaw(p: Processor, name: string, lines: seq<string>, toF32: Cube.FloatParser)
    requires name !in p.luts && CubeFits(lines, toF32) && CubeProps.Accepts(lines, toF32)
    ensures var dim := CubeProps.LastSize(lines);
            var rgb := LineRgb(CubeProps.DataLines(lines), toF32);
            && 3 * Cube.Cube(dim) <= Align.U32_MAX && TextureFits(dim)
            && AddLutRaw(p, name, dim, rgb) == AddLut(p, name, CUBE_FORMAT, lines, toF32)
  {
    CubeProps.ParseSpec(lines, toF32);
    var dls := CubeProps.DataLines(lines);
    TexelsAreExpanded(dls, toF32);
    var viaRaw := AddLutRaw(p, name, CubeProps.LastSize(lines), LineRgb(dls, toF32));
    var viaText := AddLut(p, name, CUBE_FORMAT, lines, toF32);
    assert viaRaw.value.luts == viaText.value.luts;
  }
}
