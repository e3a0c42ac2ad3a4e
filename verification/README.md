# wgpu_lut host logic in Dafny

`wgpu_lut` applies a 3D colour lookup table (LUT) to an image on the GPU. This
project models the parts of it that run on the host, and proves properties of
that model:

- **`BufferAlign::new`** (`utils.rs`). It computes the tight size of an image
  row. It also computes that size rounded up to wgpu's 256-byte
  copy-alignment unit.
- **The `.cube` parser** (`formats/cube.rs`). It folds over the lines of the
  text and produces the LUT edge length `dim` and the voxels: `dim³` texels of
  four native-endian `f32` values `[r, g, b, 1.0]`.
- **`Processor`** (`lib.rs`), covering:
  - the sampler registry that `new` seeds;
  - the LUT registry and `add_lut_raw`, `add_lut_raw_alpha`, `add_lut` and
    `del_lut`;
  - `process`: its argument checks and their order, the row copies between
    the tight and the padded stride, the compute dispatch, and the copy back
    into the caller's bytes.

Modules:

| module | file | what it holds |
|---|---|---|
| `Results` | results.dfy | `Option` and `Result` |
| `Float32` | float32.dfy | bytes; an `f32` as its four host-order bytes; the RGBA texel |
| `Arith` | arith.dfy | multiplication and Euclidean division facts for row addressing |
| `Seqs` | seqs.dfy | `Flatten` and `slice::chunks` |
| `Text` | text.dfy | the `str` operations the parser uses |
| `Align` | align.dfy | `BufferAlign::new` |
| `Cube` | cube.dfy | the line-by-line parser: the corrected version and the version as written |
| `CubeProps` | cube_props.dfy | a description of accepted texts that does not use the loop; equivalence with the parser |
| `RowCopy` | rowcopy.dfy | the `chunks_mut(..).zip(chunks(..))` + `copy_nonoverlapping` row loop |
| `Staging` | staging.dfy | padding into staging buffers and copying back |
| `Dispatch` | dispatch.dfy | pixels, workgroup counts, and the invocation grid |
| `Engine` | engine.dfy | `Processor`, its registries and `process` |

How the things the model cannot see are represented:

- **Floats.** Floats are only copied, never computed on, so a float is its
  four bytes. Float token parsing (`str::parse::<f32>`) is a function
  parameter `toF32`.
- **The kernel.** The GPU kernel is a parameter of type `Kernel`. It maps the
  sampler's filter, the LUT and the pixel format to a per-pixel function.
- **Reading back.** Whether mapping the read-back buffer succeeds is the
  boolean parameter `mapped`.
- **Text input.** The parser takes the text as its sequence of lines.

The model follows the code where the code and its design description
disagree:

- **Whitespace-only lines.** Only the exactly empty line is skipped. A line of
  blanks is a data line with no tokens, so it fails the parse.
- **The `add_lut_raw_alpha` staging buffer.** The buffer is filled but never
  used: the texture receives the caller's bytes directly, through
  `write_texture`.
- **The edge length in `add_lut_raw_alpha`.** It is not range-checked there.

## Model

| member | source | states |
|---|---|---|
| Align.New | wgpu_lut/src/utils.rs:9-19 | The width is kept, and the tight row is `width * bytes_per_pixel`. The padded row is a multiple of 256, at least the tight row, and less than one unit longer. It equals the tight row when that is already aligned. Everything fits a `u32` when the tight row is at most `u32::MAX - 255` |
| Align.PaddedIsLeast | wgpu_lut/src/utils.rs:12-13 | The padded row is the least multiple of 256 that holds the tight row |
| Align.ThreePixelRow | wgpu_lut/src/utils.rs:9-13 | 3 pixels of 4 bytes give a 12-byte row padded to 256 |
| Align.AlignedRowUnpadded | wgpu_lut/src/utils.rs:12-13 | 64 pixels of 4 bytes give a 256-byte row that gets no padding |
| Text.SplitWhitespace | wgpu_lut/src/formats/cube.rs:38-39 | `split_whitespace` gives non-empty tokens that contain no whitespace |
| Text.SplitJoin | wgpu_lut/src/formats/cube.rs:38-39 | `split_whitespace` gives back exactly the tokens of a line written as non-empty, whitespace-free tokens separated by spaces, in order, so the token count checked at cube.rs:45 is the number of words on the line |
| Text.NoTokensIffBlank | wgpu_lut/src/formats/cube.rs:38-47 | A line splits into no tokens exactly when all of its characters are whitespace |
| Text.TrimStartWhitespaceSpec | wgpu_lut/src/formats/cube.rs:25 | Trimming leading whitespace removes exactly the whitespace prefix |
| Text.TrimStartMatchesSpec | wgpu_lut/src/formats/cube.rs:24 | `trim_start_matches(pat)` removes a prefix made of some number of copies of `pat` and leaves a suffix that does not start with `pat` |
| Text.TrimStartCharSpec | wgpu_lut/src/formats/cube.rs:26 | `trim_start_matches('"')` removes exactly the leading quotes |
| Text.TrimEndCharSpec | wgpu_lut/src/formats/cube.rs:27 | `trim_end_matches('"')` removes exactly the trailing quotes |
| Text.ParseUsize | wgpu_lut/src/formats/cube.rs:28 | `parse::<usize>` accepts only an optional `+` followed by digits, with a value that fits a `usize` |
| Text.ParseDecimal | wgpu_lut/src/formats/cube.rs:28 | `parse::<usize>` reads back the decimal spelling of every `usize` |
| Cube.SizeValue | wgpu_lut/src/formats/cube.rs:22-32 | A size directive is accepted exactly when its trimmed text parses as a `usize` in [2, 65535]. The value is that number. Text that does not parse is a `BadSize` error |
| Cube.Floats | wgpu_lut/src/formats/cube.rs:38-50 | The tokens convert exactly when each of them parses as a float, giving one float per token in order. Otherwise the error names a token that failed |
| Cube.Step | wgpu_lut/src/formats/cube.rs:17-54 | Per line: empty and `TITLE` lines change nothing, and a valid size directive sets `dim`. A data line fails with `MissingSize` while `dim` is 0. Otherwise it fails with `NotThreeFloats` when it does not have 3 tokens, a check that comes before any float error. It succeeds exactly when it is three floats, and then appends its voxel |
| Cube.Scan | wgpu_lut/src/formats/cube.rs:17-55 | On success the state stays consistent: the size is 0 or in range, and there are 16 bytes per counted data line. It counts at most one data line per input line, and a declared size is never lost |
| Cube.Parse | wgpu_lut/src/formats/cube.rs:7-61 | On success: `2 <= dim <= 65535`, the buffer holds `16 * dim³` bytes, and `dim³` fits a `u32` (corrected version, see Findings) |
| Cube.ParseAsWritten | wgpu_lut/src/formats/cube.rs:57-61 | As written, on success `dim` is 0 or in range, and the buffer holds 16 bytes per point of the wrapped `u32` cube |
| CubeProps.ScanSpec | wgpu_lut/src/formats/cube.rs:17-55 | The line loop succeeds exactly when the remaining lines are acceptable, and then ends with the last declared size and one more voxel per data line |
| CubeProps.ParseSpec | wgpu_lut/src/formats/cube.rs:7-61 | The parse succeeds exactly on the texts the loop-free description accepts. It returns the last declared size and the voxels of the data lines in file order |
| CubeProps.ParseLineCount | wgpu_lut/src/formats/cube.rs:53-61 | On success there are exactly `dim³` data lines and the buffer holds 16 bytes per data line |
| CubeProps.ParseVoxel | wgpu_lut/src/formats/cube.rs:49-61 | Voxel `k` is `Enc(r) + Enc(g) + Enc(b) + Enc(1.0)`, where `r`, `g`, `b` are the floats of the `k`-th data line |
| CubeProps.TexelsAt | wgpu_lut/src/formats/cube.rs:49-52 | Bytes `16k .. 16k + 16` of the output come from data line `k` |
| CubeProps.DataBeforeSizeRejected | wgpu_lut/src/formats/cube.rs:33-36 | A data line before any size directive makes the parse fail |
| CubeProps.MalformedLineRejected | wgpu_lut/src/formats/cube.rs:38-50 | A data line that is not exactly three floats makes the parse fail |
| CubeProps.WhitespaceLineRejected | wgpu_lut/src/formats/cube.rs:19-47 | A line of only whitespace is not skipped, so the parse fails |
| CubeProps.BadSizeRejected | wgpu_lut/src/formats/cube.rs:22-31 | A size directive that is not a number in range makes the parse fail |
| CubeProps.SizeDirective | wgpu_lut/src/formats/cube.rs:22-32 | `LUT_3D_SIZE n` is a size directive, accepted exactly when `2 <= n <= 65535` |
| CubeProps.SizeBounds | wgpu_lut/src/formats/cube.rs:29-31 | Sizes 1 and 65536 are refused; 2 and 65535 are accepted |
| CubeProps.EmptyTextAcceptedAsWritten | wgpu_lut/src/formats/cube.rs:13-61 | As written, a text without a size directive parses as an empty LUT of size 0; the corrected parser refuses it |
| CubeProps.WrappedCubeAcceptedAsWritten | wgpu_lut/src/formats/cube.rs:57-61 | As written, `LUT_3D_SIZE 2048` alone parses with no voxels, because `2048³` wraps to 0; the corrected parser asks for `2048³` lines |
| CubeProps.ParseAgreesAsWritten | wgpu_lut/src/formats/cube.rs:57-61 | The two parsers agree wherever a size was declared and its cube fits a `u32` |
| Float32.Texel | wgpu_lut/src/formats/cube.rs:49-52 | A texel is 16 bytes: the three channels as `to_ne_bytes` gives them, then 1.0. The channels can be read back from it |
| RowCopy.CopyRowsAt | wgpu_lut/src/lib.rs:254-270 | The row loop, element by element: element `p` takes the source element at the same row and column when the column is among the first `n` and the source has that row. Every other element keeps its value |
| RowCopy.FitsIffWholeRows | wgpu_lut/src/lib.rs:254-270 | Every unchecked copy, in either direction, stays inside both buffers exactly when the image holds whole rows or at least `height` rows |
| RowCopy.WholeRowsFit | wgpu_lut/src/lib.rs:257-265 | With whole rows, every pair the zip visits has at least one tight row on each side |
| RowCopy.PartialRowOverruns | wgpu_lut/src/lib.rs:257-265 | Without whole rows, the zip reaches a short last row, and `copy_nonoverlapping` reads past its end |
| Staging.PadAt | wgpu_lut/src/lib.rs:247-270 | Padded row `k`, column `o` holds tight row `k`, column `o`. Pad bytes and rows past the image stay zero |
| Staging.UnpadAt | wgpu_lut/src/lib.rs:421-436 | Copying back fills the first `height` tight rows from the padded rows and leaves later bytes alone |
| Staging.TextureAt | wgpu_lut/src/lib.rs:254-270 | The texture receives the image's bytes, with zeros where the image is short |
| Staging.DownloadAt | wgpu_lut/src/lib.rs:421-436 | After the trip back, the caller's bytes hold the texture's bytes in the first `height` rows and are unchanged beyond them |
| Staging.RoundTrip | wgpu_lut/src/lib.rs:254-436 | Padding and copying back recover an image of exactly `height` rows |
| Dispatch.WorkgroupCount | wgpu_lut/src/lib.rs:390 | `n / 32 + 1` workgroups cover `n` pixels, and the first `g - 1` of them end at or before `n` |
| Dispatch.IdleLastWorkgroup | wgpu_lut/src/lib.rs:390 | When `n` is a multiple of 32, the last workgroup lies wholly outside the image |
| Dispatch.WorkgroupCountFits | wgpu_lut/src/lib.rs:390 | The count of a `u32` extent does not overflow |
| Dispatch.PixelsOfBytes | wgpu_lut/src/lib.rs:287-297 | Reading pixels from their laid-out bytes gives the same pixels |
| Dispatch.BytesOfPixels | wgpu_lut/src/lib.rs:287-297 | An image of whole pixels is its pixels laid out back to back |
| Dispatch.RunKernel | wgpu_lut/src/lib.rs:386-391 | The dispatched grid shades every pixel of the image exactly once with the kernel |
| Engine.New | wgpu_lut/src/lib.rs:66-91 | A new processor has exactly the samplers "nearest" (point filter) and "linear" (linear filter), and no LUT |
| Engine.AddLutRawAlpha | wgpu_lut/src/lib.rs:115-196 | Fails exactly when the bytes are not `dim³ * 16`, with the registry then unchanged. On success `name` holds the LUT, replacing any entry. Every other name and the samplers are untouched, and every registered LUT stays a full cube |
| Engine.ExpandAt | wgpu_lut/src/lib.rs:104-110 | Texel `k` of the expansion is RGB triple `k` followed by 1.0 |
| Engine.DropAlphaOfExpand | wgpu_lut/src/lib.rs:104-110 | Dropping alpha from the expansion gives back the caller's floats, so nothing is lost or reordered |
| Engine.AddLutRaw | wgpu_lut/src/lib.rs:95-113 | Fails exactly when there are not `dim³ * 3` floats. On success the expanded texels are registered as by `add_lut_raw_alpha`, whose length check they always pass |
| Engine.AddLut | wgpu_lut/src/lib.rs:199-214 | A registered name succeeds unchanged. Otherwise it succeeds exactly for format "cube" with a text the parser accepts. Another format is `UnsupportedLutFormat`, and a rejected text is a `CubeFormat` error. On success it registers the last declared size with the data lines' voxels |
| Engine.DelLut | wgpu_lut/src/lib.rs:216-218 | Removes `name` and nothing else |
| Engine.DelAbsent | wgpu_lut/src/lib.rs:216-218 | Removing an absent name changes nothing |
| Engine.DelUndoesAdd | wgpu_lut/src/lib.rs:188-218 | Adding a new name and deleting it restores the processor |
| Engine.RawAlphaReplaces | wgpu_lut/src/lib.rs:188-194 | Of two `add_lut_raw_alpha` calls for one name the second wins, as if the first had not happened |
| Engine.AddLutFirstWins | wgpu_lut/src/lib.rs:200-202 | Once `add_lut` has registered a name, adding it again with any format and text changes nothing |
| Engine.TexelsAreExpanded | wgpu_lut/src/formats/cube.rs:49-52 | The parser lays out voxels exactly as the `add_lut_raw` expansion of the same floats |
| Engine.AddLutAsRaw | wgpu_lut/src/lib.rs:95-214 | `add_lut` of an accepted text registers the same LUT as `add_lut_raw` given its size and floats |
| Engine.PixelFormatOf | wgpu_lut/src/lib.rs:229-234 | Exactly "bgra8", "rgba8" and "rgb10a2" are pixel formats |
| Engine.Process | wgpu_lut/src/lib.rs:220-445 | Rejects an unknown format, then an unknown sampler, then an unknown LUT, in that order, and fails if the read-back mapping fails. It succeeds otherwise. On success the bytes keep their length, and every pixel of the image is the kernel applied to the caller's pixel. Bytes past `width * height` pixels are unchanged |
| Engine.ShadedPixel | wgpu_lut/src/lib.rs:254-436 | Pixel `i` after the whole trip is the kernel applied to pixel `i` of the caller's image |
| Engine.PixelsCoverImage | wgpu_lut/src/lib.rs:421-436 | When the image holds whole rows of `4 * width` bytes, or at least `height` rows, every byte the trip can change lies in a whole pixel |
| Engine.IdentityKernelKeepsImage | wgpu_lut/src/lib.rs:254-436 | With a kernel that keeps every pixel, a successful `process` returns the caller's bytes unchanged |

## Left out

- **Device work.** Adapter and device requests, texture, buffer, bind-group
  and pipeline creation, `queue.submit`, `poll`, `map_async` and `destroy`
  are not modelled (lib.rs:32-64, 132-140, 274-419, 438-442). They become:
  - zero-initialised buffers;
  - the `mapped` flag;
  - the texture-to-buffer copies, modelled as the same row copy.
- **The GPU kernel.** It is a parameter. Its source is not part of this model,
  and its sampling is float and trilinear arithmetic.
- **`build.rs`.** It compiles the kernel.
- **Concurrency.** `DashMap` concurrency is left out, including the race
  between `contains_key` and `insert` in `add_lut`. The registries are
  sequential maps.
- **`async`.** The `async` suspension of `process` is left out.
- **The staging buffer of `add_lut_raw_alpha`** (lib.rs:142-167). It is never
  used; only the `u32` overflow of its size is kept, as a precondition.
- **Reading the text.** `BufRead::lines`, I/O and UTF-8 errors, and the float
  syntax are left out. The parser takes lines, and floats come through
  `toF32`.
- **Byte order.** 1.0 is given as the bytes of a little-endian host.
- **Device limits.** The panics wgpu raises for zero-sized or oversized
  textures, and its texture-size limits, are preconditions (`ImageFits`,
  `TextureFits`) or left out.
- **Invocation order.** The device runs invocations in no fixed order. The
  model visits them in order, which gives the same result because each
  touches only its own pixel.
- **Out-of-range invocations.** They are modelled as having no effect,
  because the kernel is not part of this model.
- **Other files.** The FFI shim (wgpu_lut_c), the `apply` binary, the
  benchmarks and `formats/mod.rs` are left out. Note that the shim passes
  `dim³ * 3 * 4` floats to `add_lut_raw`, which that call refuses.
- Engine.Process: the missing length check on `data` in the source is
  stated as the precondition `WholeRows`, not enforced. This is the weakest
  condition under which none of the unchecked copies overruns a buffer
  (`RowCopy.FitsIffWholeRows`).
- Engine.AddLutRawAlpha: `dim³` and the `BufferAlign::new(dim³, 16)` sizes
  are `u32` and panic on overflow in a debug build. They are preconditions,
  not modelled as wrap-around.
- Engine.AddLutRaw: `dim³ * 3` is `u32`. Its overflow is a precondition, not
  modelled as wrap-around.
- Cube.Parse: the `u32` line counter is kept below `2³²` by a precondition.
- Engine.AddLut: it is built on the corrected parser `Cube.Parse`, not on
  `Cube.ParseAsWritten`. On the two inputs under "## Findings" it returns a
  `CubeFormat` error (`MissingSize`, or a line-count error for
  `LUT_3D_SIZE 2048`). The source instead returns `Ok((0, []))` from the
  parser and hands it to `add_lut_raw_alpha`, which accepts the empty data
  and asks the device for a 0×0×0 texture. For `LUT_3D_SIZE 2048` it either
  wraps the cube to 0 in a release build or panics on the overflow in a
  debug build. What the device does with such a texture is not part of this
  model.

## Findings

| source | as written | input that shows it | evidently intended | confidence | as-written member | corrected member |
|---|---|---|---|---|---|---|
| wgpu_lut/src/formats/cube.rs:13-61 | `dim` starts at 0 and nothing after the loop checks that a size was declared, so `0 == 0*0*0` passes | an empty text, or one holding only a `TITLE` line, parses as `(0, [])` | a text with no `LUT_3D_SIZE` is refused, since `dim` must be in [2, 65535] | not executed | CubeProps.EmptyTextAcceptedAsWritten | CubeProps.ParseSpec |
| wgpu_lut/src/formats/cube.rs:57 | `dim * dim * dim` is `u32` and wraps in a release build | `LUT_3D_SIZE 2048` with no data lines parses as `(2048, [])`, because `2048³ = 2³³` wraps to 0 | the data-line count is compared with the exact `dim³` | not executed | CubeProps.WrappedCubeAcceptedAsWritten | CubeProps.ParseLineCount |
