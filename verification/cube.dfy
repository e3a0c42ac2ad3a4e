/** The `.cube` 3D-LUT text parser (formats/cube.rs): a fold over the lines of
    the text with two pieces of state, the declared edge length `dim` and the
    number of data lines read so far, producing `(dim, RGBA-f32 bytes)`. */
module Cube {
  import opened Results
  import opened Float32
  import opened Text
  import Align

  /** `str::parse::<f32>`, left abstract: the float syntax is not modelled. */
  type FloatParser = string -> Option<F32>

  const SIZE_KEYWORD: string := "LUT_3D_SIZE"
  const TITLE_KEYWORD: string := "TITLE"

  /** The accepted edge lengths, `2..65536`. */
  const MIN_DIM: nat := 2
  const MAX_DIM: nat := 65535

  datatype ParseError =
    | BadSize(text: string)               // the size is not a `usize`
    | SizeOutOfRange(size: nat)           // the size is outside [2, 65535]
    | MissingSize                         // data before any LUT_3D_SIZE
    | NotThreeFloats(count: nat)          // a data line without exactly 3 tokens
    | BadFloat(token: string)             // a token that is not a float
    | LineCount(expected: nat, got: nat)  // the data lines do not number dim³

  function Cube(d: nat): nat
  {
    d * d * d
  }

  /** What the parser makes of one line, by its first characters. */
  datatype Line = Blank | Title | Size | Data

  function Classify(line: string): Line
  {
    if line == "" then Blank
    else if StartsWith(line, TITLE_KEYWORD) then Title
    else if StartsWith(line, SIZE_KEYWORD) then Size
    else Data
  }

  predicate IsSizeLine(line: string)
  {
    Classify(line).Size?
  }

  predicate IsDataLine(line: string)
  {
    Classify(line).Data?
  }

  /** The text of a size directive that is handed to `parse::<usize>`: the
      keyword (repeated or not), then leading whitespace, then any leading and
      trailing double quotes are stripped. */
  function SizeText(line: string): string
  {
    TrimEndChar(TrimStartChar(TrimStartWhitespace(TrimStartMatches(line, SIZE_KEYWORD)), '"'), '"')
  }

  /** The edge length a size directive declares, range-checked. */
  function SizeValue(line: string): (r: Result<nat, ParseError>)
    ensures r.Ok? <==> ParseUsize(SizeText(line)).Some? && MIN_DIM <= ParseUsize(SizeText(line)).value <= MAX_DIM
    ensures r.Ok? ==> r.value == ParseUsize(SizeText(line)).value
    ensures ParseUsize(SizeText(line)).None? ==> r == Err(BadSize(SizeText(line)))
  {
    match ParseUsize(SizeText(line))
    case None => Err(BadSize(SizeText(line)))
    case Some(u) => if MIN_DIM <= u <= MAX_DIM then Ok(u) else Err(SizeOutOfRange(u))
  }

  /** Every token parsed as a float; the error names the first token, in line
      order, that does not parse. */
  function Floats(tokens: seq<string>, toF32: FloatParser): (r: Result<seq<F32>, ParseError>)
    ensures r.Ok? <==> forall k | 0 <= k < |tokens| :: toF32(tokens[k]).Some?
    ensures r.Ok? ==> |r.value| == |tokens|
    ensures r.Ok? ==> forall k | 0 <= k < |tokens| :: toF32(tokens[k]) == Some(r.value[k])
    ensures r.Err? ==> r.error.BadFloat? && exists k | 0 <= k < |tokens| ::
      tokens[k] == r.error.token && toF32(tokens[k]).None? && forall j | 0 <= j < k :: toF32(tokens[j]).Some?
    decreases |tokens|
  {
    if |tokens| == 0 then Ok([])
    else match toF32(tokens[0])
      case None => Err(BadFloat(tokens[0]))
      case Some(f) =>
        match Floats(tokens[1..], toF32)
        case Err(e) => Err(e)
        case Ok(fs) => Ok([f] + fs)
  }

  /** A data line the parser accepts: three tokens, each a float. */
  predicate WellFormed(line: string, toF32: FloatParser)
  {
    var tokens := SplitWhitespace(line);
    IsDataLine(line) && |tokens| == 3 && Floats(tokens, toF32).Ok?
  }

  /** The voxel a well-formed data line contributes: its three floats and 1.0. */
  function LineTexel(line: string, toF32: FloatParser): (t: seq<byte>)
    requires WellFormed(line, toF32)
    ensures |t| == 16
  {
    var fs := Floats(SplitWhitespace(line), toF32).value;
    Texel(fs[0], fs[1], fs[2])
  }

  /** The parser's state: the declared size (0 before any directive), the data
      lines read, and the bytes produced so far. */
  datatype State = State(dim: nat, count: nat, buffer: seq<byte>)

  const START: State := State(0, 0, [])

  predicate ValidState(st: State)
  {
    && (st.dim == 0 || MIN_DIM <= st.dim <= MAX_DIM)
    && |st.buffer| == 16 * st.count
  }

  /** One iteration of the line loop. */
  function Step(st: State, line: string, toF32: FloatParser): (r: Result<State, ParseError>)
    ensures (Classify(line).Blank? || Classify(line).Title?) ==> r == Ok(st)
    ensures IsSizeLine(line) ==> r.Ok? == SizeValue(line).Ok?
    ensures IsSizeLine(line) && r.Ok? ==> r.value == st.(dim := SizeValue(line).value)
    ensures IsDataLine(line) && st.dim == 0 ==> r == Err(MissingSize)
    ensures IsDataLine(line) && st.dim != 0 && |SplitWhitespace(line)| != 3 ==>
              r == Err(NotThreeFloats(|SplitWhitespace(line)|))
    ensures IsDataLine(line) ==> (r.Ok? <==> st.dim != 0 && WellFormed(line, toF32))
    ensures IsDataLine(line) && r.Ok? ==>
              r.value == State(st.dim, st.count + 1, st.buffer + LineTexel(line, toF32))
    ensures ValidState(st) && r.Ok? ==> ValidState(r.value)
  {
    match Classify(line)
    case Blank => Ok(st)
    case Title => Ok(st)
    case Size =>
      (match SizeValue(line)
       case Err(e) => Err(e)
       case Ok(u) => Ok(st.(dim := u)))
    case Data =>
      var tokens := SplitWhitespace(line);
      if st.dim == 0 then Err(MissingSize)
      else if |tokens| != 3 then Err(NotThreeFloats(|tokens|))
      else
        match Floats(tokens, toF32)
        case Err(e) => Err(e)
        case Ok(fs) => Ok(State(st.dim, st.count + 1, st.buffer + Texel(fs[0], fs[1], fs[2])))
  }

  /** The line loop, stopping at the first error. */
  function Scan(lines: seq<string>, st: State, toF32: FloatParser): (r: Result<State, ParseError>)
    requires ValidState(st)
    ensures r.Ok? ==> ValidState(r.value)
    ensures r.Ok? ==> st.count <= r.value.count <= st.count + |lines|
    ensures r.Ok? ==> r.value.dim == st.dim || r.value.dim != 0
    decreases |lines|
  {
    if |lines| == 0 then Ok(st)
    else
      match Step(st, lines[0], toF32)
      case Err(e) => Err(e)
      case Ok(next) => Scan(lines[1..], next, toF32)
  }

  /** `parse`, with the two defects recorded under Findings in README.md
      corrected: a text that never declares a size is rejected, and the line
      count is compared with the exact cube of the size. The line counter is a
      `u32`, so the text has fewer than 2³² lines. On success the size is in
      range, the buffer holds one 16-byte voxel per point of the cube, and the
      cube fits a `u32`. */
  function Parse(lines: seq<string>, toF32: FloatParser): (r: Result<(nat, seq<byte>), ParseError>)
    requires |lines| <= Align.U32_MAX
    ensures r.Ok? ==> MIN_DIM <= r.value.0 <= MAX_DIM
    ensures r.Ok? ==> |r.value.1| == 16 * Cube(r.value.0)
    ensures r.Ok? ==> Cube(r.value.0) <= |lines| <= Align.U32_MAX
  {
    match Scan(lines, START, toF32)
    case Err(e) => Err(e)
    case Ok(st) =>
      if st.dim == 0 then Err(MissingSize)
      else if st.count != Cube(st.dim) then Err(LineCount(Cube(st.dim), st.count))
      else Ok((st.dim, st.buffer))
  }

  /** `x` as a `u32` computation leaves it in a release build: wrapped. */
  function WrapU32(x: nat): (w: nat)
    ensures w <= Align.U32_MAX
    ensures x <= Align.U32_MAX ==> w == x
  {
    x % (Align.U32_MAX + 1)
  }

  /** `parse` as written (release build): the final check compares the line
      count with `dim * dim * dim` computed in wrapping `u32` arithmetic, and
      nothing rejects a text that never declared a size. */
  function ParseAsWritten(lines: seq<string>, toF32: FloatParser): (r: Result<(nat, seq<byte>), ParseError>)
    requires |lines| <= Align.U32_MAX
    ensures r.Ok? ==> r.value.0 == 0 || MIN_DIM <= r.value.0 <= MAX_DIM
    ensures r.Ok? ==> |r.value.1| == 16 * WrapU32(Cube(r.value.0))
  {
    match Scan(lines, START, toF32)
    case Err(e) => Err(e)
    case Ok(st) =>
      if st.count != WrapU32(Cube(st.dim)) then Err(LineCount(WrapU32(Cube(st.dim)), st.count))
      else Ok((st.dim, st.buffer))
  }
}
