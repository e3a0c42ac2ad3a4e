/** What the `.cube` parser accepts and produces, stated without the line
    loop: an independent description of a well-formed text, proved to agree
    with `Cube.Parse` on every input, and its consequences. */
module CubeProps {
  import opened Results
  import opened Float32
  import opened Text
  import opened Cube
  import Align
  import Seqs

  /** The size a line declares, 0 unless it is a valid size directive. */
  function SizeOf(line: string): (d: nat)
    ensures d == 0 || MIN_DIM <= d <= MAX_DIM
  {
    if IsSizeLine(line) && SizeValue(line).Ok? then SizeValue(line).value else 0
  }

  /** The size declared by the last valid size directive, 0 if none: the
      last size of the rest of the text, or else that of the first line. */
  function LastSize(lines: seq<string>): nat
    decreases |lines|
  {
    if |lines| == 0 then 0
    else if LastSize(lines[1..]) != 0 then LastSize(lines[1..])
    else SizeOf(lines[0])
  }

  /** The data lines of a text, in file order. */
  function DataLines(lines: seq<string>): seq<string>
    decreases |lines|
  {
    if |lines| == 0 then []
    else (if IsDataLine(lines[0]) then [lines[0]] else []) + DataLines(lines[1..])
  }

  predicate AllWellFormed(ls: seq<string>, toF32: FloatParser)
  {
    forall k | 0 <= k < |ls| :: WellFormed(ls[k], toF32)
  }

  /** The voxels of well-formed data lines, one after the other. */
  function Texels(ls: seq<string>, toF32: FloatParser): seq<byte>
    requires AllWellFormed(ls, toF32)
    decreases |ls|
  {
    if |ls| == 0 then [] else LineTexel(ls[0], toF32) + Texels(ls[1..], toF32)
  }

  /** Every size directive is a number in range. */
  predicate SizesValid(lines: seq<string>)
  {
    forall i | 0 <= i < |lines| :: SizeLineValid(lines[i])
  }

  predicate SizeLineValid(line: string)
  {
    IsSizeLine(line) ==> SizeValue(line).Ok?
  }

  predicate SizeBefore(lines: seq<string>, i: nat)
    requires i <= |lines|
  {
    exists j | 0 <= j < i :: IsSizeLine(lines[j])
  }

  /** Every data line comes after a size directive, or a size `dim0` was
      already in force before the first line. */
  predicate DataAfterSize(lines: seq<string>, dim0: nat)
  {
    forall i | 0 <= i < |lines| :: IsDataLine(lines[i]) ==> dim0 != 0 || SizeBefore(lines, i)
  }

  /** A text `parse` accepts: valid size directives, no data before the first
      of them, three floats on every data line, at least one size declared,
      and exactly `dim³` data lines for the last size declared. */
  predicate Accepts(lines: seq<string>, toF32: FloatParser)
  {
    && SizesValid(lines)
    && DataAfterSize(lines, 0)
    && AllWellFormed(DataLines(lines), toF32)
    && LastSize(lines) != 0
    && |DataLines(lines)| == Cube.Cube(LastSize(lines))
  }

  lemma {:induction false} TexelsLength(ls: seq<string>, toF32: FloatParser)
    requires AllWellFormed(ls, toF32)
    ensures |Texels(ls, toF32)| == 16 * |ls|
    decreases |ls|
  {
    if |ls| > 0 {
      TexelsLength(ls[1..], toF32);
    }
  }

  /** Voxel `k` of the output comes from data line `k`. */
  lemma {:induction false} TexelsAt(ls: seq<string>, toF32: FloatParser, k: nat)
    requires AllWellFormed(ls, toF32)
    requires k < |ls|
    ensures |Texels(ls, toF32)| == 16 * |ls|
    ensures Texels(ls, toF32)[16 * k .. 16 * k + 16] == LineTexel(ls[k], toF32)
    decreases k
  {
    TexelsLength(ls, toF32);
    var head := LineTexel(ls[0], toF32);
    var tail := Texels(ls[1..], toF32);
    assert Texels(ls, toF32) == head + tail;
    if k > 0 {
      TexelsAt(ls[1..], toF32, k - 1);
      Seqs.SliceOfSuffix(head, tail, 16 * k, 16 * k + 16);
      assert ls[1..][k - 1] == ls[k];
    }
  }

  lemma SizesValidCons(lines: seq<string>)
    requires |lines| > 0
    ensures SizesValid(lines) <==> SizeLineValid(lines[0]) && SizesValid(lines[1..])
  {
    var rest := lines[1..];
    if SizesValid(lines) {
      forall i | 0 <= i < |rest| ensures SizeLineValid(rest[i]) {
        assert rest[i] == lines[i + 1];
      }
    }
    if SizeLineValid(lines[0]) && SizesValid(rest) {
      forall i | 0 <= i < |lines| ensures SizeLineValid(lines[i]) {
        if i > 0 { assert lines[i] == rest[i - 1]; }
      }
    }
  }

  lemma DataLinesCons(lines: seq<string>, toF32: FloatParser)
    requires |lines| > 0
    ensures IsDataLine(lines[0]) ==> DataLines(lines) == [lines[0]] + DataLines(lines[1..])
    ensures !IsDataLine(lines[0]) ==> DataLines(lines) == DataLines(lines[1..])
    ensures AllWellFormed(DataLines(lines), toF32) <==>
              (IsDataLine(lines[0]) ==> WellFormed(lines[0], toF32)) && AllWellFormed(DataLines(lines[1..]), toF32)
  {
    var dl, dr := DataLines(lines), DataLines(lines[1..]);
    if IsDataLine(lines[0]) {
      assert dl == [lines[0]] + dr;
      AllWellFormedCons(lines[0], dr, toF32);
    } else {
      assert dl == [] + dr;
    }
  }

  lemma AllWellFormedCons(line: string, ls: seq<string>, toF32: FloatParser)
    ensures AllWellFormed([line] + ls, toF32) <==> WellFormed(line, toF32) && AllWellFormed(ls, toF32)
  {
    var all := [line] + ls;
    if AllWellFormed(all, toF32) {
      assert WellFormed(all[0], toF32);
      forall k | 0 <= k < |ls| ensures WellFormed(ls[k], toF32) {
        assert ls[k] == all[k + 1];
      }
    }
    if WellFormed(line, toF32) && AllWellFormed(ls, toF32) {
      forall k | 0 <= k < |all| ensures WellFormed(all[k], toF32) {
        if k > 0 { assert all[k] == ls[k - 1]; }
      }
    }
  }

  /** How the "no data before a size" condition moves past the first line. */
  lemma DataAfterSizeCons(lines: seq<string>, d: nat)
    requires |lines| > 0
    ensures d != 0 ==> DataAfterSize(lines, d)
    ensures IsSizeLine(lines[0]) ==> DataAfterSize(lines, d)
    ensures IsDataLine(lines[0]) ==> (DataAfterSize(lines, d) <==> d != 0)
    ensures !IsSizeLine(lines[0]) ==> (DataAfterSize(lines, d) ==> DataAfterSize(lines[1..], d))
    ensures !IsSizeLine(lines[0]) && !IsDataLine(lines[0]) ==>
              (DataAfterSize(lines[1..], d) ==> DataAfterSize(lines, d))
  {
    var rest := lines[1..];
    if IsSizeLine(lines[0]) {
      forall i | 0 <= i < |lines| && IsDataLine(lines[i]) ensures SizeBefore(lines, i) {
        assert i != 0;
      }
    }
    if IsDataLine(lines[0]) && d == 0 {
      assert !SizeBefore(lines, 0);
    }
    if !IsSizeLine(lines[0]) && DataAfterSize(lines, d) {
      forall i | 0 <= i < |rest| && IsDataLine(rest[i]) ensures d != 0 || SizeBefore(rest, i) {
        assert rest[i] == lines[i + 1];
        if d == 0 {
          var j :| 0 <= j < i + 1 && IsSizeLine(lines[j]);
          assert j > 0 && rest[j - 1] == lines[j];
        }
      }
    }
    if !IsSizeLine(lines[0]) && !IsDataLine(lines[0]) && DataAfterSize(rest, d) {
      forall i | 0 <= i < |lines| && IsDataLine(lines[i]) ensures d != 0 || SizeBefore(lines, i) {
        assert i > 0 && lines[i] == rest[i - 1];
        if d == 0 {
          var j :| 0 <= j < i - 1 && IsSizeLine(rest[j]);
          assert lines[j + 1] == rest[j];
        }
      }
    }
  }

  /** When the line loop succeeds from a state whose size is `dim0`. */
  predicate Acceptable(lines: seq<string>, dim0: nat, toF32: FloatParser)
  {
    SizesValid(lines) && DataAfterSize(lines, dim0) && AllWellFormed(DataLines(lines), toF32)
  }

  /** The state the line loop ends in: the last size declared (or the one
      in force), one more voxel per data line. */
  function Expected(lines: seq<string>, st: State, toF32: FloatParser): State
    requires AllWellFormed(DataLines(lines), toF32)
  {
    State(if LastSize(lines) != 0 then LastSize(lines) else st.dim,
          st.count + |DataLines(lines)|,
          st.buffer + Texels(DataLines(lines), toF32))
  }

  /** A line on which the loop stops makes the text unacceptable. */
  lemma StepRejects(lines: seq<string>, st: State, toF32: FloatParser)
    requires |lines| > 0 && ValidState(st)
    requires Step(st, lines[0], toF32).Err?
    ensures !Acceptable(lines, st.dim, toF32)
  {
    SizesValidCons(lines);
    DataLinesCons(lines, toF32);
    DataAfterSizeCons(lines, st.dim);
  }

  /** A blank or title line leaves state and description unchanged. */
  lemma StepSkips(lines: seq<string>, st: State, toF32: FloatParser)
    requires |lines| > 0 && ValidState(st)
    requires !IsSizeLine(lines[0]) && !IsDataLine(lines[0])
    ensures Step(st, lines[0], toF32) == Ok(st)
    ensures Acceptable(lines, st.dim, toF32) <==> Acceptable(lines[1..], st.dim, toF32)
    ensures Acceptable(lines, st.dim, toF32) ==>
              Expected(lines, st, toF32) == Expected(lines[1..], st, toF32)
  {
    SizesValidCons(lines);
    DataLinesCons(lines, toF32);
    DataAfterSizeCons(lines, st.dim);
  }

  /** A valid size directive sets the size; what follows is then free of
      the "data before a size" condition. */
  lemma StepSizes(lines: seq<string>, st: State, toF32: FloatParser)
    requires |lines| > 0 && ValidState(st)
    requires IsSizeLine(lines[0]) && Step(st, lines[0], toF32).Ok?
    ensures var next := Step(st, lines[0], toF32).value;
      && ValidState(next)
      && (Acceptable(lines, st.dim, toF32) <==> Acceptable(lines[1..], next.dim, toF32))
      && (Acceptable(lines, st.dim, toF32) ==>
            Expected(lines, st, toF32) == Expected(lines[1..], next, toF32))
  {
    var next := Step(st, lines[0], toF32).value;
    assert SizeOf(lines[0]) == next.dim != 0;
    SizesValidCons(lines);
    DataLinesCons(lines, toF32);
    DataAfterSizeCons(lines, st.dim);
    DataAfterSizeCons(lines, next.dim);
  }

  /** A line that is not a size directive does not change the last size. */
  lemma LastSizeSkip(lines: seq<string>)
    requires |lines| > 0 && !IsSizeLine(lines[0])
    ensures LastSize(lines) == LastSize(lines[1..])
  {
  }

  /** The voxel of a leading data line comes first. */
  lemma TexelsOfDataLine(lines: seq<string>, toF32: FloatParser)
    requires |lines| > 0 && IsDataLine(lines[0])
    requires AllWellFormed(DataLines(lines), toF32)
    ensures WellFormed(lines[0], toF32) && AllWellFormed(DataLines(lines[1..]), toF32)
    ensures |DataLines(lines)| == 1 + |DataLines(lines[1..])|
    ensures Texels(DataLines(lines), toF32) == LineTexel(lines[0], toF32) + Texels(DataLines(lines[1..]), toF32)
  {
    DataLinesCons(lines, toF32);
    var dl := DataLines(lines);
    assert dl[0] == lines[0] && dl[1..] == DataLines(lines[1..]);
  }

  /** The state after a data line's voxel is appended. */
  function AfterData(lines: seq<string>, st: State, toF32: FloatParser): State
    requires |lines| > 0 && WellFormed(lines[0], toF32)
  {
    State(st.dim, st.count + 1, st.buffer + LineTexel(lines[0], toF32))
  }

  lemma ExpectedDataBuffer(lines: seq<string>, st: State, toF32: FloatParser)
    requires |lines| > 0 && IsDataLine(lines[0])
    requires AllWellFormed(DataLines(lines), toF32)
    ensures WellFormed(lines[0], toF32) && AllWellFormed(DataLines(lines[1..]), toF32)
    ensures Expected(lines, st, toF32).buffer == Expected(lines[1..], AfterData(lines, st, toF32), toF32).buffer
  {
    TexelsOfDataLine(lines, toF32);
    Seqs.AppendAssoc(st.buffer, LineTexel(lines[0], toF32), Texels(DataLines(lines[1..]), toF32));
  }

  lemma ExpectedDataCounts(lines: seq<string>, st: State, toF32: FloatParser)
    requires |lines| > 0 && IsDataLine(lines[0])
    requires AllWellFormed(DataLines(lines), toF32)
    ensures WellFormed(lines[0], toF32) && AllWellFormed(DataLines(lines[1..]), toF32)
    ensures Expected(lines, st, toF32).dim == Expected(lines[1..], AfterData(lines, st, toF32), toF32).dim
    ensures Expected(lines, st, toF32).count == Expected(lines[1..], AfterData(lines, st, toF32), toF32).count
  {
    LastSizeSkip(lines);
    TexelsOfDataLine(lines, toF32);
  }

  /** The voxels of a data line come before those of the data lines after it. */
  lemma ExpectedData(lines: seq<string>, st: State, toF32: FloatParser)
    requires |lines| > 0 && IsDataLine(lines[0])
    requires AllWellFormed(DataLines(lines), toF32)
    ensures WellFormed(lines[0], toF32) && AllWellFormed(DataLines(lines[1..]), toF32)
    ensures Expected(lines, st, toF32) == Expected(lines[1..], AfterData(lines, st, toF32), toF32)
  {
    ExpectedDataBuffer(lines, st, toF32);
    ExpectedDataCounts(lines, st, toF32);
  }

  /** An accepted data line adds its voxel, in front of those of the rest. */
  lemma StepData(lines: seq<string>, st: State, toF32: FloatParser)
    requires |lines| > 0 && ValidState(st)
    requires IsDataLine(lines[0]) && Step(st, lines[0], toF32).Ok?
    ensures var next := Step(st, lines[0], toF32).value;
      && ValidState(next)
      && (Acceptable(lines, st.dim, toF32) <==> Acceptable(lines[1..], next.dim, toF32))
      && (Acceptable(lines, st.dim, toF32) ==>
            Expected(lines, st, toF32) == Expected(lines[1..], next, toF32))
  {
    SizesValidCons(lines);
    DataLinesCons(lines, toF32);
    DataAfterSizeCons(lines, st.dim);
    if Acceptable(lines, st.dim, toF32) {
      ExpectedData(lines, st, toF32);
    }
  }

  /** The loop run from any reachable state agrees with the description:
      it succeeds exactly when the remaining lines are acceptable, and then
      ends in the expected state. */
  lemma {:induction false} ScanSpec(lines: seq<string>, st: State, toF32: FloatParser)
    requires ValidState(st)
    ensures Scan(lines, st, toF32).Ok? <==> Acceptable(lines, st.dim, toF32)
    ensures Scan(lines, st, toF32).Ok? ==> Scan(lines, st, toF32).value == Expected(lines, st, toF32)
    decreases |lines|
  {
    if |lines| == 0 {
      assert st.buffer + [] == st.buffer;
    } else {
      var r := Step(st, lines[0], toF32);
      assert Scan(lines, st, toF32) == if r.Err? then Err(r.error) else Scan(lines[1..], r.value, toF32);
      if r.Err? {
        StepRejects(lines, st, toF32);
      } else {
        if IsSizeLine(lines[0]) {
          StepSizes(lines, st, toF32);
        } else if IsDataLine(lines[0]) {
          StepData(lines, st, toF32);
        } else {
          StepSkips(lines, st, toF32);
        }
        ScanSpec(lines[1..], r.value, toF32);
      }
    }
  }

  /** The line loop from the initial state. */
  lemma ScanFromStart(lines: seq<string>, toF32: FloatParser)
    ensures Scan(lines, START, toF32).Ok? <==> Acceptable(lines, 0, toF32)
    ensures Scan(lines, START, toF32).Ok? ==>
              Scan(lines, START, toF32).value
              == State(LastSize(lines), |DataLines(lines)|, Texels(DataLines(lines), toF32))
  {
    ScanSpec(lines, START, toF32);
    if Acceptable(lines, 0, toF32) {
      var t := Texels(DataLines(lines), toF32);
      assert [] + t == t;
    }
  }

  /** `parse` accepts exactly the texts of `Accepts`, and returns the last
      declared size with the voxels of the data lines in file order. */
  lemma ParseSpec(lines: seq<string>, toF32: FloatParser)
    requires |lines| <= Align.U32_MAX
    ensures Parse(lines, toF32).Ok? <==> Accepts(lines, toF32)
    ensures Parse(lines, toF32).Ok? ==>
              Parse(lines, toF32).value == (LastSize(lines), Texels(DataLines(lines), toF32))
  {
    ScanFromStart(lines, toF32);
  }

  /** On success there are exactly `dim³` data lines, neither fewer nor more,
      and the buffer holds `16 * dim³` bytes. */
  lemma ParseLineCount(lines: seq<string>, toF32: FloatParser)
    requires |lines| <= Align.U32_MAX
    requires Parse(lines, toF32).Ok?
    ensures |DataLines(lines)| == Cube.Cube(Parse(lines, toF32).value.0)
    ensures |Parse(lines, toF32).value.1| == 16 * |DataLines(lines)|
  {
    ParseSpec(lines, toF32);
  }

  /** Voxel `k` of a parsed LUT is `r, g, b` of the `k`-th data line followed
      by 1.0, each as four float bytes. */
  lemma ParseVoxel(lines: seq<string>, toF32: FloatParser, k: nat)
    requires |lines| <= Align.U32_MAX
    requires Parse(lines, toF32).Ok?
    requires k < Cube.Cube(Parse(lines, toF32).value.0)
    ensures k < |DataLines(lines)| && WellFormed(DataLines(lines)[k], toF32)
    ensures var buf := Parse(lines, toF32).value.1;
            var fs := Floats(SplitWhitespace(DataLines(lines)[k]), toF32).value;
            16 * k + 16 <= |buf|
            && buf[16 * k .. 16 * k + 16] == Enc(fs[0]) + Enc(fs[1]) + Enc(fs[2]) + Enc(ONE)
  {
    ParseSpec(lines, toF32);
    TexelsAt(DataLines(lines), toF32, k);
  }

  /** A data line before any size directive makes the parse fail. */
  lemma DataBeforeSizeRejected(lines: seq<string>, toF32: FloatParser, i: nat)
    requires |lines| <= Align.U32_MAX
    requires i < |lines| && IsDataLine(lines[i]) && !SizeBefore(lines, i)
    ensures Parse(lines, toF32).Err?
  {
    ParseSpec(lines, toF32);
  }

  /** The `k`-th data line is one of the lines of the text. */
  lemma {:induction false} DataLineIndex(lines: seq<string>, i: nat)
    requires i < |lines| && IsDataLine(lines[i])
    ensures exists k | 0 <= k < |DataLines(lines)| :: DataLines(lines)[k] == lines[i]
    decreases i
  {
    var dl := DataLines(lines);
    var head := if IsDataLine(lines[0]) then [lines[0]] else [];
    assert dl == head + DataLines(lines[1..]);
    if i == 0 {
      assert dl[0] == lines[0];
    } else {
      DataLineIndex(lines[1..], i - 1);
      var k :| 0 <= k < |DataLines(lines[1..])| && DataLines(lines[1..])[k] == lines[1..][i - 1];
      assert dl[|head| + k] == lines[i];
    }
  }

  /** A data line that is not three floats makes the parse fail. */
  lemma MalformedLineRejected(lines: seq<string>, toF32: FloatParser, i: nat)
    requires |lines| <= Align.U32_MAX
    requires i < |lines| && IsDataLine(lines[i]) && !WellFormed(lines[i], toF32)
    ensures Parse(lines, toF32).Err?
  {
    ParseSpec(lines, toF32);
    DataLineIndex(lines, i);
  }

  /** A line of only whitespace is not skipped (only the empty line is): it is
      a data line with no tokens, so the parse fails. */
  lemma WhitespaceLineRejected(lines: seq<string>, toF32: FloatParser, i: nat)
    requires |lines| <= Align.U32_MAX
    requires i < |lines| && |lines[i]| > 0
    requires forall j | 0 <= j < |lines[i]| :: IsWhitespace(lines[i][j])
    ensures Parse(lines, toF32).Err?
  {
    var l := lines[i];
    assert IsWhitespace(l[0]);
    assert l[0] != TITLE_KEYWORD[0] && l[0] != SIZE_KEYWORD[0];
    assert !StartsWith(l, TITLE_KEYWORD) && !StartsWith(l, SIZE_KEYWORD);
    NoTokensIffBlank(l);
    MalformedLineRejected(lines, toF32, i);
  }

  /** A size directive that is not a number in [2, 65535] makes the parse fail. */
  lemma BadSizeRejected(lines: seq<string>, toF32: FloatParser, i: nat)
    requires |lines| <= Align.U32_MAX
    requires i < |lines| && IsSizeLine(lines[i]) && SizeValue(lines[i]).Err?
    ensures Parse(lines, toF32).Err?
  {
    ParseSpec(lines, toF32);
  }

  /** `LUT_3D_SIZE n`, for any `usize` `n`, is a size directive accepted
      exactly when `2 <= n <= 65535`. */
  lemma SizeDirective(n: nat)
    requires n <= USIZE_MAX
    ensures IsSizeLine(SIZE_KEYWORD + " " + DecimalString(n))
    ensures SizeValue(SIZE_KEYWORD + " " + DecimalString(n))
            == if MIN_DIM <= n <= MAX_DIM then Ok(n) else Err(SizeOutOfRange(n))
  {
    var d := DecimalString(n);
    var line := SIZE_KEYWORD + " " + d;
    assert StartsWith(line, SIZE_KEYWORD);
    assert !StartsWith(line, TITLE_KEYWORD) by {
      assert line[1] != TITLE_KEYWORD[1];
    }
    var afterKey := " " + d;
    assert line[|SIZE_KEYWORD|..] == afterKey;
    assert !StartsWith(afterKey, SIZE_KEYWORD) by {
      assert afterKey[0] != SIZE_KEYWORD[0];
    }
    assert TrimStartMatches(afterKey, SIZE_KEYWORD) == afterKey;
    assert TrimStartMatches(line, SIZE_KEYWORD) == afterKey;
    assert IsDigit(d[0]);
    assert afterKey[1..] == d;
    assert LeadingWhitespace(d) == 0;
    assert LeadingWhitespace(afterKey) == 1;
    assert TrimStartWhitespace(afterKey) == d;
    assert TrimStartChar(d, '"') == d;
    assert IsDigit(d[|d| - 1]);
    assert TrimEndChar(d, '"') == d;
    assert SizeText(line) == d;
    ParseDecimal(n);
  }

  /** The size directive bounds: 1 and 65536 are refused, 2 and 65535 accepted. */
  lemma SizeBounds()
    ensures SizeValue(SIZE_KEYWORD + " " + DecimalString(1)) == Err(SizeOutOfRange(1))
    ensures SizeValue(SIZE_KEYWORD + " " + DecimalString(65536)) == Err(SizeOutOfRange(65536))
    ensures SizeValue(SIZE_KEYWORD + " " + DecimalString(2)) == Ok(2)
    ensures SizeValue(SIZE_KEYWORD + " " + DecimalString(65535)) == Ok(65535)
  {
    SizeDirective(1);
    SizeDirective(65536);
    SizeDirective(2);
    SizeDirective(65535);
  }

  /** As written, a text with no size directive and no data lines parses, as
      a LUT of size 0 with no voxels; the corrected parser refuses it. */
  lemma EmptyTextAcceptedAsWritten(toF32: FloatParser)
    ensures ParseAsWritten([], toF32) == Ok((0, []))
    ensures ParseAsWritten([TITLE_KEYWORD + " \"empty\""], toF32) == Ok((0, []))
    ensures Parse([], toF32) == Err(MissingSize)
  {
    var t := TITLE_KEYWORD + " \"empty\"";
    assert StartsWith(t, TITLE_KEYWORD);
    assert [t][1..] == [];
  }

  /** As written (wrapping `u32`), `LUT_3D_SIZE 2048` alone parses as a LUT of
      size 2048 with no voxels, because 2048³ = 2³³ wraps to 0; the corrected
      parser asks for 2048³ data lines. */
  lemma WrappedCubeAcceptedAsWritten(toF32: FloatParser)
    ensures ParseAsWritten([SIZE_KEYWORD + " " + DecimalString(2048)], toF32) == Ok((2048, []))
    ensures Parse([SIZE_KEYWORD + " " + DecimalString(2048)], toF32)
            == Err(LineCount(2048 * 2048 * 2048, 0))
  {
    var line := SIZE_KEYWORD + " " + DecimalString(2048);
    SizeDirective(2048);
    var st := State(2048, 0, []);
    assert Step(START, line, toF32) == Ok(st);
    assert [line][1..] == [];
    assert Scan([line][1..], st, toF32) == Ok(st);
    assert Scan([line], START, toF32) == Ok(st);
    assert Cube.Cube(2048) == 8589934592;
    assert WrapU32(Cube.Cube(2048)) == 0;
  }

  /** The corrected parser differs from the code as written only on the two
      defects: wherever the final size is non-zero and its cube fits a `u32`,
      both give the same result. */
  lemma ParseAgreesAsWritten(lines: seq<string>, toF32: FloatParser)
    requires |lines| <= Align.U32_MAX
    requires Scan(lines, START, toF32).Ok? ==>
               Scan(lines, START, toF32).value.dim != 0
               && Cube.Cube(Scan(lines, START, toF32).value.dim) <= Align.U32_MAX
    ensures ParseAsWritten(lines, toF32) == Parse(lines, toF32)
  {
  }
}
