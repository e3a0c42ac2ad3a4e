/** The row copies of `process` and `add_lut_raw_alpha` (lib.rs): the
    destination is cut into rows of one stride with `chunks_mut`, the source
    into rows of another with `chunks`, the two are zipped, and for every
    pair `copy_nonoverlapping` copies the first `n` elements of the source
    row over the first `n` of the destination row. */
module RowCopy {
  import opened Arith
  import opened Seqs

  /** Every pair the zip visits has at least `n` elements on both sides: the
      condition under which the unchecked copies stay inside both buffers. */
  predicate RowsFit<T>(dsts: seq<seq<T>>, srcs: seq<seq<T>>, n: nat)
  {
    forall k | 0 <= k < |dsts| && k < |srcs| :: n <= |dsts[k]| && n <= |srcs[k]|
  }

  lemma RowsFitTail<T>(dsts: seq<seq<T>>, srcs: seq<seq<T>>, n: nat)
    requires 0 < |dsts| && 0 < |srcs| && RowsFit(dsts, srcs, n)
    ensures n <= |dsts[0]| && n <= |srcs[0]|
    ensures RowsFit(dsts[1..], srcs[1..], n)
  {
    forall k | 0 <= k < |dsts| - 1 && k < |srcs| - 1
      ensures n <= |dsts[1..][k]| && n <= |srcs[1..][k]|
    {
      assert dsts[1..][k] == dsts[k + 1] && srcs[1..][k] == srcs[k + 1];
    }
  }

  /** One `copy_nonoverlapping` of `n` elements into a row. */
  function CopyRow<T>(dst: seq<T>, src: seq<T>, n: nat): (r: seq<T>)
    requires n <= |dst| && n <= |src|
    ensures |r| == |dst|
  {
    src[..n] + dst[n..]
  }

  /** The zipped loop over rows: it stops with the shorter of the two. */
  function ZipCopy<T>(dsts: seq<seq<T>>, srcs: seq<seq<T>>, n: nat): (out: seq<seq<T>>)
    requires RowsFit(dsts, srcs, n)
    ensures |out| == |dsts|
    decreases |dsts|
  {
    if |dsts| == 0 || |srcs| == 0 then dsts
    else
      RowsFitTail(dsts, srcs, n);
      [CopyRow(dsts[0], srcs[0], n)] + ZipCopy(dsts[1..], srcs[1..], n)
  }

  /** Row `k` after the loop: copied into when the source has a row `k`,
      untouched otherwise. */
  lemma {:induction false} ZipCopyAt<T>(dsts: seq<seq<T>>, srcs: seq<seq<T>>, n: nat, k: nat)
    requires RowsFit(dsts, srcs, n) && k < |dsts|
    ensures k < |srcs| ==> n <= |dsts[k]| && n <= |srcs[k]|
    ensures ZipCopy(dsts, srcs, n)[k]
            == if k < |srcs| then CopyRow(dsts[k], srcs[k], n) else dsts[k]
    decreases k
  {
    if |srcs| > 0 {
      RowsFitTail(dsts, srcs, n);
      if k > 0 {
        ZipCopyAt(dsts[1..], srcs[1..], n, k - 1);
        assert dsts[1..][k - 1] == dsts[k];
        if k < |srcs| {
          assert srcs[1..][k - 1] == srcs[k];
        }
      }
    }
  }

  /** `for (dst, src) in dst.chunks_mut(ds).zip(src.chunks(ss)) { copy n }`. */
  function CopyRows<T>(dst: seq<T>, ds: nat, src: seq<T>, ss: nat, n: nat): (r: seq<T>)
    requires 0 < ds && 0 < ss
    requires RowsFit(Chunks(dst, ds), Chunks(src, ss), n)
    ensures |r| == |dst|
  {
    var dsts, srcs := Chunks(dst, ds), Chunks(src, ss);
    var out := ZipCopy(dsts, srcs, n);
    ZipCopyShape(dsts, srcs, n);
    FlattenChunks(dst, ds);
    FlattenSameShape(out, dsts);
    Flatten(out)
  }

  /** The copy described element by element: element `p` of the destination
      lies in row `p / ds`, column `p % ds`; it takes the element at the same
      row and column of the source when the column is among the first `n`
      and the source has that row, and keeps its value otherwise. */
  function CopiedAt<T>(dst: seq<T>, ds: nat, src: seq<T>, ss: nat, n: nat, p: nat): T
    requires 0 < ds && p < |dst|
  {
    var row, col := p / ds, p % ds;
    if col < n && row * ss + n <= |src| then src[row * ss + col] else dst[p]
  }

  /** The row loop agrees with the element-by-element description. */
  lemma CopyRowsAt<T>(dst: seq<T>, ds: nat, src: seq<T>, ss: nat, n: nat, p: nat)
    requires 0 < ds && 0 < ss
    requires RowsFit(Chunks(dst, ds), Chunks(src, ss), n)
    requires p < |dst|
    ensures CopyRows(dst, ds, src, ss, n)[p] == CopiedAt(dst, ds, src, ss, n, p)
  {
    DivMod(p, ds);
    CopyRowsAtRow(dst, ds, src, ss, n, p / ds, p % ds, (p / ds) * ds, (p / ds) * ss);
  }

  /** Element `col` of row `row`, the rows starting at `b` in the
      destination and at `c` in the source. */
  lemma CopyRowsAtRow<T>(dst: seq<T>, ds: nat, src: seq<T>, ss: nat, n: nat,
                         row: nat, col: nat, b: nat, c: nat)
    requires 0 < ds && 0 < ss
    requires RowsFit(Chunks(dst, ds), Chunks(src, ss), n)
    requires b == row * ds && c == row * ss && col < ds && b + col < |dst|
    ensures CopyRows(dst, ds, src, ss, n)[b + col]
            == if col < n && c + n <= |src| then src[c + col] else dst[b + col]
  {
    CopyRowsFlat(dst, ds, src, ss, n, row, col, b);
    ZipRowAt(dst, ds, src, ss, n, row, col, c);
  }

  /** Element `b + col` of the result is element `col` of row `row` of the
      zipped rows, and of the destination before the copy. */
  lemma CopyRowsFlat<T>(dst: seq<T>, ds: nat, src: seq<T>, ss: nat, n: nat,
                        row: nat, col: nat, b: nat)
    requires 0 < ds && 0 < ss
    requires RowsFit(Chunks(dst, ds), Chunks(src, ss), n)
    requires b == row * ds && col < ds && b + col < |dst|
    ensures var dsts := Chunks(dst, ds);
      var out := ZipCopy(dsts, Chunks(src, ss), n);
      && row < |dsts| && col < |dsts[row]| && |out[row]| == |dsts[row]|
      && dsts[row][col] == dst[b + col]
      && CopyRows(dst, ds, src, ss, n)[b + col] == out[row][col]
  {
    var dsts, srcs := Chunks(dst, ds), Chunks(src, ss);
    var out := ZipCopy(dsts, srcs, n);
    DestRowAt(dst, ds, row, col, b);
    ZipCopyShape(dsts, srcs, n);
    FlattenAt(out, ds, row, col);
  }

  /** Every zipped row is as long as the destination row it came from. */
  lemma ZipCopyShape<T>(dsts: seq<seq<T>>, srcs: seq<seq<T>>, n: nat)
    requires RowsFit(dsts, srcs, n)
    ensures var out := ZipCopy(dsts, srcs, n);
      forall k | 0 <= k < |out| :: |out[k]| == |dsts[k]|
  {
    var out := ZipCopy(dsts, srcs, n);
    forall k | 0 <= k < |out| ensures |out[k]| == |dsts[k]| {
      ZipCopyAt(dsts, srcs, n, k);
    }
  }

  /** Row `row` of the destination starts at `b` and every row before it is
      a whole stride. */
  lemma DestRowAt<T>(dst: seq<T>, ds: nat, row: nat, col: nat, b: nat)
    requires 0 < ds && b == row * ds && col < ds && b + col < |dst|
    ensures var dsts := Chunks(dst, ds);
      && row < |dsts| && col < |dsts[row]| && dsts[row][col] == dst[b + col]
      && forall j | 0 <= j < row :: |dsts[j]| == ds
  {
    ChunkIndex(dst, ds, row);
    ChunksFull(dst, ds);
  }

  /** Row `row` of the source starts at `c`; past the source's last row, `c`
      is past its end. */
  lemma SourceRowAt<T>(src: seq<T>, ss: nat, n: nat, row: nat, col: nat, c: nat)
    requires 0 < ss && c == row * ss
    ensures var srcs := Chunks(src, ss);
      && (row < |srcs| && n <= |srcs[row]| ==> c + n <= |src|)
      && (row < |srcs| && col < n <= |srcs[row]| ==> srcs[row][col] == src[c + col])
      && (|srcs| <= row ==> |src| <= c)
  {
    ChunkCount(src, ss, row);
    if c < |src| {
      ChunkIndex(src, ss, row);
    }
  }

  /** Element `col` of one copied row. */
  lemma CopyRowAt<T>(dst: seq<T>, src: seq<T>, n: nat, col: nat)
    requires n <= |dst| && n <= |src| && col < |dst|
    ensures CopyRow(dst, src, n)[col] == if col < n then src[col] else dst[col]
  {
  }

  /** Element `col` of zipped row `row`, the source row starting at `c`. */
  lemma ZipRowAt<T>(dst: seq<T>, ds: nat, src: seq<T>, ss: nat, n: nat, row: nat, col: nat, c: nat)
    requires 0 < ds && 0 < ss
    requires RowsFit(Chunks(dst, ds), Chunks(src, ss), n)
    requires row < |Chunks(dst, ds)| && col < |Chunks(dst, ds)[row]| && c == row * ss
    ensures var out := ZipCopy(Chunks(dst, ds), Chunks(src, ss), n);
      && |out[row]| == |Chunks(dst, ds)[row]|
      && out[row][col] == if col < n && c + n <= |src| then src[c + col] else Chunks(dst, ds)[row][col]
  {
    var dsts, srcs := Chunks(dst, ds), Chunks(src, ss);
    ZipCopyAt(dsts, srcs, n, row);
    SourceRowAt(src, ss, n, row, col, c);
    if row < |srcs| {
      CopyRowAt(dsts[row], srcs[row], n, col);
    }
  }

  /** `len` elements make whole rows of `n`, or at least `rows` of them. */
  predicate WholeRows(len: nat, n: nat, rows: nat)
    requires n > 0
  {
    len % n == 0 || rows * n <= len
  }

  /** Under `WholeRows`, every row the zip reaches is complete. */
  lemma WholeRowAt(len: nat, n: nat, rows: nat, k: nat)
    requires n > 0 && WholeRows(len, n, rows)
    requires k < rows && k * n < len
    ensures k * n + n <= len
  {
    MulSucc(k, n);
    if rows * n <= len {
      MulMono(k + 1, rows, n);
    } else {
      DivMod(len, n);
      var m := len / n;
      assert len == m * n;
      MulLtCancel(k, m, n);
      MulMono(k + 1, m, n);
    }
  }

  /** A buffer of `rows` rows of `stride` is full in every row. */
  lemma PaddedRowAt<T>(buf: seq<T>, stride: nat, rows: nat, k: nat)
    requires stride > 0 && |buf| == rows * stride
    requires k < |Chunks(buf, stride)|
    ensures k < rows && |Chunks(buf, stride)[k]| == stride
  {
    ChunkCount(buf, stride, k);
    MulLtCancel(k, rows, stride);
    MulSucc(k, stride);
    MulMono(k + 1, rows, stride);
    ChunkLen(buf, stride, k, k * stride);
  }

  /** With whole rows, every pair the zip visits, in either order, has at
      least `n` elements on both sides. */
  lemma WholeRowsFit<T>(buf: seq<T>, stride: nat, rows: nat, data: seq<T>, n: nat)
    requires 0 < n <= stride && |buf| == rows * stride
    requires WholeRows(|data|, n, rows)
    ensures RowsFit(Chunks(buf, stride), Chunks(data, n), n)
    ensures RowsFit(Chunks(data, n), Chunks(buf, stride), n)
  {
    var bs, ds := Chunks(buf, stride), Chunks(data, n);
    forall k | 0 <= k < |bs| && k < |ds| ensures n <= |bs[k]| && n <= |ds[k]| {
      PaddedRowAt(buf, stride, rows, k);
      ChunkCount(data, n, k);
      WholeRowAt(|data|, n, rows, k);
      ChunkLen(data, n, k, k * n);
    }
  }

  /** Without whole rows, the zip reaches the short last row of `data`,
      row `|data| / n`, which has fewer than `n` elements. */
  lemma PartialRowOverruns<T>(buf: seq<T>, stride: nat, rows: nat, data: seq<T>, n: nat)
    requires 0 < n <= stride && |buf| == rows * stride
    requires !WholeRows(|data|, n, rows)
    ensures !RowsFit(Chunks(buf, stride), Chunks(data, n), n)
    ensures !RowsFit(Chunks(data, n), Chunks(buf, stride), n)
  {
    var k := |data| / n;
    var b := k * n;
    DivMod(|data|, n);
    assert b < |data| < rows * n;
    MulLtCancel(k, rows, n);
    MulSucc(k, stride);
    MulMono(k + 1, rows, stride);
    ChunkLen(buf, stride, k, k * stride);
    ChunkLen(data, n, k, b);
    var bs, ds := Chunks(buf, stride), Chunks(data, n);
    assert k < |bs| && k < |ds| && |ds[k]| < n;
  }

  /** The copy between a buffer of `rows` padded rows and `data` cut into rows
      of `n` stays in bounds, in either direction, exactly when `data` holds
      whole rows or at least `rows` of them. */
  lemma FitsIffWholeRows<T>(buf: seq<T>, stride: nat, rows: nat, data: seq<T>, n: nat)
    requires 0 < n <= stride && |buf| == rows * stride
    ensures RowsFit(Chunks(buf, stride), Chunks(data, n), n) <==> WholeRows(|data|, n, rows)
    ensures RowsFit(Chunks(data, n), Chunks(buf, stride), n) <==> WholeRows(|data|, n, rows)
  {
    if WholeRows(|data|, n, rows) {
      WholeRowsFit(buf, stride, rows, data, n);
    } else {
      PartialRowOverruns(buf, stride, rows, data, n);
    }
  }
}
