/** The trip of an image through `process` (lib.rs): its tight rows are copied
    into a staging buffer of padded rows, the buffer is copied into the
    texture, the texture is copied back into a second padded buffer, and that
    buffer's rows are copied over the caller's bytes. Every one of these is
    the row copy of `RowCopy` between a tight stride `u` and a padded stride
    `p`. Buffers the device creates start zeroed. */
module Staging {
  import opened Arith
  import opened Float32
  import opened Seqs
  import opened RowCopy

  function Zeros(n: nat): (z: seq<byte>)
    ensures |z| == n
    ensures forall i | 0 <= i < n :: z[i] == 0
  {
    seq(n, _ => 0)
  }

  /** Tight rows of `u` bytes into a fresh buffer of `rows` padded rows of `p`. */
  function Pad(tight: seq<byte>, rows: nat, u: nat, p: nat): (buf: seq<byte>)
    requires 0 < u <= p && WholeRows(|tight|, u, rows)
    ensures |buf| == rows * p
  {
    FitsIffWholeRows(Zeros(rows * p), p, rows, tight, u);
    CopyRows(Zeros(rows * p), p, tight, u, u)
  }

  /** The padded rows of `buf` over the tight rows of `dst`. */
  function Unpad(dst: seq<byte>, buf: seq<byte>, rows: nat, u: nat, p: nat): (out: seq<byte>)
    requires 0 < u <= p && |buf| == rows * p && WholeRows(|dst|, u, rows)
    ensures |out| == |dst|
  {
    FitsIffWholeRows(buf, p, rows, dst, u);
    CopyRows(dst, u, buf, p, u)
  }

  /** Column `o` of padded row `k` (at `b == k * p`) holds column `o` of
      tight row `k` (at `c == k * u`) when that column is inside the tight
      row and the byte exists; the padding and the rows past the end of
      `tight` stay zero. */
  lemma PadAt(tight: seq<byte>, rows: nat, u: nat, p: nat, k: nat, o: nat, b: nat, c: nat)
    requires 0 < u <= p && WholeRows(|tight|, u, rows)
    requires k < rows && o < p && b == k * p && c == k * u
    ensures b + o < rows * p
    ensures Pad(tight, rows, u, p)[b + o] == if o < u && c + o < |tight| then tight[c + o] else 0
  {
    if c < |tight| {
      WholeRowAt(|tight|, u, rows, k);
    }
    MulSucc(k, p);
    MulMono(k + 1, rows, p);
    FitsIffWholeRows(Zeros(rows * p), p, rows, tight, u);
    CopyRowsAtRow(Zeros(rows * p), p, tight, u, u, k, o, b, c);
  }

  /** Column `o` of tight row `k` after copying back: inside the first `rows`
      rows it is column `o` of padded row `k`; past them it keeps its value. */
  lemma UnpadAt(dst: seq<byte>, buf: seq<byte>, rows: nat, u: nat, p: nat,
                k: nat, o: nat, b: nat, c: nat)
    requires 0 < u <= p && |buf| == rows * p && WholeRows(|dst|, u, rows)
    requires o < u && b == k * u && c == k * p && b + o < |dst|
    ensures k < rows ==> c + o < |buf|
    ensures Unpad(dst, buf, rows, u, p)[b + o] == if k < rows then buf[c + o] else dst[b + o]
  {
    FitsIffWholeRows(buf, p, rows, dst, u);
    CopyRowsAtRow(dst, u, buf, p, u, k, o, b, c);
    if k < rows {
      MulSucc(k, p);
      MulMono(k + 1, rows, p);
    } else if c + u <= rows * p {
      MulLtCancel(k, rows, p);
    }
  }

  /** Padding and then copying back lands every byte where it started. */
  lemma UnpadPadAt(dst: seq<byte>, tight: seq<byte>, rows: nat, u: nat, p: nat,
                   k: nat, o: nat, b: nat, c: nat)
    requires 0 < u <= p && WholeRows(|dst|, u, rows) && WholeRows(|tight|, u, rows)
    requires o < u && b == k * u && c == k * p && b + o < |dst|
    ensures Unpad(dst, Pad(tight, rows, u, p), rows, u, p)[b + o]
            == if rows <= k then dst[b + o] else if b + o < |tight| then tight[b + o] else 0
  {
    var buf := Pad(tight, rows, u, p);
    UnpadAt(dst, buf, rows, u, p, k, o, b, c);
    if k < rows {
      PadAt(tight, rows, u, p, k, o, c, b);
    }
  }

  /** `UnpadPadAt` for byte `q`, which is column `q % u` of row `q / u`. */
  lemma UnpadPadAtIndex(dst: seq<byte>, tight: seq<byte>, rows: nat, u: nat, p: nat, q: nat)
    requires 0 < u <= p && WholeRows(|dst|, u, rows) && WholeRows(|tight|, u, rows)
    requires q < |dst|
    ensures Unpad(dst, Pad(tight, rows, u, p), rows, u, p)[q]
            == if rows * u <= q then dst[q] else if q < |tight| then tight[q] else 0
  {
    var k := q / u;
    DivMod(q, u);
    RowBelow(q, u, rows);
    UnpadPadAt(dst, tight, rows, u, p, k, q % u, k * u, k * p);
  }

  /** The texture receives the image's bytes, and zeros where the image is
      shorter than `rows` rows. */
  lemma TextureAt(data: seq<byte>, rows: nat, u: nat, p: nat, q: nat)
    requires 0 < u <= p && WholeRows(|data|, u, rows) && q < rows * u
    ensures WholeRows(rows * u, u, rows)
    ensures Unpad(Zeros(rows * u), Pad(data, rows, u, p), rows, u, p)[q]
            == if q < |data| then data[q] else 0
  {
    UnpadPadAtIndex(Zeros(rows * u), data, rows, u, p, q);
  }

  /** Reading the texture back over `data` replaces its first `rows` rows
      with the texture's and leaves every later byte alone. */
  lemma DownloadAt(data: seq<byte>, tex: seq<byte>, rows: nat, u: nat, p: nat, q: nat)
    requires 0 < u <= p && WholeRows(|data|, u, rows) && |tex| == rows * u
    requires q < |data|
    ensures WholeRows(|tex|, u, rows)
    ensures Unpad(data, Pad(tex, rows, u, p), rows, u, p)[q]
            == if q < rows * u then tex[q] else data[q]
  {
    UnpadPadAtIndex(data, tex, rows, u, p, q);
  }

  /** An image of exactly `rows` tight rows survives the padded trip. */
  lemma RoundTrip(data: seq<byte>, rows: nat, u: nat, p: nat)
    requires 0 < u <= p && |data| == rows * u
    ensures WholeRows(|data|, u, rows)
    ensures Unpad(Zeros(rows * u), Pad(data, rows, u, p), rows, u, p) == data
  {
    var out := Unpad(Zeros(rows * u), Pad(data, rows, u, p), rows, u, p);
    forall q | 0 <= q < |data| ensures out[q] == data[q] {
      TextureAt(data, rows, u, p, q);
    }
  }
}
