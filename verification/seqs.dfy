/** Rust's `slice::chunks` and its inverse, concatenation, over Dafny sequences. */
module Seqs {
  import opened Arith

  /** Concatenation of a sequence of sequences. */
  function Flatten<T>(xs: seq<seq<T>>): seq<T>
  {
    if |xs| == 0 then [] else xs[0] + Flatten(xs[1..])
  }

  /** `s.chunks(n)`: consecutive pieces of `n` elements, the last one possibly
      shorter; no piece is empty. */
  function Chunks<T>(s: seq<T>, n: nat): (cs: seq<seq<T>>)
    requires n > 0
    ensures forall k | 0 <= k < |cs| :: 0 < |cs[k]| <= n
    decreases |s|
  {
    if |s| == 0 then []
    else if |s| <= n then [s]
    else [s[..n]] + Chunks(s[n..], n)
  }

  /** The chunks of `s`, put back together, are `s`. */
  lemma {:induction false} FlattenChunks<T>(s: seq<T>, n: nat)
    requires n > 0
    ensures Flatten(Chunks(s, n)) == s
    decreases |s|
  {
    if |s| > n {
      FlattenChunks(s[n..], n);
      assert Chunks(s, n)[1..] == Chunks(s[n..], n);
      assert s[..n] + s[n..] == s;
    } else if |s| > 0 {
      assert Flatten(Chunks(s, n)) == s + Flatten([]);
    }
  }

  lemma AppendAssoc<T>(a: seq<T>, b: seq<T>, c: seq<T>)
    ensures a + (b + c) == a + b + c
  {
  }

  /** A slice that lies wholly in the second part of a concatenation. */
  lemma SliceOfSuffix<T>(a: seq<T>, b: seq<T>, i: nat, j: nat)
    requires |a| <= i <= j <= |a| + |b|
    ensures (a + b)[i..j] == b[i - |a| .. j - |a|]
  {
  }

  /** A slice of a suffix is a slice of the whole. */
  lemma SliceOfDrop<T>(s: seq<T>, n: nat, i: nat, j: nat)
    requires n <= |s| && i <= j <= |s| - n
    ensures s[n..][i..j] == s[n + i .. n + j]
  {
  }

  /** Two shape-equal sequences of pieces flatten to equally long sequences. */
  lemma {:induction false} FlattenSameShape<T, U>(xs: seq<seq<T>>, ys: seq<seq<U>>)
    requires |xs| == |ys|
    requires forall k | 0 <= k < |xs| :: |xs[k]| == |ys[k]|
    ensures |Flatten(xs)| == |Flatten(ys)|
    decreases |xs|
  {
    if |xs| > 0 {
      FlattenSameShape(xs[1..], ys[1..]);
    }
  }

  /** Element `o` of piece `k`, when every earlier piece has length `d`, sits
      at `k * d + o` of the concatenation. */
  lemma {:induction false} FlattenAt<T>(xs: seq<seq<T>>, d: nat, k: nat, o: nat)
    requires k < |xs| && o < |xs[k]|
    requires forall j | 0 <= j < k :: |xs[j]| == d
    ensures k * d + o < |Flatten(xs)|
    ensures Flatten(xs)[k * d + o] == xs[k][o]
    decreases k
  {
    if k > 0 {
      FlattenAt(xs[1..], d, k - 1, o);
      MulSucc(k - 1, d);
      assert Flatten(xs) == xs[0] + Flatten(xs[1..]);
    }
  }

  /** Peeling off the first chunk. */
  lemma ChunksCons<T>(s: seq<T>, n: nat)
    requires 0 < n <= |s|
    ensures Chunks(s, n) == [s[..n]] + Chunks(s[n..], n)
  {
    if |s| == n {
      assert s[..n] == s;
      assert s[n..] == [];
    }
  }

  /** Every chunk but the last is full. */
  lemma {:induction false} ChunksFull<T>(s: seq<T>, n: nat)
    requires n > 0
    ensures forall j | 0 <= j < |Chunks(s, n)| - 1 :: |Chunks(s, n)[j]| == n
    decreases |s|
  {
    if |s| > n {
      ChunksCons(s, n);
      ChunksFull(s[n..], n);
      var cs := Chunks(s, n);
      forall j | 0 <= j < |cs| - 1 ensures |cs[j]| == n {
        if j > 0 { assert cs[j] == Chunks(s[n..], n)[j - 1]; }
      }
    }
  }

  /** Chunk `k` exists exactly when it would start inside `s`. */
  lemma {:induction false} ChunkCount<T>(s: seq<T>, n: nat, k: nat)
    requires n > 0
    ensures k < |Chunks(s, n)| <==> k * n < |s|
    decreases k
  {
    if k > 0 {
      MulSucc(k - 1, n);
      if |s| > n {
        ChunksCons(s, n);
        ChunkCount(s[n..], n, k - 1);
      } else {
        MulMono(1, k, n);
      }
    }
  }

  /** The end of chunk `k` of `s`: the next multiple of `n` or the end of `s`. */
  function ChunkEnd(len: nat, n: nat, b: nat): nat
  {
    if b + n <= len then b + n else len
  }

  /** `k * n` by repeated addition, which keeps the chunk proofs linear. */
  function Offset(k: nat, n: nat): nat
  {
    if k == 0 then 0 else Offset(k - 1, n) + n
  }

  lemma {:induction false} OffsetIsProduct(k: nat, n: nat)
    ensures Offset(k, n) == k * n
  {
    if k > 0 {
      OffsetIsProduct(k - 1, n);
      MulSucc(k - 1, n);
    }
  }

  /** Chunk `k` is the slice from `k * n` to the next multiple of `n`, or to
      the end of `s`. */
  lemma ChunkIndex<T>(s: seq<T>, n: nat, k: nat)
    requires n > 0
    requires k * n < |s|
    ensures k < |Chunks(s, n)|
    ensures Chunks(s, n)[k] == s[k * n .. ChunkEnd(|s|, n, k * n)]
  {
    ChunkCount(s, n, k);
    ChunkFrom(s, n, k);
    OffsetIsProduct(k, n);
  }

  lemma {:induction false} ChunkFrom<T>(s: seq<T>, n: nat, k: nat)
    requires n > 0 && k < |Chunks(s, n)|
    ensures Offset(k, n) < |s|
    ensures Chunks(s, n)[k] == s[Offset(k, n) .. ChunkEnd(|s|, n, Offset(k, n))]
    decreases k, 1
  {
    if k == 0 {
      if |s| > n {
        ChunksCons(s, n);
        assert Chunks(s, n)[0] == s[..n];
      } else {
        assert Chunks(s, n) == [s];
        assert s[0..|s|] == s;
      }
    } else {
      assert |s| > n;
      ChunkFromStep(s, n, k);
    }
  }

  /** The step of `ChunkFrom`: chunk `k` of `s` is chunk `k - 1` of what
      follows the first chunk. */
  lemma {:induction false} ChunkFromStep<T>(s: seq<T>, n: nat, k: nat)
    requires 0 < n < |s| && 0 < k < |Chunks(s, n)|
    ensures Offset(k, n) < |s|
    ensures Chunks(s, n)[k] == s[Offset(k, n) .. ChunkEnd(|s|, n, Offset(k, n))]
    decreases k, 0
  {
    var t := s[n..];
    ChunksCons(s, n);
    assert Chunks(s, n)[k] == Chunks(t, n)[k - 1];
    ChunkFrom(t, n, k - 1);
    var b := Offset(k - 1, n);
    var e := ChunkEnd(|t|, n, b);
    assert ChunkEnd(|s|, n, b + n) == e + n;
    SliceOfDrop(s, n, b, e);
  }

  /** The length of chunk `k`: `n`, or what is left for the last one. */
  lemma ChunkLen<T>(s: seq<T>, n: nat, k: nat, b: nat)
    requires n > 0 && b == k * n && b < |s|
    ensures k < |Chunks(s, n)|
    ensures |Chunks(s, n)[k]| == if b + n <= |s| then n else |s| - b
  {
    ChunkIndex(s, n, k);
  }
}
