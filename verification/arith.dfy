/** Facts about multiplication and Euclidean division by a positive stride,
    used for the row and pixel address arithmetic. */
module Arith {

  lemma MulSucc(a: nat, n: nat)
    ensures (a + 1) * n == a * n + n
  {
  }

  lemma {:induction false} MulMono(a: nat, b: nat, n: nat)
    requires a <= b
    ensures a * n <= b * n
    decreases b - a
  {
    if a < b {
      MulMono(a + 1, b, n);
      MulSucc(a, n);
    }
  }

  /** Comparing multiples of the same positive stride compares the factors. */
  lemma MulLtCancel(a: nat, b: nat, n: nat)
    requires a * n < b * n
    ensures a < b
  {
    if b <= a {
      MulMono(b, a, n);
    }
  }

  /** Euclidean division by a positive stride: row and column of `p`. */
  lemma DivMod(p: nat, d: nat)
    requires 0 < d
    ensures p == (p / d) * d + p % d
    ensures 0 <= p / d && 0 <= p % d < d
    ensures (p / d) * d <= p
  {
  }

  /** `k * d + o` with `o < d` is row `k`, column `o`. */
  lemma DivModUnique(p: nat, d: nat, k: nat, o: nat)
    requires 0 < d && o < d && p == k * d + o
    ensures p / d == k && p % d == o
  {
    var q, r := p / d, p % d;
    assert p == q * d + r;
    if q < k {
      MulMono(q + 1, k, d);
      MulSucc(q, d);
    } else if k < q {
      MulMono(k + 1, q, d);
      MulSucc(k, d);
    }
  }

  /** An index lies in the first `rows` rows of stride `d` exactly when its
      row number is below `rows`. */
  lemma RowBelow(q: nat, d: nat, rows: nat)
    requires 0 < d
    ensures q < rows * d <==> q / d < rows
  {
    var k := q / d;
    DivMod(q, d);
    if q < rows * d {
      MulLtCancel(k, rows, d);
    } else if k < rows {
      MulSucc(k, d);
      MulMono(k + 1, rows, d);
    }
  }
}
