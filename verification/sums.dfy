/** Finite sums of an integer-valued function of two indices: over a
    rectangle of ordered index pairs, over one row or column, and over the
    unordered pairs i < j. They relate a loop over all ordered pairs to a
    count of unordered pairs. */
module Sums {

  /** H(i, 0) + ... + H(i, m - 1). */
  function RowSum(H: (nat, nat) -> int, i: nat, m: nat): int {
    if m == 0 then 0 else RowSum(H, i, m - 1) + H(i, m - 1)
  }

  /** H(0, j) + ... + H(n - 1, j). */
  function ColSum(H: (nat, nat) -> int, j: nat, n: nat): int {
    if n == 0 then 0 else ColSum(H, j, n - 1) + H(n - 1, j)
  }

  /** Sum of H over the ordered pairs (i, j) with i < n and j < m, row by row. */
  function GridSum(H: (nat, nat) -> int, n: nat, m: nat): int {
    if n == 0 then 0 else GridSum(H, n - 1, m) + RowSum(H, n - 1, m)
  }

  /** Sum of H over the pairs i < j < n: every unordered pair of distinct
      indices once. */
  function PairSum(H: (nat, nat) -> int, n: nat): int {
    if n == 0 then 0 else PairSum(H, n - 1) + ColSum(H, n - 1, n - 1)
  }

  ghost predicate Symmetric(H: (nat, nat) -> int) {
    forall i: nat, j: nat :: H(i, j) == H(j, i)
  }

  ghost predicate ZeroDiagonal(H: (nat, nat) -> int) {
    forall i: nat :: H(i, i) == 0
  }

  /** A row of zeros sums to zero. */
  lemma {:induction false} RowSumZero(H: (nat, nat) -> int, i: nat, m: nat)
    requires forall j: nat :: j < m ==> H(i, j) == 0
    ensures RowSum(H, i, m) == 0
    decreases m
  {
    if m > 0 {
      RowSumZero(H, i, m - 1);
    }
  }

  /** Sums of non-negative terms are non-negative. */
  lemma {:induction false} GridSumNonNegative(H: (nat, nat) -> int, n: nat, m: nat)
    requires forall i: nat, j: nat :: H(i, j) >= 0
    ensures GridSum(H, n, m) >= 0
    decreases n
  {
    if n > 0 {
      GridSumNonNegative(H, n - 1, m);
      RowSumNonNegative(H, n - 1, m);
    }
  }

  lemma {:induction false} RowSumNonNegative(H: (nat, nat) -> int, i: nat, m: nat)
    requires forall i: nat, j: nat :: H(i, j) >= 0
    ensures RowSum(H, i, m) >= 0
    decreases m
  {
    if m > 0 {
      RowSumNonNegative(H, i, m - 1);
    }
  }

  /** Sums of pointwise-equal functions agree. */
  lemma {:induction false} RowSumCongruent(F: (nat, nat) -> int, G: (nat, nat) -> int, i: nat, m: nat)
    requires forall i: nat, j: nat :: F(i, j) == G(i, j)
    ensures RowSum(F, i, m) == RowSum(G, i, m)
    decreases m
  {
    if m > 0 {
      RowSumCongruent(F, G, i, m - 1);
    }
  }

  lemma {:induction false} GridSumCongruent(F: (nat, nat) -> int, G: (nat, nat) -> int, n: nat, m: nat)
    requires forall i: nat, j: nat :: F(i, j) == G(i, j)
    ensures GridSum(F, n, m) == GridSum(G, n, m)
    decreases n
  {
    if n > 0 {
      GridSumCongruent(F, G, n - 1, m);
      RowSumCongruent(F, G, n - 1, m);
    }
  }

  /** Scaling every term of a row sum scales the sum. */
  lemma {:induction false} RowSumScale(F: (nat, nat) -> int, G: (nat, nat) -> int, c: int, i: nat, m: nat)
    requires forall i: nat, j: nat :: F(i, j) == c * G(i, j)
    ensures RowSum(F, i, m) == c * RowSum(G, i, m)
    decreases m
  {
    if m > 0 {
      RowSumScale(F, G, c, i, m - 1);
    }
  }

  lemma {:induction false} GridSumScale(F: (nat, nat) -> int, G: (nat, nat) -> int, c: int, n: nat, m: nat)
    requires forall i: nat, j: nat :: F(i, j) == c * G(i, j)
    ensures GridSum(F, n, m) == c * GridSum(G, n, m)
    decreases n
  {
    if n > 0 {
      GridSumScale(F, G, c, n - 1, m);
      RowSumScale(F, G, c, n - 1, m);
    }
  }

  /** Widening the rectangle by one column adds that column. */
  lemma {:induction false} GridSumAddColumn(H: (nat, nat) -> int, n: nat, m: nat)
    ensures GridSum(H, n, m + 1) == GridSum(H, n, m) + ColSum(H, m, n)
    decreases n
  {
    if n > 0 {
      GridSumAddColumn(H, n - 1, m);
    }
  }

  /** For a symmetric function, row k and column k agree. */
  lemma {:induction false} RowEqualsColumn(H: (nat, nat) -> int, k: nat, m: nat)
    requires Symmetric(H)
    ensures RowSum(H, k, m) == ColSum(H, k, m)
    decreases m
  {
    if m > 0 {
      RowEqualsColumn(H, k, m - 1);
      assert H(k, m - 1) == H(m - 1, k);
    }
  }

  /** Summing a symmetric function that vanishes on the diagonal over all
      ordered pairs gives twice its sum over unordered pairs. */
  lemma {:induction false} OrderedIsTwiceUnordered(H: (nat, nat) -> int, n: nat)
    requires Symmetric(H)
    requires ZeroDiagonal(H)
    ensures GridSum(H, n, n) == 2 * PairSum(H, n)
    decreases n
  {
    if n > 0 {
      var k := n - 1;
      OrderedIsTwiceUnordered(H, k);
      // GridSum(H, n, n) = GridSum(H, k, n) + RowSum(H, k, n)
      //                  = GridSum(H, k, k) + ColSum(H, k, k) + RowSum(H, k, k) + H(k, k)
      GridSumAddColumn(H, k, k);
      RowEqualsColumn(H, k, k);
      assert H(k, k) == 0;
    }
  }
}
