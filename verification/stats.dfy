/** Sums, extremes and arithmetic means of real-valued columns, with the
    library mean's meaning over mathematical reals (no rounding, no NaN). */
module Stats {

  /** Sum of the values, accumulated left to right. */
  function Sum(xs: seq<real>): real {
    if |xs| == 0 then 0.0 else Sum(xs[..|xs| - 1]) + xs[|xs| - 1]
  }

  /** Smallest value of a non-empty column. */
  function Min(xs: seq<real>): (m: real)
    requires |xs| > 0
    ensures m in xs
    ensures forall i :: 0 <= i < |xs| ==> m <= xs[i]
  {
    if |xs| == 1 then xs[0]
    else
      var init := xs[..|xs| - 1];
      var m := Min(init);
      assert forall i :: 0 <= i < |xs| - 1 ==> xs[i] == init[i];
      if xs[|xs| - 1] < m then xs[|xs| - 1] else m
  }

  /** Largest value of a non-empty column. */
  function Max(xs: seq<real>): (m: real)
    requires |xs| > 0
    ensures m in xs
    ensures forall i :: 0 <= i < |xs| ==> xs[i] <= m
  {
    if |xs| == 1 then xs[0]
    else
      var init := xs[..|xs| - 1];
      var m := Max(init);
      assert forall i :: 0 <= i < |xs| - 1 ==> xs[i] == init[i];
      if xs[|xs| - 1] > m then xs[|xs| - 1] else m
  }

  /** A sum of values lying in [lo, hi] lies between |xs| * lo and |xs| * hi. */
  lemma {:induction false} SumBounds(xs: seq<real>, lo: real, hi: real)
    requires forall i :: 0 <= i < |xs| ==> lo <= xs[i] <= hi
    ensures |xs| as real * lo <= Sum(xs) <= |xs| as real * hi
    decreases |xs|
  {
    if |xs| > 0 {
      var init := xs[..|xs| - 1];
      assert forall i :: 0 <= i < |init| ==> init[i] == xs[i];
      SumBounds(init, lo, hi);
      assert |xs| as real * lo == |init| as real * lo + lo;
      assert |xs| as real * hi == |init| as real * hi + hi;
    }
  }

  /** Dividing a total that lies between n * lo and n * hi by n gives a
      value between lo and hi. */
  lemma QuotientBounds(s: real, n: real, lo: real, hi: real)
    requires n > 0.0
    requires n * lo <= s <= n * hi
    ensures lo <= s / n <= hi
  {
    assert (s / n) * n == s;
  }

  /** The arithmetic mean of a non-empty column: it lies between the
      column's extremes, and the mean of one value is that value. */
  function Mean(xs: seq<real>): (m: real)
    requires |xs| > 0
    ensures Min(xs) <= m <= Max(xs)
    ensures |xs| == 1 ==> m == xs[0]
  {
    var n := |xs| as real;
    var lo, hi := Min(xs), Max(xs);
    SumBounds(xs, lo, hi);
    QuotientBounds(Sum(xs), n, lo, hi);
    assert |xs| == 1 ==> Sum(xs) == xs[0] by {
      if |xs| == 1 {
        assert xs[..0] == [];
      }
    }
    Sum(xs) / n
  }

  /** The mean is the sum divided by the number of values. */
  lemma MeanIsQuotient(xs: seq<real>)
    requires |xs| > 0
    ensures Mean(xs) == Sum(xs) / |xs| as real
  {
  }

  /** A mean of values lying in [lo, hi] lies in [lo, hi]. */
  lemma MeanBounds(xs: seq<real>, lo: real, hi: real)
    requires |xs| > 0
    requires forall i :: 0 <= i < |xs| ==> lo <= xs[i] <= hi
    ensures lo <= Mean(xs) <= hi
  {
    SumBounds(xs, lo, hi);
    QuotientBounds(Sum(xs), |xs| as real, lo, hi);
  }

  /** The column of a sequence: one value per element, in order. */
  function Column<T>(ts: seq<T>, f: T -> real): (c: seq<real>)
    ensures |c| == |ts|
    ensures forall i :: 0 <= i < |ts| ==> c[i] == f(ts[i])
  {
    seq(|ts|, i requires 0 <= i < |ts| => f(ts[i]))
  }
}
