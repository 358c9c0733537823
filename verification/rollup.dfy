/** Grouping as the charting library's `rollup`/`rollups` performs it: the
    groups are keyed by the distinct key values in order of first appearance,
    and each group holds its members in input order. Every chart's
    aggregation step is built from these definitions. */
module Rollup {

  /** No value occurs twice in `s`. */
  predicate Distinct<T(==)>(s: seq<T>) {
    forall i, j :: 0 <= i < j < |s| ==> s[i] != s[j]
  }

  /** Some element of `xs` has key `k`. */
  predicate Occurs<T(!new), K(==, !new)>(xs: seq<T>, key: T -> K, k: K) {
    exists i :: 0 <= i < |xs| && key(xs[i]) == k
  }

  /** Position of the first element of `xs` whose key is `k`, or `|xs|`
      when no element has that key. */
  function FirstIndex<T(!new), K(==, !new)>(xs: seq<T>, key: T -> K, k: K): (i: nat)
    ensures i <= |xs|
    ensures i < |xs| ==> key(xs[i]) == k
    ensures forall j :: 0 <= j < i ==> key(xs[j]) != k
    ensures i < |xs| <==> Occurs(xs, key, k)
  {
    if |xs| == 0 then 0
    else if key(xs[0]) == k then 0
    else
      var i := 1 + FirstIndex(xs[1..], key, k);
      assert forall j :: 1 <= j < |xs| ==> xs[1..][j - 1] == xs[j];
      i
  }

  /** The first position of `k` in `xs` is also its first position in any
      extension of `xs`. */
  lemma FirstIndexExtend<T(!new), K(!new)>(xs: seq<T>, x: T, key: T -> K, k: K)
    requires Occurs(xs, key, k)
    ensures FirstIndex(xs + [x], key, k) == FirstIndex(xs, key, k)
  {
    var i := FirstIndex(xs, key, k);
    assert (xs + [x])[i] == xs[i];
    assert forall j :: 0 <= j < i ==> (xs + [x])[j] == xs[j];
  }

  /** The distinct keys of `xs` in order of first appearance: the key order
      of the grouping. */
  function Keys<T(!new), K(==, !new)>(xs: seq<T>, key: T -> K): (ks: seq<K>)
    ensures forall k :: k in ks <==> Occurs(xs, key, k)
    ensures Distinct(ks)
    ensures forall p, q :: 0 <= p < q < |ks| ==>
              FirstIndex(xs, key, ks[p]) < FirstIndex(xs, key, ks[q])
  {
    if |xs| == 0 then []
    else
      var init := xs[..|xs| - 1];
      var x := xs[|xs| - 1];
      assert xs == init + [x];
      var ks := Keys(init, key);
      KeysExtendFacts(init, x, key, ks);
      if key(x) in ks then ks else ks + [key(x)]
  }

  /** The facts `Keys` needs when one element is appended to the input. */
  lemma KeysExtendFacts<T(!new), K(!new)>(init: seq<T>, x: T, key: T -> K, ks: seq<K>)
    requires forall k :: k in ks <==> Occurs(init, key, k)
    ensures forall k :: Occurs(init + [x], key, k) <==> Occurs(init, key, k) || k == key(x)
    ensures forall k :: k in ks ==> FirstIndex(init + [x], key, k) == FirstIndex(init, key, k)
    ensures forall k :: k in ks ==> FirstIndex(init, key, k) < |init|
    ensures key(x) !in ks ==> FirstIndex(init + [x], key, key(x)) == |init|
  {
    var xs := init + [x];
    forall k | Occurs(init, key, k)
      ensures Occurs(xs, key, k)
    {
      var i :| 0 <= i < |init| && key(init[i]) == k;
      assert xs[i] == init[i];
    }
    forall k | Occurs(xs, key, k) && k != key(x)
      ensures Occurs(init, key, k)
    {
      var i :| 0 <= i < |xs| && key(xs[i]) == k;
      assert i < |init| && xs[i] == init[i];
    }
    assert key(xs[|init|]) == key(x);
    forall k | k in ks
      ensures FirstIndex(xs, key, k) == FirstIndex(init, key, k)
    {
      FirstIndexExtend(init, x, key, k);
    }
    assert forall j :: 0 <= j < |init| ==> xs[j] == init[j];
  }

  /** The members of `xs` whose key is `k`, in input order: every element
      with that key occurs in the group as often as in the input, and no
      other element occurs. */
  function Group<T(!new), K(==, !new)>(xs: seq<T>, key: T -> K, k: K): (g: seq<T>)
    ensures forall x {:trigger multiset(g)[x]} :: multiset(g)[x] == if key(x) == k then multiset(xs)[x] else 0
    ensures forall x :: x in g <==> x in xs && key(x) == k
    ensures |g| <= |xs|
  {
    if |xs| == 0 then []
    else
      var init := xs[..|xs| - 1];
      var x := xs[|xs| - 1];
      assert xs == init + [x];
      assert multiset(xs) == multiset(init) + multiset{x};
      Group(init, key, k) + (if key(x) == k then [x] else [])
  }

  /** A group is non-empty exactly when its key occurs in the input; in
      particular every group the grouping emits has a member. */
  lemma GroupNonEmpty<T(!new), K(!new)>(xs: seq<T>, key: T -> K, k: K)
    ensures |Group(xs, key, k)| > 0 <==> Occurs(xs, key, k)
  {
    var g := Group(xs, key, k);
    if |g| > 0 {
      assert g[0] in g;
      var i :| 0 <= i < |xs| && xs[i] == g[0];
    }
    if Occurs(xs, key, k) {
      var i :| 0 <= i < |xs| && key(xs[i]) == k;
      assert xs[i] in xs;
    }
  }

  /** Group of an input extended by one element. */
  lemma GroupExtend<T(!new), K(!new)>(xs: seq<T>, x: T, key: T -> K, k: K)
    ensures Group(xs + [x], key, k) == Group(xs, key, k) + (if key(x) == k then [x] else [])
  {
    assert (xs + [x])[..|xs|] == xs;
  }

  /** Groups keep input order: the group of any prefix of the input is a
      prefix of the group. With the multiplicities stated by `Group`, this
      fixes the group as the input's sub-sequence of elements with key `k`. */
  lemma {:induction false} GroupPrefix<T(!new), K(!new)>(xs: seq<T>, key: T -> K, k: K, n: nat)
    requires n <= |xs|
    ensures Group(xs[..n], key, k) <= Group(xs, key, k)
    decreases |xs|
  {
    if n < |xs| {
      var init := xs[..|xs| - 1];
      var x := xs[|xs| - 1];
      assert xs == init + [x];
      assert xs[..n] == init[..n];
      GroupPrefix(init, key, k, n);
      GroupExtend(init, x, key, k);
    } else {
      assert xs[..n] == xs;
    }
  }

  /** The positions of `xs` whose key is `k`: an independent statement of
      what a group's size counts. */
  function Positions<T(!new), K(==, !new)>(xs: seq<T>, key: T -> K, k: K): set<nat> {
    set i: nat | i < |xs| && key(xs[i]) == k
  }

  /** Positions of an input extended by one element. */
  lemma PositionsExtend<T(!new), K(!new)>(xs: seq<T>, x: T, key: T -> K, k: K)
    ensures Positions(xs + [x], key, k)
            == Positions(xs, key, k) + (if key(x) == k then {|xs|} else {})
  {
    var ys := xs + [x];
    forall i: nat | i < |xs|
      ensures ys[i] == xs[i]
    {
    }
    assert ys[|xs|] == x;
  }

  /** The size of a group is the number of input records carrying its key. */
  lemma {:induction false} GroupSizeIsCount<T(!new), K(!new)>(xs: seq<T>, key: T -> K, k: K)
    ensures |Group(xs, key, k)| == |Positions(xs, key, k)|
    decreases |xs|
  {
    if |xs| == 0 {
      assert Positions(xs, key, k) == {};
    } else {
      var init := xs[..|xs| - 1];
      var x := xs[|xs| - 1];
      assert xs == init + [x];
      GroupSizeIsCount(init, key, k);
      GroupExtend(init, x, key, k);
      PositionsExtend(init, x, key, k);
      assert |init| !in Positions(init, key, k);
    }
  }

  /** Sum of `f` over the elements of `s`. */
  function Total<T>(s: seq<T>, f: T -> nat): nat {
    if |s| == 0 then 0 else Total(s[..|s| - 1], f) + f(s[|s| - 1])
  }

  /** The sum over a concatenation is the sum of the sums. */
  lemma {:induction false} TotalAppend<T>(a: seq<T>, b: seq<T>, f: T -> nat)
    ensures Total(a + b, f) == Total(a, f) + Total(b, f)
    decreases |b|
  {
    if |b| == 0 {
      assert a + b == a;
    } else {
      var init := b[..|b| - 1];
      assert a + b == (a + init) + [b[|b| - 1]];
      assert (a + b)[..|a + b| - 1] == a + init;
      TotalAppend(a, init, f);
    }
  }

  /** Total size of the groups named by `ks`. */
  function SumGroupSizes<T(!new), K(==, !new)>(xs: seq<T>, key: T -> K, ks: seq<K>): nat {
    if |ks| == 0 then 0
    else SumGroupSizes(xs, key, ks[..|ks| - 1]) + |Group(xs, key, ks[|ks| - 1])|
  }

  /** Appending one element to the input grows exactly one of a list of
      distinct groups, by one, if its key is listed. */
  lemma {:induction false} SumGroupSizesExtend<T(!new), K(!new)>(xs: seq<T>, x: T, key: T -> K, ks: seq<K>)
    requires Distinct(ks)
    ensures SumGroupSizes(xs + [x], key, ks)
            == SumGroupSizes(xs, key, ks) + (if key(x) in ks then 1 else 0)
    decreases |ks|
  {
    if |ks| > 0 {
      var init := ks[..|ks| - 1];
      var k := ks[|ks| - 1];
      assert ks == init + [k];
      SumGroupSizesExtend(xs, x, key, init);
      GroupExtend(xs, x, key, k);
      assert key(x) in ks <==> key(x) in init || key(x) == k;
      assert forall p :: 0 <= p < |init| ==> init[p] == ks[p];
    }
  }

  /** Keys of an input extended by one element: a new key is appended at the end. */
  lemma KeysExtend<T(!new), K(!new)>(xs: seq<T>, x: T, key: T -> K)
    ensures Keys(xs + [x], key)
            == if key(x) in Keys(xs, key) then Keys(xs, key) else Keys(xs, key) + [key(x)]
  {
    assert (xs + [x])[..|xs|] == xs;
  }

  /** Appending an element with a key not seen before adds a group of size one. */
  lemma SumGroupSizesNewKey<T(!new), K(!new)>(xs: seq<T>, x: T, key: T -> K, ks: seq<K>)
    requires !Occurs(xs, key, key(x))
    ensures SumGroupSizes(xs + [x], key, ks + [key(x)]) == SumGroupSizes(xs + [x], key, ks) + 1
  {
    assert (ks + [key(x)])[..|ks|] == ks;
    GroupExtend(xs, x, key, key(x));
    GroupNonEmpty(xs, key, key(x));
  }

  /** The groups partition the input: their sizes add up to its length. */
  lemma {:induction false} GroupsPartition<T(!new), K(!new)>(xs: seq<T>, key: T -> K)
    ensures SumGroupSizes(xs, key, Keys(xs, key)) == |xs|
    decreases |xs|
  {
    if |xs| > 0 {
      var init := xs[..|xs| - 1];
      var x := xs[|xs| - 1];
      assert xs == init + [x];
      var ks := Keys(init, key);
      GroupsPartition(init, key);
      SumGroupSizesExtend(init, x, key, ks);
      KeysExtend(init, x, key);
      if key(x) !in ks {
        SumGroupSizesNewKey(init, x, key, ks);
      }
    }
  }
}
