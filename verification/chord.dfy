/** The compatibility matrix of the chord diagram. For every ordered pair of
    distinct tracks whose genres are both kept and whose popularities differ
    by at most ten, one is added to the cell of (first genre, second genre)
    and one to the cell of (second genre, first genre); afterwards every
    cell below the compatibility threshold is set to zero. */
module Chord {
  import opened Tracks
  import opened Rollup
  import opened ChordGenres
  import opened Sums

  /** Cells with fewer hits than this are cleared. */
  const CompatibilityThreshold: int := 10

  /** Largest popularity difference of a compatible pair. The source writes
      this bound as its own literal, independent of the threshold. */
  const PopularityWindow: int := 10

  function Abs(x: int): nat {
    if x < 0 then -x else x
  }

  /** Tracks `i` and `j` are a compatible pair: two different rows, both of a
      kept genre, with popularities at most `PopularityWindow` apart. */
  predicate Compatible(tracks: seq<Track>, idx: map<string, nat>, i: nat, j: nat) {
    i < |tracks| && j < |tracks| && i != j
    && tracks[i].genre in idx && tracks[j].genre in idx
    && Abs(tracks[i].popularity - tracks[j].popularity) <= PopularityWindow
  }

  /** What visiting the ordered pair (i, j) adds to cell (a, b): one for the
      update of (genre of i, genre of j) and one for the update of
      (genre of j, genre of i). */
  function Contribution(tracks: seq<Track>, idx: map<string, nat>, a: nat, b: nat, i: nat, j: nat): int {
    if !Compatible(tracks, idx, i, j) then 0
    else
      (if idx[tracks[i].genre] == a && idx[tracks[j].genre] == b then 1 else 0)
      + (if idx[tracks[j].genre] == a && idx[tracks[i].genre] == b then 1 else 0)
  }

  /** The contributions to cell (a, b), as a function of the pair. */
  function Hits(tracks: seq<Track>, idx: map<string, nat>, a: nat, b: nat): (nat, nat) -> int {
    (i: nat, j: nat) => Contribution(tracks, idx, a, b, i, j)
  }

  /** Cell (a, b) after the counting pass: the contributions of all ordered
      pairs of rows. */
  function RawCell(tracks: seq<Track>, idx: map<string, nat>, a: nat, b: nat): int {
    GridSum(Hits(tracks, idx, a, b), |tracks|, |tracks|)
  }

  /** The clearing pass applied to one cell. */
  function Suppress(v: int): int {
    if v < CompatibilityThreshold then 0 else v
  }

  /** The matrix after the counting pass: one row and one column per kept
      genre, in ranking order. */
  function RawMatrix(tracks: seq<Track>): (m: seq<seq<int>>)
    ensures |m| == |TopGenres(tracks)|
    ensures forall a :: 0 <= a < |m| ==> |m[a]| == |m|
  {
    var gs := TopGenres(tracks);
    CountedCells(tracks, IndexMap(gs), |gs|)
  }

  /** The `k` by `k` matrix of counted cells for the genre table `idx`. */
  function CountedCells(tracks: seq<Track>, idx: map<string, nat>, k: nat): (m: seq<seq<int>>)
    ensures |m| == k
    ensures forall a :: 0 <= a < k ==> |m[a]| == k
  {
    seq(k, a requires 0 <= a < k =>
      seq(k, b requires 0 <= b < k => RawCell(tracks, idx, a, b)))
  }

  /** The matrix the diagram is drawn from: the counted matrix, cleared. */
  function Matrix(tracks: seq<Track>): (m: seq<seq<int>>)
    ensures |m| == |TopGenres(tracks)|
    ensures forall a :: 0 <= a < |m| ==> |m[a]| == |m|
  {
    Cleared(RawMatrix(tracks))
  }

  /** The first `i` rows of the outer counting loop are done, and `j`
      columns of row `i`. */
  predicate CountedUpTo(tracks: seq<Track>, idx: map<string, nat>, m: seq<seq<int>>, k: nat, i: nat, j: nat) {
    |m| == k && (forall a :: 0 <= a < k ==> |m[a]| == k)
    && forall a: nat, b: nat :: a < k && b < k ==>
         m[a][b] == GridSum(Hits(tracks, idx, a, b), i, |tracks|) + RowSum(Hits(tracks, idx, a, b), i, j)
  }

  /** The inner counting loop for a row `i` whose genre is kept: pairs the
      row with every row and updates both cells of each compatible pair. */
  method CountRow(tracks: seq<Track>, idx: map<string, nat>, k: nat, i: nat, m0: seq<seq<int>>)
    returns (m: seq<seq<int>>)
    requires i < |tracks| && tracks[i].genre in idx
    requires forall g :: g in idx ==> idx[g] < k
    requires CountedUpTo(tracks, idx, m0, k, i, 0)
    ensures CountedUpTo(tracks, idx, m, k, i + 1, 0)
  {
    var n := |tracks|;
    var d := tracks[i];
    var g1 := idx[d.genre];
    m := m0;
    var j := 0;
    while j < n
      invariant 0 <= j <= n
      invariant CountedUpTo(tracks, idx, m, k, i, j)
    {
      var other := tracks[j];
      if i != j && other.genre in idx && Abs(d.popularity - other.popularity) <= PopularityWindow {
        var g2 := idx[other.genre];
        m := m[g1 := m[g1][g2 := m[g1][g2] + 1]];
        m := m[g2 := m[g2][g1 := m[g2][g1] + 1]];
      }
      j := j + 1;
    }
  }

  /** The counting pass: every ordered pair of rows. */
  method CountPairs(tracks: seq<Track>, idx: map<string, nat>, k: nat) returns (m: seq<seq<int>>)
    requires forall g :: g in idx ==> idx[g] < k
    ensures |m| == k && forall a :: 0 <= a < k ==> |m[a]| == k
    ensures forall a: nat, b: nat :: a < k && b < k ==> m[a][b] == RawCell(tracks, idx, a, b)
  {
    var n := |tracks|;
    m := seq(k, _ => seq(k, _ => 0));
    var i := 0;
    while i < n
      invariant 0 <= i <= n
      invariant CountedUpTo(tracks, idx, m, k, i, 0)
    {
      if tracks[i].genre in idx {
        m := CountRow(tracks, idx, k, i, m);
      } else {
        forall a: nat, b: nat | a < k && b < k
          ensures RowSum(Hits(tracks, idx, a, b), i, n) == 0
        {
          RowSumZero(Hits(tracks, idx, a, b), i, n);
        }
      }
      i := i + 1;
    }
  }

  /** The clearing pass as a function of the whole matrix. */
  function Cleared(m: seq<seq<int>>): (c: seq<seq<int>>)
    ensures |c| == |m| && forall a :: 0 <= a < |m| ==> |c[a]| == |m[a]|
  {
    seq(|m|, a requires 0 <= a < |m| => seq(|m[a]|, b requires 0 <= b < |m[a]| => Suppress(m[a][b])))
  }

  /** After clearing, every cell is zero or at least the threshold, cells
      that were at least the threshold are unchanged, and the others are
      zero. */
  lemma ClearedCells(m: seq<seq<int>>)
    ensures forall a, b :: 0 <= a < |m| && 0 <= b < |m[a]| ==>
              (Cleared(m)[a][b] == 0 || Cleared(m)[a][b] >= CompatibilityThreshold)
              && (m[a][b] >= CompatibilityThreshold ==> Cleared(m)[a][b] == m[a][b])
              && (m[a][b] < CompatibilityThreshold ==> Cleared(m)[a][b] == 0)
  {
  }

  /** A matrix with as many columns in every row as it has rows. */
  predicate Square(m: seq<seq<int>>) {
    forall a :: 0 <= a < |m| ==> |m[a]| == |m|
  }

  /** A square matrix equal to its transpose. */
  predicate SymmetricMatrix(m: seq<seq<int>>)
    requires Square(m)
  {
    forall a, b :: 0 <= a < |m| && 0 <= b < |m| ==> m[a][b] == m[b][a]
  }

  /** Clearing keeps a symmetric matrix square and symmetric. */
  lemma ClearedSymmetric(m: seq<seq<int>>)
    requires Square(m) && SymmetricMatrix(m)
    ensures Square(Cleared(m)) && SymmetricMatrix(Cleared(m))
  {
  }

  /** Clearing twice is clearing once. */
  lemma ClearedIdempotent(m: seq<seq<int>>)
    ensures Cleared(Cleared(m)) == Cleared(m)
  {
    var c := Cleared(m);
    assert forall a :: 0 <= a < |m| ==> Cleared(c)[a] == c[a];
  }

  /** The clearing pass: every cell below the threshold becomes zero. */
  method ClearWeakCells(m0: seq<seq<int>>, k: nat) returns (m: seq<seq<int>>)
    requires |m0| == k && forall a :: 0 <= a < k ==> |m0[a]| == k
    ensures m == Cleared(m0)
  {
    m := m0;
    var a := 0;
    while a < k
      invariant 0 <= a <= k
      invariant |m| == k && forall x :: 0 <= x < k ==> |m[x]| == k
      invariant forall x, y :: 0 <= x < k && 0 <= y < k ==>
                  m[x][y] == if x < a then Suppress(m0[x][y]) else m0[x][y]
    {
      var b := 0;
      while b < k
        invariant 0 <= b <= k
        invariant |m| == k && forall x :: 0 <= x < k ==> |m[x]| == k
        invariant forall x, y :: 0 <= x < k && 0 <= y < k ==>
                    m[x][y] == if x < a || (x == a && y < b) then Suppress(m0[x][y]) else m0[x][y]
      {
        if m[a][b] < CompatibilityThreshold {
          m := m[a := m[a][b := 0]];
        }
        b := b + 1;
      }
      a := a + 1;
    }
    assert forall x :: 0 <= x < k ==> m[x] == Cleared(m0)[x];
  }

  /** The chord diagram's data as the source computes it: the kept genres,
      the counting pass, then the clearing pass. */
  method BuildMatrix(tracks: seq<Track>) returns (genres: seq<string>, matrix: seq<seq<int>>)
    ensures genres == TopGenres(tracks)
    ensures matrix == Matrix(tracks)
  {
    genres := TopGenres(tracks);
    var idx := IndexMap(genres);
    var k := |genres|;
    var raw := CountPairs(tracks, idx, k);
    matrix := ClearWeakCells(raw, k);
    assert forall x :: 0 <= x < k ==> matrix[x] == Matrix(tracks)[x];
  }

  /** Rows `i` and `j` are one of the unordered pairs the diagram is meant
      to count between genres `g1` and `g2`: two different rows, one of each
      genre, with popularities at most `PopularityWindow` apart. It does not
      depend on the genre table. */
  predicate IsGenrePair(tracks: seq<Track>, g1: string, g2: string, i: nat, j: nat) {
    i < |tracks| && j < |tracks| && i != j
    && Abs(tracks[i].popularity - tracks[j].popularity) <= PopularityWindow
    && ((tracks[i].genre == g1 && tracks[j].genre == g2) || (tracks[i].genre == g2 && tracks[j].genre == g1))
  }

  /** The indicator of `IsGenrePair`, as a function of the pair. */
  function GenrePairs(tracks: seq<Track>, g1: string, g2: string): (nat, nat) -> int {
    (i: nat, j: nat) => if IsGenrePair(tracks, g1, g2, i, j) then 1 else 0
  }

  /** Over a list of kept genres without repeats, looking a track's genre up
      in the table gives position `a` exactly when the genre is `gs[a]`. */
  lemma LookupIsGenre(gs: seq<string>, g: string, a: nat)
    requires Distinct(gs) && a < |gs| && g in IndexMap(gs)
    ensures IndexMap(gs)[g] == a <==> g == gs[a]
  {
    IndexMapPositions(gs);
  }

  /** The pairs counted between two genres are unordered: (i, j) counts
      exactly when (j, i) does, and no row pairs with itself. */
  lemma GenrePairsUnordered(tracks: seq<Track>, g1: string, g2: string)
    ensures Symmetric(GenrePairs(tracks, g1, g2))
    ensures ZeroDiagonal(GenrePairs(tracks, g1, g2))
  {
    var P := GenrePairs(tracks, g1, g2);
    forall i: nat, j: nat
      ensures P(i, j) == P(j, i)
    {
    }
  }

  /** Visiting one ordered pair adds to cell (a, b) twice its pair
      indicator on the diagonal and once elsewhere, for a genre table built
      from a list without repeats. */
  lemma HitIsPairIn(tracks: seq<Track>, gs: seq<string>, a: nat, b: nat, i: nat, j: nat)
    requires Distinct(gs) && a < |gs| && b < |gs|
    ensures Contribution(tracks, IndexMap(gs), a, b, i, j)
            == (if a == b then 2 else 1) * (if IsGenrePair(tracks, gs[a], gs[b], i, j) then 1 else 0)
  {
    var idx := IndexMap(gs);
    var ga, gb := gs[a], gs[b];
    if Compatible(tracks, idx, i, j) {
      var gi, gj := tracks[i].genre, tracks[j].genre;
      LookupIsGenre(gs, gi, a);
      LookupIsGenre(gs, gj, a);
      LookupIsGenre(gs, gi, b);
      LookupIsGenre(gs, gj, b);
      assert a != b ==> ga != gb;
    }
  }

  lemma HitIsPair(tracks: seq<Track>, a: nat, b: nat, i: nat, j: nat)
    requires a < |TopGenres(tracks)| && b < |TopGenres(tracks)|
    ensures var gs := TopGenres(tracks);
            Contribution(tracks, IndexMap(gs), a, b, i, j)
            == (if a == b then 2 else 1) * GenrePairs(tracks, gs[a], gs[b])(i, j)
  {
    var gs := TopGenres(tracks);
    TopGenresRanked(tracks);
    HitIsPairIn(tracks, gs, a, b, i, j);
  }

  /** How the counting pass counts: each unordered compatible pair of tracks
      of two different kept genres adds two to their cell, and each
      unordered compatible pair of tracks of the same kept genre adds four
      to its diagonal cell. */
  lemma RawCellCountsPairs(tracks: seq<Track>, a: nat, b: nat)
    requires a < |TopGenres(tracks)| && b < |TopGenres(tracks)|
    ensures var gs := TopGenres(tracks);
            RawCell(tracks, IndexMap(gs), a, b)
            == (if a == b then 4 else 2) * PairSum(GenrePairs(tracks, gs[a], gs[b]), |tracks|)
  {
    var gs := TopGenres(tracks);
    var idx := IndexMap(gs);
    var n := |tracks|;
    var H := Hits(tracks, idx, a, b);
    var P := GenrePairs(tracks, gs[a], gs[b]);
    GenrePairsUnordered(tracks, gs[a], gs[b]);
    OrderedIsTwiceUnordered(P, n);
    var c := if a == b then 2 else 1;
    forall i: nat, j: nat
      ensures H(i, j) == c * P(i, j)
    {
      HitIsPair(tracks, a, b, i, j);
    }
    GridSumScale(H, P, c, n, n);
  }

  /** Cell (a, b) before clearing equals cell (b, a). */
  lemma RawCellSymmetric(tracks: seq<Track>, idx: map<string, nat>, a: nat, b: nat)
    ensures RawCell(tracks, idx, a, b) == RawCell(tracks, idx, b, a)
  {
    GridSumCongruent(Hits(tracks, idx, a, b), Hits(tracks, idx, b, a), |tracks|, |tracks|);
  }

  /** No cell is negative before clearing. */
  lemma RawCellNonNegative(tracks: seq<Track>, idx: map<string, nat>, a: nat, b: nat)
    ensures RawCell(tracks, idx, a, b) >= 0
  {
    GridSumNonNegative(Hits(tracks, idx, a, b), |tracks|, |tracks|);
  }

  /** A cell of the counted matrix. */
  lemma RawMatrixCell(tracks: seq<Track>, a: nat, b: nat)
    requires a < |RawMatrix(tracks)| && b < |RawMatrix(tracks)|
    ensures RawMatrix(tracks)[a][b] == RawCell(tracks, IndexMap(TopGenres(tracks)), a, b)
  {
  }

  /** After counting, the matrix is square with one row per kept genre
      (at most fifteen) and symmetric. */
  lemma RawMatrixSymmetric(tracks: seq<Track>)
    ensures |RawMatrix(tracks)| == |TopGenres(tracks)| <= MaxGenres
    ensures Square(RawMatrix(tracks)) && SymmetricMatrix(RawMatrix(tracks))
  {
    var raw := RawMatrix(tracks);
    var idx := IndexMap(TopGenres(tracks));
    forall a, b | 0 <= a < |raw| && 0 <= b < |raw|
      ensures raw[a][b] == raw[b][a]
    {
      RawMatrixCell(tracks, a, b);
      RawMatrixCell(tracks, b, a);
      RawCellSymmetric(tracks, idx, a, b);
    }
  }

  /** No cell of the counted matrix is negative. */
  lemma RawMatrixNonNegative(tracks: seq<Track>)
    ensures forall a, b :: 0 <= a < |RawMatrix(tracks)| && 0 <= b < |RawMatrix(tracks)| ==> RawMatrix(tracks)[a][b] >= 0
  {
    var raw := RawMatrix(tracks);
    var idx := IndexMap(TopGenres(tracks));
    forall a, b | 0 <= a < |raw| && 0 <= b < |raw|
      ensures raw[a][b] >= 0
    {
      RawMatrixCell(tracks, a, b);
      RawCellNonNegative(tracks, idx, a, b);
    }
  }

  /** After clearing, the matrix is still square and symmetric, and every
      cell is zero or at least the threshold. */
  lemma MatrixSpec(tracks: seq<Track>)
    ensures Square(Matrix(tracks)) && SymmetricMatrix(Matrix(tracks))
    ensures forall a, b :: 0 <= a < |Matrix(tracks)| && 0 <= b < |Matrix(tracks)| ==>
              Matrix(tracks)[a][b] == 0 || Matrix(tracks)[a][b] >= CompatibilityThreshold
  {
    var raw := RawMatrix(tracks);
    RawMatrixSymmetric(tracks);
    ClearedSymmetric(raw);
    ClearedCells(raw);
  }

  /** Every cell of the matrix counts compatible pairs: zero when the pair
      count falls below the threshold, otherwise twice the number of
      unordered compatible pairs between two different genres, or four
      times that number on the diagonal. */
  lemma MatrixCountsPairs(tracks: seq<Track>, a: nat, b: nat)
    requires a < |TopGenres(tracks)| && b < |TopGenres(tracks)|
    ensures var gs := TopGenres(tracks);
            var raw := (if a == b then 4 else 2) * PairSum(GenrePairs(tracks, gs[a], gs[b]), |tracks|);
            raw >= 0
            && Matrix(tracks)[a][b] == if raw < CompatibilityThreshold then 0 else raw
  {
    var gs := TopGenres(tracks);
    RawCellCountsPairs(tracks, a, b);
    RawCellNonNegative(tracks, IndexMap(gs), a, b);
  }

  /** Two pop tracks of popularity 50 and 55 followed by a rock track of
      popularity 52 (the other columns are arbitrary): every pair is within
      the popularity window. */
  predicate IsExample(t: seq<Track>) {
    |t| == 3
    && t[0].genre == "pop" && t[0].popularity == 50
    && t[1].genre == "pop" && t[1].popularity == 55
    && t[2].genre == "rock" && t[2].popularity == 52
  }

  /** Keys of one more track whose genre is already a key. */
  lemma KeysOld(t: seq<Track>, n: nat, ks: seq<string>)
    requires n < |t| && Keys(t[..n], GenreOf) == ks && t[n].genre in ks
    ensures Keys(t[..n + 1], GenreOf) == ks
  {
    assert t[..n] + [t[n]] == t[..n + 1];
    KeysExtend(t[..n], t[n], GenreOf);
  }

  /** Keys of one more track whose genre is not yet a key. */
  lemma KeysNew(t: seq<Track>, n: nat, ks: seq<string>)
    requires n < |t| && Keys(t[..n], GenreOf) == ks && t[n].genre !in ks
    ensures Keys(t[..n + 1], GenreOf) == ks + [t[n].genre]
  {
    assert t[..n] + [t[n]] == t[..n + 1];
    KeysExtend(t[..n], t[n], GenreOf);
  }

  /** Keys of two tracks of the same genre. */
  lemma TwoKeys(t: seq<Track>, g: string)
    requires |t| >= 2 && t[0].genre == g && t[1].genre == g
    ensures Keys(t[..2], GenreOf) == [g]
  {
    KeysNew(t, 0, []);
    KeysOld(t, 1, [g]);
  }

  /** A third track of a new genre adds that genre as the last key. */
  lemma ThirdKey(t: seq<Track>, g1: string, g2: string)
    requires g1 != g2
    requires |t| == 3 && t[2].genre == g2
    requires Keys(t[..2], GenreOf) == [g1]
    ensures Keys(t[..3], GenreOf) == [g1, g2]
  {
    KeysNew(t, 2, [g1]);
  }

  /** Keys of three tracks whose genres are `g1`, `g1`, `g2`. */
  lemma ThreeKeys(t: seq<Track>, g1: string, g2: string)
    requires g1 != g2
    requires |t| == 3 && t[0].genre == g1 && t[1].genre == g1 && t[2].genre == g2
    ensures Keys(t, GenreOf) == [g1, g2]
  {
    TwoKeys(t, g1);
    ThirdKey(t, g1, g2);
    assert t[..3] == t;
  }

  /** The size of a group of three tracks counts the tracks of its genre. */
  lemma ThreeGroup(t0: Track, t1: Track, t2: Track, g: string)
    ensures |Group([t0, t1, t2], GenreOf, g)|
            == (if t0.genre == g then 1 else 0) + (if t1.genre == g then 1 else 0) + (if t2.genre == g then 1 else 0)
  {
    var e: seq<Track> := [];
    assert e + [t0] == [t0] && [t0] + [t1] == [t0, t1] && [t0, t1] + [t2] == [t0, t1, t2];
    GroupExtend(e, t0, GenreOf, g);
    GroupExtend([t0], t1, GenreOf, g);
    GroupExtend([t0, t1], t2, GenreOf, g);
  }

  lemma ExampleKeys(t: seq<Track>)
    requires IsExample(t)
    ensures Keys(t, GenreOf) == ["pop", "rock"]
    ensures CountOf(t, "pop") == 2 && CountOf(t, "rock") == 1
  {
    assert t == [t[0], t[1], t[2]];
    assert "pop" != "rock" by {
      assert "pop"[0] != "rock"[0];
    }
    ThreeKeys(t, "pop", "rock");
    ThreeGroup(t[0], t[1], t[2], "pop");
    ThreeGroup(t[0], t[1], t[2], "rock");
  }

  /** Sorting two entries already in decreasing order leaves them. */
  lemma SortTwo(x: GenreCount, y: GenreCount)
    requires x.count >= y.count
    ensures SortByCount([x, y]) == [x, y]
  {
    assert [x, y][..1] == [x];
    assert [x][..0] == [];
  }

  /** The example's genre counts: pop with two tracks, then rock with one. */
  lemma ExampleCounts(t: seq<Track>)
    requires IsExample(t)
    ensures GenreCounts(t) == [GenreCount("pop", 2), GenreCount("rock", 1)]
  {
    ExampleKeys(t);
  }

  /** The example's ranking: pop (two tracks) before rock (one). */
  lemma ExampleRanking(t: seq<Track>)
    requires IsExample(t)
    ensures TopGenres(t) == ["pop", "rock"]
  {
    ExampleCounts(t);
    SortTwo(GenreCount("pop", 2), GenreCount("rock", 1));
    var gs := TopGenres(t);
    assert |Ranking(t)| == 2;
    assert gs[0] == "pop" && gs[1] == "rock";
  }

  lemma ExamplePairs(t: seq<Track>)
    requires IsExample(t)
    ensures PairSum(GenrePairs(t, "pop", "rock"), 3) == 2
    ensures PairSum(GenrePairs(t, "rock", "pop"), 3) == 2
    ensures PairSum(GenrePairs(t, "pop", "pop"), 3) == 1
    ensures PairSum(GenrePairs(t, "rock", "rock"), 3) == 0
  {
    var pr := GenrePairs(t, "pop", "rock");
    assert pr(0, 1) == 0 && pr(0, 2) == 1 && pr(1, 2) == 1;
    var rp := GenrePairs(t, "rock", "pop");
    assert rp(0, 1) == 0 && rp(0, 2) == 1 && rp(1, 2) == 1;
    var pp := GenrePairs(t, "pop", "pop");
    assert pp(0, 1) == 1 && pp(0, 2) == 0 && pp(1, 2) == 0;
    var rr := GenrePairs(t, "rock", "rock");
    assert rr(0, 1) == 0 && rr(0, 2) == 0 && rr(1, 2) == 0;
  }

  /** In the example the counting pass puts 4 into the pop-rock cell (two
      pairs, two each) and 4 into the pop-pop cell (one pair, four). */
  lemma ExampleCells(t: seq<Track>)
    requires IsExample(t)
    ensures TopGenres(t) == ["pop", "rock"]
    ensures RawCell(t, IndexMap(["pop", "rock"]), 0, 1) == 4
    ensures RawCell(t, IndexMap(["pop", "rock"]), 1, 0) == 4
    ensures RawCell(t, IndexMap(["pop", "rock"]), 0, 0) == 4
    ensures RawCell(t, IndexMap(["pop", "rock"]), 1, 1) == 0
  {
    ExampleRanking(t);
    ExamplePairs(t);
    RawCellCountsPairs(t, 0, 1);
    RawCellCountsPairs(t, 0, 0);
    RawCellCountsPairs(t, 1, 0);
    RawCellCountsPairs(t, 1, 1);
  }

  /** A cell of the final matrix is its counted value, cleared when below
      the threshold. */
  lemma MatrixCell(tracks: seq<Track>, a: nat, b: nat)
    requires a < |Matrix(tracks)| && b < |Matrix(tracks)|
    ensures Matrix(tracks)[a][b] == Suppress(RawCell(tracks, IndexMap(TopGenres(tracks)), a, b))
  {
    RawMatrixCell(tracks, a, b);
  }

  /** A two-by-two matrix whose four cells are zero. */
  lemma ZeroTwoByTwo(m: seq<seq<int>>)
    requires |m| == 2 && |m[0]| == 2 && |m[1]| == 2
    requires m[0][0] == 0 && m[0][1] == 0 && m[1][0] == 0 && m[1][1] == 0
    ensures m == [[0, 0], [0, 0]]
  {
    assert m[0] == [0, 0] && m[1] == [0, 0];
  }

  /** Every cell of the example is then cleared, being below the threshold. */
  lemma ThreeTrackExample(t: seq<Track>)
    requires IsExample(t)
    ensures Matrix(t) == [[0, 0], [0, 0]]
  {
    ExampleCells(t);
    MatrixCell(t, 0, 0);
    MatrixCell(t, 0, 1);
    MatrixCell(t, 1, 0);
    MatrixCell(t, 1, 1);
    ZeroTwoByTwo(Matrix(t));
  }
}
