/** The genres of the chord diagram: the tracks are counted per genre, the
    counts are sorted by decreasing count with a stable sort (equal counts
    keep their first-appearance order), the first fifteen genres are kept,
    and every kept genre is given its position as index. */
module ChordGenres {
  import opened Tracks
  import opened Rollup

  /** How many genres the diagram keeps. */
  const MaxGenres: nat := 15

  /** A genre and its number of tracks. */
  datatype GenreCount = GenreCount(genre: string, count: nat)

  /** Number of tracks of genre `g`. */
  function CountOf(tracks: seq<Track>, g: string): nat {
    |Group(tracks, GenreOf, g)|
  }

  /** One entry per distinct genre, in order of first appearance, with its
      number of tracks. */
  function GenreCounts(tracks: seq<Track>): (r: seq<GenreCount>)
    ensures |r| == |Keys(tracks, GenreOf)|
    ensures forall i :: 0 <= i < |r| ==> r[i].genre == Keys(tracks, GenreOf)[i]
    ensures forall i :: 0 <= i < |r| ==> r[i].count == CountOf(tracks, r[i].genre)
  {
    var ks := Keys(tracks, GenreOf);
    seq(|ks|, i requires 0 <= i < |ks| => GenreCount(ks[i], CountOf(tracks, ks[i])))
  }

  /** Counts never increase along `s`. */
  predicate NonIncreasing(s: seq<GenreCount>) {
    forall i, j :: 0 <= i < j < |s| ==> s[i].count >= s[j].count
  }

  /** The entries of `s` with count `c`, in order. A sort is stable exactly
      when it leaves this subsequence unchanged for every `c`. */
  function WithCount(s: seq<GenreCount>, c: nat): seq<GenreCount> {
    if |s| == 0 then []
    else (if s[0].count == c then [s[0]] else []) + WithCount(s[1..], c)
  }

  /** `x` occurs before `y` in `s`. */
  predicate Before(s: seq<GenreCount>, x: GenreCount, y: GenreCount) {
    exists i, j :: 0 <= i < j < |s| && s[i] == x && s[j] == y
  }

  /** Insert `x` after every entry whose count is at least its own. */
  function Insert(s: seq<GenreCount>, x: GenreCount): seq<GenreCount> {
    if |s| == 0 then [x]
    else if s[0].count >= x.count then [s[0]] + Insert(s[1..], x)
    else [x] + s
  }

  lemma {:induction false} WithCountAbsent(s: seq<GenreCount>, c: nat)
    requires forall i :: 0 <= i < |s| ==> s[i].count < c
    ensures WithCount(s, c) == []
    decreases |s|
  {
    if |s| > 0 {
      WithCountAbsent(s[1..], c);
    }
  }

  lemma {:induction false} WithCountAppend(s: seq<GenreCount>, x: GenreCount, c: nat)
    ensures WithCount(s + [x], c) == WithCount(s, c) + (if x.count == c then [x] else [])
    decreases |s|
  {
    if |s| == 0 {
      assert s + [x] == [x];
      assert [x][1..] == [];
    } else {
      var t := s[1..];
      var head := if s[0].count == c then [s[0]] else [];
      var tail := if x.count == c then [x] else [];
      assert (s + [x])[0] == s[0];
      assert (s + [x])[1..] == t + [x];
      assert WithCount(s + [x], c) == head + WithCount(t + [x], c);
      WithCountAppend(t, x, c);
      assert WithCount(s, c) == head + WithCount(t, c);
      assert head + (WithCount(t, c) + tail) == (head + WithCount(t, c)) + tail;
    }
  }

  /** Inserting adds exactly `x`. */
  lemma {:induction false} InsertMultiset(s: seq<GenreCount>, x: GenreCount)
    ensures multiset(Insert(s, x)) == multiset(s) + multiset{x}
    decreases |s|
  {
    if |s| > 0 && s[0].count >= x.count {
      InsertMultiset(s[1..], x);
      assert s == [s[0]] + s[1..];
    }
  }

  /** Every entry of an insertion result is the inserted entry or comes
      from the list. */
  lemma InsertMembers(s: seq<GenreCount>, x: GenreCount, y: GenreCount)
    requires y in Insert(s, x)
    ensures y == x || y in s
  {
    InsertMultiset(s, x);
    assert y in multiset(Insert(s, x));
  }

  /** A head at least as large as every count of a non-increasing tail
      gives a non-increasing list. */
  lemma NonIncreasingCons(h: GenreCount, t: seq<GenreCount>)
    requires NonIncreasing(t)
    requires forall j :: 0 <= j < |t| ==> h.count >= t[j].count
    ensures NonIncreasing([h] + t)
  {
    var r := [h] + t;
    forall i, j | 0 <= i < j < |r|
      ensures r[i].count >= r[j].count
    {
      assert r[j] == t[j - 1];
      if i > 0 {
        assert r[i] == t[i - 1];
      }
    }
  }

  /** The tail of a non-increasing list is non-increasing, and its head
      is at least every later count. */
  lemma NonIncreasingTail(s: seq<GenreCount>)
    requires NonIncreasing(s) && |s| > 0
    ensures NonIncreasing(s[1..])
    ensures forall j :: 0 <= j < |s[1..]| ==> s[0].count >= s[1..][j].count
  {
    var t := s[1..];
    assert forall j :: 0 <= j < |t| ==> t[j] == s[j + 1];
  }

  /** Inserting into a sorted list keeps it sorted. */
  lemma {:induction false} InsertSorted(s: seq<GenreCount>, x: GenreCount)
    requires NonIncreasing(s)
    ensures NonIncreasing(Insert(s, x))
    decreases |s|
  {
    if |s| == 0 {
    } else if s[0].count >= x.count {
      var rest := s[1..];
      NonIncreasingTail(s);
      InsertSorted(rest, x);
      var t := Insert(rest, x);
      forall j | 0 <= j < |t|
        ensures s[0].count >= t[j].count
      {
        InsertMembers(rest, x, t[j]);
      }
      NonIncreasingCons(s[0], t);
    } else {
      NonIncreasingCons(x, s);
    }
  }

  /** `WithCount` of a non-empty list, by its first entry. */
  lemma WithCountCons(s: seq<GenreCount>, c: nat)
    requires |s| > 0
    ensures WithCount(s, c) == (if s[0].count == c then [s[0]] else []) + WithCount(s[1..], c)
  {
  }

  /** Inserting places `x` after every entry of equal count. */
  lemma {:induction false} InsertWithCount(s: seq<GenreCount>, x: GenreCount, c: nat)
    requires NonIncreasing(s)
    ensures WithCount(Insert(s, x), c) == WithCount(s, c) + (if x.count == c then [x] else [])
    decreases |s|
  {
    if |s| == 0 {
      WithCountCons([x], c);
      assert [x][1..] == [];
    } else if s[0].count >= x.count {
      var rest := s[1..];
      NonIncreasingTail(s);
      InsertWithCount(rest, x, c);
      var r := Insert(s, x);
      assert r == [s[0]] + Insert(rest, x);
      assert r[1..] == Insert(rest, x);
      WithCountCons(r, c);
      WithCountCons(s, c);
    } else {
      var r := [x] + s;
      assert r[1..] == s;
      WithCountCons(r, c);
      if x.count == c {
        forall j | 0 <= j < |s|
          ensures s[j].count < c
        {
        }
        WithCountAbsent(s, c);
      }
    }
  }

  /** Stable sort by decreasing count: the entries are inserted one by one,
      in input order, each after all entries of greater or equal count. */
  function SortByCount(s: seq<GenreCount>): (r: seq<GenreCount>)
    ensures NonIncreasing(r)
    ensures multiset(r) == multiset(s)
    ensures forall c :: WithCount(r, c) == WithCount(s, c)
  {
    if |s| == 0 then []
    else
      var init := s[..|s| - 1];
      var x := s[|s| - 1];
      assert s == init + [x];
      var sorted := SortByCount(init);
      InsertSorted(sorted, x);
      InsertMultiset(sorted, x);
      forall c
        ensures WithCount(Insert(sorted, x), c) == WithCount(s, c)
      {
        WithCountAppend(init, x, c);
        InsertWithCount(sorted, x, c);
      }
      Insert(sorted, x)
  }

  /** The first entry of a list heads its count's subsequence. */
  lemma WithCountHead(s: seq<GenreCount>)
    ensures |s| > 0 ==> WithCount(s, s[0].count) != [] && WithCount(s, s[0].count)[0] == s[0]
  {
  }

  /** A stable sort by decreasing count has only one possible result: two
      non-increasing lists that agree on every `WithCount` subsequence are
      equal. Any stable sort of the counts therefore yields `SortByCount`. */
  lemma {:induction false} StableSortUnique(a: seq<GenreCount>, b: seq<GenreCount>)
    requires NonIncreasing(a) && NonIncreasing(b)
    requires forall c :: WithCount(a, c) == WithCount(b, c)
    ensures a == b
    decreases |a| + |b|
  {
    if |a| == 0 || |b| == 0 {
      WithCountHead(a);
      WithCountHead(b);
    } else {
      var ca, cb := a[0].count, b[0].count;
      if ca > cb {
        WithCountAbsent(b, ca);
      } else if cb > ca {
        WithCountAbsent(a, cb);
      }
      assert ca == cb;
      assert WithCount(a, ca)[0] == a[0] && WithCount(b, ca)[0] == b[0];
      assert a[0] == b[0];
      forall c
        ensures WithCount(a[1..], c) == WithCount(b[1..], c)
      {
        var h := if ca == c then [a[0]] else [];
        assert WithCount(a, c) == h + WithCount(a[1..], c);
        assert WithCount(b, c) == h + WithCount(b[1..], c);
        assert WithCount(a[1..], c) == WithCount(a, c)[|h|..];
        assert WithCount(b[1..], c) == WithCount(b, c)[|h|..];
      }
      StableSortUnique(a[1..], b[1..]);
      assert a == [a[0]] + a[1..] && b == [b[0]] + b[1..];
    }
  }

  /** The subsequence of count `c` holds exactly the entries of count `c`. */
  lemma {:induction false} WithCountMembers(s: seq<GenreCount>, c: nat)
    ensures forall y :: y in WithCount(s, c) <==> y in s && y.count == c
    decreases |s|
  {
    if |s| > 0 {
      WithCountMembers(s[1..], c);
      WithCountCons(s, c);
      assert s == [s[0]] + s[1..];
    }
  }

  /** Order is kept when a prefix is put in front. */
  lemma BeforeExtend(h: seq<GenreCount>, t: seq<GenreCount>, x: GenreCount, y: GenreCount)
    requires Before(t, x, y)
    ensures Before(h + t, x, y)
  {
    var p, q :| 0 <= p < q < |t| && t[p] == x && t[q] == y;
    assert (h + t)[|h| + p] == x && (h + t)[|h| + q] == y;
  }

  /** A head comes before every entry of the tail. */
  lemma BeforeHead(x: GenreCount, t: seq<GenreCount>, y: GenreCount)
    requires y in t
    ensures Before([x] + t, x, y)
  {
    var q :| 0 <= q < |t| && t[q] == y;
    assert ([x] + t)[0] == x && ([x] + t)[q + 1] == y;
  }

  /** Order in a list with a head of at most one entry: either the head
      comes first, or the order is already in the tail. */
  lemma BeforeSplit(h: seq<GenreCount>, t: seq<GenreCount>, x: GenreCount, y: GenreCount)
    requires |h| <= 1 && Before(h + t, x, y)
    ensures (|h| == 1 && x == h[0] && y in t) || Before(t, x, y)
  {
    var w := h + t;
    var p, q :| 0 <= p < q < |w| && w[p] == x && w[q] == y;
    assert w[q] == t[q - |h|];
    if p >= |h| {
      assert w[p] == t[p - |h|];
    }
  }

  /** Two entries of equal count keep their relative order in that count's
      subsequence. */
  lemma {:induction false} BeforeInWithCount(s: seq<GenreCount>, i: nat, j: nat)
    requires i < j < |s| && s[i].count == s[j].count
    ensures Before(WithCount(s, s[i].count), s[i], s[j])
    decreases |s|
  {
    var c := s[i].count;
    var w' := WithCount(s[1..], c);
    WithCountCons(s, c);
    assert s[1..][j - 1] == s[j];
    if i == 0 {
      WithCountMembers(s[1..], c);
      BeforeHead(s[0], w', s[j]);
    } else {
      assert s[1..][i - 1] == s[i];
      BeforeInWithCount(s[1..], i - 1, j - 1);
      BeforeExtend(if s[0].count == c then [s[0]] else [], w', s[i], s[j]);
    }
  }

  /** Order in a subsequence is order in the whole list. */
  lemma {:induction false} BeforeFromWithCount(s: seq<GenreCount>, c: nat, x: GenreCount, y: GenreCount)
    requires Before(WithCount(s, c), x, y)
    ensures Before(s, x, y)
    decreases |s|
  {
    var h := if s[0].count == c then [s[0]] else [];
    var w' := WithCount(s[1..], c);
    WithCountCons(s, c);
    BeforeSplit(h, w', x, y);
    assert s == [s[0]] + s[1..];
    if |h| == 1 && x == h[0] && y in w' {
      WithCountMembers(s[1..], c);
      BeforeHead(s[0], s[1..], y);
    } else {
      BeforeFromWithCount(s[1..], c, x, y);
      BeforeExtend([s[0]], s[1..], x, y);
    }
  }

  /** The ranking: the genre counts, stably sorted by decreasing count. */
  function Ranking(tracks: seq<Track>): (r: seq<GenreCount>)
    ensures NonIncreasing(r)
    ensures multiset(r) == multiset(GenreCounts(tracks))
    ensures |r| == |Keys(tracks, GenreOf)|
  {
    var r := SortByCount(GenreCounts(tracks));
    assert |multiset(r)| == |multiset(GenreCounts(tracks))|;
    r
  }

  /** Lists that are permutations of each other have the same length and
      the same members. */
  lemma SameMembers(a: seq<GenreCount>, b: seq<GenreCount>)
    requires multiset(a) == multiset(b)
    ensures |a| == |b|
    ensures forall i :: 0 <= i < |a| ==> a[i] in b
    ensures forall p :: 0 <= p < |b| ==> b[p] in a
  {
    assert |multiset(a)| == |multiset(b)|;
    forall i | 0 <= i < |a|
      ensures a[i] in b
    {
      assert a[i] in multiset(a);
    }
    forall p | 0 <= p < |b|
      ensures b[p] in a
    {
      assert b[p] in multiset(b);
    }
  }

  /** The ranked entries are the genre counts, permuted. */
  lemma RankingPermutes(tracks: seq<Track>)
    ensures |Ranking(tracks)| == |GenreCounts(tracks)|
    ensures forall i :: 0 <= i < |Ranking(tracks)| ==> Ranking(tracks)[i] in GenreCounts(tracks)
    ensures forall p :: 0 <= p < |GenreCounts(tracks)| ==> GenreCounts(tracks)[p] in Ranking(tracks)
  {
    SameMembers(Ranking(tracks), GenreCounts(tracks));
  }

  /** Each ranked genre occurs in the input and carries its number of tracks. */
  lemma RankingCounts(tracks: seq<Track>)
    ensures |Ranking(tracks)| == |Keys(tracks, GenreOf)|
    ensures forall i :: 0 <= i < |Ranking(tracks)| ==>
              Ranking(tracks)[i].count == CountOf(tracks, Ranking(tracks)[i].genre)
              && Occurs(tracks, GenreOf, Ranking(tracks)[i].genre)
  {
    var gc := GenreCounts(tracks);
    var ks := Keys(tracks, GenreOf);
    var r := Ranking(tracks);
    RankingPermutes(tracks);
    forall i | 0 <= i < |r|
      ensures r[i].count == CountOf(tracks, r[i].genre) && Occurs(tracks, GenreOf, r[i].genre)
    {
      var p :| 0 <= p < |gc| && gc[p] == r[i];
      assert ks[p] in ks;
    }
  }

  /** Each genre of the input is ranked. */
  lemma RankingComplete(tracks: seq<Track>)
    ensures forall g :: Occurs(tracks, GenreOf, g) ==>
              exists i :: 0 <= i < |Ranking(tracks)| && Ranking(tracks)[i].genre == g
  {
    forall g | Occurs(tracks, GenreOf, g)
      ensures exists i :: 0 <= i < |Ranking(tracks)| && Ranking(tracks)[i].genre == g
    {
      RankedGenre(tracks, g);
    }
  }

  /** One genre of the input is ranked. */
  lemma RankedGenre(tracks: seq<Track>, g: string)
    requires Occurs(tracks, GenreOf, g)
    ensures exists i :: 0 <= i < |Ranking(tracks)| && Ranking(tracks)[i].genre == g
  {
    var gc := GenreCounts(tracks);
    assert exists p :: 0 <= p < |gc| && gc[p].genre == g by {
      var ks := Keys(tracks, GenreOf);
      assert g in ks;
      var p :| 0 <= p < |ks| && ks[p] == g;
      assert gc[p].genre == g;
    }
    var p :| 0 <= p < |gc| && gc[p].genre == g;
    var r := Ranking(tracks);
    assert gc[p] in r by {
      RankingPermutes(tracks);
    }
    var i :| 0 <= i < |r| && r[i] == gc[p];
  }

  /** The genre counts name no genre twice. */
  lemma GenreCountsDistinct(tracks: seq<Track>)
    ensures forall i, j :: 0 <= i < j < |GenreCounts(tracks)| ==> GenreCounts(tracks)[i].genre != GenreCounts(tracks)[j].genre
  {
    var ks := Keys(tracks, GenreOf);
    assert Distinct(ks);
  }

  /** No genre is ranked twice. */
  lemma RankingDistinct(tracks: seq<Track>)
    ensures forall i, j :: 0 <= i < j < |Ranking(tracks)| ==> Ranking(tracks)[i].genre != Ranking(tracks)[j].genre
  {
    var gc := GenreCounts(tracks);
    var r := Ranking(tracks);
    RankingCounts(tracks);
    GenreCountsDistinct(tracks);
    assert multiset(r) == multiset(gc);
    forall i, j | 0 <= i < j < |r|
      ensures r[i].genre != r[j].genre
    {
      if r[i].genre == r[j].genre {
        assert r[i] == r[j];
        DistinctMultiplicity(gc, r[i]);
        TwoPositionsMultiplicity(r, i, j);
      }
    }
  }

  /** Two ranked genres of equal count, in ranking order, appear in that
      order in the input. */
  lemma RankingStablePair(tracks: seq<Track>, i: nat, j: nat)
    requires i < j < |Ranking(tracks)| && Ranking(tracks)[i].count == Ranking(tracks)[j].count
    ensures FirstIndex(tracks, GenreOf, Ranking(tracks)[i].genre) < FirstIndex(tracks, GenreOf, Ranking(tracks)[j].genre)
  {
    var gc := GenreCounts(tracks);
    var ks := Keys(tracks, GenreOf);
    var r := Ranking(tracks);
    var c := r[i].count;
    BeforeInWithCount(r, i, j);
    assert WithCount(r, c) == WithCount(gc, c);
    BeforeFromWithCount(gc, c, r[i], r[j]);
    var p, q :| 0 <= p < q < |gc| && gc[p] == r[i] && gc[q] == r[j];
    assert ks[p] == r[i].genre && ks[q] == r[j].genre;
  }

  /** Genres of equal count are ranked in order of first appearance. */
  lemma RankingStable(tracks: seq<Track>)
    ensures forall i, j :: 0 <= i < j < |Ranking(tracks)| && Ranking(tracks)[i].count == Ranking(tracks)[j].count ==>
              FirstIndex(tracks, GenreOf, Ranking(tracks)[i].genre) < FirstIndex(tracks, GenreOf, Ranking(tracks)[j].genre)
  {
    var r := Ranking(tracks);
    forall i, j | 0 <= i < j < |r| && r[i].count == r[j].count
      ensures FirstIndex(tracks, GenreOf, r[i].genre) < FirstIndex(tracks, GenreOf, r[j].genre)
    {
      RankingStablePair(tracks, i, j);
    }
  }

  /** In a list without repeated genres, an entry occurs at most once. */
  lemma {:induction false} DistinctMultiplicity(s: seq<GenreCount>, x: GenreCount)
    requires forall i, j :: 0 <= i < j < |s| ==> s[i].genre != s[j].genre
    ensures multiset(s)[x] <= 1
    decreases |s|
  {
    if |s| > 0 {
      var init := s[..|s| - 1];
      assert s == init + [s[|s| - 1]];
      DistinctMultiplicity(init, x);
    }
  }

  /** An entry at two positions occurs at least twice. */
  lemma TwoPositionsMultiplicity(s: seq<GenreCount>, i: nat, j: nat)
    requires i < j < |s| && s[i] == s[j]
    ensures multiset(s)[s[i]] >= 2
  {
    var x := s[i];
    assert s == s[..i] + [x] + s[i + 1..j] + [x] + s[j + 1..];
  }

  /** Genre `g1` ranks above genre `g2`: it has more tracks, or as many and
      an earlier first appearance. */
  predicate Outranks(tracks: seq<Track>, g1: string, g2: string) {
    || CountOf(tracks, g1) > CountOf(tracks, g2)
    || (CountOf(tracks, g1) == CountOf(tracks, g2)
        && FirstIndex(tracks, GenreOf, g1) < FirstIndex(tracks, GenreOf, g2))
  }

  /** Every ranked genre outranks every genre ranked after it. */
  lemma RankingOrder(tracks: seq<Track>, i: nat, j: nat)
    requires i < j < |Ranking(tracks)|
    ensures Outranks(tracks, Ranking(tracks)[i].genre, Ranking(tracks)[j].genre)
  {
    RankingCounts(tracks);
    RankingStable(tracks);
  }

  /** The names of the first `MaxGenres` ranked genres (all of them if there
      are fewer). */
  function TopGenres(tracks: seq<Track>): (gs: seq<string>)
    ensures |gs| <= MaxGenres && |gs| <= |Ranking(tracks)|
    ensures forall i :: 0 <= i < |gs| ==> gs[i] == Ranking(tracks)[i].genre
  {
    var r := Ranking(tracks);
    var n := if |r| < MaxGenres then |r| else MaxGenres;
    seq(n, i requires 0 <= i < n => r[i].genre)
  }

  /** The kept genres: as many as the diagram allows, none twice, each
      occurring in the input, in order of decreasing number of tracks, and
      genres with equal numbers of tracks in order of first appearance. */
  lemma TopGenresRanked(tracks: seq<Track>)
    ensures |TopGenres(tracks)| == if |Keys(tracks, GenreOf)| < MaxGenres then |Keys(tracks, GenreOf)| else MaxGenres
    ensures Distinct(TopGenres(tracks))
    ensures forall i :: 0 <= i < |TopGenres(tracks)| ==> Occurs(tracks, GenreOf, TopGenres(tracks)[i])
    ensures forall i, j :: 0 <= i < j < |TopGenres(tracks)| ==>
              CountOf(tracks, TopGenres(tracks)[i]) > CountOf(tracks, TopGenres(tracks)[j])
              || (CountOf(tracks, TopGenres(tracks)[i]) == CountOf(tracks, TopGenres(tracks)[j])
                  && FirstIndex(tracks, GenreOf, TopGenres(tracks)[i]) < FirstIndex(tracks, GenreOf, TopGenres(tracks)[j]))
  {
    var r := Ranking(tracks);
    var gs := TopGenres(tracks);
    RankingCounts(tracks);
    RankingDistinct(tracks);
    RankingStable(tracks);
    assert NonIncreasing(r);
    forall i, j | 0 <= i < j < |gs|
      ensures gs[i] != gs[j]
    {
      assert gs[i] == r[i].genre && gs[j] == r[j].genre;
    }
  }

  /** A genre of the input that is not kept loses to every kept genre: the
      diagram is full, and each kept genre has more tracks, or as many and
      an earlier first appearance. */
  lemma TopGenresExcluded(tracks: seq<Track>, g: string)
    requires Occurs(tracks, GenreOf, g) && g !in TopGenres(tracks)
    ensures |TopGenres(tracks)| == MaxGenres
    ensures forall i :: 0 <= i < |TopGenres(tracks)| ==> Outranks(tracks, TopGenres(tracks)[i], g)
  {
    var r := Ranking(tracks);
    var gs := TopGenres(tracks);
    RankingComplete(tracks);
    var k :| 0 <= k < |r| && r[k].genre == g;
    assert |gs| <= k;
    forall i | 0 <= i < |gs|
      ensures Outranks(tracks, gs[i], g)
    {
      RankingOrder(tracks, i, k);
    }
  }

  /** The genre-to-index lookup table built from a list of entries: when a
      name appears twice, the later entry wins. */
  function IndexMap(gs: seq<string>): (idx: map<string, nat>)
    ensures forall g :: g in idx <==> g in gs
    ensures forall g :: g in idx ==> idx[g] < |gs| && gs[idx[g]] == g
    ensures forall g, k :: g in idx && idx[g] < k < |gs| ==> gs[k] != g
  {
    if |gs| == 0 then map[]
    else
      var init := gs[..|gs| - 1];
      assert forall i :: 0 <= i < |init| ==> init[i] == gs[i];
      assert gs == init + [gs[|gs| - 1]];
      IndexMap(init)[gs[|gs| - 1] := |gs| - 1]
  }

  /** Over a list without repeated names, the table gives every name its
      own position. */
  lemma IndexMapPositions(gs: seq<string>)
    requires Distinct(gs)
    ensures forall i :: 0 <= i < |gs| ==> gs[i] in IndexMap(gs) && IndexMap(gs)[gs[i]] == i
  {
  }
}
