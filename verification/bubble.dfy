/** The loudness-energy bubble chart: the tracks are binned by loudness
    (bins two decibels wide) and, within each loudness bin, by energy (bins
    ten units wide); each occupied pair of bins becomes one bubble carrying
    the mean loudness, mean energy and mean popularity of its tracks and
    their number. */
module BubbleChart {
  import opened Tracks
  import opened Rollup
  import opened Stats

  /** Width of a loudness bin, in decibels. */
  const LoudnessBinSize: int := 2

  /** Width of an energy bin. */
  const EnergyBinSize: int := 10

  /** Product of reals keeps the order of its first factor when the second
      is positive. */
  lemma ScaleMonotone(a: real, b: real, c: real)
    requires a <= b && c > 0.0
    ensures a * c <= b * c
  {
  }

  lemma ScaleStrict(a: real, b: real, c: real)
    requires a < b && c > 0.0
    ensures a * c < b * c
  {
  }

  /** Converting a product of integers to a real gives the product of the
      converted factors. */
  lemma CastProduct(a: int, b: int)
    ensures (a * b) as real == a as real * b as real
  {
  }

  /** Lower edge of the bin of width `w` holding `v`: `v / w` rounded down
      (towards minus infinity, also for negative `v`), times `w`. The bin
      from the edge to the edge plus `w` holds `v`. */
  function BinKey(v: real, w: int): (k: int)
    requires w > 0
    ensures exists q: int :: k == q * w
    ensures k as real <= v < (k + w) as real
  {
    var W := w as real;
    var q := v / W;
    var f := q.Floor;
    assert q * W == v;
    ScaleMonotone(f as real, q, W);
    ScaleStrict(q, (f + 1) as real, W);
    CastProduct(f, w);
    CastProduct(f + 1, w);
    assert (f + 1) * w == f * w + w;
    assert f as real <= q;
    assert q < (f + 1) as real;
    assert f as real * W <= v;
    assert v < (f + 1) as real * W;
    assert (f * w) as real <= v;
    assert v < ((f + 1) * w) as real;
    f * w
  }

  /** The loudness bin of a track: an even number of decibels, at most the
      track's loudness and less than two below it. */
  function LoudnessBin(t: Track): (k: int)
    ensures k % LoudnessBinSize == 0
    ensures k as real <= t.loudness < (k + LoudnessBinSize) as real
  {
    BinKey(t.loudness, LoudnessBinSize)
  }

  /** The energy bin of a track: a multiple of ten, at most the track's
      energy and less than ten below it. */
  function EnergyBin(t: Track): (k: int)
    ensures k % EnergyBinSize == 0
    ensures k as real <= t.energy < (k + EnergyBinSize) as real
  {
    BinKey(t.energy, EnergyBinSize)
  }

  /** The loudness bin is the only even number whose bin holds the track's
      loudness. */
  lemma LoudnessBinUnique(t: Track, k: int)
    requires k % LoudnessBinSize == 0
    requires k as real <= t.loudness < (k + LoudnessBinSize) as real
    ensures k == LoudnessBin(t)
  {
    var b := LoudnessBin(t);
    assert k - b < LoudnessBinSize && b - k < LoudnessBinSize;
  }

  /** The energy bin is the only multiple of ten whose bin holds the
      track's energy. */
  lemma EnergyBinUnique(t: Track, k: int)
    requires k % EnergyBinSize == 0
    requires k as real <= t.energy < (k + EnergyBinSize) as real
    ensures k == EnergyBin(t)
  {
    var b := EnergyBin(t);
    assert k - b < EnergyBinSize && b - k < EnergyBinSize;
  }

  /** One occupied pair of bins, with the tracks that fall into it in input
      order. */
  datatype Cell = Cell(loudnessBin: int, energyBin: int, members: seq<Track>)

  /** What one bubble shows. */
  datatype Bubble = Bubble(loudness: real, energy: real, popularity: real, count: nat)

  /** The energy bins of one loudness bin, in order of first appearance
      within that loudness bin. */
  function RowCells(tracks: seq<Track>, l: int): (cs: seq<Cell>)
    ensures |cs| == |Keys(Group(tracks, LoudnessBin, l), EnergyBin)|
    ensures forall i :: 0 <= i < |cs| ==> cs[i].loudnessBin == l
  {
    var g := Group(tracks, LoudnessBin, l);
    var es := Keys(g, EnergyBin);
    seq(|es|, i requires 0 <= i < |es| => Cell(l, es[i], Group(g, EnergyBin, es[i])))
  }

  /** The cells of the loudness bins `ls`, one loudness bin after the other. */
  function CellsOf(tracks: seq<Track>, ls: seq<int>): seq<Cell> {
    if |ls| == 0 then []
    else CellsOf(tracks, ls[..|ls| - 1]) + RowCells(tracks, ls[|ls| - 1])
  }

  /** The nested grouping flattened: loudness bins in order of first
      appearance, and within each the energy bins in order of first
      appearance among that loudness bin's tracks. */
  function Cells(tracks: seq<Track>): (cs: seq<Cell>)
    ensures forall i :: 0 <= i < |cs| ==> Occurs(tracks, LoudnessBin, cs[i].loudnessBin)
  {
    var ls := Keys(tracks, LoudnessBin);
    CellsOfMembers(tracks, ls);
    var cs := CellsOf(tracks, ls);
    assert forall i :: 0 <= i < |cs| ==> cs[i] in cs;
    cs
  }

  /** The bubble of a non-empty cell: the means of its tracks' columns and
      their number. */
  function Summarize(v: seq<Track>): Bubble
    requires |v| > 0
  {
    Bubble(Mean(Column(v, LoudnessOf)), Mean(Column(v, EnergyOf)), Mean(Column(v, PopularityOf)), |v|)
  }

  /** The tracks whose two bin edges are `l` and `e`. */
  predicate InBins(t: Track, l: int, e: int) {
    LoudnessBin(t) == l && EnergyBin(t) == e
  }

  /** A cell of `RowCells` holds exactly the tracks in its pair of bins, and
      at least one. */
  lemma RowCellMembers(tracks: seq<Track>, l: int, i: nat)
    requires i < |RowCells(tracks, l)|
    ensures var c := RowCells(tracks, l)[i];
            && |c.members| > 0
            && forall t :: t in c.members <==> t in tracks && InBins(t, c.loudnessBin, c.energyBin)
  {
    var g := Group(tracks, LoudnessBin, l);
    var es := Keys(g, EnergyBin);
    assert es[i] in es;
    GroupNonEmpty(g, EnergyBin, es[i]);
  }

  /** The cells every track falls into. */
  function PairKey(t: Track): (int, int) {
    (LoudnessBin(t), EnergyBin(t))
  }

  /** The energy group of a loudness group is the group of the pair of
      bins. */
  lemma {:induction false} NestedGroup(xs: seq<Track>, l: int, e: int)
    ensures Group(Group(xs, LoudnessBin, l), EnergyBin, e) == Group(xs, PairKey, (l, e))
    decreases |xs|
  {
    if |xs| > 0 {
      var init := xs[..|xs| - 1];
      var x := xs[|xs| - 1];
      assert xs == init + [x];
      NestedGroup(init, l, e);
      NestedGroupStep(init, x, l, e);
    }
  }

  /** One step of `NestedGroup`: appending a track keeps the two groupings
      equal. */
  lemma NestedGroupStep(init: seq<Track>, x: Track, l: int, e: int)
    requires Group(Group(init, LoudnessBin, l), EnergyBin, e) == Group(init, PairKey, (l, e))
    ensures Group(Group(init + [x], LoudnessBin, l), EnergyBin, e) == Group(init + [x], PairKey, (l, e))
  {
    var g := Group(init, LoudnessBin, l);
    var p := Group(init, PairKey, (l, e));
    GroupExtend(init, x, LoudnessBin, l);
    GroupExtend(init, x, PairKey, (l, e));
    if LoudnessBin(x) == l {
      assert Group(init + [x], LoudnessBin, l) == g + [x];
      GroupExtend(g, x, EnergyBin, e);
      if EnergyBin(x) == e {
        assert Group(init + [x], PairKey, (l, e)) == p + [x];
      } else {
        assert Group(init + [x], PairKey, (l, e)) == p;
      }
    } else {
      assert Group(init + [x], LoudnessBin, l) == g;
      assert Group(init + [x], PairKey, (l, e)) == p;
    }
  }

  /** Membership in the cells of a list of loudness bins. */
  lemma {:induction false} CellsOfMembers(tracks: seq<Track>, ls: seq<int>)
    ensures forall c :: c in CellsOf(tracks, ls) <==> c.loudnessBin in ls && c in RowCells(tracks, c.loudnessBin)
    decreases |ls|
  {
    if |ls| > 0 {
      var init := ls[..|ls| - 1];
      var l := ls[|ls| - 1];
      assert ls == init + [l];
      CellsOfMembers(tracks, init);
    }
  }

  /** Two cells of the same row with the same energy bin are the same cell. */
  lemma RowCellsDistinct(tracks: seq<Track>, l: int)
    ensures forall i, j :: 0 <= i < j < |RowCells(tracks, l)| ==>
              RowCells(tracks, l)[i].energyBin != RowCells(tracks, l)[j].energyBin
  {
    var g := Group(tracks, LoudnessBin, l);
    assert Distinct(Keys(g, EnergyBin));
  }

  /** No pair of bins appears twice among the cells of distinct loudness bins. */
  lemma {:induction false} CellsOfDistinct(tracks: seq<Track>, ls: seq<int>)
    requires Distinct(ls)
    ensures forall i, j :: 0 <= i < j < |CellsOf(tracks, ls)| ==>
              (CellsOf(tracks, ls)[i].loudnessBin, CellsOf(tracks, ls)[i].energyBin)
              != (CellsOf(tracks, ls)[j].loudnessBin, CellsOf(tracks, ls)[j].energyBin)
    decreases |ls|
  {
    if |ls| > 0 {
      var init := ls[..|ls| - 1];
      var l := ls[|ls| - 1];
      assert ls == init + [l];
      CellsOfDistinct(tracks, init);
      CellsOfMembers(tracks, init);
      RowCellsDistinct(tracks, l);
      AppendRowDistinct(CellsOf(tracks, init), RowCells(tracks, l), l);
    }
  }

  /** Cells with pairwise different bins, followed by the cells of one
      loudness bin that none of them has, still have pairwise different
      bins. */
  lemma AppendRowDistinct(front: seq<Cell>, row: seq<Cell>, l: int)
    requires forall i, j :: 0 <= i < j < |front| ==>
               (front[i].loudnessBin, front[i].energyBin) != (front[j].loudnessBin, front[j].energyBin)
    requires forall i, j :: 0 <= i < j < |row| ==> row[i].energyBin != row[j].energyBin
    requires forall i :: 0 <= i < |row| ==> row[i].loudnessBin == l
    requires forall c :: c in front ==> c.loudnessBin != l
    ensures forall i, j :: 0 <= i < j < |front + row| ==>
              ((front + row)[i].loudnessBin, (front + row)[i].energyBin)
              != ((front + row)[j].loudnessBin, (front + row)[j].energyBin)
  {
    var cs := front + row;
    forall i, j | 0 <= i < j < |cs|
      ensures (cs[i].loudnessBin, cs[i].energyBin) != (cs[j].loudnessBin, cs[j].energyBin)
    {
      if i < |front| && j >= |front| {
        assert cs[i] == front[i] && cs[i] in front;
        assert cs[j] == row[j - |front|];
      } else if i >= |front| {
        assert cs[i] == row[i - |front|] && cs[j] == row[j - |front|];
      } else {
        assert cs[i] == front[i] && cs[j] == front[j];
      }
    }
  }

  /** Cell `c` precedes cell `d` in the order of the nested grouping: an
      earlier first appearance of its loudness bin in the input, or the same
      loudness bin and an earlier first appearance of its energy bin among
      that loudness bin's tracks. */
  predicate CellBefore(tracks: seq<Track>, c: Cell, d: Cell) {
    if c.loudnessBin == d.loudnessBin then
      FirstIndex(Group(tracks, LoudnessBin, c.loudnessBin), EnergyBin, c.energyBin)
      < FirstIndex(Group(tracks, LoudnessBin, c.loudnessBin), EnergyBin, d.energyBin)
    else
      FirstIndex(tracks, LoudnessBin, c.loudnessBin) < FirstIndex(tracks, LoudnessBin, d.loudnessBin)
  }

  /** Within one loudness bin, energy bins come in order of first
      appearance among that loudness bin's tracks. */
  lemma RowCellsOrder(tracks: seq<Track>, l: int)
    ensures forall i, j :: 0 <= i < j < |RowCells(tracks, l)| ==>
              FirstIndex(Group(tracks, LoudnessBin, l), EnergyBin, RowCells(tracks, l)[i].energyBin)
              < FirstIndex(Group(tracks, LoudnessBin, l), EnergyBin, RowCells(tracks, l)[j].energyBin)
  {
  }

  /** The cells of loudness bins listed in order of first appearance come
      grouped by loudness bin, the loudness bins in that order, and within a
      loudness bin the energy bins in order of first appearance among its
      tracks. */
  lemma {:induction false} CellsOfOrder(tracks: seq<Track>, ls: seq<int>)
    requires forall p, q :: 0 <= p < q < |ls| ==>
               FirstIndex(tracks, LoudnessBin, ls[p]) < FirstIndex(tracks, LoudnessBin, ls[q])
    ensures forall i, j :: 0 <= i < j < |CellsOf(tracks, ls)| ==>
              CellBefore(tracks, CellsOf(tracks, ls)[i], CellsOf(tracks, ls)[j])
    decreases |ls|
  {
    if |ls| > 0 {
      var init := ls[..|ls| - 1];
      var l := ls[|ls| - 1];
      var front := CellsOf(tracks, init);
      var row := RowCells(tracks, l);
      var cs := CellsOf(tracks, ls);
      assert cs == front + row;
      CellsOfOrder(tracks, init);
      CellsOfMembers(tracks, init);
      RowCellsOrder(tracks, l);
      var g := Group(tracks, LoudnessBin, l);
      forall i, j | 0 <= i < j < |cs|
        ensures CellBefore(tracks, cs[i], cs[j])
      {
        if i < |front| && j >= |front| {
          assert cs[i] == front[i] && cs[i] in front;
          assert cs[j] == row[j - |front|];
          var p :| 0 <= p < |init| && init[p] == cs[i].loudnessBin;
          assert ls[p] == init[p];
          assert cs[i].loudnessBin != l by {
            assert FirstIndex(tracks, LoudnessBin, ls[p]) < FirstIndex(tracks, LoudnessBin, ls[|ls| - 1]);
          }
        } else if i >= |front| {
          assert cs[i] == row[i - |front|] && cs[j] == row[j - |front|];
        } else {
          assert cs[i] == front[i] && cs[j] == front[j];
        }
      }
    }
  }

  /** Number of tracks in a cell. */
  function SizeOf(c: Cell): nat {
    |c.members|
  }

  /** The cells of one loudness bin hold all of its tracks. */
  lemma {:induction false} RowCellsSumPrefix(g: seq<Track>, l: int, es: seq<int>)
    ensures Total(seq(|es|, i requires 0 <= i < |es| => Cell(l, es[i], Group(g, EnergyBin, es[i]))), SizeOf)
            == SumGroupSizes(g, EnergyBin, es)
    decreases |es|
  {
    var cs := seq(|es|, i requires 0 <= i < |es| => Cell(l, es[i], Group(g, EnergyBin, es[i])));
    if |es| > 0 {
      var init := es[..|es| - 1];
      RowCellsSumPrefix(g, l, init);
      var cs' := seq(|init|, i requires 0 <= i < |init| => Cell(l, init[i], Group(g, EnergyBin, init[i])));
      assert cs[..|cs| - 1] == cs';
    }
  }

  lemma RowCellsSum(tracks: seq<Track>, l: int)
    ensures Total(RowCells(tracks, l), SizeOf) == |Group(tracks, LoudnessBin, l)|
  {
    var g := Group(tracks, LoudnessBin, l);
    RowCellsSumPrefix(g, l, Keys(g, EnergyBin));
    GroupsPartition(g, EnergyBin);
  }

  lemma {:induction false} CellsOfSum(tracks: seq<Track>, ls: seq<int>)
    ensures Total(CellsOf(tracks, ls), SizeOf) == SumGroupSizes(tracks, LoudnessBin, ls)
    decreases |ls|
  {
    if |ls| > 0 {
      var init := ls[..|ls| - 1];
      var l := ls[|ls| - 1];
      CellsOfSum(tracks, init);
      TotalAppend(CellsOf(tracks, init), RowCells(tracks, l), SizeOf);
      RowCellsSum(tracks, l);
    }
  }

  /** The chart's data: one bubble per occupied pair of bins, in the order
      of `Cells`. */
  function Bubbles(tracks: seq<Track>): (bs: seq<Bubble>)
    ensures |bs| == |Cells(tracks)|
  {
    var cs := Cells(tracks);
    seq(|cs|, i requires 0 <= i < |cs| =>
      CellMembers(tracks, i);
      Summarize(cs[i].members))
  }

  /** Every cell holds the input's tracks in its pair of bins, in input
      order and each as often as in the input, and at least one. */
  lemma CellMembers(tracks: seq<Track>, i: nat)
    requires i < |Cells(tracks)|
    ensures var c := Cells(tracks)[i];
            && c.members == Group(tracks, PairKey, (c.loudnessBin, c.energyBin))
            && |c.members| > 0
            && forall t :: t in c.members <==> t in tracks && InBins(t, c.loudnessBin, c.energyBin)
  {
    var cs := Cells(tracks);
    var c := cs[i];
    CellsOfMembers(tracks, Keys(tracks, LoudnessBin));
    assert c in cs;
    var row := RowCells(tracks, c.loudnessBin);
    var k :| 0 <= k < |row| && row[k] == c;
    RowCellMembers(tracks, c.loudnessBin, k);
    NestedGroup(tracks, c.loudnessBin, c.energyBin);
  }

  /** A cell's pair of bins is occupied by some track. */
  lemma CellOccupied(tracks: seq<Track>, i: nat)
    requires i < |Cells(tracks)|
    ensures Occurs(tracks, PairKey, (Cells(tracks)[i].loudnessBin, Cells(tracks)[i].energyBin))
  {
    var c := Cells(tracks)[i];
    CellMembers(tracks, i);
    var t := c.members[0];
    assert t in c.members;
    var p :| 0 <= p < |tracks| && tracks[p] == t;
    assert PairKey(tracks[p]) == (c.loudnessBin, c.energyBin);
  }

  /** An occupied pair of bins has a cell. */
  lemma OccupiedHasCell(tracks: seq<Track>, l: int, e: int)
    requires Occurs(tracks, PairKey, (l, e))
    ensures exists i :: 0 <= i < |Cells(tracks)| && Cells(tracks)[i].loudnessBin == l && Cells(tracks)[i].energyBin == e
  {
    var cs := Cells(tracks);
    CellsOfMembers(tracks, Keys(tracks, LoudnessBin));
    var p :| 0 <= p < |tracks| && PairKey(tracks[p]) == (l, e);
    var t := tracks[p];
    assert Occurs(tracks, LoudnessBin, l) by {
      assert LoudnessBin(tracks[p]) == l;
    }
    var g := Group(tracks, LoudnessBin, l);
    assert t in g;
    var q :| 0 <= q < |g| && g[q] == t;
    assert Occurs(g, EnergyBin, e) by {
      assert EnergyBin(g[q]) == e;
    }
    var es := Keys(g, EnergyBin);
    var k :| 0 <= k < |es| && es[k] == e;
    var row := RowCells(tracks, l);
    assert row[k].loudnessBin == l && row[k].energyBin == e;
    assert row[k] in row;
    assert row[k] in cs;
    var i :| 0 <= i < |cs| && cs[i] == row[k];
  }

  /** One cell per occupied pair of bins: no pair twice, and a pair has a
      cell exactly when some track falls into it. */
  lemma CellsArePairs(tracks: seq<Track>)
    ensures forall i, j :: 0 <= i < j < |Cells(tracks)| ==>
              (Cells(tracks)[i].loudnessBin, Cells(tracks)[i].energyBin)
              != (Cells(tracks)[j].loudnessBin, Cells(tracks)[j].energyBin)
    ensures forall l, e :: (exists i :: 0 <= i < |Cells(tracks)| && Cells(tracks)[i].loudnessBin == l && Cells(tracks)[i].energyBin == e)
              <==> Occurs(tracks, PairKey, (l, e))
  {
    var cs := Cells(tracks);
    CellsOfDistinct(tracks, Keys(tracks, LoudnessBin));
    forall l, e | exists i :: 0 <= i < |cs| && cs[i].loudnessBin == l && cs[i].energyBin == e
      ensures Occurs(tracks, PairKey, (l, e))
    {
      var i :| 0 <= i < |cs| && cs[i].loudnessBin == l && cs[i].energyBin == e;
      CellOccupied(tracks, i);
    }
    forall l, e | Occurs(tracks, PairKey, (l, e))
      ensures exists i :: 0 <= i < |cs| && cs[i].loudnessBin == l && cs[i].energyBin == e
    {
      OccupiedHasCell(tracks, l, e);
    }
  }

  /** A bubble counts the tracks in its pair of bins: its count is the
      number of input positions whose two bin edges are the cell's. */
  lemma BubbleCount(tracks: seq<Track>, i: nat)
    requires i < |Cells(tracks)|
    ensures var c := Cells(tracks)[i];
            && Bubbles(tracks)[i].count == |Group(tracks, PairKey, (c.loudnessBin, c.energyBin))|
            && Bubbles(tracks)[i].count == |Positions(tracks, PairKey, (c.loudnessBin, c.energyBin))|
            && Bubbles(tracks)[i].count >= 1
  {
    var cs := Cells(tracks);
    var c := cs[i];
    var ls := Keys(tracks, LoudnessBin);
    CellsOfMembers(tracks, ls);
    CellMembers(tracks, i);
    assert c in cs;
    var row := RowCells(tracks, c.loudnessBin);
    var k :| 0 <= k < |row| && row[k] == c;
    NestedGroup(tracks, c.loudnessBin, c.energyBin);
    GroupSizeIsCount(tracks, PairKey, (c.loudnessBin, c.energyBin));
  }

  /** Number of tracks a bubble counts. */
  function BubbleSize(b: Bubble): nat {
    b.count
  }

  /** Bubbles whose counts are the sizes of their cells add up to the cells'
      total size. */
  lemma {:induction false} SumCountsMatch(bs: seq<Bubble>, cs: seq<Cell>)
    requires |bs| == |cs|
    requires forall i :: 0 <= i < |bs| ==> bs[i].count == |cs[i].members|
    ensures Total(bs, BubbleSize) == Total(cs, SizeOf)
    decreases |bs|
  {
    if |bs| > 0 {
      SumCountsMatch(bs[..|bs| - 1], cs[..|cs| - 1]);
    }
  }

  lemma SumCountsIsSumSizes(tracks: seq<Track>)
    ensures Total(Bubbles(tracks), BubbleSize) == Total(Cells(tracks), SizeOf)
  {
    var bs := Bubbles(tracks);
    var cs := Cells(tracks);
    forall i | 0 <= i < |bs|
      ensures bs[i].count == |cs[i].members|
    {
      CellMembers(tracks, i);
    }
    SumCountsMatch(bs, cs);
  }

  /** Every track is in exactly one bubble: the counts add up to the number
      of tracks. */
  lemma BubbleCountsSumToTotal(tracks: seq<Track>)
    ensures Total(Bubbles(tracks), BubbleSize) == |tracks|
  {
    SumCountsIsSumSizes(tracks);
    CellsOfSum(tracks, Keys(tracks, LoudnessBin));
    GroupsPartition(tracks, LoudnessBin);
  }

  /** A bubble's averages are the means of its tracks' columns; each lies
      between the smallest and largest value among those tracks, and so
      within any bounds that hold for them. */
  lemma BubbleMeans(tracks: seq<Track>, i: nat)
    requires i < |Cells(tracks)|
    ensures var v := Cells(tracks)[i].members;
            var b := Bubbles(tracks)[i];
            && |v| > 0
            && b.loudness == Sum(Column(v, LoudnessOf)) / |v| as real
            && b.energy == Sum(Column(v, EnergyOf)) / |v| as real
            && b.popularity == Sum(Column(v, PopularityOf)) / |v| as real
            && Min(Column(v, LoudnessOf)) <= b.loudness <= Max(Column(v, LoudnessOf))
            && Min(Column(v, EnergyOf)) <= b.energy <= Max(Column(v, EnergyOf))
            && Min(Column(v, PopularityOf)) <= b.popularity <= Max(Column(v, PopularityOf))
  {
    CellMembers(tracks, i);
    var v := Cells(tracks)[i].members;
    MeanIsQuotient(Column(v, LoudnessOf));
    MeanIsQuotient(Column(v, EnergyOf));
    MeanIsQuotient(Column(v, PopularityOf));
  }

  /** The bubbles come in the order of the nested grouping: loudness bins
      by first appearance in the input, and within a loudness bin the energy
      bins by first appearance among that bin's tracks (which is not, in
      general, the order of first appearance of the pair). */
  lemma CellsOrder(tracks: seq<Track>)
    ensures forall i, j :: 0 <= i < j < |Cells(tracks)| ==>
              CellBefore(tracks, Cells(tracks)[i], Cells(tracks)[j])
  {
    CellsOfOrder(tracks, Keys(tracks, LoudnessBin));
  }

  /** Since every track of a bubble lies in the bubble's bins, so do its
      mean loudness and mean energy. */
  lemma BubbleInsideBins(tracks: seq<Track>, i: nat)
    requires i < |Cells(tracks)|
    ensures var c := Cells(tracks)[i];
            var b := Bubbles(tracks)[i];
            && c.loudnessBin as real <= b.loudness < (c.loudnessBin + LoudnessBinSize) as real
            && c.energyBin as real <= b.energy < (c.energyBin + EnergyBinSize) as real
  {
    CellMembers(tracks, i);
    var c := Cells(tracks)[i];
    var v := c.members;
    var ls := Column(v, LoudnessOf);
    var es := Column(v, EnergyOf);
    forall k | 0 <= k < |v|
      ensures c.loudnessBin as real <= ls[k] < (c.loudnessBin + LoudnessBinSize) as real
      ensures c.energyBin as real <= es[k] < (c.energyBin + EnergyBinSize) as real
    {
      assert v[k] in v;
    }
    assert Min(ls) in ls && Max(ls) in ls && Min(es) in es && Max(es) in es;
  }
}
