/** The energy-by-year line chart: one point per year, at the year's mean
    energy, whose tooltip lists the genres heard that year. */
module LineChart {
  import opened Tracks
  import opened Rollup
  import opened Stats
  import opened Strings

  /** What the chart binds to one point of the line. */
  datatype YearPoint = YearPoint(year: int, energy: real, genres: string)

  /** Placeholder shown for a track whose genre is missing (empty). */
  const Unknown: string := "Unknown"

  /** Separator between the genres of one year. */
  const GenreSeparator: string := ", "

  /** A track's genre as listed in the tooltip: an empty genre is falsy in
      the source and is replaced by the placeholder. */
  function GenreLabel(t: Track): (g: string)
    ensures g != ""
    ensures t.genre != "" ==> g == t.genre
  {
    if t.genre == "" then Unknown else t.genre
  }

  /** The distinct genre labels of one year's tracks, in order of first
      appearance: the insertion order of the set the source builds. */
  function YearGenres(v: seq<Track>): (gs: seq<string>)
    ensures Distinct(gs)
    ensures forall g :: g in gs <==> exists t :: t in v && GenreLabel(t) == g
    ensures "" !in gs
    ensures forall p, q :: 0 <= p < q < |gs| ==>
              FirstIndex(v, GenreLabel, gs[p]) < FirstIndex(v, GenreLabel, gs[q])
  {
    var gs := Keys(v, GenreLabel);
    forall g | g in gs
      ensures exists t :: t in v && GenreLabel(t) == g
    {
      var i :| 0 <= i < |v| && GenreLabel(v[i]) == g;
      assert v[i] in v;
    }
    forall t | t in v
      ensures GenreLabel(t) in gs
    {
      var i :| 0 <= i < |v| && v[i] == t;
      assert Occurs(v, GenreLabel, GenreLabel(v[i]));
    }
    gs
  }

  /** The point for one non-empty year group. */
  function Summarize(year: int, v: seq<Track>): YearPoint
    requires |v| > 0
  {
    YearPoint(year, Mean(Column(v, EnergyOf)), Join(YearGenres(v), GenreSeparator))
  }

  /** The chart's data: one point per distinct year, in order of the year's
      first appearance. */
  function YearRollup(tracks: seq<Track>): (r: seq<YearPoint>)
    ensures |r| == |Keys(tracks, YearOf)|
    ensures forall i :: 0 <= i < |r| ==> r[i].year == Keys(tracks, YearOf)[i]
  {
    var ks := Keys(tracks, YearOf);
    seq(|ks|, i requires 0 <= i < |ks| =>
      GroupNonEmpty(tracks, YearOf, ks[i]);
      Summarize(ks[i], Group(tracks, YearOf, ks[i])))
  }

  /** The i-th point summarises the group of the i-th distinct year. */
  lemma PointIsSummary(tracks: seq<Track>, i: nat)
    requires i < |YearRollup(tracks)|
    ensures Occurs(tracks, YearOf, YearRollup(tracks)[i].year)
    ensures |Group(tracks, YearOf, YearRollup(tracks)[i].year)| > 0
    ensures YearRollup(tracks)[i]
            == Summarize(YearRollup(tracks)[i].year, Group(tracks, YearOf, YearRollup(tracks)[i].year))
  {
    var ks := Keys(tracks, YearOf);
    assert ks[i] in ks;
    GroupNonEmpty(tracks, YearOf, ks[i]);
  }

  /** One point per distinct year: every point's year occurs in the input,
      every input year has a point, no two points share a year, and points
      appear in the order in which their years first occur. */
  lemma YearRollupKeys(tracks: seq<Track>)
    ensures forall i :: 0 <= i < |YearRollup(tracks)| ==> Occurs(tracks, YearOf, YearRollup(tracks)[i].year)
    ensures forall p :: 0 <= p < |tracks| ==>
              exists i :: 0 <= i < |YearRollup(tracks)| && YearRollup(tracks)[i].year == tracks[p].year
    ensures forall i, j :: 0 <= i < j < |YearRollup(tracks)| ==>
              YearRollup(tracks)[i].year != YearRollup(tracks)[j].year
              && FirstIndex(tracks, YearOf, YearRollup(tracks)[i].year)
                 < FirstIndex(tracks, YearOf, YearRollup(tracks)[j].year)
  {
    var r := YearRollup(tracks);
    var ks := Keys(tracks, YearOf);
    forall i | 0 <= i < |r|
      ensures Occurs(tracks, YearOf, r[i].year)
    {
      assert ks[i] in ks;
    }
    forall p | 0 <= p < |tracks|
      ensures exists i :: 0 <= i < |r| && r[i].year == tracks[p].year
    {
      assert YearOf(tracks[p]) == tracks[p].year;
      assert tracks[p].year in ks;
      var i :| 0 <= i < |ks| && ks[i] == tracks[p].year;
      assert r[i].year == tracks[p].year;
    }
  }

  /** A year's energy is the arithmetic mean of the energies of that year's
      tracks, and a year with a single track has exactly that track's
      energy. */
  lemma YearEnergyIsMean(tracks: seq<Track>, i: nat)
    requires i < |YearRollup(tracks)|
    ensures YearRollup(tracks)[i].energy == Mean(Column(Group(tracks, YearOf, YearRollup(tracks)[i].year), EnergyOf))
    ensures |Group(tracks, YearOf, YearRollup(tracks)[i].year)| == 1 ==>
              YearRollup(tracks)[i].energy == Group(tracks, YearOf, YearRollup(tracks)[i].year)[0].energy
  {
    PointIsSummary(tracks, i);
  }

  /** A year's energy lies within any bounds on the energies of that year's
      tracks. */
  lemma YearEnergyBounds(tracks: seq<Track>, i: nat, lo: real, hi: real)
    requires i < |YearRollup(tracks)|
    requires forall t :: t in tracks && t.year == YearRollup(tracks)[i].year ==> lo <= t.energy <= hi
    ensures lo <= YearRollup(tracks)[i].energy <= hi
  {
    PointIsSummary(tracks, i);
    var y := YearRollup(tracks)[i].year;
    var v := Group(tracks, YearOf, y);
    var c := Column(v, EnergyOf);
    forall k | 0 <= k < |c|
      ensures lo <= c[k] <= hi
    {
      assert v[k] in v;
    }
    MeanBounds(c, lo, hi);
  }

  /** The distinct labels of a year's group are exactly the labels of the
      tracks of that year. */
  lemma YearLabels(tracks: seq<Track>, y: int)
    ensures forall g :: g in YearGenres(Group(tracks, YearOf, y)) <==>
              exists t :: t in tracks && t.year == y && GenreLabel(t) == g
  {
    var v := Group(tracks, YearOf, y);
    var gs := YearGenres(v);
    forall g | g in gs
      ensures exists t :: t in tracks && t.year == y && GenreLabel(t) == g
    {
      var p :| 0 <= p < |v| && GenreLabel(v[p]) == g;
      assert v[p] in v;
    }
    forall g | exists t :: t in tracks && t.year == y && GenreLabel(t) == g
      ensures g in gs
    {
      var t :| t in tracks && t.year == y && GenreLabel(t) == g;
      assert t in v;
      var p :| 0 <= p < |v| && v[p] == t;
      assert Occurs(v, GenreLabel, g);
    }
  }

  /** A year's genre text joins, with ", ", the distinct genre labels of
      that year's tracks in order of first appearance: no label twice,
      every label of the year present, nothing else present. */
  lemma YearGenresListed(tracks: seq<Track>, i: nat)
    requires i < |YearRollup(tracks)|
    ensures var y := YearRollup(tracks)[i].year;
            var gs := YearGenres(Group(tracks, YearOf, y));
            && YearRollup(tracks)[i].genres == Join(gs, GenreSeparator)
            && Distinct(gs)
            && (forall g :: g in gs <==> exists t :: t in tracks && t.year == y && GenreLabel(t) == g)
            && (forall p, q :: 0 <= p < q < |gs| ==>
                  FirstIndex(Group(tracks, YearOf, y), GenreLabel, gs[p])
                  < FirstIndex(Group(tracks, YearOf, y), GenreLabel, gs[q]))
  {
    PointIsSummary(tracks, i);
    YearLabels(tracks, YearRollup(tracks)[i].year);
  }

  /** A track with a missing genre puts the placeholder into its year's
      list, and the list never holds an empty genre. */
  lemma MissingGenreIsUnknown(tracks: seq<Track>, p: nat)
    requires p < |tracks| && tracks[p].genre == ""
    ensures exists i :: 0 <= i < |YearRollup(tracks)| && YearRollup(tracks)[i].year == tracks[p].year
              && Unknown in YearGenres(Group(tracks, YearOf, tracks[p].year))
    ensures "" !in YearGenres(Group(tracks, YearOf, tracks[p].year))
  {
    YearRollupKeys(tracks);
    var t := tracks[p];
    var i :| 0 <= i < |YearRollup(tracks)| && YearRollup(tracks)[i].year == t.year;
    YearGenresListed(tracks, i);
    assert GenreLabel(t) == Unknown;
  }

  /** Splitting a ", "-joined list at commas, when no item has a comma. */
  lemma SplitJoinedGenres(gs: seq<string>)
    requires |gs| >= 1
    requires forall k :: 0 <= k < |gs| ==> ',' !in gs[k]
    ensures Split(Join(gs, GenreSeparator), ',')
            == [gs[0]] + PrefixEach(" ", gs[1..])
  {
    assert GenreSeparator == [','] + " ";
    SplitJoin(gs, ',', " ");
  }

  /** The genre text can be taken apart again: when no label contains a
      comma, splitting it at commas gives the first label followed by every
      later label preceded by a space. */
  lemma YearGenresRecoverable(tracks: seq<Track>, i: nat)
    requires i < |YearRollup(tracks)|
    requires forall t :: t in tracks ==> ',' !in GenreLabel(t)
    ensures var gs := YearGenres(Group(tracks, YearOf, YearRollup(tracks)[i].year));
            && |gs| >= 1
            && Split(YearRollup(tracks)[i].genres, ',')
               == [gs[0]] + PrefixEach(" ", gs[1..])
  {
    PointIsSummary(tracks, i);
    YearGenresListed(tracks, i);
    var y := YearRollup(tracks)[i].year;
    var v := Group(tracks, YearOf, y);
    var gs := YearGenres(v);
    assert v[0] in v;
    assert GenreLabel(v[0]) in gs;
    forall k | 0 <= k < |gs|
      ensures ',' !in gs[k]
    {
      assert gs[k] in gs;
    }
    SplitJoinedGenres(gs);
  }
}
