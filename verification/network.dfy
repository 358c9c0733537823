/** The genre bubble network: one bubble per genre, sized by its number of
    tracks, labelled with a shortened genre name, and carrying the artist and
    title of the genre's most popular track. */
module Network {
  import opened Tracks
  import opened Rollup

  /** What the chart binds to one bubble. */
  datatype GenreSummary = GenreSummary(
    genre: string,
    count: nat,
    topArtist: string,
    topSongTitle: string
  )

  /** The reduction step: keep the accumulator only when it is strictly
      more popular than the next track. */
  function MorePopular(a: Track, b: Track): (r: Track)
    ensures r == a || r == b
    ensures r.popularity >= a.popularity && r.popularity >= b.popularity
    ensures a.popularity == b.popularity ==> r == b
  {
    if a.popularity > b.popularity then a else b
  }

  /** The group's top song: a left-to-right reduction of the group with
      `MorePopular`, starting from its first track. */
  function TopSong(v: seq<Track>): (t: Track)
    requires |v| > 0
    ensures t in v
    ensures forall j :: 0 <= j < |v| ==> v[j].popularity <= t.popularity
  {
    if |v| == 1 then v[0]
    else
      var init := v[..|v| - 1];
      assert forall j :: 0 <= j < |init| ==> init[j] == v[j];
      MorePopular(TopSong(init), v[|v| - 1])
  }

  /** `v[j]` is the last track of `v` reaching the highest popularity in `v`. */
  predicate LastMaximum(v: seq<Track>, j: nat) {
    && j < |v|
    && (forall k :: 0 <= k < |v| ==> v[k].popularity <= v[j].popularity)
    && (forall k :: j < k < |v| ==> v[k].popularity < v[j].popularity)
  }

  /** Appending a strictly less popular track keeps the last maximum. */
  lemma LastMaximumKept(v: seq<Track>, i: nat)
    requires |v| > 1 && LastMaximum(v[..|v| - 1], i)
    requires v[|v| - 1].popularity < v[i].popularity
    ensures LastMaximum(v, i)
  {
    var init := v[..|v| - 1];
    assert forall k :: 0 <= k < |init| ==> init[k] == v[k];
  }

  /** Appending a track at least as popular as every earlier one makes it
      the last maximum. */
  lemma LastMaximumAtEnd(v: seq<Track>)
    requires |v| > 0
    requires forall k :: 0 <= k < |v| - 1 ==> v[k].popularity <= v[|v| - 1].popularity
    ensures LastMaximum(v, |v| - 1)
  {
  }

  /** Ties go to the later track: the top song is the LAST track of the
      group that reaches the group's highest popularity. */
  lemma {:induction false} TopSongIsLastMaximum(v: seq<Track>)
    requires |v| > 0
    ensures exists i: nat :: LastMaximum(v, i) && v[i] == TopSong(v)
    decreases |v|
  {
    var last := |v| - 1;
    if |v| == 1 {
      assert LastMaximum(v, 0);
    } else {
      var init := v[..last];
      TopSongIsLastMaximum(init);
      var a := TopSong(init);
      if a.popularity > v[last].popularity {
        var i: nat :| LastMaximum(init, i) && init[i] == a;
        LastMaximumKept(v, i);
        assert v[i] == init[i];
      } else {
        assert forall k :: 0 <= k < last ==> v[k] == init[k];
        LastMaximumAtEnd(v);
      }
    }
  }

  /** The summary of one non-empty genre group. */
  function Summarize(genre: string, v: seq<Track>): GenreSummary
    requires |v| > 0
  {
    var top := TopSong(v);
    GenreSummary(genre, |v|, top.artist, top.title)
  }

  /** The chart's data: one summary per distinct genre, in order of the
      genre's first appearance. */
  function GenreRollup(tracks: seq<Track>): (r: seq<GenreSummary>)
    ensures |r| == |Keys(tracks, GenreOf)|
    ensures forall i :: 0 <= i < |r| ==> r[i].genre == Keys(tracks, GenreOf)[i]
    ensures forall i :: 0 <= i < |r| ==> r[i].count == |Group(tracks, GenreOf, r[i].genre)| > 0
  {
    var ks := Keys(tracks, GenreOf);
    seq(|ks|, i requires 0 <= i < |ks| =>
      GroupNonEmpty(tracks, GenreOf, ks[i]);
      Summarize(ks[i], Group(tracks, GenreOf, ks[i])))
  }

  /** One entry per distinct genre: every entry's genre occurs in the
      input, every input genre has an entry, no two entries share a genre,
      and entries appear in the order in which their genres first occur. */
  lemma GenreRollupKeys(tracks: seq<Track>)
    ensures forall i :: 0 <= i < |GenreRollup(tracks)| ==> Occurs(tracks, GenreOf, GenreRollup(tracks)[i].genre)
    ensures forall p :: 0 <= p < |tracks| ==>
              exists i :: 0 <= i < |GenreRollup(tracks)| && GenreRollup(tracks)[i].genre == tracks[p].genre
    ensures forall i, j :: 0 <= i < j < |GenreRollup(tracks)| ==>
              GenreRollup(tracks)[i].genre != GenreRollup(tracks)[j].genre
              && FirstIndex(tracks, GenreOf, GenreRollup(tracks)[i].genre)
                 < FirstIndex(tracks, GenreOf, GenreRollup(tracks)[j].genre)
  {
    var r := GenreRollup(tracks);
    var ks := Keys(tracks, GenreOf);
    forall i | 0 <= i < |r|
      ensures Occurs(tracks, GenreOf, r[i].genre)
    {
      assert ks[i] in ks;
    }
    forall p | 0 <= p < |tracks|
      ensures exists i :: 0 <= i < |r| && r[i].genre == tracks[p].genre
    {
      assert GenreOf(tracks[p]) == tracks[p].genre;
      assert tracks[p].genre in ks;
      var i :| 0 <= i < |ks| && ks[i] == tracks[p].genre;
      assert r[i].genre == tracks[p].genre;
    }
  }

  /** A genre's count is the number of input tracks of that genre. */
  lemma GenreCountIsTrackCount(tracks: seq<Track>, i: nat)
    requires i < |GenreRollup(tracks)|
    ensures GenreRollup(tracks)[i].count
            == |set p: nat | p < |tracks| && tracks[p].genre == GenreRollup(tracks)[i].genre|
  {
    var g := GenreRollup(tracks)[i].genre;
    GroupSizeIsCount(tracks, GenreOf, g);
    assert Positions(tracks, GenreOf, g) == set p: nat | p < |tracks| && tracks[p].genre == g;
  }

  /** Number of tracks a summary counts. */
  function SummaryCount(r: GenreSummary): nat {
    r.count
  }

  /** Summaries whose counts are the sizes of the groups of `ks` add up to
      the total size of those groups. */
  lemma {:induction false} SumCountsOfGroups(tracks: seq<Track>, r: seq<GenreSummary>, ks: seq<string>)
    requires |r| == |ks|
    requires forall i :: 0 <= i < |r| ==> r[i].count == |Group(tracks, GenreOf, ks[i])|
    ensures Total(r, SummaryCount) == SumGroupSizes(tracks, GenreOf, ks)
    decreases |ks|
  {
    if |ks| > 0 {
      SumCountsOfGroups(tracks, r[..|r| - 1], ks[..|ks| - 1]);
    }
  }

  /** Every track is counted in exactly one genre: the counts add up to the
      number of tracks. */
  lemma GenreCountsSumToTotal(tracks: seq<Track>)
    ensures Total(GenreRollup(tracks), SummaryCount) == |tracks|
  {
    SumCountsOfGroups(tracks, GenreRollup(tracks), Keys(tracks, GenreOf));
    GroupsPartition(tracks, GenreOf);
  }

  /** The i-th entry summarises the group of the i-th distinct genre. */
  lemma EntryIsSummary(tracks: seq<Track>, i: nat)
    requires i < |GenreRollup(tracks)|
    ensures |Group(tracks, GenreOf, GenreRollup(tracks)[i].genre)| > 0
    ensures GenreRollup(tracks)[i]
            == Summarize(GenreRollup(tracks)[i].genre, Group(tracks, GenreOf, GenreRollup(tracks)[i].genre))
  {
  }

  /** The reported artist and title belong to ONE track of the genre: the
      last track of highest popularity in the genre's group (its tracks in
      input order). No track of the genre in the whole input is more popular. */
  lemma TopSongOfGenre(tracks: seq<Track>, i: nat)
    requires i < |GenreRollup(tracks)|
    ensures exists j: nat :: LastMaximum(Group(tracks, GenreOf, GenreRollup(tracks)[i].genre), j)
              && Group(tracks, GenreOf, GenreRollup(tracks)[i].genre)[j].artist == GenreRollup(tracks)[i].topArtist
              && Group(tracks, GenreOf, GenreRollup(tracks)[i].genre)[j].title == GenreRollup(tracks)[i].topSongTitle
    ensures forall u :: u in tracks && u.genre == GenreRollup(tracks)[i].genre ==>
              exists t :: t in tracks && t.genre == u.genre && t.artist == GenreRollup(tracks)[i].topArtist
                          && t.title == GenreRollup(tracks)[i].topSongTitle && u.popularity <= t.popularity
  {
    var s := GenreRollup(tracks)[i];
    var v := Group(tracks, GenreOf, s.genre);
    EntryIsSummary(tracks, i);
    TopSongIsLastMaximum(v);
    var t := TopSong(v);
    var j: nat :| LastMaximum(v, j) && v[j] == t;
    assert t.artist == s.topArtist && t.title == s.topSongTitle;
    TopSongCoversGenre(tracks, s.genre, t);
  }

  /** The top song of a genre's group is a track of that genre at least as
      popular as every track of the genre. */
  lemma TopSongCoversGenre(tracks: seq<Track>, g: string, t: Track)
    requires |Group(tracks, GenreOf, g)| > 0 && t == TopSong(Group(tracks, GenreOf, g))
    ensures t in tracks && t.genre == g
    ensures forall u :: u in tracks && u.genre == g ==> u.popularity <= t.popularity
  {
    var v := Group(tracks, GenreOf, g);
    forall u | u in tracks && u.genre == g
      ensures u.popularity <= t.popularity
    {
      assert u in v;
      var k :| 0 <= k < |v| && v[k] == u;
    }
  }

  /** The bubble label: a genre name longer than ten characters is cut to
      its first ten followed by an ellipsis. */
  function Label(genre: string): (s: string)
    ensures |s| <= 13
    ensures |genre| <= 10 ==> s == genre
    ensures |genre| > 10 ==> |s| == 13 && s[..10] == genre[..10] && s[10..] == "..."
  {
    if |genre| > 10 then genre[..10] + "..." else genre
  }

  /** Shortening a label again changes nothing. */
  lemma LabelIdempotent(genre: string)
    ensures Label(Label(genre)) == Label(genre)
  {
    if |genre| > 10 {
      var s := Label(genre);
      assert s[..10] == genre[..10];
    }
  }

  /** Two long genre names get the same label exactly when their first ten
      characters agree. */
  lemma LongLabelsCollide(g1: string, g2: string)
    requires |g1| > 10 && |g2| > 10
    ensures Label(g1) == Label(g2) <==> g1[..10] == g2[..10]
  {
    var l1, l2 := Label(g1), Label(g2);
    if l1 == l2 {
      assert l1[..10] == g1[..10] && l2[..10] == g2[..10];
    }
  }
}
