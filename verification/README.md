# Spotify chart aggregations, modelled in Dafny

The repository draws five D3 charts from a cleaned Spotify track list (one
record per track: title, artist, top genre, year, energy, loudness,
popularity). Four of them run a small pure aggregation between loading the
CSV and drawing; the fifth, the energy-loudness scatter plot of `text.js`,
draws the raw tracks. This project models the four aggregations and proves
what they compute:

- **Chord diagram** (`chord.js`). Tracks are counted per genre. The counts
  are sorted by decreasing count with a stable sort, and the first fifteen
  genres are kept. A genre→index table is built. Every ordered pair of
  distinct tracks with kept genres and popularities at most 10 apart adds one
  to `matrix[g1][g2]` and one to `matrix[g2][g1]`. Cells below 10 are then
  cleared.
  Modules: `ChordGenres` (ranking, top fifteen, index table), `Chord` (the
  matrix, as loops over a `seq<seq<int>>` and as a reference function), and
  `Sums` (finite sums over index pairs).
- **Bubble chart** (`bubble.js`). Tracks are grouped by loudness bin (edge
  `floor(v / 2) * 2`). Within each loudness bin they are grouped by energy
  bin (edge `floor(v / 10) * 10`). Each occupied pair of bins becomes a
  bubble holding the mean loudness, mean energy, mean popularity and number
  of its tracks. Module: `BubbleChart`.
- **Energy-by-year line** (`script.js`). Tracks are grouped by year. Each
  year gets its mean energy and the distinct genres of its tracks, with an
  empty genre shown as `"Unknown"`, joined by `", "`. Modules: `LineChart`
  and `Strings`.
- **Genre network** (`network.js`). Tracks are grouped by genre. Each genre
  gets its number of tracks and the artist and title of its top song. The
  top song is found by a reduce that keeps the accumulator only when it is
  strictly more popular, so ties go to the later track. Bubble labels cut
  genre names longer than ten characters. Module: `Network`.

The grouping the charting library performs is modelled once, in `Rollup`:
- Keys come in order of first appearance (`Keys`).
- Groups keep input order and multiplicity (`Group`, `GroupPrefix`).

Means, minima and maxima over mathematical reals are in `Stats`. Records
arrive already typed: the `Track` datatype is in `Tracks`.

Behaviour that the code has, stated here as the code has it:
- **Each compatible pair is counted more than once.** The matrix cells do
  not count compatible unordered pairs one each:
  - They visit each unordered pair twice, once as (d, other) and once as
    (other, d).
  - Each visit updates both symmetric cells.
  - So a compatible pair of two different genres adds 2 to each of its two
    cells. A compatible pair of the same genre adds 4 to its diagonal cell;
    it is not skipped.

  The model follows the code (`Chord.RawCellCountsPairs`).
  For two pop tracks (popularity 50 and 55) and one rock track (52),
  `Chord.ExampleCells` shows 4 in the counted pop–rock cell and 4 in the
  counted pop–pop cell. `Chord.ThreeTrackExample` shows that both are then
  cleared, being below 10, so the final matrix is all zero.
- **The popularity window is a separate literal.** The bound of 10 on the
  popularity difference is written as a literal at chord.js:42. It is not
  the `compatibilityThreshold` constant. The model keeps the two as separate
  constants, `PopularityWindow` and `CompatibilityThreshold`.
- **Bubble order.** The bubbles come in the order of the nested grouping:
  - loudness bins by first appearance in the input;
  - then, within each loudness bin, energy bins by first appearance among
    that bin's tracks.

  This is not the order in which the pairs of bins first appear
  (`BubbleChart.CellsOrder`).

## Model

| member | source | states |
|---|---|---|
| ChordGenres.GenreCounts | chord.js:26 | one entry per distinct genre, in first-appearance order, carrying that genre's number of tracks |
| ChordGenres.SortByCount | chord.js:27 | the result is ordered by non-increasing count, is a permutation of the input, and keeps, for every count, the entries of that count in their input order (stability) |
| ChordGenres.StableSortUnique | chord.js:27 | any two non-increasing lists that agree on the order of entries of every count are equal, so every stable descending sort gives the same ranking |
| ChordGenres.Ranking | chord.js:26-27 | the ranking is ordered by non-increasing count, is a permutation of the per-genre counts, and has one entry per distinct genre |
| ChordGenres.RankingCounts | chord.js:26-27 | every ranked genre occurs in the input and carries its number of tracks; there are as many entries as distinct genres |
| ChordGenres.RankingComplete | chord.js:26-27 | every genre of the input is ranked |
| ChordGenres.RankingDistinct | chord.js:26-27 | no genre is ranked twice |
| ChordGenres.RankingStable | chord.js:26-27 | ranked genres with equal counts are in order of first appearance in the input |
| ChordGenres.RankingOrder | chord.js:26-27 | every ranked genre outranks every genre after it: more tracks, or as many and an earlier first appearance |
| ChordGenres.TopGenres | chord.js:28-31 | at most fifteen names, each the genre at the same position of the ranking |
| ChordGenres.TopGenresRanked | chord.js:26-31 | the kept list has min(15, number of distinct genres) entries, no duplicates, only genres of the input, in decreasing count and, for equal counts, in first-appearance order |
| ChordGenres.TopGenresExcluded | chord.js:26-31 | a genre of the input that is not kept implies fifteen are kept, each with more tracks or as many and an earlier first appearance |
| ChordGenres.IndexMap | chord.js:32 | a name has an index exactly when it is listed; the index points back to that name, and no later position holds it (last entry wins) |
| Chord.Matrix | chord.js:34-57 | the reference matrix: one row and one column per kept genre; its lemmas give the cells as cleared pair counts (`Chord.MatrixCountsPairs`) and its shape (`Chord.MatrixSpec`) |
| Chord.CountRow | chord.js:40-46 | for a row whose genre is kept, the inner loop adds that row's contributions: afterwards every cell holds the sum of the contributions of all ordered pairs whose first row is at most this row |
| Chord.CountPairs | chord.js:34-48 | starting from a zero matrix, the double loop leaves in every cell the sum over all ordered pairs of rows of what each pair adds to that cell |
| Chord.ClearWeakCells | chord.js:51-57 | the clearing loop replaces exactly the cells below the threshold by zero and leaves the rest |
| Chord.BuildMatrix | chord.js:26-57 | the kept genres are the top fifteen of the ranking, and the two loop passes (counting, then clearing) produce the reference matrix of those genres |
| Chord.HitIsPair | chord.js:38-45 | one visited ordered pair adds 1 to an off-diagonal cell and 2 to a diagonal cell exactly when its two tracks are distinct rows of the cell's two genres with popularities at most 10 apart |
| Chord.RawCellCountsPairs | chord.js:37-48 | a counted cell is 2 times the number of compatible unordered pairs between two different genres, and 4 times that number on the diagonal |
| Chord.GenrePairsUnordered | chord.js:42 | compatibility of two rows does not depend on their order, and a row is never paired with itself |
| Chord.RawCellSymmetric | chord.js:43-44 | before clearing, cell (a, b) equals cell (b, a) |
| Chord.RawMatrixSymmetric | chord.js:34-48 | the counted matrix is square, with one row per kept genre (at most fifteen), and symmetric |
| Chord.RawMatrixNonNegative | chord.js:34-48 | no counted cell is negative |
| Chord.ClearedCells | chord.js:51-57 | after clearing every cell is 0 or at least 10, cells already at least 10 are unchanged, and cells below 10 are 0 |
| Chord.ClearedSymmetric | chord.js:51-57 | clearing keeps a square symmetric matrix square and symmetric |
| Chord.ClearedIdempotent | chord.js:51-57 | clearing twice gives the same matrix as clearing once |
| Chord.MatrixSpec | chord.js:34-57 | the final matrix is square, symmetric, and each cell is 0 or at least 10 |
| Chord.MatrixCountsPairs | chord.js:37-57 | each final cell is 0 when the pair count (2 or 4 per compatible pair) is below 10, and that pair count otherwise |
| Chord.ThreeTrackExample | chord.js:37-57 | for pop 50, pop 55 and rock 52, every final cell is 0 |
| Chord.ExampleCells | chord.js:37-48 | for pop 50, pop 55 and rock 52 the kept genres are pop then rock, and the counted pop–rock and pop–pop cells are both 4 |
| BubbleChart.BinKey | bubble.js:38-39 | the returned edge is a multiple of the width, and the bin from the edge to the edge plus the width holds the value, also for negative values |
| BubbleChart.LoudnessBin | bubble.js:38 | the loudness edge is even and lies at most the loudness and less than 2 below it |
| BubbleChart.EnergyBin | bubble.js:39 | the energy edge is a multiple of 10 and lies at most the energy and less than 10 below it |
| BubbleChart.LoudnessBinUnique | bubble.js:38 | the loudness edge is the only even number whose bin holds the loudness |
| BubbleChart.EnergyBinUnique | bubble.js:39 | the energy edge is the only multiple of 10 whose bin holds the energy |
| BubbleChart.Cells | bubble.js:32-42 | the nested grouping flattened: every entry's loudness bin occurs in the input; its lemmas give the members, uniqueness and order of the entries (`CellMembers`, `CellsArePairs`, `CellsOrder`) |
| BubbleChart.Bubbles | bubble.js:32-49 | the chart's data: one bubble per entry of `Cells`, in that order; its lemmas give each bubble's count and averages (`BubbleCount`, `BubbleMeans`, `BubbleInsideBins`) |
| BubbleChart.NestedGroup | bubble.js:32-39 | grouping by energy bin inside a loudness group gives the tracks of that pair of bins |
| BubbleChart.CellMembers | bubble.js:32-49 | each flattened entry holds the input's tracks in its pair of bins, in input order and each as often as in the input (the group by the pair of bins), and at least one |
| BubbleChart.CellsArePairs | bubble.js:32-49 | no pair of bins appears twice, and a pair of bins has an entry exactly when some track falls into it |
| BubbleChart.CellsOrder | bubble.js:32-49 | entries are ordered by first appearance of the loudness bin, then by first appearance of the energy bin within it |
| BubbleChart.BubbleCount | bubble.js:36-39 | each bubble's count is the number of input positions whose two bin edges match its pair, and at least 1 |
| BubbleChart.BubbleCountsSumToTotal | bubble.js:32-49 | the bubbles' counts add up to the number of tracks |
| BubbleChart.BubbleMeans | bubble.js:33-35 | each average is the sum of its tracks' values divided by their number, and lies between their minimum and maximum |
| BubbleChart.BubbleInsideBins | bubble.js:33-39 | a bubble's mean loudness and mean energy lie inside its pair of bins |
| LineChart.GenreLabel | script.js:28 | the label is never empty; a non-empty genre is its own label |
| LineChart.YearRollup | script.js:24-31 | one point per distinct year, in first-appearance order |
| LineChart.YearRollupKeys | script.js:24-31 | every point's year occurs, every input year has a point, no year twice, points in order of first appearance |
| LineChart.YearEnergyIsMean | script.js:27 | a year's energy is the mean of its tracks' energies, and equal to the one energy of a single-track year |
| LineChart.YearEnergyBounds | script.js:27 | a year's energy lies within any bounds on the energies of that year's tracks |
| LineChart.YearGenres | script.js:28 | a year's labels have no repeats, are exactly the labels of its tracks, come in order of first appearance among those tracks, and never include an empty genre |
| LineChart.YearGenresListed | script.js:28 | a year's genre text joins its genre labels with ", "; the labels have no repeats, are exactly the labels of that year's tracks, and come in order of first appearance among them |
| LineChart.MissingGenreIsUnknown | script.js:28 | a track with an empty genre puts "Unknown" into its year's list, and that list holds no empty genre |
| LineChart.YearGenresRecoverable | script.js:28 | when no label holds a comma, splitting a year's genre text at commas gives back the labels (each after the first preceded by a space) |
| Strings.Join | script.js:28 | no parts give the empty string, one part gives that part, and the result starts with the first part; `Strings.SplitJoin` is its partner |
| Strings.SplitJoin | script.js:28 | splitting at the separator's first character, when that character occurs in no part and nowhere else in the separator, gives the first part and then each later part preceded by the rest of the separator (for ", ", a leading space) |
| Stats.Mean | script.js:27 | a mean lies between the smallest and the largest value, and the mean of one value is that value |
| Stats.MeanBounds | bubble.js:33-35 | a mean of values within [lo, hi] lies within [lo, hi] |
| Rollup.Keys | network.js:12-21 | the group keys are exactly the keys occurring in the input, without repeats, in order of first appearance |
| Rollup.Group | network.js:12-21 | a group holds every input element with its key as often as the input does, and no other element |
| Rollup.GroupPrefix | network.js:12-21 | groups keep input order: the group of any prefix of the input is a prefix of the group |
| Rollup.GroupSizeIsCount | network.js:16 | a group's size is the number of input positions carrying its key |
| Rollup.GroupsPartition | network.js:12-21 | the group sizes add up to the input length |
| Network.MorePopular | network.js:14 | the reduce step returns one of its two tracks, at least as popular as both, and on equal popularity the later track |
| Network.TopSong | network.js:14 | the top song is a track of the group, and no track of the group is more popular |
| Network.TopSongIsLastMaximum | network.js:14 | the top song is the last track of the group that reaches the group's highest popularity |
| Network.GenreRollup | network.js:12-27 | one entry per distinct genre in first-appearance order; each count is its group's size and at least 1 |
| Network.GenreRollupKeys | network.js:12-27 | every entry's genre occurs, every input genre has an entry, no genre twice, entries in first-appearance order |
| Network.GenreCountIsTrackCount | network.js:16 | a genre's count is the number of input positions with that genre |
| Network.GenreCountsSumToTotal | network.js:12-21 | the counts add up to the number of tracks |
| Network.TopSongOfGenre | network.js:14-18 | artist and title come from one track of the genre, the last of highest popularity in its group, and no track of the genre is more popular |
| Network.Label | network.js:65 | a genre of at most 10 characters is its own label; a longer one becomes its first 10 characters followed by "..." (13 characters) |
| Network.LabelIdempotent | network.js:65 | shortening a label again changes nothing |
| Network.LongLabelsCollide | network.js:65 | two long genres get the same label exactly when their first 10 characters agree |

## Left out

- Rendering: SVG selections, axes, scales, extents, colours, arcs, ribbons, tooltips and the details panel. These are library and DOM calls with no logic of their own.
- `text.js`: it plots each raw track as a point, attaches a tooltip showing the track's fields, and sets up zoom. None of this aggregates or transforms the data.
- The force simulation in `network.js` and the chord layout. Both are physics or geometry done by the library.
- The label font size in `network.js`.
- CSV loading and the `+` string-to-number conversions. Records arrive typed, with energy and loudness as `real` and popularity and year as `int`. The network chart's `+a.popularity` comparison is therefore an integer comparison.
- `d3.mean` skipping `NaN` and `undefined` values; there are none in typed records.
- Floating-point rounding: bins and means are over mathematical reals.
- The genre table's lookup through the JavaScript object prototype. For a non-kept genre named like an inherited property (for example `constructor`), `genreIndex[...]` at chord.js:38 and chord.js:41 finds an inherited value instead of `undefined`. `matrix[genre1]` is then `undefined`, so the first compatible pair throws a `TypeError` at chord.js:43-44. That aborts the chart; the error is caught and logged at chord.js:123. The model looks genres up in a map holding only the kept names, so it treats such a genre as not kept.
- Network.Label: counts characters of a Dafny string. JavaScript counts UTF-16 code units, which differ for characters outside the Basic Multilingual Plane.
- `Chord.BuildMatrix` works on an immutable `seq<seq<int>>` updated cell by cell rather than on nested JavaScript arrays. The loop structure and the order of updates are those of the source.
- The `console.log` calls in `script.js` are output only.
