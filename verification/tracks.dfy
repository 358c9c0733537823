/** The row type shared by every chart: one track of the cleaned Spotify CSV,
    with its numeric columns already converted to numbers. */
module Tracks {

  /** One track. `genre` is the `top_genre` column; an empty genre is the
      CSV's way of saying the column was missing. Energy and loudness are
      mathematical reals, popularity and year integers. */
  datatype Track = Track(
    title: string,
    artist: string,
    genre: string,
    year: int,
    energy: real,
    loudness: real,
    popularity: int
  )

  /** Grouping key of the genre charts: the genre exactly as it appears in
      the data (an empty genre is a key like any other). */
  function GenreOf(t: Track): string {
    t.genre
  }

  /** Grouping key of the energy-by-year chart. */
  function YearOf(t: Track): int {
    t.year
  }

  /** The numeric columns the charts average, as reals. */
  function LoudnessOf(t: Track): real {
    t.loudness
  }

  function EnergyOf(t: Track): real {
    t.energy
  }

  function PopularityOf(t: Track): real {
    t.popularity as real
  }
}
