/** The `Movies` record and the construction of a new, unrated record from
    the fields of a catalog detail response (`main.py`, `select_movies`). */
module Movies {
  import opened Wrappers

  /** One row of the `Movies` table. `rating` and `review` are nullable;
      `ranking` is nullable and is rewritten by every ranking pass. The `year`
      column is declared Integer, but the application stores the text
      "(yyyy)" in it, which the store keeps as text. */
  datatype Movie = Movie(
    id: int,
    title: string,
    year: string,
    description: string,
    rating: Option<real>,
    ranking: Option<int>,
    review: Option<string>,
    imgUrl: string)

  /** The catalog detail fields the application reads. */
  datatype Details = Details(
    originalTitle: string,
    posterPath: string,
    overview: string,
    releaseDate: string)

  /** Prefix of every poster URL built from a catalog poster path. */
  const PosterPrefix: string := "https://image.tmdb.org/t/p/w500/"

  /** The part of `s` before its first '-', or all of `s` when it has none:
      the first element of `s.split("-")`. */
  function BeforeFirstDash(s: string): (r: string)
    ensures r <= s
    ensures '-' !in r
    ensures |r| < |s| ==> s[|r|] == '-'
  {
    if s == [] || s[0] == '-' then [] else [s[0]] + BeforeFirstDash(s[1..])
  }

  /** The year shown for a release date "yyyy-mm-dd": "(yyyy)". */
  function YearLabel(releaseDate: string): string {
    "(" + BeforeFirstDash(releaseDate) + ")"
  }

  /** The poster URL for a catalog poster path. */
  function PosterUrl(posterPath: string): string {
    PosterPrefix + posterPath
  }

  /** The record inserted for a selected catalog entry: unrated, unreviewed,
      with the catalog id parked in `ranking` until the next ranking pass. */
  function NewMovie(id: int, catalogId: int, d: Details): (m: Movie)
    ensures m.id == id && m.title == d.originalTitle && m.description == d.overview
    ensures m.rating == None && m.review == None && m.ranking == Some(catalogId)
    ensures |m.year| >= 2 && m.year[0] == '(' && m.year[|m.year| - 1] == ')'
    ensures m.year[1..|m.year| - 1] == BeforeFirstDash(d.releaseDate)
    ensures PosterPrefix <= m.imgUrl && m.imgUrl[|PosterPrefix|..] == d.posterPath
  {
    Movie(id, d.originalTitle, YearLabel(d.releaseDate), d.overview,
          None, Some(catalogId), None, PosterUrl(d.posterPath))
  }

  /** A release date "yyyy-rest" yields back exactly its year part "yyyy",
      whatever follows the first dash. */
  lemma {:induction false} YearOfReleaseDate(y: string, rest: string)
    requires '-' !in y
    ensures BeforeFirstDash(y + "-" + rest) == y
    ensures BeforeFirstDash(y) == y
  {
    if y != [] {
      assert (y + "-" + rest)[1..] == y[1..] + "-" + rest;
      assert y[1..] + [] == y[1..];
      YearOfReleaseDate(y[1..], rest);
    }
  }
}
