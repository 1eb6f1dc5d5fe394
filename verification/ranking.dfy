/** What the home page does to the table and what it displays (`main.py`,
    `home`): every row's `ranking` becomes its 1-based place in the
    rating-descending order, and the list shown is every row in
    rating-ascending order. */
module Ranking {
  import opened Wrappers
  import opened Movies
  import opened RatingOrder

  /** The rating of each row, by position. */
  function Ratings(t: seq<Movie>): seq<Option<real>> {
    seq(|t|, i requires 0 <= i < |t| => t[i].rating)
  }

  /** Row positions in `ORDER BY rating DESC` order. */
  function RankOrder(t: seq<Movie>): seq<nat> {
    Order(Ratings(t), Desc, |t|)
  }

  /** Row positions in `ORDER BY rating ASC` order. */
  function DisplayOrder(t: seq<Movie>): seq<nat> {
    Order(Ratings(t), Asc, |t|)
  }

  /** The ranking a row at position i receives: one more than its place in
      the descending order. */
  function RankAt(t: seq<Movie>, i: nat): int
    requires i < |t|
  {
    IndexOf(RankOrder(t), i) + 1
  }

  /** The table after a ranking pass. */
  function Ranked(t: seq<Movie>): seq<Movie> {
    seq(|t|, i requires 0 <= i < |t| => t[i].(ranking := Some(RankAt(t, i))))
  }

  /** The rows of t listed in the given order of positions. */
  function Arrange(t: seq<Movie>, order: seq<nat>): seq<Movie>
    requires forall k :: 0 <= k < |order| ==> order[k] < |t|
  {
    seq(|order|, k requires 0 <= k < |order| => t[order[k]])
  }

  /** The list the home page renders. */
  function Display(t: seq<Movie>): seq<Movie> {
    Arrange(t, DisplayOrder(t))
  }

  /** Every row's new ranking lies in 1 .. N. */
  lemma RankAtInRange(t: seq<Movie>, i: nat)
    requires i < |t|
    ensures 1 <= RankAt(t, i) <= |t|
  {
  }

  /** Distinct rows receive distinct rankings. */
  lemma RankAtInjective(t: seq<Movie>, i: nat, j: nat)
    requires i < |t| && j < |t| && i != j
    ensures RankAt(t, i) != RankAt(t, j)
  {
    var o := RankOrder(t);
    assert o[IndexOf(o, i)] != o[IndexOf(o, j)];
  }

  /** The position of the row the ranking pass gives ranking r. */
  function HolderOf(t: seq<Movie>, r: int): nat
    requires 1 <= r <= |t|
  {
    RankOrder(t)[r - 1]
  }

  /** Every ranking 1 .. N is received by a row: the one at HolderOf. */
  lemma RankAtOnto(t: seq<Movie>, r: int)
    requires 1 <= r <= |t|
    ensures HolderOf(t, r) < |t| && RankAt(t, HolderOf(t, r)) == r
  {
    var o := RankOrder(t);
    var i := o[r - 1];
    assert o[IndexOf(o, i)] == o[r - 1];
  }

  /** The ranking pass changes the `ranking` field and nothing else, and
      the rankings of the N rows are exactly 1 .. N, each used once. */
  lemma RankingsAreOneToN(t: seq<Movie>)
    ensures |Ranked(t)| == |t|
    ensures forall i :: 0 <= i < |t| ==> Ranked(t)[i] == t[i].(ranking := Some(RankAt(t, i)))
    ensures forall i :: 0 <= i < |t| ==> 1 <= RankAt(t, i) <= |t|
    ensures forall i, j :: 0 <= i < j < |t| ==> Ranked(t)[i].ranking != Ranked(t)[j].ranking
    ensures forall r :: 1 <= r <= |t| ==>
      HolderOf(t, r) < |t| && Ranked(t)[HolderOf(t, r)].ranking == Some(r)
  {
    forall i | 0 <= i < |t| ensures 1 <= RankAt(t, i) <= |t| {
      RankAtInRange(t, i);
    }
    forall i, j | 0 <= i < j < |t| ensures Ranked(t)[i].ranking != Ranked(t)[j].ranking {
      RankAtInjective(t, i, j);
    }
    forall r | 1 <= r <= |t| ensures HolderOf(t, r) < |t| && Ranked(t)[HolderOf(t, r)].ranking == Some(r) {
      RankAtOnto(t, r);
    }
  }

  /** Of two rows, the one ranked first (smaller ranking) is the one with
      the strictly higher rating, or, for equal ratings, the earlier row. */
  lemma RankFollowsRating(t: seq<Movie>, i: nat, j: nat)
    requires i < |t| && j < |t| && i != j
    ensures RankAt(t, i) < RankAt(t, j)
        <==> Above(t[i].rating, t[j].rating) || (t[i].rating == t[j].rating && i < j)
  {
    PlaceDecidedByRating(Ratings(t), Desc, RankOrder(t), i, j);
  }

  /** A row with a strictly higher rating gets a strictly smaller ranking. */
  lemma HigherRatingRanksFirst(t: seq<Movie>, i: nat, j: nat)
    requires i < |t| && j < |t| && Above(t[i].rating, t[j].rating)
    ensures RankAt(t, i) < RankAt(t, j)
  {
    RankFollowsRating(t, i, j);
  }

  /** A second ranking pass with no rating change in between gives the same table. */
  lemma RankingIsIdempotent(t: seq<Movie>)
    ensures Ranked(Ranked(t)) == Ranked(t)
  {
    var u := Ranked(t);
    assert Ratings(u) == Ratings(t);
    forall i | 0 <= i < |t| ensures Ranked(u)[i] == u[i] {
      assert RankAt(u, i) == RankAt(t, i);
    }
  }

  /** The home page lists every stored row exactly once, in non-decreasing
      rating order, rows with equal ratings in table order. */
  lemma DisplayListsEveryRowByRating(t: seq<Movie>)
    ensures |Display(t)| == |t|
    ensures forall i :: 0 <= i < |t| ==> t[i] in Display(t)
    ensures forall k :: 0 <= k < |t| ==> Display(t)[k] in t
    ensures forall a, b :: 0 <= a < b < |t| ==> !Above(Display(t)[a].rating, Display(t)[b].rating)
    ensures (forall i, j :: 0 <= i < j < |t| ==> t[i].id < t[j].id) ==>
      forall a, b :: 0 <= a < b < |t| ==>
        Display(t)[a].id != Display(t)[b].id &&
        (Display(t)[a].rating == Display(t)[b].rating ==> Display(t)[a].id < Display(t)[b].id)
  {
    var o, d := DisplayOrder(t), Display(t);
    forall i | 0 <= i < |t| ensures t[i] in d {
      assert d[IndexOf(o, i)] == t[i];
    }
    forall a, b | 0 <= a < b < |t|
      ensures !Above(d[a].rating, d[b].rating)
    {
      assert !Precedes(Asc, Ratings(t)[o[b]], Ratings(t)[o[a]]);
    }
  }

  /** Removing the row at position k leaves the relative ranking of every
      two remaining rows as it was: the next ranking pass only renumbers. */
  lemma RemovingRowKeepsRelativeRanks(t: seq<Movie>, k: nat, i: nat, j: nat)
    requires k < |t| && i < |t| - 1 && j < |t| - 1 && i != j
    ensures var u := t[..k] + t[k + 1..];
      var i', j' := if i < k then i else i + 1, if j < k then j else j + 1;
      && u[i] == t[i'] && u[j] == t[j']
      && (RankAt(u, i) < RankAt(u, j) <==> RankAt(t, i') < RankAt(t, j'))
  {
    var u := t[..k] + t[k + 1..];
    var i', j' := if i < k then i else i + 1, if j < k then j else j + 1;
    assert u[i] == t[i'] && u[j] == t[j'];
    RankFollowsRating(u, i, j);
    RankFollowsRating(t, i', j');
  }

  /** Two movies rated 9.0 and 7.0: the ranking pass ranks the 9.0 one 1
      and the 7.0 one 2, and the home page lists the 7.0 one first. */
  lemma TwoMovieScenario(a: Movie, b: Movie)
    requires a.rating == Some(9.0) && b.rating == Some(7.0)
    ensures RankAt([a, b], 0) == 1 && RankAt([a, b], 1) == 2
    ensures Display([a, b]) == [b, a]
  {
    var t := [a, b];
    RankAtInRange(t, 0);
    RankAtInRange(t, 1);
    HigherRatingRanksFirst(t, 0, 1);
    var d := Display(t);
    DisplayListsEveryRowByRating(t);
    assert !Above(d[0].rating, d[1].rating);
    assert d[0] in t && d[1] in t && a in d && b in d;
    if d[0] == a {
      assert false;
    }
    assert d[0] == b;
    assert d[1] == a;
  }

  /** A table holding one movie ranks it 1: what remains after deleting the
      first of two movies. */
  lemma SingleMovieRanksFirst(b: Movie)
    ensures RankAt([b], 0) == 1
  {
    RankAtInRange([b], 0);
  }
}
