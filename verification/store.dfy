/** The shared `Movies` table and the four request handlers of `main.py`
    that change it: `home` (the ranking pass), `select_movies` (insert and
    look up by title), `edit_rating` and `delete_movie`. HTTP, forms,
    templates and catalog calls are outside the model: each handler takes
    its already-parsed inputs as parameters. */
module Store {
  import opened Wrappers
  import opened Movies
  import opened RatingOrder
  import opened Table
  import opened Ranking

  /** A table that differs from t only in `ranking`, and gives the row at
      the a-th place of the descending order the ranking a + 1, is the ranked
      table; it is still a valid table and has the same ratings. */
  lemma PassMatchesRanked(t: seq<Movie>, u: seq<Movie>)
    requires ValidTable(t) && |u| == |t|
    requires forall i :: 0 <= i < |t| ==> u[i] == t[i].(ranking := u[i].ranking)
    requires forall a :: 0 <= a < |t| ==> u[RankOrder(t)[a]].ranking == Some(a + 1)
    ensures u == Ranked(t) && ValidTable(u) && Ratings(u) == Ratings(t)
  {
    var desc := RankOrder(t);
    forall i | 0 <= i < |t| ensures u[i] == Ranked(t)[i] {
      var a := IndexOf(desc, i);
      assert u[desc[a]].ranking == Some(a + 1);
    }
    assert Ratings(u) == Ratings(t);
  }

  class MovieStore {
    /** The rows, in rowid order. */
    var rows: seq<Movie>

    ghost predicate Valid()
      reads this
    {
      ValidTable(rows)
    }

    /** `db.create_all()` on a new database: an empty table. */
    constructor ()
      ensures Valid() && rows == []
    {
      rows := [];
    }

    /** The loop of `home` over the rows in descending rating order: the
        row at the a-th place of `order` gets ranking a + 1; no other field
        and no other row changes. */
    method AssignRankings(order: seq<nat>)
      requires |order| == |rows| && Distinct(order)
      requires forall a :: 0 <= a < |order| ==> order[a] < |rows|
      modifies this
      ensures |rows| == |old(rows)|
      ensures forall i :: 0 <= i < |rows| ==> rows[i] == old(rows)[i].(ranking := rows[i].ranking)
      ensures forall a :: 0 <= a < |order| ==> rows[order[a]].ranking == Some(a + 1)
    {
      var k := 0;
      while k < |order|
        invariant k <= |order| == |rows| == |old(rows)|
        invariant forall i :: 0 <= i < |rows| ==> rows[i] == old(rows)[i].(ranking := rows[i].ranking)
        invariant forall a :: 0 <= a < k ==> rows[order[a]].ranking == Some(a + 1)
      {
        var p := order[k];
        assert forall a :: 0 <= a < k ==> order[a] != p;
        rows := rows[p := rows[p].(ranking := Some(k + 1))];
        k := k + 1;
      }
    }

    /** `home`: fetches the rows by rating ascending for display, then walks
        the rows by rating descending, setting each row's `ranking` to its
        1-based place, and returns the ascending list (whose rows carry the
        new rankings). */
    method Home() returns (display: seq<Movie>)
      requires Valid()
      modifies this
      ensures Valid()
      ensures rows == Ranked(old(rows))
      ensures display == Display(rows)
    {
      var asc := Order(Ratings(rows), Asc, |rows|);
      var desc := Order(Ratings(rows), Desc, |rows|);
      AssignRankings(desc);
      PassMatchesRanked(old(rows), rows);
      display := Arrange(rows, asc);
    }

    /** `delete_movie`: removes the row with the given id. A missing id makes
        the handler raise; the model reports it and changes nothing. */
    method Delete(id: int) returns (outcome: Outcome<Error>)
      requires Valid()
      modifies this
      ensures Valid()
      ensures DeleteRow(old(rows), id).Success? ==>
        outcome == Pass && rows == DeleteRow(old(rows), id).value
      ensures DeleteRow(old(rows), id).Failure? ==>
        outcome == Fail(NotFound) && rows == old(rows)
    {
      var r := DeleteRow(rows, id);
      if r.Success? {
        rows := r.value;
        outcome := Pass;
      } else {
        outcome := Fail(r.error);
      }
    }

    /** `select_movies`: with a catalog id, inserts the record built from the
        catalog details; then looks the title up and yields the id of the
        first row with it (the row the handler redirects to), if any. */
    method Select(catalogId: Option<int>, d: Details) returns (target: Option<int>)
      requires Valid()
      modifies this
      ensures Valid()
      ensures rows == if catalogId.Some? then Inserted(old(rows), catalogId.value, d) else old(rows)
      ensures target.Some? <==> exists i :: 0 <= i < |rows| && rows[i].title == d.originalTitle
      ensures target.Some? ==>
        exists k :: && 0 <= k < |rows| && rows[k].id == target.value && rows[k].title == d.originalTitle
                    && forall i :: 0 <= i < k ==> rows[i].title != d.originalTitle
      ensures catalogId.Some? ==> target.Some?
    {
      if catalogId.Some? {
        LookupAfterInsert(rows, catalogId.value, d);
        rows := Inserted(rows, catalogId.value, d);
      }
      match FirstWithTitle(rows, d.originalTitle)
      case None =>
        target := None;
      case Some(k) =>
        target := Some(rows[k].id);
    }

    /** `select_movies` as evidently intended: inserts the record and yields
        the id the insert assigned, so the redirect always reaches the new row
        even when an older row has the same title. */
    method SelectInserted(catalogId: int, d: Details) returns (target: int)
      requires Valid()
      modifies this
      ensures Valid()
      ensures rows == Inserted(old(rows), catalogId, d)
      ensures target == rows[|rows| - 1].id && rows[|rows| - 1].title == d.originalTitle
      ensures forall i :: 0 <= i < |old(rows)| ==> old(rows)[i].id != target
    {
      target := NextId(rows);
      rows := Inserted(rows, catalogId, d);
    }

    /** `edit_rating` on a valid form submission: sets `rating` and `review`
        of the row with the given id. A missing id makes the handler raise and
        a rating over 10 fails the check at commit; both change nothing. */
    method Rate(id: int, rating: Option<real>, review: Option<string>) returns (outcome: Outcome<Error>)
      requires Valid()
      modifies this
      ensures Valid()
      ensures UpdateRating(old(rows), id, rating, review).Success? ==>
        outcome == Pass && rows == UpdateRating(old(rows), id, rating, review).value
      ensures UpdateRating(old(rows), id, rating, review).Failure? ==>
        outcome == Fail(UpdateRating(old(rows), id, rating, review).error) && rows == old(rows)
    {
      var r := UpdateRating(rows, id, rating, review);
      if r.Success? {
        rows := r.value;
        outcome := Pass;
      } else {
        outcome := Fail(r.error);
      }
    }
  }
}
