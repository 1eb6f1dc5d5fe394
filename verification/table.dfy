/** The `Movies` table as the record store keeps it: rows in rowid order
    (the store's natural order), with the lookups and single-row changes the
    request handlers of `main.py` perform on it. */
module Table {
  import opened Wrappers
  import opened Movies

  datatype Error = NotFound | ConstraintViolation

  /** `CHECK (rating <= 10)`: a NULL rating passes the check. */
  predicate RatingAllowed(r: Option<real>) {
    r.None? || r.value <= 10.0
  }

  /** Every id is a positive rowid, ids strictly increase along the table
      (so each identifies one row), and every rating passes the check. */
  predicate ValidTable(t: seq<Movie>) {
    && (forall i :: 0 <= i < |t| ==> t[i].id > 0 && RatingAllowed(t[i].rating))
    && (forall i, j :: 0 <= i < j < |t| ==> t[i].id < t[j].id)
  }

  /** `Movies.query.get(id)`: the position of the row with that id. */
  function Find(t: seq<Movie>, id: int): (r: Option<nat>)
    ensures r.Some? ==> r.value < |t| && t[r.value].id == id
    ensures r.None? <==> forall i :: 0 <= i < |t| ==> t[i].id != id
  {
    if t == [] then None
    else if t[0].id == id then Some(0)
    else match Find(t[1..], id)
      case None => None
      case Some(k) => Some(k + 1)
  }

  /** `Movies.query.filter_by(title=title).first()`: the position of the
      earliest row, in the table's natural order, with that title. */
  function FirstWithTitle(t: seq<Movie>, title: string): (r: Option<nat>)
    ensures r.None? <==> forall i :: 0 <= i < |t| ==> t[i].title != title
    ensures r.Some? ==> r.value < |t| && t[r.value].title == title
    ensures r.Some? ==> forall i :: 0 <= i < r.value ==> t[i].title != title
  {
    if t == [] then None
    else if t[0].title == title then Some(0)
    else match FirstWithTitle(t[1..], title)
      case None => None
      case Some(k) => Some(k + 1)
  }

  /** The rowid the store gives the next inserted row: one more than the
      largest id present, or 1 in an empty table. */
  function NextId(t: seq<Movie>): (id: int)
    requires ValidTable(t)
    ensures id > 0 && forall i :: 0 <= i < |t| ==> t[i].id < id
    ensures t == [] ==> id == 1
    ensures t != [] ==> exists i :: 0 <= i < |t| && t[i].id == id - 1
  {
    if t == [] then 1 else t[|t| - 1].id + 1
  }

  /** The table after inserting the record built for a selected catalog
      entry: one row appended under a fresh id, every earlier row kept. */
  function Inserted(t: seq<Movie>, catalogId: int, d: Details): (r: seq<Movie>)
    requires ValidTable(t)
    ensures ValidTable(r) && |r| == |t| + 1 && r[..|t|] == t
    ensures forall i :: 0 <= i < |t| ==> t[i].id != r[|t|].id
    ensures r[|t|].title == d.originalTitle && r[|t|].ranking == Some(catalogId)
    ensures r[|t|].rating == None && r[|t|].review == None
    ensures r[|t|] == NewMovie(NextId(t), catalogId, d)
  {
    t + [NewMovie(NextId(t), catalogId, d)]
  }

  /** Setting `rating` and `review` of the row with the given id and
      committing: a missing row or a rating over 10 fails and changes nothing. */
  function UpdateRating(t: seq<Movie>, id: int, rating: Option<real>, review: Option<string>)
    : (r: Result<seq<Movie>, Error>)
    requires ValidTable(t)
    ensures r == Failure(NotFound) <==> forall i :: 0 <= i < |t| ==> t[i].id != id
    ensures r == Failure(ConstraintViolation)
        <==> (exists i :: 0 <= i < |t| && t[i].id == id) && !RatingAllowed(rating)
    ensures r.Success? ==> ValidTable(r.value) && |r.value| == |t|
    ensures r.Success? ==> forall i :: 0 <= i < |t| ==>
      r.value[i] == if t[i].id == id then t[i].(rating := rating, review := review) else t[i]
  {
    match Find(t, id)
    case None => Failure(NotFound)
    case Some(k) =>
      if !RatingAllowed(rating) then Failure(ConstraintViolation)
      else Success(t[k := t[k].(rating := rating, review := review)])
  }

  /** Deleting the row with the given id and committing: a missing row fails;
      otherwise exactly that row goes and the others keep their order. */
  function DeleteRow(t: seq<Movie>, id: int): (r: Result<seq<Movie>, Error>)
    requires ValidTable(t)
    ensures r.Failure? <==> forall i :: 0 <= i < |t| ==> t[i].id != id
    ensures r.Failure? ==> r.error == NotFound
    ensures r.Success? ==> ValidTable(r.value) && |r.value| == |t| - 1
    ensures r.Success? ==> forall m :: m in r.value <==> m in t && m.id != id
    ensures r.Success? ==> exists k :: 0 <= k < |t| && t[k].id == id && r.value == t[..k] + t[k + 1..]
  {
    match Find(t, id)
    case None => Failure(NotFound)
    case Some(k) =>
      RemoveAtKeepsTable(t, k);
      Success(t[..k] + t[k + 1..])
  }

  lemma RemoveAtKeepsTable(t: seq<Movie>, k: nat)
    requires ValidTable(t) && k < |t|
    ensures var u := t[..k] + t[k + 1..];
      ValidTable(u) && |u| == |t| - 1 && forall m :: m in u <==> m in t && m.id != t[k].id
  {
    var u := t[..k] + t[k + 1..];
    assert forall i :: 0 <= i < |u| ==> u[i] == t[if i < k then i else i + 1];
    forall m ensures m in u <==> m in t && m.id != t[k].id {
      if m in t && m.id != t[k].id {
        var i :| 0 <= i < |t| && t[i] == m;
        if i < k { assert u[i] == m; } else { assert u[i - 1] == m; }
      }
    }
  }

  /** Looking a title up in a table with one row appended finds the
      earliest match among the old rows, if any, and otherwise the new row
      if it has that title. */
  lemma {:induction false} FirstWithTitleAppend(t: seq<Movie>, m: Movie, title: string)
    ensures FirstWithTitle(t + [m], title)
         == if FirstWithTitle(t, title).Some? then FirstWithTitle(t, title)
            else if m.title == title then Some(|t|) else None
  {
    if t != [] {
      assert (t + [m])[1..] == t[1..] + [m];
      FirstWithTitleAppend(t[1..], m, title);
    }
  }

  /** Right after an insert, looking the new title up finds a row; it is the
      new row exactly when no older row has that title, and otherwise the
      oldest row with that title. */
  lemma LookupAfterInsert(t: seq<Movie>, catalogId: int, d: Details)
    requires ValidTable(t)
    ensures var u := Inserted(t, catalogId, d);
      var r := FirstWithTitle(u, d.originalTitle);
      && r.Some? && u[r.value].title == d.originalTitle
      && (r.value == |t| <==> forall i :: 0 <= i < |t| ==> t[i].title != d.originalTitle)
      && (r.value < |t| ==> r == FirstWithTitle(t, d.originalTitle))
  {
    FirstWithTitleAppend(t, NewMovie(NextId(t), catalogId, d), d.originalTitle);
  }

  /** Selecting a movie and then rating the new row stores the supplied
      rating and review, keeps every field built from the catalog details,
      and leaves every older row as it was. */
  lemma RateAfterInsert(t: seq<Movie>, catalogId: int, d: Details, rating: Option<real>, review: Option<string>)
    requires ValidTable(t) && RatingAllowed(rating)
    ensures var u := Inserted(t, catalogId, d);
      var r := UpdateRating(u, u[|t|].id, rating, review);
      && r.Success? && r.value[..|t|] == t
      && r.value[|t|] == NewMovie(NextId(t), catalogId, d).(rating := rating, review := review)
  {
    var u := Inserted(t, catalogId, d);
    var r := UpdateRating(u, u[|t|].id, rating, review);
    assert r.Success?;
    assert forall i :: 0 <= i < |t| ==> u[i] == t[i] && u[i].id != u[|t|].id;
    assert r.value[..|t|] == t;
  }

  /** When an older row already has the selected title, the lookup right
      after the insert finds that older row, whose id is not the new row's. */
  lemma DuplicateTitleFindsOlderRow(t: seq<Movie>, catalogId: int, d: Details)
    requires ValidTable(t)
    requires exists i :: 0 <= i < |t| && t[i].title == d.originalTitle
    ensures var u := Inserted(t, catalogId, d);
      var r := FirstWithTitle(u, d.originalTitle);
      r.Some? && r.value < |t| && u[r.value].id != u[|t|].id
  {
    LookupAfterInsert(t, catalogId, d);
  }
}
