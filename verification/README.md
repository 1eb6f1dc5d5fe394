# Top-movies list: a Dafny model of the table and its request handlers

The application keeps a personal list of movies in one SQLite table, `Movies`
(`main.py`). A user searches an external movie catalog, selects a result,
rates and reviews it, and views the list. Four request handlers change the
table:

- `home` ranks every row by rating, highest first, and shows the list by
  rating, lowest first.
- `select_movies` inserts an unrated row built from the catalog details and
  looks it up again by title.
- `edit_rating` sets a row's rating and review.
- `delete_movie` removes a row.

This project models that table and those handlers, and proves what they
guarantee.

Modules, one file each:

- `Wrappers` (`wrappers.dfy`): `Option`, `Result` and `Outcome`.
- `Movies` (`movie.dfy`): the `Movies` record and the pure construction of a
  new record. The year is the release date up to its first `-`, in
  parentheses. The poster URL is a fixed prefix followed by the poster path.
- `RatingOrder` (`rating_order.dfy`): the order in which the store returns
  rows for `ORDER BY rating ASC` and `ORDER BY rating DESC`. It is a
  sequence of row positions, built by a stable insertion sort.
- `Ranking` (`ranking.dfy`): the table after a ranking pass (`Ranked`), the
  list the home page shows (`Display`), and what is proved about both.
- `Table` (`table.dfy`): the table as a sequence of rows in rowid order and
  its invariant. It also holds the store's lookups (by id, first by title),
  the next rowid, and the insert, update and delete of single rows as
  specification functions.
- `Store` (`store.dfy`): the class `MovieStore`, whose field `rows` is the
  table. Its methods `Home`, `Select`, `Rate` and `Delete` are the four
  handlers. The ranking loop of `home` is the `while` loop of
  `AssignRankings`.

Assumptions about the storage engine. These are engine behaviour, not code:

- A NULL rating sorts below every rating. It comes first ascending and last
  descending.
- Rows with equal ratings come back in rowid order, so both orders are
  stable.
- A new row gets rowid = largest rowid present + 1, or 1 in an empty table.
  This is SQLite's rule for an `INTEGER PRIMARY KEY` declared without the
  `AUTOINCREMENT` keyword, which SQLAlchemy does not emit by default. So the
  id of a deleted last row can be given out again.
- `filter_by(title=…).first()` returns the row with the lowest rowid among
  the matches.

Behaviour the model keeps as the code has it:

- A missing id makes `delete_movie` and `edit_rating` raise. The model
  returns `Fail(NotFound)` and leaves the table as it was, which is what the
  failed request leaves behind.
- `select_movies` stores the catalog id in `ranking` until the next ranking
  pass overwrites it.
- The ranking pass writes the rankings into the stored rows, one row at a
  time.
- Row ids are unique among the rows present at any moment; after a delete,
  an id can be given out again (see the rowid rule above).

## Model

The lemma rows below state properties of the specification functions
`Ranking.Ranked` (the table after a ranking pass), `Ranking.Display` (the
list the home page shows), `RatingOrder.Above` (rating order, NULL lowest)
and the table invariant `Table.ValidTable` with the rating check
`Table.RatingAllowed` (main.py:22 and 26).

| member | source | states |
|---|---|---|
| `Movies.BeforeFirstDash` | main.py:125 | the result is a prefix of the release date, contains no '-', and is followed by '-' unless it is the whole string (first element of `split("-")`) |
| `Movies.YearOfReleaseDate` | main.py:125 | for a year y without '-', the year part of "y-rest" is exactly y, whatever rest is, and the year part of y alone is y |
| `Movies.NewMovie` | main.py:122-136 | the new record has the catalog title and overview, no rating and no review, the catalog id as ranking placeholder, year "(" + part before the first '-' + ")", and an img_url made of the poster prefix followed by the poster path |
| `RatingOrder.Insert` | main.py:74-76 | inserting a new, larger position into a sorted, stable, duplicate-free order keeps it sorted, stable and duplicate-free, and adds exactly that position |
| `RatingOrder.Order` | main.py:74-76 | `ORDER BY rating` lists every row position exactly once; no row comes after one it should strictly precede (NULL lowest); equal ratings stay in rowid order |
| `RatingOrder.PlaceDecidedByRating` | main.py:76-78 | in such an order, row i comes before row j if and only if i's rating strictly precedes j's, or the ratings are equal and i is the earlier row |
| `Ranking.RankAtInRange` | main.py:76-78 | every row's new ranking lies in 1..N |
| `Ranking.RankAtInjective` | main.py:76-78 | two different rows never receive the same ranking |
| `Ranking.RankAtOnto` | main.py:76-78 | every ranking r in 1..N is received by a row (the one at place r of the descending order) |
| `Ranking.RankingsAreOneToN` | main.py:76-78 | after the ranking pass the table has the same rows, only `ranking` changed, and the rankings of the N rows are exactly 1..N, each used once |
| `Ranking.RankFollowsRating` | main.py:76-78 | row i gets a smaller ranking than row j if and only if i's rating is strictly higher, or the ratings are equal and i is the earlier row |
| `Ranking.HigherRatingRanksFirst` | main.py:76-78 | a row with a strictly higher rating gets a strictly smaller ranking |
| `Ranking.RankingIsIdempotent` | main.py:76-79 | running the ranking pass twice with no rating change in between gives the same table as running it once |
| `Ranking.DisplayListsEveryRowByRating` | main.py:74-80 | the displayed list has one entry per stored row, holds every stored row and only stored rows (all distinct when ids are), in non-decreasing rating order, equal ratings in id order |
| `Ranking.RemovingRowKeepsRelativeRanks` | main.py:76-87 | after a row is deleted, any two remaining rows keep the same relative ranking at the next ranking pass: the pass only renumbers |
| `Ranking.TwoMovieScenario` | main.py:74-78 | with movies rated 9.0 and 7.0, the 9.0 one is ranked 1 and the 7.0 one 2, and the list shows the 7.0 one first |
| `Ranking.SingleMovieRanksFirst` | main.py:76-78 | a table of one movie (what remains after deleting the other of two) ranks it 1 |
| `Table.Find` | main.py:149 | `query.get(id)` finds the position of the row with that id, and finds nothing exactly when no row has it |
| `Table.FirstWithTitle` | main.py:140 | finds nothing exactly when no row has the title; otherwise the earliest row with that title |
| `Table.FirstWithTitleAppend` | main.py:137-140 | with one row appended, the title lookup returns the earliest old match if there is one, otherwise the new row if its title matches |
| `Table.NextId` | main.py:22 | the next rowid is positive, larger than every id present, and one more than the largest id present (1 in an empty table) |
| `Table.Inserted` | main.py:129-138 | inserting adds exactly one row at the end, the record `NewMovie` builds, under an id no existing row has, without rating or review and with the catalog id as ranking; earlier rows are unchanged and the table invariant holds |
| `Table.UpdateRating` | main.py:149-153 | a missing id fails with NotFound; a rating above 10 fails with ConstraintViolation (CHECK at main.py:26); otherwise exactly the row with that id gets the new rating and review, every other row and field is unchanged, and the invariant holds |
| `Table.DeleteRow` | main.py:85-87 | a missing id fails with NotFound; otherwise exactly the row with that id is removed, all others stay in their order, and the invariant holds |
| `Table.RemoveAtKeepsTable` | main.py:86 | removing one row keeps the table invariant and keeps every row with a different id |
| `Table.LookupAfterInsert` | main.py:137-142 | right after the insert the title lookup finds a row; it is the new row exactly when no older row has the title, and otherwise the oldest such row |
| `Table.RateAfterInsert` | main.py:129-153 | selecting a movie and then rating the new row stores the given rating and review, keeps every field built from the catalog details, and leaves older rows as they were |
| `Table.DuplicateTitleFindsOlderRow` | main.py:140-142 | when an older row has the selected title, the lookup after the insert finds that older row, whose id is not the new row's |
| `Store.PassMatchesRanked` | main.py:76-79 | a table that differs only in `ranking` and gives the a-th row of the descending order ranking a+1 is the ranked table; it keeps the invariant and the ratings |
| `Store.MovieStore.constructor` | main.py:32-33 | a new database holds an empty, valid table |
| `Store.MovieStore.AssignRankings` | main.py:77-78 | the loop gives the row at place a of the descending order ranking a+1 and changes no other field and no other row |
| `Store.MovieStore.Home` | main.py:71-80 | the table becomes the ranked table and the returned list is the table in ascending rating order, carrying the new rankings |
| `Store.MovieStore.Delete` | main.py:83-88 | the table becomes the delete result, or stays unchanged with NotFound when the id is missing |
| `Store.MovieStore.Select` | main.py:109-142 | with a catalog id the table gains exactly the new record; the result is the id of the earliest row with the selected title, present whenever a row was inserted |
| `Store.MovieStore.SelectInserted` | main.py:127-142 | the corrected handler: inserts the record and returns the id the insert assigned, which no older row has |
| `Store.MovieStore.Rate` | main.py:145-155 | the table becomes the update result, or stays unchanged with NotFound or ConstraintViolation |

## Left out

- HTTP routing, `redirect`/`url_for`, `render_template` and Bootstrap (main.py:3, 12-13). These are transport and presentation. A handler's redirect target or rendered list is its return value.
- The WTForms classes and `validate_on_submit` (main.py:60-68, 94, 150). `Rate` models the valid submission and takes the parsed rating and review. The GET path and an invalid submission only render the form and change nothing.
- `add_movie` (main.py:91-106). It only forwards a search query to the catalog over HTTP and renders the results. It never touches the table.
- The catalog detail request and its JSON decoding (main.py:112-120). The details are an input of `Select`. A response without the expected keys (a `KeyError` in the handler) and JSON `null` fields are not modelled.
- The catalog id is an integer in the model. In the handler it is the query-string text, which SQLite stores in the Integer `ranking` column. A non-numeric id is not modelled.
- Ratings are mathematical reals. IEEE double rounding, NaN and infinities are not modelled.
- Column length limits (`String(80)` and others). SQLite does not enforce them.
- SQLAlchemy sessions, commits and concurrent requests. Each operation is one atomic step on the table.
- SQLite's random rowid choice once the largest rowid reaches 2^63-1 is not modelled.
- dotenv, the secret key, `app.run` and the commented-out seed rows (main.py:35-57, 158-160).
- The `ORDER BY` queries and the lookups are engine work, not code of the application. They are modelled as functions (`Order`, `Find`, `FirstWithTitle`), not as loops.

## Findings

| source | as written | input that shows it | evidently intended | confidence | as-written member | corrected member |
|---|---|---|---|---|---|---|
| main.py:140-142 | after the insert, the handler finds "the" new row by looking its title up and redirects to the first match | a table already holding a row titled "Dune"; selecting another catalog entry whose original title is also "Dune" sends the user to the older row's rating form, and the new row stays unrated | redirect to the rating form of the row just inserted | medium; not executed | Table.DuplicateTitleFindsOlderRow | Store.MovieStore.SelectInserted |
