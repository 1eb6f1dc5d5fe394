/** The order the record store returns rows in for `ORDER BY rating ASC` and
    `ORDER BY rating DESC` (`main.py`, `home`). A missing rating (SQL NULL)
    sorts below every present rating, so it comes first ascending and last
    descending; rows with equal ratings keep the table's natural (id) order.
    An order is a sequence of row positions. */
module RatingOrder {
  import opened Wrappers

  datatype Direction = Asc | Desc

  /** Rating x is strictly greater than rating y, a missing rating being the smallest. */
  predicate Above(x: Option<real>, y: Option<real>) {
    match x
    case None => false
    case Some(a) => y.None? || a > y.value
  }

  /** Under `ORDER BY rating <dir>`, a row rated x comes strictly before one rated y. */
  predicate Precedes(dir: Direction, x: Option<real>, y: Option<real>) {
    if dir == Desc then Above(x, y) else Above(y, x)
  }

  lemma AboveTransitive(x: Option<real>, y: Option<real>, z: Option<real>)
    requires Above(x, y) && Above(y, z)
    ensures Above(x, z)
  {
  }

  predicate InBounds(keys: seq<Option<real>>, s: seq<nat>) {
    forall a :: 0 <= a < |s| ==> s[a] < |keys|
  }

  predicate Distinct(s: seq<nat>) {
    forall a, b :: 0 <= a < b < |s| ==> s[a] != s[b]
  }

  /** No position is listed after one it should strictly precede. */
  predicate SortedBy(keys: seq<Option<real>>, dir: Direction, s: seq<nat>)
    requires InBounds(keys, s)
  {
    forall a, b :: 0 <= a < b < |s| ==> !Precedes(dir, keys[s[b]], keys[s[a]])
  }

  /** Positions with equal ratings are listed in increasing position order. */
  predicate Stable(keys: seq<Option<real>>, s: seq<nat>)
    requires InBounds(keys, s)
  {
    forall a, b :: 0 <= a < b < |s| && keys[s[a]] == keys[s[b]] ==> s[a] < s[b]
  }

  /** Inserts position p, greater than every position in s, after every
      position that it does not strictly precede. */
  function Insert(keys: seq<Option<real>>, dir: Direction, p: nat, s: seq<nat>): (r: seq<nat>)
    requires p < |keys| && InBounds(keys, s)
    requires Distinct(s) && SortedBy(keys, dir, s) && Stable(keys, s)
    requires forall a :: 0 <= a < |s| ==> s[a] < p
    ensures |r| == |s| + 1 && InBounds(keys, r)
    ensures forall x :: x in r <==> x == p || x in s
    ensures Distinct(r) && SortedBy(keys, dir, r) && Stable(keys, r)
    decreases |s|
  {
    if s == [] || Precedes(dir, keys[p], keys[s[0]]) then
      PrependKeepsOrder(keys, dir, p, s);
      [p] + s
    else
      var t := Insert(keys, dir, p, s[1..]);
      ConsKeepsOrder(keys, dir, p, s, t);
      [s[0]] + t
  }

  lemma ConsKeepsOrder(keys: seq<Option<real>>, dir: Direction, p: nat, s: seq<nat>, t: seq<nat>)
    requires p < |keys| && InBounds(keys, s) && s != [] && !Precedes(dir, keys[p], keys[s[0]])
    requires Distinct(s) && SortedBy(keys, dir, s) && Stable(keys, s)
    requires forall a :: 0 <= a < |s| ==> s[a] < p
    requires InBounds(keys, t) && Distinct(t) && SortedBy(keys, dir, t) && Stable(keys, t)
    requires forall x :: x in t <==> x == p || x in s[1..]
    ensures InBounds(keys, [s[0]] + t)
    ensures Distinct([s[0]] + t) && SortedBy(keys, dir, [s[0]] + t) && Stable(keys, [s[0]] + t)
  {
    forall b | 0 <= b < |t|
      ensures t[b] != s[0] && !Precedes(dir, keys[t[b]], keys[s[0]])
      ensures keys[t[b]] == keys[s[0]] ==> s[0] < t[b]
    {
      assert t[b] in t;
      if t[b] != p {
        var c :| 0 <= c < |s[1..]| && s[1..][c] == t[b];
        assert s[c + 1] == t[b];
      }
    }
  }

  lemma PrependKeepsOrder(keys: seq<Option<real>>, dir: Direction, p: nat, s: seq<nat>)
    requires p < |keys| && InBounds(keys, s)
    requires Distinct(s) && SortedBy(keys, dir, s) && Stable(keys, s)
    requires forall a :: 0 <= a < |s| ==> s[a] < p
    requires s == [] || Precedes(dir, keys[p], keys[s[0]])
    ensures InBounds(keys, [p] + s)
    ensures Distinct([p] + s) && SortedBy(keys, dir, [p] + s) && Stable(keys, [p] + s)
  {
    var r := [p] + s;
    forall b | 0 < b < |r|
      ensures !Precedes(dir, keys[r[b]], keys[p]) && keys[r[b]] != keys[p]
    {
      if b > 1 {
        assert !Precedes(dir, keys[s[b - 1]], keys[s[0]]);
      }
      if dir == Desc {
        if Above(keys[r[b]], keys[p]) { AboveTransitive(keys[r[b]], keys[p], keys[s[0]]); }
      } else {
        if Above(keys[p], keys[r[b]]) { AboveTransitive(keys[s[0]], keys[p], keys[r[b]]); }
      }
    }
  }

  /** The positions 0 .. n-1 in `ORDER BY rating <dir>` order. */
  function Order(keys: seq<Option<real>>, dir: Direction, n: nat): (r: seq<nat>)
    requires n <= |keys|
    ensures |r| == n && InBounds(keys, r)
    ensures forall x :: x in r <==> 0 <= x < n
    ensures Distinct(r) && SortedBy(keys, dir, r) && Stable(keys, r)
  {
    if n == 0 then []
    else
      var s := Order(keys, dir, n - 1);
      assert forall a :: 0 <= a < |s| ==> s[a] in s;
      Insert(keys, dir, n - 1, s)
  }

  /** The place of x in s. */
  function IndexOf(s: seq<nat>, x: nat): (k: nat)
    requires x in s
    ensures k < |s| && s[k] == x
  {
    if s[0] == x then 0 else 1 + IndexOf(s[1..], x)
  }

  /** In a sorted, stable order, which of two distinct listed positions
      comes first is decided by their ratings, and for equal ratings by the
      positions themselves. */
  lemma PlaceDecidedByRating(keys: seq<Option<real>>, dir: Direction, s: seq<nat>, i: nat, j: nat)
    requires InBounds(keys, s) && SortedBy(keys, dir, s) && Stable(keys, s)
    requires i in s && j in s && i != j
    ensures i < |keys| && j < |keys|
    ensures IndexOf(s, i) < IndexOf(s, j)
        <==> Precedes(dir, keys[i], keys[j]) || (keys[i] == keys[j] && i < j)
  {
    var a, b := IndexOf(s, i), IndexOf(s, j);
    if a < b {
      assert !Precedes(dir, keys[s[b]], keys[s[a]]);
    } else {
      assert a != b;
      assert !Precedes(dir, keys[s[a]], keys[s[b]]);
    }
  }
}
