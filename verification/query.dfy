/**
 The two query shapes the library issues against its tables, over a table
 modelled as the sequence of its rows in row-id order:

 - `filter_by(...).first()`  -> `First`
 - `filter_by(...).count()`  -> `Count`

 plus the row id SQLite gives a newly inserted row (`NextId`).
 */
module Query {

  datatype Option<T> = None | Some(value: T)

  /** Position of the first row satisfying `p`, or None when no row does. */
  function First<T>(rows: seq<T>, p: T -> bool): (r: Option<nat>)
    ensures r.Some? ==> r.value < |rows| && p(rows[r.value])
    ensures r.Some? ==> forall j :: 0 <= j < r.value ==> !p(rows[j])
    ensures r.None? <==> forall j :: 0 <= j < |rows| ==> !p(rows[j])
    decreases |rows|
  {
    if |rows| == 0 then None
    else if p(rows[0]) then Some(0)
    else match First(rows[1..], p)
      case None => None
      case Some(k) => Some(k + 1)
  }

  /** The positions of the rows satisfying `p`. */
  function IndicesWhere<T>(rows: seq<T>, p: T -> bool): set<nat>
  {
    set j: nat | j < |rows| && p(rows[j])
  }

  /** Number of rows satisfying `p`. */
  function Count<T>(rows: seq<T>, p: T -> bool): (n: nat)
    ensures n <= |rows|
    ensures n == 0 <==> forall j :: 0 <= j < |rows| ==> !p(rows[j])
    decreases |rows|
  {
    if |rows| == 0 then 0
    else Count(rows[..|rows| - 1], p) + (if p(rows[|rows| - 1]) then 1 else 0)
  }

  /** The count is the number of matching positions. */
  lemma {:induction false} CountIsCardinality<T>(rows: seq<T>, p: T -> bool)
    ensures Count(rows, p) == |IndicesWhere(rows, p)|
    decreases |rows|
  {
    if |rows| > 0 {
      var n := |rows| - 1;
      CountIsCardinality(rows[..n], p);
      var before := IndicesWhere(rows[..n], p);
      assert n !in before;
      if p(rows[n]) {
        assert IndicesWhere(rows, p) == before + {n};
      } else {
        assert IndicesWhere(rows, p) == before;
      }
    }
  }

  /** Inserting a row adds one to the count exactly when the row matches. */
  lemma CountAppend<T>(rows: seq<T>, p: T -> bool, x: T)
    ensures Count(rows + [x], p) == Count(rows, p) + (if p(x) then 1 else 0)
  {
  }

  /** Updating one row changes the count only by that row's before/after match. */
  lemma {:induction false} CountUpdate<T>(rows: seq<T>, p: T -> bool, k: nat, x: T)
    requires k < |rows|
    ensures Count(rows[k := x], p)
            == Count(rows, p) - (if p(rows[k]) then 1 else 0) + (if p(x) then 1 else 0)
    decreases |rows|
  {
    var n := |rows| - 1;
    if k == n {
      assert rows[k := x][..n] == rows[..n];
    } else {
      assert rows[k := x][..n] == rows[..n][k := x];
      CountUpdate(rows[..n], p, k, x);
    }
  }

  /**
   The row id SQLite assigns to a row inserted without one into a table
   whose key is an INTEGER PRIMARY KEY: one more than the largest id in
   the table, or 1 when the table is empty.
   */
  function NextId<T>(rows: seq<T>, id: T -> nat): (n: nat)
    ensures n >= 1
    ensures forall j :: 0 <= j < |rows| ==> id(rows[j]) < n
    ensures n == 1 || exists j :: 0 <= j < |rows| && id(rows[j]) == n - 1
    decreases |rows|
  {
    if |rows| == 0 then 1
    else
      var rest := NextId(rows[..|rows| - 1], id);
      var last := id(rows[|rows| - 1]);
      if last + 1 > rest then last + 1 else rest
  }
}
