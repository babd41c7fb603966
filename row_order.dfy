/** Tables are maps from generated id to row. A JPQL query is a filter over a
    table; its rows come back in ascending id order when the query has no
    ORDER BY (the model's stand-in for the database's own order), or in the
    order its ORDER BY names. */
module RowOrder {

  lemma EmptyOrElement(s: set<int>)
    ensures s == {} || exists x :: x in s
  {
    if forall x :: x !in s {
      assert s == {};
    }
  }

  lemma SomeElement(s: set<int>) returns (y: int)
    requires s != {}
    ensures y in s
  {
    EmptyOrElement(s);
    var z :| z in s;
    y := z;
  }

  lemma MinExists(s: set<int>)
    requires s != {}
    ensures exists m :: m in s && forall x :: x in s ==> m <= x
  {
    var y := SomeElement(s);
    if s != {y} {
      MinExists(s - {y});
      var m :| m in s - {y} && forall x :: x in s - {y} ==> m <= x;
      var best := if y < m then y else m;
      forall x | x in s ensures best <= x {
        if x != y { assert x in s - {y}; }
      }
    } else {
      assert forall x :: x in s ==> y <= x;
    }
  }

  lemma MaxExists(s: set<int>)
    requires s != {}
    ensures exists m :: m in s && forall x :: x in s ==> x <= m
  {
    var y := SomeElement(s);
    if s != {y} {
      MaxExists(s - {y});
      var m :| m in s - {y} && forall x :: x in s - {y} ==> x <= m;
      var best := if y > m then y else m;
      forall x | x in s ensures x <= best {
        if x != y { assert x in s - {y}; }
      }
    } else {
      assert forall x :: x in s ==> x <= y;
    }
  }

  function MinOf(s: set<int>): (m: int)
    requires s != {}
    ensures m in s && forall x :: x in s ==> m <= x
  {
    MinExists(s);
    var m :| m in s && forall x :: x in s ==> m <= x; m
  }

  function MaxOf(s: set<int>): (m: int)
    requires s != {}
    ensures m in s && forall x :: x in s ==> x <= m
  {
    MaxExists(s);
    var m :| m in s && forall x :: x in s ==> x <= m; m
  }

  /** The ids of `s`, each once, smallest first. */
  function Ascending(s: set<int>): (r: seq<int>)
    ensures |r| == |s|
    ensures forall x :: x in r <==> x in s
    ensures forall i, j :: 0 <= i < j < |r| ==> r[i] < r[j]
    decreases s
  {
    if s == {} then []
    else
      var m := MinOf(s);
      var rest := Ascending(s - {m});
      assert forall i :: 0 <= i < |rest| ==> m < rest[i];
      [m] + rest
  }

  /** The ids of `s`, each once, largest first (`ORDER BY id DESC`). */
  function Descending(s: set<int>): (r: seq<int>)
    ensures |r| == |s|
    ensures forall x :: x in r <==> x in s
    ensures forall i, j :: 0 <= i < j < |r| ==> r[i] > r[j]
    decreases s
  {
    if s == {} then []
    else
      var m := MaxOf(s);
      var rest := Descending(s - {m});
      assert forall i :: 0 <= i < |rest| ==> m > rest[i];
      [m] + rest
  }

  /** The ids whose rows satisfy a query's WHERE clause. */
  function Select<E>(table: map<int, E>, keep: E -> bool): (ids: set<int>)
    ensures forall k :: k in ids <==> k in table && keep(table[k])
  {
    set k | k in table && keep(table[k])
  }

  /** The rows stored under `ids`, in that order. */
  function RowsAt<E>(table: map<int, E>, ids: seq<int>): (rows: seq<E>)
    requires forall i :: 0 <= i < |ids| ==> ids[i] in table
    ensures |rows| == |ids|
    ensures forall i :: 0 <= i < |ids| ==> rows[i] == table[ids[i]]
  {
    seq(|ids|, i requires 0 <= i < |ids| => table[ids[i]])
  }

  /** A query without ORDER BY: the kept rows, smallest id first. */
  function Query<E>(table: map<int, E>, keep: E -> bool): (rows: seq<E>)
    ensures |rows| == |Select(table, keep)|
    ensures forall i :: 0 <= i < |rows| ==> keep(rows[i])
    ensures forall k :: k in table && keep(table[k]) ==> table[k] in rows
  {
    var ids := Ascending(Select(table, keep));
    RowsAtHoldsEach(table, ids);
    RowsAt(table, ids)
  }

  /** Entry `i` of a query without ORDER BY is the row with the `i`-th
      smallest kept id. */
  lemma {:induction false} QueryEntries<E>(table: map<int, E>, keep: E -> bool, ids: seq<int>)
    requires ids == Ascending(Select(table, keep))
    ensures |Query(table, keep)| == |ids|
    ensures forall i :: 0 <= i < |ids| ==> ids[i] in table && Query(table, keep)[i] == table[ids[i]]
  {
    assert Query(table, keep) == RowsAt(table, ids);
  }

  /** A query with `ORDER BY id DESC`. */
  function QueryIdDescending<E>(table: map<int, E>, keep: E -> bool): (rows: seq<E>)
    ensures |rows| == |Select(table, keep)|
    ensures forall i :: 0 <= i < |rows| ==> keep(rows[i])
    ensures forall k :: k in table && keep(table[k]) ==> table[k] in rows
  {
    var ids := Descending(Select(table, keep));
    RowsAtHoldsEach(table, ids);
    RowsAt(table, ids)
  }

  /** The row of every listed id is among the rows read by the list. */
  lemma {:induction false} RowsAtHoldsEach<E>(table: map<int, E>, ids: seq<int>)
    requires forall i :: 0 <= i < |ids| ==> ids[i] in table
    ensures forall k :: k in table && k in ids ==> table[k] in RowsAt(table, ids)
  {
    forall k | k in table && k in ids
      ensures table[k] in RowsAt(table, ids)
    {
      var i := IndexOf(ids, k);
      assert RowsAt(table, ids)[i] == table[k];
    }
  }

  function IndexOf(ids: seq<int>, k: int): (i: int)
    requires k in ids
    ensures 0 <= i < |ids| && ids[i] == k
  {
    if ids[0] == k then 0 else 1 + IndexOf(ids[1..], k)
  }
}
