/** The application's SQLite tables read as values.  A table is the list of its rows in rowid
    order together with the AUTOINCREMENT counter that numbers the next row.  The SQL statements
    the route handlers run (INSERT, UPDATE ... WHERE, DELETE ... WHERE, SELECT ... WHERE and
    `fetchone`) are the functions of this module; a WHERE clause is a selector on rows. */
module Tables {

  datatype Option<T> = None | Some(value: T)

  /** One row: its INTEGER PRIMARY KEY and the rest of its columns. */
  datatype Row<T> = Row(id: nat, val: T)

  datatype Table<T> = Table(rows: seq<Row<T>>, nextId: nat)

  /** The ids of the rows grow strictly in row order. */
  predicate IncreasingIds<T>(rows: seq<Row<T>>) {
    forall i, j :: 0 <= i < j < |rows| ==> rows[i].id < rows[j].id
  }

  /** What AUTOINCREMENT keeps: ids are unique, in row order, and below the counter. */
  predicate Keyed<T>(t: Table<T>) {
    IncreasingIds(t.rows) && forall i :: 0 <= i < |t.rows| ==> t.rows[i].id < t.nextId
  }

  /** A table as CREATE TABLE leaves it: no rows, and 1 is the first id SQLite hands out. */
  function Empty<T>(): Table<T> {
    Table([], 1)
  }

  /** INSERT: the new row goes after every existing row and gets an id no row has. */
  function Insert<T>(t: Table<T>, v: T): (r: Table<T>)
    ensures |r.rows| == |t.rows| + 1 && r.rows[..|t.rows|] == t.rows
    ensures r.rows[|t.rows|] == Row(t.nextId, v) && r.nextId == t.nextId + 1
    ensures Keyed(t) ==> Keyed(r) && forall i :: 0 <= i < |t.rows| ==> r.rows[i].id != r.rows[|t.rows|].id
  {
    Table(t.rows + [Row(t.nextId, v)], t.nextId + 1)
  }

  /** One INSERT per value, in order. */
  function InsertAll<T>(t: Table<T>, vs: seq<T>): (r: Table<T>)
    ensures |r.rows| == |t.rows| + |vs| && r.rows[..|t.rows|] == t.rows
    ensures forall k :: 0 <= k < |vs| ==> r.rows[|t.rows| + k] == Row(t.nextId + k, vs[k])
    ensures r.nextId == t.nextId + |vs|
    ensures Keyed(t) ==> Keyed(r)
    decreases |vs|
  {
    if vs == [] then t else Insert(InsertAll(t, vs[..|vs| - 1]), vs[|vs| - 1])
  }

  /** One more INSERT after a run of them. */
  lemma InsertAllSnoc<T>(t: Table<T>, vs: seq<T>, v: T)
    ensures InsertAll(t, vs + [v]) == Insert(InsertAll(t, vs), v)
  {
    assert (vs + [v])[..|vs|] == vs;
  }

  /** The selector of `WHERE id = ?`. */
  function ById<T>(id: nat): Row<T> -> bool {
    (r: Row<T>) => r.id == id
  }

  /** The selector that keeps exactly the rows `sel` does not. */
  function Not<T>(sel: Row<T> -> bool): Row<T> -> bool {
    (r: Row<T>) => !sel(r)
  }

  /** At most one row is selected. */
  ghost predicate AtMostOne<T>(rows: seq<Row<T>>, sel: Row<T> -> bool) {
    forall i, j :: 0 <= i < |rows| && 0 <= j < |rows| && sel(rows[i]) && sel(rows[j]) ==> i == j
  }

  /** SELECT ... WHERE: the selected rows (each selected row, and nothing else). */
  function Where<T>(rows: seq<Row<T>>, sel: Row<T> -> bool): (r: seq<Row<T>>)
    ensures forall k :: 0 <= k < |r| ==> r[k] in rows && sel(r[k])
    ensures forall i :: 0 <= i < |rows| && sel(rows[i]) ==> rows[i] in r
    ensures |r| <= |rows|
  {
    if rows == [] then []
    else if sel(rows[0]) then [rows[0]] + Where(rows[1..], sel)
    else Where(rows[1..], sel)
  }

  /** SELECT ... WHERE keeps every selected row as often as the table holds it, and no other row. */
  lemma {:induction false} WhereCounts<T>(rows: seq<Row<T>>, sel: Row<T> -> bool)
    ensures multiset(Where(rows, sel)) <= multiset(rows)
    ensures forall x :: multiset(Where(rows, sel))[x] == if sel(x) then multiset(rows)[x] else 0
  {
    if rows != [] {
      var head, tail := rows[0], rows[1..];
      WhereCounts(tail, sel);
      assert rows == [head] + tail;
      assert multiset(rows) == multiset{head} + multiset(tail);
      if sel(head) {
        assert multiset(Where(rows, sel)) == multiset{head} + multiset(Where(tail, sel));
      } else {
        assert Where(rows, sel) == Where(tail, sel);
      }
    }
  }

  /** `fetchone()` on SELECT ... WHERE: the position of the first selected row, if any. */
  function FirstIndex<T>(rows: seq<Row<T>>, sel: Row<T> -> bool): (k: Option<nat>)
    ensures k.None? <==> forall i :: 0 <= i < |rows| ==> !sel(rows[i])
    ensures k.Some? ==> k.value < |rows| && sel(rows[k.value])
    ensures k.Some? ==> forall i :: 0 <= i < k.value ==> !sel(rows[i])
  {
    if rows == [] then None
    else if sel(rows[0]) then Some(0)
    else match FirstIndex(rows[1..], sel)
      case None => None
      case Some(j) => Some(j + 1)
  }

  /** UPDATE ... SET ... WHERE, on the rows: every selected row gets its columns rewritten by `f`
      and keeps its id; every other row is untouched. */
  function UpdatedRows<T>(rows: seq<Row<T>>, sel: Row<T> -> bool, f: T -> T): (r: seq<Row<T>>)
    ensures |r| == |rows|
    ensures forall k :: 0 <= k < |rows| ==> r[k].id == rows[k].id
    ensures forall k :: 0 <= k < |rows| && sel(rows[k]) ==> r[k].val == f(rows[k].val)
    ensures forall k :: 0 <= k < |rows| && !sel(rows[k]) ==> r[k] == rows[k]
  {
    if rows == [] then []
    else [if sel(rows[0]) then Row(rows[0].id, f(rows[0].val)) else rows[0]] + UpdatedRows(rows[1..], sel, f)
  }

  /** UPDATE ... SET ... WHERE on a table; the counter does not move. */
  function UpdateWhere<T>(t: Table<T>, sel: Row<T> -> bool, f: T -> T): (r: Table<T>)
    ensures r.nextId == t.nextId && |r.rows| == |t.rows|
    ensures Keyed(t) ==> Keyed(r)
  {
    Table(UpdatedRows(t.rows, sel, f), t.nextId)
  }

  /** DELETE ... WHERE: the rows that are not selected stay, in order; the counter does not move,
      so a deleted id is never handed out again. */
  function DeleteWhere<T>(t: Table<T>, sel: Row<T> -> bool): (r: Table<T>)
    ensures forall k :: 0 <= k < |r.rows| ==> r.rows[k] in t.rows && !sel(r.rows[k])
    ensures forall i :: 0 <= i < |t.rows| && !sel(t.rows[i]) ==> t.rows[i] in r.rows
    ensures r.nextId == t.nextId
    ensures Keyed(t) ==> Keyed(r)
  {
    WhereKeepsOrder(t.rows, Not(sel));
    Table(Where(t.rows, Not(sel)), t.nextId)
  }

  /** Filtering keeps the rows in their order, so it keeps ids increasing. */
  lemma {:induction false} WhereKeepsOrder<T>(rows: seq<Row<T>>, sel: Row<T> -> bool)
    ensures IncreasingIds(rows) ==> IncreasingIds(Where(rows, sel))
  {
    if rows != [] && IncreasingIds(rows) {
      var tail := rows[1..];
      assert IncreasingIds(tail) by {
        forall i, j | 0 <= i < j < |tail| ensures tail[i].id < tail[j].id {
          assert tail[i] == rows[i + 1] && tail[j] == rows[j + 1];
        }
      }
      WhereKeepsOrder(tail, sel);
      var w := Where(tail, sel);
      if sel(rows[0]) {
        var r := [rows[0]] + w;
        assert Where(rows, sel) == r;
        forall i, j | 0 <= i < j < |r| ensures r[i].id < r[j].id {
          assert r[j] == w[j - 1];
          var n :| 0 <= n < |tail| && tail[n] == w[j - 1];
          assert r[j] == rows[n + 1];
          if i > 0 {
            assert r[i] == w[i - 1];
          }
        }
      }
    }
  }

  /** `after` is `before` with the row of that id, if any, rewritten by `f`, and nothing else changed. */
  ghost predicate OnlyRowChanged<T>(before: seq<Row<T>>, after: seq<Row<T>>, id: nat, f: T -> T) {
    |after| == |before| &&
    forall k :: 0 <= k < |before| ==>
      after[k] == if before[k].id == id then Row(id, f(before[k].val)) else before[k]
  }

  /** `UPDATE ... WHERE id=?` rewrites the row with that id and no other. */
  lemma UpdateByIdChangesOnlyTarget<T>(t: Table<T>, id: nat, f: T -> T)
    ensures OnlyRowChanged(t.rows, UpdateWhere(t, ById(id), f).rows, id, f)
  {
    var r := UpdateWhere(t, ById(id), f).rows;
    forall k | 0 <= k < |t.rows|
      ensures r[k] == if t.rows[k].id == id then Row(id, f(t.rows[k].val)) else t.rows[k]
    {
      if ById(id)(t.rows[k]) {
        assert r[k].id == t.rows[k].id && r[k].val == f(t.rows[k].val);
      }
    }
  }

  /** Under a selector that picks at most one row, UPDATE changes that single row and no other,
      whatever the selector looks at. */
  lemma UpdateSingleRow<T>(rows: seq<Row<T>>, sel: Row<T> -> bool, f: T -> T, k: nat)
    requires AtMostOne(rows, sel)
    requires k < |rows| && sel(rows[k])
    ensures UpdatedRows(rows, sel, f) == rows[k := Row(rows[k].id, f(rows[k].val))]
  {
    var r := UpdatedRows(rows, sel, f);
    forall i | 0 <= i < |rows| ensures r[i] == rows[k := Row(rows[k].id, f(rows[k].val))][i] {
      if i != k {
        assert !sel(rows[i]);
      }
    }
  }

  /** In a keyed table `WHERE id = ?` picks at most one row. */
  lemma KeyedIdsUnique<T>(t: Table<T>, id: nat)
    requires Keyed(t)
    ensures AtMostOne(t.rows, ById(id))
  {
  }

  /** Appending a row the WHERE clause rejects does not change the query. */
  lemma {:induction false} WhereAppendUnselected<T>(rows: seq<Row<T>>, x: Row<T>, sel: Row<T> -> bool)
    requires !sel(x)
    ensures Where(rows + [x], sel) == Where(rows, sel)
  {
    if rows == [] {
      assert [x][1..] == [];
    } else {
      assert (rows + [x])[1..] == rows[1..] + [x];
      WhereAppendUnselected(rows[1..], x, sel);
    }
  }

  /** Appending a row the WHERE clause selects adds it last to the query. */
  lemma {:induction false} WhereAppendSelected<T>(rows: seq<Row<T>>, x: Row<T>, sel: Row<T> -> bool)
    requires sel(x)
    ensures Where(rows + [x], sel) == Where(rows, sel) + [x]
  {
    if rows == [] {
      assert [x][1..] == [];
    } else {
      assert (rows + [x])[1..] == rows[1..] + [x];
      WhereAppendSelected(rows[1..], x, sel);
    }
  }
}
