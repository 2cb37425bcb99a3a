/** The delete list built from the result of a query: the value columns'
    paths and types, and one (path, timestamp) pair per non-null cell. */
module Deletion {
  import opened Wrappers
  import opened ResultSets
  import opened Reassembly

  /** What is handed to the delete builder: the paths and types of columns
      2..n, and the data points to delete, in the order they were appended. */
  datatype DeleteRequest = DeleteRequest(paths: seq<string>, types: seq<int>, points: seq<(string, int)>)

  /** The names of the value columns, in column order. */
  function ValuePaths(columns: seq<Column>): (paths: seq<string>)
    requires |columns| >= 1
    ensures |paths| + 1 == |columns|
    ensures forall c :: 0 <= c < |paths| ==> paths[c] == columns[c + 1].name
  {
    seq(|columns| - 1, c requires 0 <= c < |columns| - 1 => columns[c + 1].name)
  }

  /** The types of the value columns, in column order. */
  function ValueTypes(columns: seq<Column>): (types: seq<int>)
    requires |columns| >= 1
    ensures |types| + 1 == |columns|
    ensures forall c :: 0 <= c < |types| ==> types[c] == columns[c + 1].sqlType
  {
    seq(|columns| - 1, c requires 0 <= c < |columns| - 1 => columns[c + 1].sqlType)
  }

  /** The delete points of the first `n` cells of a row, left to right: only
      SQL NULL is skipped, the null marker and the magic number are not. */
  function RowDeletes(paths: seq<string>, row: Row, n: nat): seq<(string, int)>
    requires n <= |row.cells| <= |paths|
  {
    if n == 0 then []
    else RowDeletes(paths, row, n - 1) + (if row.cells[n - 1].Some? then [(paths[n - 1], row.time)] else [])
  }

  predicate Fits(paths: seq<string>, rows: seq<Row>) {
    forall r :: 0 <= r < |rows| ==> |rows[r].cells| <= |paths|
  }

  /** The delete points of a table, in row-major order. */
  function DeletePoints(paths: seq<string>, rows: seq<Row>): seq<(string, int)>
    requires Fits(paths, rows)
  {
    if rows == [] then []
    else
      var last := rows[|rows| - 1];
      DeletePoints(paths, rows[..|rows| - 1]) + RowDeletes(paths, last, |last.cells|)
  }

  /** The delete request of a result set. */
  function DeleteRequestOf(t: ResultSet): DeleteRequest
    requires |t.columns| >= 1
  {
    var paths := ValuePaths(t.columns);
    DeleteRequest(paths, ValueTypes(t.columns), DeletePoints(paths, t.rows))
  }

  /** The non-null cells among the first `n` of a row. */
  function NonNullBelow(row: Row, n: int): set<int> {
    set c | 0 <= c < n && c < |row.cells| && row.cells[c].Some?
  }

  function NonNullCount(rows: seq<Row>): nat {
    if rows == [] then 0
    else
      var last := rows[|rows| - 1];
      NonNullCount(rows[..|rows| - 1]) + |NonNullBelow(last, |last.cells|)|
  }

  lemma {:induction false} RowDeletesCount(paths: seq<string>, row: Row, n: nat)
    requires n <= |row.cells| <= |paths|
    ensures |RowDeletes(paths, row, n)| == |NonNullBelow(row, n)|
  {
    if n > 0 {
      RowDeletesCount(paths, row, n - 1);
      if row.cells[n - 1].Some? {
        assert NonNullBelow(row, n) == NonNullBelow(row, n - 1) + {n - 1};
      } else {
        assert NonNullBelow(row, n) == NonNullBelow(row, n - 1);
      }
    }
  }

  /** One delete point per non-null cell. */
  lemma {:induction false} DeletePointsCount(paths: seq<string>, rows: seq<Row>)
    requires Fits(paths, rows)
    ensures |DeletePoints(paths, rows)| == NonNullCount(rows)
  {
    if rows != [] {
      var last := rows[|rows| - 1];
      DeletePointsCount(paths, rows[..|rows| - 1]);
      RowDeletesCount(paths, last, |last.cells|);
    }
  }

  lemma {:induction false} RowDeletesMembers(paths: seq<string>, row: Row, n: nat, d: (string, int))
    requires n <= |row.cells| <= |paths|
    ensures d in RowDeletes(paths, row, n) <==>
      exists c :: 0 <= c < n && row.cells[c].Some? && d == (paths[c], row.time)
  {
    if n > 0 {
      RowDeletesMembers(paths, row, n - 1, d);
    }
  }

  /** The row a delete point comes from. */
  lemma {:induction false} DeletePointRow(paths: seq<string>, rows: seq<Row>, d: (string, int)) returns (r: nat)
    requires Fits(paths, rows) && d in DeletePoints(paths, rows)
    ensures r < |rows| && d in RowDeletes(paths, rows[r], |rows[r].cells|)
  {
    var init, last := rows[..|rows| - 1], rows[|rows| - 1];
    if d in DeletePoints(paths, init) {
      r := DeletePointRow(paths, init, d);
      assert rows[r] == init[r];
    } else {
      r := |rows| - 1;
    }
  }

  /** Every delete point of a row is a delete point of the table. */
  lemma {:induction false} RowDeletePoint(paths: seq<string>, rows: seq<Row>, r: nat, d: (string, int))
    requires Fits(paths, rows) && r < |rows| && d in RowDeletes(paths, rows[r], |rows[r].cells|)
    ensures d in DeletePoints(paths, rows)
  {
    var init := rows[..|rows| - 1];
    if r < |init| {
      assert init[r] == rows[r];
      RowDeletePoint(paths, init, r, d);
    }
  }

  /** A pair is deleted exactly when some row has a non-null cell in that
      path's column at that time. */
  lemma DeletePointsMembers(paths: seq<string>, rows: seq<Row>, d: (string, int))
    requires Fits(paths, rows)
    ensures d in DeletePoints(paths, rows) <==>
      exists r, c :: 0 <= r < |rows| && 0 <= c < |rows[r].cells| && rows[r].cells[c].Some?
        && d == (paths[c], rows[r].time)
  {
    if d in DeletePoints(paths, rows) {
      var r := DeletePointRow(paths, rows, d);
      RowDeletesMembers(paths, rows[r], |rows[r].cells|, d);
    }
    if exists r, c :: 0 <= r < |rows| && 0 <= c < |rows[r].cells| && rows[r].cells[c].Some?
        && d == (paths[c], rows[r].time)
    {
      var r, c :| 0 <= r < |rows| && 0 <= c < |rows[r].cells| && rows[r].cells[c].Some?
        && d == (paths[c], rows[r].time);
      RowDeletesMembers(paths, rows[r], |rows[r].cells|, d);
      RowDeletePoint(paths, rows, r, d);
    }
  }

  /** Row-major order: the points of earlier rows come before those of later
      rows. */
  lemma {:induction false} DeletePointsAppend(paths: seq<string>, xs: seq<Row>, ys: seq<Row>)
    requires Fits(paths, xs) && Fits(paths, ys)
    ensures Fits(paths, xs + ys)
    ensures DeletePoints(paths, xs + ys) == DeletePoints(paths, xs) + DeletePoints(paths, ys)
  {
    var zs := xs + ys;
    forall r | 0 <= r < |zs| ensures |zs[r].cells| <= |paths| {
      if r < |xs| {
        assert zs[r] == xs[r];
      } else {
        assert zs[r] == ys[r - |xs|];
      }
    }
    if ys == [] {
      assert zs == xs;
    } else {
      var init, last := ys[..|ys| - 1], ys[|ys| - 1];
      assert forall r :: 0 <= r < |init| ==> init[r] == ys[r];
      DeletePointsAppend(paths, xs, init);
      assert zs[..|zs| - 1] == xs + init;
      assert zs[|zs| - 1] == last;
    }
  }

  /** A row holding only the magic number gives no data point to a query but
      is still deleted. */
  lemma SentinelRowDeleted(path: string, time: int, nullStr: string)
    ensures
      var t: ResultSet := Table([Column("time", BIGINT), Column(path, DOUBLE)], [Row(time, [Some(MAGIC_SENTINEL)])]);
      && LiveCount(t.rows, nullStr) == 0
      && DeleteRequestOf(t) == DeleteRequest([path], [DOUBLE], [(path, time)])
  {
    var row := Row(time, [Some(MAGIC_SENTINEL)]);
    var columns := [Column("time", BIGINT), Column(path, DOUBLE)];
    assert LiveBelow(row, 1, nullStr) == {};
    assert [row][..0] == [];
    assert ValuePaths(columns) == [path];
    assert ValueTypes(columns) == [DOUBLE];
    assert RowDeletes([path], row, 1) == [(path, time)];
    assert DeletePoints([path], [row]) == DeletePoints([path], []) + RowDeletes([path], row, 1);
  }
}
