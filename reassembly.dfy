/** What the executor makes of a result set: which cells are live, the data
    points they decode to, which columns produced a value, and the tag values
    recovered from the names of those columns. */
module Reassembly {
  import opened Wrappers
  import opened ResultSets
  import opened TagPaths
  import opened QueryModel

  // ---------------------------------------------------------------------
  // Live cells and their data points
  // ---------------------------------------------------------------------

  /** The magic number the backend returns for a missing value. */
  const MAGIC_SENTINEL: string := "2.147483646E9"

  /** A cell that adds nothing: SQL NULL, the delete builder's null marker,
      or the magic number. */
  predicate Skipped(cell: Option<string>, nullStr: string) {
    cell.None? || cell.value == nullStr || cell.value == MAGIC_SENTINEL
  }

  /** A live cell decoded by the type of column 2. */
  function Decode(time: int, text: string, colType: int): (d: DataPoint)
    ensures d.DataPoint? <==> colType in {BIGINT, INTEGER, DOUBLE, VARCHAR}
    ensures d.DataPoint? ==> d.time == time && d.value.text == text
    ensures d.DataPoint? ==>
      && (d.value.IntValue? <==> colType == BIGINT || colType == INTEGER)
      && (d.value.DoubleValue? <==> colType == DOUBLE)
      && (d.value.TextValue? <==> colType == VARCHAR)
  {
    if colType == BIGINT || colType == INTEGER then DataPoint(time, IntValue(text))
    else if colType == DOUBLE then DataPoint(time, DoubleValue(text))
    else if colType == VARCHAR then DataPoint(time, TextValue(text))
    else NullPoint
  }

  /** The data points of the first `n` cells of a row, left to right. */
  function RowSamples(row: Row, n: nat, colType: int, nullStr: string): seq<DataPoint>
    requires n <= |row.cells|
  {
    if n == 0 then []
    else
      RowSamples(row, n - 1, colType, nullStr)
      + (if Skipped(row.cells[n - 1], nullStr) then []
         else [Decode(row.time, row.cells[n - 1].value, colType)])
  }

  /** The data points of a table, row by row. */
  function TableSamples(rows: seq<Row>, colType: int, nullStr: string): seq<DataPoint> {
    if rows == [] then []
    else
      var last := rows[|rows| - 1];
      TableSamples(rows[..|rows| - 1], colType, nullStr) + RowSamples(last, |last.cells|, colType, nullStr)
  }

  /** The live cells among the first `n` of a row. */
  function LiveBelow(row: Row, n: int, nullStr: string): set<int> {
    set c | 0 <= c < n && c < |row.cells| && !Skipped(row.cells[c], nullStr)
  }

  /** The number of live cells of a table. */
  function LiveCount(rows: seq<Row>, nullStr: string): nat {
    if rows == [] then 0
    else
      var last := rows[|rows| - 1];
      LiveCount(rows[..|rows| - 1], nullStr) + |LiveBelow(last, |last.cells|, nullStr)|
  }

  lemma {:induction false} RowSamplesCount(row: Row, n: nat, colType: int, nullStr: string)
    requires n <= |row.cells|
    ensures |RowSamples(row, n, colType, nullStr)| == |LiveBelow(row, n, nullStr)|
  {
    if n > 0 {
      RowSamplesCount(row, n - 1, colType, nullStr);
      var a, b := LiveBelow(row, n - 1, nullStr), LiveBelow(row, n, nullStr);
      if Skipped(row.cells[n - 1], nullStr) {
        assert b == a;
      } else {
        assert b == a + {n - 1};
      }
    }
  }

  /** One data point per live cell: the sample size the executor counts is
      the number of data points it adds. */
  lemma {:induction false} SampleCount(rows: seq<Row>, colType: int, nullStr: string)
    ensures |TableSamples(rows, colType, nullStr)| == LiveCount(rows, nullStr)
  {
    if rows != [] {
      var last := rows[|rows| - 1];
      SampleCount(rows[..|rows| - 1], colType, nullStr);
      RowSamplesCount(last, |last.cells|, colType, nullStr);
    }
  }

  /** A table none of whose cells is live gives no data point. */
  lemma {:induction false} NoLiveCells(rows: seq<Row>, nullStr: string)
    requires forall r, c :: 0 <= r < |rows| && 0 <= c < |rows[r].cells| ==> Skipped(rows[r].cells[c], nullStr)
    ensures LiveCount(rows, nullStr) == 0
  {
    if rows != [] {
      var last := rows[|rows| - 1];
      NoLiveCells(rows[..|rows| - 1], nullStr);
      assert LiveBelow(last, |last.cells|, nullStr) == {};
    }
  }

  lemma {:induction false} RowSamplesMembers(row: Row, n: nat, colType: int, nullStr: string, d: DataPoint)
    requires n <= |row.cells|
    ensures d in RowSamples(row, n, colType, nullStr) <==>
      exists c :: 0 <= c < n && !Skipped(row.cells[c], nullStr) && d == Decode(row.time, row.cells[c].value, colType)
  {
    if n > 0 {
      RowSamplesMembers(row, n - 1, colType, nullStr, d);
    }
  }

  /** The row a data point comes from. */
  lemma {:induction false} SampleRow(rows: seq<Row>, colType: int, nullStr: string, d: DataPoint) returns (r: nat)
    requires d in TableSamples(rows, colType, nullStr)
    ensures r < |rows| && d in RowSamples(rows[r], |rows[r].cells|, colType, nullStr)
  {
    var init := rows[..|rows| - 1];
    if d in TableSamples(init, colType, nullStr) {
      r := SampleRow(init, colType, nullStr, d);
      assert rows[r] == init[r];
    } else {
      r := |rows| - 1;
    }
  }

  /** Every data point of a row is a data point of the table. */
  lemma {:induction false} RowSample(rows: seq<Row>, r: nat, colType: int, nullStr: string, d: DataPoint)
    requires r < |rows| && d in RowSamples(rows[r], |rows[r].cells|, colType, nullStr)
    ensures d in TableSamples(rows, colType, nullStr)
  {
    var init := rows[..|rows| - 1];
    if r < |init| {
      assert init[r] == rows[r];
      RowSample(init, r, colType, nullStr, d);
    }
  }

  /** The data points of a table are exactly the decodings of its live cells,
      each stamped with its row's time. */
  lemma TableSamplesMembers(rows: seq<Row>, colType: int, nullStr: string, d: DataPoint)
    ensures d in TableSamples(rows, colType, nullStr) <==>
      exists r, c :: 0 <= r < |rows| && 0 <= c < |rows[r].cells| && !Skipped(rows[r].cells[c], nullStr)
        && d == Decode(rows[r].time, rows[r].cells[c].value, colType)
  {
    if d in TableSamples(rows, colType, nullStr) {
      var r := SampleRow(rows, colType, nullStr, d);
      RowSamplesMembers(rows[r], |rows[r].cells|, colType, nullStr, d);
    }
    if exists r, c :: 0 <= r < |rows| && 0 <= c < |rows[r].cells| && !Skipped(rows[r].cells[c], nullStr)
        && d == Decode(rows[r].time, rows[r].cells[c].value, colType)
    {
      var r, c :| 0 <= r < |rows| && 0 <= c < |rows[r].cells| && !Skipped(rows[r].cells[c], nullStr)
        && d == Decode(rows[r].time, rows[r].cells[c].value, colType);
      RowSamplesMembers(rows[r], |rows[r].cells|, colType, nullStr, d);
      RowSample(rows, r, colType, nullStr, d);
    }
  }

  /** Reading one more cell of a row: a live cell adds one to the count. */
  lemma LiveBelowStep(row: Row, n: nat, nullStr: string)
    requires n < |row.cells|
    ensures |LiveBelow(row, n + 1, nullStr)| == |LiveBelow(row, n, nullStr)| + (if Skipped(row.cells[n], nullStr) then 0 else 1)
  {
    if Skipped(row.cells[n], nullStr) {
      assert LiveBelow(row, n + 1, nullStr) == LiveBelow(row, n, nullStr);
    } else {
      assert LiveBelow(row, n + 1, nullStr) == LiveBelow(row, n, nullStr) + {n};
    }
  }

  /** Reading one more row: its live cells and its data points are added to
      those of the rows before. */
  lemma RowStep(rows: seq<Row>, r: nat, colType: int, nullStr: string)
    requires r < |rows|
    ensures LiveCount(rows[..r + 1], nullStr) == LiveCount(rows[..r], nullStr) + |LiveBelow(rows[r], |rows[r].cells|, nullStr)|
    ensures TableSamples(rows[..r + 1], colType, nullStr)
      == TableSamples(rows[..r], colType, nullStr) + RowSamples(rows[r], |rows[r].cells|, colType, nullStr)
  {
    assert rows[..r + 1][..r] == rows[..r];
  }

  /** The group-by attached before the aggregators run: text for VARCHAR,
      number otherwise. */
  function BasicGroupBy(colType: int): (g: GroupBy)
    ensures g == TextGroupBy <==> colType == VARCHAR
    ensures g == NumberGroupBy <==> colType != VARCHAR
  {
    if colType == VARCHAR then TextGroupBy else NumberGroupBy
  }

  /** Every data point carries its row's time and the kind column 2's type
      gives: an int for INTEGER and BIGINT, a double for DOUBLE, the text for
      VARCHAR, and a null point for any other type. The text group-by goes
      with the text points. */
  lemma SampleKinds(rows: seq<Row>, colType: int, nullStr: string, d: DataPoint)
    requires d in TableSamples(rows, colType, nullStr)
    ensures d.DataPoint? ==> exists r :: 0 <= r < |rows| && rows[r].time == d.time
    ensures (colType == INTEGER || colType == BIGINT) <==> d.DataPoint? && d.value.IntValue?
    ensures colType == DOUBLE <==> d.DataPoint? && d.value.DoubleValue?
    ensures colType == VARCHAR <==> d.DataPoint? && d.value.TextValue?
    ensures BasicGroupBy(colType) == TextGroupBy <==> d.DataPoint? && d.value.TextValue?
  {
    TableSamplesMembers(rows, colType, nullStr, d);
  }

  // ---------------------------------------------------------------------
  // Columns that produced a value
  // ---------------------------------------------------------------------

  /** Fetching succeeded and column 2 exists, so its type could be read. */
  predicate Fetched(result: Option<ResultSet>) {
    result.Some? && |result.value.columns| >= 2
  }

  /** Value column `c` has a live cell in some row. */
  predicate ColumnLive(rows: seq<Row>, c: int, nullStr: string) {
    exists r :: 0 <= r < |rows| && 0 <= c < |rows[r].cells| && !Skipped(rows[r].cells[c], nullStr)
  }

  lemma ColumnLiveSnoc(rows: seq<Row>, row: Row, c: int, nullStr: string)
    ensures ColumnLive(rows + [row], c, nullStr) <==>
      ColumnLive(rows, c, nullStr) || (0 <= c < |row.cells| && !Skipped(row.cells[c], nullStr))
  {
    var all := rows + [row];
    if ColumnLive(all, c, nullStr) {
      var r :| 0 <= r < |all| && 0 <= c < |all[r].cells| && !Skipped(all[r].cells[c], nullStr);
      if r < |rows| {
        assert rows[r] == all[r];
      }
    }
    if ColumnLive(rows, c, nullStr) {
      var r :| 0 <= r < |rows| && 0 <= c < |rows[r].cells| && !Skipped(rows[r].cells[c], nullStr);
      assert all[r] == rows[r];
    }
    if 0 <= c < |row.cells| && !Skipped(row.cells[c], nullStr) {
      assert all[|rows|] == row;
    }
  }

  /** One flag for each of `n` value columns: whether it has a live cell in
      `rows`. */
  function LiveFlags(rows: seq<Row>, n: nat, nullStr: string): (flags: seq<bool>)
    ensures |flags| == n
    ensures forall c :: 0 <= c < n ==> flags[c] == ColumnLive(rows, c, nullStr)
  {
    seq(n, c => ColumnLive(rows, c, nullStr))
  }

  /** One flag per value column of a result set. */
  function LiveColumns(t: ResultSet, nullStr: string): (flags: seq<bool>)
    requires |t.columns| >= 1
    ensures |flags| + 1 == |t.columns|
    ensures forall c :: 0 <= c < |flags| ==> flags[c] == ColumnLive(t.rows, c, nullStr)
  {
    LiveFlags(t.rows, |t.columns| - 1, nullStr)
  }

  /** The flags after reading one more row: a column is flagged when it was
      already or when the row's cell in it is live. */
  function MarkRow(flags: seq<bool>, row: Row, nullStr: string): (marked: seq<bool>)
    requires |row.cells| == |flags|
    ensures |marked| == |flags|
    ensures forall c :: 0 <= c < |flags| ==> marked[c] == (flags[c] || !Skipped(row.cells[c], nullStr))
  {
    seq(|flags|, c requires 0 <= c < |flags| => flags[c] || !Skipped(row.cells[c], nullStr))
  }

  /** Reading one more row marks its live cells' columns. */
  lemma LiveFlagsStep(rows: seq<Row>, r: nat, nullStr: string)
    requires r < |rows|
    ensures LiveFlags(rows[..r + 1], |rows[r].cells|, nullStr)
      == MarkRow(LiveFlags(rows[..r], |rows[r].cells|, nullStr), rows[r], nullStr)
  {
    assert rows[..r + 1] == rows[..r] + [rows[r]];
    forall c | 0 <= c < |rows[r].cells|
      ensures ColumnLive(rows[..r + 1], c, nullStr) <==> ColumnLive(rows[..r], c, nullStr) || !Skipped(rows[r].cells[c], nullStr)
    {
      ColumnLiveSnoc(rows[..r], rows[r], c, nullStr);
    }
  }

  // ---------------------------------------------------------------------
  // Tag values recovered from the column names
  // ---------------------------------------------------------------------

  /** The split names of the flagged columns among the first `n` value
      columns, in column order. */
  function FlaggedUpTo(columns: seq<Column>, flags: seq<bool>, n: nat): seq<seq<string>>
    requires |flags| + 1 == |columns| && n <= |flags|
  {
    if n == 0 then []
    else FlaggedUpTo(columns, flags, n - 1) + (if flags[n - 1] then [JavaSplit(columns[n].name)] else [])
  }

  function FlaggedSegments(columns: seq<Column>, flags: seq<bool>): seq<seq<string>>
    requires |flags| + 1 == |columns|
  {
    FlaggedUpTo(columns, flags, |flags|)
  }

  /** Collecting one more column adds its path when its flag is set. */
  lemma CollectFlaggedStep(columns: seq<Column>, flags: seq<bool>, n: nat)
    requires |flags| + 1 == |columns| && n < |flags|
    ensures Collect(FlaggedUpTo(columns, flags, n + 1)) ==
      if flags[n] then AddPath(Collect(FlaggedUpTo(columns, flags, n)), JavaSplit(columns[n + 1].name))
      else Collect(FlaggedUpTo(columns, flags, n))
  {
    var ps := FlaggedUpTo(columns, flags, n);
    if flags[n] {
      var p := JavaSplit(columns[n + 1].name);
      assert FlaggedUpTo(columns, flags, n + 1) == ps + [p];
      assert (ps + [p])[..|ps|] == ps;
    } else {
      assert FlaggedUpTo(columns, flags, n + 1) == ps;
    }
  }

  lemma {:induction false} FlaggedUpToMembers(columns: seq<Column>, flags: seq<bool>, n: nat, p: seq<string>)
    requires |flags| + 1 == |columns| && n <= |flags|
    ensures p in FlaggedUpTo(columns, flags, n) <==>
      exists c :: 0 <= c < n && flags[c] && p == JavaSplit(columns[c + 1].name)
  {
    if n > 0 {
      FlaggedUpToMembers(columns, flags, n - 1, p);
    }
  }

  /** The values the flagged columns hold at path index `j`. */
  lemma FlaggedValuesAt(columns: seq<Column>, flags: seq<bool>, j: int, v: string)
    requires |flags| + 1 == |columns|
    ensures v in ValuesAt(FlaggedSegments(columns, flags), j) <==>
      exists c :: 0 <= c < |flags| && flags[c]
        && 2 <= j < |JavaSplit(columns[c + 1].name)| - 1 && JavaSplit(columns[c + 1].name)[j] == v
  {
    var ps := FlaggedSegments(columns, flags);
    ValuesAtMembers(ps, j, v);
    if v in ValuesAt(ps, j) {
      var k :| 0 <= k < |ps| && 2 <= j < |ps[k]| - 1 && ps[k][j] == v;
      FlaggedUpToMembers(columns, flags, |flags|, ps[k]);
    }
    if exists c :: 0 <= c < |flags| && flags[c]
        && 2 <= j < |JavaSplit(columns[c + 1].name)| - 1 && JavaSplit(columns[c + 1].name)[j] == v
    {
      var c :| 0 <= c < |flags| && flags[c]
        && 2 <= j < |JavaSplit(columns[c + 1].name)| - 1 && JavaSplit(columns[c + 1].name)[j] == v;
      var p := JavaSplit(columns[c + 1].name);
      FlaggedUpToMembers(columns, flags, |flags|, p);
      var k :| 0 <= k < |ps| && ps[k] == p;
    }
  }

  /** The tag values recovered at path index `j`: a value is there exactly
      when some column that produced a value has it as segment j (j from 2
      to the second-to-last segment of that column's name), and no value is
      there twice. Columns without a live cell contribute nothing. */
  lemma RecoveredTagValues(t: ResultSet, nullStr: string, j: int, v: string)
    requires |t.columns| >= 1
    ensures
      var tmp := Collect(FlaggedSegments(t.columns, LiveColumns(t, nullStr)));
      && (j in tmp ==> NoDup(tmp[j]))
      && (j in tmp && v in tmp[j] <==>
          exists c :: 0 <= c < |t.columns| - 1 && ColumnLive(t.rows, c, nullStr)
            && 2 <= j < |JavaSplit(t.columns[c + 1].name)| - 1
            && JavaSplit(t.columns[c + 1].name)[j] == v)
  {
    var flags := LiveColumns(t, nullStr);
    var ps := FlaggedSegments(t.columns, flags);
    var vs := ValuesAt(ps, j);
    FlaggedValuesAt(t.columns, flags, j, v);
    CollectGet(ps, j);
    DedupNoDup(vs);
    DedupElements(vs);
  }

  // ---------------------------------------------------------------------
  // Reporting the recovered values under their tag keys
  // ---------------------------------------------------------------------

  /** The largest element of a non-empty set. */
  ghost function MaxOf(s: set<nat>): (m: nat)
    requires s != {}
    ensures m in s && forall x :: x in s ==> x <= m
  {
    var x :| x in s;
    if s == {x} then x
    else
      var y := MaxOf(s - {x});
      assert forall z :: z in s ==> z == x || z in s - {x};
      if x < y then y else x
  }

  /** The smallest element of a non-empty set. */
  ghost function MinOf(s: set<nat>): (m: nat)
    requires s != {}
    ensures m in s && forall x :: x in s ==> m <= x
  {
    var x :| x in s;
    if s == {x} then x
    else
      var y := MinOf(s - {x});
      assert forall z :: z in s ==> z == x || z in s - {x};
      if y < x then y else x
  }

  /** The tag key of path index `j`: the key whose slot is j - 2, or the null
      key when no key has that slot. */
  function SlotKey(p2t: map<int, string>, j: int): Option<string> {
    if j - 2 in p2t then Some(p2t[j - 2]) else None
  }

  /** The tags reported for the indices in `keys`, set one index after the
      other in increasing order, so that a later index overwrites an earlier
      one with the same key. */
  ghost function TagsFor(p2t: map<int, string>, tmp: map<nat, seq<string>>, keys: set<nat>): map<Option<string>, seq<string>>
    requires keys <= tmp.Keys
    decreases keys
  {
    if keys == {} then map[]
    else
      var j := MaxOf(keys);
      TagsFor(p2t, tmp, keys - {j})[SlotKey(p2t, j) := tmp[j]]
  }

  /** Setting one more index, larger than all set so far, is one more
      update of the reported tags. */
  lemma TagsForExtend(p2t: map<int, string>, tmp: map<nat, seq<string>>, keys: set<nat>, j: nat)
    requires keys <= tmp.Keys && j in tmp
    requires forall x :: x in keys ==> x < j
    ensures TagsFor(p2t, tmp, keys + {j}) == TagsFor(p2t, tmp, keys)[SlotKey(p2t, j) := tmp[j]]
  {
    var m := MaxOf(keys + {j});
    assert m == j;
    assert (keys + {j}) - {j} == keys;
  }

  /** Taking the least remaining index keeps every index set so far below
      every index still to set. */
  lemma AscendingStep(done: set<nat>, remaining: set<nat>, j: nat)
    requires j in remaining && forall x :: x in remaining ==> j <= x
    requires forall a, b :: a in done && b in remaining ==> a < b
    ensures forall a, b :: a in done + {j} && b in remaining - {j} ==> a < b
    ensures forall x :: x in done ==> x < j
  {
  }

  /** The same step, on top of the tags a result object already holds. */
  lemma TagsOnExtend(base: map<Option<string>, seq<string>>, p2t: map<int, string>,
                     tmp: map<nat, seq<string>>, keys: set<nat>, j: nat)
    requires keys <= tmp.Keys && j in tmp
    requires forall x :: x in keys ==> x < j
    ensures base + TagsFor(p2t, tmp, keys + {j}) == (base + TagsFor(p2t, tmp, keys))[SlotKey(p2t, j) := tmp[j]]
  {
    TagsForExtend(p2t, tmp, keys, j);
  }

  /** Tags reported on a result object that holds none yet. */
  lemma TagsOnEmpty(tags: map<Option<string>, seq<string>>)
    ensures map[] + tags == tags
  {
  }

  /** Distinct slots hold distinct keys. */
  predicate Injective(p2t: map<int, string>) {
    forall p, q :: p in p2t && q in p2t && p2t[p] == p2t[q] ==> p == q
  }

  /** A key is reported exactly when some index in `keys` maps to it. */
  lemma {:induction false} TagsForKeys(p2t: map<int, string>, tmp: map<nat, seq<string>>, keys: set<nat>, key: Option<string>)
    requires keys <= tmp.Keys
    ensures key in TagsFor(p2t, tmp, keys) <==> exists j :: j in keys && SlotKey(p2t, j) == key
    decreases keys
  {
    if keys != {} {
      var m := MaxOf(keys);
      var rest := keys - {m};
      TagsForKeys(p2t, tmp, rest, key);
      if key in TagsFor(p2t, tmp, keys) && key != SlotKey(p2t, m) {
        var j :| j in rest && SlotKey(p2t, j) == key;
        assert j in keys;
      }
      if exists j :: j in keys && SlotKey(p2t, j) == key {
        var j :| j in keys && SlotKey(p2t, j) == key;
        if j != m {
          assert j in rest;
        }
      }
    }
  }

  /** The key of index `j` gets the list of index `j`: with distinct slots
      holding distinct keys, no other index shares it. */
  lemma {:induction false} TagsForAt(p2t: map<int, string>, tmp: map<nat, seq<string>>, keys: set<nat>, j: nat)
    requires keys <= tmp.Keys && Injective(p2t)
    requires j in keys && SlotKey(p2t, j).Some?
    ensures SlotKey(p2t, j) in TagsFor(p2t, tmp, keys)
    ensures TagsFor(p2t, tmp, keys)[SlotKey(p2t, j)] == tmp[j]
    decreases keys
  {
    var m := MaxOf(keys);
    if m != j {
      TagsForAt(p2t, tmp, keys - {m}, j);
      if SlotKey(p2t, m).Some? {
        assert m as int - 2 != j as int - 2;
      }
    }
  }

  /** The null key gets the list of the largest index whose slot has no key. */
  lemma {:induction false} TagsForNull(p2t: map<int, string>, tmp: map<nat, seq<string>>, keys: set<nat>, j: nat)
    requires keys <= tmp.Keys
    requires j in keys && SlotKey(p2t, j) == None
    requires forall i :: i in keys && SlotKey(p2t, i) == None ==> i <= j
    ensures None in TagsFor(p2t, tmp, keys) && TagsFor(p2t, tmp, keys)[None] == tmp[j]
    decreases keys
  {
    var m := MaxOf(keys);
    if m != j {
      TagsForNull(p2t, tmp, keys - {m}, j);
    }
  }

  /** The inverse of a tag order gives each slot to one key only. */
  lemma InverseInjective(t2p: TagOrder)
    ensures Injective(Inverse(t2p))
    ensures forall k :: k in t2p ==> SlotKey(Inverse(t2p), t2p[k] + 2) == Some(k)
  {
  }

  /** The list of index `j` is reported under the key whose slot is j - 2;
      nothing else is reported but the null key, which gets the list of the
      largest index whose slot has no key. */
  lemma TagsForReports(t2p: TagOrder, tmp: map<nat, seq<string>>, keys: set<nat>)
    requires keys <= tmp.Keys
    ensures forall k :: k in t2p && t2p[k] + 2 in keys ==>
      Some(k) in TagsFor(Inverse(t2p), tmp, keys) && TagsFor(Inverse(t2p), tmp, keys)[Some(k)] == tmp[t2p[k] + 2]
    ensures forall k :: Some(k) in TagsFor(Inverse(t2p), tmp, keys) ==> k in t2p && t2p[k] + 2 in keys
    ensures None in TagsFor(Inverse(t2p), tmp, keys) ==>
      exists j :: j in keys && SlotKey(Inverse(t2p), j) == None && TagsFor(Inverse(t2p), tmp, keys)[None] == tmp[j]
        && forall i :: i in keys && SlotKey(Inverse(t2p), i) == None ==> i <= j
  {
    var p2t := Inverse(t2p);
    var r := TagsFor(p2t, tmp, keys);
    InverseInjective(t2p);
    forall k | k in t2p && t2p[k] + 2 in keys
      ensures Some(k) in r && r[Some(k)] == tmp[t2p[k] + 2]
    {
      TagsForAt(p2t, tmp, keys, t2p[k] + 2);
    }
    forall k | Some(k) in r ensures k in t2p && t2p[k] + 2 in keys {
      TagsForKeys(p2t, tmp, keys, Some(k));
      var j :| j in keys && SlotKey(p2t, j) == Some(k);
      assert j - 2 in p2t;
    }
    if None in r {
      TagsForKeys(p2t, tmp, keys, None);
      var nulls := set i | i in keys && SlotKey(p2t, i) == None;
      var j0 :| j0 in keys && SlotKey(p2t, j0) == None;
      assert j0 in nulls;
      var j := MaxOf(nulls);
      assert forall i :: i in keys && SlotKey(p2t, i) == None ==> i in nulls;
      TagsForNull(p2t, tmp, keys, j);
    }
  }

  // ---------------------------------------------------------------------
  // Guessing a type from a string
  // ---------------------------------------------------------------------

  /** Character.isDigit, restricted to the ASCII digits. */
  predicate IsDigit(ch: char) {
    '0' <= ch <= '9'
  }

  predicate AllDigits(s: string) {
    forall i :: 0 <= i < |s| ==> IsDigit(s[i])
  }

  /** The type guessed for a string: INTEGER when every character is a digit
      (the empty string included), DOUBLE when some is not and it holds a '.',
      VARCHAR otherwise. */
  function GuessedType(s: string): (r: int)
    ensures r in {INTEGER, DOUBLE, VARCHAR}
    ensures r == INTEGER <==> AllDigits(s)
    ensures r == DOUBLE <==> !AllDigits(s) && '.' in s
    ensures r == VARCHAR <==> !AllDigits(s) && '.' !in s
  {
    if AllDigits(s) then INTEGER else if '.' in s then DOUBLE else VARCHAR
  }
}
