/** The query executor: resolves each metric of a query against its tag
    order, asks the backend for the matching series, reassembles the answer
    into a metric value result, and runs the metric's aggregators. */
module QueryExecution {
  import opened Wrappers
  import opened ResultSets
  import opened TagPaths
  import opened QueryModel
  import opened Reassembly
  import opened Aggregation
  import opened Deletion

  /** The result object the executor fills for one metric. */
  class MetricValueResult {
    const name: string
    var points: seq<DataPoint>
    var tags: map<Option<string>, seq<string>>
    var groupBys: seq<GroupBy>

    constructor (name: string)
      ensures this.name == name && points == [] && tags == map[] && groupBys == []
    {
      this.name := name;
      points := [];
      tags := map[];
      groupBys := [];
    }

    /** The series the result object holds now. */
    function Snapshot(): Series
      reads this
    {
      Series(name, points, tags, groupBys)
    }
  }

  class QueryExecutor {
    const query: Query
    const startTime: int
    const endTime: int

    /** The tag order of the metric being executed; None before the first
        lookup and when the registry has none. */
    var tag2pos: Option<TagOrder>
    /** Slot to tag key, for the keys resolved so far. */
    var pos2tag: map<int, string>
    /** The tag values recovered per path index by the last reassembly;
        None until the first one. */
    var tmpTags: Option<map<nat, seq<string>>>

    constructor (query: Query)
      ensures this.query == query && startTime == query.startTime && endTime == query.endTime
      ensures tag2pos == None && pos2tag == map[] && tmpTags == None
    {
      this.query := query;
      startTime := query.startTime;
      endTime := query.endTime;
      tag2pos := None;
      pos2tag := map[];
      tmpTags := None;
    }

    // -------------------------------------------------------------------
    // Translating a metric into a statement
    // -------------------------------------------------------------------

    /** Looks up the metric's tag order and resolves every queried key. It
        fails when there is no tag order or as soon as a key has no slot; on
        success `pos2tag` maps the slot of each queried key, and only those,
        back to the key. */
    method GetMetricMapping(metric: QueryMetric, tagOrders: map<string, TagOrder>) returns (ok: bool)
      modifies this`tag2pos, this`pos2tag
      ensures tag2pos == (if metric.name in tagOrders then Some(tagOrders[metric.name]) else None)
      ensures ok <==> MappingOk(tagOrders, metric)
      ensures ok ==> pos2tag == Positions(tag2pos.value, metric.tags.Keys)
      ensures tag2pos.Some? ==> Consistent(tag2pos.value, pos2tag)
    {
      if metric.name !in tagOrders {
        tag2pos := None;
        pos2tag := map[];
        return false;
      }
      var t2p := tagOrders[metric.name];
      tag2pos := Some(t2p);
      var p2t: map<int, string> := map[];
      var remaining := metric.tags.Keys;
      ghost var done: set<string> := {};
      ok := true;
      while remaining != {} && ok
        invariant done + remaining == metric.tags.Keys && done <= t2p.Keys
        invariant ExactSlots(t2p, done, p2t)
        invariant !ok ==> !(metric.tags.Keys <= t2p.Keys)
        modifies {}
        decreases |remaining|, ok
      {
        var key :| key in remaining;
        if key !in t2p {
          ok := false;
        } else {
          ExactSlotsAdd(t2p, done, p2t, key);
          p2t := p2t[t2p[key] := key];
          remaining := remaining - {key};
          done := done + {key};
        }
      }
      ExactSlotsConsistent(t2p, done, p2t);
      pos2tag := p2t;
      if ok {
        assert done == metric.tags.Keys;
        PositionsUnique(t2p, metric.tags.Keys, p2t);
      }
    }

    /** The statement for a metric: `maxPath` segments, each the values asked
        for the key at that slot, or `*`. */
    method BuildSqlStatement(metric: QueryMetric, p2t: map<int, string>, maxPath: nat,
                             startTime: int, endTime: int) returns (stmt: SelectStatement)
      requires forall p :: p in p2t ==> p2t[p] in metric.tags
      ensures stmt == SelectStatement(metric.name, PathSegments(metric.tags, p2t, maxPath), startTime, endTime)
    {
      var segments: seq<Segment> := [];
      for i := 0 to maxPath
        invariant segments == PathSegments(metric.tags, p2t, i)
      {
        if i !in p2t {
          segments := segments + [Wildcard];
        } else {
          segments := segments + [Values(metric.tags[p2t[i]])];
        }
      }
      return SelectStatement(metric.name, segments, startTime, endTime);
    }

    // -------------------------------------------------------------------
    // Reassembling the answer
    // -------------------------------------------------------------------

    /** Reads the backend's answer into `mvr`. When the statement could not be
        executed or column 2 does not exist, nothing changes and the sample
        size is 0. Otherwise every live cell adds its data point and counts
        once, the columns with a live cell give the tag values, and the basic
        group-by of column 2's type is attached. */
    method GetValueResult(result: Option<ResultSet>, mvr: MetricValueResult, nullStr: string) returns (sampleSize: int)
      modifies this`tmpTags, mvr`points, mvr`groupBys
      ensures !Fetched(result) ==>
        sampleSize == 0 && tmpTags == old(tmpTags)
        && mvr.points == old(mvr.points) && mvr.groupBys == old(mvr.groupBys)
      ensures Fetched(result) ==>
        var t := result.value;
        && sampleSize == LiveCount(t.rows, nullStr)
        && mvr.points == old(mvr.points) + TableSamples(t.rows, t.columns[1].sqlType, nullStr)
        && tmpTags == Some(Collect(FlaggedSegments(t.columns, LiveColumns(t, nullStr))))
        && mvr.groupBys == old(mvr.groupBys) + [BasicGroupBy(t.columns[1].sqlType)]
    {
      if !Fetched(result) {
        return 0;
      }
      var t := result.value;
      var colType := t.columns[1].sqlType;
      var paths := new bool[|t.columns| - 1](_ => false);
      sampleSize := ReadRows(t.rows, colType, nullStr, paths, mvr);
      assert paths[..] == LiveColumns(t, nullStr);
      GetTagValueFromPaths(t.columns, paths);
      mvr.groupBys := mvr.groupBys + [BasicGroupBy(colType)];
    }

    /** The row loop of GetValueResult: every live cell adds its data point
        and counts once, and a column is flagged once one of its cells is
        live. */
    method ReadRows(rows: seq<Row>, colType: int, nullStr: string, paths: array<bool>, mvr: MetricValueResult)
      returns (sampleSize: int)
      requires forall r :: 0 <= r < |rows| ==> |rows[r].cells| == paths.Length
      requires forall c :: 0 <= c < paths.Length ==> !paths[c]
      modifies paths, mvr`points
      ensures sampleSize == LiveCount(rows, nullStr)
      ensures mvr.points == old(mvr.points) + TableSamples(rows, colType, nullStr)
      ensures paths[..] == LiveFlags(rows, paths.Length, nullStr)
    {
      sampleSize := 0;
      assert paths[..] == LiveFlags(rows[..0], paths.Length, nullStr);
      for r := 0 to |rows|
        invariant sampleSize == LiveCount(rows[..r], nullStr)
        invariant mvr.points == old(mvr.points) + TableSamples(rows[..r], colType, nullStr)
        invariant paths[..] == LiveFlags(rows[..r], paths.Length, nullStr)
      {
        var live := ReadRow(rows[r], colType, nullStr, paths, mvr);
        sampleSize := sampleSize + live;
        RowStep(rows, r, colType, nullStr);
        LiveFlagsStep(rows, r, nullStr);
      }
      assert rows[..|rows|] == rows;
    }

    /** The body of the row loop of GetValueResult: every live cell of the
        row adds its data point, counts once and flags its column. */
    method ReadRow(row: Row, colType: int, nullStr: string, paths: array<bool>, mvr: MetricValueResult)
      returns (live: nat)
      requires paths.Length == |row.cells|
      modifies paths, mvr`points
      ensures live == |LiveBelow(row, |row.cells|, nullStr)|
      ensures mvr.points == old(mvr.points) + RowSamples(row, |row.cells|, colType, nullStr)
      ensures paths[..] == MarkRow(old(paths[..]), row, nullStr)
    {
      live := 0;
      var columnCount := |row.cells| + 1;
      for i := 2 to columnCount + 1
        invariant live == |LiveBelow(row, i - 2, nullStr)|
        invariant mvr.points == old(mvr.points) + RowSamples(row, i - 2, colType, nullStr)
        invariant forall c :: 0 <= c < paths.Length ==>
          paths[c] == (old(paths[c]) || (c < i - 2 && !Skipped(row.cells[c], nullStr)))
      {
        LiveBelowStep(row, i - 2, nullStr);
        var value := row.cells[i - 2];
        if value.None? || value.value == nullStr || value.value == MAGIC_SENTINEL {
          continue;
        }
        live := live + 1;
        paths[i - 2] := true;
        mvr.points := mvr.points + [Decode(row.time, value.value, colType)];
      }
    }

    /** Splits the name of every flagged column and collects, per path index
        from 2 to the second-to-last, the values seen there, each once, in the
        order they are first seen. */
    method GetTagValueFromPaths(columns: seq<Column>, hasPaths: array<bool>)
      requires hasPaths.Length + 1 == |columns|
      modifies this`tmpTags
      ensures tmpTags == Some(Collect(FlaggedSegments(columns, hasPaths[..])))
    {
      tmpTags := Some(map[]);
      ghost var flags := hasPaths[..];
      var columnCount := |columns|;
      for i := 2 to columnCount + 1
        invariant tmpTags == Some(Collect(FlaggedUpTo(columns, flags, i - 2)))
      {
        CollectFlaggedStep(columns, flags, i - 2);
        if !hasPaths[i - 2] {
          continue;
        }
        var paths := JavaSplit(columns[i - 1].name);
        var tags := AddPathTo(tmpTags.value, paths);
        tmpTags := Some(tags);
      }
    }

    /** The inner loop of GetTagValueFromPaths: for every path index from 2
        to the second-to-last, the list of that index is created when missing
        and the segment is added to it unless already present. */
    method AddPathTo(tags: map<nat, seq<string>>, paths: seq<string>) returns (r: map<nat, seq<string>>)
      ensures r == AddPath(tags, paths)
    {
      r := tags;
      var pathsLen := |paths|;
      var j: nat := 2;
      while j < pathsLen - 1
        invariant 2 <= j && (j <= pathsLen - 1 || j == 2)
        invariant r == AddUpTo(tags, paths, j)
      {
        var list: seq<string> := if j in r then r[j] else [];
        if paths[j] !in list {
          list := list + [paths[j]];
        }
        AddUpToNext(tags, paths, j);
        r := r[j := list];
        j := j + 1;
      }
    }

    /** Rebuilds `pos2tag` as the full inverse of the tag order, then reports
        the values of every path index under the key whose slot is two less,
        taking the indices in increasing order. Does nothing before the first
        reassembly. */
    method SetTags(mvr: MetricValueResult)
      requires tag2pos.Some? && Consistent(tag2pos.value, pos2tag)
      modifies this`pos2tag, mvr`tags
      ensures tmpTags.None? ==> pos2tag == old(pos2tag) && mvr.tags == old(mvr.tags)
      ensures tmpTags.Some? ==>
        && pos2tag == Inverse(tag2pos.value)
        && mvr.tags == old(mvr.tags) + TagsFor(Inverse(tag2pos.value), tmpTags.value, tmpTags.value.Keys)
    {
      if tmpTags.None? {
        return;
      }
      var t2p := tag2pos.value;
      var entries := t2p.Keys;
      while entries != {}
        invariant entries <= t2p.Keys
        invariant Consistent(t2p, pos2tag)
        invariant forall k :: k in t2p && k !in entries ==> t2p[k] in pos2tag
        invariant mvr.tags == old(mvr.tags)
        decreases entries
      {
        var key :| key in entries;
        pos2tag := pos2tag[t2p[key] := key];
        entries := entries - {key};
      }
      PositionsUnique(t2p, t2p.Keys, pos2tag);
      var tmp := tmpTags.value;
      var remaining := tmp.Keys;
      ghost var done: set<nat> := {};
      assert old(mvr.tags) + TagsFor(pos2tag, tmp, done) == old(mvr.tags);
      while remaining != {}
        invariant remaining <= tmp.Keys && done == tmp.Keys - remaining
        invariant forall a, b :: a in done && b in remaining ==> a < b
        invariant pos2tag == Inverse(t2p)
        invariant mvr.tags == old(mvr.tags) + TagsFor(pos2tag, tmp, done)
        decreases remaining
      {
        assert MinOf(remaining) in remaining;
        var j :| j in remaining && forall x :: x in remaining ==> j <= x;
        AscendingStep(done, remaining, j);
        TagsOnExtend(old(mvr.tags), pos2tag, tmp, done, j);
        mvr.tags := mvr.tags[SlotKey(pos2tag, j) := tmp[j]];
        done := done + {j};
        remaining := remaining - {j};
      }
      assert done == tmp.Keys;
    }

    /** Runs the metric's aggregators in declared order, each on the result
        of the one before; an alignable one is handed the query's start and
        end times first. */
    method DoAggregations(metric: QueryMetric, result: MetricResult,
                          aggregate: (Aggregator, MetricResult) -> MetricResult) returns (r: MetricResult)
      ensures r == Pipeline(aggregate, Windowed(metric.aggregators, startTime, endTime), result)
    {
      var aggs := metric.aggregators;
      r := result;
      for i := 0 to |aggs|
        invariant r == Pipeline(aggregate, Windowed(aggs[..i], startTime, endTime), result)
      {
        var aggregator := aggs[i];
        if aggregator.alignable {
          aggregator := aggregator.(window := Some((startTime, endTime)));
        }
        assert aggs[..i + 1][..i] == aggs[..i];
        r := aggregate(aggregator, r);
      }
      assert aggs[..|aggs|] == aggs;
    }

    // -------------------------------------------------------------------
    // Executing a query
    // -------------------------------------------------------------------

    /** One metric of the query, as the loop of `execute` handles it. */
    method ExecuteMetric(metric: QueryMetric, env: Environment) returns (o: MetricOutcome)
      modifies this`tag2pos, this`pos2tag, this`tmpTags
      ensures o == Outcome(metric, env, startTime, endTime)
    {
      var ok := GetMetricMapping(metric, env.tagOrders);
      if !ok {
        return VoidResult(metric.name);
      }
      o := ExecuteResolved(metric, env, tag2pos.value);
    }

    /** The loop body of `execute` once the metric's tags have resolved:
        fetch, reassemble, set the tags, and report the void result or the
        aggregated one. */
    method ExecuteResolved(metric: QueryMetric, env: Environment, t2p: TagOrder) returns (o: MetricOutcome)
      requires MappingOk(env.tagOrders, metric) && t2p == env.tagOrders[metric.name]
      requires tag2pos == Some(t2p) && pos2tag == Positions(t2p, metric.tags.Keys)
      modifies this`pos2tag, this`tmpTags
      ensures o == Outcome(metric, env, startTime, endTime)
    {
      var sql := BuildSqlStatement(metric, pos2tag, |t2p|, startTime, endTime);
      assert sql == QueryStatement(metric, t2p, startTime, endTime);
      var result := env.backend(sql);
      var sampleSize, series := FetchSeries(metric.name, result, env.nullStr, t2p);
      if sampleSize == 0 {
        ResolvedVoid(metric, env, startTime, endTime, result);
        o := VoidResult(metric.name);
      } else {
        ResolvedAggregated(metric, env, startTime, endTime, result.value);
        var metricResult := MetricResult(sampleSize, [series]);
        metricResult := DoAggregations(metric, metricResult, env.aggregate);
        o := Aggregated(metricResult);
      }
    }

    /** Fills a fresh metric value result from the backend's answer and sets
        its tags; returns the sample size and the series the result object
        holds. */
    method FetchSeries(name: string, result: Option<ResultSet>, nullStr: string, t2p: TagOrder)
      returns (sampleSize: int, series: Series)
      requires tag2pos == Some(t2p) && Consistent(t2p, pos2tag)
      modifies this`pos2tag, this`tmpTags
      ensures !Fetched(result) ==> sampleSize == 0
      ensures Fetched(result) ==> sampleSize == LiveCount(result.value.rows, nullStr)
      ensures Fetched(result) ==> series == SeriesOf(name, result.value, t2p, nullStr)
    {
      var mvr := new MetricValueResult(name);
      sampleSize := GetValueResult(result, mvr, nullStr);
      SetTags(mvr);
      if Fetched(result) {
        ghost var t := result.value;
        ghost var tmp := Collect(FlaggedSegments(t.columns, LiveColumns(t, nullStr)));
        TagsOnEmpty(TagsFor(Inverse(t2p), tmp, tmp.Keys));
      }
      series := mvr.Snapshot();
    }

    /** Every metric of the query, in order: each yields exactly one outcome,
        the one its own tags, data and aggregators determine. */
    method Execute(env: Environment) returns (results: seq<MetricOutcome>)
      modifies this`tag2pos, this`pos2tag, this`tmpTags
      ensures |results| == |query.metrics|
      ensures forall i :: 0 <= i < |results| ==> results[i] == Outcome(query.metrics[i], env, startTime, endTime)
    {
      results := [];
      for i := 0 to |query.metrics|
        invariant |results| == i
        invariant forall k :: 0 <= k < i ==> results[k] == Outcome(query.metrics[k], env, startTime, endTime)
      {
        var o := ExecuteMetric(query.metrics[i], env);
        results := results + [o];
      }
    }

    // -------------------------------------------------------------------
    // Deleting what a query matches
    // -------------------------------------------------------------------

    /** The delete request for a result set: the paths and types of columns
        2..n and one point per non-null cell, row by row. A result without
        columns makes the arrays' size negative and gives no request. */
    method BuildDeleteSql(t: ResultSet) returns (req: Option<DeleteRequest>)
      ensures |t.columns| == 0 ==> req == None
      ensures |t.columns| >= 1 ==> req == Some(DeleteRequestOf(t))
    {
      var columnCount := |t.columns|;
      if columnCount == 0 {
        return None;
      }
      var paths := new string[columnCount - 1];
      var types := new int[columnCount - 1];
      for i := 2 to columnCount + 1
        invariant forall c :: 0 <= c < i - 2 ==> paths[c] == t.columns[c + 1].name
        invariant forall c :: 0 <= c < i - 2 ==> types[c] == t.columns[c + 1].sqlType
      {
        paths[i - 2] := t.columns[i - 1].name;
        types[i - 2] := t.columns[i - 1].sqlType;
      }
      assert paths[..] == ValuePaths(t.columns);
      assert types[..] == ValueTypes(t.columns);
      var points: seq<(string, int)> := [];
      var r := 0;
      while r < |t.rows|
        invariant 0 <= r <= |t.rows|
        invariant Fits(paths[..], t.rows[..r])
        invariant points == DeletePoints(paths[..], t.rows[..r])
      {
        var row := t.rows[r];
        ghost var before := points;
        for i := 2 to columnCount + 1
          invariant points == before + RowDeletes(paths[..], row, i - 2)
        {
          if row.cells[i - 2].Some? {
            points := points + [(paths[i - 2], row.time)];
          }
        }
        assert t.rows[..r + 1][..r] == t.rows[..r];
        r := r + 1;
      }
      assert t.rows[..r] == t.rows;
      return Some(DeleteRequest(paths[..], types[..], points));
    }

    // -------------------------------------------------------------------
    // Guessing a type from a string
    // -------------------------------------------------------------------

    /** Whether every character of `s` is a digit. */
    method IsNumeric(s: string) returns (b: bool)
      ensures b == AllDigits(s)
    {
      for i := 0 to |s|
        invariant forall k :: 0 <= k < i ==> IsDigit(s[k])
      {
        if !IsDigit(s[i]) {
          return false;
        }
      }
      return true;
    }

    /** INTEGER for an all-digit string, DOUBLE for another one holding a
        '.', VARCHAR otherwise. */
    method FindType(s: string) returns (r: int)
      ensures r == GuessedType(s)
    {
      var numeric := IsNumeric(s);
      if numeric {
        return INTEGER;
      } else if '.' in s {
        return DOUBLE;
      } else {
        return VARCHAR;
      }
    }
  }
}
