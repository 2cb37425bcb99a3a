/** The aggregator chain and what a query reports for one metric. */
module Aggregation {
  import opened Wrappers
  import opened ResultSets
  import opened TagPaths
  import opened QueryModel
  import opened Reassembly

  // ---------------------------------------------------------------------
  // The aggregator chain
  // ---------------------------------------------------------------------

  /** An aggregator as it runs: an alignable one has been handed the query's
      start and end times, any other is left as it is. */
  function WithWindow(a: Aggregator, startTime: int, endTime: int): Aggregator {
    if a.alignable then a.(window := Some((startTime, endTime))) else a
  }

  /** The aggregators of a metric as they run, in declared order. */
  function Windowed(aggs: seq<Aggregator>, startTime: int, endTime: int): (r: seq<Aggregator>)
    ensures |r| == |aggs|
    ensures forall i :: 0 <= i < |aggs| ==>
      && r[i].name == aggs[i].name
      && r[i].alignable == aggs[i].alignable
      && (aggs[i].alignable ==> r[i].window == Some((startTime, endTime)))
      && (!aggs[i].alignable ==> r[i] == aggs[i])
  {
    if aggs == [] then []
    else Windowed(aggs[..|aggs| - 1], startTime, endTime) + [WithWindow(aggs[|aggs| - 1], startTime, endTime)]
  }

  /** The result after running `aggs` in order, each on the result of the
      one before. */
  function Pipeline(aggregate: (Aggregator, MetricResult) -> MetricResult, aggs: seq<Aggregator>, r: MetricResult): MetricResult {
    if aggs == [] then r
    else aggregate(aggs[|aggs| - 1], Pipeline(aggregate, aggs[..|aggs| - 1], r))
  }

  /** Running two chains one after the other is running their concatenation. */
  lemma {:induction false} PipelineAppend(aggregate: (Aggregator, MetricResult) -> MetricResult,
                                          xs: seq<Aggregator>, ys: seq<Aggregator>, r: MetricResult)
    ensures Pipeline(aggregate, xs + ys, r) == Pipeline(aggregate, ys, Pipeline(aggregate, xs, r))
  {
    if ys == [] {
      assert xs + ys == xs;
    } else {
      var init := ys[..|ys| - 1];
      assert (xs + ys)[..|xs + ys| - 1] == xs + init;
      PipelineAppend(aggregate, xs, init, r);
    }
  }

  /** The first aggregator consumes the result it is given, and the rest of
      the chain consumes what it returns. */
  lemma PipelineFirst(aggregate: (Aggregator, MetricResult) -> MetricResult,
                      a: Aggregator, rest: seq<Aggregator>, r: MetricResult)
    ensures Pipeline(aggregate, [a] + rest, r) == Pipeline(aggregate, rest, aggregate(a, r))
  {
    PipelineAppend(aggregate, [a], rest, r);
    assert Pipeline(aggregate, [a], r) == aggregate(a, Pipeline(aggregate, [], r));
  }

  // ---------------------------------------------------------------------
  // What a query reports for one metric
  // ---------------------------------------------------------------------

  /** The metric value result built from a fetched table: its data points,
      the tags recovered from the columns that produced a value, and the basic
      group-by of column 2's type. */
  ghost function SeriesOf(name: string, t: ResultSet, t2p: TagOrder, nullStr: string): Series
    requires |t.columns| >= 2
  {
    var colType := t.columns[1].sqlType;
    var tmp := Collect(FlaggedSegments(t.columns, LiveColumns(t, nullStr)));
    Series(name, TableSamples(t.rows, colType, nullStr), TagsFor(Inverse(t2p), tmp, tmp.Keys), [BasicGroupBy(colType)])
  }

  /** What a query reports for one metric: the void result when its tags do
      not resolve, when fetching fails or when no cell is live; otherwise the
      result with one sample per live cell and the one series, run through
      the metric's aggregators. */
  ghost function Outcome(metric: QueryMetric, env: Environment, startTime: int, endTime: int): MetricOutcome {
    if !MappingOk(env.tagOrders, metric) then VoidResult(metric.name)
    else
      var t2p := env.tagOrders[metric.name];
      var result := env.backend(QueryStatement(metric, t2p, startTime, endTime));
      if !Fetched(result) || LiveCount(result.value.rows, env.nullStr) == 0 then VoidResult(metric.name)
      else
        var t := result.value;
        Aggregated(Pipeline(env.aggregate, Windowed(metric.aggregators, startTime, endTime),
          MetricResult(LiveCount(t.rows, env.nullStr), [SeriesOf(metric.name, t, t2p, env.nullStr)])))
  }

  /** The outcome of a metric whose tags resolve but whose statement fails
      or finds no live cell. */
  lemma ResolvedVoid(metric: QueryMetric, env: Environment, startTime: int, endTime: int, result: Option<ResultSet>)
    requires MappingOk(env.tagOrders, metric)
    requires result == env.backend(QueryStatement(metric, env.tagOrders[metric.name], startTime, endTime))
    requires !Fetched(result) || LiveCount(result.value.rows, env.nullStr) == 0
    ensures Outcome(metric, env, startTime, endTime) == VoidResult(metric.name)
  {
  }

  /** The outcome of a metric whose statement finds live cells. */
  lemma ResolvedAggregated(metric: QueryMetric, env: Environment, startTime: int, endTime: int, t: ResultSet)
    requires MappingOk(env.tagOrders, metric)
    requires env.backend(QueryStatement(metric, env.tagOrders[metric.name], startTime, endTime)) == Some(t)
    requires |t.columns| >= 2 && LiveCount(t.rows, env.nullStr) != 0
    ensures Outcome(metric, env, startTime, endTime) ==
      Aggregated(Pipeline(env.aggregate, Windowed(metric.aggregators, startTime, endTime),
        MetricResult(LiveCount(t.rows, env.nullStr), [SeriesOf(metric.name, t, env.tagOrders[metric.name], env.nullStr)])))
  {
  }

  /** A metric yields a void result, named after it, exactly when its tags do
      not resolve, fetching fails, or none of its cells is live. */
  lemma OutcomeVoid(metric: QueryMetric, env: Environment, startTime: int, endTime: int)
    ensures Outcome(metric, env, startTime, endTime).VoidResult? <==>
      || !MappingOk(env.tagOrders, metric)
      || !Fetched(env.backend(QueryStatement(metric, env.tagOrders[metric.name], startTime, endTime)))
      || LiveCount(env.backend(QueryStatement(metric, env.tagOrders[metric.name], startTime, endTime)).value.rows, env.nullStr) == 0
    ensures Outcome(metric, env, startTime, endTime).VoidResult? ==>
      Outcome(metric, env, startTime, endTime).name == metric.name
  {
  }

  /** Without aggregators the reported result is the executor's own: a
      positive sample size equal to the number of data points of its single
      series. */
  lemma UnaggregatedOutcome(metric: QueryMetric, env: Environment, startTime: int, endTime: int)
    ensures metric.aggregators == [] && Outcome(metric, env, startTime, endTime).Aggregated? ==>
      var r := Outcome(metric, env, startTime, endTime).result;
      && |r.results| == 1
      && r.results[0].name == metric.name
      && r.sampleSize == |r.results[0].points| > 0
  {
    if metric.aggregators == [] && Outcome(metric, env, startTime, endTime).Aggregated? {
      var t2p := env.tagOrders[metric.name];
      var t := env.backend(QueryStatement(metric, t2p, startTime, endTime)).value;
      SampleCount(t.rows, t.columns[1].sqlType, env.nullStr);
    }
  }
}
