/** The values the query executor works on: queries, tag orders, path
    statements, data points and results, and what resolving a query's tags
    against a metric's tag order means. */
module QueryModel {
  import opened Wrappers
  import opened ResultSets

  // ---------------------------------------------------------------------
  // Tag orders
  // ---------------------------------------------------------------------

  /** A metric's tag order as the registry keeps it: every tag key has its own
      slot, and the slots are 0 .. n - 1 for n keys. */
  predicate DistinctSlots(m: map<string, int>) {
    forall a, b :: a in m && b in m && m[a] == m[b] ==> a == b
  }

  predicate DenseSlots(m: map<string, int>) {
    DistinctSlots(m) && forall k :: k in m ==> 0 <= m[k] < |m|
  }

  type TagOrder = m: map<string, int> | DenseSlots(m) witness map[]

  // ---------------------------------------------------------------------
  // Queries and statements
  // ---------------------------------------------------------------------

  /** An aggregator of the chain. An alignable one carries the query's time
      window once the executor has handed it over. */
  datatype Aggregator = Aggregator(name: string, alignable: bool, window: Option<(int, int)>)

  /** One metric of a query: its name, the values asked for per tag key, and
      its aggregators in declared order. */
  datatype QueryMetric = QueryMetric(
    name: string,
    tags: map<string, seq<string>>,
    aggregators: seq<Aggregator>)

  datatype Query = Query(metrics: seq<QueryMetric>, startTime: int, endTime: int)

  /** One segment of a path pattern: `*`, or the values asked for at that slot. */
  datatype Segment = Wildcard | Values(values: seq<string>)

  /** What the SQL builder is given: the metric, one segment per slot and the
      time range. */
  datatype SelectStatement = SelectStatement(
    metric: string,
    segments: seq<Segment>,
    startTime: int,
    endTime: int)

  // ---------------------------------------------------------------------
  // Results
  // ---------------------------------------------------------------------

  /** A decoded cell. The numbers are kept as the text the driver parses. */
  datatype Value = IntValue(text: string) | DoubleValue(text: string) | TextValue(text: string)

  /** A data point, or the null point added for a column type the executor
      does not know. */
  datatype DataPoint = DataPoint(time: int, value: Value) | NullPoint

  datatype GroupBy = NumberGroupBy | TextGroupBy

  /** A metric value result: name, data points, the tag values recovered per
      tag key (None standing for the null key of a slot without a tag), and
      the group-bys attached. */
  datatype Series = Series(
    name: string,
    points: seq<DataPoint>,
    tags: map<Option<string>, seq<string>>,
    groupBys: seq<GroupBy>)

  datatype MetricResult = MetricResult(sampleSize: int, results: seq<Series>)

  /** What a query reports for one metric: the void result, or the result
      that came out of the aggregator chain. */
  datatype MetricOutcome = VoidResult(name: string) | Aggregated(result: MetricResult)

  /** What the executor reads from outside: the registry's tag orders, the
      backend's answer to a statement (None when executing it fails), the
      aggregators' behaviour, and the null marker of the delete builder. */
  datatype Environment = Environment(
    tagOrders: map<string, TagOrder>,
    backend: SelectStatement -> Option<ResultSet>,
    aggregate: (Aggregator, MetricResult) -> MetricResult,
    nullStr: string)

  // ---------------------------------------------------------------------
  // Resolving a query against a tag order
  // ---------------------------------------------------------------------

  /** The metric has a tag order and every queried tag key has a slot in it. */
  predicate MappingOk(tagOrders: map<string, TagOrder>, metric: QueryMetric) {
    metric.name in tagOrders && metric.tags.Keys <= tagOrders[metric.name].Keys
  }

  /** The slot-to-key map of the keys in `keys`: it holds exactly their slots,
      and maps each one back to its key. */
  function Positions(t2p: TagOrder, keys: set<string>): (p2t: map<int, string>)
    requires keys <= t2p.Keys
    ensures forall k :: k in keys ==> t2p[k] in p2t && p2t[t2p[k]] == k
    ensures forall p :: p in p2t ==> p2t[p] in keys && t2p[p2t[p]] == p
  {
    map k | k in keys :: t2p[k] := k
  }

  /** The full inverse of a tag order. */
  function Inverse(t2p: TagOrder): map<int, string> {
    Positions(t2p, t2p.Keys)
  }

  /** Every entry of `p2t` maps a slot back to the key that owns it. */
  predicate Consistent(t2p: TagOrder, p2t: map<int, string>) {
    forall p :: p in p2t ==> p2t[p] in t2p && t2p[p2t[p]] == p
  }

  /** The keys of `keys` hold exactly the slots of `p2t`, each mapped back to
      its key. */
  predicate ExactSlots(t2p: map<string, int>, keys: set<string>, p2t: map<int, string>)
    requires keys <= t2p.Keys
  {
    && (forall k :: k in keys ==> t2p[k] in p2t)
    && (forall p :: p in p2t ==> p2t[p] in keys && t2p[p2t[p]] == p)
  }

  /** A map that holds exactly the slots of `keys`, each mapped back to its
      key, is the one Positions gives. */
  lemma PositionsUnique(t2p: TagOrder, keys: set<string>, p2t: map<int, string>)
    requires keys <= t2p.Keys && ExactSlots(t2p, keys, p2t)
    ensures p2t == Positions(t2p, keys)
  {
    var q := Positions(t2p, keys);
    forall p | p in p2t ensures p in q {
      assert t2p[p2t[p]] == p;
    }
    forall p | p in q ensures p in p2t {
      assert t2p[q[p]] == p;
    }
    assert p2t.Keys == q.Keys;
  }

  /** Resolving one more key adds its slot, mapped back to it. */
  lemma PositionsAdd(t2p: TagOrder, keys: set<string>, k: string)
    requires keys <= t2p.Keys && k in t2p
    ensures Positions(t2p, keys + {k}) == Positions(t2p, keys)[t2p[k] := k]
  {
    ExactSlotsAdd(t2p, keys, Positions(t2p, keys), k);
    PositionsUnique(t2p, keys + {k}, Positions(t2p, keys)[t2p[k] := k]);
  }

  /** The pattern segment for slot `i`. */
  function SegmentAt(tags: map<string, seq<string>>, p2t: map<int, string>, i: int): Segment
    requires forall p :: p in p2t ==> p2t[p] in tags
  {
    if i in p2t then Values(tags[p2t[i]]) else Wildcard
  }

  /** The first `n` segments of a path pattern: segment i is the values asked
      for the key at slot i, or `*` when no queried key sits there. */
  function PathSegments(tags: map<string, seq<string>>, p2t: map<int, string>, n: nat): (segs: seq<Segment>)
    requires forall p :: p in p2t ==> p2t[p] in tags
    ensures |segs| == n
    ensures forall i :: 0 <= i < n ==> segs[i] == SegmentAt(tags, p2t, i)
  {
    if n == 0 then [] else PathSegments(tags, p2t, n - 1) + [SegmentAt(tags, p2t, n - 1)]
  }

  /** The statement the executor asks for a metric whose keys all resolve:
      one segment per slot of the tag order. */
  function QueryStatement(metric: QueryMetric, t2p: TagOrder, startTime: int, endTime: int): SelectStatement
    requires metric.tags.Keys <= t2p.Keys
  {
    var p2t := Positions(t2p, metric.tags.Keys);
    SelectStatement(metric.name, PathSegments(metric.tags, p2t, |t2p|), startTime, endTime)
  }

  // ---------------------------------------------------------------------
  // Counting the constrained segments
  // ---------------------------------------------------------------------

  function ConcreteCount(segs: seq<Segment>): nat {
    if segs == [] then 0
    else ConcreteCount(segs[..|segs| - 1]) + (if segs[|segs| - 1].Values? then 1 else 0)
  }

  /** The slots of `p2t` below `n`. */
  function SlotsBelow(p2t: map<int, string>, n: int): set<int> {
    set i | i in p2t && 0 <= i < n
  }

  lemma {:induction false} ConcreteCountSlots(segs: seq<Segment>, p2t: map<int, string>)
    requires forall i :: 0 <= i < |segs| ==> (segs[i].Values? <==> i in p2t)
    ensures ConcreteCount(segs) == |SlotsBelow(p2t, |segs|)|
  {
    var n := |segs|;
    if n > 0 {
      var init := segs[..n - 1];
      ConcreteCountSlots(init, p2t);
      var a := SlotsBelow(p2t, n - 1);
      var b := SlotsBelow(p2t, n);
      if n - 1 in p2t {
        assert b == a + {n - 1};
      } else {
        assert b == a;
      }
    }
  }

  /** Adding one key and its slot keeps the two exact. */
  lemma ExactSlotsAdd(t2p: map<string, int>, keys: set<string>, p2t: map<int, string>, k: string)
    requires keys <= t2p.Keys && k in t2p && ExactSlots(t2p, keys, p2t)
    ensures ExactSlots(t2p, keys + {k}, p2t[t2p[k] := k])
  {
  }

  /** Exact slots map every slot back to a key that owns it. */
  lemma ExactSlotsConsistent(t2p: TagOrder, keys: set<string>, p2t: map<int, string>)
    requires keys <= t2p.Keys && ExactSlots(t2p, keys, p2t)
    ensures Consistent(t2p, p2t)
  {
  }

  /** Removing one key and its slot keeps the two exact. */
  lemma ExactSlotsRemove(t2p: map<string, int>, keys: set<string>, p2t: map<int, string>, k: string)
    requires DistinctSlots(t2p) && keys <= t2p.Keys && ExactSlots(t2p, keys, p2t) && k in keys
    ensures ExactSlots(t2p, keys - {k}, p2t - {t2p[k]})
    ensures p2t.Keys == (p2t - {t2p[k]}).Keys + {t2p[k]} && t2p[k] !in (p2t - {t2p[k]})
  {
    var slot := t2p[k];
    var rest, smaller := keys - {k}, p2t - {slot};
    forall p | p in smaller ensures smaller[p] in rest && t2p[smaller[p]] == p {
      assert t2p[p2t[p]] == p != slot;
    }
    forall j | j in rest ensures t2p[j] in smaller {
      assert t2p[j] != slot;
    }
  }

  /** A map that holds exactly the slots of `keys`, each mapped back to its
      key, has one entry per key. */
  lemma {:induction false} SlotCountOf(t2p: map<string, int>, keys: set<string>, p2t: map<int, string>)
    requires DistinctSlots(t2p) && keys <= t2p.Keys && ExactSlots(t2p, keys, p2t)
    ensures |p2t.Keys| == |keys|
    decreases keys
  {
    if keys == {} {
      assert forall p :: p in p2t.Keys ==> p2t[p] in keys;
      assert p2t.Keys == {};
    } else {
      var k :| k in keys;
      ExactSlotsRemove(t2p, keys, p2t, k);
      SlotCountOf(t2p, keys - {k}, p2t - {t2p[k]});
    }
  }

  /** The slots of distinct keys are distinct, so there are as many as keys. */
  lemma SlotCount(t2p: TagOrder, keys: set<string>)
    requires keys <= t2p.Keys
    ensures |Positions(t2p, keys).Keys| == |keys|
  {
    SlotCountOf(t2p, keys, Positions(t2p, keys));
  }

  /** A query that constrains k of a metric's n tag keys gives a pattern of
      n segments, k of them concrete and n - k of them `*`. */
  lemma ConstrainedSegments(metric: QueryMetric, t2p: TagOrder)
    requires metric.tags.Keys <= t2p.Keys
    ensures |QueryStatement(metric, t2p, 0, 0).segments| == |t2p|
    ensures ConcreteCount(QueryStatement(metric, t2p, 0, 0).segments) == |metric.tags.Keys|
  {
    var p2t := Positions(t2p, metric.tags.Keys);
    var segs := PathSegments(metric.tags, p2t, |t2p|);
    ConcreteCountSlots(segs, p2t);
    assert SlotsBelow(p2t, |segs|) == p2t.Keys;
    SlotCount(t2p, metric.tags.Keys);
  }

  /** The pattern of a query for host=a on the metric cpu.usage whose tag
      order is host -> 0, region -> 1: segment 0 is `a`, segment 1 is `*`. */
  lemma HostScenario(order: TagOrder)
    requires order == map["host" := 0, "region" := 1]
    ensures QueryStatement(QueryMetric("cpu.usage", map["host" := ["a"]], []), order, 1000, 5000)
      == SelectStatement("cpu.usage", [Values(["a"]), Wildcard], 1000, 5000)
  {
    assert order.Keys == {"host", "region"};
    assert |order| == 2;
    var tags := map["host" := ["a"]];
    assert tags.Keys == {"host"};
    var p2t := map[0 := "host"];
    PositionsUnique(order, tags.Keys, p2t);
    var segs := PathSegments(tags, p2t, 2);
    assert segs[0] == Values(["a"]) && segs[1] == Wildcard;
    assert segs == [Values(["a"]), Wildcard];
  }
}
