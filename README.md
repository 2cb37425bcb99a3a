# KairosDB-on-IoTDB query executor and JSON error responses

This project models two parts of the KairosDB-compatible HTTP front end for
IoTDB.

1. `QueryExecutor` answers a KairosDB query, metric by metric. For each metric it:
   - looks up the metric's tag order (tag key to path slot) in the registry;
   - checks that every queried tag key has a slot;
   - builds a path pattern with one segment per slot: the queried values,
     or `*`;
   - reads the rows the backend returns. It skips null cells, the delete
     builder's null marker and the magic number `2.147483646E9`. Every other
     cell is decoded by the type of column 2 and counted as a sample;
   - flags the columns that produced a value and recovers tag values from
     the dotted names of those columns;
   - reports the recovered values under their tag keys, attaches the basic
     group-by, and runs the metric's aggregators in order;
   - reports a void result when the tags do not resolve or nothing was found.

   For deletion, the executor turns a result set into a delete request: the
   paths and types of the value columns, and one (path, timestamp) pair per
   non-null cell.
2. `JsonResponseBuilder` collects error messages and renders them into a
   hand-written JSON body. The body opens with `{"errors:"[`, puts the
   messages one after the other between quotes with no separator and no
   escaping, and closes with `]}`.

The JDBC result set is a value (`ResultSets.ResultSet`): column metadata
(name and `java.sql.Types` code) and rows made of a timestamp and one
optional string cell per value column. Several things are inputs, bundled in
`QueryModel.Environment`:
- the registry of tag orders;
- the backend (a function from a statement to an optional result set, None
  when executing the statement fails);
- the aggregators' behaviour;
- the delete builder's null marker.

`QueryExecution.QueryExecutor` and `JsonResponse.JsonResponseBuilder` are
classes whose fields the methods update, as in the source. The loops of the
source are `while`/`for` loops proved against specification functions:
- `Reassembly.TableSamples`, `LiveCount`, `LiveColumns`;
- `TagPaths.Collect`, `Reassembly.TagsFor`;
- `Aggregation.Pipeline`, `Deletion.DeletePoints`, `JsonResponse.ErrorBody`.

Lemmas then state what these functions promise.

Modules, in dependency order:
- `Wrappers`: Option;
- `ResultSets`: result sets and type codes;
- `TagPaths`: Java's split on `.` and collecting distinct values per path index;
- `QueryModel`: queries, tag orders and statements;
- `Reassembly`: samples, live columns, tag recovery and the type guess;
- `Aggregation`: the aggregator chain and the per-metric outcome;
- `Deletion`: the delete request;
- `QueryExecution`: the executor class;
- `JsonResponse`: the error body and its builder.

## Model

Source paths are relative to the repository root.

| member | source | states |
|---|---|---|
| QueryExecution.QueryExecutor.constructor | src/main/java/cn/edu/tsinghua/iotdb/kairosdb/query/QueryExecutor.java:44-48 | the executor keeps the query and takes its start and end times; no tag order, slot map or recovered tags yet |
| QueryExecution.QueryExecutor.GetMetricMapping | src/main/java/cn/edu/tsinghua/iotdb/kairosdb/query/QueryExecutor.java:151-169 | `tag2pos` becomes the metric's tag order (None when the registry has none); the result is true exactly when the metric has a tag order holding every queried key; on success `pos2tag` maps the slot of each queried key, and of no other key, back to that key; whatever it holds maps slots back to their owners |
| QueryModel.Positions | src/main/java/cn/edu/tsinghua/iotdb/kairosdb/query/QueryExecutor.java:158-165 | the slot map of a set of keys holds the slot of every key, mapped back to it, and nothing else |
| QueryModel.PositionsUnique | src/main/java/cn/edu/tsinghua/iotdb/kairosdb/query/QueryExecutor.java:158-165 | any map holding exactly the slots of the keys, each mapped back to its key, is the one `Positions` gives, whatever order the keys are visited in |
| QueryModel.PositionsAdd | src/main/java/cn/edu/tsinghua/iotdb/kairosdb/query/QueryExecutor.java:164 | resolving one more key adds exactly its slot, mapped to it |
| QueryModel.SlotCount | src/main/java/cn/edu/tsinghua/iotdb/kairosdb/query/QueryExecutor.java:158-165 | resolving k keys of a tag order gives k distinct slots |
| QueryModel.PathSegments | src/main/java/cn/edu/tsinghua/iotdb/kairosdb/query/QueryExecutor.java:175-182 | a pattern of n segments whose segment i is the values of the key at slot i, or `*` when no queried key sits there |
| QueryExecution.QueryExecutor.BuildSqlStatement | src/main/java/cn/edu/tsinghua/iotdb/kairosdb/query/QueryExecutor.java:171-185 | the statement names the metric, carries the time range and exactly `maxPath` segments as `PathSegments` defines them |
| QueryModel.ConstrainedSegments | src/main/java/cn/edu/tsinghua/iotdb/kairosdb/query/QueryExecutor.java:64 | the statement of a metric constraining k of its n tag keys has n segments, k of them concrete, hence n - k wildcards |
| QueryModel.HostScenario | src/main/java/cn/edu/tsinghua/iotdb/kairosdb/query/QueryExecutor.java:171-185 | the query host=a on a metric with order host, region gives the pattern `a`, `*` |
| Reassembly.SampleCount | src/main/java/cn/edu/tsinghua/iotdb/kairosdb/query/QueryExecutor.java:243-251 | one data point per live cell: the number of points added is the number of cells that are not null, the null marker or the magic number |
| Reassembly.NoLiveCells | src/main/java/cn/edu/tsinghua/iotdb/kairosdb/query/QueryExecutor.java:246-249 | a table whose cells are all skipped counts no sample |
| Reassembly.TableSamplesMembers | src/main/java/cn/edu/tsinghua/iotdb/kairosdb/query/QueryExecutor.java:240-270 | a data point is added exactly when it is the decoding of some live cell, stamped with its row's time |
| Reassembly.SampleKinds | src/main/java/cn/edu/tsinghua/iotdb/kairosdb/query/QueryExecutor.java:253-269 | every point carries its row's time; it is an int exactly for INTEGER or BIGINT, a double exactly for DOUBLE, text exactly for VARCHAR, and a null point for any other type of column 2; the text group-by goes exactly with text points |
| Reassembly.Skipped | src/main/java/cn/edu/tsinghua/iotdb/kairosdb/query/QueryExecutor.java:246-249 | defines the cells that add nothing: SQL NULL, the delete builder's null marker and the magic number `2.147483646E9`; `SampleCount`, `TableSamplesMembers` and `LiveColumns` state what skipping them means |
| Reassembly.Decode | src/main/java/cn/edu/tsinghua/iotdb/kairosdb/query/QueryExecutor.java:253-268 | a live cell gives a data point exactly when column 2's type is BIGINT, INTEGER, DOUBLE or VARCHAR, and a null point otherwise; the point carries the row's time and the cell's text, as an int exactly for BIGINT or INTEGER, a double exactly for DOUBLE and text exactly for VARCHAR |
| Reassembly.TableSamples | src/main/java/cn/edu/tsinghua/iotdb/kairosdb/query/QueryExecutor.java:240-270 | defines the data points of a table, row by row and cell by cell; `SampleCount`, `TableSamplesMembers` and `SampleKinds` state their number, membership and kinds, and `ReadRows` is proved to append exactly them |
| Reassembly.LiveCount | src/main/java/cn/edu/tsinghua/iotdb/kairosdb/query/QueryExecutor.java:243-250 | defines the number of live cells of a table; `SampleCount` states it equals the number of data points, and `ReadRows` and `GetValueResult` are proved to return it |
| Reassembly.BasicGroupBy | src/main/java/cn/edu/tsinghua/iotdb/kairosdb/query/QueryExecutor.java:328-335 | the group-by is the text one exactly when column 2's type is VARCHAR, and the number one exactly otherwise |
| Reassembly.LiveColumns | src/main/java/cn/edu/tsinghua/iotdb/kairosdb/query/QueryExecutor.java:235-251 | one flag per value column, set exactly when some row has a live cell in that column |
| Reassembly.LiveFlagsStep | src/main/java/cn/edu/tsinghua/iotdb/kairosdb/query/QueryExecutor.java:243-251 | after one more row, a column is flagged exactly when it was already flagged or that row's cell in it is live |
| Reassembly.RowStep | src/main/java/cn/edu/tsinghua/iotdb/kairosdb/query/QueryExecutor.java:240-272 | reading one more row adds its live cells to the count and its data points after those of the rows before |
| QueryExecution.QueryExecutor.ReadRow | src/main/java/cn/edu/tsinghua/iotdb/kairosdb/query/QueryExecutor.java:242-270 | one row: every live cell adds its decoded point in column order and counts once; the flags of exactly the row's live columns are set, and the others are unchanged |
| QueryExecution.QueryExecutor.ReadRows | src/main/java/cn/edu/tsinghua/iotdb/kairosdb/query/QueryExecutor.java:235-272 | from all-false flags: the count is the number of live cells, the points are the table's samples in row-major order, and the flags are the live columns |
| QueryExecution.QueryExecutor.GetValueResult | src/main/java/cn/edu/tsinghua/iotdb/kairosdb/query/QueryExecutor.java:213-291 | when the statement fails or column 2 is missing: sample size 0 and nothing changes; otherwise the sample size is the number of live cells, the points are appended, `tmpTags` is collected from the live columns' names, and the basic group-by of column 2's type is appended |
| Reassembly.GuessedType | src/main/java/cn/edu/tsinghua/iotdb/kairosdb/query/QueryExecutor.java:351-361 | the guess is INTEGER, DOUBLE or VARCHAR; INTEGER exactly when every character is a digit (the empty string included); DOUBLE exactly when some character is not a digit and the string holds a '.'; VARCHAR exactly when some character is not a digit and there is no '.' |
| TagPaths.JavaSplit | src/main/java/cn/edu/tsinghua/iotdb/kairosdb/query/QueryExecutor.java:301 | the pieces hold no '.'; a name without '.' is its own single piece; otherwise the pieces are those between the dots, trailing empty ones dropped and no other piece dropped |
| TagPaths.JoinSplitAll | src/main/java/cn/edu/tsinghua/iotdb/kairosdb/query/QueryExecutor.java:301 | joining the pieces between the dots with '.' gives the name back |
| TagPaths.SplitAllJoin | src/main/java/cn/edu/tsinghua/iotdb/kairosdb/query/QueryExecutor.java:301 | splitting joined dot-free pieces gives the pieces back |
| TagPaths.DedupFirstSeenOrder | src/main/java/cn/edu/tsinghua/iotdb/kairosdb/query/QueryExecutor.java:309-311 | keeping a value only when it is not yet in the list keeps values in the order of their first occurrence |
| TagPaths.AddUpToGet | src/main/java/cn/edu/tsinghua/iotdb/kairosdb/query/QueryExecutor.java:303-312 | the inner loop touches exactly the lists of indices 2 to len - 2, creating a missing one and adding the segment unless present |
| TagPaths.Collect | src/main/java/cn/edu/tsinghua/iotdb/kairosdb/query/QueryExecutor.java:295-313 | defines the map built from the split paths, in path order; `CollectGet` and `CollectedSlot` state what each index holds, and `GetTagValueFromPaths` is proved to build exactly it |
| TagPaths.CollectGet | src/main/java/cn/edu/tsinghua/iotdb/kairosdb/query/QueryExecutor.java:297-313 | the list of each index is the first-seen deduplication of the segments the paths hold there, and an index has a list exactly when some path reaches it |
| TagPaths.CollectedSlot | src/main/java/cn/edu/tsinghua/iotdb/kairosdb/query/QueryExecutor.java:303-312 | each collected list is duplicate-free, holds exactly the values some path has at that index, in first-seen order |
| QueryExecution.QueryExecutor.GetTagValueFromPaths | src/main/java/cn/edu/tsinghua/iotdb/kairosdb/query/QueryExecutor.java:293-314 | `tmpTags` becomes the collection of the split names of the flagged columns, in column order |
| QueryExecution.QueryExecutor.AddPathTo | src/main/java/cn/edu/tsinghua/iotdb/kairosdb/query/QueryExecutor.java:301-312 | the inner loop over one split name: the result is that name's step of the collection, which `AddUpToGet` states touches exactly the lists of indices 2 to len - 2, each by one add-unless-present |
| Reassembly.FlaggedValuesAt | src/main/java/cn/edu/tsinghua/iotdb/kairosdb/query/QueryExecutor.java:297-303 | a value is seen at index j exactly when some flagged column's split name has it there |
| Reassembly.RecoveredTagValues | src/main/java/cn/edu/tsinghua/iotdb/kairosdb/query/QueryExecutor.java:279-313 | after reassembly, the list of index j is duplicate-free and holds a value exactly when some column with a live cell has it as segment j, for j from 2 to the second-to-last segment; other columns contribute nothing |
| Reassembly.TagsFor | src/main/java/cn/edu/tsinghua/iotdb/kairosdb/query/QueryExecutor.java:322-324 | defines the tags reported for a set of path indices, set one index after the other in increasing order; `TagsForKeys`, `TagsForAt`, `TagsForNull` and `TagsForReports` state what it holds, and `SetTags` is proved to produce it |
| Reassembly.TagsForKeys | src/main/java/cn/edu/tsinghua/iotdb/kairosdb/query/QueryExecutor.java:322-324 | a key is reported exactly when some collected index is two more than its slot (None for indices whose slot has no key) |
| Reassembly.TagsForAt | src/main/java/cn/edu/tsinghua/iotdb/kairosdb/query/QueryExecutor.java:322-324 | with distinct keys per slot, the key of index j gets exactly the list of index j |
| Reassembly.TagsForNull | src/main/java/cn/edu/tsinghua/iotdb/kairosdb/query/QueryExecutor.java:322-324 | the null key gets the list of the largest index whose slot has no key, the later put overwriting the earlier ones |
| Reassembly.InverseInjective | src/main/java/cn/edu/tsinghua/iotdb/kairosdb/query/QueryExecutor.java:318-320 | the full inverse of a tag order gives each slot to one key, and the key of index slot + 2 is the slot's owner |
| Reassembly.TagsForReports | src/main/java/cn/edu/tsinghua/iotdb/kairosdb/query/QueryExecutor.java:316-326 | with the full inverse: the list of index j is reported under the key whose slot is j - 2; no other key is reported; the null key gets the list of the largest keyless index |
| QueryExecution.QueryExecutor.SetTags | src/main/java/cn/edu/tsinghua/iotdb/kairosdb/query/QueryExecutor.java:316-326 | nothing changes when `tmpTags` is null; otherwise `pos2tag` becomes the full inverse of the tag order and the result's tags become its old tags updated index by index in increasing order |
| Aggregation.Windowed | src/main/java/cn/edu/tsinghua/iotdb/kairosdb/query/QueryExecutor.java:340-344 | the aggregators keep their number, order, names and kinds; each alignable one carries the query's start and end; the others are untouched |
| QueryExecution.QueryExecutor.DoAggregations | src/main/java/cn/edu/tsinghua/iotdb/kairosdb/query/QueryExecutor.java:337-349 | the result is the given one run through the windowed aggregators in declared order, each on the previous result |
| Aggregation.Pipeline | src/main/java/cn/edu/tsinghua/iotdb/kairosdb/query/QueryExecutor.java:340-346 | defines running aggregators in order, each on the result of the one before; `PipelineAppend` and `PipelineFirst` state how chains compose, and `DoAggregations` is proved to compute it |
| Aggregation.PipelineAppend | src/main/java/cn/edu/tsinghua/iotdb/kairosdb/query/QueryExecutor.java:340-346 | running two chains one after the other is running their concatenation |
| Aggregation.PipelineFirst | src/main/java/cn/edu/tsinghua/iotdb/kairosdb/query/QueryExecutor.java:340-346 | the first aggregator consumes the given result and the rest of the chain consumes what it returns |
| Aggregation.Outcome | src/main/java/cn/edu/tsinghua/iotdb/kairosdb/query/QueryExecutor.java:58-100 | defines what the loop of `execute` reports for one metric: void when the tags do not resolve, the fetch fails or no cell is live, and otherwise the sample count and series run through the aggregators; `OutcomeVoid` and `UnaggregatedOutcome` state its cases, and `Execute` is proved to report it for every metric |
| Aggregation.ResolvedVoid | src/main/java/cn/edu/tsinghua/iotdb/kairosdb/query/QueryExecutor.java:84-85 | a resolved metric whose statement fails or finds no live cell is reported void |
| Aggregation.ResolvedAggregated | src/main/java/cn/edu/tsinghua/iotdb/kairosdb/query/QueryExecutor.java:86-91 | a resolved metric with live cells is reported as its sample count and single series, run through its aggregators |
| Aggregation.OutcomeVoid | src/main/java/cn/edu/tsinghua/iotdb/kairosdb/query/QueryExecutor.java:58-100 | a metric is reported void, under its own name, exactly when its tags do not resolve, fetching fails, or none of its cells is live |
| Aggregation.UnaggregatedOutcome | src/main/java/cn/edu/tsinghua/iotdb/kairosdb/query/QueryExecutor.java:72-91 | without aggregators the reported result has one series named after the metric, and its sample size is positive and equals that series' number of points |
| QueryExecution.QueryExecutor.FetchSeries | src/main/java/cn/edu/tsinghua/iotdb/kairosdb/query/QueryExecutor.java:66-78 | a fresh result object after reading and setting tags: sample size 0 when fetching fails, otherwise the number of live cells and the series of the table |
| QueryExecution.QueryExecutor.ExecuteResolved | src/main/java/cn/edu/tsinghua/iotdb/kairosdb/query/QueryExecutor.java:62-96 | a resolved metric is reported as its outcome: void when the sample size is 0, aggregated otherwise |
| QueryExecution.QueryExecutor.ExecuteMetric | src/main/java/cn/edu/tsinghua/iotdb/kairosdb/query/QueryExecutor.java:59-100 | each metric is reported as its outcome, void when the mapping fails |
| QueryExecution.QueryExecutor.Execute | src/main/java/cn/edu/tsinghua/iotdb/kairosdb/query/QueryExecutor.java:50-112 | exactly one outcome per metric of the query, in order, each the one its tags, data and aggregators determine |
| Deletion.ValuePaths | src/main/java/cn/edu/tsinghua/iotdb/kairosdb/query/QueryExecutor.java:190-196 | the paths are the names of columns 2..n, in order |
| Deletion.ValueTypes | src/main/java/cn/edu/tsinghua/iotdb/kairosdb/query/QueryExecutor.java:191-196 | the types are the type codes of columns 2..n, in order |
| Deletion.DeletePoints | src/main/java/cn/edu/tsinghua/iotdb/kairosdb/query/QueryExecutor.java:201-208 | defines the delete points of a table in row-major order, one per non-null cell; `DeletePointsCount`, `DeletePointsMembers` and `DeletePointsAppend` state their number, membership and order, and `BuildDeleteSql` is proved to produce them |
| Deletion.DeletePointsCount | src/main/java/cn/edu/tsinghua/iotdb/kairosdb/query/QueryExecutor.java:201-208 | one delete point per non-null cell |
| Deletion.DeletePointsMembers | src/main/java/cn/edu/tsinghua/iotdb/kairosdb/query/QueryExecutor.java:201-208 | a (path, timestamp) pair is deleted exactly when some row at that time has a non-null cell in that path's column |
| Deletion.DeletePointsAppend | src/main/java/cn/edu/tsinghua/iotdb/kairosdb/query/QueryExecutor.java:201-208 | row-major order: the points of earlier rows come before those of later rows |
| Deletion.SentinelRowDeleted | src/main/java/cn/edu/tsinghua/iotdb/kairosdb/query/QueryExecutor.java:204-247 | a row holding only the magic number gives a query no sample but is still deleted |
| QueryExecution.QueryExecutor.BuildDeleteSql | src/main/java/cn/edu/tsinghua/iotdb/kairosdb/query/QueryExecutor.java:187-211 | no request for a result without columns; otherwise the paths and types of columns 2..n and the delete points in row-major order |
| QueryExecution.QueryExecutor.IsNumeric | src/main/java/cn/edu/tsinghua/iotdb/kairosdb/query/QueryExecutor.java:363-370 | true exactly when every character is a digit, the empty string included |
| QueryExecution.QueryExecutor.FindType | src/main/java/cn/edu/tsinghua/iotdb/kairosdb/query/QueryExecutor.java:351-361 | the type guessed for the string |
| QueryExecution.MetricValueResult.constructor | src/main/java/cn/edu/tsinghua/iotdb/kairosdb/query/QueryExecutor.java:66 | a result object named after the metric, with no points, tags or group-bys |
| JsonResponse.JsonResponseBuilder.constructor | src/main/java/cn/edu/tsinghua/iotdb/kairosdb/http/rest/json/JsonResponseBuilder.java:26-31 | the builder records the status code and holds no message |
| JsonResponse.JsonResponseBuilder.AddErrors | src/main/java/cn/edu/tsinghua/iotdb/kairosdb/http/rest/json/JsonResponseBuilder.java:33-36 | the messages are appended in order after the existing ones, and the same builder is returned |
| JsonResponse.JsonResponseBuilder.AddError | src/main/java/cn/edu/tsinghua/iotdb/kairosdb/http/rest/json/JsonResponseBuilder.java:38-41 | exactly one message is appended at the end, and the same builder is returned |
| JsonResponse.JsonResponseBuilder.Build | src/main/java/cn/edu/tsinghua/iotdb/kairosdb/http/rest/json/JsonResponseBuilder.java:43-57 | the response has the recorded status, the CORS header, the JSON media type and the body of the messages; it modifies nothing, so building twice gives the same response |
| JsonResponse.ErrorBody | src/main/java/cn/edu/tsinghua/iotdb/kairosdb/http/rest/json/JsonResponseBuilder.java:44-51 | defines the body: the opening, each message between quotes with no separator, the closing; `ErrorBodyLength`, `EmptyErrorBody`, `ErrorBodyAppend`, `AmbiguousErrorBody` and `ParseBuiltBody` state its properties, and `Build` is proved to produce it |
| JsonResponse.ErrorBodyLength | src/main/java/cn/edu/tsinghua/iotdb/kairosdb/http/rest/json/JsonResponseBuilder.java:44-51 | the body is 13 characters plus, for each message, its length plus 2 |
| JsonResponse.EmptyErrorBody | src/main/java/cn/edu/tsinghua/iotdb/kairosdb/http/rest/json/JsonResponseBuilder.java:45-51 | with no messages the body is exactly `{"errors:"[]}` |
| JsonResponse.ErrorBodyAppend | src/main/java/cn/edu/tsinghua/iotdb/kairosdb/http/rest/json/JsonResponseBuilder.java:46-50 | more messages add their quoted text just before the closing |
| JsonResponse.AmbiguousErrorBody | src/main/java/cn/edu/tsinghua/iotdb/kairosdb/http/rest/json/JsonResponseBuilder.java:46-50 | since nothing is escaped, the lists `a`, `b` and `a""b` give the same body |
| JsonResponse.ParseBuiltBody | src/main/java/cn/edu/tsinghua/iotdb/kairosdb/http/rest/json/JsonResponseBuilder.java:44-51 | when no message holds a double quote, the messages can be read back from the body |

## Left out

- JDBC plumbing is not modelled: opening the connection, `Statement.execute`, the cursor, batches, and the whole `delete()` loop that runs the delete statements. The result set is a value and the backend is a function. A failed connection dereferences null in the source; that is not modelled.
- Only the single connection used by `getValueResult` is modelled. Shard routing, read-only fallback and the assignment of tag slots are not in the modelled files.
- `QuerySqlBuilder.generateSql` is not modelled: a statement is a value holding the metric, the segments and the time range. `DeleteSqlBuilder.build` and `appendDataPoint` are not modelled either: the delete request holds the paths, the types and the (path, timestamp) pairs they are given.
- `DeleteSqlBuilder.NULL_STR` is a parameter (`nullStr`), because its value is not in the modelled files.
- `MetricsManager.getTagOrder` is a map of tag orders. Tag orders are assumed to give distinct keys distinct slots 0..n-1, as the registry assigns them; the registry's code is not part of this model.
- Aggregators and group-bys are not modelled. An aggregator's effect is a function parameter, so `QueryException` is not modelled. The window an alignable aggregator is given is recorded on the aggregator as it runs; that the source mutates the query's own aggregator object is not modelled.
- Numeric parsing (`getInt`, `getDouble`) keeps the cell's text inside an int or double value, because floating point is not modelled.
- Logging, timing, and the `config.DEBUG` branches have no effect on results and are left out.
- `BuildDeleteSql`: the timestamp of a delete point is the row's time as one integer. The source reads it as the string `getString(1)` for deletes and as the long `getLong(1)` for queries; both reads are modelled as the same integer, so a driver whose text for the time column is not the decimal form of that long is not modelled.
- `MetricValueResult` is a class of this model whose source is not part of it: `addDataPoint` and `addGroupBy` are assumed to append, and `setTag` to be a map put that accepts the null key and overwrites an earlier entry for the same key.
- `Decode`: BIGINT cells are read with the 32-bit `getInt` in the source; the model keeps the cell's text, so the narrowing of values outside the 32-bit range is not modelled.
- `GetValueResult`: an SQLException raised while reading rows (by `next`, `getInt`, `getDouble` or `getString`) is not modelled. In the source it is caught after some points were added, so the sample size is partial and may be non-zero, `getTagValueFromPaths` and `addBasicGroupByToResult` are skipped, and `setTags` then reports the previous metric's `tmpTags` on a result that is reported as aggregated. The backend of the model returns a whole table or nothing.
- `GuessedType` and `IsNumeric`: `Character.isDigit` is modelled for the ASCII digits only; other Unicode digits are not modelled.
- `GetValueResult`: the guard for a null statement or a null result object is not modelled, because neither can be null in the model. A result set with fewer than two columns is treated as a failed fetch, since reading the type of column 2 then throws.
- `SetTags`: `tmpTags` entries are taken in increasing index order, as Java's `HashMap` iterates small integer keys. The tag-order entries are rebuilt in arbitrary order, which does not matter for an injective order.
- `SetTags`: `tmpTags` is not cleared between metrics, as in the source. `GetValueResult` leaves the previous metric's tags in place on a failed fetch, and `SetTags` then reports them on a result that is reported void.
- `ReadRows`, `ReadRow`, `AddPathTo`, `ExecuteResolved` and `FetchSeries` split the bodies of `getValueResult`, `getTagValueFromPaths` and `execute`. They do this so that each loop has its own contract.
- `GetMetricMapping` leaves its loop through a flag rather than an early return. It visits the queried keys in arbitrary order, as a `HashMap` entry set may. On failure `pos2tag` holds the keys resolved so far.
- `ConfigDescriptor` and `RollUpParser` are not modelled: they are configuration file reading and JSON parsing with a wall-clock identifier.
- The JAX-RS `Response` is not modelled: it is a value holding the status, the header, the media type and the body.
