# Orbit: verified models of the processing core

Orbit serves openEO process graphs over Earth-observation rasters. This project models the
algorithmic and concurrent parts of the service in Dafny and proves what they promise, for every
input, every run and every interleaving. `dafny verify dfyconfig.toml` checks all of it.

- **Process graphs.** `ProcessGraph` builds the dependency graph of a submitted process graph from
  links nested anywhere in its arguments (`ArgumentWalk`), sorts it by an explicit-stack search
  (`TopoSort`), and `Executor` evaluates it by filling a memo in that order. The memo loop is proved
  to compute the recursive meaning of the graph.
- **Rasters.** `PixelWindow` turns a box into a pixel window, `Stitch` assembles the window from
  tiles in place, `Rasterizer` burns a polygon into a mask and `ZonalStats` averages under it.
  `Tiling` relates the two block partitions, and `ChunkPlan` sizes blocks under a memory budget.
- **Time and text.** `Calendar` has both copies of the civil-date conversion, `Timestamps` the
  fixed-width text of an instant, `Catalog` the search that compares such texts as strings,
  `CanonicalJson` and `GraphHash` the key-sorted text of a graph and its hash. `TextOrder` has the
  facts about string order they share.
- **State machines.** `JobStores` relates the in-memory and the row-per-job store, `JobRunner` has the
  lifecycle of one job under any failures, `EtlInsert`, `EtlJob`, `EtlEvents` and `EtlChannel` the batched
  loading of a table, its cancellation and its stream of events, `MemoryBudget` and `BlockRunner` the
  concurrent block executor, `LruCache` the file caches.

Code that updates state is written as methods and classes proved against a specification; protocols
between threads are relations over atomic steps, with statements about all runs.

## Where the code and its documentation disagree

The models follow the code. Each disagreement is a lemma:

- the evaluation order need not end with the result node (`ProcessGraph.ResultNeedNotBeLast`);
- a pixel whose centre is inside a ring need not be set (`Rasterizer.InsideButNotSet`);
- a job can be left neither finished nor in error (`JobRunner.World.RunJob`);
- an interval of dates excludes its last day and a bare date matches nothing
  (`Catalog.DateIntervalIsHalfOpen`, `Catalog.BareDateMatchesNothing`), boxes that only touch do
  intersect (`Catalog.IntersectIffCommonPoint`), and some over the antimeridian are missed
  (`Catalog.WrappedBoxesIntersectIff`, `Catalog.BoxWithinIsMissed`);
- timestamps compare as strings only before the year 10000 (`Timestamps.OrderHoldsIff`);
- different graphs can have one canonical text if a key contains a quote (`CanonicalJson.EveryValueCollides`);
- a memory budget of the largest word can be overcommitted (`MemoryBudget.LargestCapOvercommits`);
- a worker's own error "cancelled" is reported as a cancellation (`BlockRunner.UntrippedCancelledIff`);
- the two caches agree only while evictions are forced (`LruCache.CachesAgreeIff`, `LruCache.TiedInsertsPart`);
- an insert into a cache can return the path of a file it has just evicted (`LruCache.SurelyKeptIff`),
  and two inserts at once can lose a listed file (`LruCache.FilesKeptIff` says when);
- a pipeline whose event stream is held and not read can stop for ever, deaf to an accepted
  cancellation (`EtlChannel.WorkerNeverWaitsIff`, `EtlChannel.WaitsUntilReadOrClosed`);
- cancelling can answer true for a pipeline that has completed (`EtlJob.CancelCanAnswerTrueAfterCompletion`),
  and in vain while the last chunk is written (`EtlJob.CancelledIffInTime`).

## Model

| member | source | states |
|---|---|---|
| ArgumentWalk.WalkMeetsReference | apps/orbit-openeo/src/process_graph.rs:161-206 | the walk over an argument gives up exactly when some value outside every callback is nested more than 64 deep; otherwise it reports exactly the links of the outer namespace |
| ArgumentWalk.LinksByShape | apps/orbit-openeo/src/process_graph.rs:161-206 | what counts as a link, shape by shape: an array's items and an object's fields are searched, an object with a string under `from_node` is that one link, and one with a `process_graph` otherwise holds none |
| ArgumentWalk.DepthByShape | apps/orbit-openeo/src/process_graph.rs:161-206 | likewise how deep a value is nested; too deep means to depth 65 |
| ArgumentWalk.CallbackBodiesAreInvisible | apps/orbit-openeo/src/process_graph.rs:168-206 | replacing the bodies under `process_graph` keys by anything changes neither links nor depth verdict |
| TopoSort.Sort | apps/orbit-openeo/src/process_graph.rs:96-127 | an order of all nodes with every edge forward, or none exactly when the edges contain a cycle |
| TopoSort.Explore | apps/orbit-openeo/src/process_graph.rs:96-127 | one depth-first search keeps finished nodes closed under successors, reaches its root, and reports a cycle only if there is one |
| TopoSort.OrderRulesOutCycles | apps/orbit-openeo/src/process_graph.rs:96-127 | a topological order is proof of acyclicity |
| ProcessGraph.CollectInValue | apps/orbit-openeo/src/process_graph.rs:161-206 | the visiting walk adds the edges of the links in order and stops at the first unknown node or excess of depth |
| ProcessGraph.CollectEdges | apps/orbit-openeo/src/process_graph.rs:67-100 | the loops over nodes and arguments do what replaying every walk in order does |
| ProcessGraph.Build | apps/orbit-openeo/src/process_graph.rs:67-116 | accepts iff every outer link resolves, nothing is nested too deep, the dependencies have no cycle and exactly one node is the result; on success edges and result are the graph's; the error is the first in the code's order |
| ProcessGraph.BuildAnswer | apps/orbit-openeo/src/process_graph.rs:67-116 | the same equivalence for the specification of the answer, and edges stay within the nodes |
| ProcessGraph.BuildErrors | apps/orbit-openeo/src/process_graph.rs:67-116 | each error by the graph: an unknown reference names a linked id that no node has; the depth error has the limit 64 and a value nested too deep; a cycle error means links and depth are in order and the dependencies have a cycle; an ambiguous result carries the number of nodes marked as result, other than one, with everything else in order |
| ProcessGraph.CallbackIsolation | apps/orbit-openeo/src/process_graph.rs:168-206 | graphs that differ only in callback bodies get the same answer, edges included |
| ProcessGraph.EvaluationOrder | apps/orbit-openeo/src/process_graph.rs:119-127 | a permutation of the node ids in which every node follows all the nodes that feed it |
| ProcessGraph.ResultIsLastIffOnlySink | apps/orbit-openeo/src/process_graph.rs:118-127 | the result is last in every valid order iff every other node feeds some node |
| ProcessGraph.ResultNeedNotBeLast | apps/orbit-openeo/src/process_graph.rs:118-127 | an accepted graph and a valid order that ends with another node |
| Executor.MeaningEquation | apps/orbit-openeo/src/executor.rs:171-275 | the recursive meaning of a node is its process run on the meanings of the nodes it links to |
| Executor.MeaningIgnoresBound | apps/orbit-openeo/src/executor.rs:171-275 | on accepted graphs the bound that makes the recursion end does not show |
| Executor.UpstreamIsEarlier | apps/orbit-openeo/src/executor.rs:278-295 | whatever a node substitutes has been evaluated before it, in every valid order |
| Executor.MemoRunsLikeMeaning | apps/orbit-openeo/src/executor.rs:171-295 | running a node from a memo of earlier meanings gives its meaning |
| Executor.EvaluateInOrder | apps/orbit-openeo/src/executor.rs:171-275 | for every valid order the memo loop succeeds iff every node's meaning is defined, result-irrelevant nodes included, and then returns the result node's meaning; else the first error in order |
| Executor.Evaluate | apps/orbit-openeo/src/executor.rs:171-275 | the same for the whole evaluation; graphs not accepted fail with the builder's error, internal faults do not occur, and any other failure is the meaning of some node; a graph of arithmetic nodes, in any node order, answers the number of the expression that its result node spells, or a division by zero iff some node's expression divides by zero |
| Executor.MeaningHasNoInternalFault | apps/orbit-openeo/src/executor.rs:257-295 | the errors "not yet evaluated", "unknown node" and "result not visited" are no node's meaning after an accepted build |
| Executor.ExpressionMeaning | apps/orbit-openeo/src/executor.rs:240-264 | a node that spells an arithmetic expression through its links means the expression's number, or a division by zero iff a divisor is zero |
| Executor.OperationOnNumbers | apps/orbit-openeo/src/executor.rs:240-264 | the four operations answer sum, difference, product and quotient of `x` and `y`, or that the divisor is zero |
| Executor.OnlyBareLinksAreReplaced | apps/orbit-openeo/src/executor.rs:278-295 | an argument is replaced by an upstream answer iff it is an object with nothing but a string under `from_node` |
| Executor.SaveResultHandsOn | apps/orbit-openeo/src/executor.rs:236-239 | saving answers what `data` stands for: the value itself, null if absent, or the answer linked to, errors included |
| Executor.SaveResultMeaning | apps/orbit-openeo/src/executor.rs:236-239 | a node that saves another's value means what that one means |
| Executor.LoadCollectionNamesTheCube | apps/orbit-openeo/src/executor.rs:191-235 | loading answers a data cube that names the id, with the catalog's version and description if there is a catalog, or the error of a missing collection, a broken catalog or an id that is no string |
| Executor.OtherProcessesAreUnknown | apps/orbit-openeo/src/executor.rs:265-265 | any other process is reported as unknown, once its arguments have values |
| PixelWindow.WindowIsTheTightCover | crates/orbit-geo/src/async_download.rs:280-310 | the window is the one that covers the box up to 0.001 pixel a side and would not without its first or last row or column; it fails iff the pixel size is zero or there is none |
| PixelWindow.RecropIsWhole | crates/orbit-geo/src/async_download.rs:1020-1027 | the same box under the output's own transform asks for exactly the whole output |
| Stitch.RangesAreNeededTiles | crates/orbit-geo/src/async_download.rs:768-775 | the tile ranges contain exactly the tiles that hold a pixel to read |
| Stitch.TileIndices | crates/orbit-geo/src/async_download.rs:819-841 | exactly the needed tiles, each once |
| Stitch.NoTilesIffDisjoint | crates/orbit-geo/src/async_download.rs:819-841 | no tile is needed iff window and source share no pixel |
| Stitch.CopySlice | crates/orbit-geo/src/async_download.rs:1098-1102 | the copied slice is the source's, everything else is unchanged |
| Stitch.PlaceRow | crates/orbit-geo/src/async_download.rs:1087-1103 | one clipped tile row lands on its cells with their source pixels, in bounds |
| Stitch.PlaceTile | crates/orbit-geo/src/async_download.rs:1072-1104 | afterwards exactly the cells on the tile hold their source pixels and no other cell has changed |
| Stitch.StitchTiles | crates/orbit-geo/src/async_download.rs:961-1018 | in whatever order tiles arrive, covered cells hold their source pixels and the rest the default |
| Stitch.ReadWindow | crates/orbit-geo/src/async_download.rs:781-1018 | choosing, fetching and stitching succeeds iff the window meets the source (and tiles have a size), and the output is the source cropped to the window and padded with the default |
| Stitch.WholeCropIsIdentity | crates/orbit-geo/src/async_download.rs:1072-1104 | cropping a raster to all of itself gives it back |
| Stitch.CroppingIsIdempotent | crates/orbit-geo/src/async_download.rs:280-310 | cropping the output with the same box gives the window (0, 0, cols, rows) and identical pixels |
| Rasterizer.BBox | crates/eo-vector/src/lib.rs:24-60 | the smallest box around the vertices |
| Rasterizer.ClosedRingCrossesEvenly | crates/eo-vector/src/lib.rs:157-166 | a closed ring crosses any scanline an even number of times under the half-open test |
| Rasterizer.HitsAreEvenIff | crates/eo-vector/src/lib.rs:157-166 | the crossings collected are even in number iff those skipped for flatness are |
| Rasterizer.CrossingIsOnEdge | crates/eo-vector/src/lib.rs:157-165 | the half-open test and the formula give the one point at which the segment between two vertices meets the scanline, and none otherwise |
| Rasterizer.HitsAreOnEdges | crates/eo-vector/src/lib.rs:157-166 | exactly the points where edges that are not nearly flat meet the scanline are collected |
| Rasterizer.SpansAreMarks | crates/eo-vector/src/lib.rs:167-183 | filling sorted pairs sets a pixel iff an odd number of crossings lie up to its centre, some lie beyond, and none in its left half |
| Rasterizer.FillSpan | crates/eo-vector/src/lib.rs:171-182 | one span marks exactly its pixels, in bounds |
| Rasterizer.Intersections | crates/eo-vector/src/lib.rs:156-166 | the loop collects the crossings of the edges in order: exactly the positions at which an edge, as a segment, meets the scanline |
| Rasterizer.FillRow | crates/eo-vector/src/lib.rs:153-184 | one row of the mask, and nothing outside it |
| Rasterizer.Rasterise | crates/eo-vector/src/lib.rs:130-187 | rings under three vertices are rejected; otherwise every mask cell is as characterised, for any ring and raster; without nearly flat edges that is the even-odd rule on the segments of the ring, cut at the left half of the pixel |
| Rasterizer.SkippedRowsAreBlank | crates/eo-vector/src/lib.rs:146-153 | rows outside the clamped bounding box have no crossing |
| Rasterizer.SetMeansInsideAndUncut | crates/eo-vector/src/lib.rs:113-187 | without nearly flat edges, a pixel is set iff a ray from its centre meets an odd number of the ring's segments and no segment meets the left half of its centre line |
| Rasterizer.InsideButNotSet | crates/eo-vector/src/lib.rs:113-187 | a quadrilateral and a pixel whose centre is inside and which is not set |
| ZonalStats.Mean | crates/eo-vector/src/lib.rs:200-231 | one mean per ring over exactly the pixels its mask sets, none where there are none; a raster of the wrong size, then the first invalid ring, is the error |
| ZonalStats.SelectedAscend | crates/eo-vector/src/lib.rs:219-228 | each pixel enters a mean once |
| ZonalStats.MeanIsBetween | crates/eo-vector/src/lib.rs:219-228 | a mean lies between any bounds on the values of the ring's pixels |
| Calendar.DaysRoundTrip | apps/orbit-openeo/src/job_store.rs:140-152 | every day count gives a valid Gregorian date whose day count it is |
| Calendar.DateRoundTrip | apps/orbit-openeo/src/job_store.rs:140-152 | every valid date is the date of its day count |
| Calendar.ConsecutiveDays | apps/orbit-openeo/src/job_store.rs:140-152 | day zero is 1970-01-01 and the next day count is the next date of the calendar |
| Calendar.DaysOrderedAsDates | apps/orbit-openeo/src/job_store.rs:140-152 | day counts and dates are ordered alike |
| Calendar.CopiesAgree | apps/orbit-openeo/src/provenance.rs:120-131 | the second copy, on the count its caller has shifted, gives the date of the first, and so a valid date whose day count it is |
| Timestamps.Iso8601Order | apps/orbit-openeo/src/job_store.rs:124-137 | up to the year 9999 the texts compare as the instants, and equal texts are equal instants |
| Timestamps.OrderHoldsIff | apps/orbit-openeo/src/job_store.rs:124-137 | all texts up to an instant compare as the instants iff it is before the year 10000 |
| Timestamps.YearsBefore10000 | apps/orbit-openeo/src/job_store.rs:124-137 | an instant's year is printed with four digits iff it is before second 253402300800 |
| Timestamps.OrderBreaksAtYear10000 | apps/orbit-openeo/src/job_store.rs:124-137 | the pair at which the order breaks: the first second of 10000 sorts before the last of 9999 |
| Timestamps.RecordsAreStampedAlike | apps/orbit-openeo/src/provenance.rs:108-118 | at every second the provenance record's own formatting writes the job store's timestamp |
| Timestamps.Iso8601ReadsBack | apps/orbit-openeo/src/job_store.rs:124-137 | up to the year 9999 the text has the form `YYYY-MM-DDThh:mm:ssZ`, and its six numbers are a valid date and time of day that make up the instant |
| Timestamps.DecimalReads | apps/orbit-openeo/src/job_store.rs:349-367 | the decimal text of a number, which log entries have as ids, reads back as the number, without leading zeros |
| TextOrder.LexLessIff | crates/eo-catalog/src/client.rs:199-209 | one string is before another iff they agree up to a position where it ends or has the smaller character |
| Catalog.ExpressionParses | crates/eo-catalog/src/client.rs:180-197 | an interval written out is parsed into the texts of its ends |
| Catalog.StringTestIsIntervalTest | crates/eo-catalog/src/client.rs:199-209 | the string comparison of timestamps decides the interval test on instants |
| Catalog.SearchByInstants | crates/eo-catalog/src/client.rs:127-178 | a search with an interval returns the items, in order and up to the limit, whose instants lie in it and that pass the other filters |
| Catalog.SearchListsWhatQualifies | crates/eo-catalog/src/client.rs:127-209 | every request: it fails iff the datetime given is empty or open at both ends; otherwise it lists the ids at the first of the ascending positions of the items that qualify, as many as the limit or 100; an item qualifies iff its id is asked for when ids are, and otherwise iff collection, box and time do |
| Catalog.DateIntervalIsHalfOpen | crates/eo-catalog/src/client.rs:175-209 | an interval of bare dates is parsed into its ends, and an instant matches iff its day is not before the first and strictly before the second |
| Catalog.BareDateMatchesNothing | crates/eo-catalog/src/client.rs:193-209 | a bare date is parsed as an exact match and matches no timestamp |
| Catalog.IntersectIffCommonPoint | crates/eo-catalog/src/client.rs:211-216 | boxes of the plane have a common point iff both have their ends in order and the comparison says so, touching edges included |
| Catalog.WrappedBoxesIntersectIff | crates/eo-catalog/src/client.rs:211-216 | for geographic boxes, those over or at the antimeridian included, exactly when the comparison decides rightly |
| Catalog.BoxWithinIsMissed | crates/eo-catalog/src/client.rs:211-216 | a box over the antimeridian, and one within it, that the comparison takes for disjoint |
| CanonicalJson.Print | apps/orbit-openeo/src/provenance.rs:71-97 | the recursive printer into a buffer writes the canonical text |
| CanonicalJson.EscapeReadsBack | apps/orbit-openeo/src/provenance.rs:95-95 | an escaped string value, read as a JSON string up to its closing quote, is the string |
| CanonicalJson.SameMeansSameText | apps/orbit-openeo/src/provenance.rs:71-97 | values equal up to key order at any depth have the same text |
| CanonicalJson.CanonicalSplits | apps/orbit-openeo/src/provenance.rs:71-97 | where keys hold no quote, the text of a value is recognised in front of any continuation: it can be parsed back |
| CanonicalJson.CanonicalIsEqualityUpToKeyOrder | apps/orbit-openeo/src/provenance.rs:71-97 | where keys hold no quote, texts are equal iff the values are equal up to key order |
| CanonicalJson.EveryValueCollides | apps/orbit-openeo/src/provenance.rs:84-93 | every value that holds, at any depth, an object with at least two fields has the text of a different value, one with a quote in a key |
| CanonicalJson.QuotedKeysCollide | apps/orbit-openeo/src/provenance.rs:84-93 | two different objects with the same text |
| GraphHash.Fnv1a64 | apps/orbit-openeo/src/provenance.rs:99-106 | the loop is the fold of the mixing step over the bytes, modulo 2^64 |
| GraphHash.XorLowIsExclusiveOr | apps/orbit-openeo/src/provenance.rs:101-102 | the mixing is the exclusive or of word and byte, bit by bit |
| GraphHash.KnownVectors | apps/orbit-openeo/src/provenance.rs:99-106 | the hashes of no byte and of `a` are the published ones |
| GraphHash.HashIgnoresKeyOrder | apps/orbit-openeo/src/provenance.rs:62-68 | graphs equal up to key order have the same hash |
| GraphHash.OneByteChangesHash | apps/orbit-openeo/src/provenance.rs:99-106 | changing one byte of the text changes the hash |
| JobStores.StepsAgree | apps/orbit-openeo/src/job_store.rs:515-734 | corresponding stores stay corresponding under every operation and answer alike, errors included; a list exactly if the owner's jobs stand in order of creation |
| JobStores.StoresAgree | apps/orbit-openeo/src/job_store.rs:242-398 | on every trace of operations both stores give the same answers, lists up to order |
| JobStores.StoresAnswerEquallyIff | apps/orbit-openeo/src/job_store.rs:568-583 | whatever the clock does, all answers on a trace are equal, lists included, iff every list asked for is in order of creation when asked for |
| JobStores.AdvancingClockKeepsLists | apps/orbit-openeo/src/job_store.rs:480-484 | which a clock that never steps back ensures |
| JobStores.EmptyStoresCorrespond | apps/orbit-openeo/src/job_store.rs:231-231 | new stores correspond |
| JobStores.RecoveryIsExact | apps/orbit-openeo/src/job_store.rs:385-397 | recovery counts the queued and running jobs exactly, leaves none, touches no other record or log, and finds nothing a second time |
| JobStores.TableRecoveryIsExact | apps/orbit-openeo/src/job_store.rs:721-734 | the same for the rows of the table: the count is the number of rows that hold an orphan |
| JobStores.StepKeepsLogIds | apps/orbit-openeo/src/job_store.rs:349-367 | every log entry's id is its position, after every operation |
| JobStores.InMemoryJobStore.CreateJob | apps/orbit-openeo/src/job_store.rs:243-273 | under a new id the job is found from then on, alone at the end of its owner's list, with the fields given, created and updated now; every other lookup, list and log is as before; and the step is the specification's |
| JobStores.InMemoryJobStore.Get | apps/orbit-openeo/src/job_store.rs:275-281 | the scan finds the first record with the id, or answers that there is none; state unchanged |
| JobStores.InMemoryJobStore.ListFor | apps/orbit-openeo/src/job_store.rs:283-286 | the loop gives the owner's jobs in order; state unchanged |
| JobStores.InMemoryJobStore.SetJobStatus | apps/orbit-openeo/src/job_store.rs:288-297 | the job found has the new status from then on and is updated now, and is otherwise as it was; every other record stays as and where it was, and the logs are unchanged; or there is none and nothing changes; and the step is the specification's |
| JobStores.InMemoryJobStore.SetJobProgress | apps/orbit-openeo/src/job_store.rs:299-308 | likewise: the job found has the progress given if it is within 0 to 100, and the nearer end otherwise |
| JobStores.InMemoryJobStore.SetJobMetadata | apps/orbit-openeo/src/job_store.rs:310-329 | likewise: title and description are those given, and an absent one keeps the old value |
| JobStores.InMemoryJobStore.DeleteJob | apps/orbit-openeo/src/job_store.rs:331-336 | job and log are gone, present or not before; every other lookup and log is as before, and every list only lacks the job; and the step is the specification's |
| JobStores.InMemoryJobStore.AddJobAsset | apps/orbit-openeo/src/job_store.rs:338-347 | likewise: the asset is the last of the job found |
| JobStores.InMemoryJobStore.AppendJobLog | apps/orbit-openeo/src/job_store.rs:349-367 | the job's log ends with an entry of the level and message given, its position as id and the time; every other log and all records are unchanged; or there is no such job and nothing changes |
| JobStores.InMemoryJobStore.GetJobLogs | apps/orbit-openeo/src/job_store.rs:369-383 | the log of a job that is found, empty if nothing was logged, or that there is none; state unchanged |
| JobStores.InMemoryJobStore.Recover | apps/orbit-openeo/src/job_store.rs:385-397 | the loop over the records does what the specification's recovery does |
| JobRunner.World.RunJob | apps/orbit-openeo/src/runner.rs:41-208 | for every pattern of write failures and execution results: at most one terminal event, last; Completed published iff outcome and status are Finished, which is iff the execution produced a result and five given writes succeed; at every crash point Finished implies stored bytes and an asset of their size; which writes decide whether the job ends settled, from the inputs alone |
| JobRunner.World.Begin | apps/orbit-openeo/src/runner.rs:41-208 | the job is Running with Started published iff both status writes succeed; else it is as it was, or Queued, with no terminal event |
| JobRunner.World.Persist | apps/orbit-openeo/src/runner.rs:41-208 | result bytes and asset precede the final status, and Completed follows it; which write is the last of the status follows from which are refused |
| JobRunner.AssetNameFollowsType | apps/orbit-openeo/src/runner.rs:213-222 | the name of the stored result ends by its media type, whatever whitespace surrounds the type and whatever parameters follow it, and with `bin` for every other type |
| JobRunner.World.Compute | apps/orbit-openeo/src/runner.rs:41-208 | timeout, failure and result each end in one terminal event at most and in the status that their last write leaves |
| JobRunner.World.Fail | apps/orbit-openeo/src/runner.rs:41-208 | Failed is published whether or not the status write succeeds |
| JobRunner.CrashThenRecover | apps/orbit-openeo/src/job_store.rs:721-734 | after a crash at any recorded point of a run, start-up recovery of the table leaves no row Queued or Running and no other row touched, and the job is Finished iff the run had got so far, with its result on record |
| EtlInsert.InsertOnlyAppends | crates/orbit-etl/src/engine.rs:529-531 | inserting keeps the rows already there in front and counts the growth |
| EtlInsert.InsertConcat | crates/orbit-etl/src/engine.rs:496-532 | inserting in two parts is inserting the whole, errors included |
| EtlInsert.KeptRowsAreFirsts | crates/orbit-etl/src/engine.rs:477-481 | with a deduplicated column exactly the rows are kept whose key is NULL or new to the table and to all rows before |
| EtlInsert.StrictSucceedsIffNothingSkipped | crates/orbit-etl/src/engine.rs:477-481 | without the conflict clause the insert succeeds iff deduplication would skip nothing, with the same table |
| EtlInsert.StrictFailsIff | crates/orbit-etl/src/engine.rs:477-481 | without the conflict clause the insert fails iff some row has in a UNIQUE column a text that the table or a row before it has there |
| EtlInsert.NullRowsAllInsert | crates/orbit-etl/src/engine.rs:477-481 | rows that are NULL in every UNIQUE column are all inserted, with the clause or without |
| EtlInsert.InsertKeepsTextsDifferent | crates/orbit-etl/src/engine.rs:477-481 | an insert into a table in which no two rows share a text in a UNIQUE column leaves it so |
| EtlInsert.Destination.Execute | crates/orbit-etl/src/engine.rs:504-530 | one statement inserts all its rows one at a time, or fails and changes nothing |
| EtlInsert.Destination.InsertChunk | crates/orbit-etl/src/engine.rs:453-535 | whatever the number of columns, table and count are those of inserting the rows one at a time; a failure leaves the table as it was; every statement binds at least a row and at most 900 values, or one row if that is wider; so none binds more than 900 iff there are at most 900 columns |
| EtlInsert.RowsPerBatchFit | crates/orbit-etl/src/engine.rs:488-489 | the batch is the largest that fits the limit |
| EtlJob.TableIsLeadingChunks | crates/orbit-etl/src/engine.rs:236-254 | in every state of every run the table is the initial one plus a whole number of leading chunks, and the count is theirs |
| EtlJob.AtMostOneMoreChunk | crates/orbit-etl/src/engine.rs:286-294 | after a cancel answered true, only the chunk then being inserted can still commit |
| EtlJob.FlagMeansAnswered | crates/orbit-etl/src/engine.rs:286-294 | the flag is up iff some cancel was answered true |
| EtlJob.NoTerminalBeforeTheEnd | crates/orbit-etl/src/engine.rs:167-197 | no terminal event before the worker ends or has sent its completion |
| EtlJob.OneTerminalEvent | crates/orbit-etl/src/engine.rs:167-259 | an ended worker has sent exactly one terminal event, last, naming the final state of the record in memory with its counts, or after a failure with its error; completion means all rows loaded; cancellation means an answered cancel, a whole number of leading chunks and their counts |
| EtlJob.BatchSizeIsImmaterial | crates/orbit-etl/src/engine.rs:241-254 | two completed runs with different batch sizes leave the same table and record |
| EtlJob.CancelAnswersTrueIff | crates/orbit-etl/src/engine.rs:286-294 | cancel answers true exactly until the returned worker has dropped its flag |
| EtlJob.FlaggedInTimeNeverCompletes | crates/orbit-etl/src/engine.rs:236-254 | once the flag is up with a poll ahead the job never completes |
| EtlJob.TooLateToCancel | crates/orbit-etl/src/engine.rs:236-254 | while the flag is down with no poll ahead no later cancel stops the job |
| EtlJob.CancelledIffInTime | crates/orbit-etl/src/engine.rs:236-294 | a job that ends without an error ends cancelled iff some cancel was answered true with a poll ahead |
| EtlJob.CancelCanAnswerTrueAfterCompletion | crates/orbit-etl/src/engine.rs:280-294 | a run in which cancel answers true for a job that has completed and said so |
| EtlEvents.EventsTellTheLoad | crates/orbit-etl/src/engine.rs:167-259 | in every state of every run the start was sent first, and each later event before the last word tells how many rows the chunks so far have brought into the table; a completed job has told every chunk, and then its completion |
| EtlChannel.CannotMoveIffWaits | crates/orbit-etl/src/engine.rs:164-259 | a worker that is not over cannot move iff it is at a send with the stream open and 32 events unread |
| EtlChannel.WaitsUntilReadOrClosed | crates/orbit-etl/src/engine.rs:164-259 | while nobody reads or closes the stream such a worker stays where it is, whatever is cancelled |
| EtlChannel.EndsWhenReadOrClosed | crates/orbit-etl/src/engine.rs:164-259 | a worker makes at most five moves a row and fifteen more, its reader no more, and when neither has a move left it is over; with the stream closed it can always move |
| EtlChannel.WorkerNeverWaitsIff | crates/orbit-etl/src/engine.rs:164-259 | no run leaves the worker waiting iff there are at most thirty chunks or the first thirty-one cannot be inserted |
| EtlJob.ErrsOnlyOnConflict | crates/orbit-etl/src/engine.rs:203-259 | without store failures the worker errs only if the rows themselves conflict |
| EtlJob.LeftAloneCompletesIffRowsInsert | crates/orbit-etl/src/engine.rs:203-259 | neither cancelled nor failed by the store, a worker that ends completes iff all the rows can be inserted |
| MemoryBudget.StepKeepsExact | apps/orbit-openeo/src/block_executor.rs:77-107 | every atomic step, spurious failures and guard drops included, keeps the counter equal to the live guards and within the cap |
| MemoryBudget.ExactIffCapBelowMax | apps/orbit-openeo/src/block_executor.rs:77-107 | over every run the accounting is exact iff the cap is below the largest word |
| MemoryBudget.LargestCapOvercommits | apps/orbit-openeo/src/block_executor.rs:81-89 | a run in which, under the largest cap, the guards alive exceed it |
| MemoryBudget.RejectionWasJustified | apps/orbit-openeo/src/block_executor.rs:79-91 | at some moment of a rejected call the live guards left too little room, and the availability reported is that moment's |
| MemoryBudget.AloneSucceedsIffRoom | apps/orbit-openeo/src/block_executor.rs:77-93 | an uninterrupted call succeeds iff the guards leave room, and a rejection changes nothing |
| BlockRunner.RunKeepsInv | apps/orbit-openeo/src/block_executor.rs:120-167 | in every state of every run: unfinished tasks and permits add up, each block is called at most once, progress counts are distinct and within the number done |
| BlockRunner.BoundedConcurrency | apps/orbit-openeo/src/block_executor.rs:131-146 | at most max(n_threads, 1) tasks are at work at once |
| BlockRunner.ResultIsSequential | apps/orbit-openeo/src/block_executor.rs:158-167 | whatever the schedule the result is that of running the blocks one after the other, or Cancelled after the token was tripped |
| BlockRunner.UntrippedResult | apps/orbit-openeo/src/block_executor.rs:148-167 | without a trip the answer has every block's value in order, or the message with which the first block to fail failed or panicked |
| BlockRunner.OkMeansEveryBlockOnce | apps/orbit-openeo/src/block_executor.rs:120-167 | an Ok result has the worker's value for every block, each called exactly once; progress counts are 1 to the total in some order; all permits are back |
| BlockRunner.NeverStuck | apps/orbit-openeo/src/block_executor.rs:135-165 | until the call returns, the loop or some task can move |
| BlockRunner.RunReturns | apps/orbit-openeo/src/block_executor.rs:120-167 | the loop makes at most three moves a block and two more and each task three, and when neither has a move left the call has returned |
| BlockRunner.UntrippedCancelledIff | apps/orbit-openeo/src/block_executor.rs:148-164 | without a trip the answer is Cancelled iff the first block to fail does so with the text "cancelled" |
| LruCache.EvictionsAgreeUpToTies | crates/orbit-geo/src/cache.rs:185-208 | two evictions of one index differ only in entries accessed at one same moment |
| LruCache.UniqueIffForced | crates/orbit-cache/src/lib.rs:221-240 | an eviction has no other outcome, for any walk of the hash map, iff every entry as old as the last victim could have been the last victim |
| LruCache.EvictUnique | crates/orbit-cache/src/lib.rs:221-240 | in particular without equal access times |
| LruCache.SurelyKeptIff | crates/orbit-geo/src/cache.rs:185-208 | every walk of the map keeps an entry iff the cache is unlimited or all entries accessed no earlier fit the cap together, whatever the clock |
| LruCache.PossiblyKeptIff | crates/orbit-geo/src/cache.rs:185-208 | some walk of the map keeps an entry iff the cache is unlimited or it fits the cap with the entries accessed later |
| LruCache.EvictsIffLoopReaches | crates/orbit-cache/src/lib.rs:221-240 | the outcomes specified are exactly those to which the loop comes by removing a least recent entry at a time while the total is too large |
| LruCache.TiedInsertsPart | crates/orbit-geo/src/cache.rs:164-208 | two files inserted in one second: the later fits the cap alone, and one walk keeps it while another evicts it, so two caches part |
| LruCache.FileCache.Open | crates/orbit-geo/src/cache.rs:98-133 | the index lists exactly the files of the directory with their sizes and access times |
| LruCache.FileCache.Get | crates/orbit-geo/src/cache.rs:148-160 | hit iff listed; a hit is accessed now, and nothing else but one counter changes |
| LruCache.FileCache.Insert | crates/orbit-geo/src/cache.rs:164-182 | index and files match, but for files torn by a failed copy; a failed copy leaves the index alone; afterwards the total is within a nonzero cap; the new file itself is kept if all entries accessed no earlier fit, and only if it fits with those accessed later |
| LruCache.FileCache.EvictIfNeeded | crates/orbit-geo/src/cache.rs:185-208 | down to the cap, victims no more recent than survivors, no removal unneeded; index and files still match |
| LruCache.FileCache.Clear | crates/orbit-geo/src/cache.rs:222-228 | nothing is listed, and only files that cannot be removed or were torn remain |
| LruCache.FileCache.Snapshot | crates/orbit-cache/src/lib.rs:243-251 | number, total size and counters |
| LruCache.TotalBytes | crates/orbit-cache/src/lib.rs:225-225 | the sum does not depend on the order of the walk |
| LruCache.LeastRecent | crates/orbit-cache/src/lib.rs:227-235 | some entry with the least access time, in any order of the walk |
| LruCache.CloseAndReopen | crates/orbit-geo/src/cache.rs:98-133 | reopening lists the files: the same keys iff the index listed every file, and a listed size anew iff the file has it, which every file not torn does |
| LruCache.CachesAgreeIff | crates/orbit-cache/src/lib.rs:184-240 | on any trace and clock, both caches hold the same index throughout, however each walks its map, iff every eviction is forced |
| LruCache.IndexRemembers | crates/orbit-cache/src/lib.rs:184-240 | after any operations a listed entry's access time is that of the last one that inserted it or asked for it while it was listed, and its size that of the last insert, or those it started with |
| LruCache.DroppedWasUsedBefore | crates/orbit-geo/src/cache.rs:148-208 | in terms of the operations alone: what an insert drops was last used no later than anything it keeps, and by an earlier operation if the clock ticks |
| LruCache.OverCapOnlyWhileInserting | crates/orbit-geo/src/cache.rs:164-208 | in every interleaving the total exceeds the cap only while an insert is between index update and eviction, or before the first eviction since opening |
| LruCache.BackedUnlessAwaitedDropped | crates/orbit-geo/src/cache.rs:164-208 | a step keeps the file of every listed or awaited key iff it drops no key whose file an insert has just copied |
| LruCache.FilesKeptIff | crates/orbit-geo/src/cache.rs:164-208 | over every interleaving, all listed keys keep their files iff no step drops such a key |
| LruCache.InsertsCanLoseAFile | crates/orbit-geo/src/cache.rs:164-208 | a run of two inserts that does, after which a listed file is gone |
| Tiling.EnumerateBlocks | crates/eo-kernel/src/executor.rs:38-64 | the nested loops give the blocks of the grid in row-major order |
| Tiling.PartitionBlocks | crates/orbit-geo/src/builder.rs:254-307 | the loops over pixel offsets give the same windows in the same order, numbered, with shifted transforms |
| Tiling.OneBlockPerPixel | crates/eo-kernel/src/executor.rs:42-62 | each pixel lies in exactly one block |
| Tiling.BlocksAreInside | crates/eo-kernel/src/executor.rs:46-47 | every block is nonempty, no larger than asked and inside the raster |
| Tiling.ApplyBlocks | crates/eo-kernel/src/executor.rs:72-111 | all outputs in row-major order, or the error of the first bad block in that order |
| Tiling.PlacedBlocksMakeTheImage | crates/eo-kernel/src/executor.rs:72-111 | outputs of a per-pixel worker placed back by window, in any order, make the mapped raster |
| Tiling.AgreesIffNoSkewAtOrigin | crates/orbit-geo/src/builder.rs:271-283 | a block's transform agrees with the parent's on every position iff no skew acts on the block's offset |
| Tiling.AllAgreeIffNoSkewAcrossBlocks | crates/eo-core/src/transform.rs:48-59 | all blocks' transforms agree iff each skew is zero or the raster is a single block along that axis |
| Tiling.WrittenWhere | crates/orbit-geo/src/block.rs:43-65 | a pixel is written by its own block iff it clears the overlap there, and by no other |
| Tiling.WritesTileIffNoOverlap | crates/orbit-geo/src/block.rs:43-65 | write windows tile a nonempty raster iff every overlap is zero |
| ChunkPlan.TargetIsLargest | apps/orbit-openeo/src/chunk_plan.rs:101-106 | the side before snapping is the largest that fits the budget, up to 4096 |
| ChunkPlan.PlanMeetsBudget | apps/orbit-openeo/src/chunk_plan.rs:80-124 | planning fails iff 64 x 64 blocks on all threads exceed the budget, and then reports budget, threads and the bytes of such a block; otherwise the estimate is within it and the side within 64 to 4096 |
| ChunkPlan.UnclippedBlockIsAlignedAndMaximal | apps/orbit-openeo/src/chunk_plan.rs:107-117 | unless the image clips it the block is the largest multiple of the tile size that fits, or the largest side without snapping |
| ChunkPlan.CostGrows | apps/orbit-openeo/src/chunk_plan.rs:33-90 | a pixel costs its own bytes and 8, 16 or 32 more for every band at every time, where none counts as one |

## Left out

- Floating point is modelled by reals: rounding, NaN and infinities are not modelled, except that an empty zonal mean is absent.
- Machine integers are unbounded, except the counter of `MemoryBudget` and the hash of `GraphHash`; in particular `ChunkPlan` and `Tiling` do not model overflow of products or the casts to signed sizes.
- JSON objects are sequences of fields with distinct keys in insertion order, as the repository's JSON library is configured to keep them; number rendering is a parameter with distinct texts for distinct numbers, and UTF-8 encoding is a parameter.
- The foreign graph library's topological sort is replaced by a depth-first search with an explicit stack; which of several valid orders it returns is not modelled, and the evaluation theorems hold for all of them.
- `Executor` takes the collection catalog as a function; the echo executor and job-id hashing are not modelled.
- Tile fetching and decoding are a function from tile indices to tiles; decode errors, the conversion between pixel types, reprojection and GeoTIFF writing are not modelled.
- Rasterizer.Rasterise: does not model the overflow of `floor(x) + 1` for a crossing at 2^64 or beyond, since integers are unbounded.
- CanonicalJson.CanonicalIsEqualityUpToKeyOrder: requires keys without quotes on both sides; EveryValueCollides shows that this cannot be dropped for any value that holds an object of two fields. Which of the remaining values collide depends on how the brackets open at one key match those open at another, through any chain of such keys; that condition is not stated.
- Rasterizer.SetMeansInsideAndUncut: assumes no edge with a height between zero and 2^-52, since such edges are skipped; HitsAreEvenIff says what happens otherwise.
- `Arithmetic`, `Json` and `Wrappers` are shared groundwork and have no rows of their own.
- JobStores.StoresAnswerEquallyIff: assumes that the table returns rows created at the same time in the order of their insertion; without that, StoresAgree gives equality up to the order within lists.
- The row-per-job store is a step function on rows, not a class: each statement, or transaction, is one atomic row operation of the database.
- Fresh job ids are assumed to be new, and SQL statements are atomic row operations; connection handling and row decoding errors are not modelled.
- `JobRunner` treats the execution and its timeout as an arbitrary result, and log and progress writes as best effort; the supervisor that cancels jobs is not modelled.
- `EtlJob` starts from the spawned worker: validation, path checks and the first row insert of `run` are not modelled, nor is the job row in the database, only the record in memory. Events sent after the stream was closed are dropped, and count as sent.
- `EtlInsert` compares keys as the database would see them; column types and affinities are not modelled.
- `BlockRunner` takes the worker as a function of the block and a progress callback as present; termination of the worker is assumed.
- LruCache: SHA-256 keys are taken as distinct; files in the directory that are not the cache's, and access times the file system keeps, enter only through opening; lookups under the read lock are single steps.
- HTTP routes, authentication, the command line, metrics, machine-learning helpers and band decoders are not modelled.
