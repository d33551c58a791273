# Start-timestamp adjuster of the Prometheus receiver, in Dafny

This project models the metrics adjuster of the OpenTelemetry Collector's Prometheus
receiver (`receiver/prometheusreceiver/internal/metrics_adjuster.go`) and proves
properties of it. Prometheus exports cumulative sums, histograms and summaries without a
start time. The adjuster keeps, for every job, a table from timeseries signature to the
first point (`initial`) and the last point with a value (`previous`) it has seen for each
timeseries. It gives each new point the start timestamp of `initial`. When a point's value
falls below the previous one, the series has restarted, and that point becomes the new
`initial`. Job tables and timeseries that are no longer scraped are dropped by a two-level
mark-and-sweep collection, which runs at most once per `gcInterval`.

Files and modules:

- `wrappers.dfy` (`Wrappers`): `Option`.
- `pdata.dfy` (`Pdata`): the data points and metrics the adjuster reads and writes. Each
  metric owns an `array` of points, which the adjuster rewrites in place.
- `signature.dfy` (`Signature`): the pure part of the core.
  - The stable sort of attributes by key.
  - `strings.Join` on `,`, and a `Split` on `,` that the source never calls; it serves only
    the lemmas `SplitJoin`, `SplitSignature` and `SignatureInjective`.
  - The timeseries signature `name,v1,...,vn[,TEMPORALITY]`.
  - The job key `job:instance`.
- `timeseries.dfy` (`Timeseries`):
  - `timeseriesinfo` as a value.
  - The class `TimeseriesMap` with `Get` and `Gc`.
  - The functions `Lookup` and `Collect`, which specify those two methods.
- `jobs.dfy` (`Jobs`): the class `JobsMap` with `Get`, `MaybeGc` and `Gc`, specified by
  `Register` and `SweepJobs` over the contents of the job tables.
- `adjust_spec.dfy` (`AdjustSpec`): the adjustment as functions.
  - `StepPoint`: the per-point step the three loops of the source share. Only the reset
    test `IsReset` differs between them.
  - The loop over one metric (`AdjustedPoints`), a metric (`AdjustedMetric`) and a batch
    (`AdjustedSlice`).
- `adjuster.dfy` (`Adjuster`): the class `MetricsAdjuster`. Its loops over points, metrics,
  and resources/scopes/metrics are proved against the functions of `AdjustSpec`.
- `adjust_properties.dfy` (`AdjustProperties`): what the adjustment means for one
  timeseries. The reference definition `LastStart` is the most recent point at which the
  series (re)started. When every point of a new timeseries carries a value, each of its
  points gets that point's start timestamp, whatever other timeseries share its metric: the loop over a metric, seen from one
  timeseries, is the per-point step folded over that timeseries' points alone.
- `gc_properties.dfy` (`GcProperties`): what the collection guarantees across a scrape
  cycle.

## Model

All source paths are `receiver/prometheusreceiver/internal/metrics_adjuster.go`.

| member | source | states |
|---|---|---|
| Pdata.TemporalityName | receiver/prometheusreceiver/internal/metrics_adjuster.go:108 | the temporality suffix of a histogram signature is a non-empty field without commas |
| Signature.SortByKeySpec | receiver/prometheusreceiver/internal/metrics_adjuster.go:123 | sorting the attributes keeps exactly the same attributes (multiset) and orders them by key |
| Signature.SortIdempotent | receiver/prometheusreceiver/internal/metrics_adjuster.go:123 | sorting attributes that were already sorted changes nothing |
| Signature.MetricSignature | receiver/prometheusreceiver/internal/metrics_adjuster.go:121-131 | the signature of a metric's point starts with the metric name followed by `,` |
| Signature.TimeseriesSignature | receiver/prometheusreceiver/internal/metrics_adjuster.go:102-109 | the key extends the metric signature, and is longer than it exactly for a histogram |
| Signature.SplitJoin | receiver/prometheusreceiver/internal/metrics_adjuster.go:130 | splitting a comma join of comma-free fields on `,` gives back the fields |
| Signature.SignatureIsJoin | receiver/prometheusreceiver/internal/metrics_adjuster.go:121-131 | the signature is the name, the sorted non-empty values (or one empty field) and, for a histogram, the temporality, joined with `,` |
| Signature.SplitSignature | receiver/prometheusreceiver/internal/metrics_adjuster.go:102-109 | with comma-free names and values, splitting a signature on `,` recovers name, values and temporality |
| Signature.SignatureInjective | receiver/prometheusreceiver/internal/metrics_adjuster.go:102-109 | two comma-free timeseries of the same kind share a signature exactly when name, temporality and key-ordered non-empty values agree |
| Signature.OrderIndependent | receiver/prometheusreceiver/internal/metrics_adjuster.go:121-131 | the signature does not depend on the order the attributes are stored in (for a map, one value per key) |
| Signature.EmptyValueIgnored | receiver/prometheusreceiver/internal/metrics_adjuster.go:124-128 | an attribute with an empty value does not change the signature |
| Signature.SortedSameSignature | receiver/prometheusreceiver/internal/metrics_adjuster.go:123 | sorting a point's attributes in place keeps its signature |
| Signature.KeysNotInSignature | receiver/prometheusreceiver/internal/metrics_adjuster.go:121-131 | attribute keys do not enter the signature: any two key-ordered attribute lists with the same values position by position share a timeseries, e.g. `{a="x"}` and `{b="x"}` |
| Signature.JobSignature | receiver/prometheusreceiver/internal/metrics_adjuster.go:203 | the job key is the job, a colon and the instance, and splits back at the job name's length |
| Signature.JobSignatureInjective | receiver/prometheusreceiver/internal/metrics_adjuster.go:203 | when job names hold no colon, the job key determines job and instance |
| Signature.JobSignatureAmbiguous | receiver/prometheusreceiver/internal/metrics_adjuster.go:203 | with a colon in the job name, two different job/instance pairs share one key |
| Timeseries.Lookup | receiver/prometheusreceiver/internal/metrics_adjuster.go:110-117 | after get the table and the returned entry are marked, and the entry is stored under the signature |
| Timeseries.LookupSpec | receiver/prometheusreceiver/internal/metrics_adjuster.go:110-117 | get returns the stored entry or exactly one new zero-valued entry, and every other entry is left alone |
| Timeseries.Sweep | receiver/prometheusreceiver/internal/metrics_adjuster.go:140-146 | the entries kept are exactly the marked ones, with their marks cleared |
| Timeseries.Collect | receiver/prometheusreceiver/internal/metrics_adjuster.go:134-149 | an unmarked table is left unchanged; a marked one keeps exactly its marked entries, all unmarked, and becomes unmarked |
| Timeseries.TimeseriesMap.constructor | receiver/prometheusreceiver/internal/metrics_adjuster.go:151-153 | a new table is marked and empty |
| Timeseries.TimeseriesMap.Get | receiver/prometheusreceiver/internal/metrics_adjuster.go:98-118 | computes the signature (with the temporality for a histogram), sorts the attributes, and changes the table as `Lookup` says |
| Timeseries.TimeseriesMap.Gc | receiver/prometheusreceiver/internal/metrics_adjuster.go:134-149 | the loop leaves the table as `Collect` says |
| Jobs.SweepJobs | receiver/prometheusreceiver/internal/metrics_adjuster.go:177-188 | unmarked job tables are dropped, and every marked one is swept and left unmarked |
| Jobs.Register | receiver/prometheusreceiver/internal/metrics_adjuster.go:209-222 | an existing job table is kept as it is; otherwise exactly one new table is added under the key |
| Jobs.JobsMap.constructor | receiver/prometheusreceiver/internal/metrics_adjuster.go:167-169 | no jobs, and the creation time counts as the last gc |
| Jobs.JobsMap.Gc | receiver/prometheusreceiver/internal/metrics_adjuster.go:172-191 | nothing happens unless more than `gcInterval` has passed since `lastGC`; otherwise the tables become `SweepJobs` of the old ones and `lastGC` becomes now; tables stay distinct; a dropped table is only taken out of the map and keeps its contents; with a clock that does not go back, `lastGC` never decreases |
| Jobs.JobsMap.SweepJob | receiver/prometheusreceiver/internal/metrics_adjuster.go:178-187 | one iteration of the pass over the jobs drops the job's table when unmarked and sweeps it otherwise, keeping the state of the pass |
| Jobs.JobsMap.SweepTables | receiver/prometheusreceiver/internal/metrics_adjuster.go:177-188 | the loop over the jobs deletes unmarked tables and sweeps marked ones, giving `SweepJobs` of the old contents; a deleted table keeps its contents |
| Jobs.JobsMap.MaybeGc | receiver/prometheusreceiver/internal/metrics_adjuster.go:193-200 | gc runs exactly when it is due, a dropped table keeps its contents, and `lastGC` never decreases |
| Jobs.JobsMap.Get | receiver/prometheusreceiver/internal/metrics_adjuster.go:202-223 | returns the table stored under `job:instance`, or a fresh one; the returned table is the one stored under the key (which stays stored unless the gc at the end is due), every other job keeps its very table object, then collects when due; a returned table that the gc dropped was held unmarked before and keeps its contents; with a clock that does not go back, `lastGC` never decreases |
| AdjustSpec.WithSlot | receiver/prometheusreceiver/internal/metrics_adjuster.go:62-84 | updating the snapshots of one shape leaves the mark and the other shapes' snapshots alone |
| AdjustSpec.IsReset | receiver/prometheusreceiver/internal/metrics_adjuster.go:326-407 | the three reset tests: a sum resets exactly when its value falls; a histogram or summary only when its count or sum falls; a reset is always a fall of some reading |
| AdjustSpec.StepPoint | receiver/prometheusreceiver/internal/metrics_adjuster.go:342-370 | establish, no recorded value, reset and carry-forward cases, and the update of `previous` |
| AdjustSpec.StepTable | receiver/prometheusreceiver/internal/metrics_adjuster.go:338-370 | one iteration of a per-shape loop against the table leaves the table marked |
| AdjustSpec.StepTableSpec | receiver/prometheusreceiver/internal/metrics_adjuster.go:338-370 | one point marks its timeseries, adds it if new, updates only that shape's snapshots as `StepPoint` says, and leaves other entries alone |
| AdjustSpec.AdjustedPoints | receiver/prometheusreceiver/internal/metrics_adjuster.go:336-371 | the loop over a metric yields one point for each point it reads |
| AdjustSpec.AdjustedPointsTable | receiver/prometheusreceiver/internal/metrics_adjuster.go:336-371 | after a metric's loop, its timeseries are present, marked and tracking, other entries are unchanged, and the table is marked if any point was seen |
| AdjustSpec.AdjustedPointsOnlyStart | receiver/prometheusreceiver/internal/metrics_adjuster.go:336-371 | the loop changes a point only in its start timestamp and the order of its attributes |
| AdjustSpec.AdjustedMetric | receiver/prometheusreceiver/internal/metrics_adjuster.go:272-290 | gauges, unknown types and non-cumulative histograms leave table and points unchanged |
| AdjustSpec.AdjustedMetricPoints | receiver/prometheusreceiver/internal/metrics_adjuster.go:292-297 | every metric that is adjusted goes through the loop of its shape, with its signature |
| AdjustSpec.AdjustedSlice | receiver/prometheusreceiver/internal/metrics_adjuster.go:244-252 | the metrics of a batch are adjusted in order, one result per metric |
| Adjuster.MetricsAdjuster.constructor | receiver/prometheusreceiver/internal/metrics_adjuster.go:234-239 | the adjuster works on the table it is given |
| Adjuster.MetricsAdjuster.AdjustPoint | receiver/prometheusreceiver/internal/metrics_adjuster.go:338-370 | one iteration of a per-shape loop is `StepTable` |
| Adjuster.MetricsAdjuster.AdjustAt | receiver/prometheusreceiver/internal/metrics_adjuster.go:338-370 | one iteration over the point buffer advances the loop state: the first i+1 points are written and the table is `AdjustedPoints` of them |
| Adjuster.MetricsAdjuster.AdjustPoints | receiver/prometheusreceiver/internal/metrics_adjuster.go:336-371 | the loop leaves table and point buffer as `AdjustedPoints` of the old ones |
| Adjuster.MetricsAdjuster.AdjustMetricSum | receiver/prometheusreceiver/internal/metrics_adjuster.go:336-371 | a sum is adjusted as `AdjustedMetric` says |
| Adjuster.MetricsAdjuster.AdjustMetricHistogram | receiver/prometheusreceiver/internal/metrics_adjuster.go:292-334 | a histogram is adjusted as `AdjustedMetric` says (only when cumulative) |
| Adjuster.MetricsAdjuster.AdjustMetricSummary | receiver/prometheusreceiver/internal/metrics_adjuster.go:373-415 | a summary is adjusted as `AdjustedMetric` says |
| Adjuster.MetricsAdjuster.AdjustMetric | receiver/prometheusreceiver/internal/metrics_adjuster.go:272-290 | dispatches on the type; the metric and the table end as `AdjustedMetric` says |
| Adjuster.MetricsAdjuster.AdjustMetricSlice | receiver/prometheusreceiver/internal/metrics_adjuster.go:244-252 | metrics are adjusted in order; table and every metric's points end as `AdjustedSlice` says |
| Adjuster.MetricsAdjuster.AdjustNext | receiver/prometheusreceiver/internal/metrics_adjuster.go:248-250 | one iteration over the batch advances the loop state by one metric, as `AdjustedSlice` says |
| Adjuster.MetricsAdjuster.AdjustScope | receiver/prometheusreceiver/internal/metrics_adjuster.go:265-267 | the innermost loop adjusts one scope's metrics, which sit in the flattened batch right after those already done, and keeps the loop state `AdjustedSlice` of the prefix done |
| Adjuster.MetricsAdjuster.AdjustResource | receiver/prometheusreceiver/internal/metrics_adjuster.go:263-268 | the middle loop adjusts the scopes of one resource in order and keeps the loop state `AdjustedSlice` of the prefix done |
| Adjuster.ProgressStep | receiver/prometheusreceiver/internal/metrics_adjuster.go:248-250 | adjusting the next metric of the batch extends `AdjustedSlice` of the prefix done by one metric |
| Adjuster.MetricsAdjuster.AdjustMetrics | receiver/prometheusreceiver/internal/metrics_adjuster.go:256-270 | the nested loops adjust the metrics of all scopes of all resources in order, as `AdjustedSlice` of the flattened batch |
| Adjuster.FlattenIndex | receiver/prometheusreceiver/internal/metrics_adjuster.go:261-268 | the metric visited at resource i, scope j, position k is the one at the matching position of the flattened batch |
| AdjustProperties.SeriesOfTable | receiver/prometheusreceiver/internal/metrics_adjuster.go:338-370 | for any metric and any timeseries in it, the table loop leaves that timeseries' snapshots, and its points, as the per-point step folded over that timeseries' points alone; the other timeseries' points do not affect it |
| AdjustProperties.SingleSeriesOfTable | receiver/prometheusreceiver/internal/metrics_adjuster.go:338-370 | when every point of a metric belongs to one timeseries, the table loop is the series fold |
| AdjustProperties.LastStartSpec | receiver/prometheusreceiver/internal/metrics_adjuster.go:364-368 | the reference start is the first point or a reset, and no reset lies between it and the point |
| AdjustProperties.SeriesStarts | receiver/prometheusreceiver/internal/metrics_adjuster.go:342-370 | in a new series with values, every point gets the start of its last (re)start point, which `initial` holds |
| AdjustProperties.NewTimeseriesStarts | receiver/prometheusreceiver/internal/metrics_adjuster.go:336-371 | in a metric holding any number of timeseries, each point of a timeseries the table has not seen, and whose points all carry a value, gets the start of that timeseries' last (re)start point |
| AdjustProperties.MonotoneSeries | receiver/prometheusreceiver/internal/metrics_adjuster.go:364-369 | without a reset, every point carries the start of the first point |
| AdjustProperties.NoValueTransparent | receiver/prometheusreceiver/internal/metrics_adjuster.go:349-362 | a point without a value takes `initial`'s start, and the points after it come out as if it were absent |
| AdjustProperties.SelectAll | receiver/prometheusreceiver/internal/metrics_adjuster.go:338-370 | a metric whose points all belong to one timeseries is that timeseries' projection |
| AdjustProperties.SeriesAppend | receiver/prometheusreceiver/internal/metrics_adjuster.go:337-370 | the fold over two runs of points is the fold over the first, then the second |
| AdjustProperties.SeriesIdempotent | receiver/prometheusreceiver/internal/metrics_adjuster.go:342-370 | adjusting already adjusted points of a new series changes nothing |
| AdjustProperties.AdjustedKeepsSignature | receiver/prometheusreceiver/internal/metrics_adjuster.go:121-131 | every adjusted point keeps the signature of the point it came from |
| AdjustProperties.SameStarts | receiver/prometheusreceiver/internal/metrics_adjuster.go:364 | series with the same readings restart at the same points |
| AdjustProperties.SummaryResetIsHistogramReset | receiver/prometheusreceiver/internal/metrics_adjuster.go:402-407 | a summary reset is a histogram reset; the summary test adds the non-zero guards |
| AdjustProperties.ZeroSummaryNeverResets | receiver/prometheusreceiver/internal/metrics_adjuster.go:402-407 | a summary point reading zero count and zero sum never resets |
| GcProperties.WellMarkedKept | receiver/prometheusreceiver/internal/metrics_adjuster.go:134-153 | new tables, get and gc keep every unmarked table free of marked entries |
| GcProperties.WellMarkedAdjusted | receiver/prometheusreceiver/internal/metrics_adjuster.go:244-252 | adjusting a batch keeps a table free of marked entries while it is unmarked, so every table a job map holds stays well marked |
| GcProperties.SecondGcNoOp | receiver/prometheusreceiver/internal/metrics_adjuster.go:137-139 | a second gc with no get in between changes nothing |
| GcProperties.AdjustedSliceTable | receiver/prometheusreceiver/internal/metrics_adjuster.go:244-252 | after a batch, exactly its timeseries are added and marked, and the other entries are unchanged |
| GcProperties.TouchedSurvives | receiver/prometheusreceiver/internal/metrics_adjuster.go:140-146 | a timeseries adjusted since the last gc survives the next gc |
| GcProperties.UntouchedEvicted | receiver/prometheusreceiver/internal/metrics_adjuster.go:134-149 | between two gcs, a timeseries missing from the batch is dropped by the second, or the table is left unmarked |
| GcProperties.ScrapeCycle | receiver/prometheusreceiver/internal/metrics_adjuster.go:176-188 | gc, batch, gc: the job and the batch's timeseries remain, and a missing timeseries is gone, by itself or with its job table |
| GcProperties.IdleJobsDropped | receiver/prometheusreceiver/internal/metrics_adjuster.go:176-188 | two gcs with no adjustment in between leave no job table |

## Left out

- Locking: `sync.RWMutex`, the double-checked locking in `JobsMap.get` and the lock held for
  a whole `AdjustMetricSlice`/`AdjustMetrics` are left out. Every operation runs atomically.
- Jobs.JobsMap.MaybeGc: the source starts `gc` in a new goroutine (`go jm.gc()`). The
  model calls it synchronously, at the end of `Get`, where the deferred `maybeGC` runs.
  This fixes one interleaving: the gc runs before the adjuster marks the table. So a `Get`
  of an existing unmarked table when a gc is due always returns a table already dropped
  from the job map. In the source the adjuster may also mark it first, and it then stays.
- Clock: `time.Now`/`time.Since` become an integer `now` parameter, and durations are
  integers. `Gc` records the `now` it was called with, where the source reads the clock
  again. The methods of `JobsMap` require `lastGC <= now`: the clock never goes back, as Go's
  monotonic clock reading does.
- The `zap` logger: the log call on the unknown-type path has no effect on the model.
- Floating point: the float64 value and sum of a point are integers, since the adjuster
  only compares them with `<` and `!= 0`. Counts and timestamps are naturals. NaN is not
  modelled: in Go every `<` with a NaN operand is false, so a NaN reading never counts as
  a reset, and a NaN previous reading keeps the next valued point from counting as one
  (a float's NaN sum does the same for histograms and summaries). The model's integers are
  always ordered, so it resets wherever a reading drops.
- Int-valued sums: a number point's `value` is the `DoubleVal()` reading the sum loop
  compares at metrics_adjuster.go:364, which is 0 for a point holding an int. Such a point is encoded with
  `value == 0`, so an int-valued sum never resets in the model, just as in the source; its
  integer readings are not modelled.
- The pdata types: a metric is a record with a name and typed payload owning one array of
  points. The batch is a sequence of resources, scopes and metrics. `Other` stands for
  every metric type the adjuster does not handle.
- Attribute sort: `pcommon.Map.Sort` is modelled as a stable insertion sort by key.
- Attribute values: a `Label` holds a string value. `StringVal()` gives `""` for an int,
  bool, double, map, slice or bytes value, so a non-string attribute is modelled by a
  `Label` whose value is `""`, and it drops out of the signature like an empty string.
- `timeseriesinfo` is a value in the table rather than a pointer. The changes the source
  makes through the pointer are written back under the signature; the effect is the same.
- `initial` and `previous` are copies of the point as the adjuster leaves it. In the source
  they alias that point, which later scrapes do not change.
- Aggregation temporality names: `String()` is not part of this model. The OTLP enum
  spellings are used; only their distinctness and lack of commas matter.
- Adjuster.MetricsAdjuster.AdjustMetricSlice: both it and `AdjustMetrics` require the
  metrics of a batch to own distinct point buffers, as pdata metrics do.
- `receiver/vcenterreceiver/client_test.go`: tests of an unrelated client against a
  simulator. There is no logic to model.
