/**
  The slice of the OpenTelemetry metric data model that the start-time adjuster reads and writes.
  Points of all three adjusted shapes share one record: a number point uses `value`, histogram and
  summary points use `count` and `sum`; the fields a shape does not have are ignored for it.
 */
module Pdata {
  /** One attribute of a data point: a key and its string value. */
  datatype Label = Label(key: string, value: string)

  /**
    A data point: its attributes in storage order, the start timestamp the adjuster rewrites, the
    "no recorded value" flag, the value of a number point as its float64 `DoubleVal()` reading
    gives it (compared only with `<`; an int-valued point reads 0 there, so it is encoded with
    `value == 0`), and the count and sum of a histogram or summary point.
   */
  datatype DataPoint = DataPoint(
    attributes: seq<Label>,
    startTimestamp: nat,
    noRecordedValue: bool,
    value: int,
    count: nat,
    sum: int)

  /** Aggregation temporality of a histogram. */
  datatype Temporality = Unspecified | Delta | Cumulative

  /** The enumeration name a temporality prints as. */
  function TemporalityName(t: Temporality): (r: string)
    ensures r != "" && ',' !in r
  {
    match t
    case Unspecified => "AGGREGATION_TEMPORALITY_UNSPECIFIED"
    case Delta => "AGGREGATION_TEMPORALITY_DELTA"
    case Cumulative => "AGGREGATION_TEMPORALITY_CUMULATIVE"
  }

  /**
    The typed payload of a metric. Each metric owns the buffer of its data points, which the
    adjuster updates in place. `Other` stands for every type the adjuster does not know
    (an unset type, an exponential histogram).
   */
  datatype MetricData =
    | Gauge(points: array<DataPoint>)
    | Sum(points: array<DataPoint>)
    | Histogram(temporality: Temporality, points: array<DataPoint>)
    | Summary(points: array<DataPoint>)
    | Other

  /** Distinct temporalities print differently. */
  lemma TemporalityNameInjective(t: Temporality, u: Temporality)
    requires TemporalityName(t) == TemporalityName(u)
    ensures t == u
  {
  }

  datatype Metric = Metric(name: string, data: MetricData)

  /** A metric's type, without its storage. */
  datatype Kind = GaugeKind | SumKind | HistogramKind(temporality: Temporality) | SummaryKind | OtherKind

  function KindOf(d: MetricData): Kind {
    match d
    case Gauge(_) => GaugeKind
    case Sum(_) => SumKind
    case Histogram(t, _) => HistogramKind(t)
    case Summary(_) => SummaryKind
    case Other => OtherKind
  }

  /** The point buffer a metric owns (none for an unknown type). */
  function Storage(m: Metric): set<array<DataPoint>> {
    if m.data.Other? then {} else {m.data.points}
  }

  /** A metric as a value: name, type and the current contents of its point buffer. */
  datatype MetricValue = MetricValue(name: string, kind: Kind, points: seq<DataPoint>)

  ghost function ValueOf(m: Metric): MetricValue
    reads Storage(m)
  {
    MetricValue(m.name, KindOf(m.data), if m.data.Other? then [] else m.data.points[..])
  }

  /** The point buffers of a whole batch. */
  function StorageOf(ms: seq<Metric>): set<array<DataPoint>> {
    set i, a | 0 <= i < |ms| && a in Storage(ms[i]) :: a
  }

  ghost function ValuesOf(ms: seq<Metric>): (r: seq<MetricValue>)
    reads StorageOf(ms)
    ensures |r| == |ms|
    ensures forall i :: 0 <= i < |ms| ==> r[i] == ValueOf(ms[i])
  {
    if ms == [] then [] else ValuesOf(ms[..|ms| - 1]) + [ValueOf(ms[|ms| - 1])]
  }

  /** Every metric of a batch owns its own point buffer. */
  predicate SeparateStorage(ms: seq<Metric>) {
    forall i, j :: 0 <= i < j < |ms| ==> Storage(ms[i]) !! Storage(ms[j])
  }

  /** A batch of metrics grouped by scope. */
  datatype ScopeMetrics = ScopeMetrics(metrics: seq<Metric>)

  /** A batch of metrics grouped by resource, then scope. */
  datatype ResourceMetrics = ResourceMetrics(scopeMetrics: seq<ScopeMetrics>)
}
