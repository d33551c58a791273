/**
  The start-timestamp adjustment as functions on values
  (receiver/prometheusreceiver/internal/metrics_adjuster.go, adjustMetric,
  adjustMetricSum, adjustMetricHistogram, adjustMetricSummary). The three per-shape
  loops of the source share one per-point step; only the reset test differs.
 */
module AdjustSpec {
  import opened Wrappers
  import opened Pdata
  import opened Timeseries
  import Signature

  /** The three shapes whose points are adjusted. */
  datatype Shape = SumShape | HistogramShape | SummaryShape

  /**
    Whether `cur` shows that the cumulative series restarted since `prev`:
    a sum whose value fell; a histogram whose count or sum fell; a summary whose count or
    sum fell, where a zero on either side never counts as a fall.
   */
  predicate IsReset(shape: Shape, cur: DataPoint, prev: DataPoint): (r: bool)
    // a reset is always a fall of some reading; equal readings never reset
    ensures r ==> cur.value < prev.value || cur.count < prev.count || cur.sum < prev.sum
    // a sum looks at the value only, a histogram or summary at its count and sum only
    ensures shape == SumShape ==> (r <==> cur.value < prev.value)
    ensures shape != SumShape && cur.count >= prev.count && cur.sum >= prev.sum ==> !r
  {
    match shape
    case SumShape => cur.value < prev.value
    case HistogramShape => cur.count < prev.count || cur.sum < prev.sum
    case SummaryShape =>
      (cur.count != 0 && prev.count != 0 && cur.count < prev.count) ||
      (cur.sum != 0 && prev.sum != 0 && cur.sum < prev.sum)
  }

  /** The snapshots a timeseries keeps for `shape`. */
  function Slot(shape: Shape, tsi: TimeseriesInfo): PointInfo
  {
    match shape
    case SumShape => tsi.number
    case HistogramShape => tsi.histogram
    case SummaryShape => tsi.summary
  }

  function WithSlot(shape: Shape, tsi: TimeseriesInfo, info: PointInfo): (r: TimeseriesInfo)
    ensures Slot(shape, r) == info && r.mark == tsi.mark
    ensures forall other: Shape :: other != shape ==> Slot(other, r) == Slot(other, tsi)
  {
    match shape
    case SumShape => tsi.(number := info)
    case HistogramShape => tsi.(histogram := info)
    case SummaryShape => tsi.(summary := info)
  }

  /** The point a new point is compared with: `previous`, or `initial` when there is none. */
  function Baseline(info: PointInfo): Option<DataPoint>
  {
    if info.previous.Some? then info.previous else info.initial
  }

  /**
    One iteration of the per-shape loop: the new snapshots of the timeseries and the
    point with its start timestamp as the adjuster leaves it. The snapshots alias the point
    in the source, so they hold the point as adjusted.
   */
  function StepPoint(shape: Shape, info: PointInfo, cur: DataPoint): (r: (PointInfo, DataPoint))
    // only the start timestamp of the point can change
    ensures r.1.(startTimestamp := cur.startTimestamp) == cur
    // `previous` follows the points that carry a value
    ensures r.0.previous == if cur.noRecordedValue then info.previous else Some(r.1)
    // once established, `initial` stays established
    ensures r.0.initial.Some?
    // the first point establishes `initial` and keeps its own start
    ensures info.initial.None? ==> r.0.initial == Some(cur) && r.1 == cur
    // a point without a value is never tested for reset; it takes the start of `initial`
    ensures info.initial.Some? && cur.noRecordedValue ==>
              r.0 == info && r.1.startTimestamp == info.initial.value.startTimestamp
    // a reset re-anchors `initial` at the point, which keeps its own start
    ensures info.initial.Some? && !cur.noRecordedValue && IsReset(shape, cur, Baseline(info).value) ==>
              r.0.initial == Some(cur) && r.1 == cur
    // otherwise the start of `initial` is carried forward
    ensures info.initial.Some? && !cur.noRecordedValue && !IsReset(shape, cur, Baseline(info).value) ==>
              r.0.initial == info.initial && r.1.startTimestamp == info.initial.value.startTimestamp
  {
    var baseline := Baseline(info);
    var q :=
      if info.initial.None? || (!cur.noRecordedValue && IsReset(shape, cur, baseline.value)) then cur
      else cur.(startTimestamp := info.initial.value.startTimestamp);
    var previous := if cur.noRecordedValue then info.previous else Some(q);
    var initial :=
      if info.initial.None? || (!cur.noRecordedValue && IsReset(shape, cur, baseline.value)) then Some(cur)
      else info.initial;
    (PointInfo(initial, previous), q)
  }

  /** The point as the signature computation leaves it: its attributes sorted by key, in place. */
  function SortedAttributes(p: DataPoint): DataPoint
  {
    p.(attributes := Signature.SortByKey(p.attributes))
  }

  /**
    The signature of each point of metric `name` (`histogram`: its temporality, for a
    histogram). The folds below take the signature as a parameter `sig`.
   */
  function SignatureOf(name: string, histogram: Option<Temporality>): DataPoint -> string
  {
    (p: DataPoint) => Signature.TimeseriesSignature(name, histogram, p.attributes)
  }

  /** The signatures of a run of points. */
  function Keys(sig: DataPoint -> string, ps: seq<DataPoint>): set<string>
  {
    set i | 0 <= i < |ps| :: sig(ps[i])
  }

  /**
    One point against the table: get its timeseries (which sorts the point's attributes),
    step it, write the snapshots back.
   */
  function StepTable(shape: Shape, sig: DataPoint -> string, st: TableState, p: DataPoint)
    : (r: (TableState, DataPoint))
    ensures r.0.mark
  {
    var key := sig(p);
    var (st1, tsi) := Lookup(st, key);
    var (info, q) := StepPoint(shape, Slot(shape, tsi), SortedAttributes(p));
    (st1.(entries := st1.entries[key := WithSlot(shape, tsi, info)]), q)
  }

  /**
    A step adds the point's timeseries if it is new and leaves every other entry alone; the
    timeseries ends up marked, its snapshots for the other shapes unchanged, and its
    snapshots for `shape` and the point as the per-point step makes them.
   */
  lemma StepTableSpec(shape: Shape, sig: DataPoint -> string, st: TableState, p: DataPoint)
    ensures var r := StepTable(shape, sig, st, p);
            var key := sig(p);
            && r.0.entries.Keys == st.entries.Keys + {key}
            && (forall k :: k in st.entries && k != key ==> r.0.entries[k] == st.entries[k])
            && r.0.entries[key].mark
            && (forall other: Shape :: other != shape ==>
                  Slot(other, r.0.entries[key]) == Slot(other, Lookup(st, key).1))
            && (Slot(shape, r.0.entries[key]), r.1) ==
                 StepPoint(shape, Slot(shape, Lookup(st, key).1), SortedAttributes(p))
  {
    LookupSpec(st, sig(p));
  }

  /** The per-shape loop over a metric's points, in order. */
  function AdjustedPoints(shape: Shape, sig: DataPoint -> string,
                          st: TableState, ps: seq<DataPoint>): (r: (TableState, seq<DataPoint>))
    ensures |r.1| == |ps|
    decreases |ps|
  {
    if ps == [] then (st, [])
    else
      var (st1, out) := AdjustedPoints(shape, sig, st, ps[..|ps| - 1]);
      var (st2, q) := StepTable(shape, sig, st1, ps[|ps| - 1]);
      (st2, out + [q])
  }

  /** One more point extends the loop by one step. */
  lemma AdjustedPointsSnoc(shape: Shape, sig: DataPoint -> string, st: TableState,
                           ps: seq<DataPoint>, p: DataPoint)
    ensures var (st1, out) := AdjustedPoints(shape, sig, st, ps);
            var (st2, q) := StepTable(shape, sig, st1, p);
            AdjustedPoints(shape, sig, st, ps + [p]) == (st2, out + [q])
  {
    assert (ps + [p])[..|ps|] == ps;
  }

  lemma KeysSnoc(sig: DataPoint -> string, ps: seq<DataPoint>)
    requires ps != []
    ensures Keys(sig, ps) == Keys(sig, ps[..|ps| - 1]) + {sig(ps[|ps| - 1])}
  {
    var n := |ps| - 1;
    forall k | k in Keys(sig, ps)
      ensures k in Keys(sig, ps[..n]) + {sig(ps[n])}
    {
      var i :| 0 <= i < |ps| && sig(ps[i]) == k;
      if i < n {
        assert ps[..n][i] == ps[i];
      }
    }
    forall k | k in Keys(sig, ps[..n]) ensures k in Keys(sig, ps) {
      var i :| 0 <= i < n && sig(ps[..n][i]) == k;
      assert ps[..n][i] == ps[i];
    }
  }

  /**
    After the loop the table is marked when it saw a point; the timeseries of the points are
    present, marked and tracking (their `initial` is set), and no other entry changed.
   */
  lemma {:induction false} AdjustedPointsTable(shape: Shape, sig: DataPoint -> string,
                                               st: TableState, ps: seq<DataPoint>)
    ensures var r := AdjustedPoints(shape, sig, st, ps).0;
            && r.mark == (st.mark || |ps| > 0)
            && r.entries.Keys == st.entries.Keys + Keys(sig, ps)
            && (forall k :: k in st.entries && k !in Keys(sig, ps) ==> r.entries[k] == st.entries[k])
            && (forall k :: k in Keys(sig, ps) ==>
                  r.entries[k].mark && Slot(shape, r.entries[k]).initial.Some?)
    decreases |ps|
  {
    if ps != [] {
      var n := |ps| - 1;
      KeysSnoc(sig, ps);
      AdjustedPointsTable(shape, sig, st, ps[..n]);
      StepTableSpec(shape, sig, AdjustedPoints(shape, sig, st, ps[..n]).0, ps[n]);
    }
  }

  /**
    The loop changes nothing in a point except its start timestamp and the order of its
    attributes, which end up sorted by key.
   */
  lemma {:induction false} AdjustedPointsOnlyStart(shape: Shape, sig: DataPoint -> string,
                                                   st: TableState, ps: seq<DataPoint>)
    ensures var out := AdjustedPoints(shape, sig, st, ps).1;
            forall i :: 0 <= i < |ps| ==>
              out[i].(startTimestamp := ps[i].startTimestamp) == SortedAttributes(ps[i])
    decreases |ps|
  {
    if ps != [] {
      var n := |ps| - 1;
      AdjustedPointsOnlyStart(shape, sig, st, ps[..n]);
      var (st1, prefix) := AdjustedPoints(shape, sig, st, ps[..n]);
      var q := StepTable(shape, sig, st1, ps[n]).1;
      StepTableSpec(shape, sig, st1, ps[n]);
      assert q.(startTimestamp := ps[n].startTimestamp) == SortedAttributes(ps[n]);
      var out := AdjustedPoints(shape, sig, st, ps).1;
      assert out == prefix + [q];
      forall i | 0 <= i < n
        ensures out[i].(startTimestamp := ps[i].startTimestamp) == SortedAttributes(ps[i])
      {
        assert out[i] == prefix[i] && ps[..n][i] == ps[i];
      }
    }
  }

  /** Whether the adjuster touches metrics of this type: sums, summaries, cumulative histograms. */
  predicate Adjusted(kind: Kind)
  {
    kind.SumKind? || kind.SummaryKind? || (kind.HistogramKind? && kind.temporality == Cumulative)
  }

  /** The signature of the points of `m`; a histogram's includes its temporality. */
  function PointSignature(m: MetricValue): DataPoint -> string
  {
    SignatureOf(m.name, if m.kind.HistogramKind? then Some(m.kind.temporality) else None)
  }

  /** The shape of the points of a metric the adjuster touches. */
  function ShapeOf(kind: Kind): Shape
    requires Adjusted(kind)
  {
    match kind
    case SumKind => SumShape
    case HistogramKind(_) => HistogramShape
    case SummaryKind => SummaryShape
  }

  /** adjustMetric: dispatch on the metric's type. */
  function AdjustedMetric(st: TableState, m: MetricValue): (r: (TableState, seq<DataPoint>))
    ensures |r.1| == |m.points|
    ensures !Adjusted(m.kind) ==> r == (st, m.points)
  {
    match m.kind
    case SumKind => AdjustedPoints(SumShape, PointSignature(m), st, m.points)
    case HistogramKind(t) =>
      if t == Cumulative then AdjustedPoints(HistogramShape, PointSignature(m), st, m.points)
      else (st, m.points)
    case SummaryKind => AdjustedPoints(SummaryShape, PointSignature(m), st, m.points)
    case _ => (st, m.points)
  }

  /** A metric the adjuster touches goes through the loop of its shape, with its signature. */
  lemma AdjustedMetricPoints(st: TableState, m: MetricValue)
    requires Adjusted(m.kind)
    ensures AdjustedMetric(st, m) == AdjustedPoints(ShapeOf(m.kind), PointSignature(m), st, m.points)
  {
  }

  /** The metrics of a batch adjusted one after the other, in order. */
  function AdjustedSlice(st: TableState, ms: seq<MetricValue>): (r: (TableState, seq<seq<DataPoint>>))
    ensures |r.1| == |ms|
  {
    if ms == [] then (st, [])
    else
      var (st1, out) := AdjustedSlice(st, ms[..|ms| - 1]);
      var (st2, ps) := AdjustedMetric(st1, ms[|ms| - 1]);
      (st2, out + [ps])
  }

  /** One more metric extends the batch by one metric's adjustment. */
  lemma AdjustedSliceSnoc(st: TableState, ms: seq<MetricValue>, m: MetricValue)
    ensures var (st1, out) := AdjustedSlice(st, ms);
            var (st2, ps) := AdjustedMetric(st1, m);
            AdjustedSlice(st, ms + [m]) == (st2, out + [ps])
  {
    assert (ms + [m])[..|ms|] == ms;
  }
}
