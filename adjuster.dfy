/**
  MetricsAdjuster: rewrites the start timestamps of a batch of metric points in place,
  against the timeseries table of one job
  (receiver/prometheusreceiver/internal/metrics_adjuster.go, MetricsAdjuster,
  NewMetricsAdjuster, AdjustMetricSlice, AdjustMetrics, adjustMetric and the three
  per-shape loops). Each method is specified by the functions of AdjustSpec.
 */
module Adjuster {
  import opened Wrappers
  import opened Pdata
  import opened Timeseries
  import opened AdjustSpec

  /** The metrics of a batch, resource by resource and scope by scope. */
  function Scopes(sms: seq<ScopeMetrics>): seq<Metric>
  {
    if sms == [] then [] else Scopes(sms[..|sms| - 1]) + sms[|sms| - 1].metrics
  }

  function Flatten(rms: seq<ResourceMetrics>): seq<Metric>
  {
    if rms == [] then [] else Flatten(rms[..|rms| - 1]) + Scopes(rms[|rms| - 1].scopeMetrics)
  }

  lemma {:induction false} ScopesAppend(a: seq<ScopeMetrics>, b: seq<ScopeMetrics>)
    ensures Scopes(a + b) == Scopes(a) + Scopes(b)
    decreases |b|
  {
    if b != [] {
      var n := |b| - 1;
      assert (a + b)[..|a + b| - 1] == a + b[..n];
      ScopesAppend(a, b[..n]);
    } else {
      assert a + b == a;
    }
  }

  lemma {:induction false} FlattenAppend(a: seq<ResourceMetrics>, b: seq<ResourceMetrics>)
    ensures Flatten(a + b) == Flatten(a) + Flatten(b)
    decreases |b|
  {
    if b != [] {
      var n := |b| - 1;
      assert (a + b)[..|a + b| - 1] == a + b[..n];
      FlattenAppend(a, b[..n]);
    } else {
      assert a + b == a;
    }
  }

  lemma FlattenSnoc(rms: seq<ResourceMetrics>, i: nat)
    requires i < |rms|
    ensures Flatten(rms[..i + 1]) == Flatten(rms[..i]) + Scopes(rms[i].scopeMetrics)
  {
    assert rms[..i + 1][..i] == rms[..i];
  }

  lemma ScopesSnoc(sms: seq<ScopeMetrics>, j: nat)
    requires j < |sms|
    ensures Scopes(sms[..j + 1]) == Scopes(sms[..j]) + sms[j].metrics
  {
    assert sms[..j + 1][..j] == sms[..j];
  }

  lemma FlattenSplit(rms: seq<ResourceMetrics>, i: nat)
    requires i < |rms|
    ensures Flatten(rms) == Flatten(rms[..i]) + Scopes(rms[i].scopeMetrics) + Flatten(rms[i + 1..])
  {
    assert rms == rms[..i + 1] + rms[i + 1..];
    FlattenAppend(rms[..i + 1], rms[i + 1..]);
    FlattenSnoc(rms, i);
  }

  lemma ScopesSplit(sms: seq<ScopeMetrics>, j: nat)
    requires j < |sms|
    ensures Scopes(sms) == Scopes(sms[..j]) + sms[j].metrics + Scopes(sms[j + 1..])
  {
    assert sms == sms[..j + 1] + sms[j + 1..];
    ScopesAppend(sms[..j + 1], sms[j + 1..]);
    ScopesSnoc(sms, j);
  }

  /**
    The metric the nested loops of AdjustMetrics visit at resource `i`, scope `j`, position
    `k` is the one at the corresponding position of the flattened batch.
   */
  lemma FlattenIndex(rms: seq<ResourceMetrics>, i: nat, j: nat, k: nat)
    requires i < |rms| && j < |rms[i].scopeMetrics| && k < |rms[i].scopeMetrics[j].metrics|
    ensures var n := |Flatten(rms[..i])| + |Scopes(rms[i].scopeMetrics[..j])| + k;
            n < |Flatten(rms)| && Flatten(rms)[n] == rms[i].scopeMetrics[j].metrics[k]
  {
    var sms := rms[i].scopeMetrics;
    FlattenSplit(rms, i);
    ScopesSplit(sms, j);
    var inner := Scopes(sms[..j]) + sms[j].metrics + Scopes(sms[j + 1..]);
    assert inner[|Scopes(sms[..j])| + k] == sms[j].metrics[k];
    var outer := Flatten(rms[..i]) + inner + Flatten(rms[i + 1..]);
    assert outer[|Flatten(rms[..i])| + |Scopes(sms[..j])| + k] == inner[|Scopes(sms[..j])| + k];
  }

  /** The metrics `metrics` sit at positions `n0`, `n0 + 1`, ... of `all`. */
  predicate Placed(all: seq<Metric>, n0: nat, metrics: seq<Metric>)
  {
    n0 + |metrics| <= |all| && forall k :: 0 <= k < |metrics| ==> all[n0 + k] == metrics[k]
  }

  /** The middle part of a placed run is placed after the first part. */
  lemma PlacedMiddle(all: seq<Metric>, n0: nat, a: seq<Metric>, b: seq<Metric>, c: seq<Metric>)
    requires Placed(all, n0, a + b + c)
    ensures Placed(all, n0 + |a|, b)
  {
    forall k | 0 <= k < |b| ensures all[n0 + |a| + k] == b[k] {
      assert (a + b + c)[|a| + k] == b[k];
    }
  }

  /** The metrics of resource i sit in the flattened batch after those of the resources before it. */
  lemma ResourcePlaced(rms: seq<ResourceMetrics>, i: nat, n: nat)
    requires i < |rms| && n == |Flatten(rms[..i])|
    ensures Placed(Flatten(rms), n, Scopes(rms[i].scopeMetrics))
  {
    FlattenSplit(rms, i);
    assert Placed(Flatten(rms), 0, Flatten(rms));
    PlacedMiddle(Flatten(rms), 0, Flatten(rms[..i]), Scopes(rms[i].scopeMetrics), Flatten(rms[i + 1..]));
  }

  /** Within a placed resource, the metrics of scope j sit after those of the scopes before it. */
  lemma ScopePlaced(all: seq<Metric>, n0: nat, sms: seq<ScopeMetrics>, j: nat, n: nat)
    requires j < |sms| && Placed(all, n0, Scopes(sms)) && n == n0 + |Scopes(sms[..j])|
    ensures Placed(all, n, sms[j].metrics)
  {
    ScopesSplit(sms, j);
    PlacedMiddle(all, n0, Scopes(sms[..j]), sms[j].metrics, Scopes(sms[j + 1..]));
  }

  /** The result of a batch extended by the adjustment of one more metric. */
  function Extend(r: (TableState, seq<seq<DataPoint>>), m: MetricValue): (r': (TableState, seq<seq<DataPoint>>))
    ensures |r'.1| == |r.1| + 1 && r'.1[..|r.1|] == r.1
  {
    var (st, ps) := AdjustedMetric(r.0, m);
    (st, r.1 + [ps])
  }

  /** `r` is the result of adjusting the first |r.1| metrics of `ms` against `st0`. */
  ghost predicate Progress(st0: TableState, ms: seq<MetricValue>, r: (TableState, seq<seq<DataPoint>>))
  {
    |r.1| <= |ms| && AdjustedSlice(st0, ms[..|r.1|]) == r
  }

  lemma ProgressStep(st0: TableState, ms: seq<MetricValue>, r: (TableState, seq<seq<DataPoint>>))
    requires Progress(st0, ms, r) && |r.1| < |ms|
    ensures Progress(st0, ms, Extend(r, ms[|r.1|]))
  {
    var n := |r.1|;
    var e := Extend(r, ms[n]);
    assert |e.1| == n + 1;
    assert ms[..n + 1] == ms[..n] + [ms[n]];
    AdjustedSliceSnoc(st0, ms[..n], ms[n]);
    assert AdjustedSlice(st0, ms[..n + 1]) == e;
  }

  lemma PointsSnoc(ps: seq<DataPoint>, i: nat)
    requires i < |ps|
    ensures ps[..i + 1] == ps[..i] + [ps[i]] && ps[i..][0] == ps[i] && ps[i..][1..] == ps[i + 1..]
  {
  }

  class MetricsAdjuster {
    const tsm: TimeseriesMap

    /** NewMetricsAdjuster: an adjuster bound to one job's table (the logger is not modelled). */
    constructor (tsm: TimeseriesMap)
      ensures this.tsm == tsm
    {
      this.tsm := tsm;
    }

    /** One iteration of the per-shape loop: get the timeseries, step the point, keep the snapshots. */
    method AdjustPoint(shape: Shape, name: string, histogram: Option<Temporality>, current: DataPoint)
      returns (adjusted: DataPoint)
      modifies tsm
      ensures (tsm.State(), adjusted) == StepTable(shape, SignatureOf(name, histogram), old(tsm.State()), current)
    {
      var tsi, key, sorted := tsm.Get(name, histogram, current.attributes);
      var (info, q) := StepPoint(shape, Slot(shape, tsi), current.(attributes := sorted));
      adjusted := q;
      // the snapshots are written back to the entry get returned
      tsm.tsiMap := tsm.tsiMap[key := WithSlot(shape, tsi, info)];
    }

    /**
      The state of the per-shape loop after the first `i` points of a buffer that held `ps`,
      against a table that was in state `st0`.
     */
    ghost predicate PointsDone(shape: Shape, sig: DataPoint -> string, points: array<DataPoint>, i: nat,
                               st0: TableState, ps: seq<DataPoint>)
      requires i <= points.Length == |ps|
      reads tsm, points
    {
      && points[i..] == ps[i..]
      && (tsm.State(), points[..i]) == AdjustedPoints(shape, sig, st0, ps[..i])
    }

    /** One iteration of the per-shape loop, at index `i`. */
    method AdjustAt(shape: Shape, name: string, histogram: Option<Temporality>, points: array<DataPoint>, i: nat,
                    ghost st0: TableState, ghost ps: seq<DataPoint>)
      requires i < points.Length == |ps| && PointsDone(shape, SignatureOf(name, histogram), points, i, st0, ps)
      modifies tsm, points
      ensures PointsDone(shape, SignatureOf(name, histogram), points, i + 1, st0, ps)
    {
      ghost var done := points[..i];
      var adjusted := AdjustPoint(shape, name, histogram, points[i]);
      PointsSnoc(ps, i);
      AdjustedPointsSnoc(shape, SignatureOf(name, histogram), st0, ps[..i], ps[i]);
      points[i] := adjusted;
      assert points[..i + 1] == done + [adjusted];
    }

    /** The per-shape loop over the points of one metric, updating the table and the points. */
    method AdjustPoints(shape: Shape, name: string, histogram: Option<Temporality>, points: array<DataPoint>)
      modifies tsm, points
      ensures (tsm.State(), points[..]) ==
              AdjustedPoints(shape, SignatureOf(name, histogram), old(tsm.State()), old(points[..]))
    {
      ghost var st0 := tsm.State();
      ghost var ps := points[..];
      var i := 0;
      assert ps[..0] == [] && points[..0] == [];
      while i < points.Length
        invariant 0 <= i <= points.Length
        invariant PointsDone(shape, SignatureOf(name, histogram), points, i, st0, ps)
      {
        AdjustAt(shape, name, histogram, points, i, st0, ps);
        i := i + 1;
      }
      assert points[..] == points[..i] && ps == ps[..i];
    }

    /** adjustMetricSum. */
    method AdjustMetricSum(m: Metric)
      requires m.data.Sum?
      modifies tsm, m.data.points
      ensures (tsm.State(), m.data.points[..]) == AdjustedMetric(old(tsm.State()), old(ValueOf(m)))
    {
      AdjustPoints(SumShape, m.name, None, m.data.points);
    }

    /** adjustMetricHistogram: only cumulative histograms are adjusted. */
    method AdjustMetricHistogram(m: Metric)
      requires m.data.Histogram?
      modifies tsm, m.data.points
      ensures (tsm.State(), m.data.points[..]) == AdjustedMetric(old(tsm.State()), old(ValueOf(m)))
    {
      if m.data.temporality != Cumulative {
        return;
      }
      AdjustPoints(HistogramShape, m.name, Some(m.data.temporality), m.data.points);
    }

    /** adjustMetricSummary. */
    method AdjustMetricSummary(m: Metric)
      requires m.data.Summary?
      modifies tsm, m.data.points
      ensures (tsm.State(), m.data.points[..]) == AdjustedMetric(old(tsm.State()), old(ValueOf(m)))
    {
      AdjustPoints(SummaryShape, m.name, None, m.data.points);
    }

    /** adjustMetric: gauges and unknown types are left alone. */
    method AdjustMetric(m: Metric)
      modifies tsm, Storage(m)
      ensures (tsm.State(), ValueOf(m).points) == AdjustedMetric(old(tsm.State()), old(ValueOf(m)))
    {
      match m.data
      case Gauge(_) =>
      case Histogram(_, _) => AdjustMetricHistogram(m);
      case Summary(_) => AdjustMetricSummary(m);
      case Sum(_) => AdjustMetricSum(m);
      case Other =>
    }

    /**
      The state of a pass over the batch `metrics`, whose contents were `ms`, once the metrics
      before position |r.1| are adjusted: the table is r.0, those metrics hold the points r.1,
      and the others are untouched.
     */
    ghost predicate SliceDone(metrics: seq<Metric>, r: (TableState, seq<seq<DataPoint>>), ms: seq<MetricValue>)
      requires |r.1| <= |metrics| == |ms|
      reads tsm, StorageOf(metrics)
    {
      && tsm.State() == r.0
      && (forall k :: 0 <= k < |r.1| ==> ValueOf(metrics[k]).points == r.1[k])
      && (forall k :: |r.1| <= k < |metrics| ==> ValueOf(metrics[k]) == ms[k])
    }

    /** One iteration over a batch: the metric `m` at position |r.1| of `metrics`. */
    method AdjustNext(m: Metric, ghost metrics: seq<Metric>, ghost r: (TableState, seq<seq<DataPoint>>),
                      ghost ms: seq<MetricValue>)
      requires SeparateStorage(metrics)
      requires |r.1| < |metrics| == |ms| && metrics[|r.1|] == m && SliceDone(metrics, r, ms)
      modifies tsm, Storage(m)
      ensures SliceDone(metrics, Extend(r, ms[|r.1|]), ms)
    {
      ghost var i := |r.1|;
      label before:
      AdjustMetric(m);
      forall k | 0 <= k < |metrics| && k != i
        ensures ValueOf(metrics[k]) == old@before(ValueOf(metrics[k]))
      {
        assert Storage(metrics[k]) !! Storage(metrics[i]);
      }
    }

    /** AdjustMetricSlice: every metric of the batch, in order. */
    method AdjustMetricSlice(metrics: seq<Metric>)
      requires SeparateStorage(metrics)
      modifies tsm, StorageOf(metrics)
      ensures var r := AdjustedSlice(old(tsm.State()), old(ValuesOf(metrics)));
              tsm.State() == r.0 && forall i :: 0 <= i < |metrics| ==> ValueOf(metrics[i]).points == r.1[i]
    {
      ghost var st0 := tsm.State();
      ghost var ms := ValuesOf(metrics);
      ghost var r: (TableState, seq<seq<DataPoint>>) := (st0, []);
      var i := 0;
      assert ms[..0] == [];
      while i < |metrics|
        invariant 0 <= i <= |metrics| && |r.1| == i
        invariant Progress(st0, ms, r)
        invariant SliceDone(metrics, r, ms)
      {
        AdjustNext(metrics[i], metrics, r, ms);
        ProgressStep(st0, ms, r);
        r := Extend(r, ms[i]);
        i := i + 1;
      }
      assert ms[..i] == ms;
    }

    /**
      The innermost loop of AdjustMetrics: the metrics of one scope, which sit in the flattened
      batch `all` right after the |r0.1| metrics already adjusted.
     */
    method AdjustScope(metrics: seq<Metric>, ghost all: seq<Metric>, ghost ms: seq<MetricValue>,
                       ghost st0: TableState, ghost r0: (TableState, seq<seq<DataPoint>>))
      returns (ghost r: (TableState, seq<seq<DataPoint>>))
      requires SeparateStorage(all) && |all| == |ms| && Placed(all, |r0.1|, metrics)
      requires Progress(st0, ms, r0) && SliceDone(all, r0, ms)
      modifies tsm, StorageOf(all)
      ensures |r.1| == |r0.1| + |metrics| && Progress(st0, ms, r) && SliceDone(all, r, ms)
    {
      r := r0;
      var k := 0;
      while k < |metrics|
        invariant 0 <= k <= |metrics| && |r.1| == |r0.1| + k
        invariant Progress(st0, ms, r)
        invariant SliceDone(all, r, ms)
      {
        assert all[|r.1|] == metrics[k];
        AdjustNext(metrics[k], all, r, ms);
        ProgressStep(st0, ms, r);
        r := Extend(r, ms[|r.1|]);
        k := k + 1;
      }
    }

    /** The middle loop of AdjustMetrics: the scopes of one resource, placed after |r0.1| metrics. */
    method AdjustResource(sms: seq<ScopeMetrics>, ghost all: seq<Metric>, ghost ms: seq<MetricValue>,
                          ghost st0: TableState, ghost r0: (TableState, seq<seq<DataPoint>>))
      returns (ghost r: (TableState, seq<seq<DataPoint>>))
      requires SeparateStorage(all) && |all| == |ms| && Placed(all, |r0.1|, Scopes(sms))
      requires Progress(st0, ms, r0) && SliceDone(all, r0, ms)
      modifies tsm, StorageOf(all)
      ensures |r.1| == |r0.1| + |Scopes(sms)| && Progress(st0, ms, r) && SliceDone(all, r, ms)
    {
      r := r0;
      var j := 0;
      assert sms[..0] == [];
      while j < |sms|
        invariant 0 <= j <= |sms| && |r.1| == |r0.1| + |Scopes(sms[..j])|
        invariant Progress(st0, ms, r)
        invariant SliceDone(all, r, ms)
      {
        ScopePlaced(all, |r0.1|, sms, j, |r.1|);
        r := AdjustScope(sms[j].metrics, all, ms, st0, r);
        ScopesSnoc(sms, j);
        j := j + 1;
      }
      assert sms[..j] == sms;
    }

    /** AdjustMetrics: every metric of every scope of every resource, in order. */
    method AdjustMetrics(rms: seq<ResourceMetrics>)
      requires SeparateStorage(Flatten(rms))
      modifies tsm, StorageOf(Flatten(rms))
      ensures var r := AdjustedSlice(old(tsm.State()), old(ValuesOf(Flatten(rms))));
              && tsm.State() == r.0
              && forall n :: 0 <= n < |Flatten(rms)| ==> ValueOf(Flatten(rms)[n]).points == r.1[n]
    {
      ghost var all := Flatten(rms);
      ghost var st0 := tsm.State();
      ghost var ms := ValuesOf(all);
      ghost var r: (TableState, seq<seq<DataPoint>>) := (st0, []);
      assert ms[..0] == [] && rms[..0] == [];
      var i := 0;
      while i < |rms|
        invariant 0 <= i <= |rms| && |r.1| == |Flatten(rms[..i])|
        invariant Progress(st0, ms, r)
        invariant SliceDone(all, r, ms)
      {
        ResourcePlaced(rms, i, |r.1|);
        r := AdjustResource(rms[i].scopeMetrics, all, ms, st0, r);
        FlattenSnoc(rms, i);
        i := i + 1;
      }
      assert rms[..i] == rms && ms[..|r.1|] == ms;
    }
  }
}
