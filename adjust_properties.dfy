/**
  What the adjustment means for one timeseries: folded over the points of a single
  series, the per-point step gives every point the start timestamp of the most recent
  point at which the series started or restarted.
 */
module AdjustProperties {
  import opened Wrappers
  import opened Pdata
  import opened Timeseries
  import opened AdjustSpec
  import Signature

  /** The per-point step folded over the points of one timeseries, from snapshots `info`. */
  function Series(shape: Shape, info: PointInfo, ps: seq<DataPoint>): (r: (PointInfo, seq<DataPoint>))
    ensures |r.1| == |ps|
    decreases |ps|
  {
    if ps == [] then (info, [])
    else
      var (info1, out) := Series(shape, info, ps[..|ps| - 1]);
      var (info2, q) := StepPoint(shape, info1, SortedAttributes(ps[|ps| - 1]));
      (info2, out + [q])
  }

  /** The snapshots for `shape` of timeseries `key` in `st`; none for a timeseries not seen. */
  function SlotIn(shape: Shape, st: TableState, key: string): PointInfo
  {
    if key in st.entries then Slot(shape, st.entries[key]) else NoPoints
  }

  /**
    The elements of `xs` at the positions where the point of `ps` has signature `key`, in
    order: with `xs := ps`, the points of timeseries `key` within a metric; with the loop's
    output for `xs`, what the loop made of them.
   */
  function Select(sig: DataPoint -> string, ps: seq<DataPoint>, xs: seq<DataPoint>, key: string)
    : (r: seq<DataPoint>)
    requires |xs| == |ps|
    ensures |r| <= |ps|
    ensures forall i :: 0 <= i < |ps| ==> sig(ps[i]) == key ==> xs[i] in r
    decreases |ps|
  {
    if ps == [] then []
    else
      var n := |ps| - 1;
      Select(sig, ps[..n], xs[..n], key) + (if sig(ps[n]) == key then [xs[n]] else [])
  }

  /** When every point has signature `key`, nothing is left out. */
  lemma {:induction false} SelectAll(sig: DataPoint -> string, ps: seq<DataPoint>, xs: seq<DataPoint>, key: string)
    requires |xs| == |ps|
    requires forall i :: 0 <= i < |ps| ==> sig(ps[i]) == key
    ensures Select(sig, ps, xs, key) == xs
    decreases |ps|
  {
    if ps != [] {
      var n := |ps| - 1;
      SelectAll(sig, ps[..n], xs[..n], key);
      assert xs[..n] + [xs[n]] == xs;
    }
  }

  /**
    The table loop over a metric, seen from one timeseries `key`, whatever other timeseries
    the metric holds: its snapshots end as the series fold over the metric's points of `key`
    from the snapshots it had, and those points come out as that fold makes them. Points of
    other timeseries do not affect it.
   */
  lemma {:induction false} SeriesOfTable(shape: Shape, sig: DataPoint -> string, st: TableState,
                                         ps: seq<DataPoint>, key: string)
    ensures var r := AdjustedPoints(shape, sig, st, ps);
            var s := Series(shape, SlotIn(shape, st, key), Select(sig, ps, ps, key));
            Select(sig, ps, r.1, key) == s.1 && SlotIn(shape, r.0, key) == s.0
    decreases |ps|
  {
    if ps != [] {
      var n := |ps| - 1;
      var p := ps[n];
      SeriesOfTable(shape, sig, st, ps[..n], key);
      var (st1, out1) := AdjustedPoints(shape, sig, st, ps[..n]);
      var (st2, q) := StepTable(shape, sig, st1, p);
      var out := AdjustedPoints(shape, sig, st, ps).1;
      assert out == out1 + [q];
      assert out[..n] == out1;
      assert ps[..n][..n] == ps[..n];
      var sel := Select(sig, ps[..n], ps[..n], key);
      var info := SlotIn(shape, st, key);
      StepTableSpec(shape, sig, st1, p);
      if sig(p) == key {
        LookupSpec(st1, key);
        assert Slot(shape, Lookup(st1, key).1) == SlotIn(shape, st1, key);
        assert Select(sig, ps, ps, key) == sel + [p];
        SeriesSnoc(shape, info, sel, p);
      } else {
        assert Select(sig, ps, ps, key) == sel;
      }
    }
  }

  /** A metric all of whose points belong to timeseries `key`: the table loop is the series fold. */
  lemma SingleSeriesOfTable(shape: Shape, sig: DataPoint -> string, st: TableState,
                            ps: seq<DataPoint>, key: string)
    requires forall i :: 0 <= i < |ps| ==> sig(ps[i]) == key
    ensures var r := AdjustedPoints(shape, sig, st, ps);
            var s := Series(shape, SlotIn(shape, st, key), ps);
            r.1 == s.1 && SlotIn(shape, r.0, key) == s.0
  {
    SeriesOfTable(shape, sig, st, ps, key);
    SelectAll(sig, ps, ps, key);
    SelectAll(sig, ps, AdjustedPoints(shape, sig, st, ps).1, key);
  }

  /**
    A timeseries the table has not seen, among whatever others the metric holds, whose points
    all carry values: each of its points leaves the loop with the start of the last of its
    points at which the series (re)started.
   */
  lemma NewTimeseriesStarts(shape: Shape, sig: DataPoint -> string, st: TableState,
                            ps: seq<DataPoint>, key: string)
    requires key !in st.entries
    requires AllRecorded(Select(sig, ps, ps, key))
    ensures var qs := Select(sig, ps, ps, key);
            var out := Select(sig, ps, AdjustedPoints(shape, sig, st, ps).1, key);
            && |out| == |qs|
            && forall i :: 0 <= i < |qs| ==> out[i].startTimestamp == qs[LastStart(shape, qs, i)].startTimestamp
  {
    SeriesOfTable(shape, sig, st, ps, key);
    SeriesStarts(shape, Select(sig, ps, ps, key));
  }

  /** Each adjusted point still has the signature of the point it came from. */
  lemma AdjustedKeepsSignature(shape: Shape, name: string, histogram: Option<Temporality>,
                               st: TableState, ps: seq<DataPoint>)
    ensures var out := AdjustedPoints(shape, SignatureOf(name, histogram), st, ps).1;
            forall i :: 0 <= i < |ps| ==>
              SignatureOf(name, histogram)(out[i]) == SignatureOf(name, histogram)(ps[i])
  {
    var out := AdjustedPoints(shape, SignatureOf(name, histogram), st, ps).1;
    AdjustedPointsOnlyStart(shape, SignatureOf(name, histogram), st, ps);
    forall i | 0 <= i < |ps|
      ensures SignatureOf(name, histogram)(out[i]) == SignatureOf(name, histogram)(ps[i])
    {
      assert out[i].attributes == Signature.SortByKey(ps[i].attributes);
      Signature.SortedSameSignature(name, histogram, ps[i].attributes);
    }
  }

  /** One more point extends the series by one step. */
  lemma SeriesSnoc(shape: Shape, info: PointInfo, ps: seq<DataPoint>, p: DataPoint)
    ensures var (info1, out) := Series(shape, info, ps);
            var (info2, q) := StepPoint(shape, info1, SortedAttributes(p));
            Series(shape, info, ps + [p]) == (info2, out + [q])
  {
    assert (ps + [p])[..|ps|] == ps;
  }

  /** Cutting the last element off `b` and appending it again. */
  lemma SnocLast<T>(a: seq<T>, b: seq<T>)
    requires b != []
    ensures (a + b[..|b| - 1]) + [b[|b| - 1]] == a + b
  {
  }

  lemma AppendAssoc<T>(x: seq<T>, y: seq<T>, z: seq<T>)
    ensures (x + y) + z == x + (y + z)
  {
  }

  /** The series fold composes: a run of points split in two is folded one part after the other. */
  lemma {:induction false} SeriesAppend(shape: Shape, info: PointInfo, a: seq<DataPoint>, b: seq<DataPoint>)
    ensures Series(shape, info, a + b) ==
            (Series(shape, Series(shape, info, a).0, b).0,
             Series(shape, info, a).1 + Series(shape, Series(shape, info, a).0, b).1)
    decreases |b|
  {
    if b == [] {
      assert a + b == a;
      assert Series(shape, info, a).1 + [] == Series(shape, info, a).1;
    } else {
      var n := |b| - 1;
      var (i1, o1) := Series(shape, info, a);
      SeriesAppend(shape, info, a, b[..n]);
      var (j, o2) := Series(shape, i1, b[..n]);
      var (j2, q) := StepPoint(shape, j, SortedAttributes(b[n]));
      assert Series(shape, info, a + b[..n]) == (j, o1 + o2);
      SeriesSnoc(shape, info, a + b[..n], b[n]);
      SeriesSnoc(shape, i1, b[..n], b[n]);
      SnocLast(a, b);
      SnocLast([], b);
      AppendAssoc(o1, o2, [q]);
    }
  }

  /** Every point carries a value. */
  predicate AllRecorded(ps: seq<DataPoint>)
  {
    forall i :: 0 <= i < |ps| ==> !ps[i].noRecordedValue
  }

  /** Two points with the same value, count and sum. */
  predicate SameReadings(a: DataPoint, b: DataPoint)
  {
    a.value == b.value && a.count == b.count && a.sum == b.sum
  }

  /** The reset test looks at the readings only. */
  lemma ResetOnReadings(shape: Shape, cur: DataPoint, prev: DataPoint, cur': DataPoint, prev': DataPoint)
    requires SameReadings(cur, cur') && SameReadings(prev, prev')
    ensures IsReset(shape, cur, prev) == IsReset(shape, cur', prev')
  {
  }

  /**
    Reference definition: the most recent point at or before `i` where the series started,
    that is the first point or one that shows a reset against the point before it.
   */
  function LastStart(shape: Shape, ps: seq<DataPoint>, i: nat): (r: nat)
    requires i < |ps|
    ensures r <= i
  {
    if i == 0 || IsReset(shape, ps[i], ps[i - 1]) then i else LastStart(shape, ps, i - 1)
  }

  /** LastStart is a start, and the series runs without reset from it up to `i`. */
  lemma {:induction false} LastStartSpec(shape: Shape, ps: seq<DataPoint>, i: nat)
    requires i < |ps|
    ensures var r := LastStart(shape, ps, i);
            && (r == 0 || IsReset(shape, ps[r], ps[r - 1]))
            && (forall j :: r < j <= i ==> !IsReset(shape, ps[j], ps[j - 1]))
            && LastStart(shape, ps, r) == r
  {
    if i > 0 && !IsReset(shape, ps[i], ps[i - 1]) {
      LastStartSpec(shape, ps, i - 1);
    }
  }

  /** The fold changes nothing in a point except its start timestamp and its attribute order. */
  lemma {:induction false} SeriesOnlyStart(shape: Shape, info: PointInfo, ps: seq<DataPoint>)
    ensures var out := Series(shape, info, ps).1;
            forall i :: 0 <= i < |ps| ==> out[i].(startTimestamp := ps[i].startTimestamp) == SortedAttributes(ps[i])
    decreases |ps|
  {
    if ps != [] {
      var n := |ps| - 1;
      SeriesOnlyStart(shape, info, ps[..n]);
      var out := Series(shape, info, ps).1;
      assert out[..n] == Series(shape, info, ps[..n]).1;
      forall i | 0 <= i < n
        ensures out[i].(startTimestamp := ps[i].startTimestamp) == SortedAttributes(ps[i])
      {
        assert out[i] == out[..n][i] && ps[..n][i] == ps[i];
      }
    }
  }

  /** One step of the series: point `m` starts where its last (re)start did. */
  lemma StartsStep(shape: Shape, ps: seq<DataPoint>, m: nat, info1: PointInfo, out1: seq<DataPoint>)
    requires m < |ps| && AllRecorded(ps) && |out1| == m
    requires m == 0 ==> info1 == NoPoints
    requires m > 0 ==> && info1.initial == Some(SortedAttributes(ps[LastStart(shape, ps, m - 1)]))
                       && info1.previous == Some(out1[m - 1])
                       && SameReadings(out1[m - 1], ps[m - 1])
    ensures var (info2, q) := StepPoint(shape, info1, SortedAttributes(ps[m]));
            && q.startTimestamp == ps[LastStart(shape, ps, m)].startTimestamp
            && info2.initial == Some(SortedAttributes(ps[LastStart(shape, ps, m)]))
            && info2.previous == Some(q)
  {
    if m > 0 {
      ResetOnReadings(shape, SortedAttributes(ps[m]), out1[m - 1], ps[m], ps[m - 1]);
    }
  }

  /** The fold's last output point, the one point `ps[n]` adds. */
  lemma SeriesLast(shape: Shape, info: PointInfo, ps: seq<DataPoint>, n: nat)
    requires n < |ps|
    ensures var (info1, out1) := Series(shape, info, ps[..n]);
            var (info2, q) := StepPoint(shape, info1, SortedAttributes(ps[n]));
            Series(shape, info, ps[..n + 1]) == (info2, out1 + [q])
  {
    assert ps[..n + 1] == ps[..n] + [ps[n]];
    SeriesSnoc(shape, info, ps[..n], ps[n]);
  }

  /** SeriesStarts for the first `n` points. */
  lemma {:induction false} StartsUpTo(shape: Shape, ps: seq<DataPoint>, n: nat)
    requires n <= |ps| && AllRecorded(ps)
    ensures var (info, out) := Series(shape, NoPoints, ps[..n]);
            && (forall i :: 0 <= i < n ==> out[i].startTimestamp == ps[LastStart(shape, ps, i)].startTimestamp)
            && (n > 0 ==> (&& info.initial == Some(SortedAttributes(ps[LastStart(shape, ps, n - 1)]))
                           && info.previous == Some(out[n - 1])))
    decreases n
  {
    if n == 0 {
      assert ps[..0] == [];
    } else {
      var m := n - 1;
      StartsUpTo(shape, ps, m);
      SeriesLast(shape, NoPoints, ps, m);
      var (info1, out1) := Series(shape, NoPoints, ps[..m]);
      if m == 0 {
        assert ps[..0] == [];
      } else {
        SeriesOnlyStartAt(shape, NoPoints, ps[..m], m - 1);
        assert ps[..m][m - 1] == ps[m - 1];
      }
      StartsStep(shape, ps, m, info1, out1);
    }
  }

  /** SeriesOnlyStart at one index. */
  lemma SeriesOnlyStartAt(shape: Shape, info: PointInfo, ps: seq<DataPoint>, i: nat)
    requires i < |ps|
    ensures Series(shape, info, ps).1[i].(startTimestamp := ps[i].startTimestamp) == SortedAttributes(ps[i])
  {
    SeriesOnlyStart(shape, info, ps);
  }

  /**
    A timeseries seen for the first time, whose points all carry values: every point leaves
    the adjuster with the start timestamp of the last point at which the series (re)started,
    which `initial` then holds, while `previous` holds the last point as adjusted.
   */
  lemma SeriesStarts(shape: Shape, ps: seq<DataPoint>)
    requires AllRecorded(ps)
    ensures var (info, out) := Series(shape, NoPoints, ps);
            && (forall i :: 0 <= i < |ps| ==> out[i].startTimestamp == ps[LastStart(shape, ps, i)].startTimestamp)
            && (ps != [] ==> (&& info.initial == Some(SortedAttributes(ps[LastStart(shape, ps, |ps| - 1)]))
                              && info.previous == Some(out[|ps| - 1])))
  {
    assert ps[..|ps|] == ps;
    StartsUpTo(shape, ps, |ps|);
  }

  /** SeriesStarts at one index. */
  lemma SeriesStartAt(shape: Shape, ps: seq<DataPoint>, i: nat)
    requires AllRecorded(ps) && i < |ps|
    ensures Series(shape, NoPoints, ps).1[i].startTimestamp == ps[LastStart(shape, ps, i)].startTimestamp
  {
    SeriesStarts(shape, ps);
  }

  /** Without a reset, a series seen for the first time keeps the start of its first point throughout. */
  lemma MonotoneSeries(shape: Shape, ps: seq<DataPoint>)
    requires AllRecorded(ps)
    requires forall i :: 0 < i < |ps| ==> !IsReset(shape, ps[i], ps[i - 1])
    ensures var out := Series(shape, NoPoints, ps).1;
            forall i :: 0 <= i < |ps| ==> out[i].startTimestamp == ps[0].startTimestamp
  {
    SeriesStarts(shape, ps);
    forall i | 0 <= i < |ps| ensures LastStart(shape, ps, i) == 0 {
      LastStartSpec(shape, ps, i);
    }
  }

  /**
    A point without a value, once the series is established, neither re-anchors it nor enters
    the comparison of the next point: the points after it come out as though it were absent,
    and it takes the start of `initial`.
   */
  lemma NoValueTransparent(shape: Shape, info: PointInfo, ps: seq<DataPoint>, p: DataPoint, qs: seq<DataPoint>)
    requires ps != [] && p.noRecordedValue
    ensures var (i1, o1) := Series(shape, info, ps);
            var (i2, o2) := Series(shape, i1, qs);
            var out := Series(shape, info, ps + [p] + qs).1;
            && out == o1 + [SortedAttributes(p).(startTimestamp := i1.initial.value.startTimestamp)] + o2
            && Series(shape, info, ps + [p] + qs).0 == i2
  {
    var (i1, o1) := Series(shape, info, ps);
    SeriesSnoc(shape, info, ps[..|ps| - 1], ps[|ps| - 1]);
    assert ps[..|ps| - 1] + [ps[|ps| - 1]] == ps;
    assert i1.initial.Some?;
    SeriesSnoc(shape, info, ps, p);
    SeriesAppend(shape, info, ps + [p], qs);
  }

  /** Two runs with the same readings restart at the same points. */
  lemma {:induction false} SameStarts(shape: Shape, ps: seq<DataPoint>, qs: seq<DataPoint>, i: nat)
    requires |ps| == |qs| && i < |ps|
    requires forall k :: 0 <= k < |ps| ==> SameReadings(ps[k], qs[k])
    ensures LastStart(shape, qs, i) == LastStart(shape, ps, i)
  {
    if i > 0 {
      ResetOnReadings(shape, ps[i], ps[i - 1], qs[i], qs[i - 1]);
      SameStarts(shape, ps, qs, i - 1);
    }
  }

  /** Feeding the adjusted points of a new series through a new series changes nothing. */
  lemma SeriesIdempotent(shape: Shape, ps: seq<DataPoint>)
    requires AllRecorded(ps)
    ensures var out := Series(shape, NoPoints, ps).1;
            Series(shape, NoPoints, out).1 == out
  {
    var out := Series(shape, NoPoints, ps).1;
    forall k | 0 <= k < |ps| ensures SameReadings(ps[k], out[k]) && !out[k].noRecordedValue {
      SeriesOnlyStartAt(shape, NoPoints, ps, k);
    }
    var again := Series(shape, NoPoints, out).1;
    forall i | 0 <= i < |ps| ensures again[i] == out[i] {
      IdempotentAt(shape, ps, i);
    }
  }

  /** SeriesIdempotent at one index. */
  lemma IdempotentAt(shape: Shape, ps: seq<DataPoint>, i: nat)
    requires AllRecorded(ps) && i < |ps|
    requires var out := Series(shape, NoPoints, ps).1;
             forall k :: 0 <= k < |ps| ==> SameReadings(ps[k], out[k]) && !out[k].noRecordedValue
    ensures var out := Series(shape, NoPoints, ps).1;
            Series(shape, NoPoints, out).1[i] == out[i]
  {
    var out := Series(shape, NoPoints, ps).1;
    var a := LastStart(shape, ps, i);
    SameStarts(shape, ps, out, i);
    LastStartSpec(shape, ps, i);
    SeriesStartAt(shape, out, i);
    SeriesStartAt(shape, ps, i);
    SeriesStartAt(shape, ps, a);
    SeriesOnlyStartAt(shape, NoPoints, ps, i);
    SeriesOnlyStartAt(shape, NoPoints, out, i);
    Signature.SortIdempotent(ps[i].attributes);
  }

  /** A summary only ever resets where a histogram with the same readings would. */
  lemma SummaryResetIsHistogramReset(cur: DataPoint, prev: DataPoint)
    requires IsReset(SummaryShape, cur, prev)
    ensures IsReset(HistogramShape, cur, prev)
  {
  }

  /** A summary point reading zero never shows a reset. */
  lemma ZeroSummaryNeverResets(cur: DataPoint, prev: DataPoint)
    requires cur.count == 0 && cur.sum == 0
    ensures !IsReset(SummaryShape, cur, prev)
  {
  }
}
