/**
  What the mark-and-sweep collection guarantees across scrapes: a timeseries adjusted since
  the last gc survives the next one, and one that was not is removed by it, together with
  its whole job table when nothing in that table was adjusted.
 */
module GcProperties {
  import opened Pdata
  import opened Timeseries
  import opened AdjustSpec
  import opened Jobs

  /**
    An unmarked table holds no marked entry. Every table starts this way, and get, gc and
    the adjustment of a batch keep it so (WellMarkedKept, WellMarkedAdjusted), so every
    table a JobsMap holds is well marked.
   */
  predicate WellMarked(st: TableState)
  {
    !st.mark ==> forall k :: k in st.entries ==> !st.entries[k].mark
  }

  /** The new table, every lookup and every gc keep a table well marked. */
  lemma WellMarkedKept(st: TableState, sig: string)
    requires WellMarked(st)
    ensures WellMarked(NewTable) && WellMarked(Lookup(st, sig).0) && WellMarked(Collect(st))
  {
  }

  /** A second gc with no lookup in between changes nothing. */
  lemma SecondGcNoOp(st: TableState)
    ensures Collect(Collect(st)) == Collect(st)
  {
  }

  /** The timeseries the adjustment of one metric looks up. */
  function MetricKeys(m: MetricValue): set<string>
  {
    if Adjusted(m.kind) then Keys(PointSignature(m), m.points) else {}
  }

  /** The timeseries the adjustment of a batch looks up. */
  function SliceKeys(ms: seq<MetricValue>): set<string>
  {
    if ms == [] then {} else SliceKeys(ms[..|ms| - 1]) + MetricKeys(ms[|ms| - 1])
  }

  /** What adjusting one metric does to the marks and entries of the table. */
  lemma AdjustedMetricTable(st: TableState, m: MetricValue)
    ensures var r := AdjustedMetric(st, m).0;
            && r.mark == (st.mark || MetricKeys(m) != {})
            && r.entries.Keys == st.entries.Keys + MetricKeys(m)
            && (forall k :: k in st.entries && k !in MetricKeys(m) ==> r.entries[k] == st.entries[k])
            && (forall k :: k in MetricKeys(m) ==> r.entries[k].mark)
  {
    if Adjusted(m.kind) {
      AdjustedMetricPoints(st, m);
      AdjustedPointsTable(ShapeOf(m.kind), PointSignature(m), st, m.points);
      if m.points != [] {
        assert PointSignature(m)(m.points[0]) in MetricKeys(m);
      }
    }
  }

  /**
    After a batch the table holds its old entries and the timeseries of the batch; those are
    marked, every other entry is as it was, and the table is marked when the batch touched
    anything.
   */
  lemma {:induction false} AdjustedSliceTable(st: TableState, ms: seq<MetricValue>)
    ensures var r := AdjustedSlice(st, ms).0;
            && r.mark == (st.mark || SliceKeys(ms) != {})
            && r.entries.Keys == st.entries.Keys + SliceKeys(ms)
            && (forall k :: k in st.entries && k !in SliceKeys(ms) ==> r.entries[k] == st.entries[k])
            && (forall k :: k in SliceKeys(ms) ==> r.entries[k].mark)
    decreases |ms|
  {
    if ms != [] {
      var n := |ms| - 1;
      AdjustedSliceTable(st, ms[..n]);
      AdjustedMetricTable(AdjustedSlice(st, ms[..n]).0, ms[n]);
    }
  }

  /** Adjusting a batch keeps a table well marked: it marks the table whenever it marks an entry. */
  lemma WellMarkedAdjusted(st: TableState, ms: seq<MetricValue>)
    requires WellMarked(st)
    ensures WellMarked(AdjustedSlice(st, ms).0)
  {
    AdjustedSliceTable(st, ms);
  }

  /** A timeseries adjusted in a batch is kept, unmarked, by the gc that follows. */
  lemma TouchedSurvives(st: TableState, ms: seq<MetricValue>, key: string)
    requires key in SliceKeys(ms)
    ensures var after := Collect(AdjustedSlice(st, ms).0);
            key in after.entries && !after.entries[key].mark
  {
    AdjustedSliceTable(st, ms);
  }

  /**
    Between two gcs, a timeseries missing from the batch is removed by the second gc, unless
    the batch touched nothing at all and the table itself was left unmarked.
   */
  lemma UntouchedEvicted(st: TableState, ms: seq<MetricValue>, key: string)
    requires WellMarked(st)
    requires key !in SliceKeys(ms)
    ensures var after := AdjustedSlice(Collect(st), ms).0;
            !after.mark || key !in Collect(after).entries
  {
    var c := Collect(st);
    assert forall k :: k in c.entries ==> !c.entries[k].mark;
    AdjustedSliceTable(c, ms);
  }

  /**
    gc, a batch adjusted against one job's table, gc again: the job and the timeseries of the
    batch are kept, and a timeseries missing from the batch is gone, alone or with its job's
    table when the batch touched nothing.
   */
  lemma ScrapeCycle(v: map<string, TableState>, job: string, ms: seq<MetricValue>, key: string)
    requires job in v && v[job].mark
    ensures var v1 := SweepJobs(v);
            var v2 := v1[job := AdjustedSlice(v1[job], ms).0];
            var v3 := SweepJobs(v2);
            && (key in SliceKeys(ms) ==> job in v3 && key in v3[job].entries)
            && (key !in SliceKeys(ms) ==> job !in v3 || key !in v3[job].entries)
  {
    var v1 := SweepJobs(v);
    assert job in v1 && v1[job] == Collect(v[job]);
    var c := v1[job];
    assert forall k :: k in c.entries ==> !c.entries[k].mark;
    AdjustedSliceTable(c, ms);
  }

  /** Two gcs with no adjustment in between leave no job table. */
  lemma IdleJobsDropped(v: map<string, TableState>)
    ensures SweepJobs(SweepJobs(v)) == map[]
  {
    var v1 := SweepJobs(v);
    assert forall k :: k in v1 ==> !v1[k].mark;
  }
}
