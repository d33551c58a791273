/**
  Per-timeseries state and the per-job table that holds it, with its local
  mark-and-sweep collection (receiver/prometheusreceiver/internal/metrics_adjuster.go,
  timeseriesinfo, timeseriesMap, newTimeseriesMap).
 */
module Timeseries {
  import opened Wrappers
  import opened Pdata
  import Signature

  /** The `initial` and `previous` snapshots kept for one metric shape. */
  datatype PointInfo = PointInfo(initial: Option<DataPoint>, previous: Option<DataPoint>)

  const NoPoints := PointInfo(None, None)

  /** timeseriesinfo: a liveness mark and one pair of snapshots per metric shape. */
  datatype TimeseriesInfo = TimeseriesInfo(
    mark: bool,
    number: PointInfo,
    histogram: PointInfo,
    summary: PointInfo)

  /** The zero value a missing timeseries starts from. */
  const Fresh := TimeseriesInfo(false, NoPoints, NoPoints, NoPoints)

  /** The contents of a timeseriesMap: its mark and its entries by signature. */
  datatype TableState = TableState(mark: bool, entries: map<string, TimeseriesInfo>)

  /** A table as newTimeseriesMap creates it. */
  const NewTable := TableState(true, map[])

  /**
    What timeseriesMap.get does to a table: the entry for `sig` is found or created from
    the zero value, and both it and the table end up marked.
   */
  function Lookup(st: TableState, sig: string): (r: (TableState, TimeseriesInfo))
    ensures r.0.mark && r.1.mark
    ensures r.0.entries == st.entries[sig := r.1]
  {
    var tsi := (if sig in st.entries then st.entries[sig] else Fresh).(mark := true);
    (TableState(true, st.entries[sig := tsi]), tsi)
  }

  /**
    The entry get returns is the stored one, marked, or a zero value with no snapshots for
    a timeseries not seen before; every other entry is left as it was.
   */
  lemma LookupSpec(st: TableState, sig: string)
    ensures var r := Lookup(st, sig);
            && sig in r.0.entries && r.0.entries[sig] == r.1
            && r.0.entries.Keys == st.entries.Keys + {sig}
            && (sig in st.entries ==> r.1 == st.entries[sig].(mark := true))
            && (sig !in st.entries ==> r.1.number == r.1.histogram == r.1.summary == NoPoints)
            && (forall k :: k in st.entries && k != sig ==> r.0.entries[k] == st.entries[k])
  {
  }

  /** The entries that survive a sweep: the marked ones, with their marks cleared. */
  function Sweep(entries: map<string, TimeseriesInfo>): (r: map<string, TimeseriesInfo>)
    ensures r.Keys == set k | k in entries && entries[k].mark
    ensures forall k :: k in r ==> r[k] == entries[k].(mark := false)
  {
    map k | k in entries && entries[k].mark :: entries[k].(mark := false)
  }

  /** What timeseriesMap.gc does: nothing to an unmarked table, otherwise a sweep. */
  function Collect(st: TableState): (r: TableState)
    ensures !st.mark ==> r == st
    ensures st.mark ==> !r.mark && r.entries.Keys == set k | k in st.entries && st.entries[k].mark
    ensures st.mark ==> forall k :: k in r.entries ==> r.entries[k] == st.entries[k].(mark := false)
  {
    if !st.mark then st else TableState(false, Sweep(st.entries))
  }

  /** timeseriesMap: a mark and the timeseries state by signature, both updated in place. */
  class TimeseriesMap {
    var mark: bool
    var tsiMap: map<string, TimeseriesInfo>

    function State(): TableState
      reads this
    {
      TableState(mark, tsiMap)
    }

    /** newTimeseriesMap: a marked, empty table. */
    constructor ()
      ensures State() == NewTable
    {
      mark := true;
      tsiMap := map[];
    }

    /**
      get: the state of the timeseries of metric `name` (a histogram when `histogram` holds
      its temporality) with attributes `attributes`, created when missing; the table and the
      entry are marked. The signature is returned too: through it the caller writes back the
      state it updates. Computing the signature sorts the point's attributes in place; `sorted`
      is the new order.
     */
    method Get(name: string, histogram: Option<Temporality>, attributes: seq<Label>)
      returns (tsi: TimeseriesInfo, sig: string, sorted: seq<Label>)
      modifies this
      ensures sig == Signature.TimeseriesSignature(name, histogram, attributes)
      ensures sorted == Signature.SortByKey(attributes)
      ensures (State(), tsi) == Lookup(old(State()), sig)
    {
      sorted := Signature.SortByKey(attributes);
      sig := Signature.TimeseriesSignature(name, histogram, attributes);
      if sig in tsiMap {
        tsi := tsiMap[sig];
      } else {
        tsi := Fresh;
      }
      tsi := tsi.(mark := true);
      tsiMap := tsiMap[sig := tsi];
      mark := true;
    }

    /** gc: remove the entries not marked since the last sweep and unmark the others. */
    method Gc()
      modifies this
      ensures State() == Collect(old(State()))
    {
      if !mark {
        return;
      }
      ghost var before := tsiMap;
      var pending := tsiMap.Keys;
      while pending != {}
        invariant pending <= before.Keys
        invariant forall k :: k in tsiMap <==> k in before && (k in pending || before[k].mark)
        invariant forall k :: k in tsiMap ==>
                    tsiMap[k] == if k in pending then before[k] else before[k].(mark := false)
        decreases pending
      {
        var ts :| ts in pending;
        if !tsiMap[ts].mark {
          tsiMap := tsiMap - {ts};
        } else {
          tsiMap := tsiMap[ts := tsiMap[ts].(mark := false)];
        }
        pending := pending - {ts};
      }
      assert tsiMap.Keys == Sweep(before).Keys;
      mark := false;
    }
  }
}
