/**
  The top-level table from job to timeseries table, with its interval-driven
  mark-and-sweep (receiver/prometheusreceiver/internal/metrics_adjuster.go, JobsMap,
  NewJobsMap, JobsMap.get, maybeGC, JobsMap.gc). Time is an integer clock reading
  passed in by the caller; durations are integers in the same unit.
 */
module Jobs {
  import opened Timeseries
  import Signature

  /** gc only runs once more than `gcInterval` has passed since `lastGC`. */
  predicate Due(now: int, lastGC: int, gcInterval: int)
  {
    now - lastGC > gcInterval
  }

  /**
    The job tables that survive a job-level sweep: an unmarked table is dropped whole,
    a marked one is swept by its own gc.
   */
  function SweepJobs(v: map<string, TableState>): (r: map<string, TableState>)
    ensures r.Keys == set k | k in v && v[k].mark
    ensures forall k :: k in r ==> !r[k].mark && r[k].entries == Sweep(v[k].entries)
  {
    map k | k in v && v[k].mark :: Collect(v[k])
  }

  /** The tables after JobsMap.get has found or registered the table stored under `sig`. */
  function Register(v: map<string, TableState>, sig: string): (r: map<string, TableState>)
    ensures r.Keys == v.Keys + {sig}
    ensures forall k :: k in v ==> r[k] == v[k]
    ensures sig !in v ==> r[sig] == NewTable
  {
    if sig in v then v else v[sig := NewTable]
  }

  /** JobsMap: the timeseries table of every job, keyed by `job:instance`. */
  class JobsMap {
    const gcInterval: int
    var lastGC: int
    var jobsMap: map<string, TimeseriesMap>

    /** Distinct jobs own distinct tables (each table is created by get, for one key). */
    ghost predicate Valid()
      reads this
    {
      forall a, b :: a in jobsMap && b in jobsMap && a != b ==> jobsMap[a] != jobsMap[b]
    }

    /** The contents of every job's table. */
    ghost function View(): map<string, TableState>
      reads this, jobsMap.Values
    {
      map k | k in jobsMap :: jobsMap[k].State()
    }

    /**
      NewJobsMap: no jobs; the clock reading `now` counts as the last gc. The clock the methods
      are given never goes back (`lastGC <= now`), as the monotonic reading of `time.Now` does.
     */
    constructor (gcInterval: int, now: int)
      ensures Valid()
      ensures this.gcInterval == gcInterval && lastGC == now && jobsMap == map[]
    {
      this.gcInterval := gcInterval;
      lastGC := now;
      jobsMap := map[];
    }

    /**
      gc: when due, drop every unmarked job table, sweep every marked one, and record
      `now` as the time of the last gc; otherwise change nothing.
     */
    method Gc(now: int)
      requires Valid()
      requires lastGC <= now
      modifies this, jobsMap.Values
      ensures Valid()
      ensures old(lastGC) <= lastGC <= now
      ensures forall k :: k in jobsMap ==> k in old(jobsMap) && jobsMap[k] == old(jobsMap[k])
      ensures Due(now, old(lastGC), gcInterval) ==> lastGC == now && View() == SweepJobs(old(View()))
      // a table the gc drops is only taken out of the map: its contents are left as they were
      ensures forall k :: k in old(jobsMap) && k !in jobsMap ==> old(jobsMap)[k].State() == old(jobsMap[k].State())
      ensures !Due(now, old(lastGC), gcInterval) ==>
                lastGC == old(lastGC) && jobsMap == old(jobsMap) && View() == old(View())
    {
      if Due(now, lastGC, gcInterval) {
        ghost var before := View();
        SweepTables();
        assert View().Keys == SweepJobs(before).Keys;
        lastGC := now;
      }
    }

    /**
      The state of gc's pass over the job tables `tables`, whose contents were `before`,
      while the jobs in `pending` are still to be visited.
     */
    ghost predicate Swept(tables: map<string, TimeseriesMap>, before: map<string, TableState>, pending: set<string>)
      reads this, tables.Values
    {
      && tables.Keys == before.Keys
      && pending <= tables.Keys
      && (forall a, b :: a in tables && b in tables && a != b ==> tables[a] != tables[b])
      && (forall k :: k in jobsMap <==> k in tables && (k in pending || before[k].mark))
      && (forall k :: k in jobsMap ==> jobsMap[k] == tables[k])
      && (forall k :: k in tables ==>
            tables[k].State() == if k in pending || !before[k].mark then before[k] else Collect(before[k]))
    }

    /** One iteration of gc's pass: drop the unmarked table of job `sig`, or sweep it. */
    method SweepJob(sig: string, ghost tables: map<string, TimeseriesMap>, ghost before: map<string, TableState>,
                    ghost pending: set<string>)
      requires sig in pending && Swept(tables, before, pending)
      modifies this`jobsMap, tables[sig]
      ensures Swept(tables, before, pending - {sig})
    {
      var tsm := jobsMap[sig];
      var tsmNotMarked := !tsm.mark;
      if tsmNotMarked {
        jobsMap := jobsMap - {sig};
      } else {
        tsm.Gc();
      }
    }

    /** The pass of gc over all job tables. */
    method SweepTables()
      requires Valid()
      modifies this`jobsMap, jobsMap.Values
      ensures Valid()
      ensures forall k :: k in jobsMap ==> k in old(jobsMap) && jobsMap[k] == old(jobsMap[k])
      ensures View() == SweepJobs(old(View()))
      // a table the gc drops is only taken out of the map: its contents are left as they were
      ensures forall k :: k in old(jobsMap) && k !in jobsMap ==> old(jobsMap)[k].State() == old(jobsMap[k].State())
    {
      ghost var tables := jobsMap;
      ghost var before := View();
      var pending := jobsMap.Keys;
      while pending != {}
        invariant Swept(tables, before, pending)
        decreases pending
      {
        var sig :| sig in pending;
        SweepJob(sig, tables, before, pending);
        pending := pending - {sig};
      }
      assert View().Keys == SweepJobs(before).Keys;
      forall k | k in View() ensures View()[k] == SweepJobs(before)[k] {
        assert jobsMap[k] == tables[k];
      }
    }

    /** maybeGC: run gc when it is due (synchronously here; see README). */
    method MaybeGc(now: int)
      requires Valid()
      requires lastGC <= now
      modifies this, jobsMap.Values
      ensures Valid()
      ensures old(lastGC) <= lastGC <= now
      ensures forall k :: k in jobsMap ==> k in old(jobsMap) && jobsMap[k] == old(jobsMap[k])
      ensures lastGC == if Due(now, old(lastGC), gcInterval) then now else old(lastGC)
      ensures View() == if Due(now, old(lastGC), gcInterval) then SweepJobs(old(View())) else old(View())
      // a table the gc drops is only taken out of the map: its contents are left as they were
      ensures forall k :: k in old(jobsMap) && k !in jobsMap ==> old(jobsMap)[k].State() == old(jobsMap[k].State())
    {
      if Due(now, lastGC, gcInterval) {
        Gc(now);
      }
    }

    /**
      get: the table of `job` at `instance`, created (marked and empty) when the job has
      none; then, as the deferred maybeGC does, a gc when one is due.
     */
    method Get(job: string, instance: string, now: int) returns (tsm: TimeseriesMap)
      requires Valid()
      requires lastGC <= now
      modifies this, jobsMap.Values
      ensures Valid()
      ensures old(lastGC) <= lastGC <= now
      ensures var sig := Signature.JobSignature(job, instance);
              (sig in old(jobsMap) ==> tsm == old(jobsMap[sig])) && (sig !in old(jobsMap) ==> fresh(tsm))
      // the table returned is the one stored under the key, unless the gc run at the end dropped it
      ensures var sig := Signature.JobSignature(job, instance);
              sig in jobsMap ==> jobsMap[sig] == tsm
      // every other job keeps the very table it had
      ensures var sig := Signature.JobSignature(job, instance);
              forall k :: k in jobsMap && k != sig ==> k in old(jobsMap) && jobsMap[k] == old(jobsMap[k])
      // the key is stored unless the gc run at the end was due
      ensures !Due(now, old(lastGC), gcInterval) ==> Signature.JobSignature(job, instance) in jobsMap
      // a returned table the gc dropped was already held, unmarked, and keeps its contents
      ensures var sig := Signature.JobSignature(job, instance);
              sig !in jobsMap ==> sig in old(jobsMap) && !old(jobsMap[sig].mark) && tsm.State() == old(tsm.State())
      ensures lastGC == if Due(now, old(lastGC), gcInterval) then now else old(lastGC)
      ensures var v := Register(old(View()), Signature.JobSignature(job, instance));
              View() == if Due(now, old(lastGC), gcInterval) then SweepJobs(v) else v
    {
      var sig := Signature.JobSignature(job, instance);
      if sig in jobsMap {
        tsm := jobsMap[sig];
      } else {
        tsm := new TimeseriesMap();
        jobsMap := jobsMap[sig := tsm];
      }
      assert View() == Register(old(View()), sig);
      MaybeGc(now);
    }
  }
}
