/** Making the running scheduler match a plan (sysadmin/core/jobs.py,
    `apply_jobs`, over `Scheduler._sync` and `Scheduler.remove_job`). */
module Jobs {
  import opened Ordering

  datatype Trigger = Interval(seconds: nat) | Cron(hour: string, minute: string, dayOfWeek: string)

  /** One planned job; a disabled one is planned disabled, never omitted. */
  datatype JobSpec = JobSpec(
    id: string, enabled: bool, trigger: Trigger, paths: seq<string>, firstRunDelay: Option<nat>)

  datatype Running = Running(trigger: Trigger, nextFire: int)

  type Schedule = map<string, Running>

  datatype Outcome = Added | Retimed | Unchanged | Removed | Absent | Failed

  datatype SyncReport = SyncReport(
    added: seq<string>, removed: seq<string>, retimed: seq<string>, kept: seq<string>,
    failed: seq<string>, failedPaths: set<string>)

  const EMPTY := SyncReport([], [], [], [], [], {})

  /** When and by which clock an application happens: `now`, the first fire a
      trigger has from then on, and the jobs whose host call raises. */
  datatype Moment = Moment(now: int, firstFire: (Trigger, int) -> int, refuses: set<string>)

  function OutcomeOf(jobs: Schedule, spec: JobSpec, m: Moment): Outcome {
    if spec.id in m.refuses then Failed
    else if !spec.enabled then (if spec.id in jobs then Removed else Absent)
    else if spec.id !in jobs then Added
    else if jobs[spec.id].trigger == spec.trigger then Unchanged
    else Retimed
  }

  function ApplyOne(jobs: Schedule, spec: JobSpec, m: Moment): Schedule {
    match OutcomeOf(jobs, spec, m)
    case Removed => jobs - {spec.id}
    case Added =>
      var first := if spec.firstRunDelay.Some? then m.now + spec.firstRunDelay.value
                   else m.firstFire(spec.trigger, m.now);
      jobs[spec.id := Running(spec.trigger, first)]
    case Retimed => jobs[spec.id := Running(spec.trigger, m.firstFire(spec.trigger, m.now))]
    case _ => jobs
  }

  function Note(report: SyncReport, outcome: Outcome, spec: JobSpec): SyncReport {
    match outcome
    case Added => report.(added := report.added + [spec.id])
    case Retimed => report.(retimed := report.retimed + [spec.id])
    case Unchanged => report.(kept := report.kept + [spec.id])
    case Removed => report.(removed := report.removed + [spec.id])
    case Absent => report
    case Failed =>
      report.(failed := report.failed + [spec.id], failedPaths := report.failedPaths + Elements(spec.paths))
  }

  /** The schedule and the report after the whole plan. */
  function ApplyAll(jobs: Schedule, specs: seq<JobSpec>, m: Moment): (Schedule, SyncReport) {
    if specs == [] then (jobs, EMPTY)
    else
      var (before, report) := ApplyAll(jobs, specs[..|specs| - 1], m);
      var last := specs[|specs| - 1];
      (ApplyOne(before, last, m), Note(report, OutcomeOf(before, last, m), last))
  }

  class Host {
    var jobs: Schedule

    constructor ()
      ensures jobs == map[]
    {
      jobs := map[];
    }

    /** One job of the plan, as the body of the loop handles it.  Afterwards the
        job runs as planned unless the host refused it; no other job is touched;
        a job that already ran as planned keeps its next fire; and the outcome
        says exactly how the schedule changed. */
    method Sync(spec: JobSpec, m: Moment) returns (outcome: Outcome)
      modifies this
      ensures Delivers(jobs, spec) || spec.id in m.refuses
      ensures jobs - {spec.id} == old(jobs) - {spec.id}
      ensures Delivers(old(jobs), spec) || spec.id in m.refuses ==> jobs == old(jobs)
      ensures outcome.Added? <==> spec.id in jobs && spec.id !in old(jobs)
      ensures outcome.Removed? <==> spec.id !in jobs && spec.id in old(jobs)
      ensures outcome.Retimed? <==>
        spec.id in jobs && spec.id in old(jobs) && jobs[spec.id].trigger != old(jobs)[spec.id].trigger
      ensures outcome.Failed? <==> spec.id in m.refuses
      ensures outcome.Added? ==>
        jobs[spec.id].nextFire == if spec.firstRunDelay.Some? then m.now + spec.firstRunDelay.value
                                  else m.firstFire(spec.trigger, m.now)
      ensures outcome.Retimed? ==> jobs[spec.id].nextFire == m.firstFire(spec.trigger, m.now)
      ensures outcome == OutcomeOf(old(jobs), spec, m)
      ensures jobs == ApplyOne(old(jobs), spec, m)
    {
      if spec.id in m.refuses {
        return Failed;
      }
      if !spec.enabled {
        if spec.id in jobs {
          jobs := jobs - {spec.id};
          return Removed;
        }
        return Absent;
      }
      if spec.id in jobs {
        if jobs[spec.id].trigger == spec.trigger {
          return Unchanged;
        }
        jobs := jobs[spec.id := Running(spec.trigger, m.firstFire(spec.trigger, m.now))];
        return Retimed;
      }
      var first := if spec.firstRunDelay.Some? then m.now + spec.firstRunDelay.value
                   else m.firstFire(spec.trigger, m.now);
      jobs := jobs[spec.id := Running(spec.trigger, first)];
      return Added;
    }

    method ApplyJobs(specs: seq<JobSpec>, m: Moment) returns (report: SyncReport)
      modifies this
      ensures (jobs, report) == ApplyAll(old(jobs), specs, m)
    {
      report := EMPTY;
      for i := 0 to |specs|
        invariant (jobs, report) == ApplyAll(old(jobs), specs[..i], m)
      {
        assert specs[..i + 1][..i] == specs[..i];
        var outcome := Sync(specs[i], m);
        report := Note(report, outcome, specs[i]);
      }
      assert specs[..|specs|] == specs;
    }
  }

  // ---- What an application promises ---------------------------------------------

  ghost predicate DistinctIds(specs: seq<JobSpec>) {
    forall i, j | 0 <= i < j < |specs| :: specs[i].id != specs[j].id
  }

  /** Nothing but the planned ids is touched. */
  lemma {:induction false} ForeignJobsUntouched(jobs: Schedule, specs: seq<JobSpec>, m: Moment, id: string)
    requires forall i | 0 <= i < |specs| :: specs[i].id != id
    ensures var jobs' := ApplyAll(jobs, specs, m).0;
      (id in jobs' <==> id in jobs) && (id in jobs ==> jobs'[id] == jobs[id])
  {
    if specs != [] {
      ForeignJobsUntouched(jobs, specs[..|specs| - 1], m, id);
    }
  }

  /** Each planned job ends up as if it had been applied alone. */
  lemma {:induction false} AppliedAlone(jobs: Schedule, specs: seq<JobSpec>, m: Moment, k: nat)
    requires DistinctIds(specs) && k < |specs|
    ensures var id, jobs', alone := specs[k].id, ApplyAll(jobs, specs, m).0, ApplyOne(jobs, specs[k], m);
      (id in jobs' <==> id in alone) && (id in jobs' ==> jobs'[id] == alone[id])
  {
    var front, last := specs[..|specs| - 1], specs[|specs| - 1];
    if k < |front| {
      AppliedAlone(jobs, front, m, k);
      assert last.id != specs[k].id;
    } else {
      ForeignJobsUntouched(jobs, front, m, last.id);
    }
  }

  /** The schedule does what the specification asks of this job. */
  ghost predicate Delivers(jobs: Schedule, spec: JobSpec) {
    if spec.enabled then spec.id in jobs && jobs[spec.id].trigger == spec.trigger else spec.id !in jobs
  }

  /** A job that was not refused runs as planned; one that was is as it was. */
  lemma AppliedOrKept(jobs: Schedule, specs: seq<JobSpec>, m: Moment, k: nat)
    requires DistinctIds(specs) && k < |specs|
    ensures var id, jobs' := specs[k].id, ApplyAll(jobs, specs, m).0;
      if id in m.refuses then (id in jobs' <==> id in jobs) && (id in jobs ==> jobs'[id] == jobs[id])
      else Delivers(jobs', specs[k])
  {
    AppliedAlone(jobs, specs, m, k);
  }

  /** The contract the reload relies on: a job that does not run as planned
      afterwards was refused by the host, and the leaves behind it are listed;
      and nothing else is listed. */
  lemma FailuresAreListed(jobs: Schedule, specs: seq<JobSpec>, m: Moment, k: nat)
    requires DistinctIds(specs) && k < |specs|
    ensures var (jobs', report) := ApplyAll(jobs, specs, m);
      && (Delivers(jobs', specs[k]) || specs[k].id in m.refuses)
      && (specs[k].id in m.refuses ==> Elements(specs[k].paths) <= report.failedPaths)
      && (forall path | path in report.failedPaths :: BehindRefused(specs, m, path))
  {
    AppliedAlone(jobs, specs, m, k);
    forall path
      ensures path in ApplyAll(jobs, specs, m).1.failedPaths <==> BehindRefused(specs, m, path)
    {
      FailedPathsExact(jobs, specs, m, path);
    }
  }

  /** The leaf belongs to a job whose host call raises. */
  predicate BehindRefused(specs: seq<JobSpec>, m: Moment, path: string) {
    exists i :: 0 <= i < |specs| && specs[i].id in m.refuses && path in specs[i].paths
  }

  lemma {:induction false} FailedPathsExact(jobs: Schedule, specs: seq<JobSpec>, m: Moment, path: string)
    ensures path in ApplyAll(jobs, specs, m).1.failedPaths <==> BehindRefused(specs, m, path)
  {
    if specs != [] {
      var front, last := specs[..|specs| - 1], specs[|specs| - 1];
      FailedPathsExact(jobs, front, m, path);
      assert BehindRefused(specs, m, path) <==>
        BehindRefused(front, m, path) || (last.id in m.refuses && path in last.paths) by {
        if i :| 0 <= i < |front| && front[i].id in m.refuses && path in front[i].paths {
          assert specs[i] == front[i];
        }
        assert specs[|specs| - 1] == last;
      }
    }
  }

  // ---- The report, read off the two schedules --------------------------------------

  function ListOf(report: SyncReport, outcome: Outcome): seq<string> {
    match outcome
    case Added => report.added
    case Retimed => report.retimed
    case Unchanged => report.kept
    case Removed => report.removed
    case Failed => report.failed
    case Absent => []
  }

  lemma NoteLists(report: SyncReport, spec: JobSpec, happened: Outcome, id: string, outcome: Outcome)
    requires outcome != Absent
    ensures id in ListOf(Note(report, happened, spec), outcome) <==>
      id in ListOf(report, outcome) || (happened == outcome && spec.id == id)
  {
    match happened {
      case Added => case Retimed => case Unchanged => case Removed => case Absent => case Failed =>
    }
  }

  lemma {:induction false} OnlyPlannedAreListed(jobs: Schedule, specs: seq<JobSpec>, m: Moment, id: string,
                                                outcome: Outcome)
    requires outcome != Absent && forall i | 0 <= i < |specs| :: specs[i].id != id
    ensures id !in ListOf(ApplyAll(jobs, specs, m).1, outcome)
  {
    if specs != [] {
      var front, last := specs[..|specs| - 1], specs[|specs| - 1];
      OnlyPlannedAreListed(jobs, front, m, id, outcome);
      var (before, report) := ApplyAll(jobs, front, m);
      NoteLists(report, last, OutcomeOf(before, last, m), id, outcome);
    }
  }

  /** Each planned job stands in the list of its own outcome and in no other. */
  lemma {:induction false} ListedByOutcome(jobs: Schedule, specs: seq<JobSpec>, m: Moment, k: nat, outcome: Outcome)
    requires DistinctIds(specs) && k < |specs| && outcome != Absent
    ensures specs[k].id in ListOf(ApplyAll(jobs, specs, m).1, outcome) <==> OutcomeOf(jobs, specs[k], m) == outcome
  {
    var front, last := specs[..|specs| - 1], specs[|specs| - 1];
    var (before, report) := ApplyAll(jobs, front, m);
    NoteLists(report, last, OutcomeOf(before, last, m), specs[k].id, outcome);
    if k < |front| {
      ListedByOutcome(jobs, front, m, k, outcome);
      assert last.id != specs[k].id;
    } else {
      OnlyPlannedAreListed(jobs, front, m, last.id, outcome);
      ForeignJobsUntouched(jobs, front, m, last.id);
      assert OutcomeOf(before, last, m) == OutcomeOf(jobs, last, m);
    }
  }

  /** So the report can be read off the schedules before and after: what is new
      was added, what is gone removed, what runs by another trigger re-timed; the
      enabled jobs left are kept; and the failed ones are those refused. */
  lemma ReportReadsOffSchedules(jobs: Schedule, specs: seq<JobSpec>, m: Moment, k: nat)
    requires DistinctIds(specs) && k < |specs|
    ensures var id, jobs', report := specs[k].id, ApplyAll(jobs, specs, m).0, ApplyAll(jobs, specs, m).1;
      && (id in report.added <==> id in jobs' && id !in jobs)
      && (id in report.removed <==> id in jobs && id !in jobs')
      && (id in report.retimed <==> id in jobs && id in jobs' && jobs'[id].trigger != jobs[id].trigger)
      && (id in report.kept <==>
            id !in m.refuses && specs[k].enabled && id in jobs && id in jobs' && jobs'[id] == jobs[id])
      && (id in report.failed <==> id in m.refuses)
  {
    AppliedAlone(jobs, specs, m, k);
    ListedByOutcome(jobs, specs, m, k, Added);
    ListedByOutcome(jobs, specs, m, k, Removed);
    ListedByOutcome(jobs, specs, m, k, Retimed);
    ListedByOutcome(jobs, specs, m, k, Unchanged);
    ListedByOutcome(jobs, specs, m, k, Failed);
  }

  /** Applying a plan to a schedule that already delivers it changes nothing,
      not even when any job next fires, and reports every enabled job
      unchanged. */
  lemma {:induction false} DeliveredIsUntouched(jobs: Schedule, specs: seq<JobSpec>, m: Moment)
    requires m.refuses == {}
    requires forall i | 0 <= i < |specs| :: Delivers(jobs, specs[i])
    ensures ApplyAll(jobs, specs, m).0 == jobs
    ensures ApplyAll(jobs, specs, m).1 == EMPTY.(kept := EnabledIds(specs))
  {
    if specs != [] {
      var front, last := specs[..|specs| - 1], specs[|specs| - 1];
      DeliveredIsUntouched(jobs, front, m);
      assert Delivers(jobs, specs[|specs| - 1]);
    }
  }

  function EnabledIds(specs: seq<JobSpec>): seq<string> {
    if specs == [] then []
    else EnabledIds(specs[..|specs| - 1]) + if specs[|specs| - 1].enabled then [specs[|specs| - 1].id] else []
  }

  /** Idempotent: a second application of the same plan, at any later moment,
      postpones nothing. */
  lemma SecondApplicationIsIdle(jobs: Schedule, specs: seq<JobSpec>, m: Moment, later: Moment)
    requires DistinctIds(specs) && m.refuses == {} && later.refuses == {}
    ensures var once := ApplyAll(jobs, specs, m).0;
      ApplyAll(once, specs, later) == (once, EMPTY.(kept := EnabledIds(specs)))
  {
    var once := ApplyAll(jobs, specs, m).0;
    forall i | 0 <= i < |specs|
      ensures Delivers(once, specs[i])
    {
      AppliedAlone(jobs, specs, m, i);
    }
    DeliveredIsUntouched(once, specs, later);
  }
}
