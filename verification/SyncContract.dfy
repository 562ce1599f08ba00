/** `apply_jobs` is the syncer the reload protocol counts on
    (sysadmin/core/jobs.py against sysadmin/reload.py). */
module SyncContract {
  import opened Ordering
  import opened Jobs
  import C = ConfigTree
  import P = ReloadProtocol
  import T = ReloadTheorems

  /** The plan as the reload sees it: ids and the leaves behind them. */
  function PlanOf(specs: seq<JobSpec>): seq<P.Job> {
    seq(|specs|, i requires 0 <= i < |specs| => P.Job(specs[i].id, specs[i].paths))
  }

  /** What `apply_jobs` lists as failed is exactly what the reload adds to
      `requires_restart`, and every job the reload takes for applied runs as
      planned. */
  lemma ApplyJobsIsTheSyncer(jobs: Schedule, specs: seq<JobSpec>, m: Moment)
    requires DistinctIds(specs)
    ensures P.PlanValid(PlanOf(specs))
    ensures ApplyAll(jobs, specs, m).1.failedPaths == P.FailedPaths(PlanOf(specs), m.refuses)
    ensures forall k | 0 <= k < |specs| && specs[k].id in P.AppliedBy(PlanOf(specs), P.Returns(m.refuses)) ::
      Delivers(ApplyAll(jobs, specs, m).0, specs[k])
  {
    var plan := PlanOf(specs);
    forall path
      ensures path in ApplyAll(jobs, specs, m).1.failedPaths <==> path in P.FailedPaths(plan, m.refuses)
    {
      FailedPathsExact(jobs, specs, m, path);
      if k :| 0 <= k < |specs| && specs[k].id in m.refuses && path in specs[k].paths {
        var i :| 0 <= i < |specs[k].paths| && specs[k].paths[i] == path;
        assert plan[k].paths[i] in P.FailedPaths(plan, m.refuses);
      }
    }
    forall k | 0 <= k < |specs| && specs[k].id in P.AppliedBy(plan, P.Returns(m.refuses))
      ensures Delivers(ApplyAll(jobs, specs, m).0, specs[k])
    {
      FailuresAreListed(jobs, specs, m, k);
    }
  }

  // ---- The running schedule follows the protocol's --------------------------------------

  /** What a job's leaves come to: the part of `plan_jobs` that is about one job. */
  datatype Setting = Setting(enabled: bool, trigger: Trigger, firstRunDelay: Option<nat>)

  type Compile = (string, C.Leaves) -> Setting

  function SpecOf(job: P.Job, setting: Setting): JobSpec {
    JobSpec(job.id, setting.enabled, setting.trigger, job.paths, setting.firstRunDelay)
  }

  /** The plan a configuration asks for. */
  function SpecsOf(plan: seq<P.Job>, compile: Compile, config: C.Leaves): (specs: seq<JobSpec>)
    ensures |specs| == |plan|
    ensures forall i | 0 <= i < |plan| :: specs[i].id == plan[i].id && specs[i] == SpecIn(plan[i], compile, config)
  {
    if plan == [] then []
    else SpecsOf(plan[..|plan| - 1], compile, config) + [SpecIn(plan[|plan| - 1], compile, config)]
  }

  function SpecIn(job: P.Job, compile: Compile, config: C.Leaves): JobSpec {
    SpecOf(job, compile(job.id, P.BuiltFrom(job, config)))
  }

  /** The host runs the job as the leaf values of the protocol's schedule say. */
  ghost predicate RefinesAt(jobs: Schedule, live: map<string, C.Leaves>, compile: Compile, job: P.Job) {
    job.id in live && Delivers(jobs, SpecOf(job, compile(job.id, live[job.id])))
  }

  ghost predicate Refines(jobs: Schedule, live: map<string, C.Leaves>, plan: seq<P.Job>, compile: Compile) {
    forall job | job in plan :: RefinesAt(jobs, live, compile, job)
  }

  function Ids(plan: seq<P.Job>): set<string> {
    set k | 0 <= k < |plan| :: plan[k].id
  }

  /** One job through `apply_jobs` on one side and the protocol's sync on the
      other: an applied job agrees afterwards, a refused one if it did before. */
  lemma JobRefines(jobs: Schedule, live: map<string, C.Leaves>, plan: seq<P.Job>, compile: Compile,
                   config: C.Leaves, m: Moment, applied: set<string>, job: P.Job)
    requires P.PlanValid(plan) && job in plan && m.refuses == Ids(plan) - applied
    requires job.id !in applied ==> RefinesAt(jobs, live, compile, job)
    ensures RefinesAt(ApplyAll(jobs, SpecsOf(plan, compile, config), m).0,
                      P.SyncLive(plan, live, config, applied), compile, job)
  {
    var specs := SpecsOf(plan, compile, config);
    var k :| 0 <= k < |plan| && plan[k] == job;
    assert job.id in Ids(plan) && specs[k] == SpecIn(job, compile, config);
    SpecsDistinct(plan, compile, config);
    AppliedOrKept(jobs, specs, m, k);
    P.SyncLiveAt(plan, live, config, applied, job);
  }

  lemma SpecsDistinct(plan: seq<P.Job>, compile: Compile, config: C.Leaves)
    requires P.PlanValid(plan)
    ensures DistinctIds(SpecsOf(plan, compile, config))
  {
  }

  /** The real schedule after a run: startup applies the whole plan, every sync
      applies it again for the jobs its syncer gets to. */
  function JobsAfter(w: P.World, compile: Compile, clock: nat -> Moment, steps: seq<P.Step>): Schedule {
    if steps == [] then ApplyAll(map[], SpecsOf(w.plan, compile, w.config), clock(0).(refuses := {})).0
    else
      var before, last := JobsAfter(w, compile, clock, steps[..|steps| - 1]), steps[|steps| - 1];
      if last.Sync? && last.t < |w.attempts| && w.attempts[last.t].Parses() then
        var a := w.attempts[last.t];
        var m := clock(|steps|).(refuses := Ids(w.plan) - P.AppliedBy(w.plan, a.syncer));
        ApplyAll(before, SpecsOf(w.plan, compile, a.config.value), m).0
      else before
  }

  lemma StartupRefines(w: P.World, compile: Compile, clock: nat -> Moment)
    requires P.PlanValid(w.plan)
    ensures Refines(JobsAfter(w, compile, clock, []), P.Init(w).live, w.plan, compile)
  {
    var m := clock(0).(refuses := {});
    forall job | job in w.plan ensures RefinesAt(JobsAfter(w, compile, clock, []), P.Init(w).live, compile, job) {
      var k :| 0 <= k < |w.plan| && w.plan[k] == job;
      assert job.id in Ids(w.plan);
      JobRefines(map[], map[], w.plan, compile, w.config, m, Ids(w.plan), job);
    }
  }

  /** Over every run, the jobs the host runs are those the protocol says it was
      built from. */
  lemma {:induction false} RunRefines(w: P.World, compile: Compile, clock: nat -> Moment, steps: seq<P.Step>)
    requires P.PlanValid(w.plan) && P.Exec(w, steps).Some?
    ensures Refines(JobsAfter(w, compile, clock, steps), P.Exec(w, steps).value.live, w.plan, compile)
  {
    if steps == [] {
      StartupRefines(w, compile, clock);
    } else {
      var front, last := steps[..|steps| - 1], steps[|steps| - 1];
      RunRefines(w, compile, clock, front);
      if last.Sync? {
        SyncRefines(w, compile, clock(|steps|), JobsAfter(w, compile, clock, front), P.Exec(w, front).value, last.t);
      } else {
        OnlySyncMovesTheSchedule(w, P.Exec(w, front).value, last);
      }
    }
  }

  lemma SyncRefines(w: P.World, compile: Compile, moment: Moment, jobs: Schedule, s: P.State, t: nat)
    requires P.PlanValid(w.plan) && |s.stages| == |w.attempts| && P.Enabled(w, s, P.Sync(t))
    requires Refines(jobs, s.live, w.plan, compile)
    ensures var a := w.attempts[t];
      var m := moment.(refuses := Ids(w.plan) - P.AppliedBy(w.plan, a.syncer));
      Refines(ApplyAll(jobs, SpecsOf(w.plan, compile, a.config.value), m).0,
              P.Apply(w, s, P.Sync(t)).live, w.plan, compile)
  {
    var a := w.attempts[t];
    var applied := P.AppliedBy(w.plan, a.syncer);
    var m := moment.(refuses := Ids(w.plan) - applied);
    forall job | job in w.plan
      ensures RefinesAt(ApplyAll(jobs, SpecsOf(w.plan, compile, a.config.value), m).0,
                        P.Apply(w, s, P.Sync(t)).live, compile, job)
    {
      JobRefines(jobs, s.live, w.plan, compile, a.config.value, m, applied, job);
    }
  }

  lemma OnlySyncMovesTheSchedule(w: P.World, s: P.State, step: P.Step)
    requires |s.stages| == |w.attempts| && P.Enabled(w, s, step) && !step.Sync?
    ensures P.Apply(w, s, step).live == s.live
  {
    match step {
      case Acquire(_) => case Read(_) => case Refuse(_) => case SetConfig(_) => case SetServices(_) =>
      case Prune(_) => case Sync(_) => case FileReport(_) => case ReaderConfig(_) => case ReaderServices(_) =>
    }
  }

  /** Rule 2 of the running schedule itself: once no reload is under way, a job
      whose leaves no dying reload moved runs as the installed configuration
      asks, or an ok report has named one of its leaves. */
  lemma JobsRunAsConfiguredOrAreNamed(w: P.World, compile: Compile, clock: nat -> Moment, steps: seq<P.Step>,
                                      s: P.State, job: P.Job)
    requires P.Exec(w, steps) == Some(s) && T.Ended(s) && P.PlanValid(w.plan) && job in w.plan
    requires forall path | path in job.paths :: !T.LostInACrash(s, path)
    ensures Delivers(JobsAfter(w, compile, clock, steps), SpecOf(job, compile(job.id, P.BuiltFrom(job, s.config))))
         || exists path :: path in job.paths && T.Named(s.reports, path)
  {
    RunRefines(w, compile, clock, steps);
    assert RefinesAt(JobsAfter(w, compile, clock, steps), s.live, compile, job);
    T.NoSilentSchedule(w, steps, s, compile, job);
  }
}
