/** The reload of sysadmin/reload.py as a protocol: any number of reloads
    (SIGHUP and POST) contend for one lock and swap two process-wide slots,
    while agents read the slots without the lock.  A run is any sequence of
    enabled steps, so a statement about every run covers every interleaving. */
module ReloadProtocol {
  import opened Ordering
  import opened Dotted
  import opened ConfigTree

  /** services.yaml: service name to its dumped entry (names are unique). */
  type Services = map<string, Json>

  /** Prefixes read once, at startup. */
  const RESTART_ONLY: seq<string> := ["service", "database"]

  /** A planned job and the configuration leaves that decide it. */
  datatype Job = Job(id: string, paths: seq<string>)

  /** What the injected `sync_jobs` does: absent; raises after applying some
      jobs; or returns, having refused some. */
  datatype Syncer = NoSyncer | Raises(applied: set<string>) | Returns(refused: set<string>)

  /** Everything one call of `reload_configuration` meets outside the slots:
      what the two files parse to, whether an agent's `forget_unknown`
      raises, and the syncer it was handed. */
  datatype Attempt = Attempt(config: Option<Leaves>, services: Option<Services>, pruneRaises: bool, syncer: Syncer)
  {
    predicate Parses() {
      config.Some? && services.Some?
    }
  }

  /** The fixed part of a run. */
  datatype World = World(plan: seq<Job>, config: Leaves, services: Services, attempts: seq<Attempt>)

  /** Where a reload stands.  `gen` numbers the installation it made. */
  datatype Stage =
    | Waiting
    | Acquired
    | ReadOld(oldConfig: Leaves, oldServices: Services)
    | ConfigSet(oldConfig: Leaves, oldServices: Services, gen: nat)
    | ServicesSet(oldConfig: Leaves, oldServices: Services, gen: nat)
    | Pruned(oldConfig: Leaves, oldServices: Services, gen: nat)
    | Released(oldConfig: Leaves, oldServices: Services, gen: nat)
    | Reported(gen: nat)
    | Refused
    | Crashed(gen: nat)

  /** A lock-free reader: `get_config()`, then `get_services()`. */
  datatype Reader = Fresh | GotConfig(configGen: nat) | GotBoth(configGen: nat, servicesGen: nat)

  datatype Report =
    | Refusal
    | Ok(requiresRestart: set<string>, added: set<string>, removed: set<string>, changed: set<string>, gen: nat)

  /** One installation: what was installed, and by which reload. */
  datatype Install = Install(config: Leaves, services: Services, owner: nat)

  /** `config`, `services`, `live` and the lock are the process's own state;
      generations and history only record how it came about.  `live` holds,
      per job, the leaf values the running schedule was built from. */
  datatype State = State(
    lock: Option<nat>,
    config: Leaves, services: Services, live: map<string, Leaves>,
    stages: seq<Stage>, readers: map<nat, Reader>, reports: seq<Report>,
    configGen: nat, servicesGen: nat, history: seq<Install>)

  // ---- What a report says ------------------------------------------------------

  function JobPaths(plan: seq<Job>): seq<string> {
    if plan == [] then [] else plan[0].paths + JobPaths(plan[1..])
  }

  /** `failed_config_paths`: the leaves behind every refused job. */
  function FailedPaths(plan: seq<Job>, refused: set<string>): set<string> {
    set k, i | 0 <= k < |plan| && 0 <= i < |plan[k].paths| && plan[k].id in refused :: plan[k].paths[i]
  }

  /** `requires_restart` of an installed reload. */
  function RequiresRestart(plan: seq<Job>, syncer: Syncer, oldConfig: Leaves, newConfig: Leaves): set<string> {
    ChangedSet(oldConfig, newConfig, RESTART_ONLY) +
    match syncer
    case Returns(refused) => FailedPaths(plan, refused)
    case _ => ChangedSet(oldConfig, newConfig, JobPaths(plan))
  }

  function MakeReport(plan: seq<Job>, attempt: Attempt, oldConfig: Leaves, oldServices: Services, gen: nat): Report
    requires attempt.Parses()
  {
    var incoming := attempt.services.value;
    Ok(RequiresRestart(plan, attempt.syncer, oldConfig, attempt.config.value),
       incoming.Keys - oldServices.Keys,
       oldServices.Keys - incoming.Keys,
       (set name | name in incoming.Keys * oldServices.Keys && incoming[name] != oldServices[name]),
       gen)
  }

  /** The leaf values a job built from `config` runs by. */
  function BuiltFrom(job: Job, config: Leaves): Leaves {
    map i | 0 <= i < |job.paths| :: job.paths[i] := Get(config, job.paths[i])
  }

  function AppliedBy(plan: seq<Job>, syncer: Syncer): set<string> {
    match syncer
    case NoSyncer => {}
    case Raises(applied) => applied
    case Returns(refused) => (set k | 0 <= k < |plan| :: plan[k].id) - refused
  }

  /** The schedule after the jobs in `applied` were made to match `config`. */
  function SyncLive(plan: seq<Job>, live: map<string, Leaves>, config: Leaves, applied: set<string>)
    : map<string, Leaves>
  {
    if plan == [] then live
    else
      var rest := SyncLive(plan[..|plan| - 1], live, config, applied);
      var job := plan[|plan| - 1];
      if job.id in applied then rest[job.id := BuiltFrom(job, config)] else rest
  }

  // ---- Steps ---------------------------------------------------------------------

  datatype Step =
    | Acquire(t: nat) | Read(t: nat) | Refuse(t: nat) | SetConfig(t: nat) | SetServices(t: nat)
    | Prune(t: nat) | Sync(t: nat) | FileReport(t: nat)
    | ReaderConfig(r: nat) | ReaderServices(r: nat)

  function Init(w: World): State {
    State(None, w.config, w.services, SyncLive(w.plan, map[], w.config, set k | 0 <= k < |w.plan| :: w.plan[k].id),
          seq(|w.attempts|, _ => Waiting), map[], [], 0, 0, [Install(w.config, w.services, 0)])
  }

  predicate Enabled(w: World, s: State, step: Step)
    requires |s.stages| == |w.attempts|
  {
    match step
    case Acquire(t) => t < |s.stages| && s.stages[t].Waiting? && s.lock.None?
    case Read(t) => t < |s.stages| && s.stages[t].Acquired?
    case Refuse(t) => t < |s.stages| && s.stages[t].ReadOld? && !w.attempts[t].Parses()
    case SetConfig(t) => t < |s.stages| && s.stages[t].ReadOld? && w.attempts[t].Parses()
    case SetServices(t) => t < |s.stages| && s.stages[t].ConfigSet? && w.attempts[t].Parses()
    case Prune(t) => t < |s.stages| && s.stages[t].ServicesSet?
    case Sync(t) => t < |s.stages| && s.stages[t].Pruned? && w.attempts[t].Parses()
    case FileReport(t) => t < |s.stages| && s.stages[t].Released? && w.attempts[t].Parses()
    case ReaderConfig(r) => r !in s.readers || s.readers[r].Fresh?
    case ReaderServices(r) => r in s.readers && s.readers[r].GotConfig?
  }

  /** Reload `t` moves on to `stage`. */
  function At(s: State, t: nat, stage: Stage): State
    requires t < |s.stages|
  {
    s.(stages := s.stages[t := stage])
  }

  function DoAcquire(s: State, t: nat): State
    requires t < |s.stages|
  {
    At(s, t, Acquired).(lock := Some(t))
  }

  function DoRefuse(s: State, t: nat): State
    requires t < |s.stages|
  {
    At(s, t, Refused).(lock := None, reports := s.reports + [Refusal])
  }

  function DoSetConfig(s: State, t: nat, a: Attempt): State
    requires t < |s.stages| && s.stages[t].ReadOld? && a.Parses()
  {
    var gen := |s.history|;
    At(s, t, ConfigSet(s.stages[t].oldConfig, s.stages[t].oldServices, gen)).(
      config := a.config.value, configGen := gen,
      history := s.history + [Install(a.config.value, a.services.value, t)])
  }

  function DoSetServices(s: State, t: nat, a: Attempt): State
    requires t < |s.stages| && s.stages[t].ConfigSet? && a.Parses()
  {
    var stage := s.stages[t];
    At(s, t, ServicesSet(stage.oldConfig, stage.oldServices, stage.gen)).(
      services := a.services.value, servicesGen := s.configGen)
  }

  /** `forget_unknown` of the agents; an exception leaves the `with` block. */
  function DoPrune(s: State, t: nat, a: Attempt): State
    requires t < |s.stages| && s.stages[t].ServicesSet?
  {
    var stage := s.stages[t];
    if a.pruneRaises then At(s, t, Crashed(stage.gen)).(lock := None)
    else At(s, t, Pruned(stage.oldConfig, stage.oldServices, stage.gen))
  }

  function DoSync(s: State, t: nat, plan: seq<Job>, a: Attempt): State
    requires t < |s.stages| && s.stages[t].Pruned? && a.Parses()
  {
    var stage := s.stages[t];
    At(s, t, Released(stage.oldConfig, stage.oldServices, stage.gen)).(
      lock := None, live := SyncLive(plan, s.live, a.config.value, AppliedBy(plan, a.syncer)))
  }

  function DoFileReport(s: State, t: nat, plan: seq<Job>, a: Attempt): State
    requires t < |s.stages| && s.stages[t].Released? && a.Parses()
  {
    var stage := s.stages[t];
    At(s, t, Reported(stage.gen)).(
      reports := s.reports + [MakeReport(plan, a, stage.oldConfig, stage.oldServices, stage.gen)])
  }

  function Apply(w: World, s: State, step: Step): State
    requires |s.stages| == |w.attempts| && Enabled(w, s, step)
  {
    match step
    case Acquire(t) => DoAcquire(s, t)
    case Read(t) => At(s, t, ReadOld(s.config, s.services))
    case Refuse(t) => DoRefuse(s, t)
    case SetConfig(t) => DoSetConfig(s, t, w.attempts[t])
    case SetServices(t) => DoSetServices(s, t, w.attempts[t])
    case Prune(t) => DoPrune(s, t, w.attempts[t])
    case Sync(t) => DoSync(s, t, w.plan, w.attempts[t])
    case FileReport(t) => DoFileReport(s, t, w.plan, w.attempts[t])
    case ReaderConfig(r) => s.(readers := s.readers[r := GotConfig(s.configGen)])
    case ReaderServices(r) => s.(readers := s.readers[r := GotBoth(s.readers[r].configGen, s.servicesGen)])
  }

  /** The state a run leads to, when every step was enabled where it was taken. */
  function Exec(w: World, steps: seq<Step>): (result: Option<State>)
    ensures result.Some? ==> |result.value.stages| == |w.attempts|
  {
    if steps == [] then Some(Init(w))
    else
      var before := Exec(w, steps[..|steps| - 1]);
      if before.Some? && Enabled(w, before.value, steps[|steps| - 1])
      then Some(Apply(w, before.value, steps[|steps| - 1])) else None
  }

  // ---- The invariant -------------------------------------------------------------

  predicate Holding(stage: Stage) {
    stage.Acquired? || stage.ReadOld? || stage.ConfigSet? || stage.ServicesSet? || stage.Pruned?
  }

  predicate Installed(stage: Stage) {
    stage.ConfigSet? || stage.ServicesSet? || stage.Pruned? || stage.Released? || stage.Reported? || stage.Crashed?
  }

  /** The reload has been through the scheduler. */
  predicate Synced(stage: Stage) {
    stage.Released? || stage.Reported?
  }

  ghost predicate Shape(w: World, s: State) {
    && |s.stages| == |w.attempts|
    && |s.history| >= 1
    && s.history[0].config == w.config && s.history[0].services == w.services
    && s.configGen == |s.history| - 1
    && s.servicesGen <= s.configGen <= s.servicesGen + 1
    && s.config == s.history[s.configGen].config
    && s.services == s.history[s.servicesGen].services
  }

  /** At most one reload holds the lock, and the slots disagree only between
      its two assignments. */
  ghost predicate LockInv(s: State) {
    && (s.lock.Some? ==> s.lock.value < |s.stages|)
    && (forall t | 0 <= t < |s.stages| :: Holding(s.stages[t]) <==> s.lock == Some(t))
    && (s.servicesGen < s.configGen <==> InGap(s))
  }

  /** The lock holder has set the configuration and not yet the services. */
  predicate InGap(s: State) {
    s.lock.Some? && s.lock.value < |s.stages| && s.stages[s.lock.value].ConfigSet?
  }

  /** What a reload remembers is what it found and what it installed. */
  ghost predicate StageInv(w: World, s: State, t: nat)
    requires Shape(w, s) && t < |s.stages|
  {
    var stage := s.stages[t];
    && (stage.ReadOld? ==> stage.oldConfig == s.config && stage.oldServices == s.services)
    && (stage.Refused? ==> !w.attempts[t].Parses())
    && (Installed(stage) ==>
          && w.attempts[t].Parses()
          && 1 <= stage.gen < |s.history|
          && s.history[stage.gen] == Install(w.attempts[t].config.value, w.attempts[t].services.value, t)
          && (Holding(stage) ==> stage.gen == s.configGen))
    && (stage.ConfigSet? || stage.ServicesSet? || stage.Pruned? || stage.Released? ==>
          stage.oldConfig == s.history[stage.gen - 1].config && stage.oldServices == s.history[stage.gen - 1].services)
    && (stage.Crashed? ==> w.attempts[t].pruneRaises)
    && (stage.Pruned? || stage.Released? || stage.Reported? ==> !w.attempts[t].pruneRaises)
  }

  /** Every generation after the first belongs to the reload that made it. */
  ghost predicate Owned(w: World, s: State, gen: nat)
    requires gen < |s.history|
  {
    gen >= 1 ==>
      && s.history[gen].owner < |s.stages| == |w.attempts|
      && Installed(s.stages[s.history[gen].owner])
      && s.stages[s.history[gen].owner].gen == gen
      && w.attempts[s.history[gen].owner].Parses()
  }

  /** The report generation `gen` gives rise to. */
  ghost function ReportFor(w: World, s: State, gen: nat): Report
    requires 1 <= gen < |s.history| && Owned(w, s, gen)
  {
    MakeReport(w.plan, w.attempts[s.history[gen].owner], s.history[gen - 1].config, s.history[gen - 1].services, gen)
  }

  /** An ok report is that of a generation whose reload has finished. */
  ghost predicate ReportFinished(s: State, report: Report) {
    report.Ok? ==>
      && 1 <= report.gen < |s.history|
      && s.history[report.gen].owner < |s.stages|
      && s.stages[s.history[report.gen].owner].Reported?
  }

  /** An ok report says what its generation calls for. */
  ghost predicate ReportTrue(w: World, s: State, report: Report) {
    report.Ok? ==> 1 <= report.gen < |s.history| && Owned(w, s, report.gen) && report == ReportFor(w, s, report.gen)
  }

  ghost predicate ReportsTrue(w: World, s: State) {
    forall report | report in s.reports :: ReportTrue(w, s, report)
  }

  /** A reload that has finished has filed its report. */
  ghost predicate ReportFiled(w: World, s: State, gen: nat)
    requires gen < |s.history|
  {
    gen >= 1 && Owned(w, s, gen) && s.stages[s.history[gen].owner].Reported? ==> ReportFor(w, s, gen) in s.reports
  }

  ghost predicate ReaderInv(s: State, r: nat)
    requires r in s.readers
  {
    match s.readers[r]
    case Fresh => true
    case GotConfig(c) => c <= s.configGen && c <= s.servicesGen + 1
    case GotBoth(c, v) => c <= v + 1 && c <= s.configGen && v <= s.servicesGen
  }

  /** Generation `gen` accounts for leaf `path` of the schedule: its report
      names it, or it moved the leaf and has not got as far as the scheduler. */
  ghost predicate Accounts(w: World, s: State, gen: nat, path: string)
    requires 1 <= gen < |s.history| && Owned(w, s, gen)
  {
    var stage := s.stages[s.history[gen].owner];
    if Synced(stage) then path in ReportFor(w, s, gen).requiresRestart
    else Moved(s.history[gen - 1].config, s.history[gen].config, path)
  }

  /** A leaf the running schedule was not built from is accounted for. */
  ghost predicate LeafAccounted(w: World, s: State, job: Job, path: string) {
    && job.id in s.live
    && path in s.live[job.id]
    && (s.live[job.id][path] != Get(s.config, path) ==>
          exists gen :: 1 <= gen < |s.history| && Owned(w, s, gen) && Accounts(w, s, gen, path))
  }

  ghost predicate ScheduleInv(w: World, s: State) {
    forall job, path | job in w.plan && path in job.paths :: LeafAccounted(w, s, job, path)
  }

  /** Job ids are distinct, as in `plan_jobs`. */
  ghost predicate PlanValid(plan: seq<Job>) {
    forall i, j | 0 <= i < j < |plan| :: plan[i].id != plan[j].id
  }

  ghost predicate Inv(w: World, s: State) {
    && Shape(w, s)
    && LockInv(s)
    && (forall t | 0 <= t < |s.stages| :: StageInv(w, s, t))
    && (forall gen | 0 <= gen < |s.history| :: Owned(w, s, gen))
    && (forall report | report in s.reports :: ReportFinished(s, report))
    && (forall gen | 0 <= gen < |s.history| :: ReportFiled(w, s, gen))
    && (forall r | r in s.readers :: ReaderInv(s, r))
  }

  lemma InitInv(w: World)
    ensures Inv(w, Init(w))
  {
  }

  /** What a step needs to know of the reload that takes it. */
  ghost predicate ActorInv(w: World, s: State, step: Step)
    requires Shape(w, s) && Enabled(w, s, step)
  {
    step.ReaderConfig? || step.ReaderServices? || StageInv(w, s, step.t)
  }

  lemma StepShape(w: World, s: State, step: Step)
    requires Shape(w, s) && LockInv(s) && Enabled(w, s, step) && ActorInv(w, s, step)
    ensures Shape(w, Apply(w, s, step))
  {
    match step {
      case Acquire(_) => case Read(_) => case Refuse(_) => case SetConfig(_) => case SetServices(_) =>
      case Prune(_) => case Sync(_) => case FileReport(_) => case ReaderConfig(_) => case ReaderServices(_) =>
    }
  }

  lemma StepHolder(w: World, s: State, step: Step, t: nat)
    requires |s.stages| == |w.attempts| && LockInv(s) && Enabled(w, s, step) && t < |s.stages|
    ensures var s' := Apply(w, s, step);
      && (s'.lock.Some? ==> s'.lock.value < |s'.stages|)
      && (Holding(s'.stages[t]) <==> s'.lock == Some(t))
  {
    var s' := Apply(w, s, step);
    if step.ReaderConfig? || step.ReaderServices? {
    } else if step.t == t {
      match step {
        case Acquire(_) => case Read(_) => case Refuse(_) => case SetConfig(_) => case SetServices(_) =>
        case Prune(_) => case Sync(_) => case FileReport(_) => case ReaderConfig(_) => case ReaderServices(_) =>
      }
    } else {
      assert s'.stages[t] == s.stages[t];
      assert s'.lock == Some(t) <==> s.lock == Some(t);
    }
  }

  lemma StepGap(w: World, s: State, step: Step)
    requires Shape(w, s) && LockInv(s) && Enabled(w, s, step) && ActorInv(w, s, step)
    ensures var s' := Apply(w, s, step); s'.servicesGen < s'.configGen <==> InGap(s')
  {
    match step {
      case Acquire(_) => case Read(_) => case Refuse(_) => case SetConfig(_) => case SetServices(_) =>
      case Prune(_) => case Sync(_) => case FileReport(_) => case ReaderConfig(_) => case ReaderServices(_) =>
    }
  }

  /** Installations are only ever appended. */
  lemma HistoryGrows(w: World, s: State, step: Step)
    requires |s.stages| == |w.attempts| && Enabled(w, s, step)
    ensures s.history <= Apply(w, s, step).history
  {
  }

  lemma ActorStage(w: World, s: State, step: Step)
    requires Shape(w, s) && LockInv(s) && Enabled(w, s, step) && ActorInv(w, s, step)
    requires Shape(w, Apply(w, s, step)) && !step.ReaderConfig? && !step.ReaderServices?
    ensures StageInv(w, Apply(w, s, step), step.t)
  {
    match step {
      case Acquire(_) => case Read(_) => case Refuse(_) => case SetConfig(_) => case SetServices(_) =>
      case Prune(_) => case Sync(_) => case FileReport(_) => case ReaderConfig(_) => case ReaderServices(_) =>
    }
  }

  lemma BystanderStage(w: World, s: State, step: Step, t: nat)
    requires Shape(w, s) && LockInv(s) && Enabled(w, s, step) && t < |s.stages| && StageInv(w, s, t)
    requires Shape(w, Apply(w, s, step)) && (step.ReaderConfig? || step.ReaderServices? || step.t != t)
    ensures StageInv(w, Apply(w, s, step), t)
  {
    HistoryGrows(w, s, step);
    assert Apply(w, s, step).stages[t] == s.stages[t];
  }

  /** Nothing installed is forgotten. */
  ghost predicate Grows(s: State, s': State) {
    && s.history <= s'.history && s.reports <= s'.reports && |s'.stages| == |s.stages|
    && forall t | 0 <= t < |s.stages| && Installed(s.stages[t]) ::
         && Installed(s'.stages[t]) && s'.stages[t].gen == s.stages[t].gen
         && (s.stages[t].Reported? ==> s'.stages[t].Reported?)
  }

  lemma StepGrows(w: World, s: State, step: Step)
    requires |s.stages| == |w.attempts| && Enabled(w, s, step)
    ensures Grows(s, Apply(w, s, step))
  {
    match step {
      case Acquire(_) => case Read(_) => case Refuse(_) => case SetConfig(_) => case SetServices(_) =>
      case Prune(_) => case Sync(_) => case FileReport(_) => case ReaderConfig(_) => case ReaderServices(_) =>
    }
  }

  lemma OwnedKept(w: World, s: State, s': State, gen: nat)
    requires Grows(s, s') && gen < |s.history| && Owned(w, s, gen)
    ensures Owned(w, s', gen)
  {
  }

  lemma StepOwned(w: World, s: State, step: Step, gen: nat)
    requires |s.stages| == |w.attempts| && Enabled(w, s, step) && gen < |Apply(w, s, step).history|
    requires gen < |s.history| ==> Owned(w, s, gen)
    ensures Owned(w, Apply(w, s, step), gen)
  {
    StepGrows(w, s, step);
    if gen < |s.history| {
      OwnedKept(w, s, Apply(w, s, step), gen);
    }
  }

  /** A report once determined stays what it is as history grows. */
  lemma ReportForStable(w: World, s: State, s': State, gen: nat)
    requires s.history <= s'.history && 1 <= gen < |s.history|
    requires Owned(w, s, gen) && Owned(w, s', gen)
    ensures ReportFor(w, s', gen) == ReportFor(w, s, gen)
  {
  }

  /** Filing a report files exactly the one its generation calls for. */
  lemma FiledReport(w: World, s: State, t: nat)
    requires Shape(w, s) && Enabled(w, s, FileReport(t)) && StageInv(w, s, t)
    ensures var gen := s.stages[t].gen;
      && 1 <= gen < |s.history| && s.history[gen].owner == t && Owned(w, s, gen)
      && Apply(w, s, FileReport(t)).reports == s.reports + [ReportFor(w, s, gen)]
  {
  }

  lemma FinishedKept(s: State, s': State, report: Report)
    requires Grows(s, s') && ReportFinished(s, report)
    ensures ReportFinished(s', report)
  {
  }

  lemma StepReportFinished(w: World, s: State, step: Step, report: Report)
    requires Shape(w, s) && Enabled(w, s, step) && ActorInv(w, s, step)
    requires report in Apply(w, s, step).reports
    requires report in s.reports ==> ReportFinished(s, report)
    ensures ReportFinished(Apply(w, s, step), report)
  {
    StepGrows(w, s, step);
    if report in s.reports {
      FinishedKept(s, Apply(w, s, step), report);
    } else if step.FileReport? {
      FiledReport(w, s, step.t);
    }
  }

  lemma TrueKept(w: World, s: State, s': State, report: Report)
    requires Grows(s, s') && ReportTrue(w, s, report)
    ensures ReportTrue(w, s', report)
  {
    if report.Ok? {
      OwnedKept(w, s, s', report.gen);
      ReportForStable(w, s, s', report.gen);
    }
  }

  lemma FiledTrue(w: World, s: State, t: nat)
    requires Shape(w, s) && Enabled(w, s, FileReport(t)) && StageInv(w, s, t)
    ensures var s', gen := Apply(w, s, FileReport(t)), s.stages[t].gen;
      && 1 <= gen < |s.history| && Owned(w, s, gen)
      && s'.reports == s.reports + [ReportFor(w, s, gen)] && ReportTrue(w, s', ReportFor(w, s, gen))
  {
    var s', gen := Apply(w, s, FileReport(t)), s.stages[t].gen;
    FiledReport(w, s, t);
    assert Owned(w, s', gen) by { StepOwned(w, s, FileReport(t), gen); }
    ReportForStable(w, s, s', gen);
  }

  /** Only refusing and filing add a report. */
  lemma ReportsAdded(w: World, s: State, step: Step)
    requires |s.stages| == |w.attempts| && Enabled(w, s, step) && !step.FileReport?
    ensures Apply(w, s, step).reports == if step.Refuse? then s.reports + [Refusal] else s.reports
  {
    match step {
      case Acquire(_) => case Read(_) => case Refuse(_) => case SetConfig(_) => case SetServices(_) =>
      case Prune(_) => case Sync(_) => case FileReport(_) => case ReaderConfig(_) => case ReaderServices(_) =>
    }
  }

  lemma StepReportsTrue(w: World, s: State, step: Step)
    requires Shape(w, s) && Enabled(w, s, step) && ActorInv(w, s, step) && ReportsTrue(w, s)
    ensures ReportsTrue(w, Apply(w, s, step))
  {
    StepGrows(w, s, step);
    forall report | report in Apply(w, s, step).reports ensures ReportTrue(w, Apply(w, s, step), report) {
      if report in s.reports {
        TrueKept(w, s, Apply(w, s, step), report);
      } else if step.FileReport? {
        FiledTrue(w, s, step.t);
      } else {
        ReportsAdded(w, s, step);
      }
    }
  }

  /** Only filing its own report makes a reload reported. */
  lemma NewlyReported(w: World, s: State, step: Step, t: nat)
    requires |s.stages| == |w.attempts| && Enabled(w, s, step) && t < |s.stages|
    ensures Apply(w, s, step).stages[t].Reported? ==> s.stages[t].Reported? || step == FileReport(t)
    ensures s.reports <= Apply(w, s, step).reports
  {
    match step {
      case Acquire(_) => case Read(_) => case Refuse(_) => case SetConfig(_) => case SetServices(_) =>
      case Prune(_) => case Sync(_) => case FileReport(_) => case ReaderConfig(_) => case ReaderServices(_) =>
    }
  }

  lemma FiledKept(w: World, s: State, s': State, gen: nat)
    requires Grows(s, s') && 1 <= gen < |s.history| && Owned(w, s, gen) && ReportFiled(w, s, gen)
    requires s'.stages[s.history[gen].owner].Reported? ==>
      s.stages[s.history[gen].owner].Reported? || ReportFor(w, s, gen) in s'.reports
    ensures ReportFiled(w, s', gen)
  {
    OwnedKept(w, s, s', gen);
    ReportForStable(w, s, s', gen);
  }

  lemma StepReportFiled(w: World, s: State, step: Step, gen: nat)
    requires Shape(w, s) && Enabled(w, s, step) && ActorInv(w, s, step)
    requires gen < |Apply(w, s, step).history|
    requires gen < |s.history| ==> Owned(w, s, gen) && ReportFiled(w, s, gen)
    ensures ReportFiled(w, Apply(w, s, step), gen)
  {
    if 1 <= gen < |s.history| {
      StepGrows(w, s, step);
      NewlyReported(w, s, step, s.history[gen].owner);
      if step.FileReport? {
        FiledReport(w, s, step.t);
      }
      FiledKept(w, s, Apply(w, s, step), gen);
    }
  }

  lemma StepReader(w: World, s: State, step: Step, r: nat)
    requires Shape(w, s) && Enabled(w, s, step) && r in Apply(w, s, step).readers
    requires r in s.readers ==> ReaderInv(s, r)
    ensures ReaderInv(Apply(w, s, step), r)
  {
    match step {
      case Acquire(_) => case Read(_) => case Refuse(_) => case SetConfig(_) => case SetServices(_) =>
      case Prune(_) => case Sync(_) => case FileReport(_) => case ReaderConfig(_) => case ReaderServices(_) =>
    }
  }

  lemma StepInv(w: World, s: State, step: Step)
    requires Inv(w, s) && Enabled(w, s, step)
    ensures Inv(w, Apply(w, s, step))
  {
    var s' := Apply(w, s, step);
    assert ActorInv(w, s, step);
    StepShape(w, s, step);
    StepGap(w, s, step);
    forall t | 0 <= t < |s'.stages|
      ensures s'.lock.Some? ==> s'.lock.value < |s'.stages|
      ensures Holding(s'.stages[t]) <==> s'.lock == Some(t)
    {
      StepHolder(w, s, step, t);
    }
    forall t | 0 <= t < |s'.stages| ensures StageInv(w, s', t) {
      if step.ReaderConfig? || step.ReaderServices? || step.t != t {
        BystanderStage(w, s, step, t);
      } else {
        ActorStage(w, s, step);
      }
    }
    forall gen | 0 <= gen < |s'.history| ensures Owned(w, s', gen) { StepOwned(w, s, step, gen); }
    forall gen | 0 <= gen < |s'.history| ensures ReportFiled(w, s', gen) { StepReportFiled(w, s, step, gen); }
    forall report | report in s'.reports ensures ReportFinished(s', report) { StepReportFinished(w, s, step, report); }
    forall r | r in s'.readers ensures ReaderInv(s', r) { StepReader(w, s, step, r); }
  }

  // ---- The scheduler -----------------------------------------------------------

  /** What `SyncLive` leaves behind, job by job. */
  lemma {:induction false} SyncLiveAt(plan: seq<Job>, live: map<string, Leaves>, config: Leaves,
                                      applied: set<string>, job: Job)
    requires PlanValid(plan) && job in plan
    ensures var live' := SyncLive(plan, live, config, applied);
      if job.id in applied then job.id in live' && live'[job.id] == BuiltFrom(job, config)
      else (job.id in live' <==> job.id in live) && (job.id in live ==> live'[job.id] == live[job.id])
  {
    var front, last := plan[..|plan| - 1], plan[|plan| - 1];
    assert plan == front + [last];
    if job != last {
      assert job in front;
      SyncLiveAt(front, live, config, applied, job);
      var i :| 0 <= i < |front| && front[i] == job;
      assert plan[i].id != plan[|plan| - 1].id;
    } else {
      SyncLiveOther(front, live, config, applied, job.id);
    }
  }

  /** Jobs the plan does not name are left alone. */
  lemma {:induction false} SyncLiveOther(plan: seq<Job>, live: map<string, Leaves>, config: Leaves,
                                         applied: set<string>, id: string)
    requires forall job | job in plan :: job.id != id
    ensures var live' := SyncLive(plan, live, config, applied);
      (id in live' <==> id in live) && (id in live ==> live'[id] == live[id])
  {
    if plan != [] {
      assert plan[|plan| - 1] in plan;
      SyncLiveOther(plan[..|plan| - 1], live, config, applied, id);
    }
  }

  /** Without a syncer the schedule stays as it was; a syncer that raises changes
      at most the jobs it got to; one that returns makes every job it did not
      refuse follow the configuration, and leaves the refused ones. */
  lemma SyncerMeans(plan: seq<Job>, live: map<string, Leaves>, config: Leaves, syncer: Syncer, job: Job)
    requires PlanValid(plan) && job in plan && job.id in live
    ensures var live' := SyncLive(plan, live, config, AppliedBy(plan, syncer));
      && job.id in live'
      && (syncer.NoSyncer? ==> live' == live)
      && (syncer.Raises? && job.id !in syncer.applied ==> live'[job.id] == live[job.id])
      && (syncer.Returns? ==>
            live'[job.id] == if job.id in syncer.refused then live[job.id] else BuiltFrom(job, config))
  {
    var k :| 0 <= k < |plan| && plan[k] == job;
    SyncLiveAt(plan, live, config, AppliedBy(plan, syncer), job);
    if syncer.NoSyncer? {
      NothingApplied(plan, live, config);
    }
  }

  lemma {:induction false} NothingApplied(plan: seq<Job>, live: map<string, Leaves>, config: Leaves)
    ensures SyncLive(plan, live, config, {}) == live
  {
    if plan != [] {
      NothingApplied(plan[..|plan| - 1], live, config);
    }
  }

  lemma {:induction false} JobPathListed(plan: seq<Job>, job: Job, path: string)
    requires job in plan && path in job.paths
    ensures path in JobPaths(plan)
  {
    if job != plan[0] {
      JobPathListed(plan[1..], job, path);
    }
  }

  /** A leaf of a job that `sync_jobs` did not apply is named when it moved. */
  lemma UnappliedIsNamed(plan: seq<Job>, syncer: Syncer, oldConfig: Leaves, newConfig: Leaves, job: Job, path: string)
    requires job in plan && path in job.paths && job.id !in AppliedBy(plan, syncer)
    requires Moved(oldConfig, newConfig, path)
    ensures path in RequiresRestart(plan, syncer, oldConfig, newConfig)
  {
    var k :| 0 <= k < |plan| && plan[k] == job;
    var i :| 0 <= i < |job.paths| && job.paths[i] == path;
    if syncer.Returns? {
      assert plan[k].paths[i] in FailedPaths(plan, syncer.refused);
    } else {
      JobPathListed(plan, job, path);
      var j :| 0 <= j < |JobPaths(plan)| && JobPaths(plan)[j] == path;
      assert Split(JobPaths(plan)[j]) <= Split(path);
      ChangedSetComplete(oldConfig, newConfig, JobPaths(plan), path);
    }
  }

  lemma AccountsStable(w: World, s: State, step: Step, gen: nat, path: string)
    requires |s.stages| == |w.attempts| && Enabled(w, s, step) && 1 <= gen < |s.history|
    requires !(step.Sync? && s.history[gen].owner == step.t)
    requires Owned(w, s, gen) && Accounts(w, s, gen, path)
    ensures gen < |Apply(w, s, step).history| && Owned(w, Apply(w, s, step), gen)
    ensures Accounts(w, Apply(w, s, step), gen, path)
  {
    var s', t := Apply(w, s, step), s.history[gen].owner;
    HistoryGrows(w, s, step);
    assert Owned(w, s', gen) by { StepOwned(w, s, step, gen); }
    assert ReportFor(w, s', gen) == ReportFor(w, s, gen) by { ReportForStable(w, s, s', gen); }
    assert Synced(s'.stages[t]) <==> Synced(s.stages[t]) by { SyncedStable(w, s, step, t); }
  }

  lemma SyncedStable(w: World, s: State, step: Step, t: nat)
    requires |s.stages| == |w.attempts| && Enabled(w, s, step) && t < |s.stages|
    requires !(step.Sync? && step.t == t)
    ensures Synced(Apply(w, s, step).stages[t]) <==> Synced(s.stages[t])
  {
    match step {
      case Acquire(_) => case Read(_) => case Refuse(_) => case SetConfig(_) => case SetServices(_) =>
      case Prune(_) => case Sync(_) => case FileReport(_) => case ReaderConfig(_) => case ReaderServices(_) =>
    }
  }

  /** Reaching the scheduler: a job that was applied now runs by the installed
      configuration, and one that was not is left as it ran before. */
  lemma SyncedLeaf(w: World, s: State, t: nat, job: Job, path: string)
    requires Shape(w, s) && Enabled(w, s, Sync(t)) && StageInv(w, s, t) && PlanValid(w.plan)
    requires job in w.plan && path in job.paths && job.id in s.live && path in s.live[job.id]
    ensures var live' := Apply(w, s, Sync(t)).live;
      && job.id in live' && path in live'[job.id]
      && live'[job.id][path] ==
         if job.id in AppliedBy(w.plan, w.attempts[t].syncer) then Get(s.config, path) else s.live[job.id][path]
  {
    SyncLiveAt(w.plan, s.live, s.config, AppliedBy(w.plan, w.attempts[t].syncer), job);
  }

  /** What was not applied and moved is in the report. */
  lemma SyncNames(w: World, s: State, t: nat, job: Job, path: string)
    requires Shape(w, s) && Enabled(w, s, Sync(t)) && StageInv(w, s, t)
    requires job in w.plan && path in job.paths && job.id !in AppliedBy(w.plan, w.attempts[t].syncer)
    requires Moved(s.history[s.stages[t].gen - 1].config, s.history[s.stages[t].gen].config, path)
    ensures var s', gen := Apply(w, s, Sync(t)), s.stages[t].gen;
      Owned(w, s', gen) && Accounts(w, s', gen, path)
  {
    var s', gen := Apply(w, s, Sync(t)), s.stages[t].gen;
    assert Owned(w, s', gen);
    assert s'.history == s.history;
    UnappliedIsNamed(w.plan, w.attempts[t].syncer, s.history[gen - 1].config, s.history[gen].config, job, path);
  }

  /** A leaf already out of step stays accounted for, unless it is the step
      of its own reload reaching the scheduler. */
  lemma StaysAccounted(w: World, s: State, step: Step, job: Job, path: string)
    requires |s.stages| == |w.attempts| && Enabled(w, s, step) && !step.Sync?
    requires LeafAccounted(w, s, job, path) && s.live[job.id][path] != Get(s.config, path)
    ensures LeafAccounted(w, Apply(w, s, step), job, path)
  {
    var gen :| 1 <= gen < |s.history| && Owned(w, s, gen) && Accounts(w, s, gen, path);
    AccountsStable(w, s, step, gen, path);
  }

  lemma SetConfigAccounted(w: World, s: State, t: nat, job: Job, path: string)
    requires Shape(w, s) && Enabled(w, s, SetConfig(t))
    requires LeafAccounted(w, s, job, path) && s.live[job.id][path] == Get(s.config, path)
    ensures LeafAccounted(w, Apply(w, s, SetConfig(t)), job, path)
  {
    var s', gen := Apply(w, s, SetConfig(t)), |s.history|;
    assert Owned(w, s', gen) by { StepOwned(w, s, SetConfig(t), gen); }
    if Get(s.config, path) != Get(s'.config, path) {
      assert Accounts(w, s', gen, path);
    }
  }

  lemma SyncAccounted(w: World, s: State, t: nat, job: Job, path: string)
    requires Shape(w, s) && Enabled(w, s, Sync(t)) && StageInv(w, s, t) && PlanValid(w.plan)
    requires job in w.plan && path in job.paths && LeafAccounted(w, s, job, path)
    ensures LeafAccounted(w, Apply(w, s, Sync(t)), job, path)
  {
    SyncedLeaf(w, s, t, job, path);
    if job.id !in AppliedBy(w.plan, w.attempts[t].syncer) && s.live[job.id][path] != Get(s.config, path) {
      var gen :| 1 <= gen < |s.history| && Owned(w, s, gen) && Accounts(w, s, gen, path);
      if s.history[gen].owner == t {
        SyncNames(w, s, t, job, path);
      } else {
        AccountsStable(w, s, Sync(t), gen, path);
      }
    }
  }

  lemma StepLeafAccounted(w: World, s: State, step: Step, job: Job, path: string)
    requires Shape(w, s) && Enabled(w, s, step) && ActorInv(w, s, step) && PlanValid(w.plan)
    requires job in w.plan && path in job.paths && LeafAccounted(w, s, job, path)
    ensures LeafAccounted(w, Apply(w, s, step), job, path)
  {
    if step.Sync? {
      SyncAccounted(w, s, step.t, job, path);
    } else if s.live[job.id][path] != Get(s.config, path) {
      StaysAccounted(w, s, step, job, path);
    } else if step.SetConfig? {
      SetConfigAccounted(w, s, step.t, job, path);
    }
  }

  lemma InitSchedule(w: World)
    requires PlanValid(w.plan)
    ensures ScheduleInv(w, Init(w))
  {
    var all := set k | 0 <= k < |w.plan| :: w.plan[k].id;
    forall job, path | job in w.plan && path in job.paths
      ensures LeafAccounted(w, Init(w), job, path)
    {
      SyncLiveAt(w.plan, map[], w.config, all, job);
    }
  }

  /** Every run keeps the invariant. */
  lemma {:induction false} RunInv(w: World, steps: seq<Step>)
    requires Exec(w, steps).Some?
    ensures Inv(w, Exec(w, steps).value) && ReportsTrue(w, Exec(w, steps).value)
    ensures PlanValid(w.plan) ==> ScheduleInv(w, Exec(w, steps).value)
  {
    if steps == [] {
      InitInv(w);
      if PlanValid(w.plan) { InitSchedule(w); }
    } else {
      var front, last := steps[..|steps| - 1], steps[|steps| - 1];
      RunInv(w, front);
      var s := Exec(w, front).value;
      StepInv(w, s, last);
      assert ActorInv(w, s, last);
      StepReportsTrue(w, s, last);
      if PlanValid(w.plan) {
        forall job, path | job in w.plan && path in job.paths
          ensures LeafAccounted(w, Apply(w, s, last), job, path)
        {
          StepLeafAccounted(w, s, last, job, path);
        }
      }
    }
  }

  /** Facts about one generation, out of the invariant. */
  lemma InstallOf(w: World, s: State, gen: nat)
    requires Inv(w, s) && 1 <= gen < |s.history|
    ensures Owned(w, s, gen) && ReportFiled(w, s, gen)
    ensures var t := s.history[gen].owner;
      && w.attempts[t].Parses()
      && s.history[gen] == Install(w.attempts[t].config.value, w.attempts[t].services.value, t)
  {
    assert Owned(w, s, gen) && ReportFiled(w, s, gen);
    assert StageInv(w, s, s.history[gen].owner);
  }

  /** The invariant, at the state a run leads to. */
  lemma RunReaches(w: World, steps: seq<Step>, s: State)
    requires Exec(w, steps) == Some(s)
    ensures Inv(w, s) && ReportsTrue(w, s)
    ensures PlanValid(w.plan) ==> ScheduleInv(w, s)
  {
    RunInv(w, steps);
  }
}
