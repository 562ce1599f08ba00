/** What every run of the reload protocol keeps. */
module ReloadTheorems {
  import opened Ordering
  import opened ConfigTree
  import opened ReloadProtocol

  /** Rule 1: both files or neither.  Whenever the lock is free, the two slots
      hold what one and the same reload parsed, or what startup loaded. */
  lemma SlotsFromOneReload(w: World, steps: seq<Step>, s: State)
    requires Exec(w, steps) == Some(s) && s.lock.None?
    ensures
      || (s.config == w.config && s.services == w.services)
      || exists t :: 0 <= t < |w.attempts| && w.attempts[t].Parses()
           && s.config == w.attempts[t].config.value && s.services == w.attempts[t].services.value
  {
    RunReaches(w, steps, s);
    SlotsTogether(w, s);
  }

  lemma SlotsTogether(w: World, s: State)
    requires Inv(w, s) && s.lock.None?
    ensures
      || (s.config == w.config && s.services == w.services)
      || exists t :: 0 <= t < |w.attempts| && w.attempts[t].Parses()
           && s.config == w.attempts[t].config.value && s.services == w.attempts[t].services.value
  {
    assert s.configGen == s.servicesGen;
    if s.configGen >= 1 {
      InstallOf(w, s, s.configGen);
      var t := s.history[s.configGen].owner;
      assert s.config == w.attempts[t].config.value && s.services == w.attempts[t].services.value;
    }
  }

  /** At most one reload is between acquiring and releasing, ever. */
  lemma MutualExclusion(w: World, steps: seq<Step>, s: State, t: nat, u: nat)
    requires Exec(w, steps) == Some(s) && t < |s.stages| && u < |s.stages|
    requires Holding(s.stages[t]) && Holding(s.stages[u])
    ensures t == u
  {
    RunReaches(w, steps, s);
  }

  /** A reader without the lock may see one file from each generation, and
      never anything worse: its services are at most one generation behind its
      configuration. */
  lemma ReaderWindow(w: World, steps: seq<Step>, s: State, r: nat)
    requires Exec(w, steps) == Some(s) && r in s.readers && s.readers[r].GotBoth?
    ensures s.readers[r].servicesGen >= s.readers[r].configGen - 1
  {
    RunReaches(w, steps, s);
    assert ReaderInv(s, r);
  }

  // ---- A refused reload is invisible --------------------------------------------

  function OkReports(reports: seq<Report>): seq<Report> {
    if reports == [] then []
    else OkReports(reports[..|reports| - 1]) + if reports[|reports| - 1].Ok? then [reports[|reports| - 1]] else []
  }

  predicate TakenBy(step: Step, t: nat) {
    !step.ReaderConfig? && !step.ReaderServices? && step.t == t
  }

  function Without(steps: seq<Step>, t: nat): seq<Step> {
    if steps == [] then []
    else Without(steps[..|steps| - 1], t) + if TakenBy(steps[|steps| - 1], t) then [] else [steps[|steps| - 1]]
  }

  /** The states differ in nothing but reload `t` having taken part. */
  ghost predicate SameButFor(s: State, q: State, t: nat) {
    && t < |s.stages|
    && q == s.(stages := s.stages[t := Waiting],
               lock := if s.lock == Some(t) then None else s.lock,
               reports := q.reports)
    && OkReports(q.reports) == OkReports(s.reports)
  }

  lemma OkReportsAppend(reports: seq<Report>, report: Report)
    ensures OkReports(reports + [report]) == OkReports(reports) + if report.Ok? then [report] else []
  {
    assert (reports + [report])[..|reports|] == reports;
  }

  lemma OtherStepEnabled(w: World, s: State, q: State, t: nat, step: Step)
    requires |s.stages| == |w.attempts| && SameButFor(s, q, t)
    requires Enabled(w, s, step) && !TakenBy(step, t)
    ensures Enabled(w, q, step)
  {
  }

  lemma OtherSteps(stages: seq<Stage>, t: nat, u: nat, stage: Stage)
    requires t < |stages| && u < |stages| && t != u
    ensures stages[u := stage][t := Waiting] == stages[t := Waiting][u := stage]
  {
  }

  lemma OtherStepTaken(w: World, s: State, q: State, t: nat, step: Step)
    requires |s.stages| == |w.attempts| && SameButFor(s, q, t) && LockInv(s)
    requires Enabled(w, s, step) && Enabled(w, q, step) && !TakenBy(step, t) && !step.Refuse? && !step.FileReport?
    ensures SameButFor(Apply(w, s, step), Apply(w, q, step), t)
  {
    if !step.ReaderConfig? && !step.ReaderServices? {
      OtherSteps(s.stages, t, step.t, Apply(w, s, step).stages[step.t]);
    }
    match step {
      case Acquire(_) => case Read(_) => case Refuse(_) => case SetConfig(_) => case SetServices(_) =>
      case Prune(_) => case Sync(_) => case FileReport(_) => case ReaderConfig(_) => case ReaderServices(_) =>
    }
  }

  lemma OtherReportFiled(w: World, s: State, q: State, t: nat, step: Step)
    requires |s.stages| == |w.attempts| && SameButFor(s, q, t) && LockInv(s)
    requires Enabled(w, s, step) && Enabled(w, q, step) && !TakenBy(step, t) && (step.Refuse? || step.FileReport?)
    ensures SameButFor(Apply(w, s, step), Apply(w, q, step), t)
  {
    var s' := Apply(w, s, step);
    OtherSteps(s.stages, t, step.t, s'.stages[step.t]);
    OkReportsAppend(s.reports, s'.reports[|s.reports|]);
    OkReportsAppend(q.reports, s'.reports[|s.reports|]);
  }

  lemma OtherStepAgrees(w: World, s: State, q: State, t: nat, step: Step)
    requires |s.stages| == |w.attempts| && SameButFor(s, q, t) && LockInv(s)
    requires Enabled(w, s, step) && Enabled(w, q, step) && !TakenBy(step, t)
    ensures SameButFor(Apply(w, s, step), Apply(w, q, step), t)
  {
    if step.Refuse? || step.FileReport? {
      OtherReportFiled(w, s, q, t, step);
    } else {
      OtherStepTaken(w, s, q, t, step);
    }
  }

  /** A step of the refused reload itself shows nowhere else. */
  lemma OwnStepInvisible(w: World, s: State, q: State, t: nat, step: Step)
    requires |s.stages| == |w.attempts| && LockInv(s) && SameButFor(s, q, t) && !w.attempts[t].Parses()
    requires Enabled(w, s, step) && TakenBy(step, t) && !Installed(s.stages[t])
    ensures SameButFor(Apply(w, s, step), q, t)
  {
    if step.Refuse? {
      OkReportsAppend(s.reports, Refusal);
    }
    assert Apply(w, s, step).stages[t := Waiting] == q.stages;
  }

  /** A reload whose files do not both parse leaves no trace: deleting its
      steps from any run gives a run with the same slots, schedule, readers,
      ok reports and other reloads. */
  lemma {:induction false} RefusedIsInvisible(w: World, steps: seq<Step>, t: nat)
    requires Exec(w, steps).Some? && t < |w.attempts| && !w.attempts[t].Parses()
    ensures Exec(w, Without(steps, t)).Some?
    ensures SameButFor(Exec(w, steps).value, Exec(w, Without(steps, t)).value, t)
  {
    if steps == [] {
      assert Init(w).stages == Init(w).stages[t := Waiting];
    } else {
      var front, last := steps[..|steps| - 1], steps[|steps| - 1];
      RefusedIsInvisible(w, front, t);
      var s, q := Exec(w, front).value, Exec(w, Without(front, t)).value;
      RunReaches(w, front, s);
      assert StageInv(w, s, t);
      if TakenBy(last, t) {
        assert Without(steps, t) == Without(front, t);
        OwnStepInvisible(w, s, q, t, last);
      } else {
        assert Without(steps, t)[..|Without(front, t)|] == Without(front, t);
        OtherStepEnabled(w, s, q, t, last);
        OtherStepAgrees(w, s, q, t, last);
      }
    }
  }

  // ---- Reports compose --------------------------------------------------------------

  /** The service names a run of reports leads to, applied oldest first. */
  ghost function Compose(names: set<string>, reports: seq<Report>): set<string> {
    if reports == [] then names
    else
      var before := Compose(names, reports[..|reports| - 1]);
      var last := reports[|reports| - 1];
      if last.Ok? then before - last.removed + last.added else before
  }

  lemma {:induction false} ComposeChain(reports: seq<Report>, names: seq<set<string>>)
    requires |names| == |reports| + 1
    requires forall i | 0 <= i < |reports| ::
      reports[i].Ok? && names[i] - reports[i].removed + reports[i].added == names[i + 1]
    ensures Compose(names[0], reports) == names[|reports|]
  {
    if reports != [] {
      ComposeChain(reports[..|reports| - 1], names[..|reports|]);
    }
  }

  /** No reload is under way and none died. */
  ghost predicate Settled(s: State) {
    forall t | 0 <= t < |s.stages| :: s.stages[t].Waiting? || s.stages[t].Refused? || s.stages[t].Reported?
  }

  lemma FiledWhenSettled(w: World, s: State, gen: nat)
    requires Inv(w, s) && Settled(s) && 1 <= gen < |s.history|
    ensures Owned(w, s, gen) && ReportFor(w, s, gen) in s.reports
  {
    InstallOf(w, s, gen);
  }

  /** The report of one generation leads from the services before it to its own. */
  lemma FiledNames(w: World, s: State, gen: nat) returns (report: Report)
    requires Inv(w, s) && Settled(s) && 1 <= gen < |s.history|
    ensures report in s.reports && report.Ok? && report.gen == gen
    ensures s.history[gen - 1].services.Keys - report.removed + report.added == s.history[gen].services.Keys
  {
    InstallOf(w, s, gen);
    FiledWhenSettled(w, s, gen);
    report := ReportFor(w, s, gen);
  }

  lemma {:induction false} FiledInOrder(w: World, s: State, n: nat)
    returns (inOrder: seq<Report>, names: seq<set<string>>)
    requires Inv(w, s) && Settled(s) && n < |s.history|
    ensures |inOrder| == n && |names| == n + 1
    ensures forall i | 0 <= i < n :: inOrder[i] in s.reports && inOrder[i].Ok? && inOrder[i].gen == i + 1
    ensures forall i | 0 <= i < n :: names[i] - inOrder[i].removed + inOrder[i].added == names[i + 1]
    ensures names[0] == s.history[0].services.Keys && names[n] == s.history[n].services.Keys
  {
    inOrder, names := [], [s.history[0].services.Keys];
    if n > 0 {
      var before, namesBefore := FiledInOrder(w, s, n - 1);
      var report := FiledNames(w, s, n);
      inOrder, names := before + [report], namesBefore + [s.history[n].services.Keys];
    }
  }

  /** Once every reload has reported, the reports taken in the order of
      installation lead, through the names they add and remove, from the
      startup services to exactly the services now served. */
  lemma ReportsCompose(w: World, steps: seq<Step>, s: State) returns (inOrder: seq<Report>)
    requires Exec(w, steps) == Some(s) && Settled(s)
    ensures |inOrder| == |s.history| - 1
    ensures forall i | 0 <= i < |inOrder| :: inOrder[i] in s.reports && inOrder[i].Ok? && inOrder[i].gen == i + 1
    ensures Compose(w.services.Keys, inOrder) == s.services.Keys
  {
    RunReaches(w, steps, s);
    SettledSlots(w, s);
    var names;
    inOrder, names := FiledInOrder(w, s, s.configGen);
    ComposeChain(inOrder, names);
  }

  lemma SettledSlots(w: World, s: State)
    requires Inv(w, s) && Settled(s)
    ensures s.servicesGen == s.configGen
  {
  }

  // ---- No silent divergence -------------------------------------------------------

  ghost predicate Named(reports: seq<Report>, path: string) {
    exists report :: report in reports && report.Ok? && path in report.requiresRestart
  }

  lemma {:induction false} MovedSomewhere(s: State, n: nat, path: string) returns (gen: nat)
    requires n < |s.history| && Moved(s.history[0].config, s.history[n].config, path)
    ensures 1 <= gen <= n && Moved(s.history[gen - 1].config, s.history[gen].config, path)
  {
    if Moved(s.history[n - 1].config, s.history[n].config, path) {
      gen := n;
    } else {
      gen := MovedSomewhere(s, n - 1, path);
    }
  }

  /** No reload is under way; some may have died in an agent's `forget_unknown`. */
  ghost predicate Ended(s: State) {
    forall t | 0 <= t < |s.stages| ::
      s.stages[t].Waiting? || s.stages[t].Refused? || s.stages[t].Reported? || s.stages[t].Crashed?
  }

  /** Generation `gen` moved the leaf. */
  ghost predicate MovedBy(s: State, gen: nat, path: string) {
    1 <= gen < |s.history| && Moved(s.history[gen - 1].config, s.history[gen].config, path)
  }

  /** The reload that installed generation `gen` died before it could report. */
  ghost predicate Died(s: State, gen: nat) {
    1 <= gen < |s.history| && s.history[gen].owner < |s.stages| && s.stages[s.history[gen].owner].Crashed?
  }

  /** A reload that moved the leaf died. */
  ghost predicate LostInACrash(s: State, path: string) {
    exists gen :: MovedBy(s, gen, path) && Died(s, gen)
  }

  lemma FiledUnlessDied(w: World, s: State, gen: nat)
    requires Inv(w, s) && Ended(s) && 1 <= gen < |s.history| && !Died(s, gen)
    ensures Owned(w, s, gen) && ReportFor(w, s, gen) in s.reports
  {
    InstallOf(w, s, gen);
  }

  lemma RestartLeafNamed(w: World, s: State, path: string)
    requires Inv(w, s) && Ended(s) && !LostInACrash(s, path)
    requires Under(RESTART_ONLY, path) && Moved(w.config, s.config, path)
    ensures Named(s.reports, path)
  {
    var gen := MovedSomewhere(s, s.configGen, path);
    assert MovedBy(s, gen, path);
    FiledUnlessDied(w, s, gen);
    RestartLeafReported(w, s, gen, path);
  }

  lemma RestartLeafReported(w: World, s: State, gen: nat, path: string)
    requires Inv(w, s) && 1 <= gen < |s.history| && Owned(w, s, gen)
    requires Under(RESTART_ONLY, path) && MovedBy(s, gen, path)
    ensures path in ReportFor(w, s, gen).requiresRestart
  {
    InstallOf(w, s, gen);
    ChangedSetComplete(s.history[gen - 1].config, s.history[gen].config, RESTART_ONLY, path);
  }

  lemma AccountedLeafNamed(w: World, s: State, gen: nat, path: string)
    requires Inv(w, s) && Ended(s) && !LostInACrash(s, path)
    requires 1 <= gen < |s.history| && Owned(w, s, gen) && Accounts(w, s, gen, path)
    ensures Named(s.reports, path)
  {
    assert Died(s, gen) ==> MovedBy(s, gen, path);
    FiledUnlessDied(w, s, gen);
    assert Synced(s.stages[s.history[gen].owner]);
    assert path in ReportFor(w, s, gen).requiresRestart;
  }

  /** Rule 2 over any run, and whatever other leaves a crash took with it: once
      no reload is under way, a leaf that no dying reload moved is named by an ok
      report if it is a restart-only leaf away from its startup value, or a job
      leaf the running schedule was not built from. */
  lemma NoSilentDivergence(w: World, steps: seq<Step>, s: State, path: string)
    requires Exec(w, steps) == Some(s) && Ended(s) && PlanValid(w.plan) && !LostInACrash(s, path)
    ensures Under(RESTART_ONLY, path) && Moved(w.config, s.config, path) ==> Named(s.reports, path)
    ensures forall job | job in w.plan && path in job.paths ::
      && job.id in s.live && path in s.live[job.id]
      && (s.live[job.id][path] != Get(s.config, path) ==> Named(s.reports, path))
  {
    RunReaches(w, steps, s);
    if Under(RESTART_ONLY, path) && Moved(w.config, s.config, path) {
      RestartLeafNamed(w, s, path);
    }
    forall job | job in w.plan && path in job.paths
      ensures job.id in s.live && path in s.live[job.id]
      ensures s.live[job.id][path] != Get(s.config, path) ==> Named(s.reports, path)
    {
      assert LeafAccounted(w, s, job, path);
      if s.live[job.id][path] != Get(s.config, path) {
        var gen :| 1 <= gen < |s.history| && Owned(w, s, gen) && Accounts(w, s, gen, path);
        AccountedLeafNamed(w, s, gen, path);
      }
    }
  }

  // ---- Reports compose, crashes and all --------------------------------------------------

  ghost function NamesAt(s: State, gen: nat): set<string>
    requires gen < |s.history|
  {
    s.history[gen].services.Keys
  }

  /** The generations up to `n` whose reloads lived to file a report. */
  ghost function Lived(s: State, n: nat): (gens: seq<nat>)
    requires n < |s.history|
    ensures forall i | 0 <= i < |gens| :: 1 <= gens[i] <= n && !Died(s, gens[i])
    ensures forall gen | 1 <= gen <= n && !Died(s, gen) :: gen in gens
  {
    if n == 0 then [] else if Died(s, n) then Lived(s, n - 1) else Lived(s, n - 1) + [n]
  }

  /** The last generation up to `n` that a report told to have added or removed
      the name; 0 is startup. */
  ghost function LastTold(s: State, n: nat, name: string): (gen: nat)
    requires n < |s.history|
    ensures gen <= n
  {
    if n == 0 then 0
    else if !Died(s, n) && (name in NamesAt(s, n)) != (name in NamesAt(s, n - 1)) then n
    else LastTold(s, n - 1, name)
  }

  /** The report says which names generation `gen` added and removed. */
  ghost predicate TellsNames(s: State, report: Report, gen: nat) {
    && 1 <= gen < |s.history| && report.Ok? && report.gen == gen
    && report.added == NamesAt(s, gen) - NamesAt(s, gen - 1)
    && report.removed == NamesAt(s, gen - 1) - NamesAt(s, gen)
  }

  /** One report for every generation up to `n` whose reload lived, in the order of
      installation. */
  ghost predicate Told(s: State, n: nat, told: seq<Report>)
    requires n < |s.history|
  {
    |told| == |Lived(s, n)| && forall i | 0 <= i < |told| :: TellsNames(s, told[i], Lived(s, n)[i])
  }

  /** Such reports lead, name by name, to what the last of them to mention the
      name said. */
  lemma {:induction false} ToldCompose(s: State, n: nat, told: seq<Report>, name: string)
    requires n < |s.history| && Told(s, n, told)
    ensures name in Compose(NamesAt(s, 0), told) <==> name in NamesAt(s, LastTold(s, n, name))
  {
    if n > 0 {
      if Died(s, n) {
        assert Told(s, n - 1, told) by { assert Lived(s, n) == Lived(s, n - 1); }
        ToldCompose(s, n - 1, told, name);
      } else {
        ToldShorter(s, n, told);
        var front, last := told[..|told| - 1], told[|told| - 1];
        ToldCompose(s, n - 1, front, name);
        ComposeLast(NamesAt(s, 0), told, name);
        assert name in last.removed <==> name in NamesAt(s, n - 1) && name !in NamesAt(s, n);
        assert name in last.added <==> name in NamesAt(s, n) && name !in NamesAt(s, n - 1);
      }
    }
  }

  lemma ToldShorter(s: State, n: nat, told: seq<Report>)
    requires 1 <= n < |s.history| && Told(s, n, told) && !Died(s, n)
    ensures told != [] && Told(s, n - 1, told[..|told| - 1]) && TellsNames(s, told[|told| - 1], n)
  {
    var k := |told| - 1;
    assert Lived(s, n)[..k] == Lived(s, n - 1) && Lived(s, n)[k] == n;
    assert forall i | 0 <= i < k :: told[..k][i] == told[i] && Lived(s, n - 1)[i] == Lived(s, n)[i];
  }

  lemma ComposeLast(names: set<string>, told: seq<Report>, name: string)
    requires told != [] && told[|told| - 1].Ok?
    ensures var last := told[|told| - 1];
      name in Compose(names, told) <==>
        (name in Compose(names, told[..|told| - 1]) && name !in last.removed) || name in last.added
  {
  }

  /** The one report on file of a generation whose reload lived. */
  lemma ReportOnFile(w: World, s: State, gen: nat) returns (report: Report)
    requires Inv(w, s) && ReportsTrue(w, s) && Ended(s) && 1 <= gen < |s.history| && !Died(s, gen)
    ensures report in s.reports && TellsNames(s, report, gen)
    ensures forall r | r in s.reports && r.Ok? && r.gen == gen :: r == report
  {
    FiledUnlessDied(w, s, gen);
    InstallOf(w, s, gen);
    report := ReportFor(w, s, gen);
    forall r | r in s.reports && r.Ok? && r.gen == gen ensures r == report {
      assert ReportTrue(w, s, r);
    }
  }

  /** None is on file of a generation whose reload died. */
  lemma NothingOnFile(w: World, s: State, report: Report)
    requires Inv(w, s) && report in s.reports && report.Ok?
    ensures 1 <= report.gen < |s.history| && !Died(s, report.gen)
  {
    assert ReportFinished(s, report);
  }

  /** All the reports on file up to generation `n`, in order. */
  lemma {:induction false} GatherReports(w: World, s: State, n: nat) returns (told: seq<Report>)
    requires Inv(w, s) && ReportsTrue(w, s) && Ended(s) && n < |s.history|
    ensures Told(s, n, told)
    ensures forall report :: report in told <==> report in s.reports && report.Ok? && report.gen <= n
  {
    forall report | report in s.reports && report.Ok? ensures 1 <= report.gen && !Died(s, report.gen) {
      NothingOnFile(w, s, report);
    }
    if n == 0 {
      told := [];
    } else {
      var before := GatherReports(w, s, n - 1);
      if Died(s, n) {
        told := before;
      } else {
        var report := ReportOnFile(w, s, n);
        told := before + [report];
      }
    }
  }

  /** Over any ended run, crashes and all: the ok reports on file, in order of
      installation, are one for every reload that lived; they compose, name by
      name, to what the last report about the name said; and that is the set of
      services served exactly when no name stands otherwise now. */
  lemma ReportsComposeDespiteCrashes(w: World, steps: seq<Step>, s: State) returns (told: seq<Report>)
    requires Exec(w, steps) == Some(s) && Ended(s)
    ensures s.configGen < |s.history| && Told(s, s.configGen, told)
    ensures forall report :: report in told <==> report in s.reports && report.Ok?
    ensures forall name ::
      name in Compose(w.services.Keys, told) <==> name in NamesAt(s, LastTold(s, s.configGen, name))
    ensures Compose(w.services.Keys, told) == s.services.Keys <==>
      forall name :: name in NamesAt(s, LastTold(s, s.configGen, name)) <==> name in s.services
  {
    RunReaches(w, steps, s);
    told := GatherReports(w, s, s.configGen);
    forall report | report in s.reports && report.Ok? ensures report.gen <= s.configGen {
      NothingOnFile(w, s, report);
    }
    StartsAtStartup(w, s);
    forall name ensures name in Compose(w.services.Keys, told) <==> name in NamesAt(s, LastTold(s, s.configGen, name)) {
      ToldCompose(s, s.configGen, told, name);
    }
  }

  lemma StartsAtStartup(w: World, s: State)
    requires Inv(w, s)
    ensures |s.history| == s.configGen + 1 && NamesAt(s, 0) == w.services.Keys
  {
  }

  /** In particular when no reload that died had changed which names there are. */
  lemma ServedWhenCrashesChangedNoName(w: World, steps: seq<Step>, s: State) returns (told: seq<Report>)
    requires Exec(w, steps) == Some(s) && Ended(s)
    requires forall gen | 1 <= gen < |s.history| && Died(s, gen) :: NamesAt(s, gen) == NamesAt(s, gen - 1)
    ensures forall report :: report in told <==> report in s.reports && report.Ok?
    ensures Compose(w.services.Keys, told) == s.services.Keys
  {
    told := ReportsComposeDespiteCrashes(w, steps, s);
    RunReaches(w, steps, s);
    EndedSlots(w, s);
    forall name ensures name in NamesAt(s, LastTold(s, s.configGen, name)) <==> name in s.services {
      ToldIsServed(s, s.configGen, name);
    }
  }

  lemma EndedSlots(w: World, s: State)
    requires Inv(w, s) && Ended(s)
    ensures s.servicesGen == s.configGen
  {
  }

  lemma {:induction false} ToldIsServed(s: State, n: nat, name: string)
    requires n < |s.history|
    requires forall gen | 1 <= gen <= n && Died(s, gen) :: NamesAt(s, gen) == NamesAt(s, gen - 1)
    ensures name in NamesAt(s, LastTold(s, n, name)) <==> name in NamesAt(s, n)
  {
    if n > 0 {
      ToldIsServed(s, n - 1, name);
    }
  }

  // ---- Exactly what is named, and what is silent ---------------------------------------

  /** Generation `gen` refused a job the leaf belongs to. */
  ghost predicate RefusedBehind(w: World, s: State, gen: nat, path: string) {
    && 1 <= gen < |s.history| && s.history[gen].owner < |w.attempts|
    && var syncer := w.attempts[s.history[gen].owner].syncer;
       syncer.Returns? && path in FailedPaths(w.plan, syncer.refused)
  }

  /** Generation `gen` moved the leaf and had no working syncer to deliver it. */
  ghost predicate Undelivered(w: World, s: State, gen: nat, path: string) {
    && MovedBy(s, gen, path) && s.history[gen].owner < |w.attempts|
    && !w.attempts[s.history[gen].owner].syncer.Returns? && Under(JobPaths(w.plan), path)
  }

  /** The report of generation `gen` names the leaf. */
  ghost predicate NamedBy(w: World, s: State, gen: nat, path: string) {
    || (Under(RESTART_ONLY, path) && MovedBy(s, gen, path))
    || RefusedBehind(w, s, gen, path)
    || Undelivered(w, s, gen, path)
  }

  lemma ReportNames(w: World, s: State, gen: nat, path: string)
    requires Inv(w, s) && 1 <= gen < |s.history| && Owned(w, s, gen)
    ensures path in ReportFor(w, s, gen).requiresRestart <==> NamedBy(w, s, gen, path)
  {
    InstallOf(w, s, gen);
    ChangedSetComplete(s.history[gen - 1].config, s.history[gen].config, RESTART_ONLY, path);
    ChangedSetComplete(s.history[gen - 1].config, s.history[gen].config, JobPaths(w.plan), path);
  }

  /** Exactly which leaves the reports of any ended run have named. */
  lemma NamedExactlyWhen(w: World, steps: seq<Step>, s: State, path: string)
    requires Exec(w, steps) == Some(s) && Ended(s)
    ensures Named(s.reports, path) <==>
      exists gen: nat :: 1 <= gen < |s.history| && !Died(s, gen) && NamedBy(w, s, gen, path)
  {
    RunReaches(w, steps, s);
    if Named(s.reports, path) {
      var report :| report in s.reports && report.Ok? && path in report.requiresRestart;
      assert ReportTrue(w, s, report) && ReportFinished(s, report);
      ReportNames(w, s, report.gen, path);
    }
    if gen: nat :| 1 <= gen < |s.history| && !Died(s, gen) && NamedBy(w, s, gen, path) {
      FiledUnlessDied(w, s, gen);
      ReportNames(w, s, gen, path);
    }
  }

  /** A restart-only leaf is away from its startup value and nobody was told. */
  ghost predicate SilentLeaf(w: World, s: State, path: string) {
    Under(RESTART_ONLY, path) && Moved(w.config, s.config, path) && !Named(s.reports, path)
  }

  /** Exactly when that happens, over any run of any number of reloads: every
      reload that moved the leaf died, and no other happened to name it for a job
      it refused.  Behind no job, only dying reloads moved it. */
  lemma SilentLeafExactlyWhen(w: World, steps: seq<Step>, s: State, path: string)
    requires Exec(w, steps) == Some(s) && Ended(s) && Under(RESTART_ONLY, path)
    ensures SilentLeaf(w, s, path) <==>
      && Moved(w.config, s.config, path)
      && (forall gen: nat | MovedBy(s, gen, path) :: Died(s, gen))
      && (forall gen: nat | RefusedBehind(w, s, gen, path) :: Died(s, gen))
    ensures (forall job | job in w.plan :: path !in job.paths) ==>
      (SilentLeaf(w, s, path) <==>
         Moved(w.config, s.config, path) && forall gen: nat | MovedBy(s, gen, path) :: Died(s, gen))
  {
    NamedExactlyWhen(w, steps, s, path);
    if forall gen: nat | MovedBy(s, gen, path) :: Died(s, gen) {
      if forall gen: nat | RefusedBehind(w, s, gen, path) :: Died(s, gen) {
        assert forall gen: nat | NamedBy(w, s, gen, path) :: Died(s, gen);
      }
    }
  }

  /** The schedule knows a value for exactly the leaves of each planned job. */
  lemma {:induction false} LiveKeys(w: World, steps: seq<Step>, job: Job)
    requires Exec(w, steps).Some? && PlanValid(w.plan) && job in w.plan
    ensures var live := Exec(w, steps).value.live;
      job.id in live && live[job.id].Keys == BuiltFrom(job, w.config).Keys
  {
    if steps == [] {
      SyncLiveAt(w.plan, map[], w.config, set k | 0 <= k < |w.plan| :: w.plan[k].id, job);
    } else {
      var front, last := steps[..|steps| - 1], steps[|steps| - 1];
      LiveKeys(w, front, job);
      if last.Sync? {
        var a := w.attempts[last.t];
        SyncLiveAt(w.plan, Exec(w, front).value.live, a.config.value, AppliedBy(w.plan, a.syncer), job);
      }
    }
  }

  /** The same for the schedule itself, whatever a job is compiled to: a job
      running by something other than what the installed configuration asks
      for has one of its leaves named. */
  lemma NoSilentSchedule<Trigger>(w: World, steps: seq<Step>, s: State, compile: (string, Leaves) -> Trigger, job: Job)
    requires Exec(w, steps) == Some(s) && Ended(s) && PlanValid(w.plan) && job in w.plan
    requires forall path | path in job.paths :: !LostInACrash(s, path)
    ensures job.id in s.live
    ensures compile(job.id, s.live[job.id]) == compile(job.id, BuiltFrom(job, s.config))
         || exists path :: path in job.paths && Named(s.reports, path)
  {
    LiveKeys(w, steps, job);
    var built := BuiltFrom(job, s.config);
    if s.live[job.id] != built {
      var path :| path in built && s.live[job.id][path] != built[path];
      NoSilentDivergence(w, steps, s, path);
    }
  }

  // ---- The one silent path --------------------------------------------------------

  /** The leaf is something the operator should restart for. */
  ghost predicate Diverges(w: World, s: State, path: string) {
    || (Under(RESTART_ONLY, path) && Moved(w.config, s.config, path))
    || (exists job :: job in w.plan && path in job.paths && job.id in s.live && path in s.live[job.id]
          && s.live[job.id][path] != Get(s.config, path))
  }

  /** And nobody was told about it. */
  ghost predicate Silent(w: World, s: State) {
    exists path :: Diverges(w, s, path) && !Named(s.reports, path)
  }

  /** The leaf was moved by a reload that died, and so did every reload that
      would have named it. */
  ghost predicate UntoldByCrashes(w: World, s: State, path: string) {
    LostInACrash(s, path) && forall gen: nat | NamedBy(w, s, gen, path) :: Died(s, gen)
  }

  /** Exactly when any number of reloads leave a divergence nobody was told
      about: some leaf out of step was moved by a reload whose agents' pruning
      raised, and no reload that lived to report had cause to name it. */
  lemma SilentExactlyWhenCrashesHideIt(w: World, steps: seq<Step>, s: State)
    requires Exec(w, steps) == Some(s) && Ended(s) && PlanValid(w.plan)
    ensures Silent(w, s) <==> exists path :: Diverges(w, s, path) && UntoldByCrashes(w, s, path)
  {
    forall path | Diverges(w, s, path)
      ensures !Named(s.reports, path) <==> UntoldByCrashes(w, s, path)
    {
      NamedExactlyWhen(w, steps, s, path);
      if !LostInACrash(s, path) {
        NoSilentDivergence(w, steps, s, path);
      }
    }
  }

  /** The new file moves a restart-only leaf or a job leaf. */
  ghost predicate SomethingMoved(w: World, config: Leaves) {
    exists path :: Moved(w.config, config, path) && Owes(w, path)
  }

  /** A restart-only leaf, or one behind a job. */
  ghost predicate Owes(w: World, path: string) {
    Under(RESTART_ONLY, path) || exists job :: job in w.plan && path in job.paths
  }

  /** While the schedule is still startup's, whatever moved diverges. */
  lemma DivergesFromStartup(w: World, s: State, path: string)
    requires PlanValid(w.plan) && s.live == Init(w).live
    ensures Diverges(w, s, path) <==> Moved(w.config, s.config, path) && Owes(w, path)
  {
    forall job | job in w.plan && path in job.paths
      ensures job.id in s.live && path in s.live[job.id] && s.live[job.id][path] == Get(w.config, path)
    {
      StartupLive(w, job, path);
    }
  }

  /** Until a lone reload reaches the scheduler, the schedule is startup's. */
  lemma {:induction false} ScheduleUntouched(w: World, steps: seq<Step>)
    requires Exec(w, steps).Some? && |w.attempts| == 1
    ensures !Synced(Exec(w, steps).value.stages[0]) ==> Exec(w, steps).value.live == Init(w).live
  {
    if steps != [] {
      var front, last := steps[..|steps| - 1], steps[|steps| - 1];
      ScheduleUntouched(w, front);
      var s := Exec(w, front).value;
      assert last.Sync? ==> Synced(Apply(w, s, last).stages[0]);
      assert Synced(s.stages[0]) ==> Synced(Apply(w, s, last).stages[0]);
    }
  }

  /** Exactly when one reload, run to its end, leaves a divergence nobody was
      told about: an agent's `forget_unknown` raises after the swap, and the
      new file moved a restart-only leaf or a job leaf. */
  lemma SilentExactlyWhenPruneRaises(w: World, steps: seq<Step>, s: State)
    requires Exec(w, steps) == Some(s) && |w.attempts| == 1 && PlanValid(w.plan)
    requires s.stages[0].Refused? || s.stages[0].Reported? || s.stages[0].Crashed?
    ensures Silent(w, s) <==>
      && w.attempts[0].Parses()
      && w.attempts[0].pruneRaises
      && SomethingMoved(w, w.attempts[0].config.value)
  {
    RunReaches(w, steps, s);
    assert StageInv(w, s, 0);
    if s.stages[0].Crashed? {
      LoneCrash(w, steps, s);
    } else {
      forall path
        ensures Under(RESTART_ONLY, path) && Moved(w.config, s.config, path) ==> Named(s.reports, path)
        ensures forall job | job in w.plan && path in job.paths && job.id in s.live && path in s.live[job.id] ::
          s.live[job.id][path] != Get(s.config, path) ==> Named(s.reports, path)
      {
        NoSilentDivergence(w, steps, s, path);
      }
    }
  }

  lemma LoneCrash(w: World, steps: seq<Step>, s: State)
    requires Exec(w, steps) == Some(s) && |w.attempts| == 1 && PlanValid(w.plan)
    requires s.stages[0].Crashed?
    ensures w.attempts[0].Parses() && w.attempts[0].pruneRaises
    ensures Silent(w, s) <==> SomethingMoved(w, w.attempts[0].config.value)
  {
    RunReaches(w, steps, s);
    assert StageInv(w, s, 0);
    ScheduleUntouched(w, steps);
    OneGeneration(w, s);
    InstallOf(w, s, 1);
    forall path ensures !Named(s.reports, path) { NothingNamed(s, path); }
    forall path ensures Diverges(w, s, path) <==> Moved(w.config, s.config, path) && Owes(w, path) {
      DivergesFromStartup(w, s, path);
    }
  }

  lemma StartupLive(w: World, job: Job, path: string)
    requires PlanValid(w.plan) && job in w.plan && path in job.paths
    ensures var live := Init(w).live;
      job.id in live && path in live[job.id] && live[job.id][path] == Get(w.config, path)
  {
    var all := set k | 0 <= k < |w.plan| :: w.plan[k].id;
    SyncLiveAt(w.plan, map[], w.config, all, job);
  }

  /** A lone reload that died filed no report. */
  lemma NothingNamed(s: State, path: string)
    requires |s.stages| == 1 && s.stages[0].Crashed?
    requires forall report | report in s.reports :: ReportFinished(s, report)
    ensures !Named(s.reports, path)
  {
    assert forall report | report in s.reports :: report.Ok? ==> ReportFinished(s, report) && !report.Ok?;
  }

  lemma OneGeneration(w: World, s: State)
    requires Inv(w, s) && |w.attempts| == 1 && Installed(s.stages[0])
    ensures s.configGen == 1 == s.stages[0].gen
  {
    assert StageInv(w, s, 0);
    assert forall gen | 0 <= gen < |s.history| :: Owned(w, s, gen);
    assert Owned(w, s, s.configGen) && Owned(w, s, 1);
  }
}
