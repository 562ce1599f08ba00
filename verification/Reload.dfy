/** One call of `reload_configuration` (sysadmin/reload.py), as the code runs
    it while it holds the lock, over the slots it assigns. */
module Reload {
  import opened Ordering
  import opened ConfigTree
  import opened ReloadProtocol
  import opened ReloadTheorems

  /** What the call comes back with.  `Raised` is an exception out of an
      agent's `forget_unknown`, which nothing wraps. */
  datatype Outcome =
    | Rejected(file: string)
    | Raised
    | Delivered(
        requiresRestart: seq<string>, added: seq<string>, removed: seq<string>, changed: seq<string>,
        servicesTotal: nat, jobsSynced: bool)

  /** `diff_services`: the three lists are in order, without repetition, and
      between them say exactly how the two files differ. */
  method DiffServices(old_: Services, new_: Services)
    returns (added: seq<string>, removed: seq<string>, changed: seq<string>)
    ensures Increasing(added) && Increasing(removed) && Increasing(changed)
    ensures Elements(added) == new_.Keys - old_.Keys
    ensures Elements(removed) == old_.Keys - new_.Keys
    ensures Elements(changed) == set name | name in new_.Keys * old_.Keys && new_[name] != old_[name]
  {
    added := SortStrings(new_.Keys - old_.Keys);
    removed := SortStrings(old_.Keys - new_.Keys);
    changed := SortStrings(set name | name in new_.Keys * old_.Keys && new_[name] != old_[name]);
  }

  /** The three lists and the unchanged entries rebuild the new file. */
  lemma DiffIsComplete(old_: Services, new_: Services, added: set<string>, removed: set<string>, changed: set<string>)
    requires added == new_.Keys - old_.Keys && removed == old_.Keys - new_.Keys
    requires changed == set name | name in new_.Keys * old_.Keys && new_[name] != old_[name]
    ensures new_ == (old_ - removed) + (map name | name in added + changed :: new_[name])
    ensures added == removed == changed == {} <==> old_ == new_
  {
    if added == removed == changed == {} {
      assert old_.Keys == new_.Keys;
      forall name | name in new_ ensures old_[name] == new_[name] {
        assert name !in changed;
      }
    }
  }

  // ---- An uninterrupted call is a run of the protocol ---------------------------------

  /** What one call meets, as the protocol sees it.  `load` is the services file
      validated against a registry built from the configuration it is given:
      rule 3 says it is the new one. */
  function AttemptOf(parsed: Option<Json>, load: Json -> Option<Services>, pruneRaises: bool, syncer: Syncer): Attempt {
    if parsed.None? then Attempt(None, None, pruneRaises, syncer)
    else Attempt(Some(Flatten(parsed.value, "")), load(parsed.value), pruneRaises, syncer)
  }

  lemma ExecStep(w: World, steps: seq<Step>, s: State, step: Step)
    requires Exec(w, steps) == Some(s) && Enabled(w, s, step)
    ensures Exec(w, steps + [step]) == Some(Apply(w, s, step))
  {
    assert (steps + [step])[..|steps|] == steps;
  }

  /** A call takes the lock and reads the old pair. */
  lemma CallReads(w: World, steps: seq<Step>, s: State, t: nat) returns (run: seq<Step>, s': State)
    requires Exec(w, steps) == Some(s) && s.lock.None? && t < |s.stages| && s.stages[t].Waiting?
    ensures steps <= run && Exec(w, run) == Some(s')
    ensures s' == s.(stages := s.stages[t := ReadOld(s.config, s.services)], lock := Some(t))
  {
    ExecStep(w, steps, s, Acquire(t));
    var s1 := Apply(w, s, Acquire(t));
    ExecStep(w, steps + [Acquire(t)], s1, Read(t));
    run, s' := steps + [Acquire(t)] + [Read(t)], Apply(w, s1, Read(t));
    assert s'.stages == s.stages[t := ReadOld(s.config, s.services)];
  }

  lemma RefusedCallIsARun(w: World, steps: seq<Step>, s: State, t: nat) returns (run: seq<Step>, s': State)
    requires Exec(w, steps) == Some(s) && s.lock.None? && t < |s.stages| && s.stages[t].Waiting?
    requires !w.attempts[t].Parses()
    ensures steps <= run && Exec(w, run) == Some(s')
    ensures s' == s.(stages := s.stages[t := Refused], reports := s.reports + [Refusal])
  {
    var before, s0 := CallReads(w, steps, s, t);
    ExecStep(w, before, s0, Refuse(t));
    run, s' := before + [Refuse(t)], Apply(w, s0, Refuse(t));
    assert s'.stages == s.stages[t := Refused];
  }

  /** The steps of an accepted call, up to the second slot. */
  lemma CallInstalls(w: World, steps: seq<Step>, s: State, t: nat) returns (run: seq<Step>, s': State)
    requires Exec(w, steps) == Some(s) && s.lock.None? && t < |s.stages| && s.stages[t].Waiting?
    requires w.attempts[t].Parses()
    ensures steps <= run && Exec(w, run) == Some(s')
    ensures s'.stages == s.stages[t := ServicesSet(s.config, s.services, |s.history|)]
    ensures s'.config == w.attempts[t].config.value && s'.services == w.attempts[t].services.value
    ensures s'.live == s.live && s'.reports == s.reports && s'.lock == Some(t)
  {
    var before, s0 := CallReads(w, steps, s, t);
    ExecStep(w, before, s0, SetConfig(t));
    var s1 := Apply(w, s0, SetConfig(t));
    ExecStep(w, before + [SetConfig(t)], s1, SetServices(t));
    run, s' := before + [SetConfig(t)] + [SetServices(t)], Apply(w, s1, SetServices(t));
  }

  /** From any reachable state with the lock free, an accepted call is a run of
      the protocol; this is the state it leads to. */
  lemma CallIsARun(w: World, steps: seq<Step>, s: State, t: nat) returns (run: seq<Step>, s': State)
    requires Exec(w, steps) == Some(s) && s.lock.None? && t < |s.stages| && s.stages[t].Waiting?
    requires w.attempts[t].Parses()
    ensures steps <= run && Exec(w, run) == Some(s') && s'.lock.None?
    ensures s'.config == w.attempts[t].config.value && s'.services == w.attempts[t].services.value
    ensures w.attempts[t].pruneRaises ==>
      s'.live == s.live && s'.reports == s.reports && s'.stages == s.stages[t := Crashed(|s.history|)]
    ensures !w.attempts[t].pruneRaises ==>
      && s'.live == SyncLive(w.plan, s.live, s'.config, AppliedBy(w.plan, w.attempts[t].syncer))
      && s'.reports == s.reports + [MakeReport(w.plan, w.attempts[t], s.config, s.services, |s.history|)]
      && s'.stages == s.stages[t := Reported(|s.history|)]
  {
    var before, s0 := CallInstalls(w, steps, s, t);
    ExecStep(w, before, s0, Prune(t));
    var s1 := Apply(w, s0, Prune(t));
    run, s' := before + [Prune(t)], s1;
    if !w.attempts[t].pruneRaises {
      ExecStep(w, run, s1, Sync(t));
      var s2 := Apply(w, s1, Sync(t));
      ExecStep(w, run + [Sync(t)], s2, FileReport(t));
      run, s' := run + [Sync(t)] + [FileReport(t)], Apply(w, s2, FileReport(t));
    }
  }

  // ---- The process ---------------------------------------------------------------------

  /** The report an outcome files with the protocol. */
  ghost function ReportsOf(outcome: Outcome, gen: nat): seq<Report> {
    match outcome
    case Rejected(_) => [Refusal]
    case Raised => []
    case Delivered(owed, added, removed, changed, _, _) =>
      [Ok(Elements(owed), Elements(added), Elements(removed), Elements(changed), gen)]
  }

  /** The outcome says how the two pairs of files differ, and exactly what is
      owed a restart. */
  ghost predicate SaysWhatHappened(outcome: Outcome, plan: seq<Job>, oldConfig: Json, newConfig: Json,
                                   oldServices: Services, newServices: Services, syncer: Syncer)
  {
    && outcome.Delivered?
    && Increasing(outcome.requiresRestart)
    && Increasing(outcome.added) && Increasing(outcome.removed) && Increasing(outcome.changed)
    && Elements(outcome.requiresRestart) ==
         RequiresRestart(plan, syncer, Flatten(oldConfig, ""), Flatten(newConfig, ""))
    && Elements(outcome.added) == newServices.Keys - oldServices.Keys
    && Elements(outcome.removed) == oldServices.Keys - newServices.Keys
    && Elements(outcome.changed) ==
         (set name | name in newServices.Keys * oldServices.Keys && newServices[name] != oldServices[name])
    && outcome.servicesTotal == |newServices|
    && (outcome.jobsSynced <==> syncer.Returns?)
  }

  /** What an accepted call delivers: the differences, and what is owed. */
  method Deliver(plan: seq<Job>, oldConfig: Json, newConfig: Json, oldServices: Services, newServices: Services,
                 syncer: Syncer) returns (outcome: Outcome)
    ensures SaysWhatHappened(outcome, plan, oldConfig, newConfig, oldServices, newServices, syncer)
  {
    var requiresRestart := ChangedUnder(oldConfig, newConfig, RESTART_ONLY);
    var added, removed, changed := DiffServices(oldServices, newServices);
    var owed;
    if syncer.Returns? {
      owed := SortStrings(Elements(requiresRestart) + FailedPaths(plan, syncer.refused));
    } else {
      var moved := ChangedUnder(oldConfig, newConfig, JobPaths(plan));
      owed := SortStrings(Elements(requiresRestart) + Elements(moved));
    }
    outcome := Delivered(owed, added, removed, changed, |newServices|, syncer.Returns?);
  }

  /** That leaves one possible outcome, order and all: sorted lists of the same
      elements are the same list. */
  lemma OutcomeDetermined(a: Outcome, b: Outcome, plan: seq<Job>, oldConfig: Json, newConfig: Json,
                          oldServices: Services, newServices: Services, syncer: Syncer)
    requires SaysWhatHappened(a, plan, oldConfig, newConfig, oldServices, newServices, syncer)
    requires SaysWhatHappened(b, plan, oldConfig, newConfig, oldServices, newServices, syncer)
    ensures a == b
  {
    IncreasingUnique(a.requiresRestart, b.requiresRestart);
    IncreasingUnique(a.added, b.added);
    IncreasingUnique(a.removed, b.removed);
    IncreasingUnique(a.changed, b.changed);
  }

  /** Such an outcome is the report the protocol files. */
  lemma OutcomeIsTheReport(outcome: Outcome, plan: seq<Job>, oldConfig: Json, newConfig: Json,
                           oldServices: Services, newServices: Services, a: Attempt, gen: nat)
    requires SaysWhatHappened(outcome, plan, oldConfig, newConfig, oldServices, newServices, a.syncer)
    requires a.config == Some(Flatten(newConfig, "")) && a.services == Some(newServices)
    ensures ReportsOf(outcome, gen) == [MakeReport(plan, a, Flatten(oldConfig, ""), oldServices, gen)]
  {
  }

  /** The two slots and the schedule.  `world` and `steps` say which run of the
      protocol the process has been through. */
  class Process {
    var config: Json
    var services: Services
    var live: map<string, Leaves>
    ghost const world: World
    ghost var steps: seq<Step>

    /** The slots and the schedule are those of the protocol's run so far. */
    ghost predicate Valid()
      reads this
    {
      && Exec(world, steps).Some?
      && var s := Exec(world, steps).value;
         && s.lock.None? && s.config == Flatten(config, "") && s.services == services && s.live == live
    }

    ghost function Now(): State
      requires Valid()
      reads this
    {
      Exec(world, steps).value
    }

    /** Startup: the schedule is built from the configuration loaded. */
    constructor (config: Json, services: Services, plan: seq<Job>, ghost attempts: seq<Attempt>)
      ensures Valid() && steps == [] && world == World(plan, Flatten(config, ""), services, attempts)
      ensures this.config == config && this.services == services
    {
      this.config, this.services := config, services;
      live := SyncLive(plan, map[], Flatten(config, ""), set k | 0 <= k < |plan| :: plan[k].id);
      world := World(plan, Flatten(config, ""), services, attempts);
      steps := [];
    }

    /** One call, being attempt `t` of the process's life.  What it leaves is
        again a state of the protocol, so what holds of every run holds of the
        process. */
    method ReloadConfiguration(plan: seq<Job>, parsed: Option<Json>, load: Json -> Option<Services>,
                               pruneRaises: bool, syncer: Syncer, ghost t: nat) returns (outcome: Outcome)
      requires Valid() && plan == world.plan
      requires t < |world.attempts| && world.attempts[t] == AttemptOf(parsed, load, pruneRaises, syncer)
      requires Now().stages[t].Waiting?
      modifies this
      // The call was a run of the protocol, ended, with this report.
      ensures Valid() && old(steps) <= steps
      ensures old(Ended(Now())) ==> Ended(Now())
      ensures Now().reports == old(Now().reports) + ReportsOf(outcome, old(|Now().history|))
      // Both files or neither.
      ensures outcome.Rejected? <==> parsed.None? || load(parsed.value).None?
      ensures outcome.Rejected? ==> outcome.file == if parsed.None? then "config.yaml" else "services.yaml"
      ensures outcome.Rejected? ==> config == old(config) && services == old(services) && live == old(live)
      ensures !outcome.Rejected? ==> config == parsed.value && Some(services) == load(parsed.value)
      // The scheduler is reached exactly when the agents let the call through.
      ensures outcome.Raised? <==> !outcome.Rejected? && pruneRaises
      ensures outcome.Raised? ==> live == old(live)
      ensures outcome.Delivered? ==>
        live == SyncLive(plan, old(live), Flatten(config, ""), AppliedBy(plan, syncer))
      // And the report says what happened.
      ensures outcome.Delivered? ==>
        SaysWhatHappened(outcome, plan, old(config), config, old(services), services, syncer)
    {
      var oldConfig, oldServices := config, services;
      ghost var before := Now();
      if parsed.None? {
        ghost var refused, s' := RefusedCallIsARun(world, steps, before, t);
        steps := refused;
        return Rejected("config.yaml");
      }
      var newConfig := parsed.value;
      var loaded := load(newConfig);
      if loaded.None? {
        ghost var refused, s' := RefusedCallIsARun(world, steps, before, t);
        steps := refused;
        return Rejected("services.yaml");
      }
      ghost var run, s' := CallIsARun(world, steps, before, t);
      var newServices := loaded.value;
      var report := Deliver(plan, oldConfig, newConfig, oldServices, newServices, syncer);

      config := newConfig;
      services := newServices;
      steps := run;
      if pruneRaises {
        return Raised;
      }
      live := SyncLive(plan, live, Flatten(newConfig, ""), AppliedBy(plan, syncer));
      outcome := report;
      OutcomeIsTheReport(outcome, plan, oldConfig, newConfig, oldServices, newServices,
                         world.attempts[t], |before.history|);
    }
  }

  /** Rule 2, of the process itself: whatever calls it has been through, a
      restart-only setting away from what startup loaded has been named, unless
      a call that raised moved it. */
  lemma ProcessNeverSilent(p: Process, path: string)
    requires p.Valid() && Ended(p.Now()) && PlanValid(p.world.plan) && !LostInACrash(p.Now(), path)
    ensures Under(RESTART_ONLY, path) && Moved(p.world.config, Flatten(p.config, ""), path) ==>
      Named(p.Now().reports, path)
  {
    NoSilentDivergence(p.world, p.steps, p.Now(), path);
  }
}
