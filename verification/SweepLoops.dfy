/** The sweep and the loop detector together: what the sweep's verdict says
    about the comprehensions themselves, not about the arcs
    (sysadmin/vacuous_guards.py, `_loops` and `sweep`). */
module SweepLoops {
  import opened Ordering
  import LoopAnswers
  import LoopArcs
  import opened Sweep
  import opened Verdicts

  /** The swept comprehension carries what `_loop_turned` answers for the site
      that was written there, on the run that was measured. */
  ghost predicate Detected(swept: LoopSite, site: LoopArcs.Site, siblings: seq<LoopArcs.Site>, run: LoopArcs.Run) {
    && LoopArcs.WellPlaced(site) && LoopArcs.ValidRun(site, run)
    && swept.turned == if LoopArcs.Decidable(site, siblings) then Some(LoopArcs.Answer(site, run)) else None
  }

  /** A yes about the site can be relied on: on this run no exception left it and
      it is a site whose yes tells, or its yes survives exceptions. */
  ghost predicate YesCounts(site: LoopArcs.Site, run: LoopArcs.Run) {
    || (LoopArcs.Calm(run) && LoopAnswers.YesTells(site))
    || (exists seen :: LoopAnswers.Unwinds(run, seen) && LoopAnswers.YesSurvives(site, seen))
  }

  ghost predicate NoCounts(site: LoopArcs.Site, run: LoopArcs.Run) {
    (LoopArcs.Calm(run) && !LoopAnswers.DropsUnseen(site)) || LoopAnswers.NoSurvives(site)
  }

  /** A `match` with arcs: every undeclared comprehension in an executed
      statement that the detector can decide, and whose yes counts, evaluated its
      element in the measured run. */
  lemma MatchMeansElementsWereEvaluated(files: seq<TestFile>, taken: Option<int>, i: nat, k: nat,
                                        site: LoopArcs.Site, siblings: seq<LoopArcs.Site>, run: LoopArcs.Run)
    requires VerdictOf(SweepOf(files, taken, true)) == Match
    requires i < |files| && files[i].executed.Some? && k < |files[i].loops|
    requires Detected(files[i].loops[k], site, siblings, run)
    requires LoopArcs.Decidable(site, siblings) && YesCounts(site, run)
    requires files[i].loops[k].reason.None? && files[i].loops[k].statement in files[i].executed.value
    ensures LoopArcs.Truth(run)
  {
    MatchMeans(files, taken, true);
    assert LoopAccounted(files[i], files[i].loops[k]);
    assert LoopArcs.Decidable(site, []);
    if LoopArcs.Calm(run) && LoopAnswers.YesTells(site) {
      LoopAnswers.YesIsRight(site, run);
    } else {
      var seen :| LoopAnswers.Unwinds(run, seen) && LoopAnswers.YesSurvives(site, seen);
      LoopAnswers.YesDespiteExceptions(site, run, seen);
    }
  }

  /** And a finding about a comprehension whose no counts is true: its element was
      never evaluated, though its statement ran. */
  lemma FindingMeansNeverEvaluated(file: TestFile, k: nat, site: LoopArcs.Site, siblings: seq<LoopArcs.Site>,
                                   run: LoopArcs.Run)
    requires k < |file.loops| && LoopClassOf(LoopOf(file, file.loops[k])) == LoopFinding
    requires Detected(file.loops[k], site, siblings, run) && NoCounts(site, run)
    ensures !LoopArcs.Truth(run)
    ensures file.executed.Some? && file.loops[k].statement in file.executed.value && file.loops[k].reason.None?
  {
    assert LoopArcs.Decidable(site, siblings);
    assert LoopArcs.Decidable(site, []);
    if LoopAnswers.NoSurvives(site) {
      LoopAnswers.NoDespiteExceptions(site, run);
    } else {
      LoopAnswers.NoIsRight(site, run);
    }
  }
}
