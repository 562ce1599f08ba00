# A verified model of the sysadmin service's decision logic

The service watches one machine: agents run on a schedule, raise alerts, and are
reconfigured while they run; a tray icon follows the daemon; and a set of
checkers compares what the project's documents say with what is measured. This
project models the decisions in that code, with files, clocks, the database and
the network replaced by parameters, and proves what they promise.

| files | part of the system |
|---|---|
| `Dotted`, `ConfigTree`, `ReloadProtocol`, `ReloadTheorems`, `Reload`, `Jobs`, `SyncContract` | reloading the configuration under concurrent triggers, and making the scheduler follow |
| `LoopArcs`, `LoopAnswers`, `LoopSiblings`, `Sites`, `Sweep`, `SweepLoops`, `SweepTrees` | finding asserts and comprehensions in the test suite that never did any work |
| `ImportGraph`, `Like`, `FlapReadings`, `Alerts`, `Sentences` | the operations claims: is a restart owed, are the open alerts the documented ones, which sentence does a marker stand in |
| `Register`, `Convention` | the snag register: cutting it into entries, and keeping entries, markers and checks in step |
| `Tray`, `Witness`, `Rejoin`, `RejoinFile` | the tray's connection tracker, the graphics-card witness, the unit-file rewriter |
| `Ordering`, `Sums`, `Text`, `Verdicts` | sorted lists, sums over sets, the string operations the code leans on, a check's verdict |

The reload is a state machine: a run is any sequence of enabled steps of any
number of reloads and readers, so a lemma about every run covers every
interleaving. Code that loops or assigns is a method, proved equal to a function
of its inputs; the theorems are about that function.

Where the code and its documentation disagree, the model follows the code:

* `forget_unknown` is called outside any `try`, after the swap. A raise there
  loses the report, and `ReloadTheorems.SilentExactlyWhenCrashesHideIt` shows
  that this is the one way reloads diverge silently, and when they do.
* The loop detector's docstring says it never guesses: what it cannot decide it
  refuses. On runs that no exception leaves, its yes may be wrong on every
  decided comprehension with an `if` or a second `for`, because from Python 3.12
  on an item turned away jumps back over the element's line
  (`LoopAnswers.FilterMisleads`), and where the iterable starts on the element's
  line and either wraps over lines or is entered from the closing bracket's line
  (`LoopAnswers.EntryMisleads`). Its no may be wrong on a generator whose iterable
  starts on the element's line. On all other sites both are right
  (`LoopAnswers.RightOnEveryRunExactlyWhenTelling`), given that no other code
  leaves arcs that pass for the site's own. A sharper reading of the arcs would
  also decide the second kind (`LoopAnswers.SharperIsRight`), and none could go
  further (`LoopAnswers.NoBetterDetector`). An exception that leaves the
  comprehension can make either answer wrong on more sites
  (`LoopAnswers.RightDespiteExceptionsExactlyWhen`); `async for` is not modelled.
* The rewriter is called idempotent and said to touch nothing else.
  `RejoinFile.IdempotentExactlyWhen` and `RejoinFile.UntouchedExactlyWhen` say
  exactly when that is so.
* A relative import with more dots than packages is an error in Python; the
  import walk reads it as absolute (`ImportGraph.TooManyDots`).

## Model

| member | source | states |
|---|---|---|
| `Dotted.SplitJoin` | sysadmin/reload.py:265-278 | joining dot-free keys with dots and splitting again gives the keys back |
| `Dotted.TextUnderIsComponentPrefix` | sysadmin/reload.py:294-295 | "equal, or starts with the prefix and a dot" holds exactly when the prefix's components lead the path's components, for every two strings |
| `ConfigTree.FlattenMeaning` | sysadmin/reload.py:265-278 | flattening lists exactly the leaves of the document, each under its own path with its own value |
| `ConfigTree.FlattenInjective` | sysadmin/reload.py:265-278 | over non-empty dot-free keys, two documents flatten alike if and only if they say the same, up to key order and empty sub-objects |
| `ConfigTree.DottedKeysCollide` | sysadmin/reload.py:265-278 | without that hypothesis two different documents flatten alike |
| `ConfigTree.ChangedUnder` | sysadmin/reload.py:281-298 | the result is in order, without repetition, and holds exactly the leaf paths under a prefix whose values differ, absent read as null |
| `ConfigTree.ChangedSetComplete` | sysadmin/reload.py:292-298 | no moved leaf under a prefix escapes for being missing on one side |
| `ConfigTree.AbsentReadsAsNull` | sysadmin/reload.py:296-297 | a leaf present in one file only has moved exactly when it is not null there |
| `ConfigTree.PrefixIsComponentwise` | sysadmin/reload.py:294-295 | a prefix never captures a longer sibling: `service` says nothing about `services.x` |
| `ReloadProtocol.RunInv` | sysadmin/reload.py:364-455 | every run keeps the invariant: one lock holder, slots at most one generation apart, every reload's memory of what it found and installed, every report filed, every job leaf out of step accounted for |
| `ReloadProtocol.UnappliedIsNamed` | sysadmin/reload.py:436-455 | a moved leaf of a job that was not applied is in `requires_restart`, with no syncer, a raising one, or one that refused the job |
| `ReloadProtocol.SyncerMeans` | sysadmin/reload.py:436-443 | without a syncer the schedule stays as it was, a raising one changes at most the jobs it got to, and one that returns makes exactly the jobs it did not refuse follow the configuration |
| `ReloadTheorems.SlotsFromOneReload` | sysadmin/reload.py:364-420 | whenever the lock is free, both slots hold what one reload parsed, or what startup loaded |
| `ReloadTheorems.MutualExclusion` | sysadmin/reload.py:364-443 | no two reloads are ever inside the lock together |
| `ReloadTheorems.ReaderWindow` | sysadmin/reload.py:357-361 | a lock-free reader of config then services sees services at most one generation older than its config |
| `ReloadTheorems.RefusedIsInvisible` | sysadmin/reload.py:364-402 | deleting a refused reload's steps from any run gives a run with the same slots, schedule, readers, ok reports and other reloads |
| `ReloadTheorems.ReportsCompose` | sysadmin/reload.py:317-333 | once all have reported, the reports in order of installation lead from the startup service names to exactly those now served |
| `ReloadTheorems.ReportsComposeDespiteCrashes` | sysadmin/reload.py:317-333 | over any ended run: the ok reports on file, one for each reload that lived, compose name by name to what the last report about the name said, and to the services served if and only if no name stands otherwise now |
| `ReloadTheorems.ServedWhenCrashesChangedNoName` | sysadmin/reload.py:317-333 | so they do whenever no dying reload changed which names there are |
| `ReloadTheorems.NoSilentDivergence` | sysadmin/reload.py:416-455 | over any run, whatever else a crash took with it: a restart-only leaf away from its startup value, and a job leaf the schedule was not built from, has been named by an ok report unless a reload that died in `forget_unknown` moved it |
| `ReloadTheorems.NoSilentSchedule` | sysadmin/reload.py:416-455 | the same for whatever a job's leaves compile to: a job running by something else has a leaf named, unless a dying reload moved one of its leaves |
| `ReloadTheorems.NamedExactlyWhen` | sysadmin/reload.py:416-455 | over any ended run, a leaf is named if and only if a reload that lived moved it while restart-only, refused a job behind it, or moved it while a job leaf with no working syncer |
| `ReloadTheorems.SilentLeafExactlyWhen` | sysadmin/reload.py:416-455 | over any ended run, a restart-only leaf is silently away from startup if and only if it is away from startup and every reload that moved it, or refused a job behind it, died; behind no job, if and only if only dying reloads moved it |
| `ReloadTheorems.SilentExactlyWhenCrashesHideIt` | sysadmin/reload.py:416-455 | any number of reloads leave an untold divergence if and only if some leaf out of step was moved by a reload that died and every reload with cause to name it died |
| `ReloadTheorems.SilentExactlyWhenPruneRaises` | sysadmin/reload.py:416-443 | the case of one reload: it leaves an untold divergence if and only if both files parse, an agent's `forget_unknown` raises, and a restart-only or job leaf moved |
| `Reload.DiffServices` | sysadmin/reload.py:317-333 | the three lists are sorted, without repetition, and are exactly the names added, removed and changed |
| `Reload.DiffIsComplete` | sysadmin/reload.py:317-333 | the lists and the old file rebuild the new file; all are empty exactly when the files are equal |
| `Reload.OutcomeDetermined` | sysadmin/reload.py:445-466 | the files, the plan and the syncer determine the report, order and all |
| `Reload.Process.ReloadConfiguration` | sysadmin/reload.py:364-466 | one call on the process: both files installed or neither, the refusal naming the file, the schedule brought up to date for exactly the applied jobs, the report naming exactly what is owed; and the process is again in a state of the protocol, its report the one the protocol files |
| `Reload.CallIsARun` | sysadmin/reload.py:364-466 | from any reachable state with a free lock, an accepted call is a run of the protocol and leads to this state; `Process.ReloadConfiguration` uses it to stay within the protocol |
| `Reload.RefusedCallIsARun` | sysadmin/reload.py:364-402 | so is a refused call, which changes nothing but the reports and its own standing |
| `Reload.ProcessNeverSilent` | sysadmin/reload.py:416-455 | of the process itself, after any calls: a restart-only setting away from what startup loaded has been named, unless a call that raised moved it |
| `Jobs.Host.ApplyJobs` | sysadmin/core/jobs.py:412-459 | the loop's schedule and report are those of the plan applied job by job |
| `Jobs.Host.Sync` | sysadmin/core/scheduler.py:121-181 | afterwards the job runs as planned unless the host refused it, no other job is touched, a job that already ran as planned keeps its next fire, a new or re-timed one fires first when its delay or trigger says, and the outcome says exactly how the schedule changed |
| `Jobs.AppliedAlone` | sysadmin/core/jobs.py:412-459 | each planned job ends up as if it had been applied alone |
| `Jobs.ForeignJobsUntouched` | sysadmin/core/jobs.py:412-459 | a job the plan does not name is not touched |
| `Jobs.FailuresAreListed` | sysadmin/core/jobs.py:452-458 | a job that does not run as planned was refused, its leaves are listed, and nothing else is |
| `Jobs.ReportReadsOffSchedules` | sysadmin/core/jobs.py:430-459 | the report can be read off the schedules before and after: new jobs added, gone ones removed, other triggers re-timed, enabled ones left kept, refused ones failed |
| `Jobs.DeliveredIsUntouched` | sysadmin/core/scheduler.py:131-141 | applying a plan the schedule already delivers changes nothing, not even a next fire time |
| `Jobs.SecondApplicationIsIdle` | sysadmin/core/jobs.py:419-426 | a second application of the same plan, at any later moment, postpones nothing |
| `SyncContract.ApplyJobsIsTheSyncer` | sysadmin/core/jobs.py:430-459 | `apply_jobs` is the syncer the reload counts on: it lists as failed exactly the leaves the report adds, and every job not refused runs as planned |
| `SyncContract.RunRefines` | sysadmin/core/jobs.py:430-459 | over every run of reloads, the jobs the host runs are those compiled from the leaf values the protocol says the schedule was built from |
| `SyncContract.JobsRunAsConfiguredOrAreNamed` | sysadmin/reload.py:416-455 | of the host's own schedule: a job whose leaves no dying reload moved runs as the installed configuration asks, or a leaf of it has been named |
| `LoopArcs.LoopTurned` | sysadmin/vacuous_guards.py:476-508 | the loops decide: no answer exactly on the refused sites, and none is refused that is on one line or has its element below its first line and shares neither its element's line nor, both being generators, its frame's with another; otherwise a back edge to the element or a generator frame that never returned |
| `LoopArcs.DecidedExactlyWhenUnobstructed` | sysadmin/vacuous_guards.py:480-494 | of sites as they are written, exactly those are answered that stand on one line or have their element below their first line, and share neither line with another |
| `LoopAnswers.ElementOnFirstLineMisleads` | sysadmin/vacuous_guards.py:480-481 | why the first refusal is needed: with the element on the first line and the loop below it, an empty run and one that turned leave the same arcs, and they count as a turn |
| `LoopSiblings.SharedElementLineMisleads` | sysadmin/vacuous_guards.py:485-491 | why the second is: a sibling on the element's line that turns leaves an arc that counts as the site's |
| `LoopSiblings.SharedFrameLineMisleads` | sysadmin/vacuous_guards.py:492-494 | why the third is: a second generator on the frame's line, dropped, reads as the site's frame never returning, and, run dry, hides that the site's never did |
| `LoopArcs.AnswerMeaning` | sysadmin/vacuous_guards.py:432-508 | the answer in terms of what any number of invocations did: some invocation drew an item, taken or turned away, evaluated its iterable over the element's line, or ended through it by an arc; or every frame of a generator left no end on record |
| `LoopAnswers.YesIsRight` | sysadmin/vacuous_guards.py:432-508 | on every run that no exception leaves, of an unfiltered site whose iterable is not reached on the element's line from inside the site, a yes is right |
| `LoopAnswers.NoIsRight` | sysadmin/vacuous_guards.py:432-508 | on every run that no exception leaves, of a site that is inlined or has its loop head off the element's line, filtered or not, a no is right |
| `LoopAnswers.TellingIsRight` | sysadmin/vacuous_guards.py:432-508 | where both hold the answer is what happened, on every such run |
| `LoopAnswers.RightUnlessMixed` | sysadmin/vacuous_guards.py:432-508 | run by run, on any site not refused: yes is right unless some item was turned away or some iterable touched the element's line, and no is right unless a dropped frame is mixed with an empty one |
| `LoopAnswers.MixedGeneratorMisleads` | sysadmin/vacuous_guards.py:503-508 | for every generator whose loop head, the first line of its iterable, is the element's line: a run with a wrong no, and a truly empty run that leaves the same arcs |
| `LoopAnswers.FilterMisleads` | sysadmin/vacuous_guards.py:496-501 | for every filtered site and any lines its conditions stand on: a run whose one item was turned away, with a wrong yes, and a run that evaluated the element and leaves the same arcs |
| `LoopAnswers.EntryMisleads` | sysadmin/vacuous_guards.py:496-501 | for every site whose iterable starts on the element's line and is reached there from inside: an empty run with a wrong yes |
| `LoopAnswers.RightOnEveryRunExactlyWhenTelling` | sysadmin/vacuous_guards.py:427-508 | over all runs of a decided site that no exception leaves: yes is right if and only if the site is unfiltered and its iterable does not start on the element's line while wrapping over lines or being entered from the last line; no if and only if it is not a generator with its loop head on the element's line; the answer if and only if both |
| `LoopAnswers.OneLineSites` | sysadmin/vacuous_guards.py:427-508 | what that means for a comprehension on one line: decided, yes right unless filtered, no right unless a generator |
| `LoopAnswers.SpreadSites` | sysadmin/vacuous_guards.py:427-508 | and for one with a line for each part: decided, yes right unless filtered, no always right |
| `LoopAnswers.RightDespiteExceptionsExactlyWhen` | sysadmin/vacuous_guards.py:427-508 | over all runs, exceptions and all: yes is right if and only if it is on calm runs, the loop variable is not on the element's line with the head below it, and the site is an inlined one with its element below its first line or a generator whose unwound frames are recorded; no if and only if the loop head is off the element's line or the site is inlined on one line |
| `LoopAnswers.YesDespiteExceptions` | sysadmin/vacuous_guards.py:427-508 | on the sites that condition names, a yes is right on every run |
| `LoopAnswers.NoDespiteExceptions` | sysadmin/vacuous_guards.py:427-508 | on the sites that condition names, a no is right on every run |
| `LoopAnswers.SharperIsRight` | sysadmin/vacuous_guards.py:496-501 | counting only the jump from the element's line to itself, where the loop head stands on that line, would be right on every unfiltered site that drops no frame unseen |
| `LoopAnswers.NoBetterDetector` | sysadmin/vacuous_guards.py:427-508 | any answer read off the arcs that is right on every such run is the sharper one, on an unfiltered site that drops no frame unseen |
| `LoopSiblings.SiblingHitsExactlyWhenOverlapping` | sysadmin/vacuous_guards.py:482-494 | what the sibling rules buy: a sibling they let pass never leaves the site's frame arcs, and can leave an arc that counts as a turn if and only if it visits the element's line past its own element, or starts on that line and comes back to it from inside the site |
| `LoopSiblings.SiblingsAreHarmless` | sysadmin/vacuous_guards.py:482-494 | siblings neither refused nor so placed leave only arcs the theorems allow |
| `Sites.Visit` | sysadmin/vacuous_guards.py:511-543 | the recursive visitor appends exactly what the listing function lists, in order |
| `Sites.VisitedExactly` | sysadmin/vacuous_guards.py:511-543 | the comprehensions found are exactly those below a statement, each with its innermost statement, marked exactly when below an assert's message |
| `Sites.StatementAboveIsInnermost` | sysadmin/vacuous_guards.py:529-541 | the statement a comprehension is filed under is the innermost on the way to it |
| `Sites.CommentBlockAbove` | sysadmin/vacuous_guards.py:350-367 | the lines returned are the whole contiguous comment block directly above |
| `Sites.DeclaredReason` | sysadmin/vacuous_guards.py:370-409 | the first declaration in the block above, else on the statement's own lines |
| `Sites.DeclaredNonEmpty` | sysadmin/vacuous_guards.py:370-409 | a declaration without a reason is no declaration |
| `Sites.DeclaredAbove` | sysadmin/vacuous_guards.py:393-402 | the first marker in the comment block directly above declares, with the rest of its line and of the block |
| `Sites.DeclaredBeside` | sysadmin/vacuous_guards.py:404-409 | with none there, the first marker on the node's own lines declares, with the rest of its line |
| `Sites.DeclaredNowhere` | sysadmin/vacuous_guards.py:393-409 | with none in either place nothing is declared |
| `Sites.CommentExactly` | sysadmin/vacuous_guards.py:364-366 | a line is a comment exactly when a hash is the first thing on it |
| `Sites.AfterMarkerIs` | sysadmin/vacuous_guards.py:394-397 | a declaration starts after the first marker of its line |
| `Sites.NoMarker` | sysadmin/vacuous_guards.py:394-397 | and there is none exactly when the line does not hold the marker |
| `Sites.ReasonSaysItAll` | sysadmin/vacuous_guards.py:398-401 | the reason reported is everything written from the marker to the end of the comment block, word for word |
| `Sweep.SweepFiles` | sysadmin/vacuous_guards.py:619-760 | the nested loops compute one definition over the files; an unreadable artefact gives `unknown` and nothing else |
| `Sweep.MatchMeans` | sysadmin/vacuous_guards.py:232-252 | `match` if and only if every file was seen, every assert of every file ran or is declared, and with arcs every comprehension of a measured file turned, is undecidable, is declared or sits in an unexecuted statement |
| `Sweep.VerdictMeans` | sysadmin/vacuous_guards.py:232-252 | all three verdicts over the files: unknown if and only if some file was not seen; otherwise mismatch if and only if some assert or, with arcs, some comprehension of a measured file is not accounted for |
| `Sweep.GuardListsMean` | sysadmin/vacuous_guards.py:706-713 | the findings, declarations and stale declarations hold exactly the judged asserts of those kinds |
| `Sweep.LoopListsMean` | sysadmin/vacuous_guards.py:717-736 | likewise the four lists of comprehensions |
| `Sweep.FileListsMean` | sysadmin/vacuous_guards.py:674-705 | and the three lists of files |
| `Sweep.BlindMeans` | sysadmin/vacuous_guards.py:677-689 | the blind asserts are those holding a comprehension, in every file that parses, measured or not |
| `Sweep.PopulationConserved` | sysadmin/vacuous_guards.py:667-736 | every file, judged assert and judged comprehension is in exactly one class, and the published counts add up |
| `Sweep.BlindCountIsOfTheTree` | sysadmin/vacuous_guards.py:677-698 | the counts of asserts and of blind asserts depend on the trees alone, not on what was measured |
| `SweepTrees.MatchMeansOfTrees` | sysadmin/vacuous_guards.py:546-736 | end to end over the syntax trees and the text: `match` if and only if every file was seen, every assert standing in a tree ran or is excused by a comment with a reason, and with arcs every comprehension outside assert messages in a measured file turned, is undecidable, is excused by a comment with a reason or sits in a statement that did not run |
| `SweepTrees.VerdictMeansOfTrees` | sysadmin/vacuous_guards.py:232-252 | all three verdicts of the trees, mismatch and unknown as exactly as match |
| `SweepTrees.ComprehendsExactly` | sysadmin/vacuous_guards.py:613-615 | an assert is blind exactly when a comprehension stands somewhere in its test |
| `SweepLoops.MatchMeansElementsWereEvaluated` | sysadmin/vacuous_guards.py:715-736 | with the detector: under `match`, an undeclared, decidable comprehension in an executed statement, whose yes can be relied on for the run, really evaluated its element |
| `SweepLoops.FindingMeansNeverEvaluated` | sysadmin/vacuous_guards.py:715-736 | and one reported as a finding, whose no can be relied on for the run, never did, though its statement ran |
| `ImportGraph.ImportedNames` | sysadmin/ops_claims.py:1734-1747 | the loop collects exactly the names an import may mean, inside the package |
| `ImportGraph.RelativeLevels` | sysadmin/ops_claims.py:1738-1746 | dots climb packages as PEP 328 says, for as many dots as there are packages |
| `ImportGraph.PackageIs` | sysadmin/ops_claims.py:1740 | an `__init__` is its own package, any other module's is the one above it |
| `ImportGraph.RelativeNamed` | sysadmin/ops_claims.py:1738-1746 | everything a relative import names, component by component, with or without a module written after the dots |
| `ImportGraph.TooManyDots` | sysadmin/ops_claims.py:1738-1746 | with more dots than packages the target is read as absolute |
| `ImportGraph.OurPackageIs` | sysadmin/ops_claims.py:1747 | the names kept are the package and what lies below it |
| `ImportGraph.AncestryIsPrefixes` | sysadmin/ops_claims.py:1750-1770 | the ancestry of a name is exactly the names whose components lead up to it |
| `ImportGraph.DaemonModules` | sysadmin/ops_claims.py:1773-1847 | the worklist ends and returns exactly the modules reachable from the root; it reports a problem, and nothing else, exactly when the root is missing or a reached module does not parse |
| `ImportGraph.ReachIsLeast` | sysadmin/ops_claims.py:1773-1847 | what is reachable lies in every set that holds the root and is closed under imports |
| `ImportGraph.FromIsFollowed` | sysadmin/ops_claims.py:1743-1746 | from a reached module, `from m import a` reaches `m`, and `m.a` where that is a module |
| `ImportGraph.PlainIsFollowed` | sysadmin/ops_claims.py:1736-1737 | and `import a` reaches `a` |
| `ImportGraph.RelativeIsFollowed` | sysadmin/ops_claims.py:1738-1746 | and a relative import the module it names, also with no module after the dots |
| `ImportGraph.ImportIsFollowed` | sysadmin/ops_claims.py:1820-1847 | whatever an import may mean is reached, and every package above it |
| `ImportGraph.NewestSource` | sysadmin/ops_claims.py:1691-1707 | a newest file of the set, none exactly when it is empty |
| `ImportGraph.CheckDeploy` | sysadmin/ops_claims.py:2127-2202 | mismatch if and only if unit and graph can be read and some reachable module was written after the daemon started; unknown if and only if the unit or the graph cannot be read |
| `ImportGraph.DeployDependsOnTheGraph` | sysadmin/ops_claims.py:2147-2202 | times of modules outside the graph never move the verdict |
| `Like.TranslationReadsBack` | sysadmin/ops_claims.py:1253-1255 | the regex text built from a pattern parses back to one item per pattern character, whatever the characters |
| `Like.ItemsMatchLike` | sysadmin/ops_claims.py:1246-1256 | matching those items dot-all over the whole title is recursive LIKE |
| `Like.LikeMatches` | sysadmin/ops_claims.py:1246-1256 | translation and full match agree with LIKE as section 8.5 of SQL-92 defines it by partitions, on every pattern and title |
| `Like.WithoutDotAll` | sysadmin/ops_claims.py:1256 | without the dot-all flag the translation would be wrong |
| `FlapReadings.ApartFitsWithin` | sysadmin/ops_claims.py:1644-1664 | intervals apart within a window fill at most the window, in any order |
| `FlapReadings.ClipWithin` | sysadmin/ops_claims.py:1644-1664 | each clipped term is between nothing and the window |
| `FlapReadings.ClipIsTheOverlap` | sysadmin/ops_claims.py:1650-1651 | a clipped episode holds exactly the moments that lie in the window and between the row's creation and its end |
| `FlapReadings.TouchesExactly` | sysadmin/ops_claims.py:1655 | a row touches the window exactly when it is open at some moment after the window's start |
| `FlapReadings.ReadingIsOpenTime` | sysadmin/ops_claims.py:1644-1664 | a candidate has a reading exactly when a row of its title touches the window, and the reading is the sum of the title's overlaps with it |
| `FlapReadings.FamilyHasRow` | sysadmin/ops_claims.py:1599-1619 | a pattern is kept exactly when it is declared and LIKE matches it to a row of the window |
| `FlapReadings.FractionInRange` | sysadmin/ops_claims.py:1512-1515 | for episodes that do not overlap, every title's fraction is between 0 and 1 |
| `FlapReadings.StandingReadsOne` | sysadmin/ops_claims.py:1512-1515 | a title open throughout the window reads exactly 1 |
| `FlapReadings.OpenHasReading` | sysadmin/ops_claims.py:1622-1664 | a candidate title with an open row always has a reading |
| `FlapReadings.FamiliesAre` | sysadmin/ops_claims.py:1599-1619 | the families kept are exactly the declared patterns that matched a row of the window |
| `Alerts.TitleOfRender` | sysadmin/ops_claims.py:1885-1895 | the title comes back out of "severity: title", whatever colons it holds |
| `Alerts.SeverityOf` | sysadmin/ops_claims.py:2474-2496 | the textual test for `info` reads the severity |
| `Alerts.Overall` | sysadmin/ops_claims.py:2783-2795 | mismatch exactly when some claim is, match exactly when all are |
| `Alerts.MeasuredCount` | sysadmin/ops_claims.py:2033-2046 | the figure compared is the number of open rows not set aside: no row is subtracted twice |
| `Alerts.NothingLoudIsHidden` | sysadmin/ops_claims.py:2408-2496 | unless the overall verdict is mismatch, every open row set aside is a declared title whose time open is less than half the window or an `info` member of a declared family |
| `Alerts.DeclarationsFailExactlyWhenLoud` | sysadmin/ops_claims.py:2408-2496 | the checks of the declarations report a mismatch if and only if a declared title was open for half the window or more, or an open row above `info` belongs to a declared family |
| `Alerts.NothingDeclaredIsUnknown` | sysadmin/ops_claims.py:2405-2471 | a marker's check is unknown if and only if the database did not answer or its sentence sets nothing aside |
| `Alerts.CandidatesAreQuoted` | sysadmin/ops_claims.py:1192-1224 | the candidates are exactly the titles flapping sentences quote |
| `Alerts.PatternsAreQuoted` | sysadmin/ops_claims.py:1227-1243 | the patterns are exactly the texts with a `%` that rotating sentences quote |
| `Alerts.MatchNamesTheRest` | sysadmin/ops_claims.py:2315-2340 | if it is match, the documented figure is the number of remaining rows and the marked sentence names each |
| `Alerts.DecimalInjective` | sysadmin/ops_claims.py:1898-1921 | equal figures name equal numbers |
| `Alerts.DecimalSays` | sysadmin/ops_claims.py:2042-2046 | the figure compared says the number of rows left |
| `Alerts.OpenAsideExactlyWhenDeclared` | sysadmin/ops_claims.py:2033-2046 | an open row is set aside exactly when the document declares its title or family, whatever the history says |
| `Alerts.CountVerdict` | sysadmin/ops_claims.py:2003-2082 | the count's verdict is that of the number of undeclared open rows |
| `Alerts.NamesVerdict` | sysadmin/ops_claims.py:2239-2353 | the membership verdict is match exactly when the sentence names every undeclared open row |
| `Alerts.DeclaredRowsNeverMoveAVerdict` | sysadmin/ops_claims.py:2003-2082 | two databases with the same undeclared open rows get the same two verdicts, whatever declared rows opened or closed between |
| `Sentences.ScanIsComplete` | sysadmin/ops_claims.py:1087-1112 | the scan finds every sentence end and nothing else |
| `Sentences.EndsAfter` | sysadmin/ops_claims.py:544 | a sentence ends after a terminator and any closing marks where white space or nothing follows |
| `Sentences.EndsOnlyAfter` | sysadmin/ops_claims.py:544 | and nowhere else |
| `Sentences.MaskOne` | sysadmin/ops_claims.py:1062-1129 | masking a span blanks exactly the text between its ends |
| `Sentences.MaskMore` | sysadmin/ops_claims.py:1062-1129 | and each further span is masked on its own |
| `Sentences.SentencesTileTheProse` | sysadmin/ops_claims.py:1062-1129 | ends found on the mask cut the original prose into stretches that tile it |
| `Sentences.MarkerGetsOneTile` | sysadmin/ops_claims.py:1087-1112 | a marker's sentence is one tile, the one holding the position before its anchor |
| `Sentences.ShareExactlyWhenNoEndBetween` | sysadmin/ops_claims.py:1040-1112 | two markers share a sentence if and only if no end lies between their anchors |
| `Sentences.FlushMarkerClosesItsSentence` | sysadmin/ops_claims.py:1040-1059 | a marker flush after a terminator gets the sentence it closes, never the next |
| `Sentences.MarkersInARow` | sysadmin/ops_claims.py:1040-1059 | a marker after another with only blanks between gets the same sentence |
| `Register.OutlineIsLossless` | sysadmin/snag_claims.py:344-364 | the document is its preamble and its sections printed back |
| `Register.OpenSections` | sysadmin/snag_claims.py:344-364 | the loop collects the bodies of exactly the outstanding sections, in order |
| `Register.OutstandingExactly` | sysadmin/snag_claims.py:354-358 | a section is outstanding exactly when its heading, case aside, holds none of the closing or template words |
| `Register.OpenBodiesAre` | sysadmin/snag_claims.py:352-364 | the bodies collected are exactly those of the outstanding sections |
| `Register.ReadEntries` | sysadmin/snag_claims.py:430-443 | the loop with its sentinel yields the section's entries, the sentinel never one of them even when a real line equals it |
| `Register.BulletExactly` | sysadmin/snag_claims.py:430-436 | an entry starts at a line that begins with a dash and a space |
| `Register.EntriesAreLossless` | sysadmin/snag_claims.py:430-443 | the lead and the entries, printed back, are the section |
| `Register.EntriesAreUnique` | sysadmin/snag_claims.py:430-443 | there is no other way to cut the section into bullets with their bodies |
| `Register.StopIsMatch` | sysadmin/snag_claims.py:302-313 | where the backward scan stops, the bracket's contents are balanced |
| `Register.MatchIsStop` | sysadmin/snag_claims.py:302-313 | a bracket whose contents are balanced is where the scan stops |
| `Register.ParentheticalUnique` | sysadmin/snag_claims.py:295-313 | at most one split of a title ends in a balanced bracket |
| `Register.TrailingParenthetical` | sysadmin/snag_claims.py:295-313 | the contents of the closing bracket if and only if the stripped title ends in one that has a match |
| `Convention.MarkedBy` | sysadmin/snag_claims.py:8653-8657 | the dictionary's keys are exactly the marked keys and its lists the carriers, once per occurrence, in document order |
| `Convention.CheckConvention` | sysadmin/snag_claims.py:8650-8723 | a readable document's report is one `match` line if and only if document and registry are in step; its last line, and no other, is about unchecked entries, in every state |
| `Convention.CleanReportMeans` | sysadmin/snag_claims.py:8653-8723 | clean if and only if every marker names a check, every check's entry (named by id, else by the start of its title) carries it, some entry is open and every open entry's id has a check |
| `Convention.NamesAre` | sysadmin/snag_claims.py:8655-8657 | an entry goes by its id, without one by the first forty characters of its title |
| `Convention.CarriedById` | sysadmin/snag_claims.py:8672-8675 | where every entry has an id, a check is carried exactly when the entry of its id holds its marker |
| `Convention.ReportHolds` | sysadmin/snag_claims.py:8659-8695 | the report holds a line for exactly the markers no check implements, with their carriers, and for exactly the checks whose entry does not carry them |
| `Convention.UncheckedAre` | sysadmin/snag_claims.py:8683-8695 | the entries named as unchecked are exactly the open ones no check is about |
| `Convention.CheckDispositions` | sysadmin/snag_claims.py:8815-8906 | the lead in the code's order of precedence, the tally per word, and `match` exactly when the sweep is settled |
| `Convention.CleanSweepMeans` | sysadmin/snag_claims.py:8833-8906 | clean if and only if an entry is open, each open one declares a known word, and none would close under the owner's rule when it is available |
| `Convention.NotePrecedence` | sysadmin/snag_claims.py:8852-8893 | what the line leads with: no population, then values that would close, then undeclared entries, then strange words |
| `Convention.FaultyAre` | sysadmin/snag_claims.py:8833-8848 | each list names exactly the entries with its fault |
| `Convention.TallyCounts` | sysadmin/snag_claims.py:8844-8846 | a word's tally is the number of open entries that declare it |
| `Convention.DispositionsConserved` | sysadmin/snag_claims.py:8833-8850 | every open entry is undeclared, outside the vocabulary, or in exactly one word's tally |
| `Convention.DeclaresExactlyWhen` | sysadmin/snag_claims.py:9046-9065 | a value declares a disposition if and only if it is the prefix, a first word that is the disposition up to white space and case, and then nothing, a comma or a space |
| `Tray.Worker.OnConnected` | sysadmin_tray/client.py:483-491 | the fields and the emitted signals follow the machine over everything observed |
| `Tray.Worker.OnDisconnected` | sysadmin_tray/client.py:493-517 | likewise, and the age returned is measured from the episode's start |
| `Tray.StateIsTheLastObservation` | sysadmin_tray/client.py:162-170 | the fields are the last observation and, exactly while it is a failure, the first failure of its episode |
| `Tray.StepSpeaksNews` | sysadmin_tray/client.py:483-517 | an observation speaks exactly when it is the first or differs from the one before |
| `Tray.SpokenIsNews` | sysadmin_tray/client.py:483-517 | over any run what is spoken is the changes of the observations |
| `Tray.SignalsAlternate` | sysadmin_tray/client.py:483-517 | what the worker emits: lost and restored strictly alternate, the first observation always speaks and the last word is about the last one |
| `Tray.OneLostPerEpisode` | sysadmin_tray/client.py:493-517 | the worker emits exactly one lost per maximal run of failures |
| `Tray.AgesMeasureTheEpisode` | sysadmin_tray/client.py:183-196 | every age counts from its own episode's first failure, and only a status poll's tick carries it |
| `Tray.AgesGrow` | sysadmin_tray/client.py:509-517 | under a clock that does not run back, ages are never negative and never shrink within an episode |
| `Witness.Compare` | scripts/dgpu-pin-witness.py:136-142 | the walk over the clients, in any order, finds exactly the commands with a counter that grew and adds each command's growth |
| `Witness.Period` | scripts/dgpu-pin-witness.py:121-149 | one period's running totals are their definitions over the history of ticks |
| `Witness.Run` | scripts/dgpu-pin-witness.py:116-160 | every line describes its own period, the first comparison reaching back into the period before |
| `Witness.LongestQuietIsLongest` | scripts/dgpu-pin-witness.py:145-147 | the longest block of awake, comparable ticks without growth within the period: one has that length and none is longer |
| `Witness.LineStatusSums` | scripts/dgpu-pin-witness.py:127-130 | the counts a line prints add up to its period |
| `Witness.StatusCounts` | scripts/dgpu-pin-witness.py:129-130 | a state's count is the number of ticks in that state |
| `Witness.BusyExactlyWhenEngineRan` | scripts/dgpu-pin-witness.py:138-144 | a command is busy in a second exactly when its clients' counters grew by something |
| `Witness.QuietExactlyWhenNoEngineRan` | scripts/dgpu-pin-witness.py:145-147 | a second is quiet exactly when there is something to compare and every command's engine time is nothing |
| `Witness.BusySecondsCount` | scripts/dgpu-pin-witness.py:143-144 | busy seconds are the number of ticks with engine time |
| `Witness.BusyWithinAwake` | scripts/dgpu-pin-witness.py:129-147 | a command's busy seconds and the longest quiet together fit in the comparable seconds, and those and the suspended ones in the period |
| `Witness.EngineTimeTelescopes` | scripts/dgpu-pin-witness.py:137-142 | over an awake stretch with the same clients, engine time is last counters less first if and only if no counter fell; otherwise it is more |
| `Witness.OneClientTelescopes` | scripts/dgpu-pin-witness.py:137-142 | for a command with one client, last less first |
| `Rejoin.RejoinLines` | scripts/fix-systemd-continuations.py:11-22 | the loop computes one pass |
| `Rejoin.PassKeepsInk` | scripts/fix-systemd-continuations.py:11-22 | a pass keeps the sequence of non-white-space characters |
| `Rejoin.PassKeepsWords` | scripts/fix-systemd-continuations.py:11-22 | a pass keeps every word whole, in order |
| `Rejoin.JoinedByOneSpace` | scripts/fix-systemd-continuations.py:18 | the two parts of a joined line stand one space apart |
| `Rejoin.DirectiveIsJoined` | scripts/fix-systemd-continuations.py:13-19 | a line-initial assignment and the indented line without one below it are joined |
| `Rejoin.OtherLinesSurvive` | scripts/fix-systemd-continuations.py:21 | comments, section headers, blank lines, indented assignments and plain text come through as they are |
| `Rejoin.LongestRunIs` | scripts/fix-systemd-continuations.py:13-17 | the measure is the longest row of continuations behind a directive |
| `Rejoin.PassShortensRuns` | scripts/fix-systemd-continuations.py:11-22 | a pass takes exactly one continuation from every directive that has one |
| `Rejoin.PassShrinks` | scripts/fix-systemd-continuations.py:11-22 | fewer lines unless nothing changes, which is exactly when no directive is followed by a continuation |
| `Rejoin.PassIdempotentExactlyWhen` | scripts/fix-systemd-continuations.py:2-3 | a second pass changes nothing if and only if no directive is followed by two continuations |
| `Rejoin.PassesConverge` | scripts/fix-systemd-continuations.py:11-22 | n passes give the full rejoin, and are settled, if and only if n is at least the longest row |
| `RejoinFile.Fix` | scripts/fix-systemd-continuations.py:9-28 | reading, splitting, the pass and the conditional write; the file's words stay whole and in order, and only white space changes |
| `RejoinFile.FixKeepsWords` | scripts/fix-systemd-continuations.py:9-28 | the same of the function the method computes |
| `RejoinFile.BoundariesAre` | scripts/fix-systemd-continuations.py:9 | the characters lines are split at |
| `RejoinFile.SplitOfRender` | scripts/fix-systemd-continuations.py:9-23 | lines written are read back as they were |
| `RejoinFile.UntouchedExactlyWhen` | scripts/fix-systemd-continuations.py:23-28 | the file is left alone if and only if no directive has a continuation, it ends in a newline and has no other line boundary |
| `RejoinFile.IdempotentExactlyWhen` | scripts/fix-systemd-continuations.py:2-3 | a second run on the file changes nothing if and only if no directive is followed by two continuations |
| `RejoinFile.FilesConverge` | scripts/fix-systemd-continuations.py:9-28 | from the first run on, the file is settled if and only if the script has run as often as the longest row |
| `RejoinFile.TwoContinuationsNeedTwoRuns` | scripts/fix-systemd-continuations.py:2-3 | a file on which the script is not idempotent |
| `RejoinFile.OtherBoundariesAreRewritten` | scripts/fix-systemd-continuations.py:2-3 | files without a directive that are rewritten all the same |

## Left out

- Parsing YAML and validating models: what the two files parse to is an input of a reload.
- The reload report's key report and hand-over report, which are wrapped so that they cannot change the outcome, and its timestamps and the names agents forgot.
- Python equality across types (`1 == True`) in `changed_under`: values are compared as JSON values.
- Jobs.Host.Sync: a host call that raises is taken to have changed nothing, because the scheduler library is not part of this model; triggers are compared as values rather than by their printed form.
- Building the plan of jobs from the configuration (`plan_jobs`): one fixed list of jobs and leaves per run, and any function from a job's leaf values to its setting.
- LoopArcs.LoopTurned: coverage's arcs come from the event model (an event when the line changes and on every jump back, the jump back on the element's line, the first iterable evaluated before the loop, inlined comprehensions, generator frames exhausted or dropped mid-element, exceptions); `async for`, where a no can be wrong, and interpreter internals beyond that are not modelled.
- LoopAnswers.RightOnEveryRunExactlyWhenTelling: assumes that nothing else in the file leaves an arc that counts as the site's turn or is one of its frame's, as a one-line `lambda` around a generator does; for other comprehensions `LoopSiblings` says exactly when.
- Sweep.SweepFiles: the final sort of each list by path and line, the order in which a tree's asserts are walked, and the reading of reports and arcs from disk; what the arcs say of each comprehension is an input.
- Sites.Visit: Python's syntax tree is reduced to nodes with children, of which statements, assert messages and comprehensions are told apart.
- The regular expression that finds code spans: the blanked spans are any disjoint intervals. It can fall back to a shorter fence, so it is not exactly the rule of section 6.1 of CommonMark.
- The text of a marked sentence after its markers are stripped, and `claim_sentence`'s messages.
- Like.LikeMatches: the regular expressions are the fragment the translation produces (escaped characters, `.` and `.*`), not a whole engine.
- The database, systemd, HTTP and subprocess measurements: rows, mtimes and start times are inputs, times are real numbers without zones.
- The operations claims about routes, tests, tables, health, expiry and migration head: single comparisons; they enter `Alerts.NothingLoudIsHidden` as arbitrary other verdicts.
- Which words of a title close an entry (`closure_declared`), the entry's fields, and `read_named_entries`: single expressions over what `Register` yields.
- Convention.CheckConvention: the wording of findings and the cap on names printed.
- Lower-casing outside ASCII.
- The probes of the snag register, and the small decision tables beside them.
- Tray.Worker.OnDisconnected: Qt's delivery of signals; the mutex is taken as making each call one step.
- The notification policy, icon colours and the rest of the tray.
- Witness.Run: floating-point rounding of milliseconds (counters are summed in whole nanoseconds), connectors, suspended time and the number of unreadable processes.
- RejoinFile.Fix: character decoding and the printed diff.
- String rendering of every report, and command-line handling.
