/** The sweep of sysadmin/vacuous_guards.py: a coverage report joined to a walk
    of the test files, and what its verdict means. */
module Sweep {
  import opened Ordering
  import opened Verdicts

  /** An `assert` of a file, and what the file declares about it. */
  datatype AssertSite = AssertSite(line: nat, reason: Option<string>, comprehends: bool)

  /** A judged comprehension (one outside every assert message): what
      `_loop_turned` says of it, `None` where the arcs cannot say. */
  datatype LoopSite = LoopSite(line: nat, statement: nat, reason: Option<string>, turned: Option<bool>)

  /** A test file: unreadable, or its asserts and comprehensions; when it was
      written; and the lines the measured run executed, if it imported it. */
  datatype TestFile = TestFile(path: string, parses: bool, asserts: seq<AssertSite>, loops: seq<LoopSite>,
                               written: int, executed: Option<set<nat>>)

  datatype Guard = Guard(path: string, line: nat, reason: Option<string>, evaluated: bool)

  datatype Loop = Loop(path: string, line: nat, reason: Option<string>, turned: Option<bool>, reached: bool)

  /** What was found of the asserts, of the comprehensions and of the files. */
  datatype GuardLists = GuardLists(findings: seq<Guard>, declared: seq<Guard>, stale: seq<Guard>)

  datatype LoopLists = LoopLists(
    findings: seq<Loop>, declared: seq<Loop>, stale: seq<Loop>, undecidable: seq<Loop>, judged: nat, turned: nat)

  datatype FileLists = FileLists(unmeasured: seq<string>, unparsed: seq<string>, moved: seq<string>)

  datatype Report = Report(
    guards: GuardLists, loops: LoopLists, files: FileLists, asserts: nat, comprehension: seq<Guard>, problem: bool)

  const NO_LOOPS := LoopLists([], [], [], [], 0, 0)

  const EMPTY := Report(GuardLists([], [], []), NO_LOOPS, FileLists([], [], []), 0, [], false)

  /** `Sweep.verdict`: not having looked outranks having found. */
  function VerdictOf(r: Report): Verdict {
    if r.problem || r.files.unmeasured != [] || r.files.unparsed != [] || r.files.moved != [] then Unknown
    else if r.guards.findings != [] || r.loops.findings != [] then Mismatch
    else Match
  }

  // ---- The classes ----------------------------------------------------------------------

  function Lines(file: TestFile): set<nat> {
    if file.executed.Some? then file.executed.value else {}
  }

  function GuardOf(file: TestFile, site: AssertSite): Guard {
    Guard(file.path, site.line, site.reason, site.line in Lines(file))
  }

  function Guards(file: TestFile): seq<Guard> {
    seq(|file.asserts|, i requires 0 <= i < |file.asserts| => GuardOf(file, file.asserts[i]))
  }

  function Blind(file: TestFile, n: nat): seq<Guard>
    requires n <= |file.asserts|
  {
    if n == 0 then []
    else
      Blind(file, n - 1) +
      if file.asserts[n - 1].comprehends then [GuardOf(file, file.asserts[n - 1])] else []
  }

  function LoopOf(file: TestFile, site: LoopSite): Loop {
    Loop(file.path, site.line, site.reason, site.turned, site.statement in Lines(file))
  }

  function Loops(file: TestFile): seq<Loop> {
    seq(|file.loops|, i requires 0 <= i < |file.loops| => LoopOf(file, file.loops[i]))
  }

  datatype FileClass = Unparsed | Moved | Unmeasured | Idle | Judged

  /** Each file is in exactly one class; `Idle` was not imported and asserts
      nothing. */
  function ClassOf(file: TestFile, taken: Option<int>): FileClass {
    if !file.parses then Unparsed
    else if taken.Some? && file.written > taken.value then Moved
    else if file.executed.Some? then Judged
    else if file.asserts != [] then Unmeasured
    else Idle
  }

  datatype GuardClass = Healthy | Stale | Declared | Finding

  function GuardClassOf(guard: Guard): GuardClass {
    if guard.evaluated then (if guard.reason.Some? then Stale else Healthy)
    else if guard.reason.Some? then Declared
    else Finding
  }

  datatype LoopClass = Undecidable | Turned | TurnedStale | Unreached | LoopDeclared | LoopFinding

  function LoopClassOf(loop: Loop): LoopClass {
    if loop.turned.None? then Undecidable
    else if loop.turned.value then (if loop.reason.Some? then TurnedStale else Turned)
    else if !loop.reached then Unreached
    else if loop.reason.Some? then LoopDeclared
    else LoopFinding
  }

  // ---- The sweep as one definition over the files ---------------------------------------

  function GuardsIn(class_: GuardClass, guards: seq<Guard>): seq<Guard> {
    if guards == [] then []
    else
      GuardsIn(class_, guards[..|guards| - 1]) +
      if GuardClassOf(guards[|guards| - 1]) == class_ then [guards[|guards| - 1]] else []
  }

  function LoopsIn(class_: LoopClass, loops: seq<Loop>): seq<Loop> {
    if loops == [] then []
    else
      LoopsIn(class_, loops[..|loops| - 1]) +
      if LoopClassOf(loops[|loops| - 1]) == class_ then [loops[|loops| - 1]] else []
  }

  function PathsIn(class_: FileClass, files: seq<TestFile>, taken: Option<int>): seq<string> {
    if files == [] then []
    else
      PathsIn(class_, files[..|files| - 1], taken) +
      if ClassOf(files[|files| - 1], taken) == class_ then [files[|files| - 1].path] else []
  }

  /** The asserts of every judged file, in order. */
  function JudgedGuards(files: seq<TestFile>, taken: Option<int>): seq<Guard> {
    if files == [] then []
    else
      JudgedGuards(files[..|files| - 1], taken) +
      if ClassOf(files[|files| - 1], taken).Judged? then Guards(files[|files| - 1]) else []
  }

  function JudgedLoops(files: seq<TestFile>, taken: Option<int>): seq<Loop> {
    if files == [] then []
    else
      JudgedLoops(files[..|files| - 1], taken) +
      if ClassOf(files[|files| - 1], taken).Judged? then Loops(files[|files| - 1]) else []
  }

  /** Counted over everything that parses, whatever the run measured. */
  function AssertCount(files: seq<TestFile>): nat {
    if files == [] then 0
    else AssertCount(files[..|files| - 1]) + if files[|files| - 1].parses then |files[|files| - 1].asserts| else 0
  }

  function BlindGuards(files: seq<TestFile>): seq<Guard> {
    if files == [] then []
    else
      BlindGuards(files[..|files| - 1]) +
      if files[|files| - 1].parses then Blind(files[|files| - 1], |files[|files| - 1].asserts|) else []
  }

  /** Every list is one class of the judged asserts. */
  function GuardListsOf(guards: seq<Guard>): GuardLists {
    GuardLists(GuardsIn(Finding, guards), GuardsIn(Declared, guards), GuardsIn(Stale, guards))
  }

  function LoopListsOf(loops: seq<Loop>): LoopLists {
    LoopLists(LoopsIn(LoopFinding, loops), LoopsIn(LoopDeclared, loops), LoopsIn(TurnedStale, loops),
              LoopsIn(Undecidable, loops), |loops|, |LoopsIn(Turned, loops)| + |LoopsIn(TurnedStale, loops)|)
  }

  function FileListsOf(files: seq<TestFile>, taken: Option<int>): FileLists {
    FileLists(PathsIn(Unmeasured, files, taken), PathsIn(Unparsed, files, taken), PathsIn(Moved, files, taken))
  }

  /** The populations a sweep draws its lists from. */
  datatype Populations = Populations(
    guards: seq<Guard>, loops: seq<Loop>, files: FileLists, asserts: nat, blind: seq<Guard>)

  function PopulationsOf(files: seq<TestFile>, taken: Option<int>): Populations {
    Populations(JudgedGuards(files, taken), JudgedLoops(files, taken), FileListsOf(files, taken),
                AssertCount(files), BlindGuards(files))
  }

  function ReportOf(p: Populations, arcs: bool): Report {
    Report(GuardListsOf(p.guards), if arcs then LoopListsOf(p.loops) else NO_LOOPS, p.files, p.asserts, p.blind, false)
  }

  /** What the sweep reports, as one definition over the files. */
  function SweepOf(files: seq<TestFile>, taken: Option<int>, arcs: bool): Report {
    ReportOf(PopulationsOf(files, taken), arcs)
  }

  // ---- The sweep as the code runs it ------------------------------------------------------

  method JudgeGuards(lists: GuardLists, ghost before: seq<Guard>, guards: seq<Guard>) returns (lists': GuardLists)
    requires lists == GuardListsOf(before)
    ensures lists' == GuardListsOf(before + guards)
  {
    var findings, declared, stale := lists.findings, lists.declared, lists.stale;
    assert before + guards[..0] == before;
    for i := 0 to |guards|
      invariant GuardLists(findings, declared, stale) == GuardListsOf(before + guards[..i])
    {
      var guard := guards[i];
      OneMoreGuard(before + guards[..i], guard);
      assert before + guards[..i] + [guard] == before + guards[..i + 1];
      if guard.evaluated {
        if guard.reason.Some? {
          stale := stale + [guard];
        }
      } else if guard.reason.Some? {
        declared := declared + [guard];
      } else {
        findings := findings + [guard];
      }
    }
    assert before + guards[..|guards|] == before + guards;
    lists' := GuardLists(findings, declared, stale);
  }

  lemma OneMoreGuard(guards: seq<Guard>, guard: Guard)
    ensures var lists := GuardListsOf(guards);
      GuardListsOf(guards + [guard]) ==
      match GuardClassOf(guard)
      case Finding => lists.(findings := lists.findings + [guard])
      case Declared => lists.(declared := lists.declared + [guard])
      case Stale => lists.(stale := lists.stale + [guard])
      case Healthy => lists
  {
    assert (guards + [guard])[..|guards|] == guards;
  }

  method JudgeLoops(lists: LoopLists, ghost before: seq<Loop>, loops: seq<Loop>) returns (lists': LoopLists)
    requires lists == LoopListsOf(before)
    ensures lists' == LoopListsOf(before + loops)
  {
    lists' := lists;
    assert before + loops[..0] == before;
    for i := 0 to |loops|
      invariant lists' == LoopListsOf(before + loops[..i])
    {
      var loop := loops[i];
      OneMoreLoop(before + loops[..i], loop);
      assert before + loops[..i] + [loop] == before + loops[..i + 1];
      lists' := lists'.(judged := lists'.judged + 1);
      if loop.turned.None? {
        lists' := lists'.(undecidable := lists'.undecidable + [loop]);
      } else if loop.turned.value {
        lists' := lists'.(turned := lists'.turned + 1);
        if loop.reason.Some? {
          lists' := lists'.(stale := lists'.stale + [loop]);
        }
      } else if !loop.reached {
      } else if loop.reason.Some? {
        lists' := lists'.(declared := lists'.declared + [loop]);
      } else {
        lists' := lists'.(findings := lists'.findings + [loop]);
      }
    }
    assert before + loops[..|loops|] == before + loops;
  }

  lemma OneMoreLoop(loops: seq<Loop>, loop: Loop)
    ensures var lists := LoopListsOf(loops).(judged := |loops| + 1);
      LoopListsOf(loops + [loop]) ==
      match LoopClassOf(loop)
      case Undecidable => lists.(undecidable := lists.undecidable + [loop])
      case Turned => lists.(turned := lists.turned + 1)
      case TurnedStale => lists.(turned := lists.turned + 1, stale := lists.stale + [loop])
      case Unreached => lists
      case LoopDeclared => lists.(declared := lists.declared + [loop])
      case LoopFinding => lists.(findings := lists.findings + [loop])
  {
    assert (loops + [loop])[..|loops|] == loops;
  }

  /** The populations with one more file. */
  function Extend(p: Populations, file: TestFile, taken: Option<int>): Populations {
    var q :=
      if file.parses then p.(asserts := p.asserts + |file.asserts|, blind := p.blind + Blind(file, |file.asserts|))
      else p;
    match ClassOf(file, taken)
    case Unparsed => q.(files := q.files.(unparsed := q.files.unparsed + [file.path]))
    case Moved => q.(files := q.files.(moved := q.files.moved + [file.path]))
    case Unmeasured => q.(files := q.files.(unmeasured := q.files.unmeasured + [file.path]))
    case Idle => q
    case Judged => q.(guards := q.guards + Guards(file), loops := q.loops + Loops(file))
  }

  lemma OneMoreFile(files: seq<TestFile>, file: TestFile, taken: Option<int>)
    ensures PopulationsOf(files + [file], taken) == Extend(PopulationsOf(files, taken), file, taken)
  {
    assert (files + [file])[..|files|] == files;
  }

  /** The body of the loop over the files. */
  method SweepOne(r: Report, ghost p: Populations, file: TestFile, taken: Option<int>, arcs: bool) returns (r': Report)
    requires r == ReportOf(p, arcs)
    ensures r' == ReportOf(Extend(p, file, taken), arcs)
  {
    if !file.parses {
      return r.(files := r.files.(unparsed := r.files.unparsed + [file.path]));
    }
    r' := r.(asserts := r.asserts + |file.asserts|, comprehension := r.comprehension + Blind(file, |file.asserts|));
    if taken.Some? && file.written > taken.value {
      return r'.(files := r.files.(moved := r.files.moved + [file.path]));
    }
    if file.executed.None? {
      if file.asserts != [] {
        r' := r'.(files := r.files.(unmeasured := r.files.unmeasured + [file.path]));
      }
      return;
    }
    var guards := JudgeGuards(r.guards, p.guards, Guards(file));
    var loops := r.loops;
    if arcs {
      loops := JudgeLoops(r.loops, p.loops, Loops(file));
    }
    r' := r'.(guards := guards, loops := loops);
  }

  /** `sweep`, over the files under the root.  `report` and `arcsRead` say
      whether the two artefacts could be read; `taken` is when the report was
      written, if it says. */
  method SweepFiles(files: seq<TestFile>, report: bool, arcs: bool, arcsRead: bool, taken: Option<int>)
    returns (r: Report)
    ensures !report || (arcs && !arcsRead) ==> VerdictOf(r) == Unknown && r == EMPTY.(problem := true)
    ensures report && (arcs ==> arcsRead) ==> r == SweepOf(files, taken, arcs)
  {
    if !report || (arcs && !arcsRead) {
      return EMPTY.(problem := true);
    }
    r := EMPTY;
    ghost var p := PopulationsOf([], taken);
    for i := 0 to |files|
      invariant p == PopulationsOf(files[..i], taken)
      invariant r == ReportOf(p, arcs)
    {
      r := SweepOne(r, p, files[i], taken, arcs);
      OneMoreFile(files[..i], files[i], taken);
      assert files[..i] + [files[i]] == files[..i + 1];
      p := Extend(p, files[i], taken);
    }
    assert files[..|files|] == files;
  }

  // ---- What it means ------------------------------------------------------------------------

  lemma {:induction false} InClass(class_: GuardClass, guards: seq<Guard>, guard: Guard)
    ensures guard in GuardsIn(class_, guards) <==> guard in guards && GuardClassOf(guard) == class_
  {
    if guards != [] {
      InClass(class_, guards[..|guards| - 1], guard);
      assert guards == guards[..|guards| - 1] + [guards[|guards| - 1]];
    }
  }

  lemma {:induction false} InLoopClass(class_: LoopClass, loops: seq<Loop>, loop: Loop)
    ensures loop in LoopsIn(class_, loops) <==> loop in loops && LoopClassOf(loop) == class_
  {
    if loops != [] {
      InLoopClass(class_, loops[..|loops| - 1], loop);
      assert loops == loops[..|loops| - 1] + [loops[|loops| - 1]];
    }
  }

  lemma {:induction false} NoneInClass(class_: FileClass, files: seq<TestFile>, taken: Option<int>)
    ensures PathsIn(class_, files, taken) == [] <==> forall i | 0 <= i < |files| :: ClassOf(files[i], taken) != class_
  {
    if files != [] {
      NoneInClass(class_, files[..|files| - 1], taken);
    }
  }

  lemma {:induction false} JudgedGuard(files: seq<TestFile>, taken: Option<int>, guard: Guard)
    ensures guard in JudgedGuards(files, taken) <==>
      exists i :: 0 <= i < |files| && ClassOf(files[i], taken).Judged? && guard in Guards(files[i])
  {
    if files != [] {
      JudgedGuard(files[..|files| - 1], taken, guard);
    }
  }

  lemma {:induction false} JudgedLoop(files: seq<TestFile>, taken: Option<int>, loop: Loop)
    ensures loop in JudgedLoops(files, taken) <==>
      exists i :: 0 <= i < |files| && ClassOf(files[i], taken).Judged? && loop in Loops(files[i])
  {
    if files != [] {
      JudgedLoop(files[..|files| - 1], taken, loop);
    }
  }

  /** The file could be read at this run's offsets, and was measured if it
      asserts anything. */
  predicate Seen(file: TestFile, taken: Option<int>) {
    && file.parses
    && !(taken.Some? && file.written > taken.value)
    && (file.asserts != [] ==> file.executed.Some?)
  }

  /** The assert ran, or the file says why it may not. */
  predicate Accounted(file: TestFile, site: AssertSite) {
    site.reason.Some? || (file.executed.Some? && site.line in file.executed.value)
  }

  /** The comprehension turned, cannot be decided, is declared, or sits in a
      statement that did not run. */
  predicate LoopAccounted(file: TestFile, site: LoopSite) {
    site.turned != Some(false) || site.reason.Some? || site.statement !in Lines(file)
  }

  lemma AllSeen(files: seq<TestFile>, taken: Option<int>)
    ensures
      PathsIn(Unparsed, files, taken) == PathsIn(Moved, files, taken) == PathsIn(Unmeasured, files, taken) == [] <==>
      forall i | 0 <= i < |files| :: Seen(files[i], taken)
  {
    NoneInClass(Unparsed, files, taken);
    NoneInClass(Moved, files, taken);
    NoneInClass(Unmeasured, files, taken);
  }

  /** `match`, in full: exactly when every file was seen, every assert of every
      file ran or is declared, and, when arcs were read, every comprehension of
      a measured file is accounted for. */
  lemma MatchMeans(files: seq<TestFile>, taken: Option<int>, arcs: bool)
    ensures VerdictOf(SweepOf(files, taken, arcs)) == Match <==>
      && (forall i | 0 <= i < |files| :: Seen(files[i], taken))
      && (forall i, k | 0 <= i < |files| && 0 <= k < |files[i].asserts| :: Accounted(files[i], files[i].asserts[k]))
      && (arcs ==> forall i, k | 0 <= i < |files| && files[i].executed.Some? && 0 <= k < |files[i].loops| ::
            LoopAccounted(files[i], files[i].loops[k]))
  {
    AllSeen(files, taken);
    if forall i | 0 <= i < |files| :: Seen(files[i], taken) {
      NoFindingMeans(files, taken);
      NoLoopFindingMeans(files, taken);
    }
  }

  /** The measured run accounts for everything the files hold. */
  ghost predicate AllAccountedFor(files: seq<TestFile>, arcs: bool) {
    && (forall i, k | 0 <= i < |files| && 0 <= k < |files[i].asserts| :: Accounted(files[i], files[i].asserts[k]))
    && (arcs ==> forall i, k | 0 <= i < |files| && files[i].executed.Some? && 0 <= k < |files[i].loops| ::
          LoopAccounted(files[i], files[i].loops[k]))
  }

  ghost predicate AllFilesSeen(files: seq<TestFile>, taken: Option<int>) {
    forall i | 0 <= i < |files| :: Seen(files[i], taken)
  }

  /** All three verdicts, over the files: unknown exactly when some file was not
      seen; otherwise mismatch exactly when something in the files is not
      accounted for, and match exactly when everything is. */
  lemma VerdictMeans(files: seq<TestFile>, taken: Option<int>, arcs: bool)
    ensures var verdict := VerdictOf(SweepOf(files, taken, arcs));
      && (verdict == Unknown <==> !AllFilesSeen(files, taken))
      && (verdict == Mismatch <==> AllFilesSeen(files, taken) && !AllAccountedFor(files, arcs))
      && (verdict == Match <==> AllFilesSeen(files, taken) && AllAccountedFor(files, arcs))
  {
    AllSeen(files, taken);
    MatchMeans(files, taken, arcs);
    if AllFilesSeen(files, taken) {
      NoFindingMeans(files, taken);
      NoLoopFindingMeans(files, taken);
    }
  }

  lemma NoFindingMeans(files: seq<TestFile>, taken: Option<int>)
    requires forall i | 0 <= i < |files| :: Seen(files[i], taken)
    ensures GuardsIn(Finding, JudgedGuards(files, taken)) == [] <==>
      forall i, k | 0 <= i < |files| && 0 <= k < |files[i].asserts| :: Accounted(files[i], files[i].asserts[k])
  {
    FindingsEmpty(files, taken);
    forall i, k | 0 <= i < |files| && 0 <= k < |files[i].asserts|
      ensures ClassOf(files[i], taken).Judged?
      ensures GuardClassOf(GuardOf(files[i], files[i].asserts[k])) != Finding <==>
        Accounted(files[i], files[i].asserts[k])
    {
      assert Seen(files[i], taken);
    }
  }

  lemma NoLoopFindingMeans(files: seq<TestFile>, taken: Option<int>)
    requires forall i | 0 <= i < |files| :: Seen(files[i], taken)
    ensures LoopsIn(LoopFinding, JudgedLoops(files, taken)) == [] <==>
      forall i, k | 0 <= i < |files| && files[i].executed.Some? && 0 <= k < |files[i].loops| ::
        LoopAccounted(files[i], files[i].loops[k])
  {
    LoopFindingsEmpty(files, taken);
    forall i, k | 0 <= i < |files| && 0 <= k < |files[i].loops|
      ensures ClassOf(files[i], taken).Judged? <==> files[i].executed.Some?
      ensures LoopClassOf(LoopOf(files[i], files[i].loops[k])) != LoopFinding <==>
        LoopAccounted(files[i], files[i].loops[k])
    {
      assert Seen(files[i], taken);
    }
  }

  /** No finding: every assert of every judged file is of another class. */
  lemma FindingsEmpty(files: seq<TestFile>, taken: Option<int>)
    ensures GuardsIn(Finding, JudgedGuards(files, taken)) == [] <==>
      forall i, k | 0 <= i < |files| && ClassOf(files[i], taken).Judged? && 0 <= k < |files[i].asserts| ::
        GuardClassOf(GuardOf(files[i], files[i].asserts[k])) != Finding
  {
    var guards := JudgedGuards(files, taken);
    var findings := GuardsIn(Finding, guards);
    if findings != [] {
      InClass(Finding, guards, findings[0]);
      JudgedGuard(files, taken, findings[0]);
      var i :| 0 <= i < |files| && ClassOf(files[i], taken).Judged? && findings[0] in Guards(files[i]);
      var k :| 0 <= k < |Guards(files[i])| && Guards(files[i])[k] == findings[0];
      assert GuardClassOf(GuardOf(files[i], files[i].asserts[k])) == Finding;
    } else {
      forall i, k | 0 <= i < |files| && ClassOf(files[i], taken).Judged? && 0 <= k < |files[i].asserts|
        ensures GuardClassOf(GuardOf(files[i], files[i].asserts[k])) != Finding
      {
        var guard := Guards(files[i])[k];
        assert guard in Guards(files[i]);
        JudgedGuard(files, taken, guard);
        InClass(Finding, guards, guard);
      }
    }
  }

  lemma LoopFindingsEmpty(files: seq<TestFile>, taken: Option<int>)
    ensures LoopsIn(LoopFinding, JudgedLoops(files, taken)) == [] <==>
      forall i, k | 0 <= i < |files| && ClassOf(files[i], taken).Judged? && 0 <= k < |files[i].loops| ::
        LoopClassOf(LoopOf(files[i], files[i].loops[k])) != LoopFinding
  {
    var loops := JudgedLoops(files, taken);
    var findings := LoopsIn(LoopFinding, loops);
    if findings != [] {
      InLoopClass(LoopFinding, loops, findings[0]);
      JudgedLoop(files, taken, findings[0]);
      var i :| 0 <= i < |files| && ClassOf(files[i], taken).Judged? && findings[0] in Loops(files[i]);
      var k :| 0 <= k < |Loops(files[i])| && Loops(files[i])[k] == findings[0];
      assert LoopClassOf(LoopOf(files[i], files[i].loops[k])) == LoopFinding;
    } else {
      forall i, k | 0 <= i < |files| && ClassOf(files[i], taken).Judged? && 0 <= k < |files[i].loops|
        ensures LoopClassOf(LoopOf(files[i], files[i].loops[k])) != LoopFinding
      {
        var loop := Loops(files[i])[k];
        assert loop in Loops(files[i]);
        JudgedLoop(files, taken, loop);
        InLoopClass(LoopFinding, loops, loop);
      }
    }
  }

  // ---- Nothing is lost, nothing is counted twice --------------------------------------------

  lemma {:induction false} GuardsConserved(guards: seq<Guard>)
    ensures |GuardsIn(Healthy, guards)| + |GuardsIn(Stale, guards)| + |GuardsIn(Declared, guards)|
          + |GuardsIn(Finding, guards)| == |guards|
  {
    if guards != [] {
      GuardsConserved(guards[..|guards| - 1]);
    }
  }

  lemma {:induction false} LoopsConserved(loops: seq<Loop>)
    ensures |LoopsIn(Undecidable, loops)| + |LoopsIn(Turned, loops)| + |LoopsIn(TurnedStale, loops)|
          + |LoopsIn(Unreached, loops)| + |LoopsIn(LoopDeclared, loops)| + |LoopsIn(LoopFinding, loops)| == |loops|
  {
    if loops != [] {
      LoopsConserved(loops[..|loops| - 1]);
    }
  }

  lemma {:induction false} FilesConserved(files: seq<TestFile>, taken: Option<int>)
    ensures |PathsIn(Unparsed, files, taken)| + |PathsIn(Moved, files, taken)| + |PathsIn(Unmeasured, files, taken)|
          + |PathsIn(Idle, files, taken)| + |PathsIn(Judged, files, taken)| == |files|
  {
    if files != [] {
      FilesConserved(files[..|files| - 1], taken);
    }
  }

  /** When every file was seen, the asserts counted are the asserts judged. */
  lemma {:induction false} AllJudged(files: seq<TestFile>, taken: Option<int>)
    requires forall i | 0 <= i < |files| :: Seen(files[i], taken)
    ensures |JudgedGuards(files, taken)| == AssertCount(files)
  {
    if files != [] {
      assert Seen(files[|files| - 1], taken);
      AllJudged(files[..|files| - 1], taken);
    }
  }

  /** The population is conserved: each file is in one class, each judged
      assert is evaluated-and-quiet, stale, declared or a finding, each judged
      comprehension in one of six classes, and the published counts add up. */
  lemma PopulationConserved(files: seq<TestFile>, taken: Option<int>, arcs: bool)
    ensures var r := SweepOf(files, taken, arcs);
      var quiet := |GuardsIn(Healthy, JudgedGuards(files, taken))|;
      && |r.files.unparsed| + |r.files.moved| + |r.files.unmeasured|
         + |PathsIn(Idle, files, taken)| + |PathsIn(Judged, files, taken)| == |files|
      && quiet + |r.guards.stale| + |r.guards.declared| + |r.guards.findings| == |JudgedGuards(files, taken)|
      && ((forall i | 0 <= i < |files| :: Seen(files[i], taken)) ==> |JudgedGuards(files, taken)| == r.asserts)
      && (arcs ==>
            r.loops.judged == |r.loops.undecidable| + r.loops.turned + |LoopsIn(Unreached, JudgedLoops(files, taken))|
                            + |r.loops.declared| + |r.loops.findings|)
  {
    FilesConserved(files, taken);
    GuardsConserved(JudgedGuards(files, taken));
    LoopsConserved(JudgedLoops(files, taken));
    if forall i | 0 <= i < |files| :: Seen(files[i], taken) {
      AllJudged(files, taken);
    }
  }

  // ---- What each list holds ------------------------------------------------------------------

  /** The assert at `k` of file `i`, which was judged, is the one reported. */
  predicate Reports(files: seq<TestFile>, taken: Option<int>, i: nat, k: nat, guard: Guard) {
    && i < |files| && ClassOf(files[i], taken).Judged? && k < |files[i].asserts|
    && guard.path == files[i].path && guard.line == files[i].asserts[k].line
    && guard.reason == files[i].asserts[k].reason
    && (guard.evaluated <==> files[i].executed.Some? && files[i].asserts[k].line in files[i].executed.value)
  }

  predicate ReportsLoop(files: seq<TestFile>, taken: Option<int>, i: nat, k: nat, loop: Loop) {
    && i < |files| && ClassOf(files[i], taken).Judged? && k < |files[i].loops|
    && loop.path == files[i].path && loop.line == files[i].loops[k].line
    && loop.reason == files[i].loops[k].reason && loop.turned == files[i].loops[k].turned
    && (loop.reached <==> files[i].executed.Some? && files[i].loops[k].statement in files[i].executed.value)
  }

  lemma JudgedExactly(files: seq<TestFile>, taken: Option<int>, guard: Guard)
    ensures guard in JudgedGuards(files, taken) <==> exists i: nat, k: nat :: Reports(files, taken, i, k, guard)
  {
    JudgedGuard(files, taken, guard);
    if i :| 0 <= i < |files| && ClassOf(files[i], taken).Judged? && guard in Guards(files[i]) {
      var k :| 0 <= k < |files[i].asserts| && Guards(files[i])[k] == guard;
      assert Reports(files, taken, i, k, guard);
    }
    if i: nat, k: nat :| Reports(files, taken, i, k, guard) {
      assert Guards(files[i])[k] == guard;
    }
  }

  lemma JudgedLoopExactly(files: seq<TestFile>, taken: Option<int>, loop: Loop)
    ensures loop in JudgedLoops(files, taken) <==> exists i: nat, k: nat :: ReportsLoop(files, taken, i, k, loop)
  {
    JudgedLoop(files, taken, loop);
    if i :| 0 <= i < |files| && ClassOf(files[i], taken).Judged? && loop in Loops(files[i]) {
      var k :| 0 <= k < |files[i].loops| && Loops(files[i])[k] == loop;
      assert ReportsLoop(files, taken, i, k, loop);
    }
    if i: nat, k: nat :| ReportsLoop(files, taken, i, k, loop) {
      assert Loops(files[i])[k] == loop;
    }
  }

  /** Of the judged asserts: those that never ran and are not declared are the
      findings, those that never ran and are declared the declarations, and those
      that ran although declared otherwise the stale ones. */
  lemma GuardListsMean(files: seq<TestFile>, taken: Option<int>, arcs: bool, guard: Guard)
    ensures var r := SweepOf(files, taken, arcs).guards;
      var judged := exists i: nat, k: nat :: Reports(files, taken, i, k, guard);
      && (guard in r.findings <==> judged && !guard.evaluated && guard.reason.None?)
      && (guard in r.declared <==> judged && !guard.evaluated && guard.reason.Some?)
      && (guard in r.stale <==> judged && guard.evaluated && guard.reason.Some?)
  {
    JudgedExactly(files, taken, guard);
    var guards := JudgedGuards(files, taken);
    InClass(Finding, guards, guard);
    InClass(Declared, guards, guard);
    InClass(Stale, guards, guard);
  }

  /** Likewise the comprehensions: undecidable ones apart, one that never turned
      in a statement that ran is a finding or a declaration, and one that turned
      although declared otherwise is stale. */
  lemma LoopListsMean(files: seq<TestFile>, taken: Option<int>, loop: Loop)
    ensures var r := SweepOf(files, taken, true).loops;
      var judged := exists i: nat, k: nat :: ReportsLoop(files, taken, i, k, loop);
      && (loop in r.findings <==> judged && loop.turned == Some(false) && loop.reached && loop.reason.None?)
      && (loop in r.declared <==> judged && loop.turned == Some(false) && loop.reached && loop.reason.Some?)
      && (loop in r.stale <==> judged && loop.turned == Some(true) && loop.reason.Some?)
      && (loop in r.undecidable <==> judged && loop.turned.None?)
  {
    JudgedLoopExactly(files, taken, loop);
    var loops := JudgedLoops(files, taken);
    InLoopClass(LoopFinding, loops, loop);
    InLoopClass(LoopDeclared, loops, loop);
    InLoopClass(TurnedStale, loops, loop);
    InLoopClass(Undecidable, loops, loop);
  }

  lemma {:induction false} PathsAre(class_: FileClass, files: seq<TestFile>, taken: Option<int>, path: string)
    ensures path in PathsIn(class_, files, taken) <==>
      exists i :: 0 <= i < |files| && ClassOf(files[i], taken) == class_ && files[i].path == path
  {
    if files != [] {
      var front, last := files[..|files| - 1], files[|files| - 1];
      PathsAre(class_, front, taken, path);
      if i :| 0 <= i < |front| && ClassOf(front[i], taken) == class_ && front[i].path == path {
        assert files[i] == front[i];
      }
      if i :| 0 <= i < |files| && ClassOf(files[i], taken) == class_ && files[i].path == path {
        assert i < |front| ==> front[i] == files[i];
      }
    }
  }

  /** And the files: those that do not parse; those written after the run; and
      those that assert something and were never imported by it. */
  lemma FileListsMean(files: seq<TestFile>, taken: Option<int>, arcs: bool, path: string)
    ensures var r := SweepOf(files, taken, arcs).files;
      && (path in r.unparsed <==> exists i :: 0 <= i < |files| && files[i].path == path && !files[i].parses)
      && (path in r.moved <==> exists i :: 0 <= i < |files| && files[i].path == path && Younger(files[i], taken))
      && (path in r.unmeasured <==> exists i :: 0 <= i < |files| && files[i].path == path && Unheard(files[i], taken))
  {
    PathsAre(Unparsed, files, taken, path);
    PathsAre(Moved, files, taken, path);
    PathsAre(Unmeasured, files, taken, path);
  }

  predicate Younger(file: TestFile, taken: Option<int>) {
    file.parses && taken.Some? && file.written > taken.value
  }

  predicate Unheard(file: TestFile, taken: Option<int>) {
    file.parses && !Younger(file, taken) && file.asserts != [] && file.executed.None?
  }

  lemma {:induction false} BlindAre(file: TestFile, n: nat, guard: Guard)
    requires n <= |file.asserts|
    ensures guard in Blind(file, n) <==>
      exists k :: 0 <= k < n && file.asserts[k].comprehends && guard == GuardOf(file, file.asserts[k])
  {
    if n > 0 {
      BlindAre(file, n - 1, guard);
    }
  }

  /** The blind asserts are those holding a comprehension, in every file that
      parses, whatever the run measured. */
  lemma {:induction false} BlindMeans(files: seq<TestFile>, guard: Guard)
    ensures guard in BlindGuards(files) <==>
      exists i, k :: 0 <= i < |files| && files[i].parses && 0 <= k < |files[i].asserts|
                     && files[i].asserts[k].comprehends && guard == GuardOf(files[i], files[i].asserts[k])
  {
    if files != [] {
      var n := |files| - 1;
      BlindMeans(files[..n], guard);
      BlindAre(files[n], |files[n].asserts|, guard);
    }
  }

  /** The blind count does not shrink when the run measured less: it depends on
      the trees alone. */
  lemma {:induction false} BlindCountIsOfTheTree(files: seq<TestFile>, others: seq<TestFile>)
    requires |files| == |others|
    requires forall i | 0 <= i < |files| :: files[i].parses == others[i].parses && files[i].asserts == others[i].asserts
    ensures |BlindGuards(files)| == |BlindGuards(others)| && AssertCount(files) == AssertCount(others)
  {
    if files != [] {
      var n := |files| - 1;
      BlindCountIsOfTheTree(files[..n], others[..n]);
      BlindCount(files[n], others[n], |files[n].asserts|);
    }
  }

  lemma {:induction false} BlindCount(file: TestFile, other: TestFile, n: nat)
    requires file.asserts == other.asserts && n <= |file.asserts|
    ensures |Blind(file, n)| == |Blind(other, n)|
  {
    if n > 0 {
      BlindCount(file, other, n - 1);
    }
  }
}
