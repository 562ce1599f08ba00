/** The population `check_deploy` compares mtimes over: the modules the
    daemon's import graph reaches (sysadmin/ops_claims.py, `daemon_modules`,
    `_imported_names`, `_ancestry`, `newest_source`, `check_deploy`). */
module ImportGraph {
  import opened Ordering
  import opened Dotted
  import opened Verdicts

  const PACKAGE := "sysadmin"
  const ROOT := "sysadmin.main"

  /** An import statement anywhere in a module: `import a, b`, or
      `from ..module import a, b` with the dots counted. */
  datatype ImportStmt = Plain(names: seq<string>) | From(level: nat, target: string, names: seq<string>)

  /** A module's source: it does not parse, or it is a tree of which only the
      imports matter. */
  datatype Source = Broken | Parsed(isInit: bool, imports: seq<ImportStmt>)

  /** Dotted module name to source, for every file under the package. */
  type Files = map<string, Source>

  // ---- What an import names -----------------------------------------------------------

  /** The package a relative import starts from: an `__init__` is its own
      package, any other module's is the one above it. */
  function PackageOf(me: string, isInit: bool): string {
    if isInit then me else Join(Split(me)[..|Split(me)| - 1])
  }

  /** `parts[: -(level - 1) or None]`: Python's negative slice, which drops
      nothing at level 1 and never fails. */
  function Climb(parts: seq<string>, level: nat): seq<string>
    requires level >= 1
  {
    if level - 1 <= |parts| then parts[..|parts| - (level - 1)] else []
  }

  function TargetModule(me: string, isInit: bool, stmt: ImportStmt): string
    requires stmt.From?
  {
    if stmt.level > 0 then
      Join(Climb(Split(PackageOf(me, isInit)), stmt.level) + if stmt.target != "" then [stmt.target] else [])
    else stmt.target
  }

  /** Both readings of a `from` target: the module, and the module's attribute
      that may itself be a module. */
  function Named(me: string, isInit: bool, stmt: ImportStmt): set<string> {
    match stmt
    case Plain(names) => Elements(names)
    case From(_, _, names) =>
      var base := TargetModule(me, isInit, stmt);
      {base} + set k | 0 <= k < |names| :: base + "." + names[k]
  }

  predicate OurPackage(name: string) {
    TextUnder(PACKAGE, name)
  }

  function Imported(me: string, isInit: bool, imports: seq<ImportStmt>): set<string> {
    set k, name | 0 <= k < |imports| && name in Named(me, isInit, imports[k]) && OurPackage(name) :: name
  }

  method ImportedNames(me: string, isInit: bool, imports: seq<ImportStmt>) returns (names: set<string>)
    ensures names == Imported(me, isInit, imports)
  {
    names := {};
    for i := 0 to |imports|
      invariant forall name :: name in names <==> exists k :: 0 <= k < i && name in Named(me, isInit, imports[k])
    {
      names := names + Named(me, isInit, imports[i]);
    }
    names := set name | name in names && OurPackage(name);
  }

  /** Relative levels as PEP 328 defines them: one dot is the current package,
      each further dot one package up, for as many dots as there are packages. */
  lemma RelativeLevels(parts: seq<string>, me: string, isInit: bool, level: nat, target: seq<string>)
    requires |parts| >= 1 && IsKeyPath(parts) && IsKeyPath(target) && |target| >= 1
    requires PackageOf(me, isInit) == Join(parts)
    requires 1 <= level <= |parts|
    ensures TargetModule(me, isInit, From(level, Join(target), [])) == Join(parts[..|parts| - (level - 1)] + target)
  {
    SplitJoin(parts);
    JoinNonEmpty(target);
    var base := parts[..|parts| - (level - 1)];
    JoinAppend(base, [Join(target)]);
    JoinAppend(base, target);
  }

  /** More dots than packages: Python refuses such an import; this walk reads
      it as an absolute one, which can only widen the population. */
  lemma TooManyDots(parts: seq<string>, me: string, isInit: bool, level: nat, target: string)
    requires |parts| >= 1 && IsKeyPath(parts) && PackageOf(me, isInit) == Join(parts)
    requires level > |parts| && target != ""
    ensures TargetModule(me, isInit, From(level, target, [])) == target
  {
    SplitJoin(parts);
    assert Climb(parts, level) == [];
    assert Climb(parts, level) + [target] == [target];
  }

  /** `_ancestry`: the name and every package above it, innermost first. */
  function Ancestry(name: string): seq<string> {
    Joined(Split(name))
  }

  function Joined(parts: seq<string>): seq<string> {
    if parts == [] then [] else [Join(parts)] + Joined(parts[..|parts| - 1])
  }

  lemma {:induction false} JoinedArePrefixes(parts: seq<string>, candidate: string)
    requires forall i | 0 <= i < |parts| :: '.' !in parts[i]
    ensures candidate in Joined(parts) <==> Split(candidate) <= parts
  {
    if parts != [] {
      var front := parts[..|parts| - 1];
      JoinedArePrefixes(front, candidate);
      SplitJoin(parts);
      assert candidate == Join(parts) <==> Split(candidate) == parts;
      assert Split(candidate) <= parts <==> Split(candidate) == parts || Split(candidate) <= front;
    }
  }

  /** The ancestry is exactly the names whose components lead up to it. */
  lemma AncestryIsPrefixes(name: string, candidate: string)
    ensures candidate in Ancestry(name) <==> TextUnder(candidate, name)
  {
    TextUnderIsComponentPrefix(candidate, name);
    JoinedArePrefixes(Split(name), candidate);
  }

  // ---- The graph ------------------------------------------------------------------------

  /** `candidate` is executed when `name` is imported: some import names it or
      a module below it. */
  predicate Pulls(targets: set<string>, candidate: string) {
    exists t :: t in targets && TextUnder(candidate, t)
  }

  predicate Edge(files: Files, from_: string, to: string) {
    && from_ in files && files[from_].Parsed? && to in files
    && Pulls(Imported(from_, files[from_].isInit, files[from_].imports), to)
  }

  /** A chain of imports from the daemon's root, through modules that parse. */
  predicate IsChain(files: Files, chain: seq<string>) {
    && |chain| >= 1 && chain[0] == ROOT && ROOT in files
    && forall i | 0 <= i < |chain| - 1 :: Edge(files, chain[i], chain[i + 1])
  }

  ghost predicate Reaches(files: Files, name: string) {
    exists chain :: IsChain(files, chain) && chain[|chain| - 1] == name
  }

  /** A module reached through ones that parse does not parse itself. */
  ghost predicate BrokenReached(files: Files) {
    exists name :: Reaches(files, name) && name in files && files[name].Broken?
  }

  lemma ReachesRoot(files: Files)
    requires ROOT in files
    ensures Reaches(files, ROOT)
  {
    assert IsChain(files, [ROOT]);
  }

  lemma ReachesNext(files: Files, from_: string, to: string)
    requires Reaches(files, from_) && Edge(files, from_, to)
    ensures Reaches(files, to)
  {
    var chain :| IsChain(files, chain) && chain[|chain| - 1] == from_;
    assert IsChain(files, chain + [to]);
  }

  ghost predicate Closed(files: Files, names: set<string>) {
    && ROOT in names
    && forall from_, to | from_ in names && Edge(files, from_, to) :: to in names
  }

  lemma {:induction false} ChainStaysIn(files: Files, names: set<string>, chain: seq<string>)
    requires Closed(files, names) && IsChain(files, chain)
    ensures chain[|chain| - 1] in names
    decreases |chain|
  {
    if |chain| > 1 {
      ChainStaysIn(files, names, chain[..|chain| - 1]);
      assert Edge(files, chain[|chain| - 2], chain[|chain| - 1]);
    }
  }

  /** Reachability is the least closed set: it lies in every other one. */
  lemma ReachIsLeast(files: Files, names: set<string>, name: string)
    requires Closed(files, names) && Reaches(files, name)
    ensures name in names
  {
    var chain :| IsChain(files, chain) && chain[|chain| - 1] == name;
    ChainStaysIn(files, names, chain);
  }

  // ---- What a reached module's imports reach ---------------------------------------------------

  /** Ours are the package and what lies below it. */
  lemma OurPackageIs(name: string)
    ensures OurPackage(name) <==> name == "sysadmin" || exists rest: string :: name == "sysadmin." + rest
  {
    if OurPackage(name) && name != "sysadmin" {
      assert name == "sysadmin." + name[9..];
    }
    if rest: string :| name == "sysadmin." + rest {
      assert "sysadmin" + "." <= name;
    }
  }

  /** Whatever an import of a reached module may mean is reached, and so is every
      package above it. */
  lemma ImportIsFollowed(files: Files, me: string, k: nat, name: string, candidate: string)
    requires Reaches(files, me) && me in files && files[me].Parsed? && k < |files[me].imports|
    requires name in Named(me, files[me].isInit, files[me].imports[k]) && OurPackage(name)
    requires candidate in files && TextUnder(candidate, name)
    ensures Reaches(files, candidate)
  {
    assert name in Imported(me, files[me].isInit, files[me].imports);
    ReachesNext(files, me, candidate);
  }

  /** `from m import a`: the module `m` is followed, and `m.a` where that is a
      module itself. */
  lemma FromIsFollowed(files: Files, me: string, k: nat, j: nat, target: string, names: seq<string>)
    requires Reaches(files, me) && me in files && files[me].Parsed? && k < |files[me].imports| && j < |names|
    requires files[me].imports[k] == From(0, target, names)
    ensures target in files && OurPackage(target) ==> Reaches(files, target)
    ensures target + "." + names[j] in files && OurPackage(target + "." + names[j]) ==>
      Reaches(files, target + "." + names[j])
  {
    if target in files && OurPackage(target) {
      ImportIsFollowed(files, me, k, target, target);
    }
    if target + "." + names[j] in files && OurPackage(target + "." + names[j]) {
      ImportIsFollowed(files, me, k, target + "." + names[j], target + "." + names[j]);
    }
  }

  /** `import a, b`: each is followed. */
  lemma PlainIsFollowed(files: Files, me: string, k: nat, j: nat, names: seq<string>)
    requires Reaches(files, me) && me in files && files[me].Parsed? && k < |files[me].imports| && j < |names|
    requires files[me].imports[k] == Plain(names) && names[j] in files && OurPackage(names[j])
    ensures Reaches(files, names[j])
  {
    ImportIsFollowed(files, me, k, names[j], names[j]);
  }

  /** The components a relative import starts from. */
  function PackageParts(parts: seq<string>, isInit: bool): seq<string>
    requires |parts| >= 1
  {
    if isInit then parts else parts[..|parts| - 1]
  }

  /** An `__init__` is its own package; any other module's is the one above it. */
  lemma PackageIs(parts: seq<string>, isInit: bool)
    requires |parts| >= 1 && IsKeyPath(parts)
    ensures PackageOf(Join(parts), isInit) == Join(PackageParts(parts, isInit))
  {
    SplitJoin(parts);
    PackageOfSplit(Join(parts), isInit, parts);
  }

  lemma PackageOfSplit(me: string, isInit: bool, parts: seq<string>)
    requires |parts| >= 1 && Split(me) == parts && me == Join(parts)
    ensures PackageOf(me, isInit) == Join(PackageParts(parts, isInit))
  {
  }

  /** Everything a relative import names, component by component: `level - 1`
      packages up from its own, the module written there if any, and below it each
      of the names. */
  lemma RelativeNamed(parts: seq<string>, isInit: bool, level: nat, target: seq<string>, names: seq<string>,
                      name: string)
    requires |parts| >= 1 && IsKeyPath(parts) && IsKeyPath(target)
    requires 1 <= level <= |PackageParts(parts, isInit)|
    ensures var package := PackageParts(parts, isInit);
      var base := package[..|package| - (level - 1)] + target;
      name in Named(Join(parts), isInit, From(level, Join(target), names)) <==>
        name == Join(base) || exists j :: 0 <= j < |names| && name == Join(base + [names[j]])
  {
    var package := PackageParts(parts, isInit);
    var up := package[..|package| - (level - 1)];
    var base, stmt := up + target, From(level, Join(target), names);
    PackageIs(parts, isInit);
    assert TargetModule(Join(parts), isInit, stmt) == Join(base) by {
      SplitJoin(package);
      if target == [] {
        assert up + [] == up && base == up;
      } else {
        RelativeLevels(package, Join(parts), isInit, level, target);
      }
    }
    forall j | 0 <= j < |names| ensures Join(base) + "." + names[j] == Join(base + [names[j]]) {
      JoinAppend(base, [names[j]]);
    }
  }

  /** The components of what `name` means in a relative import. */
  function RelativeParts(parts: seq<string>, isInit: bool, level: nat, target: seq<string>, name: string): seq<string>
    requires |parts| >= 1 && 1 <= level <= |PackageParts(parts, isInit)|
  {
    var package := PackageParts(parts, isInit);
    package[..|package| - (level - 1)] + target + [name]
  }

  lemma RelativeNames(parts: seq<string>, isInit: bool, level: nat, target: seq<string>, names: seq<string>, j: nat)
    requires |parts| >= 1 && IsKeyPath(parts) && IsKeyPath(target) && j < |names|
    requires 1 <= level <= |PackageParts(parts, isInit)|
    ensures Join(RelativeParts(parts, isInit, level, target, names[j])) in
      Named(Join(parts), isInit, From(level, Join(target), names))
  {
    RelativeNamed(parts, isInit, level, target, names, Join(RelativeParts(parts, isInit, level, target, names[j])));
  }

  /** So a relative import that names a module of the package is followed. */
  lemma RelativeIsFollowed(files: Files, me: string, k: nat, stmt: ImportStmt, parts: seq<string>, target: seq<string>,
                           j: nat)
    requires me in files && Reaches(files, me) && files[me].Parsed? && k < |files[me].imports|
    requires files[me].imports[k] == stmt && stmt.From? && stmt.target == Join(target) && j < |stmt.names|
    requires |parts| >= 1 && IsKeyPath(parts) && me == Join(parts) && IsKeyPath(target)
    requires 1 <= stmt.level <= |PackageParts(parts, files[me].isInit)|
    ensures var module_ := Join(RelativeParts(parts, files[me].isInit, stmt.level, target, stmt.names[j]));
      module_ in files && OurPackage(module_) ==> Reaches(files, module_)
  {
    var module_ := Join(RelativeParts(parts, files[me].isInit, stmt.level, target, stmt.names[j]));
    if module_ in files && OurPackage(module_) {
      assert module_ in Named(me, files[me].isInit, stmt) by {
        RelativeNames(parts, files[me].isInit, stmt.level, target, stmt.names, j);
      }
      ImportIsFollowed(files, me, k, module_, module_);
    }
  }

  // ---- The worklist -----------------------------------------------------------------------

  /** The innermost loop: of the candidates, the files not seen yet join the
      queue. */
  method EnqueueUnseen(files: Files, seen: set<string>, queue: seq<string>, candidates: seq<string>)
    returns (queue': seq<string>)
    ensures forall name :: name in queue' <==> name in queue || (name in files && name !in seen && name in candidates)
  {
    queue' := queue;
    for k := 0 to |candidates|
      invariant forall name ::
        name in queue' <==> name in queue || (name in files && name !in seen && name in candidates[..k])
    {
      if candidates[k] in files && candidates[k] !in seen {
        queue' := queue' + [candidates[k]];
      }
    }
    assert candidates[..|candidates|] == candidates;
  }

  lemma PullsOneMore(targets: set<string>, target: string, name: string)
    ensures Pulls(targets + {target}, name) <==> Pulls(targets, name) || TextUnder(name, target)
  {
    if TextUnder(name, target) {
      assert target in targets + {target};
    }
  }

  /** The loop over the targets, in whatever order the set yields them. */
  method Enqueue(files: Files, seen: set<string>, queue: seq<string>, targets: set<string>)
    returns (queue': seq<string>)
    ensures forall name :: name in queue' <==> name in queue || (name in files && name !in seen && Pulls(targets, name))
  {
    queue' := queue;
    var rest := targets;
    ghost var done: set<string> := {};
    while rest != {}
      invariant done + rest == targets
      invariant forall name ::
        name in queue' <==> name in queue || (name in files && name !in seen && Pulls(done, name))
      decreases rest
    {
      var target :| target in rest;
      queue' := EnqueueUnseen(files, seen, queue', Ancestry(target));
      forall name
        ensures Pulls(done + {target}, name) <==> Pulls(done, name) || name in Ancestry(target)
      {
        PullsOneMore(done, target, name);
        AncestryIsPrefixes(target, name);
      }
      done := done + {target};
      rest := rest - {target};
    }
    assert done == targets;
  }

  /** `daemon_modules`: the walk is total or it is nothing. */
  method DaemonModules(files: Files) returns (reached: set<string>, problem: bool)
    ensures problem <==> ROOT !in files || BrokenReached(files)
    ensures problem ==> reached == {}
    ensures !problem ==> forall name :: name in reached <==> Reaches(files, name)
  {
    if ROOT !in files {
      return {}, true;
    }
    var seen: set<string> := {};
    var queue := [ROOT];
    ReachesRoot(files);
    while queue != []
      invariant Walking(files, seen, queue)
      decreases files.Keys - seen, |queue|
    {
      var name := queue[|queue| - 1];
      var rest := queue[..|queue| - 1];
      assert queue == rest + [name];
      if name in seen {
        WalkSkip(files, seen, rest, name);
        queue := rest;
        continue;
      }
      WalkHolds(files, seen, rest, name);
      if files[name].Broken? {
        return {}, true;
      }
      queue := Expand(files, seen, rest, name);
      seen := seen + {name};
    }
    WalkDone(files, seen);
    return seen, false;
  }

  /** What the walk keeps: everything it holds is reachable, what it has seen
      parses, and every edge out of what it has seen leads to something held. */
  ghost predicate Walking(files: Files, seen: set<string>, queue: seq<string>) {
    && (forall name | name in queue :: name in files && Reaches(files, name))
    && (forall name | name in seen :: name in files && Reaches(files, name) && files[name].Parsed?)
    && (forall from_, to {:trigger Edge(files, from_, to)} | from_ in seen && Edge(files, from_, to) ::
          to in seen || to in queue)
    && (ROOT in seen || ROOT in queue)
  }

  lemma WalkSkip(files: Files, seen: set<string>, rest: seq<string>, name: string)
    requires Walking(files, seen, rest + [name]) && name in seen
    ensures Walking(files, seen, rest)
  {
    assert forall other | other in rest :: other in rest + [name];
    assert forall other | other in rest + [name] :: other in rest || other in seen;
  }

  lemma WalkHolds(files: Files, seen: set<string>, rest: seq<string>, name: string)
    requires Walking(files, seen, rest + [name])
    ensures name in files && Reaches(files, name)
  {
    assert name in rest + [name];
  }

  /** A module taken off the queue: its imports are followed. */
  method Expand(files: Files, seen: set<string>, rest: seq<string>, name: string) returns (queue: seq<string>)
    requires Walking(files, seen, rest + [name]) && name !in seen && name in files && files[name].Parsed?
    ensures Walking(files, seen + {name}, queue)
  {
    var targets := ImportedNames(name, files[name].isInit, files[name].imports);
    queue := Enqueue(files, seen + {name}, rest, targets);
    WalkStep(files, seen, rest, name, queue);
  }

  lemma WalkStep(files: Files, seen: set<string>, rest: seq<string>, name: string, queue: seq<string>)
    requires Walking(files, seen, rest + [name]) && name !in seen && name in files && files[name].Parsed?
    requires forall to :: to in queue <==>
      || to in rest
      || (to in files && to !in seen + {name} && Pulls(Imported(name, files[name].isInit, files[name].imports), to))
    ensures Walking(files, seen + {name}, queue)
  {
    assert name in rest + [name];
    forall to | to in queue
      ensures to in files && Reaches(files, to)
    {
      if to in rest {
        assert to in rest + [name];
      } else {
        ReachesNext(files, name, to);
      }
    }
  }

  /** With nothing left to follow, what was seen is what is reachable. */
  lemma WalkDone(files: Files, seen: set<string>)
    requires Walking(files, seen, [])
    ensures forall name :: name in seen <==> Reaches(files, name)
    ensures !BrokenReached(files)
  {
    assert Closed(files, seen);
    forall name | Reaches(files, name)
      ensures name in seen
    {
      ReachIsLeast(files, seen, name);
    }
  }

  // ---- What the graph is for ---------------------------------------------------------------

  /** `newest_source`, over the modules' mtimes. */
  method NewestSource(names: set<string>, written: map<string, int>) returns (newest: Option<(string, int)>)
    requires names <= written.Keys
    ensures newest.None? <==> names == {}
    ensures newest.Some? ==> newest.value.0 in names && newest.value.1 == written[newest.value.0]
    ensures newest.Some? ==> forall name | name in names :: written[name] <= newest.value.1
  {
    newest := None;
    var rest := names;
    while rest != {}
      invariant rest <= names
      invariant newest.None? <==> names == rest
      invariant newest.Some? ==> newest.value.0 in names && newest.value.1 == written[newest.value.0]
      invariant newest.Some? ==> forall name | name in names - rest :: written[name] <= newest.value.1
      decreases rest
    {
      var name :| name in rest;
      if newest.None? || written[name] > newest.value.1 {
        newest := Some((name, written[name]));
      }
      rest := rest - {name};
    }
  }

  /** What the deploy claim should say: unknown when the unit or the graph
      cannot be read; otherwise a restart is owed exactly when some module the
      daemon's graph reaches was written after the daemon started. */
  ghost function DeployVerdict(files: Files, written: map<string, int>, started: Option<int>): Verdict
    requires files.Keys <= written.Keys
  {
    if started.None? || ROOT !in files || BrokenReached(files) then Unknown
    else if exists name :: name in files && Reaches(files, name) && written[name] > started.value then Mismatch
    else Match
  }

  /** `check_deploy`; `started` is the unit's start, absent when systemd does
      not report the unit loaded and started. */
  method CheckDeploy(files: Files, written: map<string, int>, started: Option<int>) returns (verdict: Verdict)
    requires files.Keys <= written.Keys
    ensures verdict == DeployVerdict(files, written, started)
    ensures verdict == Unknown <==> started.None? || ROOT !in files || BrokenReached(files)
    ensures verdict == Mismatch <==>
      && started.Some? && ROOT in files && !BrokenReached(files)
      && exists name :: name in files && Reaches(files, name) && started.value < written[name]
  {
    var served, problem := DaemonModules(files);
    if started.None? {
      return Unknown;
    }
    if problem {
      return Unknown;
    }
    forall name | name in served
      ensures name in files
    {
      ReachedIsFile(files, name);
    }
    ReachesRoot(files);
    var newest := NewestSource(served, written);
    if newest.None? {
      return Unknown;
    }
    if newest.value.1 <= started.value {
      return Match;
    }
    return Mismatch;
  }

  lemma ReachedIsFile(files: Files, name: string)
    requires Reaches(files, name)
    ensures name in files
  {
    var chain :| IsChain(files, chain) && chain[|chain| - 1] == name;
    if |chain| > 1 {
      assert Edge(files, chain[|chain| - 2], chain[|chain| - 1]);
    }
  }

  /** An edit to a module outside the graph moves nothing. */
  lemma DeployDependsOnTheGraph(files: Files, a: map<string, int>, b: map<string, int>, started: Option<int>)
    requires files.Keys <= a.Keys && files.Keys <= b.Keys
    requires forall name | name in files && Reaches(files, name) :: a[name] == b[name]
    ensures DeployVerdict(files, a, started) == DeployVerdict(files, b, started)
  {
    if name :| name in files && Reaches(files, name) && started.Some? && a[name] > started.value {
      assert b[name] > started.value;
    }
    if name :| name in files && Reaches(files, name) && started.Some? && b[name] > started.value {
      assert a[name] > started.value;
    }
  }
}
