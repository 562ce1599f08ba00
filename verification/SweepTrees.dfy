/** The sweep over whole test files (sysadmin/vacuous_guards.py, `_guards`,
    `_loops`, `sweep`): what `match` says of the asserts and comprehensions that
    stand in the syntax trees, and of the comments that excuse them. */
module SweepTrees {
  import opened Ordering
  import opened Sites
  import opened Sweep
  import opened Verdicts

  const DECLARATION := "may-not-evaluate:"
  const LOOP_DECLARATION := "may-not-turn:"

  /** A test file: its tree, unless it does not parse; its text; when it was
      written; the lines the measured run executed, if it imported it; and what
      the arcs say of each comprehension. */
  datatype Source = Source(
    path: string, tree: Option<Node>, lines: seq<string>, written: int, executed: Option<set<nat>>,
    turned: nat -> Option<bool>)

  // ---- The asserts of a tree ------------------------------------------------------------

  /** Every assert of the tree.  (The walk's own order is another; the reports are
      sorted afterwards.) */
  function Asserts(node: Node): seq<Node>
    decreases node, 1, 0
  {
    if node.Assert? then [node] + AssertsBelow(node, |Children(node)|) else AssertsBelow(node, |Children(node)|)
  }

  function AssertsBelow(node: Node, n: nat): seq<Node>
    requires n <= |Children(node)|
    decreases node, 0, n
  {
    if n == 0 then []
    else
      ChildSmaller(node, n - 1);
      AssertsBelow(node, n - 1) + Asserts(Children(node)[n - 1])
  }

  /** The assert `a` stands in the tree at `path`. */
  predicate StandsAt(node: Node, path: seq<nat>, a: Node) {
    a.Assert? && NodeAt(node, path) == Some(a)
  }

  lemma {:induction false} ListedStands(node: Node, a: Node) returns (path: seq<nat>)
    requires a in Asserts(node)
    ensures StandsAt(node, path, a)
    decreases node, 1, 0
  {
    if node.Assert? && a == node {
      path := [];
    } else {
      path := ListedBelowStands(node, |Children(node)|, a);
    }
  }

  lemma {:induction false} ListedBelowStands(node: Node, n: nat, a: Node) returns (path: seq<nat>)
    requires n <= |Children(node)| && a in AssertsBelow(node, n)
    ensures StandsAt(node, path, a)
    decreases node, 0, n
  {
    if a in AssertsBelow(node, n - 1) {
      path := ListedBelowStands(node, n - 1, a);
    } else {
      ChildSmaller(node, n - 1);
      var below := ListedStands(Children(node)[n - 1], a);
      path := [n - 1] + below;
      assert path[1..] == below;
    }
  }

  lemma {:induction false} ChildAsserts(node: Node, k: nat, n: nat, a: Node)
    requires k < n <= |Children(node)| && a in Asserts(Children(node)[k])
    ensures a in AssertsBelow(node, n)
    decreases n
  {
    if k < n - 1 {
      ChildAsserts(node, k, n - 1, a);
    }
  }

  lemma {:induction false} StandingIsListed(node: Node, path: seq<nat>, a: Node)
    requires StandsAt(node, path, a)
    ensures a in Asserts(node)
    decreases |path|
  {
    if path != [] {
      StandingIsListed(Children(node)[path[0]], path[1..], a);
      ChildAsserts(node, path[0], |Children(node)|, a);
    }
  }

  /** The tree holds a comprehension. */
  predicate Comprehends(node: Node)
    decreases node, 1, 0
  {
    node.Comprehension? || ComprehendsBelow(node, |Children(node)|)
  }

  predicate ComprehendsBelow(node: Node, n: nat)
    requires n <= |Children(node)|
    decreases node, 0, n
  {
    n > 0 && (ChildSmaller(node, n - 1); ComprehendsBelow(node, n - 1) || Comprehends(Children(node)[n - 1]))
  }

  // ---- From a tree to what the sweep judges -------------------------------------------------

  function AssertSites(lines: seq<string>, asserts: seq<Node>): (sites: seq<AssertSite>)
    requires forall i | 0 <= i < |asserts| :: asserts[i].Assert?
    ensures |sites| == |asserts|
    ensures forall i | 0 <= i < |sites| ::
      && sites[i].line == asserts[i].line
      && sites[i].reason == ReasonAt(lines, asserts[i].line, asserts[i].last, DECLARATION)
      && sites[i].comprehends == Comprehends(asserts[i].test)
  {
    if asserts == [] then []
    else
      var front, a := asserts[..|asserts| - 1], asserts[|asserts| - 1];
      AssertSites(lines, front) +
      [AssertSite(a.line, ReasonAt(lines, a.line, a.last, DECLARATION), Comprehends(a.test))]
  }

  function LoopSiteOf(src: Source, f: Found): LoopSite {
    LoopSite(f.line, f.statement, ReasonAt(src.lines, f.line, f.line, LOOP_DECLARATION), src.turned(f.id))
  }

  /** The comprehensions that are judged: those in no assert's message. */
  function LoopSites(src: Source, found: seq<Found>): seq<LoopSite> {
    if found == [] then []
    else
      var front, f := LoopSites(src, found[..|found| - 1]), found[|found| - 1];
      if f.inMessage then front else front + [LoopSiteOf(src, f)]
  }

  lemma {:induction false} LoopSitesAre(src: Source, found: seq<Found>, site: LoopSite)
    ensures site in LoopSites(src, found) <==> exists f :: f in found && !f.inMessage && site == LoopSiteOf(src, f)
  {
    if found != [] {
      var front, last := found[..|found| - 1], found[|found| - 1];
      LoopSitesAre(src, front, site);
      assert found == front + [last];
    }
  }

  lemma AssertsAreAsserts(node: Node)
    ensures forall i | 0 <= i < |Asserts(node)| :: Asserts(node)[i].Assert?
  {
    forall i | 0 <= i < |Asserts(node)| ensures Asserts(node)[i].Assert? {
      var path := ListedStands(node, Asserts(node)[i]);
    }
  }

  function FileOf(src: Source): TestFile {
    if src.tree.None? then TestFile(src.path, false, [], [], src.written, src.executed)
    else
      AssertsAreAsserts(src.tree.value);
      TestFile(src.path, true, AssertSites(src.lines, Asserts(src.tree.value)),
               LoopSites(src, Visited(src.tree.value, None, false)), src.written, src.executed)
  }

  function FilesOf(sources: seq<Source>): seq<TestFile> {
    seq(|sources|, i requires 0 <= i < |sources| => FileOf(sources[i]))
  }

  // ---- What match means of the trees ------------------------------------------------------------

  /** The file gives a reason, in words, in the comment above or on its own lines. */
  predicate Excused(src: Source, line: nat, last: nat, marker: string) {
    ReasonAt(src.lines, line, last, marker).Some? && ReasonAt(src.lines, line, last, marker).value != ""
  }

  predicate Ran(src: Source, line: nat) {
    src.executed.Some? && line in src.executed.value
  }

  /** Every assert in the tree ran or is excused. */
  ghost predicate AssertsHold(src: Source) {
    src.tree.Some? ==>
      forall path, a | StandsAt(src.tree.value, path, a) ::
        Ran(src, a.line) || Excused(src, a.line, a.last, DECLARATION)
  }

  /** Every comprehension below a statement and in no assert's message turned, as
      far as the arcs can say, is excused, or sits in a statement that did not
      run. */
  ghost predicate LoopsHold(src: Source) {
    src.tree.Some? ==>
      forall path, f | SitsAt(src.tree.value, path, None, false, f) && !f.inMessage :: LoopHolds(src, f)
  }

  predicate LoopHolds(src: Source, f: Found) {
    src.turned(f.id) != Some(false) || Excused(src, f.line, f.line, LOOP_DECLARATION) || !Ran(src, f.statement)
  }

  ghost predicate AllAccounted(file: TestFile) {
    forall k | 0 <= k < |file.asserts| :: Accounted(file, file.asserts[k])
  }

  ghost predicate AllLoopsAccounted(file: TestFile) {
    forall k | 0 <= k < |file.loops| :: LoopAccounted(file, file.loops[k])
  }

  lemma AssertsBridge(src: Source)
    ensures AllAccounted(FileOf(src)) <==> AssertsHold(src)
  {
    if src.tree.Some? {
      var tree, file := src.tree.value, FileOf(src);
      AssertsAreAsserts(tree);
      if AllAccounted(file) {
        forall path, a | StandsAt(tree, path, a) ensures Ran(src, a.line) || Excused(src, a.line, a.last, DECLARATION) {
          StandingIsListed(tree, path, a);
          var k :| 0 <= k < |Asserts(tree)| && Asserts(tree)[k] == a;
          assert Accounted(file, file.asserts[k]);
        }
      }
      if AssertsHold(src) {
        forall k | 0 <= k < |file.asserts| ensures Accounted(file, file.asserts[k]) {
          var path := ListedStands(tree, Asserts(tree)[k]);
        }
      }
    }
  }

  lemma LoopHoldsIs(src: Source, f: Found)
    requires src.executed.Some?
    ensures LoopAccounted(FileOf(src), LoopSiteOf(src, f)) <==> LoopHolds(src, f)
  {
  }

  lemma LoopsBridge(src: Source)
    requires src.executed.Some?
    ensures AllLoopsAccounted(FileOf(src)) <==> LoopsHold(src)
  {
    if src.tree.Some? {
      var tree, file := src.tree.value, FileOf(src);
      var found := Visited(tree, None, false);
      if AllLoopsAccounted(file) {
        forall path, f | SitsAt(tree, path, None, false, f) && !f.inMessage ensures LoopHolds(src, f) {
          VisitedExactly(tree, None, false, f);
          LoopSitesAre(src, found, LoopSiteOf(src, f));
          LoopHoldsIs(src, f);
        }
      }
      if LoopsHold(src) {
        forall k | 0 <= k < |file.loops| ensures LoopAccounted(file, file.loops[k]) {
          LoopSitesAre(src, found, file.loops[k]);
          var f :| f in found && !f.inMessage && file.loops[k] == LoopSiteOf(src, f);
          VisitedExactly(tree, None, false, f);
          LoopHoldsIs(src, f);
        }
      }
    }
  }

  /** The file parses, was not written after the run, and was imported by it if an
      assert stands in it. */
  ghost predicate SourceSeen(src: Source, taken: Option<int>) {
    && src.tree.Some?
    && (taken.Some? ==> src.written <= taken.value)
    && ((exists path, a :: StandsAt(src.tree.value, path, a)) ==> src.executed.Some?)
  }

  lemma SeenIs(src: Source, taken: Option<int>)
    ensures Seen(FileOf(src), taken) <==> SourceSeen(src, taken)
  {
    if src.tree.Some? {
      var tree := src.tree.value;
      AssertsAreAsserts(tree);
      if path, a :| StandsAt(tree, path, a) {
        StandingIsListed(tree, path, a);
        assert Asserts(tree) != [];
      }
      if Asserts(tree) != [] {
        var path := ListedStands(tree, Asserts(tree)[0]);
      }
    }
  }

  /** `match`, end to end: exactly when every file parses, is no younger than the
      run and was measured if it asserts anything; every assert in every tree ran
      or is excused in words; and, with arcs, every comprehension a measured file
      is judged for turned, cannot be decided, is excused in words or sits in a
      statement that did not run. */
  lemma MatchMeansOfTrees(sources: seq<Source>, taken: Option<int>, arcs: bool)
    ensures VerdictOf(SweepOf(FilesOf(sources), taken, arcs)) == Match <==>
      && (forall i | 0 <= i < |sources| :: SourceSeen(sources[i], taken))
      && (forall i | 0 <= i < |sources| :: AssertsHold(sources[i]))
      && (arcs ==> forall i | 0 <= i < |sources| && sources[i].executed.Some? :: LoopsHold(sources[i]))
  {
    var files := FilesOf(sources);
    MatchMeans(files, taken, arcs);
    forall i | 0 <= i < |sources|
      ensures files[i] == FileOf(sources[i])
      ensures Seen(files[i], taken) <==> SourceSeen(sources[i], taken)
      ensures AllAccounted(files[i]) <==> AssertsHold(sources[i])
      ensures sources[i].executed.Some? ==> (AllLoopsAccounted(files[i]) <==> LoopsHold(sources[i]))
    {
      SeenIs(sources[i], taken);
      AssertsBridge(sources[i]);
      if sources[i].executed.Some? {
        LoopsBridge(sources[i]);
      }
    }
    assert (forall i, k | 0 <= i < |files| && 0 <= k < |files[i].asserts| :: Accounted(files[i], files[i].asserts[k]))
      <==> (forall i | 0 <= i < |files| :: AllAccounted(files[i]));
  }

  ghost predicate TreesSeen(sources: seq<Source>, taken: Option<int>) {
    forall i | 0 <= i < |sources| :: SourceSeen(sources[i], taken)
  }

  ghost predicate TreesHold(sources: seq<Source>, arcs: bool) {
    && (forall i | 0 <= i < |sources| :: AssertsHold(sources[i]))
    && (arcs ==> forall i | 0 <= i < |sources| && sources[i].executed.Some? :: LoopsHold(sources[i]))
  }

  /** All three verdicts of the trees: unknown exactly when some file was not seen;
      otherwise mismatch exactly when some assert or, with arcs, some comprehension
      of a measured file does not hold. */
  lemma VerdictMeansOfTrees(sources: seq<Source>, taken: Option<int>, arcs: bool)
    ensures var verdict := VerdictOf(SweepOf(FilesOf(sources), taken, arcs));
      && (verdict == Unknown <==> !TreesSeen(sources, taken))
      && (verdict == Mismatch <==> TreesSeen(sources, taken) && !TreesHold(sources, arcs))
      && (verdict == Match <==> TreesSeen(sources, taken) && TreesHold(sources, arcs))
  {
    VerdictMeans(FilesOf(sources), taken, arcs);
    assert VerdictOf(SweepOf(FilesOf(sources), taken, arcs)) == Match <==>
      TreesSeen(sources, taken) && TreesHold(sources, arcs) by {
      MatchMeansOfTrees(sources, taken, arcs);
    }
    FilesSeen(sources, taken);
  }

  lemma FilesSeen(sources: seq<Source>, taken: Option<int>)
    ensures AllFilesSeen(FilesOf(sources), taken) <==> TreesSeen(sources, taken)
  {
    var files := FilesOf(sources);
    forall i | 0 <= i < |sources| ensures Seen(files[i], taken) <==> SourceSeen(sources[i], taken) {
      SeenIs(sources[i], taken);
    }
  }

  // ---- Blind asserts -------------------------------------------------------------------------------

  lemma {:induction false} ComprehendsHasPath(node: Node) returns (path: seq<nat>)
    requires Comprehends(node)
    ensures NodeAt(node, path).Some? && NodeAt(node, path).value.Comprehension?
    decreases node, 1, 0
  {
    if node.Comprehension? {
      path := [];
    } else {
      path := ComprehendsBelowHasPath(node, |Children(node)|);
    }
  }

  lemma {:induction false} ComprehendsBelowHasPath(node: Node, n: nat) returns (path: seq<nat>)
    requires n <= |Children(node)| && ComprehendsBelow(node, n)
    ensures NodeAt(node, path).Some? && NodeAt(node, path).value.Comprehension?
    decreases node, 0, n
  {
    if ComprehendsBelow(node, n - 1) {
      path := ComprehendsBelowHasPath(node, n - 1);
    } else {
      ChildSmaller(node, n - 1);
      var below := ComprehendsHasPath(Children(node)[n - 1]);
      path := [n - 1] + below;
      assert path[1..] == below;
    }
  }

  lemma {:induction false} ChildComprehends(node: Node, k: nat, n: nat)
    requires k < n <= |Children(node)| && Comprehends(Children(node)[k])
    ensures ComprehendsBelow(node, n)
    decreases n
  {
    if k < n - 1 {
      ChildComprehends(node, k, n - 1);
    }
  }

  lemma {:induction false} PathComprehends(node: Node, path: seq<nat>)
    requires NodeAt(node, path).Some? && NodeAt(node, path).value.Comprehension?
    ensures Comprehends(node)
    decreases |path|
  {
    if path != [] {
      PathComprehends(Children(node)[path[0]], path[1..]);
      ChildComprehends(node, path[0], |Children(node)|);
    }
  }

  /** An assert is blind exactly when a comprehension stands somewhere in its
      test. */
  lemma ComprehendsExactly(node: Node)
    ensures Comprehends(node) <==> exists path :: NodeAt(node, path).Some? && NodeAt(node, path).value.Comprehension?
  {
    if Comprehends(node) {
      var path := ComprehendsHasPath(node);
    }
    if path :| NodeAt(node, path).Some? && NodeAt(node, path).value.Comprehension? {
      PathComprehends(node, path);
    }
  }
}
