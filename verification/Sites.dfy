/** Which comprehensions of a test file are judged, and what the file declares
    about them (sysadmin/vacuous_guards.py, `_comprehension_sites`,
    `_comment_block_above`, `_declared_reason`). */
module Sites {
  import opened Ordering
  import opened Text

  /** A syntax tree, cut down to what the visitor tells apart.  An `assert` is
      a statement whose message hangs from a field of its own. */
  datatype Node =
    | Statement(line: nat, children: seq<Node>)
    | Assert(line: nat, last: nat, test: Node, message: Option<Node>)
    | Comprehension(id: nat, line: nat, parts: seq<Node>)
    | Other(parts: seq<Node>)

  datatype Found = Found(id: nat, line: nat, statement: nat, inMessage: bool)

  function Children(node: Node): seq<Node> {
    match node
    case Statement(_, children) => children
    case Assert(_, _, test, message) => [test] + if message.Some? then [message.value] else []
    case Comprehension(_, _, parts) => parts
    case Other(parts) => parts
  }

  /** The enclosing statement, seen from inside `node`. */
  function Within(node: Node, statement: Option<nat>): Option<nat> {
    if node.Statement? || node.Assert? then Some(node.line) else statement
  }

  function Own(node: Node, statement: Option<nat>, inMessage: bool): seq<Found> {
    if node.Comprehension? && statement.Some? then [Found(node.id, node.line, statement.value, inMessage)] else []
  }

  /** Of an assert, the second child is the message. */
  predicate MessageAt(node: Node, k: nat, inMessage: bool) {
    inMessage || (node.Assert? && k == 1)
  }

  lemma ChildSmaller(node: Node, k: nat)
    requires k < |Children(node)|
    ensures Children(node)[k] < node
  {
  }

  /** The list the visitor builds, in its order. */
  function Visited(node: Node, statement: Option<nat>, inMessage: bool): seq<Found>
    decreases node, 1, 0
  {
    Own(node, statement, inMessage) + VisitedBelow(node, Within(node, statement), inMessage, |Children(node)|)
  }

  function VisitedBelow(node: Node, statement: Option<nat>, inMessage: bool, n: nat): seq<Found>
    requires n <= |Children(node)|
    decreases node, 0, n
  {
    if n == 0 then []
    else
      ChildSmaller(node, n - 1);
      VisitedBelow(node, statement, inMessage, n - 1) +
      Visited(Children(node)[n - 1], statement, MessageAt(node, n - 1, inMessage))
  }

  method Visit(node: Node, statement: Option<nat>, inMessage: bool) returns (found: seq<Found>)
    ensures found == Visited(node, statement, inMessage)
    decreases node
  {
    var within := Within(node, statement);
    var children := Children(node);
    var below: seq<Found> := [];
    for i := 0 to |children|
      invariant below == VisitedBelow(node, within, inMessage, i)
    {
      ChildSmaller(node, i);
      var child := Visit(children[i], within, MessageAt(node, i, inMessage));
      below := below + child;
    }
    found := Own(node, statement, inMessage) + below;
  }

  // ---- Which sites those are ---------------------------------------------------------

  /** The node a path of child positions leads to. */
  function NodeAt(node: Node, path: seq<nat>): Option<Node>
    decreases |path|
  {
    if path == [] then Some(node)
    else if path[0] < |Children(node)| then NodeAt(Children(node)[path[0]], path[1..])
    else None
  }

  /** The innermost statement strictly above the end of the path. */
  function StatementAbove(node: Node, path: seq<nat>, outer: Option<nat>): Option<nat>
    decreases |path|
  {
    if path == [] then outer
    else if path[0] < |Children(node)| then StatementAbove(Children(node)[path[0]], path[1..], Within(node, outer))
    else outer
  }

  /** The path goes through the message of some `assert`. */
  predicate ThroughMessage(node: Node, path: seq<nat>)
    decreases |path|
  {
    path != [] && path[0] < |Children(node)| &&
    ((node.Assert? && path[0] == 1) || ThroughMessage(Children(node)[path[0]], path[1..]))
  }

  /** The comprehension `f` describes sits at `path`. */
  predicate SitsAt(node: Node, path: seq<nat>, outer: Option<nat>, inMessage: bool, f: Found) {
    && NodeAt(node, path).Some? && NodeAt(node, path).value.Comprehension?
    && NodeAt(node, path).value.id == f.id && NodeAt(node, path).value.line == f.line
    && StatementAbove(node, path, outer) == Some(f.statement)
    && f.inMessage == (inMessage || ThroughMessage(node, path))
  }

  lemma SitsBelow(node: Node, k: nat, below: seq<nat>, outer: Option<nat>, inMessage: bool, f: Found)
    requires k < |Children(node)|
    ensures SitsAt(node, [k] + below, outer, inMessage, f) <==>
      SitsAt(Children(node)[k], below, Within(node, outer), MessageAt(node, k, inMessage), f)
  {
    assert ([k] + below)[1..] == below;
  }

  /** Whatever the visitor lists sits somewhere in the tree. */
  lemma {:induction false} ListedSits(node: Node, outer: Option<nat>, inMessage: bool, f: Found)
    returns (path: seq<nat>)
    requires f in Visited(node, outer, inMessage)
    ensures SitsAt(node, path, outer, inMessage, f)
    decreases node, 1, 0
  {
    if f in Own(node, outer, inMessage) {
      path := [];
    } else {
      path := ListedBelowSits(node, outer, inMessage, |Children(node)|, f);
    }
  }

  lemma {:induction false} ListedBelowSits(node: Node, outer: Option<nat>, inMessage: bool, n: nat, f: Found)
    returns (path: seq<nat>)
    requires n <= |Children(node)| && f in VisitedBelow(node, Within(node, outer), inMessage, n)
    ensures SitsAt(node, path, outer, inMessage, f)
    decreases node, 0, n
  {
    if f in VisitedBelow(node, Within(node, outer), inMessage, n - 1) {
      path := ListedBelowSits(node, outer, inMessage, n - 1, f);
    } else {
      ChildSmaller(node, n - 1);
      var below := ListedSits(Children(node)[n - 1], Within(node, outer), MessageAt(node, n - 1, inMessage), f);
      SitsBelow(node, n - 1, below, outer, inMessage, f);
      path := [n - 1] + below;
    }
  }

  lemma {:induction false} ChildListed(node: Node, statement: Option<nat>, inMessage: bool, k: nat, n: nat, f: Found)
    requires k < n <= |Children(node)|
    requires f in Visited(Children(node)[k], statement, MessageAt(node, k, inMessage))
    ensures f in VisitedBelow(node, statement, inMessage, n)
    decreases n
  {
    if k < n - 1 {
      ChildListed(node, statement, inMessage, k, n - 1, f);
    }
  }

  /** Whatever sits in the tree below a statement is listed. */
  lemma {:induction false} SittingIsListed(node: Node, path: seq<nat>, outer: Option<nat>, inMessage: bool, f: Found)
    requires SitsAt(node, path, outer, inMessage, f)
    ensures f in Visited(node, outer, inMessage)
    decreases |path|
  {
    if path != [] {
      var k, below := path[0], path[1..];
      assert path == [k] + below;
      SitsBelow(node, k, below, outer, inMessage, f);
      SittingIsListed(Children(node)[k], below, Within(node, outer), MessageAt(node, k, inMessage), f);
      ChildListed(node, Within(node, outer), inMessage, k, |Children(node)|, f);
    }
  }

  /** The visitor finds exactly the comprehensions that have a statement above
      them, each with its innermost statement, and marks exactly those that
      hang below some assert's message. */
  lemma VisitedExactly(node: Node, outer: Option<nat>, inMessage: bool, f: Found)
    ensures f in Visited(node, outer, inMessage) <==> exists path :: SitsAt(node, path, outer, inMessage, f)
  {
    if f in Visited(node, outer, inMessage) {
      var path := ListedSits(node, outer, inMessage, f);
    }
    if path :| SitsAt(node, path, outer, inMessage, f) {
      SittingIsListed(node, path, outer, inMessage, f);
    }
  }

  /** The first `n` steps of the path lead to a statement on line `line`. */
  predicate StatementOn(node: Node, path: seq<nat>, n: nat, line: nat) {
    && n < |path| && NodeAt(node, path[..n]).Some?
    && (var above := NodeAt(node, path[..n]).value; (above.Statement? || above.Assert?) && above.line == line)
  }

  predicate NoStatement(node: Node, path: seq<nat>, n: nat)
    requires n <= |path|
  {
    NodeAt(node, path[..n]).Some? ==>
      var above := NodeAt(node, path[..n]).value; !above.Statement? && !above.Assert?
  }

  /** The statement a comprehension is filed under is the innermost one on the way
      to it; with none on the way, the one the walk started under. */
  lemma {:induction false} StatementAboveIsInnermost(node: Node, path: seq<nat>, outer: Option<nat>)
    requires NodeAt(node, path).Some?
    ensures (StatementAbove(node, path, outer) == outer && forall n | 0 <= n < |path| :: NoStatement(node, path, n))
         || (exists n: nat, line: nat ::
               && StatementOn(node, path, n, line) && StatementAbove(node, path, outer) == Some(line)
               && forall j | n < j < |path| :: NoStatement(node, path, j))
    decreases |path|
  {
    if path != [] {
      var child, below := Children(node)[path[0]], path[1..];
      StatementAboveIsInnermost(child, below, Within(node, outer));
      forall n: nat | n < |below| ensures NodeAt(node, path[..n + 1]) == NodeAt(child, below[..n]) {
        assert path[..n + 1][1..] == below[..n];
      }
      assert path[..0] == [];
      if n: nat, line: nat :| && StatementOn(child, below, n, line)
                             && StatementAbove(child, below, Within(node, outer)) == Some(line)
                             && forall j | n < j < |below| :: NoStatement(child, below, j) {
        assert StatementOn(node, path, n + 1, line);
        forall j | n + 1 < j < |path| ensures NoStatement(node, path, j) {
          assert NoStatement(child, below, j - 1);
        }
      } else {
        forall j | 0 < j < |path| ensures NoStatement(node, path, j) {
          assert NoStatement(child, below, j - 1);
        }
        if node.Statement? || node.Assert? {
          assert StatementOn(node, path, 0, node.line);
        }
      }
    }
  }

  // ---- Declarations ------------------------------------------------------------------

  /** `s.lstrip("#")` */
  function StripHashes(s: string): (r: string)
    ensures |r| <= |s| && s[|s| - |r|..] == r && (r == "" || r[0] != '#')
    ensures forall i | 0 <= i < |s| - |r| :: s[i] == '#'
  {
    if s != "" && s[0] == '#' then StripHashes(s[1..]) else s
  }

  predicate IsComment(line: string) {
    Strip(line) != "" && Strip(line)[0] == '#'
  }

  /** What follows the first occurrence of `marker`, if there is one. */
  function AfterMarker(line: string, marker: string): Option<string> {
    if marker <= line then Some(line[|marker|..])
    else if line == "" then None
    else AfterMarker(line[1..], marker)
  }

  /** Where the comment block directly above line `n` (counted from 0) starts:
      the whole contiguous run. */
  function BlockStart(lines: seq<string>, n: nat): (start: nat)
    requires n <= |lines|
    ensures start <= n
    ensures forall i | start <= i < n :: IsComment(lines[i])
    ensures start == 0 || !IsComment(lines[start - 1])
  {
    if n > 0 && IsComment(lines[n - 1]) then BlockStart(lines, n - 1) else n
  }

  /** `_comment_block_above`, for line `lineno` counted from 1. */
  method CommentBlockAbove(lines: seq<string>, lineno: nat) returns (start: nat)
    requires 1 <= lineno <= |lines|
    ensures start == BlockStart(lines, lineno - 1)
  {
    start := lineno - 1;
    while start > 0 && IsComment(lines[start - 1])
      invariant start <= lineno - 1
      invariant BlockStart(lines, start) == BlockStart(lines, lineno - 1)
    {
      start := start - 1;
    }
  }

  function JoinParts(parts: seq<string>): string {
    if parts == [] then ""
    else
      var before, last := JoinParts(parts[..|parts| - 1]), parts[|parts| - 1];
      if last == "" then before else if before == "" then last else before + " " + last
  }

  /** The reason a block gives from its marker's line on. */
  function BlockReason(block: seq<string>, rest: string): string {
    JoinParts([Strip(rest)] + seq(|block|, i requires 0 <= i < |block| => Strip(StripHashes(Strip(block[i])))))
  }

  function NonEmpty(s: string): Option<string> {
    if s == "" then None else Some(s)
  }

  /** The first marker of the block decides; without one, the first marker on
      the statement's own lines does. */
  function Declared(block: seq<string>, own: seq<string>, marker: string): Option<string> {
    if block != [] then
      var after := AfterMarker(block[0], marker);
      if after.Some? then NonEmpty(BlockReason(block[1..], after.value)) else Declared(block[1..], own, marker)
    else if own != [] then
      var after := AfterMarker(own[0], marker);
      if after.Some? then NonEmpty(Strip(after.value)) else Declared([], own[1..], marker)
    else None
  }

  /** What is declared for a node on line `lineno` whose own text counts up to
      `last`: in the comment block above it, else on its own lines. */
  function ReasonAt(lines: seq<string>, lineno: nat, last: nat, marker: string): (reason: Option<string>)
    ensures reason.Some? ==> reason.value != ""
  {
    if 1 <= lineno <= last && lineno <= |lines| then
      var block := lines[BlockStart(lines, lineno - 1)..lineno - 1];
      var own := lines[lineno - 1..if last <= |lines| then last else |lines|];
      DeclaredNonEmpty(block, own, marker);
      Declared(block, own, marker)
    else None
  }

  /** `_declared_reason`: read from the comment block above the statement, then
      from its own lines up to `last`. */
  method DeclaredReason(lines: seq<string>, lineno: nat, last: nat, marker: string) returns (reason: Option<string>)
    requires 1 <= lineno <= last && lineno <= |lines|
    ensures reason == ReasonAt(lines, lineno, last, marker)
    ensures reason.Some? ==> reason.value != ""
  {
    var start := CommentBlockAbove(lines, lineno);
    var block := lines[start..lineno - 1];
    var end := if last <= |lines| then last else |lines|;
    var own := lines[lineno - 1..end];
    DeclaredNonEmpty(block, own, marker);
    for i := 0 to |block|
      invariant Declared(block, own, marker) == Declared(block[i..], own, marker)
    {
      var after := AfterMarker(block[i], marker);
      assert block[i..][1..] == block[i + 1..];
      if after.Some? {
        return NonEmpty(BlockReason(block[i + 1..], after.value));
      }
    }
    for i := 0 to |own|
      invariant Declared(block, own, marker) == Declared([], own[i..], marker)
    {
      var after := AfterMarker(own[i], marker);
      assert own[i..][1..] == own[i + 1..];
      if after.Some? {
        return NonEmpty(Strip(after.value));
      }
    }
    return None;
  }

  /** A declaration that gives no reason is not a declaration. */
  lemma {:induction false} DeclaredNonEmpty(block: seq<string>, own: seq<string>, marker: string)
    ensures Declared(block, own, marker).Some? ==> Declared(block, own, marker).value != ""
  {
    if block != [] {
      DeclaredNonEmpty(block[1..], own, marker);
    } else if own != [] {
      DeclaredNonEmpty([], own[1..], marker);
    }
  }

  // ---- What a declaration says ------------------------------------------------------------

  /** A line is a comment exactly when a hash is the first thing on it. */
  lemma CommentExactly(line: string)
    ensures IsComment(line) <==>
      exists i :: 0 <= i < |line| && line[i] == '#' && forall j | 0 <= j < i :: IsSpace(line[j])
  {
    var k := StripLeftDrops(line);
    StripLeaves(line);
    if k < |line| {
      assert Strip(line)[0] == StripLeft(line)[0] == line[k];
    }
  }

  /** The marker stands at `p`, for the first time in the line. */
  predicate FirstAt(line: string, marker: string, p: nat) {
    p <= |line| && marker <= line[p..] && forall i | 0 <= i < p :: !(marker <= line[i..])
  }

  lemma FirstAtShifts(line: string, marker: string, p: nat)
    requires line != "" && !(marker <= line) && FirstAt(line[1..], marker, p)
    ensures FirstAt(line, marker, p + 1)
  {
    assert line[p + 1..] == line[1..][p..] && line[0..] == line;
    forall i | 0 <= i < p + 1 ensures !(marker <= line[i..]) {
      assert i > 0 ==> line[i..] == line[1..][i - 1..];
    }
  }

  /** A declaration starts after the first marker of its line. */
  lemma {:induction false} AfterMarkerIs(line: string, marker: string) returns (p: nat)
    requires AfterMarker(line, marker).Some?
    ensures FirstAt(line, marker, p) && p + |marker| <= |line|
    ensures AfterMarker(line, marker).value == line[p + |marker|..]
  {
    if marker <= line {
      p := 0;
      assert line[0..] == line;
    } else {
      var p' := AfterMarkerIs(line[1..], marker);
      FirstAtShifts(line, marker, p');
      p := p' + 1;
      assert line[1..][p' + |marker|..] == line[p + |marker|..];
    }
  }

  /** And there is none exactly when the line does not hold the marker. */
  lemma {:induction false} NoMarker(line: string, marker: string)
    ensures AfterMarker(line, marker).None? <==> !Contains(line, marker)
  {
    if AfterMarker(line, marker).Some? {
      var p := AfterMarkerIs(line, marker);
      assert marker <= line[p..];
    } else if line != "" {
      NoMarker(line[1..], marker);
      forall i | 0 <= i <= |line| ensures !(marker <= line[i..]) {
        if i == 0 {
          assert line[0..] == line;
        } else {
          assert line[i..] == line[1..][i - 1..];
        }
      }
    }
  }

  lemma {:induction false} JoinPartsSays(parts: seq<string>)
    ensures Words(JoinParts(parts)) == WordsOf(parts)
  {
    if parts != [] {
      var front, last := parts[..|parts| - 1], parts[|parts| - 1];
      var before := JoinParts(front);
      JoinPartsSays(front);
      WordsOfLast(front, last);
      assert parts == front + [last];
      if before != "" && last != "" {
        WordsApart(before, ' ', last);
        assert before + " " + last == before + ([' '] + last);
      }
    }
  }

  lemma {:induction false} WordsOfLast(front: seq<string>, last: string)
    ensures WordsOf(front + [last]) == WordsOf(front) + Words(last)
  {
    if front == [] {
      assert front + [last] == [last] && [last][1..] == [];
      assert WordsOf([]) == [];
    } else {
      assert (front + [last])[1..] == front[1..] + [last];
      WordsOfLast(front[1..], last);
    }
  }

  /** What the comment lines below the marker say, their hashes aside. */
  function Uncommented(block: seq<string>): seq<string> {
    seq(|block|, i requires 0 <= i < |block| => Strip(StripHashes(Strip(block[i]))))
  }

  /** The reason reported is everything written from the marker on, word for word
      and to the end of the comment block. */
  lemma ReasonSaysItAll(block: seq<string>, rest: string)
    ensures Words(BlockReason(block, rest)) == Words(rest) + WordsOf(Uncommented(block))
  {
    var parts := [Strip(rest)] + Uncommented(block);
    assert BlockReason(block, rest) == JoinParts(parts);
    JoinPartsSays(parts);
    WordsStrip(rest);
    assert parts[1..] == Uncommented(block);
  }

  /** No line of the stretch holds the marker. */
  predicate Without(lines: seq<string>, from: nat, to: nat, marker: string) {
    to <= |lines| && forall i | from <= i < to :: !Contains(lines[i], marker)
  }

  lemma {:induction false} DeclaredSkips(block: seq<string>, own: seq<string>, marker: string, n: nat)
    requires n <= |block| && Without(block, 0, n, marker)
    ensures Declared(block, own, marker) == Declared(block[n..], own, marker)
  {
    if n > 0 {
      NoMarker(block[0], marker);
      assert Without(block[1..], 0, n - 1, marker) by {
        assert forall i | 0 <= i < n - 1 :: block[1..][i] == block[i + 1];
      }
      DeclaredSkips(block[1..], own, marker, n - 1);
      assert block[1..][n - 1..] == block[n..];
    } else {
      assert block[0..] == block;
    }
  }

  lemma {:induction false} DeclaredSkipsOwn(own: seq<string>, marker: string, n: nat)
    requires n <= |own| && Without(own, 0, n, marker)
    ensures Declared([], own, marker) == Declared([], own[n..], marker)
  {
    if n > 0 {
      NoMarker(own[0], marker);
      assert Without(own[1..], 0, n - 1, marker) by {
        assert forall i | 0 <= i < n - 1 :: own[1..][i] == own[i + 1];
      }
      DeclaredSkipsOwn(own[1..], marker, n - 1);
      assert own[1..][n - 1..] == own[n..];
    } else {
      assert own[0..] == own;
    }
  }

  lemma SliceWithout(lines: seq<string>, from: nat, to: nat, end: nat, marker: string)
    requires from <= to <= end <= |lines| && Without(lines, from, to, marker)
    ensures Without(lines[from..end], 0, to - from, marker)
  {
    assert forall i | 0 <= i < to - from :: lines[from..end][i] == lines[from + i];
  }

  lemma SliceAt(lines: seq<string>, from: nat, end: nat, q: nat)
    requires from <= q < end <= |lines|
    ensures lines[from..end][q - from] == lines[q]
  {
  }

  lemma FirstInBlock(block: seq<string>, own: seq<string>, marker: string, n: nat)
    requires n < |block| && Without(block, 0, n, marker) && Contains(block[n], marker)
    ensures AfterMarker(block[n], marker).Some?
    ensures Declared(block, own, marker) == NonEmpty(BlockReason(block[n + 1..], AfterMarker(block[n], marker).value))
  {
    NoMarker(block[n], marker);
    DeclaredSkips(block, own, marker, n);
    assert block[n..][0] == block[n] && block[n..][1..] == block[n + 1..];
  }

  lemma FirstInOwn(block: seq<string>, own: seq<string>, marker: string, n: nat)
    requires Without(block, 0, |block|, marker)
    requires n < |own| && Without(own, 0, n, marker) && Contains(own[n], marker)
    ensures AfterMarker(own[n], marker).Some?
    ensures Declared(block, own, marker) == NonEmpty(Strip(AfterMarker(own[n], marker).value))
  {
    NoMarker(own[n], marker);
    DeclaredSkips(block, own, marker, |block|);
    assert block[|block|..] == [];
    DeclaredSkipsOwn(own, marker, n);
    assert own[n..][0] == own[n];
  }

  /** A marker in the comment block directly above: the first one there declares,
      with the rest of its line and of the block. */
  lemma DeclaredAbove(lines: seq<string>, lineno: nat, last: nat, marker: string, p: nat)
    requires 1 <= lineno <= last && lineno <= |lines|
    requires BlockStart(lines, lineno - 1) <= p < lineno - 1 && Contains(lines[p], marker)
    requires Without(lines, BlockStart(lines, lineno - 1), p, marker)
    ensures AfterMarker(lines[p], marker).Some?
    ensures ReasonAt(lines, lineno, last, marker) ==
      NonEmpty(BlockReason(lines[p + 1..lineno - 1], AfterMarker(lines[p], marker).value))
  {
    var start, n := BlockStart(lines, lineno - 1), p - BlockStart(lines, lineno - 1);
    var block := lines[start..lineno - 1];
    SliceWithout(lines, start, p, lineno - 1, marker);
    assert block[n] == lines[p] && block[n + 1..] == lines[p + 1..lineno - 1];
    FirstInBlock(block, lines[lineno - 1..if last <= |lines| then last else |lines|], marker, n);
  }

  /** No marker there: the first on the node's own lines declares, with the rest of
      its line. */
  lemma DeclaredBeside(lines: seq<string>, lineno: nat, last: nat, marker: string, q: nat)
    requires 1 <= lineno <= last && lineno <= |lines|
    requires Without(lines, BlockStart(lines, lineno - 1), lineno - 1, marker)
    requires lineno - 1 <= q < last && q < |lines| && Contains(lines[q], marker)
    requires Without(lines, lineno - 1, q, marker)
    ensures AfterMarker(lines[q], marker).Some?
    ensures ReasonAt(lines, lineno, last, marker) == NonEmpty(Strip(AfterMarker(lines[q], marker).value))
  {
    var start, end := BlockStart(lines, lineno - 1), if last <= |lines| then last else |lines|;
    var block, own, n := lines[start..lineno - 1], lines[lineno - 1..end], q - (lineno - 1);
    SliceWithout(lines, start, lineno - 1, lineno - 1, marker);
    SliceWithout(lines, lineno - 1, q, end, marker);
    SliceAt(lines, lineno - 1, end, q);
    FirstInOwn(block, own, marker, n);
  }

  lemma NoneAnywhere(block: seq<string>, own: seq<string>, marker: string)
    requires Without(block, 0, |block|, marker) && Without(own, 0, |own|, marker)
    ensures Declared(block, own, marker).None?
  {
    DeclaredSkips(block, own, marker, |block|);
    assert block[|block|..] == [];
    DeclaredSkipsOwn(own, marker, |own|);
    assert own[|own|..] == [];
  }

  /** No marker in either place: nothing is declared. */
  lemma DeclaredNowhere(lines: seq<string>, lineno: nat, last: nat, marker: string)
    requires 1 <= lineno <= last && lineno <= |lines|
    requires Without(lines, BlockStart(lines, lineno - 1), if last <= |lines| then last else |lines|, marker)
    ensures ReasonAt(lines, lineno, last, marker).None?
  {
    var start, end := BlockStart(lines, lineno - 1), if last <= |lines| then last else |lines|;
    SliceWithout(lines, start, lineno - 1, lineno - 1, marker);
    SliceWithout(lines, lineno - 1, end, end, marker);
    NoneAnywhere(lines[start..lineno - 1], lines[lineno - 1..end], marker);
  }
}
