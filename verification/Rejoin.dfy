/** The rewriter that rejoins systemd directives whose continuation line was
    written without a trailing backslash (scripts/fix-systemd-continuations.py).
    Its docstring calls it idempotent and says it touches nothing else; both
    are stated here with the exact condition under which they hold. */
module Rejoin {
  import opened Ordering
  import opened Text

  // ---- Lines ---------------------------------------------------------------------------------

  /** A directive that may be missing its continuation. */
  predicate IsHead(line: string) {
    '=' in line && line[0] !in {' ', '\t', '#', '['}
  }

  /** An indented line that is no directive and not blank. */
  predicate IsCont(line: string) {
    ("  " <= line || "\t" <= line) && '=' !in line && Strip(line) != ""
  }

  function Joined(head: string, cont: string): string {
    StripRight(head) + " " + Strip(cont)
  }

  /** The two lines at the front are to be joined. */
  predicate JoinsAtFront(lines: seq<string>) {
    |lines| >= 2 && IsHead(lines[0]) && IsCont(lines[1])
  }

  /** One pass. */
  function Pass(lines: seq<string>): seq<string> {
    if lines == [] then []
    else if JoinsAtFront(lines) then [Joined(lines[0], lines[1])] + Pass(lines[2..])
    else [lines[0]] + Pass(lines[1..])
  }

  /** At index `i` the loop is to join. */
  predicate JoinsAt(lines: seq<string>, i: nat) {
    i + 1 < |lines| && IsHead(lines[i]) && IsCont(lines[i + 1])
  }

  lemma JoinStep(out: seq<string>, lines: seq<string>, i: nat)
    requires JoinsAt(lines, i)
    ensures out + [Joined(lines[i], lines[i + 1])] + Pass(lines[i + 2..]) == out + Pass(lines[i..])
  {
    assert lines[i..][2..] == lines[i + 2..];
    assert JoinsAtFront(lines[i..]);
  }

  lemma KeepStep(out: seq<string>, lines: seq<string>, i: nat)
    requires i < |lines| && !JoinsAt(lines, i)
    ensures out + [lines[i]] + Pass(lines[i + 1..]) == out + Pass(lines[i..])
  {
    assert lines[i..][1..] == lines[i + 1..];
    assert !JoinsAtFront(lines[i..]);
  }

  /** The rejoining loop. */
  method RejoinLines(lines: seq<string>) returns (out: seq<string>)
    ensures out == Pass(lines)
  {
    out := [];
    var i := 0;
    assert lines[0..] == lines;
    while i < |lines|
      invariant 0 <= i <= |lines| && out + Pass(lines[i..]) == Pass(lines)
    {
      var cur := lines[i];
      if IsHead(cur) && i + 1 < |lines| && IsCont(lines[i + 1]) {
        JoinStep(out, lines, i);
        out := out + [Joined(cur, lines[i + 1])];
        i := i + 2;
        continue;
      }
      KeepStep(out, lines, i);
      out := out + [cur];
      i := i + 1;
    }
  }

  /** A joined line is still a directive, so a later pass can extend it. */
  lemma JoinedIsHead(head: string, cont: string)
    requires IsHead(head)
    ensures IsHead(Joined(head, cont))
  {
    var kept := StripRight(head);
    var i :| 0 <= i < |head| && head[i] == '=';
    assert i < |kept|;
    assert kept[i] == '=' && Joined(head, cont)[i] == '=';
    assert kept[0] == head[0];
  }

  // ---- Nothing but white space changes ------------------------------------------------------

  /** The non-white-space characters of all the lines, in order. */
  function InkOf(lines: seq<string>): string {
    if lines == [] then "" else Ink(lines[0]) + InkOf(lines[1..])
  }

  lemma InkJoined(head: string, cont: string)
    ensures Ink(Joined(head, cont)) == Ink(head) + Ink(cont)
  {
    InkStripRight(head);
    InkStrip(cont);
    InkAppend(StripRight(head) + " ", Strip(cont));
    InkAppend(StripRight(head), " ");
    assert Ink(" ") == "";
  }

  lemma {:induction false} PassKeepsInk(lines: seq<string>)
    ensures InkOf(Pass(lines)) == InkOf(lines)
  {
    if JoinsAtFront(lines) {
      PassKeepsInk(lines[2..]);
      InkJoined(lines[0], lines[1]);
      assert InkOf(lines[1..]) == Ink(lines[1]) + InkOf(lines[2..]) by { assert lines[1..][1..] == lines[2..]; }
    } else if lines != [] {
      PassKeepsInk(lines[1..]);
    }
  }

  lemma WordsJoined(head: string, cont: string)
    ensures Words(Joined(head, cont)) == Words(head) + Words(cont)
  {
    WordsApart(StripRight(head), ' ', Strip(cont));
    assert Joined(head, cont) == StripRight(head) + ([' '] + Strip(cont));
    WordsStripRight(head);
    WordsStrip(cont);
  }

  /** A pass keeps every word whole, and their order. */
  lemma {:induction false} PassKeepsWords(lines: seq<string>)
    ensures WordsOf(Pass(lines)) == WordsOf(lines)
  {
    if JoinsAtFront(lines) {
      PassKeepsWords(lines[2..]);
      WordsJoined(lines[0], lines[1]);
      assert WordsOf(lines[1..]) == Words(lines[1]) + WordsOf(lines[2..]) by { assert lines[1..][1..] == lines[2..]; }
    } else if lines != [] {
      PassKeepsWords(lines[1..]);
    }
  }

  /** The two parts of a joined line stand one space apart. */
  lemma JoinedByOneSpace(head: string, cont: string)
    requires IsHead(head) && IsCont(cont)
    ensures exists a: string, b: string ::
      Joined(head, cont) == a + " " + b && a <= head && a != "" && b != "" && !IsSpace(a[|a| - 1]) && !IsSpace(b[0])
  {
    var a, b := StripRight(head), Strip(cont);
    var i :| 0 <= i < |head| && head[i] == '=';
    assert i < |a|;
    StripLeaves(cont);
    assert Joined(head, cont) == a + " " + b && a <= head && !IsSpace(a[|a| - 1]) && !IsSpace(b[0]);
  }

  // ---- Which lines change --------------------------------------------------------------------

  /** The line is no directive and no continuation: a comment, a section header,
      a blank line, an indented assignment, or text that is not indented. */
  predicate StandsAlone(line: string) {
    || line == ""
    || line[0] == '#' || line[0] == '['
    || ((line[0] == ' ' || line[0] == '\t') && '=' in line)
    || (forall i | 0 <= i < |line| :: IsSpace(line[i]))
    || ('=' !in line && line[0] != '\t' && !(|line| >= 2 && line[0] == ' ' && line[1] == ' '))
  }

  lemma StandsAloneIsNeither(line: string)
    requires StandsAlone(line)
    ensures !IsHead(line) && !IsCont(line)
  {
    StripLeaves(line);
    if forall i | 0 <= i < |line| :: IsSpace(line[i]) {
      assert '=' !in line;
    }
  }

  /** Such lines come through as they are. */
  lemma {:induction false} OtherLinesSurvive(lines: seq<string>, k: nat)
    requires k < |lines| && StandsAlone(lines[k])
    ensures lines[k] in Pass(lines)
  {
    StandsAloneIsNeither(lines[k]);
    if JoinsAtFront(lines) {
      OtherLinesSurvive(lines[2..], k - 2);
    } else if k > 0 {
      OtherLinesSurvive(lines[1..], k - 1);
    }
  }

  /** An assignment that starts its line, and an indented line below it without
      one, are joined. */
  lemma {:induction false} DirectiveIsJoined(lines: seq<string>, k: nat, i: nat)
    requires k + 1 < |lines|
    requires '=' in lines[k] && lines[k][0] != ' ' && lines[k][0] != '\t' && lines[k][0] != '#' && lines[k][0] != '['
    requires "  " <= lines[k + 1] || "\t" <= lines[k + 1]
    requires '=' !in lines[k + 1] && i < |lines[k + 1]| && !IsSpace(lines[k + 1][i])
    ensures Joined(lines[k], lines[k + 1]) in Pass(lines)
  {
    StripLeaves(lines[k + 1]);
    if JoinsAtFront(lines) && k > 0 {
      assert k != 1;
      DirectiveIsJoined(lines[2..], k - 2, i);
    } else if k > 0 {
      DirectiveIsJoined(lines[1..], k - 1, i);
    }
  }

  // ---- How many passes it takes ---------------------------------------------------------------

  /** The number of continuation lines at the front. */
  function Run(lines: seq<string>): nat {
    if lines == [] || !IsCont(lines[0]) then 0 else 1 + Run(lines[1..])
  }

  /** The longest run of continuation lines that follows a directive. */
  function LongestRun(lines: seq<string>): nat {
    if lines == [] then 0
    else if IsHead(lines[0]) then Max(Run(lines[1..]), LongestRun(lines[1..]))
    else LongestRun(lines[1..])
  }

  function Less1(n: nat): nat {
    if n == 0 then 0 else n - 1
  }

  /** A directive at `k` is followed by `n` continuation lines. */
  predicate Followed(lines: seq<string>, k: nat, n: nat) {
    k + n < |lines| && IsHead(lines[k]) && forall i | k < i <= k + n :: IsCont(lines[i])
  }

  lemma {:induction false} RunIs(lines: seq<string>, n: nat)
    ensures n <= Run(lines) <==> n <= |lines| && forall i | 0 <= i < n :: IsCont(lines[i])
  {
    if n > 0 && lines != [] {
      RunIs(lines[1..], n - 1);
      assert forall i | 0 < i < |lines| :: lines[i] == lines[1..][i - 1];
    }
  }

  lemma FollowedShift(lines: seq<string>, k: nat, n: nat)
    requires lines != []
    ensures Followed(lines[1..], k, n) <==> Followed(lines, k + 1, n)
  {
    if Followed(lines[1..], k, n) {
      forall i | k + 1 < i <= k + 1 + n ensures IsCont(lines[i]) { assert lines[i] == lines[1..][i - 1]; }
    }
    if Followed(lines, k + 1, n) {
      forall i | k < i <= k + n ensures IsCont(lines[1..][i]) { assert lines[1..][i] == lines[i + 1]; }
    }
  }

  /** `LongestRun` is what it says: a length is reached exactly when some
      directive has that many continuations in a row behind it. */
  lemma {:induction false} LongestRunIs(lines: seq<string>, n: nat)
    requires n > 0
    ensures n <= LongestRun(lines) <==> exists k: nat :: Followed(lines, k, n)
  {
    if lines != [] {
      var rest := lines[1..];
      LongestRunIs(rest, n);
      FollowedAtFront(lines, n);
      if k: nat :| Followed(rest, k, n) {
        FollowedShift(lines, k, n);
      }
      if k: nat :| Followed(lines, k, n) {
        if k > 0 {
          FollowedShift(lines, k - 1, n);
        }
      }
    }
  }

  lemma FollowedAtFront(lines: seq<string>, n: nat)
    requires lines != []
    ensures Followed(lines, 0, n) <==> IsHead(lines[0]) && n <= Run(lines[1..])
  {
    RunIs(lines[1..], n);
    if n < |lines| {
      assert (forall i | 0 < i <= n :: IsCont(lines[i])) <==> (forall i | 0 <= i < n :: IsCont(lines[1..][i])) by {
        assert forall i | 0 < i <= n :: lines[i] == lines[1..][i - 1];
      }
    }
  }

  /** A pass keeps the continuations at the front: nothing takes them. */
  lemma {:induction false} PassKeepsRun(lines: seq<string>)
    ensures Run(Pass(lines)) == Run(lines)
  {
    if lines != [] && IsCont(lines[0]) {
      PassKeepsRun(lines[1..]);
    } else if JoinsAtFront(lines) {
      JoinedIsHead(lines[0], lines[1]);
    }
  }

  /** A pass takes exactly one continuation from every directive that has one. */
  lemma {:induction false} PassShortensRuns(lines: seq<string>)
    ensures LongestRun(Pass(lines)) == Less1(LongestRun(lines))
  {
    if JoinsAtFront(lines) {
      var rest := lines[2..];
      assert lines[1..][1..] == rest;
      PassShortensRuns(rest);
      PassKeepsRun(rest);
      JoinedIsHead(lines[0], lines[1]);
    } else if lines != [] {
      var rest := lines[1..];
      PassShortensRuns(rest);
      PassKeepsRun(rest);
    }
  }

  /** A pass never adds a line, and it leaves the number alone exactly when it
      leaves everything alone, which is exactly when no directive is followed
      by a continuation. */
  lemma {:induction false} PassShrinks(lines: seq<string>)
    ensures |Pass(lines)| <= |lines|
    ensures |Pass(lines)| == |lines| <==> LongestRun(lines) == 0
    ensures Pass(lines) == lines <==> LongestRun(lines) == 0
  {
    if JoinsAtFront(lines) {
      PassShrinks(lines[2..]);
    } else if lines != [] {
      PassShrinks(lines[1..]);
      assert lines == [lines[0]] + lines[1..];
    }
  }

  /** A second pass changes nothing exactly when no directive is followed by two
      continuations in a row. */
  lemma PassIdempotentExactlyWhen(lines: seq<string>)
    ensures Pass(Pass(lines)) == Pass(lines) <==> !exists k: nat :: Followed(lines, k, 2)
  {
    PassShrinks(Pass(lines));
    PassShortensRuns(lines);
    LongestRunIs(lines, 2);
  }

  function Passes(lines: seq<string>, n: nat): seq<string> {
    if n == 0 then lines else Pass(Passes(lines, n - 1))
  }

  lemma {:induction false} PassesShortenRuns(lines: seq<string>, n: nat)
    ensures LongestRun(Passes(lines, n)) == if n <= LongestRun(lines) then LongestRun(lines) - n else 0
  {
    if n > 0 {
      PassesShortenRuns(lines, n - 1);
      PassShortensRuns(Passes(lines, n - 1));
    }
  }

  /** The full rejoin: every directive takes all its continuations at once. */
  function Full(lines: seq<string>): seq<string>
    decreases |lines|
  {
    if lines == [] then []
    else if JoinsAtFront(lines) then Full([Joined(lines[0], lines[1])] + lines[2..])
    else [lines[0]] + Full(lines[1..])
  }

  /** A pass is a step towards the full rejoin. */
  lemma {:induction false} PassTowardsFull(lines: seq<string>)
    ensures Full(Pass(lines)) == Full(lines)
    decreases |lines|, 0
  {
    if JoinsAtFront(lines) {
      JoinedIsHead(lines[0], lines[1]);
      HeadBeforePass(Joined(lines[0], lines[1]), lines[2..]);
    } else if lines != [] {
      var rest := lines[1..];
      if IsHead(lines[0]) {
        HeadBeforePass(lines[0], rest);
        assert [lines[0]] + rest == lines;
      } else {
        PassTowardsFull(rest);
        assert ([lines[0]] + Pass(rest))[1..] == Pass(rest);
      }
    }
  }

  lemma {:induction false} HeadBeforePass(head: string, rest: seq<string>)
    requires IsHead(head)
    ensures Full([head] + Pass(rest)) == Full([head] + rest)
    decreases |rest|, 1
  {
    assert ([head] + rest)[1..] == rest && ([head] + Pass(rest))[1..] == Pass(rest);
    if rest != [] && IsCont(rest[0]) {
      var longer := Joined(head, rest[0]);
      JoinedIsHead(head, rest[0]);
      HeadBeforePass(longer, rest[1..]);
      assert ([head] + rest)[2..] == rest[1..];
      assert ([head] + Pass(rest))[2..] == Pass(rest[1..]);
    } else {
      PassKeepsRun(rest);
      PassTowardsFull(rest);
      assert !JoinsAtFront([head] + rest);
      assert !JoinsAtFront([head] + Pass(rest));
    }
  }

  lemma {:induction false} FullOfFixpoint(lines: seq<string>)
    requires LongestRun(lines) == 0
    ensures Full(lines) == lines
  {
    if lines != [] {
      FullOfFixpoint(lines[1..]);
      assert lines == [lines[0]] + lines[1..];
    }
  }

  lemma {:induction false} PassesTowardsFull(lines: seq<string>, n: nat)
    ensures Full(Passes(lines, n)) == Full(lines)
  {
    if n > 0 {
      PassesTowardsFull(lines, n - 1);
      PassTowardsFull(Passes(lines, n - 1));
    }
  }

  /** Repeated passes arrive at the full rejoin after exactly as many rounds as
      the longest run of continuations behind a directive, and stay there. */
  lemma PassesConverge(lines: seq<string>, n: nat)
    ensures Passes(lines, n) == Full(lines) <==> LongestRun(lines) <= n
    ensures Pass(Passes(lines, n)) == Passes(lines, n) <==> LongestRun(lines) <= n
  {
    PassesShortenRuns(lines, n);
    PassShrinks(Passes(lines, n));
    PassesTowardsFull(lines, n);
    if LongestRun(lines) <= n {
      FullOfFixpoint(Passes(lines, n));
    } else {
      var m := LongestRun(lines);
      PassesShortenRuns(lines, m);
      PassesTowardsFull(lines, m);
      FullOfFixpoint(Passes(lines, m));
    }
  }
}
