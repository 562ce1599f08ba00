/** The rewriter on whole files (scripts/fix-systemd-continuations.py): reading
    with universal newlines, `splitlines`, the pass, and the write that happens
    only when the text differs. */
module RejoinFile {
  import opened Text
  import opened Rejoin

  /** `path.read_text()`: every `\r\n` and lone `\r` reads as `\n`. */
  function Read(raw: string): string {
    if raw == "" then ""
    else if raw[0] == '\r' then ['\n'] + Read(if |raw| > 1 && raw[1] == '\n' then raw[2..] else raw[1..])
    else [raw[0]] + Read(raw[1..])
  }

  lemma {:induction false} ReadHasNoReturn(raw: string)
    ensures '\r' !in Read(raw)
    ensures '\r' !in raw ==> Read(raw) == raw
  {
    if raw != "" {
      ReadHasNoReturn(raw[1..]);
      if |raw| > 1 {
        ReadHasNoReturn(raw[2..]);
      }
    }
  }

  /** The characters `str.splitlines` breaks at.  The pair `\r\n`, which it
      treats as one, is gone from a text that was read. */
  predicate IsBoundary(c: char) {
    var n := c as int;
    || 0x0A <= n <= 0x0D || 0x1C <= n <= 0x1E || n == 0x85 || n == 0x2028 || n == 0x2029
  }

  /** Line feed, vertical tab, form feed, carriage return, the three separators,
      next line, and the Unicode line and paragraph separators. */
  lemma BoundariesAre(c: char)
    ensures IsBoundary(c) <==>
      c in {'\n', '\U{000B}', '\U{000C}', '\r', '\U{001C}', '\U{001D}', '\U{001E}', '\U{0085}', '\U{2028}', '\U{2029}'}
  {
    var n := c as int;
    assert n == 10 <==> c == '\n';
    assert n == 11 <==> c == '\U{000B}';
    assert n == 12 <==> c == '\U{000C}';
    assert n == 13 <==> c == '\r';
    assert n == 28 <==> c == '\U{001C}';
    assert n == 29 <==> c == '\U{001D}';
    assert n == 30 <==> c == '\U{001E}';
  }

  /** The index of the first boundary, or the length. */
  function LineEnd(text: string): (k: nat)
    ensures k <= |text| && (k < |text| ==> IsBoundary(text[k]))
    ensures Unbroken(text[..k])
  {
    if text == "" || IsBoundary(text[0]) then 0
    else
      var k := LineEnd(text[1..]);
      assert text[..1 + k] == [text[0]] + text[1..][..k];
      1 + k
  }

  /** Holds no line boundary. */
  predicate Unbroken(line: string) {
    forall i | 0 <= i < |line| :: !IsBoundary(line[i])
  }

  /** `text.splitlines()` */
  function SplitLines(text: string): seq<string>
    decreases |text|
  {
    if text == "" then []
    else
      var k := LineEnd(text);
      if k == |text| then [text] else [text[..k]] + SplitLines(text[k + 1..])
  }

  /** `"\n".join(lines)` */
  function JoinLines(lines: seq<string>): string {
    if lines == [] then "" else if |lines| == 1 then lines[0] else lines[0] + "\n" + JoinLines(lines[1..])
  }

  function Render(lines: seq<string>): string {
    JoinLines(lines) + "\n"
  }

  function Lines(raw: string): seq<string> {
    SplitLines(Read(raw))
  }

  /** The file after the script has seen it. */
  function Fixed(raw: string): string {
    if Render(Pass(Lines(raw))) != Read(raw) then Render(Pass(Lines(raw))) else raw
  }

  /** The script's body for one file. */
  method Fix(raw: string) returns (after: string)
    ensures after == Fixed(raw)
    ensures Ink(after) == Ink(raw) && Words(after) == Words(raw)
  {
    var out := RejoinLines(SplitLines(Read(raw)));
    var text := Render(out);
    after := raw;
    if text != Read(raw) {
      after := text;
    }
    FixKeepsInk(raw);
    FixKeepsWords(raw);
  }

  // ---- Splitting and rendering -----------------------------------------------------------------

  ghost predicate AllUnbroken(lines: seq<string>) {
    forall k | 0 <= k < |lines| :: Unbroken(lines[k])
  }

  lemma {:induction false} SplitIsUnbroken(text: string)
    ensures AllUnbroken(SplitLines(text))
    decreases |text|
  {
    var k := LineEnd(text);
    if k < |text| {
      SplitIsUnbroken(text[k + 1..]);
    } else {
      assert text[..k] == text;
    }
  }

  lemma {:induction false} LineEndOf(line: string, rest: string)
    requires Unbroken(line)
    ensures LineEnd(line + "\n" + rest) == |line|
  {
    if line != "" {
      LineEndOf(line[1..], rest);
      assert (line + "\n" + rest)[1..] == line[1..] + "\n" + rest;
    }
  }

  lemma SplitFirst(line: string, rest: string)
    requires Unbroken(line)
    ensures SplitLines(line + "\n" + rest) == [line] + SplitLines(rest)
  {
    var text := line + "\n" + rest;
    LineEndOf(line, rest);
    assert text[..|line|] == line && text[|line| + 1..] == rest;
  }

  /** Reading back what was rendered gives the lines again. */
  lemma {:induction false} SplitOfRender(lines: seq<string>)
    requires AllUnbroken(lines) && lines != []
    ensures SplitLines(Render(lines)) == lines
  {
    var rest := lines[1..];
    if rest == [] {
      SplitFirst(lines[0], "");
      assert lines[0] + "\n" + "" == Render(lines);
    } else {
      SplitOfRender(rest);
      SplitFirst(lines[0], Render(rest));
      assert lines[0] + "\n" + Render(rest) == Render(lines);
    }
  }

  /** The text ends in a newline, and newlines are its only line boundaries. */
  predicate IsPlain(text: string) {
    text != "" && text[|text| - 1] == '\n' && OnlyNewlines(text)
  }

  predicate OnlyNewlines(text: string) {
    forall i | 0 <= i < |text| :: IsBoundary(text[i]) ==> text[i] == '\n'
  }

  lemma OnlyNewlinesAppend(a: string, b: string)
    ensures OnlyNewlines(a + b) <==> OnlyNewlines(a) && OnlyNewlines(b)
  {
    if OnlyNewlines(a + b) {
      assert forall i | 0 <= i < |a| :: a[i] == (a + b)[i];
      assert forall i | 0 <= i < |b| :: b[i] == (a + b)[|a| + i];
    }
  }

  /** A text's lines render to the text itself exactly when it is plain. */
  lemma {:induction false} RenderOfSplit(text: string)
    ensures Render(SplitLines(text)) == text <==> IsPlain(text)
    decreases |text|
  {
    var k := LineEnd(text);
    if text == "" || k == |text| {
      assert Render(SplitLines(text)) != text;
      assert text != "" ==> text[..k] == text;
    } else {
      var line, c, rest := text[..k], text[k], text[k + 1..];
      assert text == line + ([c] + rest) && SplitLines(text) == [line] + SplitLines(rest);
      RenderOfSplit(rest);
      PlainCut(line, c, rest);
      RenderCut(line, c, rest, SplitLines(rest));
    }
  }

  lemma RenderCut(line: string, c: char, rest: string, lines: seq<string>)
    requires lines == [] <==> rest == ""
    ensures Render([line] + lines) == line + ([c] + rest) <==> c == '\n' && (rest == "" || Render(lines) == rest)
  {
    if lines == [] {
      assert Render([line] + lines) == line + "\n" + "";
      CutAt(line, c, "", "");
    } else {
      RenderCons(line, lines);
      CutAt(line, c, rest, Render(lines));
    }
  }

  lemma CutAt(line: string, c: char, rest: string, other: string)
    ensures line + "\n" + other == line + ([c] + rest) <==> c == '\n' && other == rest
  {
    var a, b := line + "\n" + other, line + ([c] + rest);
    assert a[|line|] == '\n' && b[|line|] == c;
    assert a[|line| + 1..] == other && b[|line| + 1..] == rest;
  }

  lemma RenderCons(line: string, lines: seq<string>)
    requires lines != []
    ensures Render([line] + lines) == line + "\n" + Render(lines)
  {
    assert ([line] + lines)[1..] == lines;
  }

  lemma PlainCut(line: string, c: char, rest: string)
    requires Unbroken(line) && IsBoundary(c)
    ensures IsPlain(line + ([c] + rest)) <==> c == '\n' && (rest == "" || IsPlain(rest))
  {
    var text := line + ([c] + rest);
    assert OnlyNewlines(text) <==> c == '\n' && OnlyNewlines(rest) by {
      OnlyNewlinesAppend(line, [c] + rest);
      OnlyNewlinesAppend([c], rest);
      assert OnlyNewlines(line);
      assert [c][0] == c;
    }
    assert text[|text| - 1] == if rest == "" then c else rest[|rest| - 1];
  }

  // ---- The pass keeps lines unbroken -------------------------------------------------------------

  lemma {:induction false} StripLeftIsSuffix(s: string)
    ensures exists k :: 0 <= k <= |s| && StripLeft(s) == s[k..]
  {
    if s != "" && IsSpace(s[0]) {
      StripLeftIsSuffix(s[1..]);
      var k :| 0 <= k <= |s[1..]| && StripLeft(s[1..]) == s[1..][k..];
      assert s[1..][k..] == s[k + 1..];
    } else {
      assert s == s[0..];
    }
  }

  lemma JoinedIsUnbroken(head: string, cont: string)
    requires Unbroken(head) && Unbroken(cont)
    ensures Unbroken(Joined(head, cont))
  {
    StripLeftIsSuffix(cont);
    var left := StripLeft(cont);
    var k :| 0 <= k <= |cont| && left == cont[k..];
    assert Unbroken(left) && Strip(cont) <= left;
    assert Unbroken(Strip(cont));
    assert Unbroken(StripRight(head)) && Unbroken(" ");
  }

  lemma {:induction false} PassKeepsUnbroken(lines: seq<string>)
    requires AllUnbroken(lines)
    ensures AllUnbroken(Pass(lines))
  {
    if JoinsAtFront(lines) {
      JoinedIsUnbroken(lines[0], lines[1]);
      PassKeepsUnbroken(lines[2..]);
    } else if lines != [] {
      PassKeepsUnbroken(lines[1..]);
    }
  }

  // ---- Ink ---------------------------------------------------------------------------------------

  lemma {:induction false} ReadKeepsInk(raw: string)
    ensures Ink(Read(raw)) == Ink(raw)
  {
    if raw != "" {
      if raw[0] == '\r' {
        if |raw| > 1 && raw[1] == '\n' {
          ReadKeepsInk(raw[2..]);
          assert raw[1..][1..] == raw[2..];
        } else {
          ReadKeepsInk(raw[1..]);
        }
      } else {
        ReadKeepsInk(raw[1..]);
      }
    }
  }

  lemma {:induction false} SplitKeepsInk(text: string)
    ensures InkOf(SplitLines(text)) == Ink(text)
    decreases |text|
  {
    var k := LineEnd(text);
    if text != "" && k == |text| {
      InkOfCons(text, []);
      assert [text] + [] == [text];
    } else if k < |text| {
      var line, rest := text[..k], text[k + 1..];
      SplitKeepsInk(rest);
      InkOfCons(line, SplitLines(rest));
      InkCut(line, text[k], rest);
      assert text == line + ([text[k]] + rest);
    }
  }

  lemma InkOfCons(line: string, lines: seq<string>)
    ensures InkOf([line] + lines) == Ink(line) + InkOf(lines)
  {
    assert ([line] + lines)[1..] == lines;
  }

  lemma InkCut(line: string, c: char, rest: string)
    requires IsBoundary(c)
    ensures Ink(line + ([c] + rest)) == Ink(line) + Ink(rest)
  {
    InkAppend(line, [c] + rest);
    assert ([c] + rest)[1..] == rest;
  }

  lemma {:induction false} RenderKeepsInk(lines: seq<string>)
    ensures Ink(Render(lines)) == InkOf(lines)
  {
    assert Ink("\n") == "";
    if lines == [] {
      assert Render(lines) == "\n";
    } else {
      var rest := lines[1..];
      if rest == [] {
        InkAppend(lines[0], "\n");
      } else {
        RenderKeepsInk(rest);
        assert Render(lines) == lines[0] + "\n" + Render(rest);
        InkAppend(lines[0] + "\n", Render(rest));
        InkAppend(lines[0], "\n");
      }
    }
  }

  /** Whatever the file, only white space in it changes. */
  lemma FixKeepsInk(raw: string)
    ensures Ink(Fixed(raw)) == Ink(raw)
  {
    ReadKeepsInk(raw);
    SplitKeepsInk(Read(raw));
    PassKeepsInk(Lines(raw));
    RenderKeepsInk(Pass(Lines(raw)));
  }

  // ---- Words ---------------------------------------------------------------------------------------

  lemma {:induction false} ReadPrefix(p: string, x: string)
    requires '\r' !in p
    ensures Read(p + x) == p + Read(x)
  {
    if p == "" {
      assert p + x == x;
    } else {
      var c, q := p[0], p[1..];
      ReadPrefix(q, x);
      ReadStep(c, q, x, Read(x));
      assert [c] + q == p;
    }
  }

  lemma ReadStep(c: char, q: string, x: string, y: string)
    requires c != '\r' && Read(q + x) == q + y
    ensures Read([c] + q + x) == [c] + q + y
  {
    ReadCons(c, q + x);
    assert [c] + q + x == [c] + (q + x);
  }

  lemma ReadCons(c: char, rest: string)
    requires c != '\r'
    ensures Read([c] + rest) == [c] + Read(rest)
  {
    assert ([c] + rest)[1..] == rest;
  }

  /** Reading, cut at the first carriage return. */
  lemma ReadCut(p: string, rest: string)
    requires '\r' !in p
    ensures Read(p + (['\r'] + rest)) == p + (['\n'] + Read(if rest != "" && rest[0] == '\n' then rest[1..] else rest))
  {
    ReadPrefix(p, ['\r'] + rest);
    ReadReturn(rest);
  }

  lemma ReadReturn(rest: string)
    ensures Read(['\r'] + rest) == ['\n'] + Read(if rest != "" && rest[0] == '\n' then rest[1..] else rest)
  {
    var raw := ['\r'] + rest;
    assert raw[1..] == rest;
    assert rest != "" ==> raw[1] == rest[0] && raw[2..] == rest[1..];
  }

  lemma {:induction false} ReadKeepsWords(raw: string)
    ensures Words(Read(raw)) == Words(raw)
    decreases |raw|
  {
    if i :| 0 <= i < |raw| && raw[i] == '\r' && '\r' !in raw[..i] {
      var p, rest := raw[..i], raw[i + 1..];
      var after := if rest != "" && rest[0] == '\n' then rest[1..] else rest;
      assert raw == p + (['\r'] + rest);
      ReadCut(p, rest);
      WordsApart(p, '\n', Read(after));
      WordsApart(p, '\r', rest);
      ReadKeepsWords(after);
    } else {
      FirstReturn(raw);
      ReadHasNoReturn(raw);
    }
  }

  lemma {:induction false} FirstReturn(raw: string)
    ensures '\r' in raw ==> exists i :: 0 <= i < |raw| && raw[i] == '\r' && '\r' !in raw[..i]
  {
    if '\r' in raw && raw[0] != '\r' {
      FirstReturn(raw[1..]);
      var i :| 0 <= i < |raw[1..]| && raw[1..][i] == '\r' && '\r' !in raw[1..][..i];
      assert raw[..i + 1] == [raw[0]] + raw[1..][..i] && raw[i + 1] == '\r';
    } else if '\r' in raw {
      assert raw[0] == '\r' && raw[..0] == "";
    }
  }

  lemma {:induction false} SplitKeepsWords(text: string)
    ensures WordsOf(SplitLines(text)) == Words(text)
    decreases |text|
  {
    if text != "" {
      if LineEnd(text) == |text| {
        WordsOfCons(text, []);
        assert SplitLines(text) == [text] + [];
      } else {
        var line, c, rest := SplitAt(text);
        SplitKeepsWords(rest);
        CutKeepsWords(line, c, rest, SplitLines(rest));
      }
    }
  }

  lemma SplitAt(text: string) returns (line: string, c: char, rest: string)
    requires LineEnd(text) < |text|
    ensures text == line + ([c] + rest) && IsBoundary(c) && SplitLines(text) == [line] + SplitLines(rest)
  {
    var k := LineEnd(text);
    line, c, rest := text[..k], text[k], text[k + 1..];
  }

  lemma CutKeepsWords(line: string, c: char, rest: string, lines: seq<string>)
    requires IsBoundary(c) && WordsOf(lines) == Words(rest)
    ensures WordsOf([line] + lines) == Words(line + ([c] + rest))
  {
    WordsOfCons(line, lines);
    WordsApart(line, c, rest);
  }

  lemma WordsOfCons(line: string, lines: seq<string>)
    ensures WordsOf([line] + lines) == Words(line) + WordsOf(lines)
  {
    assert ([line] + lines)[1..] == lines;
  }

  lemma {:induction false} RenderKeepsWords(lines: seq<string>)
    ensures Words(Render(lines)) == WordsOf(lines)
  {
    if lines == [] {
      WordsApart("", '\n', "");
      assert Render(lines) == "" + (['\n'] + "");
    } else {
      var rest := lines[1..];
      if rest == [] {
        WordsApart(lines[0], '\n', "");
        assert Render(lines) == lines[0] + (['\n'] + "");
      } else {
        RenderKeepsWords(rest);
        WordsApart(lines[0], '\n', Render(rest));
        assert Render(lines) == lines[0] + (['\n'] + Render(rest));
      }
    }
  }

  /** Whatever the file, its words stay whole and in order. */
  lemma FixKeepsWords(raw: string)
    ensures Words(Fixed(raw)) == Words(raw)
  {
    ReadKeepsWords(raw);
    SplitKeepsWords(Read(raw));
    PassKeepsWords(Lines(raw));
    RenderKeepsWords(Pass(Lines(raw)));
  }

  // ---- Idempotence and convergence, on files --------------------------------------------------------

  lemma {:induction false} RenderHasNoReturn(lines: seq<string>)
    requires AllUnbroken(lines)
    ensures '\r' !in Render(lines)
  {
    if lines != [] {
      RenderHasNoReturn(lines[1..]);
    }
  }

  /** What the fixed file reads as. */
  lemma FixedReads(raw: string)
    ensures Read(Fixed(raw)) == Render(Pass(Lines(raw)))
  {
    SplitIsUnbroken(Read(raw));
    PassKeepsUnbroken(Lines(raw));
    RenderHasNoReturn(Pass(Lines(raw)));
    ReadHasNoReturn(Render(Pass(Lines(raw))));
  }

  /** The fixed file's lines are the pass over the file's lines; an empty file,
      which has no line, comes out as one empty line. */
  lemma FixedLines(raw: string)
    ensures Lines(Fixed(raw)) == if raw == "" then [""] else Pass(Lines(raw))
  {
    FixedReads(raw);
    if raw == "" {
      SplitFirst("", "");
      assert "" + "\n" + "" == "\n" == Render([]);
      assert Lines(raw) == [];
    } else {
      assert Read(raw) != "" && Lines(raw) != [];
      SplitIsUnbroken(Read(raw));
      PassKeepsUnbroken(Lines(raw));
      SplitOfRender(Pass(Lines(raw)));
    }
  }

  /** The script leaves a file alone exactly when no directive in it is followed
      by a continuation, it ends in a newline, and it has no line boundary other
      than newlines. */
  lemma UntouchedExactlyWhen(raw: string)
    ensures Fixed(raw) == raw <==> LongestRun(Lines(raw)) == 0 && IsPlain(Read(raw))
  {
    var lines := Lines(raw);
    FixedReads(raw);
    FixedLines(raw);
    assert Fixed(raw) == raw <==> Render(Pass(lines)) == Read(raw);
    PassShrinks(lines);
    RenderOfSplit(Read(raw));
  }

  /** "Idempotent": running the script again changes nothing exactly when no
      directive is followed by two continuation lines in a row. */
  lemma IdempotentExactlyWhen(raw: string)
    ensures Fixed(Fixed(raw)) == Fixed(raw) <==> !exists k: nat :: Followed(Lines(raw), k, 2)
  {
    LongestRunIs(Lines(raw), 2);
    FixedSettles(raw);
  }

  lemma FixedSettles(raw: string)
    ensures Fixed(Fixed(raw)) == Fixed(raw) <==> LongestRun(Lines(raw)) <= 1
  {
    UntouchedExactlyWhen(Fixed(raw));
    FixedLines(raw);
    FixedIsPlain(raw);
    PassShortensRuns(Lines(raw));
    assert LongestRun([""]) == 0;
  }

  lemma FixedIsPlain(raw: string)
    ensures IsPlain(Read(Fixed(raw)))
  {
    FixedReads(raw);
    FixedLines(raw);
    RenderOfSplit(Read(Fixed(raw)));
    assert Render([""]) == "\n" == Render([]);
  }

  lemma FixedRuns(raw: string)
    ensures LongestRun(Lines(Fixed(raw))) == Less1(LongestRun(Lines(raw)))
  {
    FixedLines(raw);
    PassShortensRuns(Lines(raw));
    assert LongestRun([""]) == 0;
  }

  function Times(f: string -> string, raw: string, n: nat): string {
    if n == 0 then raw else f(Times(f, raw, n - 1))
  }

  /** A run of the rewriting lowers the need by one, and the next run changes
      nothing exactly when that was the last one needed. */
  ghost predicate Works(f: string -> string, need: string -> nat, raw: string) {
    && need(f(raw)) == Less1(need(raw))
    && (f(f(raw)) == f(raw) <==> need(raw) <= 1)
  }

  lemma {:induction false} TimesNeeds(f: string -> string, need: string -> nat, raw: string, n: nat)
    requires forall x :: Works(f, need, x)
    ensures need(Times(f, raw, n)) == if n <= need(raw) then need(raw) - n else 0
  {
    if n > 0 {
      TimesNeeds(f, need, raw, n - 1);
      assert Works(f, need, Times(f, raw, n - 1));
    }
  }

  /** Such a rewriting settles after exactly the runs it needs. */
  lemma TimesSettles(f: string -> string, need: string -> nat, raw: string, n: nat)
    requires n > 0
    requires forall x :: Works(f, need, x)
    ensures Times(f, raw, n + 1) == Times(f, raw, n) <==> need(raw) <= n
  {
    var before := Times(f, raw, n - 1);
    TimesNeeds(f, need, raw, n - 1);
    assert Works(f, need, before);
    assert Times(f, raw, n) == f(before);
    assert Times(f, raw, n + 1) == f(f(before));
  }

  function Need(raw: string): nat {
    LongestRun(Lines(raw))
  }

  /** From the first run on, the file is settled exactly when the script has run
      as often as the longest row of continuations behind a directive. */
  lemma FilesConverge(raw: string, n: nat)
    requires n > 0
    ensures Times(Fixed, raw, n + 1) == Times(Fixed, raw, n) <==> LongestRun(Lines(raw)) <= n
  {
    forall x ensures Works(Fixed, Need, x) {
      FixedRuns(x);
      FixedSettles(x);
    }
    TimesSettles(Fixed, Need, raw, n);
  }

  // ---- The docstring's claims do not hold of every file -------------------------------------------------

  /** "Idempotent" fails on a directive with two continuation lines. */
  lemma TwoContinuationsNeedTwoRuns()
    ensures var raw := Render(["A=1", "  b", "  c"]); Fixed(Fixed(raw)) != Fixed(raw)
  {
    var lines := ["A=1", "  b", "  c"];
    var raw := Render(lines);
    assert Lines(raw) == lines by {
      RenderHasNoReturn(lines);
      ReadHasNoReturn(raw);
      SplitOfRender(lines);
    }
    assert Followed(lines, 0, 2) by {
      IndentedWordContinues('b');
      IndentedWordContinues('c');
    }
    IdempotentExactlyWhen(raw);
  }

  lemma IndentedWordContinues(c: char)
    requires c != '=' && !IsSpace(c)
    ensures IsCont([' ', ' ', c])
  {
    assert [' ', ' ', c][1..] == [' ', c] && [' ', c][1..] == [c];
    assert StripLeft([c]) == [c];
    assert StripLeft([' ', c]) == [c];
    assert StripLeft([' ', ' ', c]) == [c];
    assert StripRight([c]) == [c];
  }

  /** "Touches nothing else" fails on a file without any directive: a form feed
      becomes a newline, and an empty file gains one. */
  lemma OtherBoundariesAreRewritten()
    ensures Fixed("") != "" && Fixed("a\U{000C}b\n") != "a\U{000C}b\n"
  {
    UntouchedExactlyWhen("");
    UntouchedExactlyWhen("a\U{000C}b\n");
    assert IsBoundary("a\U{000C}b\n"[1]);
    assert !OnlyNewlines("a\U{000C}b\n");
  }
}
