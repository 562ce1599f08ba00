/** Reading the snag register (sysadmin/snag_claims.py, `open_sections`,
    `read_entries`, `trailing_parenthetical`). */
module Register {
  import opened Ordering
  import opened Text

  // ---- Sections --------------------------------------------------------------------------

  predicate IsHeading(line: string) {
    "## " <= line
  }

  const CLOSED_WORDS := ["fixed", "closed", "resolved", "done", "complete", "shipped"]
  const TEMPLATE_WORDS := ["creating", "template", "example"]

  predicate AnyIn(words: seq<string>, text: string) {
    exists k :: 0 <= k < |words| && Contains(text, words[k])
  }

  /** The heading files entries as outstanding: it names neither closure nor a
      worked example. */
  predicate Outstanding(heading: string)
    requires IsHeading(heading)
  {
    var text := Lower(Strip(heading[3..]));
    !AnyIn(TEMPLATE_WORDS, text) && !AnyIn(CLOSED_WORDS, text)
  }

  /** A heading and the lines up to the next one. */
  datatype Section = Section(heading: string, body: seq<string>)

  /** The document cut at its headings: what precedes the first, then the
      sections. */
  datatype Outline = Outline(preamble: seq<string>, sections: seq<Section>)

  function AddLine(o: Outline, line: string): Outline {
    if IsHeading(line) then o.(sections := o.sections + [Section(line, [])])
    else if o.sections == [] then o.(preamble := o.preamble + [line])
    else
      var last := o.sections[|o.sections| - 1];
      o.(sections := o.sections[..|o.sections| - 1] + [last.(body := last.body + [line])])
  }

  function OutlineOf(lines: seq<string>): Outline {
    if lines == [] then Outline([], []) else AddLine(OutlineOf(lines[..|lines| - 1]), lines[|lines| - 1])
  }

  function Print(sections: seq<Section>): seq<string> {
    if sections == [] then []
    else Print(sections[..|sections| - 1]) + [sections[|sections| - 1].heading] + sections[|sections| - 1].body
  }

  predicate NoHeadings(lines: seq<string>) {
    forall i | 0 <= i < |lines| :: !IsHeading(lines[i])
  }

  /** Printed back, the outline is `lines`; headings are headings and nothing
      else holds one. */
  predicate Outlines(o: Outline, lines: seq<string>) {
    && o.preamble + Print(o.sections) == lines
    && NoHeadings(o.preamble)
    && forall k | 0 <= k < |o.sections| :: IsHeading(o.sections[k].heading) && NoHeadings(o.sections[k].body)
  }

  lemma PrintLast(sections: seq<Section>, last: Section)
    ensures Print(sections + [last]) == Print(sections) + [last.heading] + last.body
  {
    assert (sections + [last])[..|sections|] == sections;
  }

  lemma AddLineOutlines(o: Outline, lines: seq<string>, line: string)
    requires Outlines(o, lines)
    ensures Outlines(AddLine(o, line), lines + [line])
  {
    if IsHeading(line) {
      PrintLast(o.sections, Section(line, []));
    } else if o.sections != [] {
      var front, last := o.sections[..|o.sections| - 1], o.sections[|o.sections| - 1];
      assert o.sections == front + [last];
      PrintLast(front, last);
      PrintLast(front, last.(body := last.body + [line]));
      assert Print(front) + [last.heading] + (last.body + [line]) == Print(front) + [last.heading] + last.body + [line];
    }
  }

  /** The outline loses nothing. */
  lemma {:induction false} OutlineIsLossless(lines: seq<string>)
    ensures Outlines(OutlineOf(lines), lines)
  {
    if lines != [] {
      var front, line := lines[..|lines| - 1], lines[|lines| - 1];
      OutlineIsLossless(front);
      AddLineOutlines(OutlineOf(front), front, line);
      assert lines == front + [line];
    }
  }

  /** The bodies of the outstanding sections, in order. */
  function OpenBodies(sections: seq<Section>): seq<seq<string>>
    requires forall k | 0 <= k < |sections| :: IsHeading(sections[k].heading)
  {
    if sections == [] then []
    else
      var front, last := OpenBodies(sections[..|sections| - 1]), sections[|sections| - 1];
      if Outstanding(last.heading) then front + [last.body] else front
  }

  /** A heading is a line that begins with two hashes and a space, be there more
      of it or not. */
  lemma HeadingExactly(line: string)
    ensures IsHeading(line) <==> exists title: string :: line == "## " + title
  {
    if IsHeading(line) {
      assert line == "## " + line[3..];
    }
  }

  /** A section is outstanding exactly when its heading, case aside, holds none of
      the words that name closure or a worked example. */
  lemma OutstandingExactly(title: string)
    ensures IsHeading("## " + title)
    ensures Outstanding("## " + title) <==>
      forall word | word in CLOSED_WORDS || word in TEMPLATE_WORDS :: !Contains(Lower(Strip(title)), word)
  {
    assert ("## " + title)[3..] == title;
    WordsIn(CLOSED_WORDS, Lower(Strip(title)));
    WordsIn(TEMPLATE_WORDS, Lower(Strip(title)));
  }

  lemma WordsIn(words: seq<string>, text: string)
    ensures AnyIn(words, text) <==> exists word :: word in words && Contains(text, word)
  {
    if word :| word in words && Contains(text, word) {
      var k :| 0 <= k < |words| && words[k] == word;
    }
  }

  /** The bodies collected are those of the outstanding sections. */
  lemma {:induction false} OpenBodiesAre(sections: seq<Section>, body: seq<string>)
    requires forall k | 0 <= k < |sections| :: IsHeading(sections[k].heading)
    ensures body in OpenBodies(sections) <==>
      exists k :: 0 <= k < |sections| && Outstanding(sections[k].heading) && sections[k].body == body
  {
    if sections != [] {
      var front, last := sections[..|sections| - 1], sections[|sections| - 1];
      OpenBodiesAre(front, body);
      if k :| 0 <= k < |front| && Outstanding(front[k].heading) && front[k].body == body {
        assert sections[k] == front[k];
      }
      if k :| 0 <= k < |sections| && Outstanding(sections[k].heading) && sections[k].body == body {
        assert k < |front| ==> front[k] == sections[k];
      }
    }
  }

  /** The loop's state as the code keeps it: the sections collected, and
      whether the last of them is still being filled. */
  ghost predicate Collected(o: Outline, sections: seq<seq<string>>, filling: bool) {
    && (forall k | 0 <= k < |o.sections| :: IsHeading(o.sections[k].heading))
    && sections == OpenBodies(o.sections)
    && (filling <==> o.sections != [] && Outstanding(o.sections[|o.sections| - 1].heading))
  }

  method OpenSections(lines: seq<string>) returns (sections: seq<seq<string>>)
    ensures (forall k | 0 <= k < |OutlineOf(lines).sections| :: IsHeading(OutlineOf(lines).sections[k].heading))
    ensures sections == OpenBodies(OutlineOf(lines).sections)
  {
    sections := [];
    var filling := false;
    for i := 0 to |lines|
      invariant Collected(OutlineOf(lines[..i]), sections, filling)
    {
      ghost var o := OutlineOf(lines[..i]);
      assert lines[..i + 1][..i] == lines[..i];
      if IsHeading(lines[i]) {
        filling := Outstanding(lines[i]);
        if filling {
          sections := sections + [[]];
        }
      } else if filling {
        sections := sections[..|sections| - 1] + [sections[|sections| - 1] + [lines[i]]];
      }
      CollectedStep(o, lines[i]);
    }
    assert lines[..|lines|] == lines;
  }

  lemma CollectedStep(o: Outline, line: string)
    requires forall k | 0 <= k < |o.sections| :: IsHeading(o.sections[k].heading)
    ensures var o' := AddLine(o, line);
      && (forall k | 0 <= k < |o'.sections| :: IsHeading(o'.sections[k].heading))
      && (IsHeading(line) ==>
            OpenBodies(o'.sections) ==
            if Outstanding(line) then OpenBodies(o.sections) + [[]] else OpenBodies(o.sections))
      && (!IsHeading(line) && o.sections != [] && Outstanding(o.sections[|o.sections| - 1].heading) ==>
            var bodies := OpenBodies(o.sections);
            bodies != [] && OpenBodies(o'.sections) == bodies[..|bodies| - 1] + [bodies[|bodies| - 1] + [line]])
      && (!IsHeading(line) && !(o.sections != [] && Outstanding(o.sections[|o.sections| - 1].heading)) ==>
            OpenBodies(o'.sections) == OpenBodies(o.sections))
  {
    var o' := AddLine(o, line);
    if IsHeading(line) {
      assert o'.sections[..|o'.sections| - 1] == o.sections;
    } else if o.sections != [] {
      assert o'.sections[..|o'.sections| - 1] == o.sections[..|o.sections| - 1];
    }
  }

  // ---- Entries ---------------------------------------------------------------------------

  predicate IsBullet(line: string) {
    "- " <= line
  }

  /** A bullet is a line that begins with a dash and a space, be there more of it or
      not. */
  lemma BulletExactly(line: string)
    ensures IsBullet(line) <==> exists title: string :: line == "- " + title
  {
    if IsBullet(line) {
      assert line == "- " + line[2..];
    }
  }

  /** An entry as read: its title line and the lines beneath it. */
  datatype Raw = Raw(title: string, body: seq<string>)

  function AddEntryLine(entries: seq<Raw>, line: string): seq<Raw> {
    if IsBullet(line) then entries + [Raw(line, [])]
    else if entries == [] then entries
    else
      var last := entries[|entries| - 1];
      entries[..|entries| - 1] + [last.(body := last.body + [line])]
  }

  function RawEntries(lines: seq<string>): seq<Raw> {
    if lines == [] then [] else AddEntryLine(RawEntries(lines[..|lines| - 1]), lines[|lines| - 1])
  }

  /** `read_entries` for one section, as the code runs it: a sentinel bullet
      flushes the last entry and is never one itself. */
  method ReadEntries(lines: seq<string>) returns (entries: seq<Raw>)
    ensures entries == RawEntries(lines)
  {
    entries := [];
    var title: Option<string> := None;
    var body: seq<string> := [];
    var withSentinel := lines + ["- "];
    for i := 0 to |withSentinel|
      invariant i <= |lines| ==>
        RawEntries(lines[..i]) == if title.Some? then entries + [Raw(title.value, body)] else entries
      invariant i <= |lines| && title.None? ==> entries == []
      invariant i == |withSentinel| ==> entries == RawEntries(lines) && title == Some("- ")
    {
      var line := withSentinel[i];
      if i < |lines| {
        assert lines[..i + 1][..i] == lines[..i];
      } else {
        assert lines[..i] == lines;
      }
      if IsBullet(line) {
        if title.Some? {
          entries := entries + [Raw(title.value, body)];
        }
        title, body := Some(line), [];
      } else if title.Some? {
        body := body + [line];
      }
    }
    // The code's closing flush: the sentinel has always been the last title.
    if title.Some? && title.value != "- " {
      assert false;
    }
  }

  function PrintEntries(entries: seq<Raw>): seq<string> {
    if entries == [] then []
    else PrintEntries(entries[..|entries| - 1]) + [entries[|entries| - 1].title] + entries[|entries| - 1].body
  }

  predicate NoBullets(lines: seq<string>) {
    forall i | 0 <= i < |lines| :: !IsBullet(lines[i])
  }

  /** `lines` falls into a lead without bullets and the given entries: a bullet
      each, followed by lines that are none. */
  predicate FallsInto(lines: seq<string>, lead: seq<string>, entries: seq<Raw>) {
    && lines == lead + PrintEntries(entries)
    && NoBullets(lead)
    && forall k | 0 <= k < |entries| :: IsBullet(entries[k].title) && NoBullets(entries[k].body)
  }

  lemma PrintLastEntry(entries: seq<Raw>, last: Raw)
    ensures PrintEntries(entries + [last]) == PrintEntries(entries) + [last.title] + last.body
  {
    assert (entries + [last])[..|entries|] == entries;
  }

  lemma RawOfMore(lines: seq<string>, line: string)
    ensures RawEntries(lines + [line]) == AddEntryLine(RawEntries(lines), line)
  {
    assert (lines + [line])[..|lines|] == lines;
  }

  /** What comes before the first bullet. */
  function Lead(lines: seq<string>): seq<string> {
    if lines == [] then []
    else
      var front, line := lines[..|lines| - 1], lines[|lines| - 1];
      if RawEntries(front) == [] && !IsBullet(line) then Lead(front) + [line] else Lead(front)
  }

  lemma AddEntryLineFalls(lines: seq<string>, lead: seq<string>, entries: seq<Raw>, line: string)
    requires FallsInto(lines, lead, entries)
    ensures var more := if entries == [] && !IsBullet(line) then lead + [line] else lead;
      FallsInto(lines + [line], more, AddEntryLine(entries, line))
  {
    if IsBullet(line) {
      PrintLastEntry(entries, Raw(line, []));
    } else if entries != [] {
      var front, last := entries[..|entries| - 1], entries[|entries| - 1];
      assert entries == front + [last];
      PrintLastEntry(front, last);
      PrintLastEntry(front, last.(body := last.body + [line]));
      assert PrintEntries(front) + [last.title] + (last.body + [line]) ==
             PrintEntries(front) + [last.title] + last.body + [line];
    }
  }

  /** Lossless: the lead and the entries, printed back, are the section. */
  lemma {:induction false} EntriesAreLossless(lines: seq<string>)
    ensures FallsInto(lines, Lead(lines), RawEntries(lines))
  {
    if lines != [] {
      var front, line := lines[..|lines| - 1], lines[|lines| - 1];
      var lead, entries := Lead(front), RawEntries(front);
      assert FallsInto(front, lead, entries) by { EntriesAreLossless(front); }
      var more := if entries == [] && !IsBullet(line) then lead + [line] else lead;
      assert FallsInto(front + [line], more, AddEntryLine(entries, line)) by {
        AddEntryLineFalls(front, lead, entries, line);
      }
      assert front + [line] == lines;
      assert Lead(lines) == more && RawEntries(lines) == AddEntryLine(entries, line);
    }
  }

  lemma {:induction false} RawOfLead(lead: seq<string>)
    requires NoBullets(lead)
    ensures RawEntries(lead) == []
  {
    if lead != [] {
      RawOfLead(lead[..|lead| - 1]);
    }
  }

  lemma {:induction false} RawOfBody(lines: seq<string>, entries: seq<Raw>, title: string, body: seq<string>)
    requires RawEntries(lines) == entries + [Raw(title, [])] && NoBullets(body)
    ensures RawEntries(lines + body) == entries + [Raw(title, body)]
  {
    if body == [] {
      assert lines + body == lines;
    } else {
      var front, line := body[..|body| - 1], body[|body| - 1];
      var before := entries + [Raw(title, front)];
      assert RawEntries(lines + front) == before by { RawOfBody(lines, entries, title, front); }
      assert RawEntries(lines + front + [line]) == AddEntryLine(before, line) by { RawOfMore(lines + front, line); }
      assert lines + body == lines + front + [line] && front + [line] == body;
      assert before[..|before| - 1] == entries;
    }
  }

  /** And there is no other way to cut it: entries and bullets are one to one,
      in order. */
  lemma {:induction false} EntriesAreUnique(lines: seq<string>, lead: seq<string>, entries: seq<Raw>)
    requires FallsInto(lines, lead, entries)
    ensures entries == RawEntries(lines)
    decreases |entries|
  {
    if entries == [] {
      assert lines == lead;
      RawOfLead(lead);
    } else {
      var front, last := entries[..|entries| - 1], entries[|entries| - 1];
      var before := lead + PrintEntries(front);
      assert lines == before + [last.title] + last.body by {
        assert entries == front + [last];
        PrintLastEntry(front, last);
      }
      assert RawEntries(before) == front by { EntriesAreUnique(before, lead, front); }
      assert RawEntries(before + [last.title]) == front + [Raw(last.title, [])] by { RawOfMore(before, last.title); }
      RawOfBody(before + [last.title], front, last.title, last.body);
      assert entries == front + [last];
    }
  }

  // ---- The trailing parenthetical -----------------------------------------------------------

  /** Closing brackets less opening ones. */
  function Net(s: string): int {
    if s == "" then 0 else (if s[0] == ')' then 1 else if s[0] == '(' then -1 else 0) + Net(s[1..])
  }

  /** Brackets match: never more closed than open so far, and all closed. */
  predicate Balanced(s: string) {
    Net(s) == 0 && forall i | 0 <= i <= |s| :: Net(s[..i]) <= 0
  }

  lemma {:induction false} NetAppend(a: string, b: string)
    ensures Net(a + b) == Net(a) + Net(b)
  {
    if a == "" {
      assert a + b == b;
    } else {
      assert (a + b)[1..] == a[1..] + b;
      NetAppend(a[1..], b);
    }
  }

  /** `stripped` ends in a bracket whose contents, from `i`, are `r`. */
  predicate ClosesAt(stripped: string, i: nat, r: string) {
    && i + 2 + |r| == |stripped|
    && stripped == stripped[..i] + "(" + r + ")"
    && Balanced(r)
  }

  ghost predicate HasParenthetical(title: string, r: string) {
    exists i :: 0 <= i <= |StripRight(title)| && ClosesAt(StripRight(title), i, r)
  }

  lemma NetAt(s: string, i: nat)
    requires i < |s|
    ensures Net(s[i..]) == (if s[i] == ')' then 1 else if s[i] == '(' then -1 else 0) + Net(s[i + 1..])
  {
    assert s[i..][1..] == s[i + 1..];
  }

  lemma NetOfMiddle(s: string, i: nat, k: nat)
    requires i <= k <= |s|
    ensures Net(s[i..]) == Net(s[i..k]) + Net(s[k..])
  {
    assert s[i..] == s[i..k] + s[k..];
    NetAppend(s[i..k], s[k..]);
  }

  lemma NetOfLast(s: string)
    requires s != "" && s[|s| - 1] == ')'
    ensures Net(s[|s| - 1..]) == 1
  {
    assert s[|s| - 1..] == ")";
  }

  /** Where the scan stops is a match. */
  lemma StopIsMatch(s: string, i: nat)
    requires i < |s| - 1 && s[i] == '(' && s[|s| - 1] == ')' && Net(s[i..]) == 0
    requires forall j | i < j < |s| :: Net(s[j..]) >= 1
    ensures ClosesAt(s, i, s[i + 1..|s| - 1])
  {
    var r, last := s[i + 1..|s| - 1], |s| - 1;
    NetAt(s, i);
    NetOfLast(s);
    NetOfMiddle(s, i + 1, last);
    forall m | 0 <= m <= |r|
      ensures Net(r[..m]) <= 0
    {
      var k := i + 1 + m;
      assert r[..m] == s[i + 1..k];
      NetOfMiddle(s, i + 1, k);
    }
  }

  /** A match is where the scan stops: to its right every suffix still owes an
      opening bracket. */
  lemma MatchIsStop(s: string, i: nat, r: string)
    requires ClosesAt(s, i, r)
    ensures s[i] == '(' && Net(s[i..]) == 0
    ensures forall j | i < j < |s| :: Net(s[j..]) >= 1
  {
    var last := |s| - 1;
    assert r == s[i + 1..last];
    NetAt(s, i);
    NetOfLast(s);
    NetOfMiddle(s, i + 1, last);
    forall j | i < j < |s|
      ensures Net(s[j..]) >= 1
    {
      assert r[..j - i - 1] == s[i + 1..j];
      NetOfMiddle(s, i + 1, j);
    }
  }

  /** The split is unique. */
  lemma ParentheticalUnique(title: string, r: string, q: string)
    requires HasParenthetical(title, r) && HasParenthetical(title, q)
    ensures r == q
  {
    var s := StripRight(title);
    var i :| 0 <= i <= |s| && ClosesAt(s, i, r);
    var j :| 0 <= j <= |s| && ClosesAt(s, j, q);
    MatchIsStop(s, i, r);
    MatchIsStop(s, j, q);
    assert i == j;
    assert r == s[i + 1..|s| - 1] && q == s[j + 1..|s| - 1];
  }

  /** `trailing_parenthetical`: the contents of the bracket the title ends in,
      exactly when it ends in one that has a match. */
  method TrailingParenthetical(title: string) returns (result: Option<string>)
    ensures result.Some? ==> HasParenthetical(title, result.value)
    ensures result.None? ==> forall r :: !HasParenthetical(title, r)
  {
    var stripped := StripRight(title);
    if stripped == "" || stripped[|stripped| - 1] != ')' {
      return None;
    }
    var depth, index := 0, |stripped|;
    assert Net(stripped[|stripped|..]) == 0;
    while index > 0
      invariant 0 <= index <= |stripped|
      invariant depth == Net(stripped[index..])
      invariant forall j | index <= j < |stripped| :: Net(stripped[j..]) >= 1
    {
      NetAt(stripped, index - 1);
      index := index - 1;
      if stripped[index] == ')' {
        depth := depth + 1;
      } else if stripped[index] == '(' {
        depth := depth - 1;
        if depth == 0 {
          StopIsMatch(stripped, index);
          assert ClosesAt(stripped, index, stripped[index + 1..|stripped| - 1]);
          return Some(stripped[index + 1..|stripped| - 1]);
        }
      }
    }
    forall r
      ensures !HasParenthetical(title, r)
    {
      forall i | 0 <= i <= |stripped|
        ensures !ClosesAt(stripped, i, r)
      {
        if ClosesAt(stripped, i, r) {
          MatchIsStop(stripped, i, r);
        }
      }
    }
    return None;
  }
}
