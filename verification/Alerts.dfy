/** The alert checks of sysadmin/ops_claims.py taken together: what may be set
    aside from the documented count, what judges the setting aside, and what
    the overall verdict therefore promises (`check_alerts`,
    `check_open_titles`, `check_flapping`, `check_rotating`, `overall`). */
module Alerts {
  import opened Ordering
  import opened Text
  import opened FlapReadings
  import Like
  import opened Verdicts

  /** `<!--check:key-->` with the sentence it stands in and that sentence's
      code spans. */
  datatype Marker = Marker(key: string, sentence: string, spans: seq<string>)

  /** What one connection answered.  `unresolved` is absent when the database
      did not answer. */
  datatype Facts = Facts(unresolved: Option<nat>, openTitles: seq<string>, declared: Declarations)

  /** The declared titles the window has a reading for, and the declared
      patterns that matched a row of it. */
  datatype Declarations = Declarations(flaps: map<string, FlapReading>, families: seq<string>)

  // ---- Entries: "severity: title" -------------------------------------------------------

  function Render(row: Row): string {
    row.severity + ": " + row.title
  }

  predicate HasSeparator(entry: string) {
    |entry| >= 2 && (entry[..2] == ": " || HasSeparator(entry[1..]))
  }

  function AfterSeparator(entry: string): string
    requires HasSeparator(entry)
  {
    if entry[..2] == ": " then entry[2..] else AfterSeparator(entry[1..])
  }

  /** `entry.split(": ", 1)[-1]` */
  function TitleOf(entry: string): string {
    if HasSeparator(entry) then AfterSeparator(entry) else entry
  }

  /** The title comes back out, whatever colons it holds itself. */
  lemma {:induction false} TitleOfRender(severity: string, title: string)
    requires ':' !in severity
    ensures HasSeparator(severity + ": " + title) && TitleOf(severity + ": " + title) == title
  {
    var entry := severity + ": " + title;
    if severity == "" {
      assert entry[..2] == ": " && entry[2..] == title;
    } else {
      assert entry[0] == severity[0] != ':';
      assert entry[..2][0] != ": "[0];
      assert entry[1..] == severity[1..] + ": " + title;
      TitleOfRender(severity[1..], title);
    }
  }

  lemma {:induction false} ColonPrefix(a: string, b: string, rest: string)
    requires ':' !in a && ':' !in b && a + ":" <= b + ":" + rest
    ensures a == b
  {
    var left, right := a + ":", b + ":" + rest;
    assert left[0] == right[0];
    assert right[0] == if b == "" then ':' else b[0];
    if a != "" {
      assert left[1..] == a[1..] + ":" && right[1..] == b[1..] + ":" + rest;
      ColonPrefix(a[1..], b[1..], rest);
      assert a == [a[0]] + a[1..] && b == [b[0]] + b[1..];
    }
  }

  /** The severity test reads the severity. */
  lemma SeverityOf(severity: string, title: string)
    requires ':' !in severity
    ensures "info: " <= severity + ": " + title <==> severity == "info"
  {
    if "info: " <= severity + ": " + title {
      assert severity + ": " + title == severity + ":" + (" " + title);
      assert "info" + ":" <= "info: ";
      ColonPrefix("info", severity, " " + title);
    }
  }

  // ---- The checks --------------------------------------------------------------------------

  /** `family_of`: the first declared pattern the row's title matches. */
  function FamilyOf(entry: string, families: seq<string>): Option<string> {
    if families == [] then None
    else if Like.LikeRec(families[0], TitleOf(entry)) then Some(families[0])
    else FamilyOf(entry, families[1..])
  }

  predicate Flaps(d: Declarations, entry: string) {
    TitleOf(entry) in d.flaps
  }

  predicate DeclaredAside(d: Declarations, entry: string) {
    Flaps(d, entry) || FamilyOf(entry, d.families).Some?
  }

  /** The selections the checks make among the open rows. */
  datatype Selection =
    | Flapping
    | InFamilyAnd(notIn: seq<string>)
    | InFamilyOnly
    | LoudMember(pattern: string)
    | NotAside
    | NotNamed(sentence: string)

  predicate Selects(d: Declarations, which: Selection, entry: string) {
    match which
    case Flapping => Flaps(d, entry)
    case InFamilyAnd(notIn) => entry !in notIn && FamilyOf(entry, d.families).Some?
    case InFamilyOnly => !Flaps(d, entry) && FamilyOf(entry, d.families).Some?
    case LoudMember(pattern) => FamilyOf(entry, d.families) == Some(pattern) && !("info: " <= entry)
    case NotAside => !DeclaredAside(d, entry)
    case NotNamed(sentence) => !Contains(sentence, TitleOf(entry)) && !DeclaredAside(d, entry)
  }

  function Select(d: Declarations, which: Selection, entries: seq<string>): seq<string> {
    if entries == [] then []
    else
      var rest := Select(d, which, entries[1..]);
      if Selects(d, which, entries[0]) then [entries[0]] + rest else rest
  }

  function SetAside(facts: Facts): seq<string> {
    Select(facts.declared, Flapping, facts.openTitles)
  }

  function Rotating(facts: Facts): seq<string> {
    Select(facts.declared, InFamilyAnd(SetAside(facts)), facts.openTitles)
  }

  function Digit(n: nat): char
    requires n < 10
  {
    "0123456789"[n]
  }

  /** `str(n)` */
  function Decimal(n: nat): string {
    if n < 10 then [Digit(n)] else Decimal(n / 10) + [Digit(n % 10)]
  }

  /** `compare_claim` over the count, the rows set aside taken off it. */
  function CheckAlerts(documented: Option<string>, facts: Facts): Verdict {
    if documented.None? || facts.unresolved.None? then Unknown
    else
      var remaining := facts.unresolved.value - |SetAside(facts)| - |Rotating(facts)|;
      if remaining >= 0 && documented.value == Decimal(remaining) then Match else Mismatch
  }

  /** The rows the marked sentence neither names nor has declared away. */
  function Unnamed(sentence: string, facts: Facts): seq<string> {
    Select(facts.declared, NotNamed(sentence), facts.openTitles)
  }

  /** `sentence` is absent when the region or the marked sentence cannot be
      read. */
  function CheckOpenTitles(sentence: Option<string>, facts: Facts): Verdict {
    if facts.unresolved.None? || sentence.None? then Unknown
    else if Unnamed(sentence.value, facts) == [] then Match
    else Mismatch
  }

  /** `_flapping_claim`: a pin names the state a title is in most of the time. */
  function FlappingClaim(reading: FlapReading): Verdict {
    if reading.Fraction() < 0.5 then Match else Mismatch
  }

  function FlappingClaims(spans: seq<string>, facts: Facts): seq<Verdict> {
    if spans == [] then []
    else
      var rest := FlappingClaims(spans[1..], facts);
      if spans[0] in facts.declared.flaps then [FlappingClaim(facts.declared.flaps[spans[0]])] + rest else rest
  }

  function CheckFlapping(marker: Marker, facts: Facts): seq<Verdict> {
    if facts.unresolved.None? || FlappingClaims(marker.spans, facts) == [] then [Unknown]
    else FlappingClaims(marker.spans, facts)
  }

  predicate IsPattern(span: string) {
    '%' in span
  }

  /** `_rotating_claim`: every open member of the family must be quiet. */
  function RotatingClaim(pattern: string, facts: Facts): Verdict {
    if Select(facts.declared, LoudMember(pattern), facts.openTitles) == [] then Match else Mismatch
  }

  function RotatingClaims(spans: seq<string>, facts: Facts): seq<Verdict> {
    if spans == [] then []
    else
      var rest := RotatingClaims(spans[1..], facts);
      if IsPattern(spans[0]) && spans[0] in facts.declared.families then [RotatingClaim(spans[0], facts)] + rest
      else rest
  }

  function CheckRotating(marker: Marker, facts: Facts): seq<Verdict> {
    if facts.unresolved.None? || RotatingClaims(marker.spans, facts) == [] then [Unknown]
    else RotatingClaims(marker.spans, facts)
  }

  function MarkerClaims(markers: seq<Marker>, facts: Facts): seq<Verdict> {
    if markers == [] then []
    else
      (if markers[0].key == "flapping" then CheckFlapping(markers[0], facts)
       else if markers[0].key == "rotating" then CheckRotating(markers[0], facts)
       else []) + MarkerClaims(markers[1..], facts)
  }

  /** `check_all`: these checks among any others. */
  function AllClaims(others: seq<Verdict>, documented: Option<string>, sentence: Option<string>,
                     markers: seq<Marker>, facts: Facts): seq<Verdict>
  {
    others + [CheckAlerts(documented, facts), CheckOpenTitles(sentence, facts)] + MarkerClaims(markers, facts)
  }

  /** `overall`: a claim measured false outranks one nobody could test. */
  function Overall(claims: seq<Verdict>): (v: Verdict)
    ensures v == Mismatch <==> Mismatch in claims
    ensures v == Match <==> forall i | 0 <= i < |claims| :: claims[i] == Match
  {
    if Mismatch in claims then Mismatch else if Unknown in claims then Unknown
    else
      assert forall i | 0 <= i < |claims| :: claims[i] in claims && claims[i] != Mismatch && claims[i] != Unknown;
      Match
  }

  // ---- What the database is asked -----------------------------------------------------------

  function CandidateSet(markers: seq<Marker>): set<string> {
    set k, i | 0 <= k < |markers| && markers[k].key == "flapping" && 0 <= i < |markers[k].spans| :: markers[k].spans[i]
  }

  function Patterns(spans: seq<string>): seq<string> {
    if spans == [] then []
    else if IsPattern(spans[0]) then [spans[0]] + Patterns(spans[1..])
    else Patterns(spans[1..])
  }

  /** Duplicates aside, as `dict.fromkeys` leaves them; order is what counts. */
  function PatternList(markers: seq<Marker>): seq<string> {
    if markers == [] then []
    else
      (if markers[0].key == "rotating" then Patterns(markers[0].spans) else []) + PatternList(markers[1..])
  }

  function OpenEntries(rows: seq<Row>): seq<string> {
    if rows == [] then []
    else if IsOpen(rows[0]) then [Render(rows[0])] + OpenEntries(rows[1..])
    else OpenEntries(rows[1..])
  }

  /** `measure_database`, when the database answers. */
  function Measure(rows: seq<Row>, markers: seq<Marker>, now: real): Facts {
    var open := OpenEntries(rows);
    Facts(Some(|open|), open,
          Declarations(Readings(rows, CandidateSet(markers), now), Families(rows, PatternList(markers), now)))
  }

  /** The severities the schema admits. */
  predicate SeverityValid(row: Row) {
    row.severity == "info" || row.severity == "warning" || row.severity == "critical"
  }

  // ---- Lemmas ---------------------------------------------------------------------------------

  lemma {:induction false} Selected(d: Declarations, which: Selection, entries: seq<string>, entry: string)
    ensures entry in Select(d, which, entries) <==> entry in entries && Selects(d, which, entry)
  {
    if entries != [] {
      Selected(d, which, entries[1..], entry);
    }
  }

  lemma {:induction false} SelectSame(d: Declarations, p: Selection, q: Selection, entries: seq<string>)
    requires forall entry | entry in entries :: Selects(d, p, entry) == Selects(d, q, entry)
    ensures Select(d, p, entries) == Select(d, q, entries)
  {
    if entries != [] {
      assert entries[0] in entries;
      SelectSame(d, p, q, entries[1..]);
    }
  }

  /** A row set aside for its family is one not already set aside as flapping. */
  lemma RotatingIs(facts: Facts)
    ensures Rotating(facts) == Select(facts.declared, InFamilyOnly, facts.openTitles)
  {
    forall entry | entry in facts.openTitles
      ensures Selects(facts.declared, InFamilyAnd(SetAside(facts)), entry) ==
        Selects(facts.declared, InFamilyOnly, entry)
    {
      Selected(facts.declared, Flapping, facts.openTitles, entry);
    }
    SelectSame(facts.declared, InFamilyAnd(SetAside(facts)), InFamilyOnly, facts.openTitles);
  }

  /** The open rows that are not set aside. */
  function Remaining(facts: Facts): seq<string> {
    Select(facts.declared, NotAside, facts.openTitles)
  }

  lemma {:induction false} ThreeWays(d: Declarations, entries: seq<string>)
    ensures |entries| ==
      |Select(d, Flapping, entries)| + |Select(d, InFamilyOnly, entries)| + |Select(d, NotAside, entries)|
  {
    if entries != [] {
      ThreeWays(d, entries[1..]);
    }
  }

  /** The measured figure is the number of rows left. */
  lemma MeasuredCount(facts: Facts)
    ensures |facts.openTitles| - |SetAside(facts)| - |Rotating(facts)| == |Remaining(facts)|
  {
    RotatingIs(facts);
    ThreeWays(facts.declared, facts.openTitles);
  }

  lemma {:induction false} MarkerClaimListed(markers: seq<Marker>, facts: Facts, k: nat, v: Verdict)
    requires k < |markers|
    requires (markers[k].key == "flapping" && v in CheckFlapping(markers[k], facts))
          || (markers[k].key == "rotating" && v in CheckRotating(markers[k], facts))
    ensures v in MarkerClaims(markers, facts)
  {
    if k > 0 {
      MarkerClaimListed(markers[1..], facts, k - 1, v);
    }
  }

  lemma {:induction false} FlappingClaimListed(spans: seq<string>, facts: Facts, i: nat)
    requires i < |spans| && spans[i] in facts.declared.flaps
    ensures FlappingClaim(facts.declared.flaps[spans[i]]) in FlappingClaims(spans, facts)
  {
    if i > 0 {
      FlappingClaimListed(spans[1..], facts, i - 1);
    }
  }

  lemma {:induction false} RotatingClaimListed(spans: seq<string>, facts: Facts, i: nat)
    requires i < |spans| && IsPattern(spans[i]) && spans[i] in facts.declared.families
    ensures RotatingClaim(spans[i], facts) in RotatingClaims(spans, facts)
  {
    if i > 0 {
      RotatingClaimListed(spans[1..], facts, i - 1);
    }
  }

  lemma {:induction false} PatternSpan(spans: seq<string>, pattern: string)
    ensures pattern in Patterns(spans) <==> pattern in spans && IsPattern(pattern)
  {
    if spans != [] {
      PatternSpan(spans[1..], pattern);
    }
  }

  lemma {:induction false} PatternDeclared(markers: seq<Marker>, pattern: string) returns (k: nat, i: nat)
    requires pattern in PatternList(markers)
    ensures k < |markers| && markers[k].key == "rotating" && i < |markers[k].spans| && markers[k].spans[i] == pattern
    ensures IsPattern(pattern)
  {
    if markers[0].key == "rotating" && pattern in Patterns(markers[0].spans) {
      PatternSpan(markers[0].spans, pattern);
      k := 0;
      i :| 0 <= i < |markers[0].spans| && markers[0].spans[i] == pattern;
    } else {
      var k';
      k', i := PatternDeclared(markers[1..], pattern);
      k := k' + 1;
    }
  }

  lemma {:induction false} FamilyFacts(entry: string, families: seq<string>)
    ensures FamilyOf(entry, families).Some? ==>
      FamilyOf(entry, families).value in families && Like.LikeRec(FamilyOf(entry, families).value, TitleOf(entry))
    ensures FamilyOf(entry, families).None? ==>
      forall i | 0 <= i < |families| :: !Like.LikeRec(families[i], TitleOf(entry))
  {
    if families != [] {
      FamilyFacts(entry, families[1..]);
    }
  }

  lemma {:induction false} OpenEntryOf(rows: seq<Row>, k: nat)
    requires k < |rows| && IsOpen(rows[k])
    ensures Render(rows[k]) in OpenEntries(rows)
  {
    if k > 0 {
      OpenEntryOf(rows[1..], k - 1);
    }
  }

  // ---- Nothing loud is hidden --------------------------------------------------------------------

  /** The row is quoted by a flapping sentence and was open for less than half
      of the window. */
  ghost predicate QuietFlap(rows: seq<Row>, markers: seq<Marker>, now: real, row: Row) {
    row.title in CandidateSet(markers) && 2.0 * OpenTime(rows, row.title, now) < WINDOW
  }

  /** The row is of severity `info` and matches a pattern a rotating sentence
      quotes. */
  ghost predicate QuietMember(markers: seq<Marker>, row: Row) {
    row.severity == "info" && exists pattern :: pattern in PatternList(markers) && Like.Like(pattern, row.title)
  }

  lemma FlapsAreQuiet(rows: seq<Row>, markers: seq<Marker>, now: real, row: Row)
    requires Mismatch !in MarkerClaims(markers, Measure(rows, markers, now))
    requires row.title in Measure(rows, markers, now).declared.flaps
    ensures QuietFlap(rows, markers, now, row)
  {
    var facts := Measure(rows, markers, now);
    var k, i :| 0 <= k < |markers| && markers[k].key == "flapping"
             && 0 <= i < |markers[k].spans| && markers[k].spans[i] == row.title;
    FlappingClaimListed(markers[k].spans, facts, i);
    MarkerClaimListed(markers, facts, k, FlappingClaim(facts.declared.flaps[row.title]));
    ReadingIsOpenTime(rows, CandidateSet(markers), now, row.title);
  }

  lemma {:induction false} NoColon(row: Row)
    requires SeverityValid(row)
    ensures ':' !in row.severity
  {
    assert ':' !in "info" && ':' !in "warning" && ':' !in "critical";
  }

  /** A family judged quiet has no loud open member. */
  lemma QuietByClaim(facts: Facts, pattern: string, entry: string)
    requires RotatingClaim(pattern, facts) == Match
    requires entry in facts.openTitles && FamilyOf(entry, facts.declared.families) == Some(pattern)
    ensures "info: " <= entry
  {
    Selected(facts.declared, LoudMember(pattern), facts.openTitles, entry);
  }

  /** Every family that sets a row aside was declared, and its claim is among
      the claims. */
  lemma FamilyIsJudged(rows: seq<Row>, markers: seq<Marker>, now: real, entry: string)
    requires FamilyOf(entry, Measure(rows, markers, now).declared.families).Some?
    ensures var facts := Measure(rows, markers, now);
      var pattern := FamilyOf(entry, facts.declared.families).value;
      && pattern in PatternList(markers) && Like.LikeRec(pattern, TitleOf(entry))
      && RotatingClaim(pattern, facts) in MarkerClaims(markers, facts)
  {
    var facts := Measure(rows, markers, now);
    var pattern := FamilyOf(entry, facts.declared.families).value;
    FamilyFacts(entry, facts.declared.families);
    FamiliesAre(rows, PatternList(markers), now, pattern);
    var k, i := PatternDeclared(markers, pattern);
    RotatingClaimListed(markers[k].spans, facts, i);
    MarkerClaimListed(markers, facts, k, RotatingClaim(pattern, facts));
  }

  lemma MembersAreQuiet(rows: seq<Row>, markers: seq<Marker>, now: real, row: Row)
    requires Mismatch !in MarkerClaims(markers, Measure(rows, markers, now))
    requires Render(row) in Measure(rows, markers, now).openTitles
    requires FamilyOf(Render(row), Measure(rows, markers, now).declared.families).Some?
    requires SeverityValid(row)
    ensures QuietMember(markers, row)
  {
    var facts, entry := Measure(rows, markers, now), Render(row);
    var pattern := FamilyOf(entry, facts.declared.families).value;
    NoColon(row);
    FamilyIsJudged(rows, markers, now, entry);
    QuietByClaim(facts, pattern, entry);
    SeverityOf(row.severity, row.title);
    TitleOfRender(row.severity, row.title);
    Like.LikeMatches(pattern, row.title);
  }

  /** End to end, whatever the other checks say.  If the overall verdict is not
      `mismatch`, every open row that the count leaves out is a declared title
      open for less than half of the window, or an `info` member of a declared
      family. */
  lemma NothingLoudIsHidden(others: seq<Verdict>, documented: Option<string>, sentence: Option<string>,
                            rows: seq<Row>, markers: seq<Marker>, now: real, k: nat)
    requires k < |rows| && IsOpen(rows[k]) && SeverityValid(rows[k])
    requires Overall(AllClaims(others, documented, sentence, markers, Measure(rows, markers, now))) != Mismatch
    requires DeclaredAside(Measure(rows, markers, now).declared, Render(rows[k]))
    ensures QuietFlap(rows, markers, now, rows[k]) || QuietMember(markers, rows[k])
  {
    NoMismatchAmong(others, documented, sentence, markers, Measure(rows, markers, now));
    NoColon(rows[k]);
    TitleOfRender(rows[k].severity, rows[k].title);
    OpenEntryOf(rows, k);
    if rows[k].title in Measure(rows, markers, now).declared.flaps {
      FlapsAreQuiet(rows, markers, now, rows[k]);
    } else {
      MembersAreQuiet(rows, markers, now, rows[k]);
    }
  }

  lemma NoMismatchAmong(others: seq<Verdict>, documented: Option<string>, sentence: Option<string>,
                        markers: seq<Marker>, facts: Facts)
    requires Overall(AllClaims(others, documented, sentence, markers, facts)) != Mismatch
    ensures Mismatch !in MarkerClaims(markers, facts)
  {
    var claims := AllClaims(others, documented, sentence, markers, facts);
    assert forall v | v in MarkerClaims(markers, facts) :: v in claims;
  }

  /** And if it is `match`, the documented figure is the number of open rows
      left, and the marked sentence names every one of them. */
  lemma MatchNamesTheRest(others: seq<Verdict>, documented: Option<string>, sentence: Option<string>,
                          rows: seq<Row>, markers: seq<Marker>, now: real)
    requires Overall(AllClaims(others, documented, sentence, markers, Measure(rows, markers, now))) == Match
    ensures var facts := Measure(rows, markers, now);
      && documented == Some(Decimal(|Remaining(facts)|))
      && sentence.Some?
      && forall entry | entry in Remaining(facts) :: Contains(sentence.value, TitleOf(entry))
  {
    var facts := Measure(rows, markers, now);
    var claims := AllClaims(others, documented, sentence, markers, facts);
    assert claims[|others|] == CheckAlerts(documented, facts);
    assert claims[|others| + 1] == CheckOpenTitles(sentence, facts);
    MeasuredCount(facts);
    forall entry | entry in Remaining(facts)
      ensures Contains(sentence.value, TitleOf(entry))
    {
      Selected(facts.declared, NotAside, facts.openTitles, entry);
      Selected(facts.declared, NotNamed(sentence.value), facts.openTitles, entry);
    }
  }

  // ---- The two verdicts depend on the undeclared open rows alone --------------------------------------

  /** The document declares the row away: a flapping sentence quotes its title,
      or a rotating sentence a pattern it matches.  No history is asked. */
  predicate DeclaredInDocument(markers: seq<Marker>, row: Row) {
    row.title in CandidateSet(markers) || InSomeFamily(PatternList(markers), row.title)
  }

  predicate InSomeFamily(patterns: seq<string>, title: string) {
    exists i :: 0 <= i < |patterns| && Like.LikeRec(patterns[i], title)
  }

  /** For an open row, being set aside is the document's doing alone: the window
      always has a reading of its title, and a row of its family. */
  lemma OpenAsideExactlyWhenDeclared(rows: seq<Row>, markers: seq<Marker>, now: real, k: nat)
    requires k < |rows| && IsOpen(rows[k]) && SeverityValid(rows[k])
    ensures DeclaredAside(Measure(rows, markers, now).declared, Render(rows[k])) <==>
      DeclaredInDocument(markers, rows[k])
  {
    NoColon(rows[k]);
    TitleOfRender(rows[k].severity, rows[k].title);
    if rows[k].title in CandidateSet(markers) {
      OpenHasReading(rows, CandidateSet(markers), now, k);
    }
    OpenFamilyExactlyWhenDeclared(rows, PatternList(markers), now, k);
  }

  lemma OpenFamilyExactlyWhenDeclared(rows: seq<Row>, patterns: seq<string>, now: real, k: nat)
    requires k < |rows| && IsOpen(rows[k]) && TitleOf(Render(rows[k])) == rows[k].title
    ensures FamilyOf(Render(rows[k]), Families(rows, patterns, now)).Some? <==> InSomeFamily(patterns, rows[k].title)
  {
    var entry, families := Render(rows[k]), Families(rows, patterns, now);
    FamilyFacts(entry, families);
    if FamilyOf(entry, families).Some? {
      FamiliesAre(rows, patterns, now, FamilyOf(entry, families).value);
    }
    if i :| 0 <= i < |patterns| && Like.LikeRec(patterns[i], rows[k].title) {
      OpenCounts(rows, patterns[i], now, k);
      FamiliesAre(rows, patterns, now, patterns[i]);
    }
  }

  /** The open rows the document says nothing about, as they are listed. */
  function Undeclared(rows: seq<Row>, markers: seq<Marker>): seq<string> {
    if rows == [] then []
    else if IsOpen(rows[0]) && !DeclaredInDocument(markers, rows[0]) then
      [Render(rows[0])] + Undeclared(rows[1..], markers)
    else Undeclared(rows[1..], markers)
  }

  lemma {:induction false} SelectUndeclared(d: Declarations, rows: seq<Row>, markers: seq<Marker>)
    requires forall k | 0 <= k < |rows| && IsOpen(rows[k]) ::
      DeclaredAside(d, Render(rows[k])) <==> DeclaredInDocument(markers, rows[k])
    ensures Select(d, NotAside, OpenEntries(rows)) == Undeclared(rows, markers)
  {
    if rows != [] {
      SelectUndeclared(d, rows[1..], markers);
    }
  }

  lemma RemainingAreUndeclared(rows: seq<Row>, markers: seq<Marker>, now: real)
    requires forall k | 0 <= k < |rows| :: SeverityValid(rows[k])
    ensures Remaining(Measure(rows, markers, now)) == Undeclared(rows, markers)
  {
    var d := Measure(rows, markers, now).declared;
    forall k | 0 <= k < |rows| && IsOpen(rows[k])
      ensures DeclaredAside(d, Render(rows[k])) <==> DeclaredInDocument(markers, rows[k])
    {
      OpenAsideExactlyWhenDeclared(rows, markers, now, k);
    }
    SelectUndeclared(d, rows, markers);
  }

  /** The verdict on the count, read off the rows left. */
  lemma CountVerdict(documented: Option<string>, rows: seq<Row>, markers: seq<Marker>, now: real)
    requires forall k | 0 <= k < |rows| :: SeverityValid(rows[k])
    ensures CheckAlerts(documented, Measure(rows, markers, now)) ==
      if documented.None? then Unknown
      else if documented.value == Decimal(|Undeclared(rows, markers)|) then Match
      else Mismatch
  {
    MeasuredCount(Measure(rows, markers, now));
    RemainingAreUndeclared(rows, markers, now);
  }

  predicate AllNamed(sentence: string, entries: seq<string>) {
    forall i | 0 <= i < |entries| :: Contains(sentence, TitleOf(entries[i]))
  }

  lemma {:induction false} NoneUnnamed(d: Declarations, sentence: string, entries: seq<string>)
    ensures Select(d, NotNamed(sentence), entries) == [] <==> AllNamed(sentence, Select(d, NotAside, entries))
  {
    if entries != [] {
      NoneUnnamed(d, sentence, entries[1..]);
      AllNamedCons(sentence, entries[0], Select(d, NotAside, entries[1..]));
    }
  }

  lemma AllNamedCons(sentence: string, entry: string, rest: seq<string>)
    ensures AllNamed(sentence, [entry] + rest) <==> Contains(sentence, TitleOf(entry)) && AllNamed(sentence, rest)
  {
    var all := [entry] + rest;
    assert all[0] == entry && forall i | 0 <= i < |rest| :: rest[i] == all[i + 1];
    assert forall i | 0 < i < |all| :: all[i] == rest[i - 1];
  }

  /** The verdict on the names, read off the rows left. */
  lemma NamesVerdict(sentence: Option<string>, rows: seq<Row>, markers: seq<Marker>, now: real)
    requires forall k | 0 <= k < |rows| :: SeverityValid(rows[k])
    ensures CheckOpenTitles(sentence, Measure(rows, markers, now)) ==
      if sentence.None? then Unknown
      else if AllNamed(sentence.value, Undeclared(rows, markers)) then Match
      else Mismatch
  {
    var facts := Measure(rows, markers, now);
    RemainingAreUndeclared(rows, markers, now);
    if sentence.Some? {
      NoneUnnamed(facts.declared, sentence.value, facts.openTitles);
    }
  }

  /** Whatever declared rows open, close or were resolved, and whenever the
      database is asked: the same undeclared open rows give the same two
      verdicts. */
  lemma DeclaredRowsNeverMoveAVerdict(documented: Option<string>, sentence: Option<string>, markers: seq<Marker>,
                                      rows: seq<Row>, now: real, later: seq<Row>, then_: real)
    requires forall k | 0 <= k < |rows| :: SeverityValid(rows[k])
    requires forall k | 0 <= k < |later| :: SeverityValid(later[k])
    requires Undeclared(rows, markers) == Undeclared(later, markers)
    ensures CheckAlerts(documented, Measure(rows, markers, now)) ==
      CheckAlerts(documented, Measure(later, markers, then_))
    ensures CheckOpenTitles(sentence, Measure(rows, markers, now)) ==
      CheckOpenTitles(sentence, Measure(later, markers, then_))
  {
    CountVerdict(documented, rows, markers, now);
    CountVerdict(documented, later, markers, then_);
    NamesVerdict(sentence, rows, markers, now);
    NamesVerdict(sentence, later, markers, then_);
  }

  /** A figure says one number: the documented count is the number it names. */
  lemma {:induction false} DecimalInjective(m: nat, n: nat)
    requires Decimal(m) == Decimal(n)
    ensures m == n
    decreases m
  {
    var a, b := Decimal(m), Decimal(n);
    assert a[|a| - 1] == Digit(m % 10) && b[|b| - 1] == Digit(n % 10);
    assert m % 10 == n % 10;
    DecimalLength(m);
    DecimalLength(n);
    if m >= 10 {
      assert a[..|a| - 1] == Decimal(m / 10) && b[..|b| - 1] == Decimal(n / 10);
      DecimalInjective(m / 10, n / 10);
    }
  }

  lemma DecimalLength(n: nat)
    ensures |Decimal(n)| == 1 <==> n < 10
    ensures |Decimal(n)| >= 1
  {
    if n >= 100 {
      DecimalLength(n / 10);
    }
  }

  // ---- Exactly when a declaration is reported as false ------------------------------------------------

  /** A flapping sentence quotes a title that was open for half of the window or
      more. */
  ghost predicate StandingDeclared(rows: seq<Row>, markers: seq<Marker>, now: real, title: string) {
    && title in CandidateSet(markers)
    && (exists k :: 0 <= k < |rows| && rows[k].title == title && Touches(rows[k], now))
    && 2.0 * OpenTime(rows, title, now) >= WINDOW
  }

  /** An open row louder than `info` belongs to a declared family. */
  ghost predicate LoudMemberOpen(rows: seq<Row>, markers: seq<Marker>, k: nat) {
    && k < |rows| && IsOpen(rows[k]) && rows[k].severity != "info"
    && InSomeFamily(PatternList(markers), rows[k].title)
  }

  lemma {:induction false} MarkerClaimFrom(markers: seq<Marker>, facts: Facts, v: Verdict) returns (k: nat)
    requires v in MarkerClaims(markers, facts)
    ensures k < |markers|
    ensures (markers[k].key == "flapping" && v in CheckFlapping(markers[k], facts))
         || (markers[k].key == "rotating" && v in CheckRotating(markers[k], facts))
  {
    if v in MarkerClaims(markers[1..], facts) {
      var k' := MarkerClaimFrom(markers[1..], facts, v);
      k := k' + 1;
    } else {
      k := 0;
    }
  }

  lemma {:induction false} FlappingClaimFrom(spans: seq<string>, facts: Facts, v: Verdict) returns (i: nat)
    requires v in FlappingClaims(spans, facts)
    ensures i < |spans| && spans[i] in facts.declared.flaps && v == FlappingClaim(facts.declared.flaps[spans[i]])
  {
    if v in FlappingClaims(spans[1..], facts) {
      var i' := FlappingClaimFrom(spans[1..], facts, v);
      i := i' + 1;
    } else {
      i := 0;
    }
  }

  lemma {:induction false} RotatingClaimFrom(spans: seq<string>, facts: Facts, v: Verdict) returns (i: nat)
    requires v in RotatingClaims(spans, facts)
    ensures i < |spans| && IsPattern(spans[i]) && spans[i] in facts.declared.families
    ensures v == RotatingClaim(spans[i], facts)
  {
    if v in RotatingClaims(spans[1..], facts) {
      var i' := RotatingClaimFrom(spans[1..], facts, v);
      i := i' + 1;
    } else {
      i := 0;
    }
  }

  lemma {:induction false} OpenEntryHasRow(rows: seq<Row>, entry: string) returns (k: nat)
    requires entry in OpenEntries(rows)
    ensures k < |rows| && IsOpen(rows[k]) && Render(rows[k]) == entry
  {
    if entry in OpenEntries(rows[1..]) {
      var k' := OpenEntryHasRow(rows[1..], entry);
      k := k' + 1;
    } else {
      k := 0;
    }
  }

  /** A family's claim fails exactly when it has a loud open member. */
  lemma RotatingClaimMeans(pattern: string, facts: Facts)
    ensures RotatingClaim(pattern, facts) == Mismatch <==>
      exists entry :: entry in facts.openTitles && FamilyOf(entry, facts.declared.families) == Some(pattern)
                      && !("info: " <= entry)
    ensures RotatingClaim(pattern, facts) != Unknown
  {
    var loud := Select(facts.declared, LoudMember(pattern), facts.openTitles);
    if loud != [] {
      Selected(facts.declared, LoudMember(pattern), facts.openTitles, loud[0]);
    }
    if entry :| entry in facts.openTitles && FamilyOf(entry, facts.declared.families) == Some(pattern)
                && !("info: " <= entry) {
      Selected(facts.declared, LoudMember(pattern), facts.openTitles, entry);
    }
  }

  lemma StandingIsReported(rows: seq<Row>, markers: seq<Marker>, now: real, title: string)
    requires StandingDeclared(rows, markers, now, title)
    ensures Mismatch in MarkerClaims(markers, Measure(rows, markers, now))
  {
    var facts := Measure(rows, markers, now);
    ReadingIsOpenTime(rows, CandidateSet(markers), now, title);
    var k, i :| 0 <= k < |markers| && markers[k].key == "flapping"
             && 0 <= i < |markers[k].spans| && markers[k].spans[i] == title;
    FlappingClaimListed(markers[k].spans, facts, i);
    MarkerClaimListed(markers, facts, k, FlappingClaim(facts.declared.flaps[title]));
  }

  lemma LoudIsReported(rows: seq<Row>, markers: seq<Marker>, now: real, k: nat)
    requires LoudMemberOpen(rows, markers, k) && SeverityValid(rows[k])
    ensures Mismatch in MarkerClaims(markers, Measure(rows, markers, now))
  {
    var facts, entry := Measure(rows, markers, now), Render(rows[k]);
    NoColon(rows[k]);
    TitleOfRender(rows[k].severity, rows[k].title);
    SeverityOf(rows[k].severity, rows[k].title);
    OpenEntryOf(rows, k);
    OpenFamilyExactlyWhenDeclared(rows, PatternList(markers), now, k);
    FamilyIsJudged(rows, markers, now, entry);
    RotatingClaimMeans(FamilyOf(entry, facts.declared.families).value, facts);
  }

  lemma MismatchHasCause(rows: seq<Row>, markers: seq<Marker>, now: real)
    requires forall k | 0 <= k < |rows| :: SeverityValid(rows[k])
    requires Mismatch in MarkerClaims(markers, Measure(rows, markers, now))
    ensures (exists title :: StandingDeclared(rows, markers, now, title))
         || (exists k: nat :: LoudMemberOpen(rows, markers, k))
  {
    var facts := Measure(rows, markers, now);
    var k := MarkerClaimFrom(markers, facts, Mismatch);
    if markers[k].key == "flapping" {
      var i := FlappingClaimFrom(markers[k].spans, facts, Mismatch);
      ReadingIsOpenTime(rows, CandidateSet(markers), now, markers[k].spans[i]);
      assert StandingDeclared(rows, markers, now, markers[k].spans[i]);
    } else {
      var i := RotatingClaimFrom(markers[k].spans, facts, Mismatch);
      var pattern := markers[k].spans[i];
      RotatingClaimMeans(pattern, facts);
      var entry :| entry in facts.openTitles && FamilyOf(entry, facts.declared.families) == Some(pattern)
                && !("info: " <= entry);
      var r := OpenEntryHasRow(rows, entry);
      NoColon(rows[r]);
      TitleOfRender(rows[r].severity, rows[r].title);
      SeverityOf(rows[r].severity, rows[r].title);
      OpenFamilyExactlyWhenDeclared(rows, PatternList(markers), now, r);
      assert LoudMemberOpen(rows, markers, r);
    }
  }

  /** The checks of the declarations report a mismatch exactly when something loud
      was declared away: a title open for half of the window or more, or an open
      row above `info` in a declared family. */
  lemma DeclarationsFailExactlyWhenLoud(rows: seq<Row>, markers: seq<Marker>, now: real)
    requires forall k | 0 <= k < |rows| :: SeverityValid(rows[k])
    ensures Mismatch in MarkerClaims(markers, Measure(rows, markers, now)) <==>
      || (exists title :: StandingDeclared(rows, markers, now, title))
      || (exists k: nat :: LoudMemberOpen(rows, markers, k))
  {
    if title :| StandingDeclared(rows, markers, now, title) {
      StandingIsReported(rows, markers, now, title);
    }
    if k: nat :| LoudMemberOpen(rows, markers, k) {
      LoudIsReported(rows, markers, now, k);
    }
    if Mismatch in MarkerClaims(markers, Measure(rows, markers, now)) {
      MismatchHasCause(rows, markers, now);
    }
  }

  /** A marker that sets nothing aside is reported as unknown, and nothing else
      is. */
  lemma NothingDeclaredIsUnknown(marker: Marker, facts: Facts)
    ensures Unknown in CheckFlapping(marker, facts) <==>
      facts.unresolved.None? || forall i | 0 <= i < |marker.spans| :: marker.spans[i] !in facts.declared.flaps
    ensures Unknown in CheckRotating(marker, facts) <==>
      || facts.unresolved.None?
      || forall i | 0 <= i < |marker.spans| ::
           !(IsPattern(marker.spans[i]) && marker.spans[i] in facts.declared.families)
  {
    if FlappingClaims(marker.spans, facts) != [] {
      var i := FlappingClaimFrom(marker.spans, facts, FlappingClaims(marker.spans, facts)[0]);
    }
    if RotatingClaims(marker.spans, facts) != [] {
      var i := RotatingClaimFrom(marker.spans, facts, RotatingClaims(marker.spans, facts)[0]);
    }
    if i :| 0 <= i < |marker.spans| && marker.spans[i] in facts.declared.flaps {
      FlappingClaimListed(marker.spans, facts, i);
    }
    if i :| 0 <= i < |marker.spans| && IsPattern(marker.spans[i]) && marker.spans[i] in facts.declared.families {
      RotatingClaimListed(marker.spans, facts, i);
    }
    ClaimsAreDecided(marker.spans, facts);
  }

  lemma {:induction false} ClaimsAreDecided(spans: seq<string>, facts: Facts)
    ensures Unknown !in FlappingClaims(spans, facts) && Unknown !in RotatingClaims(spans, facts)
  {
    if spans != [] {
      ClaimsAreDecided(spans[1..], facts);
    }
  }

  // ---- What the document quotes ----------------------------------------------------------------------------

  /** Some marker of that kind stands in a sentence that quotes the text. */
  ghost predicate Quoted(markers: seq<Marker>, key: string, text: string) {
    exists marker :: marker in markers && marker.key == key && text in marker.spans
  }

  /** The candidates are all the titles that flapping sentences quote. */
  lemma CandidatesAreQuoted(markers: seq<Marker>, title: string)
    ensures title in CandidateSet(markers) <==> Quoted(markers, "flapping", title)
  {
    if marker :| marker in markers && marker.key == "flapping" && title in marker.spans {
      var k :| 0 <= k < |markers| && markers[k] == marker;
      var i :| 0 <= i < |marker.spans| && marker.spans[i] == title;
      assert markers[k].spans[i] in CandidateSet(markers);
    }
  }

  /** The patterns are all the texts with a `%` that rotating sentences quote. */
  lemma {:induction false} PatternsAreQuoted(markers: seq<Marker>, pattern: string)
    ensures pattern in PatternList(markers) <==> '%' in pattern && Quoted(markers, "rotating", pattern)
  {
    if markers != [] {
      PatternsAreQuoted(markers[1..], pattern);
      PatternSpan(markers[0].spans, pattern);
      assert markers[0] in markers;
      assert forall marker :: marker in markers <==> marker == markers[0] || marker in markers[1..];
    }
  }

  // ---- Figures -------------------------------------------------------------------------------------------

  /** What a decimal figure says. */
  function Value(figure: string): int {
    if figure == "" then 0 else 10 * Value(figure[..|figure| - 1]) + (figure[|figure| - 1] as int - '0' as int)
  }

  /** The figure printed says the number. */
  lemma {:induction false} DecimalSays(n: nat)
    ensures Value(Decimal(n)) == n
  {
    DigitSays(n % 10);
    if n < 10 {
      assert Decimal(n)[..0] == "";
    } else {
      DecimalSays(n / 10);
      assert Decimal(n)[..|Decimal(n)| - 1] == Decimal(n / 10);
    }
  }

  lemma DigitSays(n: nat)
    requires n < 10
    ensures Digit(n) as int - '0' as int == n
  {
  }
}
