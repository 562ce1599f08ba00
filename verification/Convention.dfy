/** The register's own bookkeeping: does every marker, check and entry have its
    counterpart, and does every open entry say whether work is owed on it
    (sysadmin/snag_claims.py, `check_convention`, `check_dispositions`,
    `disposition_word`). */
module Convention {
  import opened Ordering
  import opened Sums
  import opened Text
  import opened Verdicts

  /** `status` is the first `Status` value the entry's body declares. */
  datatype Entry = Entry(
    snagId: Option<string>, title: string, isOpen: bool, markers: seq<string>, status: Option<string>)

  /** `entry.snag_id or entry.title[:40]` */
  function NameOf(entry: Entry): string {
    if entry.snagId.Some? && entry.snagId.value != "" then entry.snagId.value
    else if |entry.title| <= 40 then entry.title
    else entry.title[..40]
  }

  /** Check key to the snag id it is about. */
  type Checks = map<string, string>

  datatype Finding =
    | DocumentUnreadable
    | UnknownMarker(key: string, namedBy: seq<string>)
    | BrokenPin(key: string, carriedBy: seq<string>)
    | Unchecked(verdict: Verdict, names: seq<string>, openTotal: nat)

  function VerdictOf(f: Finding): Verdict {
    if f.Unchecked? then f.verdict else Unknown
  }

  // ---- The three pairings ------------------------------------------------------------------

  /** How often `key` stands among the markers. */
  function Times(markers: seq<string>, key: string): nat {
    if markers == [] then 0 else (if markers[|markers| - 1] == key then 1 else 0) + Times(markers[..|markers| - 1], key)
  }

  function Repeated(name: string, n: nat): seq<string> {
    if n == 0 then [] else Repeated(name, n - 1) + [name]
  }

  /** The names of the entries carrying the marker, once per occurrence. */
  function Carriers(entries: seq<Entry>, key: string): seq<string> {
    if entries == [] then []
    else
      var last := entries[|entries| - 1];
      Carriers(entries[..|entries| - 1], key) + Repeated(NameOf(last), Times(last.markers, key))
  }

  /** Every key some marker names. */
  function MarkedKeys(entries: seq<Entry>): set<string> {
    set k, i | 0 <= k < |entries| && 0 <= i < |entries[k].markers| :: entries[k].markers[i]
  }

  /** The entry is open and no check is about it. */
  predicate IsUnchecked(entry: Entry, checks: Checks) {
    entry.isOpen && IdOf(entry) !in checks.Values
  }

  /** `entry.snag_id or ""` */
  function IdOf(entry: Entry): string {
    if entry.snagId.Some? then entry.snagId.value else ""
  }

  function UncheckedNames(entries: seq<Entry>, checks: Checks): seq<string> {
    if entries == [] then []
    else
      var front, last := UncheckedNames(entries[..|entries| - 1], checks), entries[|entries| - 1];
      if IsUnchecked(last, checks) then front + [NameOf(last)] else front
  }

  function OpenCount(entries: seq<Entry>): nat {
    if entries == [] then 0
    else (if entries[|entries| - 1].isOpen then 1 else 0) + OpenCount(entries[..|entries| - 1])
  }

  function UncheckedLine(entries: seq<Entry>, checks: Checks): Finding {
    var names, total := UncheckedNames(entries, checks), OpenCount(entries);
    Unchecked(if names == [] && total > 0 then Match else Unknown, names, total)
  }

  // ---- The sweep as the code runs it ---------------------------------------------------------

  lemma {:induction false} UnmarkedHasNoCarriers(entries: seq<Entry>, key: string)
    ensures key in MarkedKeys(entries) <==> Carriers(entries, key) != []
  {
    if entries != [] {
      var front, last := entries[..|entries| - 1], entries[|entries| - 1];
      UnmarkedHasNoCarriers(front, key);
      TimesZero(last.markers, key);
      RepeatedLength(NameOf(last), Times(last.markers, key));
      assert key in MarkedKeys(entries) <==> key in MarkedKeys(front) || key in last.markers by {
        if key in last.markers {
          var i :| 0 <= i < |last.markers| && last.markers[i] == key;
          assert entries[|entries| - 1].markers[i] in MarkedKeys(entries);
        }
        if key in MarkedKeys(front) {
          var k, i :| 0 <= k < |front| && 0 <= i < |front[k].markers| && front[k].markers[i] == key;
          assert entries[k].markers[i] in MarkedKeys(entries);
        }
        if key in MarkedKeys(entries) {
          var k, i :| 0 <= k < |entries| && 0 <= i < |entries[k].markers| && entries[k].markers[i] == key;
          assert k < |front| ==> front[k].markers[i] in MarkedKeys(front);
        }
      }
    }
  }

  lemma {:induction false} TimesZero(markers: seq<string>, key: string)
    ensures Times(markers, key) > 0 <==> key in markers
  {
    if markers != [] {
      TimesZero(markers[..|markers| - 1], key);
      assert markers == markers[..|markers| - 1] + [markers[|markers| - 1]];
    }
  }

  lemma {:induction false} RepeatedLength(name: string, n: nat)
    ensures |Repeated(name, n)| == n
    ensures forall i | 0 <= i < n :: Repeated(name, n)[i] == name
  {
    if n > 0 {
      RepeatedLength(name, n - 1);
    }
  }

  /** `marked.get(key, [])` */
  function Get(marked: map<string, seq<string>>, key: string): seq<string> {
    if key in marked then marked[key] else []
  }

  /** `after` is `before` with `name` appended once per marker. */
  ghost predicate Appended(before: map<string, seq<string>>, after: map<string, seq<string>>, name: string,
                           markers: seq<string>)
  {
    forall key :: Get(after, key) == Get(before, key) + Repeated(name, Times(markers, key))
  }

  lemma TimesOneMore(markers: seq<string>, key: string, other: string)
    ensures Times(markers + [key], other) == Times(markers, other) + if key == other then 1 else 0
  {
    assert (markers + [key])[..|markers|] == markers;
  }

  lemma AppendedOneMore(before: map<string, seq<string>>, after: map<string, seq<string>>, name: string,
                        markers: seq<string>, key: string)
    requires Appended(before, after, name, markers)
    ensures Appended(before, after[key := Get(after, key) + [name]], name, markers + [key])
  {
    var later := after[key := Get(after, key) + [name]];
    forall other ensures Get(later, other) == Get(before, other) + Repeated(name, Times(markers + [key], other)) {
      AppendedAt(Get(before, other), Get(after, other), name, markers, key, other);
      assert Get(later, other) == if other == key then Get(after, other) + [name] else Get(after, other);
    }
  }

  lemma AppendedAt(before: seq<string>, after: seq<string>, name: string, markers: seq<string>, key: string,
                   other: string)
    requires after == before + Repeated(name, Times(markers, other))
    ensures (if other == key then after + [name] else after) == before + Repeated(name, Times(markers + [key], other))
  {
    TimesOneMore(markers, key, other);
    RepeatedOneMore(before, name, Times(markers, other));
  }

  lemma RepeatedOneMore(names: seq<string>, name: string, n: nat)
    ensures names + Repeated(name, n) + [name] == names + Repeated(name, n + 1)
  {
  }

  ghost predicate NoneEmpty(marked: map<string, seq<string>>) {
    forall key | key in marked :: marked[key] != []
  }

  /** `marked.setdefault(key, []).append(name)` for every marker of one entry. */
  method MarkEntry(before: map<string, seq<string>>, entry: Entry) returns (marked: map<string, seq<string>>)
    requires NoneEmpty(before)
    ensures Appended(before, marked, NameOf(entry), entry.markers) && NoneEmpty(marked)
  {
    marked := before;
    var name, markers := NameOf(entry), entry.markers;
    for i := 0 to |markers|
      invariant Appended(before, marked, name, markers[..i]) && NoneEmpty(marked)
    {
      AppendedOneMore(before, marked, name, markers[..i], markers[i]);
      assert markers[..i + 1] == markers[..i] + [markers[i]];
      marked := marked[markers[i] := Get(marked, markers[i]) + [name]];
    }
    assert markers[..|markers|] == markers;
  }

  /** The dictionary from marker to carriers, over every entry. */
  method MarkedBy(entries: seq<Entry>) returns (marked: map<string, seq<string>>)
    ensures forall key :: Get(marked, key) == Carriers(entries, key)
    ensures marked.Keys == MarkedKeys(entries)
  {
    marked := map[];
    for k := 0 to |entries|
      invariant forall key :: Get(marked, key) == Carriers(entries[..k], key)
      invariant NoneEmpty(marked)
    {
      var next := MarkEntry(marked, entries[k]);
      forall key ensures Get(next, key) == Carriers(entries[..k + 1], key) {
        assert entries[..k + 1][..k] == entries[..k];
        assert Get(next, key) == Get(marked, key) + Repeated(NameOf(entries[k]), Times(entries[k].markers, key));
      }
      marked := next;
    }
    assert entries[..|entries|] == entries;
    forall key ensures key in marked <==> key in MarkedKeys(entries) {
      UnmarkedHasNoCarriers(entries, key);
      assert Get(marked, key) == Carriers(entries, key);
    }
  }

  function MarkerFindings(entries: seq<Entry>, keys: seq<string>): seq<Finding> {
    if keys == [] then []
    else
      var front, key := MarkerFindings(entries, keys[..|keys| - 1]), keys[|keys| - 1];
      front + [UnknownMarker(key, Carriers(entries, key))]
  }

  /** The pins that do not hold, in key order. */
  function PinFindings(entries: seq<Entry>, checks: Checks, keys: seq<string>): seq<Finding>
    requires AllChecks(checks, keys)
  {
    if keys == [] then []
    else
      var front, key := PinFindings(entries, checks, keys[..|keys| - 1]), keys[|keys| - 1];
      if checks[key] in Carriers(entries, key) then front else front + [BrokenPin(key, Carriers(entries, key))]
  }

  /** The findings of one readable document, `orphans` and `pins` being the
      sorted keys the two loops walk. */
  function Findings(entries: seq<Entry>, checks: Checks, orphans: seq<string>, pins: seq<string>): seq<Finding>
    requires AllChecks(checks, pins)
  {
    MarkerFindings(entries, orphans) + PinFindings(entries, checks, pins) + [UncheckedLine(entries, checks)]
  }

  predicate AllChecks(checks: Checks, keys: seq<string>) {
    forall i | 0 <= i < |keys| :: keys[i] in checks
  }

  ghost predicate AreOrphans(entries: seq<Entry>, checks: Checks, orphans: seq<string>) {
    Increasing(orphans) && Elements(orphans) == MarkedKeys(entries) - checks.Keys
  }

  ghost predicate ArePins(checks: Checks, pins: seq<string>) {
    Increasing(pins) && Elements(pins) == checks.Keys
  }

  method FindOrphans(ghost entries: seq<Entry>, marked: map<string, seq<string>>, orphans: seq<string>)
    returns (findings: seq<Finding>)
    requires forall key :: Get(marked, key) == Carriers(entries, key)
    requires forall i | 0 <= i < |orphans| :: orphans[i] in marked
    ensures findings == MarkerFindings(entries, orphans)
  {
    findings := [];
    for i := 0 to |orphans|
      invariant findings == MarkerFindings(entries, orphans[..i])
    {
      assert orphans[..i + 1][..i] == orphans[..i];
      assert Get(marked, orphans[i]) == Carriers(entries, orphans[i]);
      findings := findings + [UnknownMarker(orphans[i], marked[orphans[i]])];
    }
    assert orphans[..|orphans|] == orphans;
  }

  method FindBrokenPins(ghost entries: seq<Entry>, marked: map<string, seq<string>>, checks: Checks, pins: seq<string>)
    returns (findings: seq<Finding>)
    requires forall key :: Get(marked, key) == Carriers(entries, key)
    requires AllChecks(checks, pins)
    ensures findings == PinFindings(entries, checks, pins)
  {
    findings := [];
    for i := 0 to |pins|
      invariant findings == PinFindings(entries, checks, pins[..i])
    {
      assert pins[..i + 1][..i] == pins[..i];
      var carriers := Get(marked, pins[i]);
      if checks[pins[i]] !in carriers {
        findings := findings + [BrokenPin(pins[i], carriers)];
      }
    }
    assert pins[..|pins|] == pins;
  }

  method FindUnchecked(entries: seq<Entry>, checks: Checks) returns (finding: Finding)
    ensures finding == UncheckedLine(entries, checks)
  {
    var total, names := 0, [];
    for k := 0 to |entries|
      invariant total == OpenCount(entries[..k]) && names == UncheckedNames(entries[..k], checks)
    {
      assert entries[..k + 1][..k] == entries[..k];
      if entries[k].isOpen {
        total := total + 1;
        if IdOf(entries[k]) !in checks.Values {
          names := names + [NameOf(entries[k])];
        }
      }
    }
    assert entries[..|entries|] == entries;
    if names != [] {
      finding := Unchecked(Unknown, names, total);
    } else if total > 0 {
      finding := Unchecked(Match, [], total);
    } else {
      finding := Unchecked(Unknown, [], 0);
    }
  }

  /** `check_convention`.  A readable document's report is one `match` line
      exactly when document and registry are in step, and in every state its
      last line, and no other, is the one about unchecked entries. */
  method CheckConvention(entries: seq<Entry>, problem: bool, checks: Checks) returns (findings: seq<Finding>)
    ensures problem ==> findings == [DocumentUnreadable]
    ensures !problem ==> IsReport(findings, entries, checks)
    ensures !problem ==> (IsClean(findings) <==> InStep(entries, checks))
    ensures !problem ==> EndsInOneUncheckedLine(findings)
  {
    if problem {
      return [DocumentUnreadable];
    }
    var marked := MarkedBy(entries);
    var orphans := SortStrings(marked.Keys - checks.Keys);
    forall i | 0 <= i < |orphans| ensures orphans[i] in marked { assert orphans[i] in Elements(orphans); }
    var pins := SortStrings(checks.Keys);
    forall i | 0 <= i < |pins| ensures pins[i] in checks { assert pins[i] in Elements(pins); }
    var first := FindOrphans(entries, marked, orphans);
    var second := FindBrokenPins(entries, marked, checks, pins);
    var third := FindUnchecked(entries, checks);
    findings := first + second + [third];
    ReportMeans(findings, entries, checks, orphans, pins);
  }

  ghost predicate IsReport(findings: seq<Finding>, entries: seq<Entry>, checks: Checks) {
    exists orphans: seq<string>, pins: seq<string> ::
      && AreOrphans(entries, checks, orphans) && ArePins(checks, pins) && AllChecks(checks, pins)
      && findings == Findings(entries, checks, orphans, pins)
  }

  predicate IsClean(findings: seq<Finding>) {
    |findings| == 1 && VerdictOf(findings[0]) == Match
  }

  predicate EndsInOneUncheckedLine(findings: seq<Finding>) {
    && |findings| > 0 && findings[|findings| - 1].Unchecked?
    && forall i | 0 <= i < |findings| - 1 :: !findings[i].Unchecked? && VerdictOf(findings[i]) == Unknown
  }

  // ---- What a clean report means ---------------------------------------------------------------

  lemma {:induction false} NoMarkerFindings(entries: seq<Entry>, keys: seq<string>)
    ensures |MarkerFindings(entries, keys)| == |keys|
    ensures forall i | 0 <= i < |keys| :: MarkerFindings(entries, keys)[i].UnknownMarker?
  {
    if keys != [] {
      NoMarkerFindings(entries, keys[..|keys| - 1]);
    }
  }

  lemma {:induction false} NoPinFindings(entries: seq<Entry>, checks: Checks, keys: seq<string>)
    requires AllChecks(checks, keys)
    ensures PinFindings(entries, checks, keys) == [] <==> AllPinsHold(entries, checks, keys)
    ensures forall i | 0 <= i < |PinFindings(entries, checks, keys)| :: PinFindings(entries, checks, keys)[i].BrokenPin?
  {
    if keys != [] {
      NoPinFindings(entries, checks, keys[..|keys| - 1]);
    }
  }

  predicate AllPinsHold(entries: seq<Entry>, checks: Checks, keys: seq<string>)
    requires AllChecks(checks, keys)
  {
    forall i | 0 <= i < |keys| :: checks[keys[i]] in Carriers(entries, keys[i])
  }

  /** Some entry of that name carries the marker. */
  predicate Carries(entries: seq<Entry>, key: string, name: string) {
    exists k :: 0 <= k < |entries| && CarriesIt(entries[k], key, name)
  }

  predicate CarriesIt(entry: Entry, key: string, name: string) {
    key in entry.markers && NameOf(entry) == name
  }

  lemma {:induction false} CarrierIs(entries: seq<Entry>, key: string, name: string)
    ensures name in Carriers(entries, key) <==> Carries(entries, key, name)
  {
    if entries != [] {
      var front, last := entries[..|entries| - 1], entries[|entries| - 1];
      CarrierIs(front, key, name);
      NameInRepeated(last, key, name);
      assert Carries(entries, key, name) <==> Carries(front, key, name) || CarriesIt(last, key, name) by {
        if k :| 0 <= k < |front| && CarriesIt(front[k], key, name) {
          assert CarriesIt(entries[k], key, name);
        }
        if k :| 0 <= k < |entries| && CarriesIt(entries[k], key, name) {
          assert k < |front| ==> CarriesIt(front[k], key, name);
        }
      }
    }
  }

  lemma NameInRepeated(entry: Entry, key: string, name: string)
    ensures name in Repeated(NameOf(entry), Times(entry.markers, key)) <==> CarriesIt(entry, key, name)
  {
    var n := Times(entry.markers, key);
    TimesZero(entry.markers, key);
    RepeatedLength(NameOf(entry), n);
    if n > 0 {
      assert Repeated(NameOf(entry), n)[0] == NameOf(entry);
    }
  }

  lemma {:induction false} NoneUnchecked(entries: seq<Entry>, checks: Checks)
    ensures UncheckedNames(entries, checks) == [] <==> forall k | 0 <= k < |entries| :: !IsUnchecked(entries[k], checks)
    ensures OpenCount(entries) > 0 <==> exists k :: 0 <= k < |entries| && entries[k].isOpen
  {
    if entries != [] {
      var front, last := entries[..|entries| - 1], entries[|entries| - 1];
      NoneUnchecked(front, checks);
      if k :| 0 <= k < |entries| && entries[k].isOpen {
        assert k < |front| ==> front[k].isOpen;
      }
      if k :| 0 <= k < |front| && front[k].isOpen {
        assert entries[k].isOpen;
      }
    }
  }

  /** Every marker names a check. */
  ghost predicate MarkersNameChecks(entries: seq<Entry>, checks: Checks) {
    forall k, i | 0 <= k < |entries| && 0 <= i < |entries[k].markers| :: entries[k].markers[i] in checks
  }

  /** Every check's entry carries its marker. */
  ghost predicate ChecksAreCarried(entries: seq<Entry>, checks: Checks) {
    forall key | key in checks :: Carries(entries, key, checks[key])
  }

  /** There is an open entry, and every open entry has a check. */
  ghost predicate OpenAreChecked(entries: seq<Entry>, checks: Checks) {
    && (exists k :: 0 <= k < |entries| && entries[k].isOpen)
    && (forall k | 0 <= k < |entries| && entries[k].isOpen :: HasCheck(entries[k], checks))
  }

  /** Some check is about the entry. */
  ghost predicate HasCheck(entry: Entry, checks: Checks) {
    exists key :: key in checks && checks[key] == IdOf(entry)
  }

  lemma UncheckedExactly(entry: Entry, checks: Checks)
    ensures IsUnchecked(entry, checks) <==> entry.isOpen && !HasCheck(entry, checks)
  {
  }

  /** Document and registry are in step. */
  ghost predicate InStep(entries: seq<Entry>, checks: Checks) {
    MarkersNameChecks(entries, checks) && ChecksAreCarried(entries, checks) && OpenAreChecked(entries, checks)
  }

  lemma LastLineIsUnchecked(entries: seq<Entry>, checks: Checks, orphans: seq<string>, pins: seq<string>)
    requires AllChecks(checks, pins)
    ensures EndsInOneUncheckedLine(Findings(entries, checks, orphans, pins))
  {
    NoMarkerFindings(entries, orphans);
    NoPinFindings(entries, checks, pins);
  }

  /** A clean convention report, one `match` line and nothing else, means
      exactly that document and registry are in step. */
  lemma CleanReportMeans(entries: seq<Entry>, checks: Checks, orphans: seq<string>, pins: seq<string>)
    requires AreOrphans(entries, checks, orphans) && ArePins(checks, pins) && AllChecks(checks, pins)
    ensures IsClean(Findings(entries, checks, orphans, pins)) <==> InStep(entries, checks)
  {
    var first, second := MarkerFindings(entries, orphans), PinFindings(entries, checks, pins);
    var third := UncheckedLine(entries, checks);
    CleanExactlyWhenEachIs(first, second, third);
    assert first == [] <==> MarkersNameChecks(entries, checks) by {
      NoMarkerFindings(entries, orphans);
      OrphansMean(entries, checks, orphans);
    }
    assert second == [] <==> ChecksAreCarried(entries, checks) by {
      NoPinFindings(entries, checks, pins);
      PinsMean(entries, checks, pins);
    }
    assert third.verdict == Match <==> OpenAreChecked(entries, checks) by {
      NoneUnchecked(entries, checks);
      forall k | 0 <= k < |entries|
        ensures IsUnchecked(entries[k], checks) <==> entries[k].isOpen && !HasCheck(entries[k], checks)
      {
        UncheckedExactly(entries[k], checks);
      }
    }
  }

  lemma CleanExactlyWhenEachIs(first: seq<Finding>, second: seq<Finding>, third: Finding)
    ensures IsClean(first + second + [third]) <==> first == [] && second == [] && VerdictOf(third) == Match
  {
    assert |first + second + [third]| == |first| + |second| + 1;
    if first == [] && second == [] {
      assert first + second + [third] == [third];
    }
  }

  lemma ReportMeans(findings: seq<Finding>, entries: seq<Entry>, checks: Checks, orphans: seq<string>,
                    pins: seq<string>)
    requires AreOrphans(entries, checks, orphans) && ArePins(checks, pins) && AllChecks(checks, pins)
    requires findings == Findings(entries, checks, orphans, pins)
    ensures IsReport(findings, entries, checks)
    ensures IsClean(findings) <==> InStep(entries, checks)
    ensures EndsInOneUncheckedLine(findings)
  {
    CleanReportMeans(entries, checks, orphans, pins);
    LastLineIsUnchecked(entries, checks, orphans, pins);
  }

  lemma OrphansMean(entries: seq<Entry>, checks: Checks, orphans: seq<string>)
    requires AreOrphans(entries, checks, orphans)
    ensures orphans == [] <==> MarkersNameChecks(entries, checks)
  {
    NoElements(orphans);
    if orphans != [] {
      assert orphans[0] in Elements(orphans);
    } else {
      assert MarkedKeys(entries) - checks.Keys == {};
      forall k, i | 0 <= k < |entries| && 0 <= i < |entries[k].markers|
        ensures entries[k].markers[i] in checks
      {
        assert entries[k].markers[i] in MarkedKeys(entries);
        assert entries[k].markers[i] !in MarkedKeys(entries) - checks.Keys;
      }
    }
  }

  lemma PinsMean(entries: seq<Entry>, checks: Checks, pins: seq<string>)
    requires ArePins(checks, pins) && AllChecks(checks, pins)
    ensures AllPinsHold(entries, checks, pins) <==> ChecksAreCarried(entries, checks)
  {
    forall key | key in checks
      ensures checks[key] in Carriers(entries, key) <==> Carries(entries, key, checks[key])
    {
      CarrierIs(entries, key, checks[key]);
    }
    forall key | key in checks ensures key in pins { assert key in Elements(pins); }
  }

  // ---- Dispositions ------------------------------------------------------------------------------

  const DISPOSITIONS := ["owed", "blocked", "decided", "delegated"]
  const PREFIX := "Open \U{2014} "

  /** `disposition_word`: the word after the prefix, up to a comma or a space. */
  function DispositionWord(value: string): string {
    if PREFIX <= value then Lower(Strip(UpTo(UpTo(value[|PREFIX|..], ','), ' '))) else ""
  }

  /** The value reads: prefix, a word free of commas and spaces, and then
      nothing, a comma or a space. */
  ghost predicate ReadsAs(value: string, raw: string, tail: string) {
    && value == PREFIX + raw + tail
    && ',' !in raw && ' ' !in raw
    && (tail == "" || tail[0] == ',' || tail[0] == ' ')
  }

  /** A value declares a disposition exactly when it is anchored and its first
      word, white space and case aside, is that disposition. */
  lemma DeclaresExactlyWhen(value: string, word: string)
    requires word in DISPOSITIONS
    ensures DispositionWord(value) == word <==>
      exists raw, tail :: ReadsAs(value, raw, tail) && Lower(Strip(raw)) == word
  {
    if DispositionWord(value) == word {
      NoWordIsEmpty();
      var raw := AnchoredReads(value);
    }
    forall raw, tail | ReadsAs(value, raw, tail) ensures DispositionWord(value) == Lower(Strip(raw)) {
      ReadsDeclares(value, raw, tail);
    }
  }

  lemma NoWordIsEmpty()
    ensures "" !in DISPOSITIONS
  {
    assert forall k | 0 <= k < |DISPOSITIONS| :: |DISPOSITIONS[k]| > 0;
  }

  lemma AnchoredReads(value: string) returns (raw: string)
    requires PREFIX <= value
    ensures exists tail :: ReadsAs(value, raw, tail)
    ensures DispositionWord(value) == Lower(Strip(raw))
  {
    var rest := value[|PREFIX|..];
    raw := UpTo(UpTo(rest, ','), ' ');
    FirstWordCuts(rest);
    assert value == PREFIX + raw + rest[|raw|..];
    assert ReadsAs(value, raw, rest[|raw|..]);
  }

  lemma ReadsDeclares(value: string, raw: string, tail: string)
    requires ReadsAs(value, raw, tail)
    ensures DispositionWord(value) == Lower(Strip(raw))
  {
    assert PREFIX <= value && value[|PREFIX|..] == raw + tail;
    FirstWordIs(raw, tail);
  }

  lemma FirstWordCuts(rest: string)
    ensures var raw := UpTo(UpTo(rest, ','), ' ');
      && raw <= rest && ',' !in raw && ' ' !in raw
      && (|raw| == |rest| || rest[|raw|] == ',' || rest[|raw|] == ' ')
  {
  }

  lemma FirstWordIs(raw: string, tail: string)
    requires ',' !in raw && ' ' !in raw && (tail == "" || tail[0] == ',' || tail[0] == ' ')
    ensures UpTo(UpTo(raw + tail, ','), ' ') == raw
  {
    var clause := UpTo(raw + tail, ',');
    UpToKeeps(raw, tail, ',');
    assert clause == raw + UpTo(tail, ',');
    UpToKeeps(raw, UpTo(tail, ','), ' ');
    assert UpTo(UpTo(tail, ','), ' ') == "";
  }

  lemma {:induction false} UpToKeeps(raw: string, tail: string, c: char)
    requires c !in raw
    ensures UpTo(raw + tail, c) == raw + UpTo(tail, c)
  {
    if raw == "" {
      assert raw + tail == tail;
    } else {
      assert (raw + tail)[1..] == raw[1..] + tail;
      UpToKeeps(raw[1..], tail, c);
    }
  }

  datatype Fault = NoWord | StrangeWord | Closes

  /** `rule` is the owner's closure rule, when it could be imported. */
  predicate Has(entry: Entry, fault: Fault, rule: Option<string -> bool>) {
    && entry.isOpen
    && match fault
       case NoWord => entry.status.None?
       case StrangeWord => entry.status.Some? && DispositionWord(entry.status.value) !in DISPOSITIONS
       case Closes => entry.status.Some? && rule.Some? && rule.value(entry.status.value)
  }

  /** The entries with the fault, named in document order. */
  function Faulty(entries: seq<Entry>, fault: Fault, rule: Option<string -> bool>): seq<string> {
    if entries == [] then []
    else
      var front, last := Faulty(entries[..|entries| - 1], fault, rule), entries[|entries| - 1];
      if Has(last, fault, rule) then front + [NameOf(last)] else front
  }

  predicate Declares(entry: Entry, word: string) {
    entry.isOpen && entry.status.Some? && DispositionWord(entry.status.value) == word
  }

  function Tally(entries: seq<Entry>, word: string): nat {
    if entries == [] then 0
    else (if Declares(entries[|entries| - 1], word) then 1 else 0) + Tally(entries[..|entries| - 1], word)
  }

  /** What the sweep's one line leads with. */
  datatype Note =
    | NoPopulation
    | WouldClose(closing: seq<string>)
    | Undeclared(missing: seq<string>)
    | OutsideVocabulary(strange: seq<string>)
    | AllDeclared

  /** The first fault in the code's order of precedence leads. */
  function NoteOf(total: nat, closing: seq<string>, missing: seq<string>, strange: seq<string>): Note {
    if total == 0 then NoPopulation
    else if closing != [] then WouldClose(closing)
    else if missing != [] then Undeclared(missing)
    else if strange != [] then OutsideVocabulary(strange)
    else AllDeclared
  }

  function NoteFor(entries: seq<Entry>, rule: Option<string -> bool>): Note {
    NoteOf(OpenCount(entries), Faulty(entries, Closes, rule), Faulty(entries, NoWord, rule),
           Faulty(entries, StrangeWord, rule))
  }

  datatype Sweep = Unreadable | Sweep(note: Note, counts: map<string, nat>, openTotal: nat)

  function SweepVerdict(sweep: Sweep): Verdict {
    if sweep.Sweep? && sweep.note.AllDeclared? then Match else Unknown
  }

  function Count(counts: map<string, nat>, word: string): nat {
    if word in counts then counts[word] else 0
  }

  /** The word an open entry declares, when it is in the vocabulary. */
  predicate Declaring(entry: Entry) {
    entry.isOpen && entry.status.Some? && DispositionWord(entry.status.value) in DISPOSITIONS
  }

  function WordOf(entry: Entry): string
    requires Declaring(entry)
  {
    DispositionWord(entry.status.value)
  }

  ghost predicate IsTally(counts: map<string, nat>, entries: seq<Entry>) {
    forall w | w in DISPOSITIONS :: Count(counts, w) == Tally(entries, w)
  }

  /** One entry's effect on the tally. */
  lemma TallyOneMore(entries: seq<Entry>, entry: Entry, counts: map<string, nat>, later: map<string, nat>)
    requires IsTally(counts, entries)
    requires later == if Declaring(entry) then counts[WordOf(entry) := Count(counts, WordOf(entry)) + 1] else counts
    ensures IsTally(later, entries + [entry])
  {
    assert (entries + [entry])[..|entries|] == entries;
  }

  /** `check_dispositions`: the line's lead, the tally per word and the size of
      the open population. */
  method CheckDispositions(entries: seq<Entry>, problem: bool, rule: Option<string -> bool>) returns (r: Sweep)
    ensures r.Unreadable? <==> problem
    ensures r.Sweep? ==> r.openTotal == OpenCount(entries)
    ensures r.Sweep? ==> r.note == NoteFor(entries, rule)
    ensures r.Sweep? ==> IsTally(r.counts, entries)
    ensures SweepVerdict(r) == Match <==> !problem && AllSettled(entries, rule)
  {
    if problem {
      return Unreadable;
    }
    var undeclared, unknownWords, wouldClose := [], [], [];
    var counts: map<string, nat>, total := map[], 0;
    for k := 0 to |entries|
      invariant total == OpenCount(entries[..k])
      invariant undeclared == Faulty(entries[..k], NoWord, rule)
      invariant unknownWords == Faulty(entries[..k], StrangeWord, rule)
      invariant wouldClose == Faulty(entries[..k], Closes, rule)
      invariant IsTally(counts, entries[..k])
    {
      var entry := entries[k];
      assert entries[..k + 1][..k] == entries[..k] && entries[..k + 1] == entries[..k] + [entry];
      ghost var earlier := counts;
      if entry.isOpen {
        total := total + 1;
        if entry.status.None? {
          undeclared := undeclared + [NameOf(entry)];
        } else {
          if rule.Some? && rule.value(entry.status.value) {
            wouldClose := wouldClose + [NameOf(entry)];
          }
          var word := DispositionWord(entry.status.value);
          if word in DISPOSITIONS {
            counts := counts[word := Count(counts, word) + 1];
          } else {
            unknownWords := unknownWords + [NameOf(entry)];
          }
        }
      }
      TallyOneMore(entries[..k], entry, earlier, counts);
    }
    assert entries[..|entries|] == entries;
    CleanSweepMeans(entries, rule);
    if total == 0 {
      return Sweep(NoPopulation, counts, 0);
    }
    if wouldClose != [] {
      r := Sweep(WouldClose(wouldClose), counts, total);
    } else if undeclared != [] {
      r := Sweep(Undeclared(undeclared), counts, total);
    } else if unknownWords != [] {
      r := Sweep(OutsideVocabulary(unknownWords), counts, total);
    } else {
      r := Sweep(AllDeclared, counts, total);
    }
  }

  lemma {:induction false} NoneFaulty(entries: seq<Entry>, fault: Fault, rule: Option<string -> bool>)
    ensures Faulty(entries, fault, rule) == [] <==> forall k | 0 <= k < |entries| :: !Has(entries[k], fault, rule)
  {
    if entries != [] {
      NoneFaulty(entries[..|entries| - 1], fault, rule);
    }
  }

  /** The sweep's `match` means exactly that there is an open entry, every open
      entry declares a known word, and none declares a value the owner's rule,
      when available, reads as a closure. */
  lemma CleanSweepMeans(entries: seq<Entry>, rule: Option<string -> bool>)
    ensures NoteFor(entries, rule).AllDeclared?
      <==> AllSettled(entries, rule)
  {
    NoneFaulty(entries, Closes, rule);
    NoneFaulty(entries, NoWord, rule);
    NoneFaulty(entries, StrangeWord, rule);
    NoneUnchecked(entries, map[]);
    forall k | 0 <= k < |entries| && entries[k].isOpen
      ensures Settled(entries[k], rule) <==>
        !Has(entries[k], Closes, rule) && !Has(entries[k], NoWord, rule) && !Has(entries[k], StrangeWord, rule)
    {
    }
  }

  /** There is an open entry, and every one of them is settled. */
  ghost predicate AllSettled(entries: seq<Entry>, rule: Option<string -> bool>) {
    && (exists k :: 0 <= k < |entries| && entries[k].isOpen)
    && (forall k | 0 <= k < |entries| && entries[k].isOpen :: Settled(entries[k], rule))
  }

  predicate Settled(entry: Entry, rule: Option<string -> bool>) {
    && entry.status.Some?
    && DispositionWord(entry.status.value) in DISPOSITIONS
    && (rule.Some? ==> !rule.value(entry.status.value))
  }

  /** Every open entry is counted once: it declares nothing, declares a word
      outside the vocabulary, or stands in exactly one word's tally. */
  lemma {:induction false} DispositionsConserved(entries: seq<Entry>, rule: Option<string -> bool>)
    ensures OpenCount(entries) == |Faulty(entries, NoWord, rule)| + |Faulty(entries, StrangeWord, rule)| +
                                  Tally(entries, "owed") + Tally(entries, "blocked") +
                                  Tally(entries, "decided") + Tally(entries, "delegated")
  {
    if entries != [] {
      DispositionsConserved(entries[..|entries| - 1], rule);
      if entries[|entries| - 1].isOpen && entries[|entries| - 1].status.Some? {
        DeclaresOne(entries[|entries| - 1]);
      }
    }
  }

  lemma DeclaresOne(entry: Entry)
    requires entry.isOpen && entry.status.Some?
    ensures var d := DispositionWord(entry.status.value);
      d in DISPOSITIONS <==> d == "owed" || d == "blocked" || d == "decided" || d == "delegated"
  {
    var d := DispositionWord(entry.status.value);
    assert DISPOSITIONS[0] == "owed" && DISPOSITIONS[1] == "blocked";
    assert DISPOSITIONS[2] == "decided" && DISPOSITIONS[3] == "delegated";
  }

  // ---- Names -------------------------------------------------------------------------------

  /** An entry goes by its id; without one, by the first forty characters of its
      title. */
  lemma NamesAre(entry: Entry, id: string)
    ensures entry.snagId == Some(id) && id != "" ==> NameOf(entry) == id
    ensures entry.snagId.None? || entry.snagId == Some("") ==>
      NameOf(entry) <= entry.title && |NameOf(entry)| == if |entry.title| < 40 then |entry.title| else 40
  {
  }

  /** Where every entry has an id, a check's entry carrying it is the entry of that
      id holding its marker. */
  lemma CarriedById(entries: seq<Entry>, key: string, id: string)
    requires forall k | 0 <= k < |entries| :: entries[k].snagId.Some? && entries[k].snagId.value != ""
    ensures Carries(entries, key, id) <==>
      exists k :: 0 <= k < |entries| && entries[k].snagId == Some(id) && key in entries[k].markers
  {
    if k :| 0 <= k < |entries| && entries[k].snagId == Some(id) && key in entries[k].markers {
      assert CarriesIt(entries[k], key, id);
    }
  }

  // ---- What the two reports name ---------------------------------------------------------------

  /** The line leads with the first fault, in this order: a value that would close
      its entry, an entry that declares nothing, a word outside the vocabulary. */
  lemma NotePrecedence(entries: seq<Entry>, rule: Option<string -> bool>)
    ensures var note := NoteFor(entries, rule);
      && (note.NoPopulation? <==> !SomeOpen(entries))
      && (note.WouldClose? <==> SomeHas(entries, Closes, rule))
      && (note.Undeclared? <==> SomeHas(entries, NoWord, rule) && !SomeHas(entries, Closes, rule))
      && (note.OutsideVocabulary? <==>
            SomeHas(entries, StrangeWord, rule) && !SomeHas(entries, NoWord, rule) && !SomeHas(entries, Closes, rule))
  {
    NoneFaulty(entries, Closes, rule);
    NoneFaulty(entries, NoWord, rule);
    NoneFaulty(entries, StrangeWord, rule);
    NoneUnchecked(entries, map[]);
  }

  ghost predicate SomeOpen(entries: seq<Entry>) {
    exists k :: 0 <= k < |entries| && entries[k].isOpen
  }

  ghost predicate SomeHas(entries: seq<Entry>, fault: Fault, rule: Option<string -> bool>) {
    exists k :: 0 <= k < |entries| && Has(entries[k], fault, rule)
  }

  /** And it names exactly the entries with that fault. */
  lemma {:induction false} FaultyAre(entries: seq<Entry>, fault: Fault, rule: Option<string -> bool>, name: string)
    ensures name in Faulty(entries, fault, rule) <==>
      exists k :: 0 <= k < |entries| && Has(entries[k], fault, rule) && NameOf(entries[k]) == name
  {
    if entries != [] {
      var front, last := entries[..|entries| - 1], entries[|entries| - 1];
      FaultyAre(front, fault, rule, name);
      if k :| 0 <= k < |front| && Has(front[k], fault, rule) && NameOf(front[k]) == name {
        assert entries[k] == front[k];
      }
      if k :| 0 <= k < |entries| && Has(entries[k], fault, rule) && NameOf(entries[k]) == name {
        assert k < |front| ==> front[k] == entries[k];
      }
    }
  }

  function DeclaresAt(entries: seq<Entry>, word: string): nat -> bool {
    (k: nat) => k < |entries| && Declares(entries[k], word)
  }

  function OpenAt(entries: seq<Entry>): nat -> bool {
    (k: nat) => k < |entries| && entries[k].isOpen
  }

  lemma {:induction false} TallyPrefix(entries: seq<Entry>, word: string, n: nat)
    requires n <= |entries|
    ensures Tally(entries[..n], word) == CountIn(0, n, DeclaresAt(entries, word))
    ensures OpenCount(entries[..n]) == CountIn(0, n, OpenAt(entries))
  {
    if n > 0 {
      TallyPrefix(entries, word, n - 1);
      assert entries[..n][..n - 1] == entries[..n - 1] && entries[..n][n - 1] == entries[n - 1];
    }
  }

  /** A word's tally is the number of open entries that declare it, and the total
      the number of open entries. */
  lemma TallyCounts(entries: seq<Entry>, word: string) returns (declaring: set<nat>, open: set<nat>)
    ensures |declaring| == Tally(entries, word) && |open| == OpenCount(entries)
    ensures forall k: nat :: k in declaring <==> k < |entries| && Declares(entries[k], word)
    ensures forall k: nat :: k in open <==> k < |entries| && entries[k].isOpen
  {
    TallyPrefix(entries, word, |entries|);
    assert entries[..|entries|] == entries;
    declaring := CountIsSize(0, |entries|, DeclaresAt(entries, word));
    open := CountIsSize(0, |entries|, OpenAt(entries));
  }

  /** The entries named as unchecked are exactly the open ones no check is about. */
  lemma {:induction false} UncheckedAre(entries: seq<Entry>, checks: Checks, name: string)
    ensures name in UncheckedNames(entries, checks) <==>
      exists k :: 0 <= k < |entries| && IsUnchecked(entries[k], checks) && NameOf(entries[k]) == name
  {
    if entries != [] {
      var front, last := entries[..|entries| - 1], entries[|entries| - 1];
      UncheckedAre(front, checks, name);
      if k :| 0 <= k < |front| && IsUnchecked(front[k], checks) && NameOf(front[k]) == name {
        assert entries[k] == front[k];
      }
      if k :| 0 <= k < |entries| && IsUnchecked(entries[k], checks) && NameOf(entries[k]) == name {
        assert k < |front| ==> front[k] == entries[k];
      }
    }
  }

  lemma {:induction false} MarkerFindingsAre(entries: seq<Entry>, keys: seq<string>, f: Finding)
    ensures f in MarkerFindings(entries, keys) <==>
      f.UnknownMarker? && f.key in keys && f.namedBy == Carriers(entries, f.key)
  {
    if keys != [] {
      MarkerFindingsAre(entries, keys[..|keys| - 1], f);
      assert keys == keys[..|keys| - 1] + [keys[|keys| - 1]];
    }
  }

  lemma {:induction false} PinFindingsAre(entries: seq<Entry>, checks: Checks, keys: seq<string>, f: Finding)
    requires AllChecks(checks, keys)
    ensures f in PinFindings(entries, checks, keys) <==>
      && f.BrokenPin? && f.key in keys && f.key in checks
      && checks[f.key] !in Carriers(entries, f.key) && f.carriedBy == Carriers(entries, f.key)
  {
    if keys != [] {
      PinFindingsAre(entries, checks, keys[..|keys| - 1], f);
      assert keys == keys[..|keys| - 1] + [keys[|keys| - 1]];
    }
  }

  /** What a readable document's report holds: a line for every marker no check
      implements, with the entries that carry it; a line for every check whose
      entry does not carry its marker, with those that do; and the line about
      unchecked entries. */
  lemma ReportHolds(findings: seq<Finding>, entries: seq<Entry>, checks: Checks, f: Finding)
    requires IsReport(findings, entries, checks)
    ensures f in findings <==>
      || (f.UnknownMarker? && f.key in MarkedKeys(entries) && f.key !in checks && f.namedBy == Carriers(entries, f.key))
      || (f.BrokenPin? && f.key in checks && !Carries(entries, f.key, checks[f.key])
          && f.carriedBy == Carriers(entries, f.key))
      || f == UncheckedLine(entries, checks)
  {
    var orphans, pins :| AreOrphans(entries, checks, orphans) && ArePins(checks, pins) && AllChecks(checks, pins)
                      && findings == Findings(entries, checks, orphans, pins);
    MarkerFindingsAre(entries, orphans, f);
    PinFindingsAre(entries, checks, pins, f);
    if f.UnknownMarker? {
      assert f.key in orphans <==> f.key in Elements(orphans);
    }
    if f.BrokenPin? {
      assert f.key in pins <==> f.key in Elements(pins);
      if f.key in checks {
        CarrierIs(entries, f.key, checks[f.key]);
      }
    }
  }
}
