/** How long an alert title was open within the window
    (sysadmin/ops_claims.py, `_read_flap_readings`, `_read_family_rows`,
    `FlapReading.fraction`). */
module FlapReadings {
  import opened Ordering
  import Like

  /** One row of `alerts`.  The schema keeps `resolved` and `resolved_at` in
      step, so a row is open exactly when it has no `resolvedAt`. */
  datatype Row = Row(severity: string, title: string, created: real, resolvedAt: Option<real>)

  const WINDOW: real := 7.0 * 86400.0   // seven days, in seconds

  datatype FlapReading = FlapReading(title: string, episodes: nat, openSeconds: real)
  {
    function Fraction(): real {
      openSeconds / WINDOW
    }
  }

  predicate IsOpen(row: Row) {
    row.resolvedAt.None?
  }

  /** `coalesce(resolved_at, now())` */
  function End(row: Row, now: real): real {
    if row.resolvedAt.Some? then row.resolvedAt.value else now
  }

  /** The row's life touches the window. */
  predicate Touches(row: Row, now: real) {
    End(row, now) > now - WINDOW
  }

  datatype Interval = Interval(start: real, end: real)

  /** The part of the row's life inside the window. */
  function Clip(row: Row, now: real): Interval {
    Interval(if row.created >= now - WINDOW then row.created else now - WINDOW,
             if End(row, now) <= now then End(row, now) else now)
  }

  function ClippedOf(rows: seq<Row>, title: string, now: real): seq<Interval> {
    if rows == [] then []
    else
      var rest := ClippedOf(rows[1..], title, now);
      if rows[0].title == title && Touches(rows[0], now) then [Clip(rows[0], now)] + rest else rest
  }

  function Total(intervals: seq<Interval>): real {
    if intervals == [] then 0.0 else intervals[0].end - intervals[0].start + Total(intervals[1..])
  }

  /** One reading per candidate the window has heard of. */
  function Readings(rows: seq<Row>, candidates: set<string>, now: real): map<string, FlapReading> {
    map title | title in candidates && ClippedOf(rows, title, now) != [] ::
      var clipped := ClippedOf(rows, title, now);
      FlapReading(title, |clipped|, Total(clipped))
  }

  function CountMatching(rows: seq<Row>, pattern: string, now: real): nat {
    if rows == [] then 0
    else (if Like.LikeRec(pattern, rows[0].title) && Touches(rows[0], now) then 1 else 0) +
         CountMatching(rows[1..], pattern, now)
  }

  /** The declared patterns that matched a row in the window, in order. */
  function Families(rows: seq<Row>, patterns: seq<string>, now: real): seq<string> {
    if patterns == [] then []
    else
      var rest := Families(rows, patterns[1..], now);
      if CountMatching(rows, patterns[0], now) > 0 then [patterns[0]] + rest else rest
  }

  // ---- The arithmetic ------------------------------------------------------------------

  /** A row that makes sense: it was created by now and not after it ended. */
  predicate Sane(row: Row, now: real) {
    row.created <= now && row.created <= End(row, now)
  }

  predicate Apart(a: Interval, b: Interval) {
    a.end <= b.start || b.end <= a.start
  }

  predicate AllApart(intervals: seq<Interval>) {
    intervals == [] ||
    ((forall j | 1 <= j < |intervals| :: Apart(intervals[0], intervals[j])) && AllApart(intervals[1..]))
  }

  /** No two rows of one title are open at once. */
  predicate EpisodesApart(rows: seq<Row>, now: real) {
    rows == [] ||
    ((forall j | 1 <= j < |rows| && rows[j].title == rows[0].title ::
        End(rows[0], now) <= rows[j].created || End(rows[j], now) <= rows[0].created)
     && EpisodesApart(rows[1..], now))
  }

  predicate AllWithin(intervals: seq<Interval>, lo: real, hi: real) {
    forall i | 0 <= i < |intervals| :: lo <= intervals[i].start <= intervals[i].end <= hi
  }

  /** Those that end by `cut`, and the others. */
  function Before(intervals: seq<Interval>, cut: real, wanted: bool): seq<Interval> {
    if intervals == [] then []
    else
      var rest := Before(intervals[1..], cut, wanted);
      if (intervals[0].end <= cut) == wanted then [intervals[0]] + rest else rest
  }

  lemma {:induction false} BeforeMembers(intervals: seq<Interval>, cut: real, wanted: bool, x: Interval)
    ensures x in Before(intervals, cut, wanted) <==> x in intervals && (x.end <= cut) == wanted
    ensures |Before(intervals, cut, wanted)| <= |intervals|
  {
    if intervals != [] {
      BeforeMembers(intervals[1..], cut, wanted, x);
      assert intervals == [intervals[0]] + intervals[1..];
    }
  }

  lemma {:induction false} BeforeApart(intervals: seq<Interval>, cut: real, wanted: bool)
    requires AllApart(intervals)
    ensures AllApart(Before(intervals, cut, wanted))
  {
    if intervals != [] {
      BeforeApart(intervals[1..], cut, wanted);
      var rest, all := Before(intervals[1..], cut, wanted), Before(intervals, cut, wanted);
      if (intervals[0].end <= cut) == wanted {
        assert all[1..] == rest;
        forall j | 1 <= j < |all|
          ensures Apart(all[0], all[j])
        {
          assert all[j] in rest;
          BeforeMembers(intervals[1..], cut, wanted, all[j]);
          var k :| 0 <= k < |intervals[1..]| && intervals[1..][k] == all[j];
          assert Apart(intervals[0], intervals[k + 1]);
        }
      }
    }
  }

  lemma {:induction false} TotalSplits(intervals: seq<Interval>, cut: real)
    ensures Total(intervals) == Total(Before(intervals, cut, true)) + Total(Before(intervals, cut, false))
  {
    if intervals != [] {
      TotalSplits(intervals[1..], cut);
      var x := intervals[0];
      var yes, no := Before(intervals, cut, true), Before(intervals, cut, false);
      if x.end <= cut {
        assert yes[1..] == Before(intervals[1..], cut, true);
      } else {
        assert no[1..] == Before(intervals[1..], cut, false);
      }
    }
  }

  /** What is apart from the first interval lies wholly on one side of it. */
  lemma Sides(intervals: seq<Interval>, lo: real, hi: real)
    requires intervals != [] && AllApart(intervals) && AllWithin(intervals, lo, hi)
    ensures var pivot, rest := intervals[0], intervals[1..];
      var left, right := Before(rest, pivot.start, true), Before(rest, pivot.start, false);
      && AllWithin(left, lo, pivot.start) && AllWithin(right, pivot.end, hi)
      && |left| < |intervals| && |right| < |intervals|
  {
    var pivot, rest := intervals[0], intervals[1..];
    var left, right := Before(rest, pivot.start, true), Before(rest, pivot.start, false);
    BeforeMembers(rest, pivot.start, true, pivot);
    BeforeMembers(rest, pivot.start, false, pivot);
    forall i | 0 <= i < |left| ensures lo <= left[i].start <= left[i].end <= pivot.start {
      BeforeMembers(rest, pivot.start, true, left[i]);
      var k :| 0 <= k < |rest| && rest[k] == left[i];
      assert rest[k] == intervals[k + 1];
    }
    forall i | 0 <= i < |right| ensures pivot.end <= right[i].start <= right[i].end <= hi {
      BeforeMembers(rest, pivot.start, false, right[i]);
      var k :| 0 <= k < |rest| && rest[k] == right[i];
      assert rest[k] == intervals[k + 1] && Apart(pivot, intervals[k + 1]);
    }
  }

  /** Intervals that lie apart within a window fill at most the window, in
      whatever order they come. */
  lemma {:induction false} ApartFitsWithin(intervals: seq<Interval>, lo: real, hi: real)
    requires AllApart(intervals) && AllWithin(intervals, lo, hi) && lo <= hi
    ensures 0.0 <= Total(intervals) <= hi - lo
    decreases |intervals|
  {
    if intervals != [] {
      var pivot, rest := intervals[0], intervals[1..];
      var left, right := Before(rest, pivot.start, true), Before(rest, pivot.start, false);
      TotalSplits(rest, pivot.start);
      BeforeApart(rest, pivot.start, true);
      BeforeApart(rest, pivot.start, false);
      Sides(intervals, lo, hi);
      ApartFitsWithin(left, lo, pivot.start);
      ApartFitsWithin(right, pivot.end, hi);
    }
  }

  /** Each clipped term alone is between nothing and the whole window. */
  lemma ClipWithin(row: Row, now: real)
    requires Sane(row, now) && Touches(row, now)
    ensures var c := Clip(row, now); now - WINDOW <= c.start <= c.end <= now && 0.0 <= c.end - c.start <= WINDOW
  {
  }

  lemma {:induction false} ClippedFacts(rows: seq<Row>, title: string, now: real)
    requires EpisodesApart(rows, now) && forall i | 0 <= i < |rows| :: Sane(rows[i], now)
    ensures AllApart(ClippedOf(rows, title, now)) && AllWithin(ClippedOf(rows, title, now), now - WINDOW, now)
  {
    if rows != [] {
      assert forall i | 0 <= i < |rows| - 1 :: rows[1..][i] == rows[i + 1];
      ClippedFacts(rows[1..], title, now);
      var row, rest, all := rows[0], ClippedOf(rows[1..], title, now), ClippedOf(rows, title, now);
      if row.title == title && Touches(row, now) {
        ClipWithin(row, now);
        assert all[1..] == rest;
        forall j | 1 <= j < |all|
          ensures Apart(all[0], all[j])
        {
          var k := ClippedFrom(rows[1..], title, now, j - 1);
          assert rows[1..][k] == rows[k + 1];
        }
      }
    }
  }

  lemma {:induction false} ClippedFrom(rows: seq<Row>, title: string, now: real, j: nat) returns (k: nat)
    requires j < |ClippedOf(rows, title, now)|
    ensures k < |rows| && rows[k].title == title && Touches(rows[k], now)
    ensures ClippedOf(rows, title, now)[j] == Clip(rows[k], now)
  {
    var here := rows[0].title == title && Touches(rows[0], now);
    if here && j == 0 {
      k := 0;
    } else {
      var k' := ClippedFrom(rows[1..], title, now, if here then j - 1 else j);
      k := k' + 1;
    }
  }

  /** The flap fraction of any title is between 0 and 1. */
  lemma FractionInRange(rows: seq<Row>, candidates: set<string>, now: real, title: string)
    requires EpisodesApart(rows, now) && forall i | 0 <= i < |rows| :: Sane(rows[i], now)
    requires title in Readings(rows, candidates, now)
    ensures var r := Readings(rows, candidates, now)[title];
      0.0 <= r.openSeconds <= WINDOW && 0.0 <= r.Fraction() <= 1.0 && r.episodes >= 1 && r.title == title
  {
    ClippedFacts(rows, title, now);
    ApartFitsWithin(ClippedOf(rows, title, now), now - WINDOW, now);
  }

  /** A title open without a break for the whole window reads 1: a standing
      fault can never pass for a flap. */
  lemma StandingReadsOne(rows: seq<Row>, candidates: set<string>, now: real, k: nat)
    requires EpisodesApart(rows, now) && forall i | 0 <= i < |rows| :: Sane(rows[i], now)
    requires k < |rows| && IsOpen(rows[k]) && rows[k].created <= now - WINDOW && rows[k].title in candidates
    ensures rows[k].title in Readings(rows, candidates, now)
    ensures Readings(rows, candidates, now)[rows[k].title].Fraction() == 1.0
  {
    var title := rows[k].title;
    OpenIsClipped(rows, title, now, k);
    ClippedFacts(rows, title, now);
    var clipped := ClippedOf(rows, title, now);
    ApartFitsWithin(clipped, now - WINDOW, now);
    var j :| 0 <= j < |clipped| && clipped[j] == Clip(rows[k], now);
    TermAtMostTotal(clipped, j, now - WINDOW, now);
  }

  lemma {:induction false} TermAtMostTotal(intervals: seq<Interval>, j: nat, lo: real, hi: real)
    requires AllWithin(intervals, lo, hi) && j < |intervals|
    ensures intervals[j].end - intervals[j].start <= Total(intervals)
  {
    if j == 0 {
      TotalNonNegative(intervals[1..], lo, hi);
    } else {
      TermAtMostTotal(intervals[1..], j - 1, lo, hi);
    }
  }

  lemma {:induction false} TotalNonNegative(intervals: seq<Interval>, lo: real, hi: real)
    requires AllWithin(intervals, lo, hi)
    ensures 0.0 <= Total(intervals)
  {
    if intervals != [] {
      TotalNonNegative(intervals[1..], lo, hi);
    }
  }

  lemma {:induction false} OpenIsClipped(rows: seq<Row>, title: string, now: real, k: nat)
    requires k < |rows| && rows[k].title == title && IsOpen(rows[k])
    ensures Clip(rows[k], now) in ClippedOf(rows, title, now)
  {
    if k > 0 {
      OpenIsClipped(rows[1..], title, now, k - 1);
    }
  }

  /** An open row has an episode in the window by construction: a candidate
      title with an open row always has a reading. */
  lemma OpenHasReading(rows: seq<Row>, candidates: set<string>, now: real, k: nat)
    requires k < |rows| && IsOpen(rows[k]) && rows[k].title in candidates
    ensures rows[k].title in Readings(rows, candidates, now)
  {
    OpenIsClipped(rows, rows[k].title, now, k);
  }

  lemma {:induction false} OpenCounts(rows: seq<Row>, pattern: string, now: real, k: nat)
    requires k < |rows| && IsOpen(rows[k]) && Like.LikeRec(pattern, rows[k].title)
    ensures CountMatching(rows, pattern, now) > 0
  {
    if k > 0 {
      OpenCounts(rows[1..], pattern, now, k - 1);
    }
  }

  lemma {:induction false} FamiliesAre(rows: seq<Row>, patterns: seq<string>, now: real, pattern: string)
    ensures pattern in Families(rows, patterns, now) <==> pattern in patterns && CountMatching(rows, pattern, now) > 0
  {
    if patterns != [] {
      FamiliesAre(rows, patterns[1..], now, pattern);
    }
  }

  // ---- What a reading measures ---------------------------------------------------------------

  /** The clipped episode holds exactly the moments that lie in the window and in
      the row's life. */
  lemma ClipIsTheOverlap(row: Row, now: real, t: real)
    ensures Clip(row, now).start <= t <= Clip(row, now).end <==>
      now - WINDOW <= t <= now && row.created <= t && (row.resolvedAt.Some? ==> t <= row.resolvedAt.value)
  {
  }

  /** The row is open at moment `t`, and that moment lies in the window. */
  predicate OpenAt(row: Row, now: real, t: real) {
    now - WINDOW <= t <= now && row.created <= t <= End(row, now)
  }

  /** A row of sound times touches the window exactly when it is open at some
      moment after the window's start. */
  lemma TouchesExactly(row: Row, now: real)
    requires Sane(row, now)
    ensures Touches(row, now) <==> exists t: real :: OpenAt(row, now, t) && t > now - WINDOW
  {
    if Touches(row, now) {
      assert OpenAt(row, now, if End(row, now) <= now then End(row, now) else now);
    }
  }

  function Lesser(a: real, b: real): real {
    if a < b then a else b
  }

  function Greater(a: real, b: real): real {
    if a < b then b else a
  }

  /** For how long the title was open within the window, over all its rows. */
  function OpenTime(rows: seq<Row>, title: string, now: real): real {
    if rows == [] then 0.0
    else
      var row, rest := rows[0], OpenTime(rows[1..], title, now);
      if row.title == title && End(row, now) > now - WINDOW then
        Lesser(End(row, now), now) - Greater(row.created, now - WINDOW) + rest
      else rest
  }

  lemma {:induction false} ClippedTotal(rows: seq<Row>, title: string, now: real)
    ensures Total(ClippedOf(rows, title, now)) == OpenTime(rows, title, now)
    ensures ClippedOf(rows, title, now) == [] <==>
      forall k | 0 <= k < |rows| :: !(rows[k].title == title && Touches(rows[k], now))
  {
    if rows != [] {
      ClippedTotal(rows[1..], title, now);
      var rest := ClippedOf(rows[1..], title, now);
      assert rows[0].title == title && Touches(rows[0], now) ==> ([Clip(rows[0], now)] + rest)[1..] == rest;
      assert forall k | 0 < k < |rows| :: rows[k] == rows[1..][k - 1];
    }
  }

  /** A candidate has a reading exactly when some row of its title touches the
      window, and the reading is the time the title was open in the window. */
  lemma ReadingIsOpenTime(rows: seq<Row>, candidates: set<string>, now: real, title: string)
    ensures title in Readings(rows, candidates, now) <==>
      title in candidates && exists k :: 0 <= k < |rows| && rows[k].title == title && Touches(rows[k], now)
    ensures title in Readings(rows, candidates, now) ==>
      Readings(rows, candidates, now)[title].openSeconds == OpenTime(rows, title, now)
  {
    ClippedTotal(rows, title, now);
  }

  /** A pattern is kept exactly when it is declared and some row of the window
      matches it. */
  lemma FamilyHasRow(rows: seq<Row>, patterns: seq<string>, now: real, pattern: string)
    ensures pattern in Families(rows, patterns, now) <==>
      pattern in patterns && exists k :: 0 <= k < |rows| && Like.Like(pattern, rows[k].title) && Touches(rows[k], now)
  {
    FamiliesAre(rows, patterns, now, pattern);
    CountsSomething(rows, pattern, now);
    forall k | 0 <= k < |rows| ensures Like.Like(pattern, rows[k].title) <==> Like.LikeRec(pattern, rows[k].title) {
      Like.LikeMatches(pattern, rows[k].title);
    }
  }

  lemma {:induction false} CountsSomething(rows: seq<Row>, pattern: string, now: real)
    ensures CountMatching(rows, pattern, now) > 0 <==>
      exists k :: 0 <= k < |rows| && Like.LikeRec(pattern, rows[k].title) && Touches(rows[k], now)
  {
    if rows != [] {
      CountsSomething(rows[1..], pattern, now);
      if k :| 0 <= k < |rows| && Like.LikeRec(pattern, rows[k].title) && Touches(rows[k], now) {
        assert k > 0 ==> rows[1..][k - 1] == rows[k];
      }
      if k :| 0 <= k < |rows[1..]| && Like.LikeRec(pattern, rows[1..][k].title) && Touches(rows[1..][k], now) {
        assert rows[k + 1] == rows[1..][k];
      }
    }
  }
}
