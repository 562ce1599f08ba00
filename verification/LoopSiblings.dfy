/** What the sibling rules of sysadmin/vacuous_guards.py (`_loop_turned`) buy:
    the arcs another comprehension of the file can leave, and the placements in
    which they are taken for the site's own. */
module LoopSiblings {
  import opened LoopArcs

  // ---- What the sibling rules buy -----------------------------------------------------------

  /** The lines another comprehension's events can stand on, its first apart. */
  predicate Visits(other: Site, line: int) {
    || other.element <= line <= other.clause
    || ((other.filtered || other.wraps) && other.clause < line <= other.last)
  }

  /** Where another comprehension's arcs can lead: into or out of its frame, to
      its first line from its loop, or to a line it visits. */
  predicate Possible(other: Site, arc: Arc) {
    || (other.kind.Generator? && (arc == (-other.first, other.first) || arc.1 == -other.first))
    || (arc.1 == other.first && (if other.kind.Inlined? then other.element else other.clause) <= arc.0 <= other.last)
    || (arc.0 >= 1 && Visits(other, arc.1))
  }

  ghost predicate AllPossible(other: Site, arcs: set<Arc>) {
    forall arc | arc in arcs :: Possible(other, arc)
  }

  predicate AllVisited(other: Site, lines: seq<int>) {
    forall i | 0 <= i < |lines| :: Visits(other, lines[i])
  }

  lemma {:induction false} LinesPossible(other: Site, at: int, lines: seq<int>)
    requires WellPlaced(other) && AllVisited(other, lines) && at >= 1
    ensures AllPossible(other, ArcsFrom(at, lines))
    decreases |lines|
  {
    if lines != [] {
      LinesPossible(other, lines[0], lines[1..]);
    }
  }

  lemma {:induction false} LoopPossible(other: Site, at: int, moves: seq<Move>, ending: Ending)
    requires WellPlaced(other) && other.clause <= at <= other.last && Visits(other, at)
    requires ValidMoves(other, at, moves) && ValidEnding(other, ending)
    ensures AllPossible(other, ArcsFrom(at, LoopEvents(other, at, moves, ending)))
    decreases |moves|
  {
    if moves == [] {
      EndingPossible(other, at, ending);
    } else {
      var events, rest := MoveEvents(other, at, moves[0]), LoopEvents(other, moves[0].back, moves[1..], ending);
      LoopPossible(other, moves[0].back, moves[1..], ending);
      LinesPossible(other, at, events);
      ArcsAppend(at, events, rest);
    }
  }

  lemma EndingPossible(other: Site, at: int, ending: Ending)
    requires WellPlaced(other) && other.clause <= at <= other.last && ValidEnding(other, ending)
    ensures AllPossible(other, ArcsFrom(at, EndingEvents(other, at, ending)))
  {
    match ending
    case Exhausted =>
      var reach := Reach(at, other.first);
      var leave := if other.kind.Generator? then [-other.first] else [];
      ArcsAppend(at, reach, leave);
      assert ArcsFrom(at, reach) == if reach == [] then {} else {(at, other.first)};
      assert ArcsFrom(Last(at, reach), leave) == if leave == [] then {} else {(Last(at, reach), -other.first)};
    case Abandoned(on, inside) => LinesPossible(other, at, ElementEvents(other, at, on, inside));
    case Escaped(on, reached, inside, seen) =>
      var events := if reached then ElementEvents(other, at, on, inside) else on;
      var leave := EscapeEvents(other, seen);
      LinesPossible(other, at, events);
      ArcsAppend(at, events, leave);
      assert other.element <= Last(at, events) <= other.last;
      assert ArcsFrom(Last(at, events), leave) == if leave == [] then {} else {(Last(at, events), leave[0])};
  }

  lemma EntryPossible(other: Site, inv: Invocation)
    requires WellPlaced(other) && ValidInvocation(other, inv)
    ensures AllPossible(other, ArcsFrom(Origin(other, inv), EntryEvents(other, inv)))
  {
    var origin, lines := Origin(other, inv), Reach(Origin(other, inv), other.clause) + inv.iterable;
    var end := Last(other.clause, inv.iterable);
    var leave := Reach(end, other.first);
    assert EntryEvents(other, inv) == lines + leave;
    LinesPossible(other, origin, lines);
    ArcsAppend(origin, lines, leave);
    assert Last(origin, lines) == end;
    assert ArcsFrom(end, leave) == if leave == [] then {} else {(end, other.first)};
  }

  lemma InvocationPossible(other: Site, inv: Invocation)
    requires WellPlaced(other) && ValidInvocation(other, inv)
    ensures AllPossible(other, ArcsOfOne(other, inv))
  {
    EntryPossible(other, inv);
    LoopPossible(other, other.clause, inv.moves, inv.ending);
    EventsArcs(other, inv);
    assert AllPossible(other, WayIn(other));
  }

  /** The placements in which a sibling that is not refused can still be mistaken
      for a turn: it visits the element's line past its own element, or it starts
      on that line and comes back to it from inside the site. */
  predicate Overlaps(site: Site, other: Site) {
    || (other.element < site.element && Visits(other, site.element))
    || (site.element == other.first && (if other.kind.Inlined? then other.element else other.clause) <= site.last)
  }

  ghost predicate LeftBy(other: Site, arc: Arc) {
    exists inv :: ValidInvocation(other, inv) && arc in ArcsOfOne(other, inv)
  }

  /** What the sibling rules buy.  A sibling they let pass never leaves the
      site's frame arcs, and it can leave an arc that counts as the site's turn
      in exactly the overlapping placements. */
  lemma SiblingHitsExactlyWhenOverlapping(site: Site, other: Site)
    requires WellPlaced(site) && Decidable(site, []) && WellPlaced(other)
    requires other.id != site.id && !Confusable(site, other)
    ensures forall arc | LeftBy(other, arc) :: !IsFrameArc(site, arc)
    ensures (exists arc :: LeftBy(other, arc) && Counted(site, arc)) <==> Overlaps(site, other)
  {
    forall arc | LeftBy(other, arc)
      ensures !IsFrameArc(site, arc)
      ensures Counted(site, arc) ==> Overlaps(site, other)
    {
      var inv :| ValidInvocation(other, inv) && arc in ArcsOfOne(other, inv);
      InvocationPossible(other, inv);
      assert Possible(other, arc);
    }
    if Overlaps(site, other) {
      var arc := OverlapHits(site, other);
    }
  }

  lemma OverlapHits(site: Site, other: Site) returns (arc: Arc)
    requires WellPlaced(site) && Decidable(site, []) && WellPlaced(other) && Overlaps(site, other)
    requires other.element != site.element
    ensures LeftBy(other, arc) && Counted(site, arc)
  {
    var e := site.element;
    if other.element < e && Visits(other, e) {
      arc := (e, e);
      if e <= other.clause {
        HitInElement(other, e);
      } else if other.filtered {
        HitInCondition(other, e);
      } else {
        HitInIterable(other, e);
      }
    } else if other.kind.Inlined? {
      arc := (other.element, other.first);
      HitByEscape(other);
    } else {
      arc := (other.clause, other.first);
      HitByExhaustion(other);
    }
  }

  /** Any two consecutive events are an arc. */
  lemma ConsecutiveEvents(at: int, a: seq<int>, x: int, y: int, b: seq<int>)
    ensures (x, y) in ArcsFrom(at, a + [x, y] + b)
  {
    assert a + [x, y] + b == (a + [x]) + ([y] + b);
    ArcsAppend(at, a + [x], [y] + b);
  }

  lemma LoopArcLeft(other: Site, inv: Invocation, arc: Arc)
    requires ValidInvocation(other, inv)
    requires arc in ArcsFrom(other.clause, LoopEvents(other, other.clause, inv.moves, inv.ending))
    ensures LeftBy(other, arc)
  {
    EventsArcs(other, inv);
    assert arc in ArcsOfOne(other, inv);
  }

  lemma HitInElement(other: Site, e: int)
    requires WellPlaced(other) && other.element < e <= other.clause
    ensures LeftBy(other, (e, e))
  {
    var move := Turn([], [e, e], other.clause);
    var inv := Plainly(other, [move], Exhausted);
    assert inv.moves[1..] == [];
    var before := Reach(other.clause, other.element);
    var after := [other.clause] + EndingEvents(other, other.clause, Exhausted);
    assert LoopEvents(other, other.clause, inv.moves, Exhausted) == before + [e, e] + after;
    ConsecutiveEvents(other.clause, before, e, e, after);
    LoopArcLeft(other, inv, (e, e));
  }

  lemma HitInCondition(other: Site, e: int)
    requires WellPlaced(other) && other.filtered && other.clause < e <= other.last
    ensures LeftBy(other, (e, e))
  {
    var move := Away([e, e], other.clause);
    var inv := Plainly(other, [move], Exhausted);
    assert inv.moves[1..] == [];
    var after := [other.element] + [other.clause] + EndingEvents(other, other.clause, Exhausted);
    assert LoopEvents(other, other.clause, inv.moves, Exhausted) == [] + [e, e] + after;
    ConsecutiveEvents(other.clause, [], e, e, after);
    LoopArcLeft(other, inv, (e, e));
  }

  lemma HitInIterable(other: Site, e: int)
    requires WellPlaced(other) && other.wraps && other.clause < e <= other.last
    ensures LeftBy(other, (e, e))
  {
    var inv := Invocation(other.first, [e, e], [], Exhausted);
    assert NeverRepeats(other.clause, [e, e], other.element) by {
      assert [e, e][1..] == [e] && [e][1..] == [];
      assert NeverRepeats(e, [e], other.element);
    }
    var before, after := Reach(other.first, other.clause), Reach(e, other.first);
    assert EntryEvents(other, inv) == before + [e, e] + after;
    ConsecutiveEvents(other.first, before, e, e, after);
    assert ValidInvocation(other, inv) && (e, e) in ArcsOfOne(other, inv);
  }

  lemma HitByEscape(other: Site)
    requires WellPlaced(other) && other.kind.Inlined? && other.element != other.first
    ensures LeftBy(other, (other.element, other.first))
  {
    var inv := Plainly(other, [], Escaped([], true, [], false));
    var reach := Reach(other.clause, other.element);
    assert EndingEvents(other, other.clause, inv.ending) == reach + [other.first];
    ArcsAppend(other.clause, reach, [other.first]);
    LoopArcLeft(other, inv, (other.element, other.first));
  }

  lemma HitByExhaustion(other: Site)
    requires WellPlaced(other) && other.clause != other.first
    ensures LeftBy(other, (other.clause, other.first))
  {
    var inv := Plainly(other, [], Exhausted);
    assert EndingEvents(other, other.clause, Exhausted)[0] == other.first;
    LoopArcLeft(other, inv, (other.clause, other.first));
  }

  /** So siblings that are neither refused nor overlapping are harmless: with
      nothing else about, their arcs are the foreign arcs a run may have. */
  lemma SiblingsAreHarmless(site: Site, others: seq<Site>, foreign: set<Arc>, invs: seq<Invocation>)
    requires WellPlaced(site) && Decidable(site, others)
    requires forall k | 0 <= k < |others| ::
      others[k].id != site.id && WellPlaced(others[k]) && !Overlaps(site, others[k])
    requires forall arc | arc in foreign :: exists k :: 0 <= k < |others| && LeftBy(others[k], arc)
    requires forall i | 0 <= i < |invs| :: ValidInvocation(site, invs[i])
    ensures ValidRun(site, Run(invs, foreign))
  {
    forall arc | arc in foreign ensures !Counted(site, arc) && !IsFrameArc(site, arc) {
      var k :| 0 <= k < |others| && LeftBy(others[k], arc);
      SiblingHitsExactlyWhenOverlapping(site, others[k]);
    }
  }

  // ---- Why the refused siblings are refused ----------------------------------------------------------

  /** A sibling that shares the element's line: when it turns, though the site
      itself never runs, the arcs count as the site's turn. */
  lemma SharedElementLineMisleads(site: Site, other: Site) returns (inv: Invocation)
    requires WellPlaced(site) && Decidable(site, []) && WellPlaced(other) && other.element == site.element
    ensures ValidInvocation(other, inv) && !inv.ending.Escaped? && BackEdge(site, ArcsOfOne(other, inv))
  {
    var e := site.element;
    var move := Turn([], [e], other.clause);
    inv := Plainly(other, [move], Exhausted);
    assert inv.moves[1..] == [];
    var before, after := Reach(other.clause, e), EndingEvents(other, other.clause, Exhausted);
    EventsArcs(other, inv);
    if other.clause == e {
      assert LoopEvents(other, other.clause, inv.moves, Exhausted) == [] + [e, e] + after;
      ConsecutiveEvents(other.clause, [], e, e, after);
    } else {
      assert LoopEvents(other, other.clause, inv.moves, Exhausted) == [] + [e, e] + ([other.clause] + after);
      ConsecutiveEvents(other.clause, [], e, e, [other.clause] + after);
    }
    assert Counted(site, (e, e)) && (e, e) in ArcsOfOne(other, inv);
  }

  /** A second generator on the same frame line: dropped at its first element, it
      leaves a frame entered and never returned, which reads as the site's; run
      dry, it leaves a return that hides the site's own dropped frame. */
  lemma SharedFrameLineMisleads(site: Site, other: Site) returns (dropped: Invocation, dry: Invocation)
    requires WellPlaced(site) && WellPlaced(other) && site.kind.Generator? && other.kind.Generator?
    requires other.first == site.first && Decidable(other, [])
    ensures ValidInvocation(other, dropped) && ValidInvocation(other, dry)
    ensures NeverReturned(site, ArcsOfOne(other, dropped))
    ensures forall arcs :: ArcsOfOne(other, dry) <= arcs ==> !NeverReturned(site, arcs)
  {
    dropped, dry := Plainly(other, [], Abandoned([], [])), Plainly(other, [], Exhausted);
    InvocationShows(other, dropped);
    InvocationShows(other, dry);
    assert !Returns(other, dropped.ending) && Returns(other, dry.ending);
    var arc :| arc in ArcsOfOne(other, dry) && arc.1 == -other.first;
    assert forall arcs | ArcsOfOne(other, dry) <= arcs :: arc in arcs;
  }
}
