/** When the loop detector of sysadmin/vacuous_guards.py (`_loop_turned`) is
    right: exactly which sites it can be relied on for, the runs that mislead it
    elsewhere, and how much any reading of the arcs could tell. */
module LoopAnswers {
  import opened LoopArcs

  // ---- Sound and complete, and exactly when --------------------------------------------

  /** The answer is what happened. */
  ghost predicate RightOn(site: Site, run: Run) {
    Answer(site, run) <==> Truth(run)
  }

  /** The iterable stands on the element's line, and is reached there from inside
      the site: it wraps over lines and comes back, or control enters it from the
      site's last line. */
  predicate EntersOnElement(site: Site) {
    site.clause == site.element && (site.wraps || (site.kind.Inlined? && site.followed && site.element < site.last))
  }

  /** A generator whose head shares the element's line: a frame dropped at its
      first element leaves no arc of its own. */
  predicate DropsUnseen(site: Site) {
    site.kind.Generator? && site.clause == site.element
  }

  /** A yes can be relied on. */
  predicate YesTells(site: Site) {
    !site.filtered && !EntersOnElement(site)
  }

  /** Written so that the answer can be relied on both ways. */
  predicate Telling(site: Site) {
    YesTells(site) && !DropsUnseen(site)
  }

  lemma {:induction false} UnfilteredMoves(site: Site, at: int, moves: seq<Move>)
    requires ValidMoves(site, at, moves) && !site.filtered
    ensures forall i | 0 <= i < |moves| :: moves[i].Turn?
    decreases |moves|
  {
    if moves != [] {
      UnfilteredMoves(site, moves[0].back, moves[1..]);
      assert moves == [moves[0]] + moves[1..];
    }
  }

  /** On such a site the way in shows nothing, and every item is a turn. */
  lemma YesTellsInvocation(site: Site, inv: Invocation)
    requires WellPlaced(site) && ValidInvocation(site, inv) && YesTells(site)
    ensures !EntryTouches(site, inv)
    ensures inv.moves != [] ==> HasTurn(inv)
  {
    UnfilteredMoves(site, site.clause, inv.moves);
    assert inv.moves != [] ==> inv.moves[0].Turn?;
  }

  /** Where nothing is turned away and the way in does not touch the element's
      line, a yes is right. */
  lemma YesIsRight(site: Site, run: Run)
    requires WellPlaced(site) && Decidable(site, []) && ValidRun(site, run) && Calm(run) && YesTells(site)
    ensures Answer(site, run) ==> Truth(run)
  {
    AnswerMeaning(site, run);
    forall i | 0 <= i < |run.invocations| && EvidentIn(site, run.invocations[i])
      ensures Evaluated(run.invocations[i])
    {
      YesTellsInvocation(site, run.invocations[i]);
    }
    if run.invocations != [] {
      assert run.invocations[0].ending.Abandoned? ==> Evaluated(run.invocations[0]);
    }
  }

  /** Where no frame drops unseen a no is right, filtered or not. */
  lemma NoIsRight(site: Site, run: Run)
    requires WellPlaced(site) && Decidable(site, []) && ValidRun(site, run) && Calm(run) && !DropsUnseen(site)
    ensures Truth(run) ==> Answer(site, run)
  {
    AnswerMeaning(site, run);
    forall i | 0 <= i < |run.invocations| && Evaluated(run.invocations[i])
      ensures EvidentIn(site, run.invocations[i])
    {
      TouchesOffTheElementLine(site, run.invocations[i]);
    }
  }

  /** Off the element's line, reaching the element leaves an arc. */
  lemma TouchesOffTheElementLine(site: Site, inv: Invocation)
    requires WellPlaced(site) && ValidInvocation(site, inv)
    ensures site.clause != site.element && inv.ending.Abandoned? ==> EndingTouches(site, site.clause, inv.ending)
    ensures site.clause != site.element && inv.ending.Escaped? && inv.ending.reached ==>
      EndingTouches(site, site.clause, inv.ending)
  {
    if !inv.ending.Exhausted? && inv.ending.on != [] {
      var on := inv.ending.on;
      assert on[|on| - 1] == site.element ==> site.element in on;
    }
  }

  lemma TellingIsRight(site: Site, run: Run)
    requires WellPlaced(site) && Decidable(site, []) && ValidRun(site, run) && Calm(run) && Telling(site)
    ensures RightOn(site, run)
  {
    YesIsRight(site, run);
    NoIsRight(site, run);
  }

  /** Some item was turned away. */
  predicate TurnsAway(run: Run) {
    exists i, k :: 0 <= i < |run.invocations| && 0 <= k < |run.invocations[i].moves|
                     && run.invocations[i].moves[k].Away?
  }

  /** Some evaluation of the iterable touched the element's line. */
  predicate TouchedOnEntry(site: Site, run: Run) {
    exists i :: 0 <= i < |run.invocations| && EntryTouches(site, run.invocations[i])
  }

  /** A frame dropped at its first element, beside a frame that ran dry without
      an element. */
  predicate Mixed(run: Run) {
    exists i, j :: 0 <= i < |run.invocations| && 0 <= j < |run.invocations|
                     && !HasTurn(run.invocations[i]) && run.invocations[i].ending.Abandoned?
                     && !HasTurn(run.invocations[j]) && run.invocations[j].ending.Exhausted?
  }

  /** On any site the detector does not refuse, run by run: `True` means the
      element was evaluated, provided nothing was turned away and no iterable
      touched the element's line; and `False` means it was not, provided no such
      mix of frames. */
  lemma RightUnlessMixed(site: Site, run: Run)
    requires WellPlaced(site) && Decidable(site, []) && ValidRun(site, run) && Calm(run)
    ensures !TurnsAway(run) && !TouchedOnEntry(site, run) && Answer(site, run) ==> Truth(run)
    ensures !Mixed(run) && Truth(run) ==> Answer(site, run)
  {
    AnswerMeaning(site, run);
    var invs := run.invocations;
    forall i | 0 <= i < |invs|
      ensures HasTurn(invs[i]) ==> EvidentIn(site, invs[i])
      ensures EvidentIn(site, invs[i]) && !Evaluated(invs[i]) ==> TurnsAway(run) || TouchedOnEntry(site, run)
    {
      if invs[i].moves != [] && !HasTurn(invs[i]) {
        assert invs[i].moves[0].Away?;
      }
    }
    if Truth(run) && !Answer(site, run) {
      var i :| 0 <= i < |invs| && Evaluated(invs[i]);
      assert site.kind.Generator? by { assert ValidInvocation(site, invs[i]); }
      var j :| 0 <= j < |invs| && Returns(site, invs[j].ending);
      assert !HasTurn(invs[i]) && !HasTurn(invs[j]);
    }
    if Answer(site, run) && invs != [] && invs[0].ending.Abandoned? {
      assert Evaluated(invs[0]);
    }
  }

  // ---- Runs that mislead -------------------------------------------------------------------

  /** An item turned away leaves exactly the arcs of one that was taken, whatever
      lines its conditions stand on: one run evaluated the element, the other did
      not, and a coverage run cannot tell them apart. */
  lemma FilterMisleads(site: Site, on: seq<int>) returns (away: Run, taken: Run)
    requires WellPlaced(site) && Decidable(site, []) && site.filtered && ValidWalk(site, on)
    ensures ValidRun(site, away) && ValidRun(site, taken) && Calm(away) && Calm(taken)
    ensures !Truth(away) && Truth(taken) && Recorded(site, away) == Recorded(site, taken)
    ensures Answer(site, away)
  {
    var left, took := [Away(on, site.clause)], [Turn(on, [], site.clause)];
    away, taken := Run([Plainly(site, left, Exhausted)], {}), Run([Plainly(site, took, Exhausted)], {});
    assert ValidInvocation(site, away.invocations[0]) && ValidInvocation(site, taken.invocations[0]) by {
      assert left[1..] == [] && took[1..] == [];
    }
    assert Recorded(site, away) == Recorded(site, taken) by {
      SameEvents(site, on);
      assert away.invocations[1..] == [] && taken.invocations[1..] == [];
    }
    assert taken.invocations[0].moves[0].Turn? && HasTurn(taken.invocations[0]);
    assert EvidentIn(site, away.invocations[0]);
    AnswerMeaning(site, away);
  }

  lemma SameEvents(site: Site, on: seq<int>)
    ensures ArcsOfOne(site, Plainly(site, [Away(on, site.clause)], Exhausted)) ==
            ArcsOfOne(site, Plainly(site, [Turn(on, [], site.clause)], Exhausted))
  {
    var left, took := [Away(on, site.clause)], [Turn(on, [], site.clause)];
    assert left[1..] == [] && took[1..] == [];
    assert MoveEvents(site, site.clause, left[0]) == MoveEvents(site, site.clause, took[0]);
  }

  /** An empty loop whose iterable is reached on the element's line from inside
      the site: a wrong yes. */
  lemma EntryMisleads(site: Site) returns (run: Run)
    requires WellPlaced(site) && Decidable(site, []) && EntersOnElement(site)
    ensures ValidRun(site, run) && Calm(run) && !Truth(run) && Answer(site, run)
  {
    var inv;
    if site.wraps {
      inv := Invocation(site.first, [site.last, site.element], [], Exhausted);
      assert inv.iterable[1] == site.element && inv.iterable[1..] == [site.element] && [site.element][1..] == [];
      assert NeverRepeats(site.last, [site.element], site.element);
    } else {
      inv := Invocation(site.last, [], [], Exhausted);
    }
    run := Run([inv], {});
    assert EvidentIn(site, run.invocations[0]);
    AnswerMeaning(site, run);
  }

  /** A generator whose head shares the element's line: one frame dropped at its
      first element beside one that ran dry leave what the dry one leaves alone. */
  lemma MixedGeneratorMisleads(site: Site) returns (mixed: Run, dry: Run)
    requires WellPlaced(site) && Decidable(site, []) && DropsUnseen(site)
    ensures ValidRun(site, mixed) && ValidRun(site, dry) && Calm(mixed) && Calm(dry)
    ensures Truth(mixed) && !Truth(dry) && Recorded(site, mixed) == Recorded(site, dry)
    ensures !Answer(site, mixed)
  {
    var dropped, empty := Plainly(site, [], Abandoned([], [])), Plainly(site, [], Exhausted);
    mixed, dry := Run([dropped, empty], {}), Run([empty], {});
    assert ValidRun(site, mixed) && ValidRun(site, dry) by {
      assert ValidInvocation(site, dropped) && ValidInvocation(site, empty);
    }
    assert Evaluated(mixed.invocations[0]);
    assert !Answer(site, mixed) by {
      assert Returns(site, mixed.invocations[1].ending);
      AnswerMeaning(site, mixed);
    }
    assert Recorded(site, mixed) == Recorded(site, dry) by {
      DroppedLeavesLess(site);
      RecordedTwo(site, dropped, empty);
    }
  }

  lemma RecordedTwo(site: Site, a: Invocation, b: Invocation)
    ensures Recorded(site, Run([a, b], {})) == ArcsOfOne(site, a) + ArcsOfOne(site, b)
    ensures Recorded(site, Run([b], {})) == ArcsOfOne(site, b)
  {
    assert [a, b][1..] == [b] && [b][1..] == [];
    assert ArcsOf(site, []) == {};
    assert ArcsOf(site, [b]) == ArcsOfOne(site, b) + ArcsOf(site, []);
    assert ArcsOf(site, [a, b]) == ArcsOfOne(site, a) + ArcsOf(site, [b]);
  }

  lemma DroppedLeavesLess(site: Site)
    requires WellPlaced(site) && DropsUnseen(site)
    ensures ArcsOfOne(site, Plainly(site, [], Abandoned([], []))) <= ArcsOfOne(site, Plainly(site, [], Exhausted))
  {
    var dropped, empty := Plainly(site, [], Abandoned([], [])), Plainly(site, [], Exhausted);
    EventsArcs(site, dropped);
    EventsArcs(site, empty);
    assert EndingEvents(site, site.clause, dropped.ending) == [];
  }

  // ---- Why some sites are refused --------------------------------------------------------------

  /** One item, taken, on a site with nothing to walk. */
  function OneTurn(site: Site): Invocation {
    Plainly(site, [Turn([], [], site.clause)], Exhausted)
  }

  /** The element on the first line of a comprehension whose loop stands below: an
      empty loop and one that turned leave the same arcs, and they count as a
      turn.  So refusing is needed. */
  lemma ElementOnFirstLineMisleads(site: Site) returns (empty: Run, turned: Run)
    requires WellPlaced(site) && site.element == site.first < site.clause
    ensures ValidRun(site, empty) && ValidRun(site, turned) && Calm(empty) && Calm(turned)
    ensures !Truth(empty) && Truth(turned) && Recorded(site, empty) == Recorded(site, turned)
    ensures BackEdge(site, Recorded(site, empty))
  {
    var none, one := Plainly(site, [], Exhausted), OneTurn(site);
    empty, turned := Run([none], {}), Run([one], {});
    assert one.moves[1..] == [] && one.moves[0].Turn? && HasTurn(one);
    assert ValidInvocation(site, none) && ValidInvocation(site, one);
    RecordedTwo(site, none, none);
    RecordedTwo(site, one, one);
    FirstLineArcs(site);
    assert (site.clause, site.first) in Recorded(site, empty) && Counted(site, (site.clause, site.first));
    assert Evaluated(turned.invocations[0]);
  }

  lemma FirstLineArcs(site: Site)
    requires WellPlaced(site) && site.element == site.first < site.clause
    ensures ArcsOfOne(site, Plainly(site, [], Exhausted)) == ArcsOfOne(site, OneTurn(site))
    ensures (site.clause, site.first) in ArcsOfOne(site, OneTurn(site))
  {
    var none, one := Plainly(site, [], Exhausted), OneTurn(site);
    var exit, move := EndingEvents(site, site.clause, Exhausted), MoveEvents(site, site.clause, one.moves[0]);
    EventsArcs(site, none);
    EventsArcs(site, one);
    assert one.moves[1..] == [];
    assert move == [site.first, site.clause];
    assert LoopEvents(site, site.clause, one.moves, Exhausted) == move + exit;
    ArcsAppend(site.clause, move, exit);
    assert move[1..] == [site.clause] && [site.clause][1..] == [];
    assert ArcsFrom(site.clause, move) == {(site.clause, site.first), (site.first, site.clause)} by {
      assert ArcsFrom(site.first, [site.clause]) == {(site.first, site.clause)};
    }
    assert (site.first, site.clause) in WayIn(site);
    assert exit[0] == site.first && (site.clause, site.first) in ArcsFrom(site.clause, exit);
  }

  // ---- Exactly when the answer is right ------------------------------------------------------

  /** Exactly when a decided site is decided rightly on every run that no
      exception cuts short, read off the source alone: its yes where it turns
      nothing away and is not entered on the element's line, its no where no
      frame drops unseen, and so its answer where both hold. */
  lemma RightOnEveryRunExactlyWhenTelling(site: Site)
    requires WellPlaced(site) && Decidable(site, [])
    ensures (forall run | ValidRun(site, run) && Calm(run) :: Answer(site, run) ==> Truth(run)) <==> YesTells(site)
    ensures (forall run | ValidRun(site, run) && Calm(run) :: Truth(run) ==> Answer(site, run)) <==> !DropsUnseen(site)
    ensures (forall run | ValidRun(site, run) && Calm(run) :: RightOn(site, run)) <==> Telling(site)
  {
    if site.filtered {
      var away, taken := FilterMisleads(site, []);
      assert ValidRun(site, away) && Calm(away) && Answer(site, away) && !Truth(away) && !RightOn(site, away);
    } else if EntersOnElement(site) {
      var empty := EntryMisleads(site);
      assert ValidRun(site, empty) && Calm(empty) && Answer(site, empty) && !Truth(empty) && !RightOn(site, empty);
    } else {
      forall run | ValidRun(site, run) && Calm(run) ensures Answer(site, run) ==> Truth(run) {
        YesIsRight(site, run);
      }
    }
    if DropsUnseen(site) {
      var mixed, dry := MixedGeneratorMisleads(site);
      assert ValidRun(site, mixed) && Calm(mixed) && !Answer(site, mixed) && Truth(mixed) && !RightOn(site, mixed);
    } else {
      forall run | ValidRun(site, run) && Calm(run) ensures Truth(run) ==> Answer(site, run) {
        NoIsRight(site, run);
      }
    }
  }

  /** A comprehension on one line is decided; its yes can be relied on unless it is
      filtered, its no unless it is a generator. */
  lemma OneLineSites(site: Site)
    requires 1 <= site.first == site.element == site.target == site.clause == site.last && !site.wraps
    ensures WellPlaced(site) && Decidable(site, [])
    ensures (YesTells(site) <==> !site.filtered) && (DropsUnseen(site) <==> site.kind.Generator?)
  {
  }

  /** One with a line for each of its parts is decided too, and its no can always be
      relied on. */
  lemma SpreadSites(site: Site)
    requires 1 <= site.first < site.element < site.target == site.clause < site.last
    ensures WellPlaced(site) && Decidable(site, [])
    ensures (YesTells(site) <==> !site.filtered) && !DropsUnseen(site)
  {
  }

  // ---- What the arcs could tell ----------------------------------------------------------------

  /** A sharper reading of the same arcs: where the head stands on the element's
      line, only the jump from that line to itself is a turn. */
  ghost predicate Sharper(site: Site, arcs: set<Arc>) {
    if site.clause == site.element then (site.element, site.element) in arcs else BackEdge(site, arcs)
  }

  /** The loop jumps from the element's line to itself exactly when it has a
      move, on an inlined site that turns nothing away. */
  lemma {:induction false} SelfArcInLoop(site: Site, moves: seq<Move>)
    requires WellPlaced(site) && Decidable(site, []) && site.clause == site.element
    requires site.kind.Inlined? && !site.filtered && ValidMoves(site, site.clause, moves)
    ensures (site.element, site.element) in ArcsFrom(site.clause, LoopEvents(site, site.clause, moves, Exhausted))
      <==> moves != []
  {
    var e := site.element;
    if moves == [] {
      assert EndingEvents(site, site.clause, Exhausted) == Reach(site.clause, site.first);
    } else {
      var events := MoveEvents(site, site.clause, moves[0]);
      var rest := LoopEvents(site, moves[0].back, moves[1..], Exhausted);
      ArcsAppend(site.clause, events, rest);
      assert events[0] == e;
      assert (e, e) in ArcsFrom(site.clause, events);
    }
  }

  lemma {:induction false} NoSelfArc(at: int, lines: seq<int>, line: int)
    requires NeverRepeats(at, lines, line)
    ensures (line, line) !in ArcsFrom(at, lines)
    decreases |lines|
  {
    if lines != [] {
      NoSelfArc(lines[0], lines[1..], line);
    }
  }

  /** Nor does the way in jump from the element's line to itself. */
  lemma SelfArcNotOnEntry(site: Site, inv: Invocation)
    requires WellPlaced(site) && Decidable(site, []) && ValidInvocation(site, inv) && site.clause == site.element
    ensures (site.element, site.element) !in ArcsFrom(Origin(site, inv), EntryEvents(site, inv))
    ensures (site.element, site.element) !in WayIn(site)
  {
    var e, origin := site.element, Origin(site, inv);
    var enter, leave := Reach(origin, site.clause), Reach(Last(site.clause, inv.iterable), site.first);
    assert EntryEvents(site, inv) == enter + (inv.iterable + leave);
    ArcsAppend(origin, enter, inv.iterable + leave);
    ArcsAppend(site.clause, inv.iterable, leave);
    NoSelfArc(site.clause, inv.iterable, e);
    assert e == site.first ==> leave == [] by {
      assert e == site.first ==> site.last == site.first && inv.iterable == [];
    }
  }

  lemma SharperOnOne(site: Site, inv: Invocation)
    requires WellPlaced(site) && Decidable(site, []) && ValidInvocation(site, inv) && site.clause == site.element
    requires site.kind.Inlined? && !site.filtered && inv.ending.Exhausted?
    ensures (site.element, site.element) in ArcsOfOne(site, inv) <==> Evaluated(inv)
  {
    SelfArcNotOnEntry(site, inv);
    EventsArcs(site, inv);
    SelfArcInLoop(site, inv.moves);
    UnfilteredMoves(site, site.clause, inv.moves);
    assert inv.moves != [] ==> inv.moves[0].Turn?;
  }

  /** The sharper reading is right on every site that turns nothing away and
      drops no frame unseen, also where the detector is misled on the way in. */
  lemma SharperIsRight(site: Site, run: Run)
    requires WellPlaced(site) && Decidable(site, []) && ValidRun(site, run) && Calm(run)
    requires !site.filtered && !DropsUnseen(site)
    ensures Sharper(site, Recorded(site, run)) <==> Truth(run)
  {
    if site.clause == site.element {
      var self := (site.element, site.element);
      forall i | 0 <= i < |run.invocations|
        ensures self in ArcsOfOne(site, run.invocations[i]) <==> Evaluated(run.invocations[i])
      {
        assert ValidInvocation(site, run.invocations[i]);
        SharperOnOne(site, run.invocations[i]);
      }
      ArcsOfIsUnion(site, run.invocations, self);
      assert Counted(site, self);
    } else {
      AnswerMeaning(site, run);
      YesIsRight(site, run);
      forall i | 0 <= i < |run.invocations| && Evaluated(run.invocations[i])
        ensures EvidentIn(site, run.invocations[i])
      {
        TouchesOffTheElementLine(site, run.invocations[i]);
      }
    }
  }

  /** And that is as far as arcs go: any reading of them that is right on every
      such run is right only on sites that turn nothing away and drop no frame
      unseen. */
  lemma NoBetterDetector(site: Site, answer: set<Arc> -> bool)
    requires WellPlaced(site) && Decidable(site, [])
    requires forall run | ValidRun(site, run) && Calm(run) :: answer(Recorded(site, run)) <==> Truth(run)
    ensures !site.filtered && !DropsUnseen(site)
    ensures forall run | ValidRun(site, run) && Calm(run) ::
      answer(Recorded(site, run)) <==> Sharper(site, Recorded(site, run))
  {
    assert forall a, b | ValidRun(site, a) && Calm(a) && ValidRun(site, b) && Calm(b)
                           && Recorded(site, a) == Recorded(site, b) :: Truth(a) <==> Truth(b);
    if site.filtered {
      var away, taken := FilterMisleads(site, []);
    } else if DropsUnseen(site) {
      var mixed, dry := MixedGeneratorMisleads(site);
    }
    forall run | ValidRun(site, run) && Calm(run) ensures Sharper(site, Recorded(site, run)) <==> Truth(run) {
      SharperIsRight(site, run);
    }
  }

  // ---- Exceptions ----------------------------------------------------------------------------------

  /** Every exception that unwinds a frame is recorded so. */
  predicate Unwinds(run: Run, seen: bool) {
    forall i | 0 <= i < |run.invocations| && run.invocations[i].ending.Escaped? ::
      run.invocations[i].ending.seen == seen
  }

  /** A yes survives exceptions: none raised while an item is drawn or unpacked
      passes for a turn. */
  predicate YesSurvives(site: Site, seen: bool) {
    && YesTells(site)
    && (if site.kind.Inlined? then site.first != site.element else seen)
    && !(site.target == site.element && site.clause != site.element)
  }

  /** A no survives exceptions: one raised in the first element shows. */
  predicate NoSurvives(site: Site) {
    site.clause != site.element || (site.kind.Inlined? && site.first == site.element)
  }

  lemma YesDespiteExceptions(site: Site, run: Run, seen: bool)
    requires WellPlaced(site) && Decidable(site, []) && ValidRun(site, run) && Unwinds(run, seen)
    requires YesSurvives(site, seen)
    ensures Answer(site, run) ==> Truth(run)
  {
    AnswerMeaning(site, run);
    forall i | 0 <= i < |run.invocations| && EvidentIn(site, run.invocations[i])
      ensures Evaluated(run.invocations[i])
    {
      YesTellsInvocation(site, run.invocations[i]);
      if run.invocations[i].ending.Escaped? && !run.invocations[i].ending.reached {
        EscapeShowsNothing(site, run.invocations[i].ending);
      }
    }
    if run.invocations != [] {
      assert run.invocations[0].ending.Abandoned? ==> Evaluated(run.invocations[0]);
    }
  }

  lemma EscapeShowsNothing(site: Site, ending: Ending)
    requires WellPlaced(site) && ValidEnding(site, ending) && ending.Escaped? && !ending.reached
    requires !site.filtered && !(site.target == site.element && site.clause != site.element)
    requires site.kind.Inlined? ==> site.first != site.element
    ensures !EndingTouches(site, site.clause, ending)
  {
  }

  lemma NoDespiteExceptions(site: Site, run: Run)
    requires WellPlaced(site) && Decidable(site, []) && ValidRun(site, run) && NoSurvives(site)
    ensures Truth(run) ==> Answer(site, run)
  {
    AnswerMeaning(site, run);
    forall i | 0 <= i < |run.invocations| && Evaluated(run.invocations[i])
      ensures EvidentIn(site, run.invocations[i])
    {
      TouchesOffTheElementLine(site, run.invocations[i]);
    }
  }

  /** A run of one invocation that an exception ends at once, without an item. */
  function EscapedAtOnce(site: Site, on: seq<int>, reached: bool, seen: bool): Run {
    Run([Plainly(site, [], Escaped(on, reached, [], seen))], {})
  }

  lemma EscapeMisleadsYes(site: Site, seen: bool) returns (run: Run)
    requires WellPlaced(site) && Decidable(site, []) && YesTells(site) && !YesSurvives(site, seen)
    ensures ValidRun(site, run) && Unwinds(run, seen) && !Truth(run) && Answer(site, run)
  {
    var on := if site.target == site.element && site.clause != site.element then [site.element] else [];
    run := EscapedAtOnce(site, on, false, seen);
    assert on != [] ==> on[0] == site.element;
    assert ValidInvocation(site, run.invocations[0]);
    AnswerMeaning(site, run);
    assert EvidentIn(site, run.invocations[0]) || NoneReturned(site, run);
  }

  lemma EscapeMisleadsNo(site: Site, seen: bool) returns (run: Run)
    requires WellPlaced(site) && Decidable(site, []) && !DropsUnseen(site) && !NoSurvives(site)
    ensures ValidRun(site, run) && Unwinds(run, seen) && Truth(run) && !Answer(site, run)
  {
    run := EscapedAtOnce(site, [], true, seen);
    assert ValidInvocation(site, run.invocations[0]);
    AnswerMeaning(site, run);
    assert Evaluated(run.invocations[0]);
  }

  /** Exactly when a decided site is decided rightly on every run, exceptions
      and all. */
  lemma RightDespiteExceptionsExactlyWhen(site: Site, seen: bool)
    requires WellPlaced(site) && Decidable(site, [])
    ensures (forall run | ValidRun(site, run) && Unwinds(run, seen) :: Answer(site, run) ==> Truth(run)) <==>
      YesSurvives(site, seen)
    ensures (forall run | ValidRun(site, run) && Unwinds(run, seen) :: Truth(run) ==> Answer(site, run)) <==>
      NoSurvives(site)
  {
    if YesSurvives(site, seen) {
      forall run | ValidRun(site, run) && Unwinds(run, seen) ensures Answer(site, run) ==> Truth(run) {
        YesDespiteExceptions(site, run, seen);
      }
    } else {
      var wrong := WrongYes(site, seen);
      assert ValidRun(site, wrong) && Unwinds(wrong, seen) && Answer(site, wrong) && !Truth(wrong);
    }
    if NoSurvives(site) {
      forall run | ValidRun(site, run) && Unwinds(run, seen) ensures Truth(run) ==> Answer(site, run) {
        NoDespiteExceptions(site, run);
      }
    } else {
      var wrong := WrongNo(site, seen);
      assert ValidRun(site, wrong) && Unwinds(wrong, seen) && Truth(wrong) && !Answer(site, wrong);
    }
  }

  lemma WrongYes(site: Site, seen: bool) returns (run: Run)
    requires WellPlaced(site) && Decidable(site, []) && !YesSurvives(site, seen)
    ensures ValidRun(site, run) && Unwinds(run, seen) && !Truth(run) && Answer(site, run)
  {
    if site.filtered {
      var away, taken := FilterMisleads(site, []);
      run := away;
    } else if EntersOnElement(site) {
      run := EntryMisleads(site);
    } else {
      run := EscapeMisleadsYes(site, seen);
    }
  }

  lemma WrongNo(site: Site, seen: bool) returns (run: Run)
    requires WellPlaced(site) && Decidable(site, []) && !NoSurvives(site)
    ensures ValidRun(site, run) && Unwinds(run, seen) && Truth(run) && !Answer(site, run)
  {
    if DropsUnseen(site) {
      var mixed, dry := MixedGeneratorMisleads(site);
      run := mixed;
    } else {
      run := EscapeMisleadsNo(site, seen);
    }
  }
}
