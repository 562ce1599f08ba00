/** Did a comprehension ever evaluate its element?  The detector of
    sysadmin/vacuous_guards.py (`_loop_turned`) answers from the line-to-line
    arcs a coverage run recorded.  Here the arcs come from an explicit model of
    what a comprehension does to a frame, and the answer is compared with what
    the comprehension did.  The model is of plain `for`: a comprehension with an
    `async for` is not part of it. */
module LoopArcs {
  import opened Ordering

  type Arc = (int, int)

  datatype Kind = Inlined | Generator

  /** A comprehension as written.  `first` and `last` bound it; `element` is the
      line its element starts on (for a dict comprehension the earlier of key and
      value), `target` the line of its first loop variable, and `clause` the line
      its first iterable starts on, which is where the loop's head stands.
      `filtered`: it has an `if`, or a second `for`, and so may turn items away.
      `wraps`: its first iterable runs over several lines.  `followed`: code to
      the right of its closing bracket can be what runs just before it, as the
      condition of `[...] if c else d` is, or the end of a loop's body. */
  datatype Site = Site(
    id: nat, kind: Kind, first: int, last: int, element: int, target: int, clause: int,
    filtered: bool, wraps: bool, followed: bool)

  /** A comprehension is written element first. */
  predicate WellPlaced(site: Site) {
    && 1 <= site.first <= site.element <= site.target <= site.clause <= site.last
    && (site.wraps ==> site.clause < site.last)
  }

  // ---- What running it does ---------------------------------------------------

  /** One item of a loop, from the head it was drawn at: control walks the lines
      `on` of the loop variables, conditions and inner loops, and then either
      evaluates the element (`Turn`), visiting the lines `inside`, or turns the
      item away: a condition fails, an inner loop runs dry.  Either way it ends
      in a jump back to a head, on line `back`, and the compiler gives that jump
      the element's line. */
  datatype Move = Turn(on: seq<int>, inside: seq<int>, back: int) | Away(on: seq<int>, back: int)

  /** The loop ran dry; or its consumer dropped the generator while it was
      handing over an element (`any`, `next`); or an exception left the
      comprehension, `reached` saying whether the element had been started and
      `seen` whether the run records the end of a generator's frame that an
      exception unwinds. */
  datatype Ending =
    | Exhausted
    | Abandoned(on: seq<int>, inside: seq<int>)
    | Escaped(on: seq<int>, reached: bool, inside: seq<int>, seen: bool)

  /** One evaluation: control comes `from` a line of the enclosing frame, walks
      the lines `iterable` of the first iterable after its own first line, and
      then the loop begins. */
  datatype Invocation = Invocation(from: int, iterable: seq<int>, moves: seq<Move>, ending: Ending)

  predicate Between(lines: seq<int>, low: int, high: int) {
    forall i | 0 <= i < |lines| :: low <= lines[i] <= high
  }

  /** The line control is on after the events `lines`, from line `at`. */
  function Last(at: int, lines: seq<int>): int {
    if lines == [] then at else lines[|lines| - 1]
  }

  /** Without conditions and inner loops there are only loop variables to walk,
      and they raise events only off the element's line or off the head's. */
  predicate ValidWalk(site: Site, on: seq<int>) {
    && Between(on, site.target, site.last)
    && (!site.filtered ==> Between(on, site.target, site.clause) && (site.clause == site.element ==> on == []))
  }

  /** The element is written before the loop. */
  predicate ValidInside(site: Site, inside: seq<int>) {
    Between(inside, site.element, site.clause)
  }

  predicate ValidMove(site: Site, at: int, move: Move) {
    && ValidWalk(site, move.on) && site.clause <= move.back <= site.last
    && (move.on == [] ==> move.back <= at)
    && (!site.filtered ==> move.back == site.clause)
    && match move
       case Turn(_, inside, _) => ValidInside(site, inside)
       case Away(_, _) => site.filtered
  }

  /** The moves are possible one after the other, from line `at`. */
  predicate ValidMoves(site: Site, at: int, moves: seq<Move>)
    decreases |moves|
  {
    moves == [] || (ValidMove(site, at, moves[0]) && ValidMoves(site, moves[0].back, moves[1..]))
  }

  predicate ValidEnding(site: Site, ending: Ending) {
    match ending
    case Exhausted => true
    case Abandoned(on, inside) => site.kind.Generator? && ValidWalk(site, on) && ValidInside(site, inside)
    case Escaped(on, reached, inside, _) =>
      ValidWalk(site, on) && ValidInside(site, inside) && (inside != [] ==> reached)
  }

  /** The lines of the iterable, none following itself on the element's line:
      the only jumps back within an expression are those of other
      comprehensions, and one with its element there is refused. */
  predicate ValidIterable(site: Site, iterable: seq<int>) {
    && (iterable != [] ==> site.wraps) && Between(iterable, site.clause, site.last)
    && NeverRepeats(site.clause, iterable, site.element)
  }

  /** No event on `line` directly follows another, from line `at`. */
  predicate NeverRepeats(at: int, lines: seq<int>, line: int)
    decreases |lines|
  {
    lines == [] || (!(at == line && lines[0] == line) && NeverRepeats(lines[0], lines[1..], line))
  }

  /** Control comes from outside, or from a line the comprehension shares with
      its surroundings. */
  predicate ValidFrom(site: Site, from: int) {
    from >= 1 && (site.first < from <= site.last ==> site.followed && from == site.last)
  }

  predicate ValidInvocation(site: Site, inv: Invocation) {
    && ValidFrom(site, inv.from) && ValidIterable(site, inv.iterable)
    && ValidMoves(site, site.clause, inv.moves) && ValidEnding(site, inv.ending)
  }

  /** A line event is raised when the line changes; going on within one line
      raises none. */
  function Reach(at: int, line: int): seq<int> {
    if at == line then [] else [line]
  }

  /** Walking to the element and through it. */
  function ElementEvents(site: Site, at: int, on: seq<int>, inside: seq<int>): seq<int> {
    on + Reach(Last(at, on), site.element) + inside
  }

  /** A jump back raises an event even when it stays on its line. */
  function MoveEvents(site: Site, at: int, move: Move): seq<int> {
    ElementEvents(site, at, move.on, if move.Turn? then move.inside else []) + [move.back]
  }

  /** An exception enters the handler of an inlined comprehension, on its first
      line; it unwinds a generator's frame. */
  function EscapeEvents(site: Site, seen: bool): seq<int> {
    if site.kind.Inlined? then [site.first] else if seen then [-site.first] else []
  }

  function EndingEvents(site: Site, at: int, ending: Ending): seq<int> {
    match ending
    case Exhausted => Reach(at, site.first) + if site.kind.Generator? then [-site.first] else []
    case Abandoned(on, inside) => ElementEvents(site, at, on, inside)
    case Escaped(on, reached, inside, seen) =>
      (if reached then ElementEvents(site, at, on, inside) else on) + EscapeEvents(site, seen)
  }

  /** The events of the loop from line `at` on. */
  function LoopEvents(site: Site, at: int, moves: seq<Move>, ending: Ending): seq<int>
    decreases |moves|
  {
    if moves == [] then EndingEvents(site, at, ending)
    else MoveEvents(site, at, moves[0]) + LoopEvents(site, moves[0].back, moves[1..], ending)
  }

  /** Where the loop's events start: a generator has a frame of its own, an
      inlined comprehension (PEP 709) runs in the enclosing one. */
  function Start(site: Site): int {
    if site.kind.Generator? then -site.first else site.first
  }

  function Events(site: Site, inv: Invocation): seq<int> {
    (if site.kind.Generator? then [site.first] else []) + Reach(site.first, site.clause) +
    LoopEvents(site, site.clause, inv.moves, inv.ending)
  }

  /** Before the loop the iterable is evaluated, in the enclosing frame.  An
      inlined comprehension starts with it; a generator is first made, on its
      first line.  (An iterable that raises leaves part of these arcs.) */
  function Origin(site: Site, inv: Invocation): int {
    if site.kind.Generator? then site.first else inv.from
  }

  function EntryEvents(site: Site, inv: Invocation): seq<int> {
    Reach(Origin(site, inv), site.clause) + inv.iterable + Reach(Last(site.clause, inv.iterable), site.first)
  }

  /** The arcs between consecutive events. */
  function ArcsFrom(at: int, events: seq<int>): set<Arc>
    decreases |events|
  {
    if events == [] then {} else {(at, events[0])} + ArcsFrom(events[0], events[1..])
  }

  function ArcsOfOne(site: Site, inv: Invocation): set<Arc> {
    ArcsFrom(Origin(site, inv), EntryEvents(site, inv)) + ArcsFrom(Start(site), Events(site, inv))
  }

  predicate HasTurn(inv: Invocation) {
    exists i :: 0 <= i < |inv.moves| && inv.moves[i].Turn?
  }

  /** What the run did: the element was evaluated, or at least begun. */
  predicate Evaluated(inv: Invocation) {
    inv.ending.Abandoned? || (inv.ending.Escaped? && inv.ending.reached) || HasTurn(inv)
  }

  /** A run of the file: any number of invocations of the site, and whatever
      the rest of the file left behind. */
  datatype Run = Run(invocations: seq<Invocation>, foreign: set<Arc>)

  /** The arc that enters the site's frame, or one that leaves it. */
  predicate IsFrameArc(site: Site, arc: Arc) {
    site.kind.Generator? && (arc == (-site.first, site.first) || arc.1 == -site.first)
  }

  /** The rest of the file leaves no arc that would count as the site's turn, and
      none of its frame's.  `LoopSiblings.SiblingsAreHarmless` says when other
      comprehensions keep to this; a one-line `lambda` around a generator, whose
      frame has the same first line, does not. */
  ghost predicate ValidRun(site: Site, run: Run) {
    && (forall i | 0 <= i < |run.invocations| :: ValidInvocation(site, run.invocations[i]))
    && (forall arc | arc in run.foreign :: !Counted(site, arc) && !IsFrameArc(site, arc))
  }

  /** No exception left the comprehension. */
  predicate Calm(run: Run) {
    forall i | 0 <= i < |run.invocations| :: !run.invocations[i].ending.Escaped?
  }

  function ArcsOf(site: Site, invocations: seq<Invocation>): set<Arc> {
    if invocations == [] then {} else ArcsOfOne(site, invocations[0]) + ArcsOf(site, invocations[1..])
  }

  function Recorded(site: Site, run: Run): set<Arc> {
    ArcsOf(site, run.invocations) + run.foreign
  }

  predicate Truth(run: Run) {
    exists i :: 0 <= i < |run.invocations| && Evaluated(run.invocations[i])
  }

  /** An invocation entered from its own first line, with nothing to walk. */
  function Plainly(site: Site, moves: seq<Move>, ending: Ending): Invocation {
    Invocation(site.first, [], moves, ending)
  }

  // ---- The detector -------------------------------------------------------------

  /** An arc that is read as a turn: it reaches the element line from inside
      the span, and is not the way in. */
  predicate Counted(site: Site, arc: Arc) {
    && arc.1 == site.element
    && site.first <= arc.0 <= site.last
    && !(site.element > site.first && arc.0 == site.first)
  }

  /** A sibling that makes the arcs ambiguous. */
  predicate Confusable(site: Site, other: Site) {
    other.id != site.id &&
    (other.element == site.element ||
     (site.kind.Generator? && other.kind.Generator? && other.first == site.first))
  }

  predicate Decidable(site: Site, siblings: seq<Site>) {
    && !(site.element == site.first && site.last > site.first)
    && forall i | 0 <= i < |siblings| :: !Confusable(site, siblings[i])
  }

  /** The site is on one line, or its element is below its first line; and no
      other comprehension has its element on the same line or, both being
      generators, its frame. */
  predicate Unobstructed(site: Site, siblings: seq<Site>) {
    && (site.first == site.last || site.first < site.element)
    && (forall i | 0 <= i < |siblings| && siblings[i].id != site.id :: siblings[i].element != site.element)
    && (forall i | 0 <= i < |siblings| && siblings[i].id != site.id && siblings[i].first == site.first ::
          siblings[i].kind.Inlined? || site.kind.Inlined?)
  }

  /** Of sites as they are written, exactly the unobstructed ones are answered. */
  lemma DecidedExactlyWhenUnobstructed(site: Site, siblings: seq<Site>)
    requires WellPlaced(site)
    ensures Decidable(site, siblings) <==> Unobstructed(site, siblings)
  {
    if Unobstructed(site, siblings) {
      forall i | 0 <= i < |siblings| ensures !Confusable(site, siblings[i]) {
      }
    }
  }

  ghost predicate BackEdge(site: Site, arcs: set<Arc>) {
    exists arc :: arc in arcs && Counted(site, arc)
  }

  /** A generator frame that was entered and never returned. */
  ghost predicate NeverReturned(site: Site, arcs: set<Arc>) {
    && site.kind.Generator?
    && (-site.first, site.first) in arcs
    && forall arc | arc in arcs :: arc.1 != -site.first
  }

  method LoopTurned(site: Site, arcs: set<Arc>, siblings: seq<Site>) returns (turned: Option<bool>, why: string)
    ensures turned.Some? <==> Decidable(site, siblings)
    ensures turned.Some? ==> (turned.value <==> BackEdge(site, arcs) || NeverReturned(site, arcs))
    ensures turned.None? <==> why != ""
    ensures Unobstructed(site, siblings) ==> turned.Some?
  {
    if site.element == site.first && site.last > site.first {
      return None, "its element sits on the comprehension's own first line";
    }
    for i := 0 to |siblings|
      invariant forall j | 0 <= j < i :: !Confusable(site, siblings[j])
    {
      var other := siblings[i];
      if other.id != site.id {
        if other.element == site.element {
          return None, "another comprehension shares its element line";
        }
        if site.kind.Generator? && other.kind.Generator? && other.first == site.first {
          return None, "another generator expression shares its frame line";
        }
      }
    }
    var rest := arcs;
    while rest != {}
      invariant rest <= arcs
      invariant forall arc | arc in arcs - rest :: !Counted(site, arc)
      decreases rest
    {
      var arc :| arc in rest;
      if Counted(site, arc) {
        return Some(true), "";
      }
      rest := rest - {arc};
    }
    if site.kind.Generator? {
      var entered := (-site.first, site.first) in arcs;
      var returned := exists arc | arc in arcs :: arc.1 == -site.first;
      if entered && !returned {
        return Some(true), "";
      }
    }
    return Some(false), "";
  }

  // ---- What the arcs of one invocation show ---------------------------------------

  lemma {:induction false} ArcsAppend(at: int, a: seq<int>, b: seq<int>)
    ensures ArcsFrom(at, a + b) == ArcsFrom(at, a) + ArcsFrom(Last(at, a), b)
    decreases |a|
  {
    if a == [] {
      assert a + b == b;
    } else {
      assert (a + b)[1..] == a[1..] + b;
      ArcsAppend(a[0], a[1..], b);
    }
  }

  /** Arcs along lines from the element's on: they stay there, and come back to
      the element's line exactly when that line is among them. */
  lemma {:induction false} InsideArcs(site: Site, at: int, lines: seq<int>)
    requires WellPlaced(site) && Decidable(site, []) && Between(lines, site.element, site.last)
    requires site.element <= at <= site.last
    ensures BackEdge(site, ArcsFrom(at, lines)) <==> site.element in lines
    ensures forall arc | arc in ArcsFrom(at, lines) :: arc.0 >= 0 && arc.1 >= 0
    ensures site.element <= Last(at, lines) <= site.last
    decreases |lines|
  {
    if lines != [] {
      InsideArcs(site, lines[0], lines[1..]);
      assert Counted(site, (at, lines[0])) <==> lines[0] == site.element;
      assert lines == [lines[0]] + lines[1..];
    }
  }

  /** Walking to the element from a head, and through it. */
  lemma ElementArcs(site: Site, at: int, on: seq<int>, inside: seq<int>)
    requires WellPlaced(site) && Decidable(site, []) && ValidWalk(site, on) && ValidInside(site, inside)
    requires site.clause <= at <= site.last
    ensures var events := ElementEvents(site, at, on, inside);
      && (BackEdge(site, ArcsFrom(at, events)) <==> Touches(site, at, on, inside))
      && (forall arc | arc in ArcsFrom(at, events) :: arc.0 >= 0 && arc.1 >= 0)
      && site.element <= Last(at, events) <= site.last
  {
    var end := Last(at, on);
    var rest := Reach(end, site.element) + inside;
    assert ElementEvents(site, at, on, inside) == on + rest;
    ArcsAppend(at, on, rest);
    InsideArcs(site, at, on);
    ReachArcs(site, end, inside);
  }

  lemma ReachArcs(site: Site, at: int, inside: seq<int>)
    requires WellPlaced(site) && Decidable(site, []) && ValidInside(site, inside)
    requires site.element <= at <= site.last
    ensures var events := Reach(at, site.element) + inside;
      && (BackEdge(site, ArcsFrom(at, events)) <==> at != site.element || site.element in inside)
      && (forall arc | arc in ArcsFrom(at, events) :: arc.0 >= 0 && arc.1 >= 0)
      && site.element <= Last(at, events) <= site.last
  {
    var reach := Reach(at, site.element);
    ArcsAppend(at, reach, inside);
    InsideArcs(site, site.element, inside);
    assert ArcsFrom(at, reach) == if at == site.element then {} else {(at, site.element)};
    assert at != site.element ==> Counted(site, (at, site.element));
  }

  /** On the way through the element its line is reached by an arc. */
  predicate Touches(site: Site, at: int, on: seq<int>, inside: seq<int>) {
    site.element in on || Last(at, on) != site.element || site.element in inside
  }

  predicate EndingTouches(site: Site, at: int, ending: Ending) {
    match ending
    case Exhausted => false
    case Abandoned(on, inside) => Touches(site, at, on, inside)
    case Escaped(on, reached, inside, _) =>
      || (if reached then Touches(site, at, on, inside) else site.element in on)
      || (site.kind.Inlined? && site.first == site.element)
  }

  /** What a loop from line `at` on leaves for the detector to see: any item at
      all, taken or turned away, or an ending that touches the element's line. */
  predicate Evident(site: Site, at: int, moves: seq<Move>, ending: Ending) {
    moves != [] || EndingTouches(site, at, ending)
  }

  /** The end of the generator's frame is recorded. */
  predicate Returns(site: Site, ending: Ending) {
    site.kind.Generator? && (ending.Exhausted? || (ending.Escaped? && ending.seen))
  }

  ghost predicate Shows(site: Site, arcs: set<Arc>, evident: bool, returns_: bool) {
    && (BackEdge(site, arcs) <==> evident)
    && ((exists arc :: arc in arcs && arc.1 == -site.first) <==> returns_)
    && (-site.first, site.first) !in arcs
  }

  lemma ShowsUnion(site: Site, a: set<Arc>, b: set<Arc>, ea: bool, eb: bool, ra: bool, rb: bool)
    requires Shows(site, a, ea, ra) && Shows(site, b, eb, rb)
    ensures Shows(site, a + b, ea || eb, ra || rb)
  {
  }

  lemma {:induction false} LoopShows(site: Site, at: int, moves: seq<Move>, ending: Ending)
    requires WellPlaced(site) && Decidable(site, []) && site.clause <= at <= site.last
    requires ValidMoves(site, at, moves) && ValidEnding(site, ending)
    ensures Shows(site, ArcsFrom(at, LoopEvents(site, at, moves, ending)),
                  Evident(site, at, moves, ending), Returns(site, ending))
    decreases |moves|
  {
    if moves == [] {
      EndingShows(site, at, ending);
    } else {
      var move := moves[0];
      var events, rest := MoveEvents(site, at, move), LoopEvents(site, move.back, moves[1..], ending);
      LoopShows(site, move.back, moves[1..], ending);
      MoveShows(site, at, move);
      ArcsAppend(at, events, rest);
      ShowsUnion(site, ArcsFrom(at, events), ArcsFrom(move.back, rest),
                 true, Evident(site, move.back, moves[1..], ending), false, Returns(site, ending));
    }
  }

  /** Every item shows, whether it was taken or turned away. */
  lemma MoveShows(site: Site, at: int, move: Move)
    requires WellPlaced(site) && Decidable(site, []) && site.clause <= at <= site.last && ValidMove(site, at, move)
    ensures Shows(site, ArcsFrom(at, MoveEvents(site, at, move)), true, false)
  {
    var inside := if move.Turn? then move.inside else [];
    var events := ElementEvents(site, at, move.on, inside);
    var end := Last(at, events);
    ElementArcs(site, at, move.on, inside);
    ArcsAppend(at, events, [move.back]);
    assert ArcsFrom(end, [move.back]) == {(end, move.back)};
    if !Touches(site, at, move.on, inside) {
      assert move.on == [] && move.back == site.element && Counted(site, (end, move.back));
    }
  }

  /** One last arc, after events that show nothing about the frame. */
  lemma LastArcShows(site: Site, at: int, events: seq<int>, line: int, evident: bool)
    requires WellPlaced(site)
    requires BackEdge(site, ArcsFrom(at, events)) <==> evident
    requires forall arc | arc in ArcsFrom(at, events) :: arc.0 >= 0 && arc.1 >= 0
    requires Last(at, events) >= 0
    ensures Shows(site, ArcsFrom(at, events + [line]), evident || Counted(site, (Last(at, events), line)),
                  line == -site.first)
  {
    ArcsAppend(at, events, [line]);
    assert ArcsFrom(Last(at, events), [line]) == {(Last(at, events), line)};
  }

  lemma EndingShows(site: Site, at: int, ending: Ending)
    requires WellPlaced(site) && Decidable(site, []) && site.clause <= at <= site.last && ValidEnding(site, ending)
    ensures Shows(site, ArcsFrom(at, EndingEvents(site, at, ending)),
                  EndingTouches(site, at, ending), Returns(site, ending))
  {
    match ending
    case Exhausted => ExhaustedShows(site, at);
    case Abandoned(on, inside) => ElementArcs(site, at, on, inside);
    case Escaped(on, reached, inside, seen) => EscapedShows(site, at, ending);
  }

  lemma ExhaustedShows(site: Site, at: int)
    requires WellPlaced(site) && Decidable(site, []) && site.clause <= at <= site.last
    ensures Shows(site, ArcsFrom(at, EndingEvents(site, at, Exhausted)), false, site.kind.Generator?)
  {
    var reach := Reach(at, site.first);
    var leave := if site.kind.Generator? then [-site.first] else [];
    ArcsAppend(at, reach, leave);
    assert ArcsFrom(at, reach) == if reach == [] then {} else {(at, site.first)};
    assert ArcsFrom(Last(at, reach), leave) == if leave == [] then {} else {(Last(at, reach), -site.first)};
    assert site.element == site.first ==> at == site.first;
  }

  lemma EscapedShows(site: Site, at: int, ending: Ending)
    requires WellPlaced(site) && Decidable(site, []) && site.clause <= at <= site.last
    requires ending.Escaped? && ValidEnding(site, ending)
    ensures Shows(site, ArcsFrom(at, EndingEvents(site, at, ending)),
                  EndingTouches(site, at, ending), Returns(site, ending))
  {
    var on, inside := ending.on, ending.inside;
    var events := if ending.reached then ElementEvents(site, at, on, inside) else on;
    var touched := if ending.reached then Touches(site, at, on, inside) else site.element in on;
    ElementArcs(site, at, on, inside);
    InsideArcs(site, at, on);
    var escape := EscapeEvents(site, ending.seen);
    if escape == [] {
      assert events + escape == events;
    } else {
      LastArcShows(site, at, events, escape[0], touched);
      assert escape == [escape[0]];
    }
  }

  // ---- The way in -----------------------------------------------------------------

  /** The evaluation of the iterable reaches the element's line from inside. */
  predicate EntryTouches(site: Site, inv: Invocation) {
    || site.element in inv.iterable
    || (site.kind.Inlined? && site.clause == site.element && site.element < inv.from == site.last)
  }

  lemma EntryShows(site: Site, inv: Invocation)
    requires WellPlaced(site) && Decidable(site, []) && ValidFrom(site, inv.from) && ValidIterable(site, inv.iterable)
    ensures Shows(site, ArcsFrom(Origin(site, inv), EntryEvents(site, inv)), EntryTouches(site, inv), false)
  {
    var origin, enter := Origin(site, inv), Reach(Origin(site, inv), site.clause);
    var rest := inv.iterable + Reach(Last(site.clause, inv.iterable), site.first);
    assert EntryEvents(site, inv) == enter + rest;
    ArcsAppend(origin, enter, rest);
    IterableShows(site, inv.iterable);
    assert ArcsFrom(origin, enter) == if origin == site.clause then {} else {(origin, site.clause)};
    assert Counted(site, (origin, site.clause)) && origin != site.clause <==>
      site.kind.Inlined? && site.clause == site.element && site.element < inv.from == site.last;
    var shown := Counted(site, (origin, site.clause)) && origin != site.clause;
    ShowsUnion(site, ArcsFrom(origin, enter), ArcsFrom(site.clause, rest),
               shown, site.element in inv.iterable, false, false);
  }

  lemma IterableShows(site: Site, iterable: seq<int>)
    requires WellPlaced(site) && Decidable(site, []) && ValidIterable(site, iterable)
    ensures Shows(site, ArcsFrom(site.clause, iterable + Reach(Last(site.clause, iterable), site.first)),
                  site.element in iterable, false)
  {
    InsideArcs(site, site.clause, iterable);
    var end := Last(site.clause, iterable);
    if end == site.first {
      assert iterable + Reach(end, site.first) == iterable;
    } else {
      LastArcShows(site, site.clause, iterable, site.first, site.element in iterable);
      assert !Counted(site, (end, site.first));
    }
  }

  /** The arcs from the frame's start to the loop's head. */
  function WayIn(site: Site): set<Arc> {
    (if site.kind.Generator? then {(-site.first, site.first)} else {}) +
    (if site.first != site.clause then {(site.first, site.clause)} else {})
  }

  lemma EventsArcs(site: Site, inv: Invocation)
    ensures ArcsFrom(Start(site), Events(site, inv)) ==
      WayIn(site) + ArcsFrom(site.clause, LoopEvents(site, site.clause, inv.moves, inv.ending))
  {
    WayInArcs(site, LoopEvents(site, site.clause, inv.moves, inv.ending));
  }

  lemma WayInArcs(site: Site, loop: seq<int>)
    ensures ArcsFrom(Start(site),
                     (if site.kind.Generator? then [site.first] else []) + Reach(site.first, site.clause) + loop) ==
      WayIn(site) + ArcsFrom(site.clause, loop)
  {
    var rest := Reach(site.first, site.clause) + loop;
    assert ArcsFrom(site.first, rest) ==
      (if site.first != site.clause then {(site.first, site.clause)} else {}) + ArcsFrom(site.clause, loop) by {
      assert site.first != site.clause ==> rest[1..] == loop;
      assert site.first == site.clause ==> rest == loop;
    }
    if site.kind.Generator? {
      var events := [site.first] + Reach(site.first, site.clause) + loop;
      assert events[1..] == rest;
    } else {
      assert [] + Reach(site.first, site.clause) + loop == rest;
    }
  }

  // ---- What the arcs of a whole run show ---------------------------------------------

  predicate EvidentIn(site: Site, inv: Invocation) {
    EntryTouches(site, inv) || Evident(site, site.clause, inv.moves, inv.ending)
  }

  lemma InvocationShows(site: Site, inv: Invocation)
    requires WellPlaced(site) && Decidable(site, []) && ValidInvocation(site, inv)
    ensures var arcs := ArcsOfOne(site, inv);
      && (BackEdge(site, arcs) <==> EvidentIn(site, inv))
      && ((exists arc :: arc in arcs && arc.1 == -site.first) <==> Returns(site, inv.ending))
      && ((-site.first, site.first) in arcs <==> site.kind.Generator?)
  {
    LoopShows(site, site.clause, inv.moves, inv.ending);
    EventsArcs(site, inv);
    EntryShows(site, inv);
    var entry := ArcsFrom(Origin(site, inv), EntryEvents(site, inv));
    var loop := ArcsFrom(site.clause, LoopEvents(site, site.clause, inv.moves, inv.ending));
    ShowsUnion(site, entry, loop, EntryTouches(site, inv), Evident(site, site.clause, inv.moves, inv.ending),
               false, Returns(site, inv.ending));
    WayInShowsNothing(site, entry + loop);
    assert ArcsOfOne(site, inv) == WayIn(site) + (entry + loop);
  }

  lemma WayInShowsNothing(site: Site, arcs: set<Arc>)
    requires WellPlaced(site) && (-site.first, site.first) !in arcs
    ensures BackEdge(site, WayIn(site) + arcs) <==> BackEdge(site, arcs)
    ensures (exists arc :: arc in WayIn(site) + arcs && arc.1 == -site.first) <==>
      exists arc :: arc in arcs && arc.1 == -site.first
    ensures (-site.first, site.first) in WayIn(site) + arcs <==> site.kind.Generator?
  {
    assert forall arc | arc in WayIn(site) :: !Counted(site, arc) && arc.1 != -site.first;
  }

  lemma {:induction false} ArcsOfIsUnion(site: Site, invocations: seq<Invocation>, arc: Arc)
    ensures arc in ArcsOf(site, invocations) <==>
      exists i :: 0 <= i < |invocations| && arc in ArcsOfOne(site, invocations[i])
  {
    if invocations != [] {
      ArcsOfIsUnion(site, invocations[1..], arc);
      assert forall i | 0 <= i < |invocations| - 1 :: invocations[1..][i] == invocations[i + 1];
      if i :| 0 <= i < |invocations| && arc in ArcsOfOne(site, invocations[i]) {
        if i > 0 {
          assert invocations[1..][i - 1] == invocations[i];
        }
      }
    }
  }

  /** The answer `_loop_turned` gives on a site it does not refuse. */
  ghost predicate Answer(site: Site, run: Run) {
    BackEdge(site, Recorded(site, run)) || NeverReturned(site, Recorded(site, run))
  }

  ghost predicate SomeEvident(site: Site, run: Run) {
    exists i :: 0 <= i < |run.invocations| && EvidentIn(site, run.invocations[i])
  }

  /** The site's frame was entered, and no invocation left it on record. */
  ghost predicate NoneReturned(site: Site, run: Run) {
    && site.kind.Generator? && run.invocations != []
    && forall i | 0 <= i < |run.invocations| :: !Returns(site, run.invocations[i].ending)
  }

  /** The answer, in terms of what the invocations did. */
  lemma AnswerMeaning(site: Site, run: Run)
    requires WellPlaced(site) && Decidable(site, []) && ValidRun(site, run)
    ensures BackEdge(site, Recorded(site, run)) <==> SomeEvident(site, run)
    ensures NeverReturned(site, Recorded(site, run)) <==> NoneReturned(site, run)
    ensures Answer(site, run) <==> SomeEvident(site, run) || NoneReturned(site, run)
  {
    var invs, arcs := run.invocations, Recorded(site, run);
    forall i | 0 <= i < |invs|
      ensures var mine := ArcsOfOne(site, invs[i]);
        && (BackEdge(site, mine) <==> EvidentIn(site, invs[i]))
        && ((exists arc :: arc in mine && arc.1 == -site.first) <==> Returns(site, invs[i].ending))
        && ((-site.first, site.first) in mine <==> site.kind.Generator?)
        && mine <= arcs
    {
      InvocationShows(site, invs[i]);
      forall arc | arc in ArcsOfOne(site, invs[i]) ensures arc in arcs {
        ArcsOfIsUnion(site, invs, arc);
      }
    }
    forall arc | arc in arcs && arc !in run.foreign
      ensures exists i :: 0 <= i < |invs| && arc in ArcsOfOne(site, invs[i])
    {
      ArcsOfIsUnion(site, invs, arc);
    }
    if site.kind.Generator? && invs != [] {
      assert (-site.first, site.first) in ArcsOfOne(site, invs[0]);
    }
  }
}
