/** The overnight witness of who keeps the graphics card awake
    (scripts/dgpu-pin-witness.py, the sampling loop of `run`).  One tick a
    second; one line a period.  The loop keeps a handful of running totals; each
    is proved equal to what it is meant to measure, stated over the whole
    history of ticks. */
module Witness {
  import opened Ordering
  import opened Sums

  /** A DRM client: process and client id. */
  datatype Client = Client(pid: int, id: string)

  datatype Usage = Usage(comm: string, ns: int)

  type Sample = map<Client, Usage>

  /** One second: the card's runtime status and, unless it is suspended, the
      clients read.  A suspended card's clients are never read. */
  datatype Tick = Tick(state: string, sample: Sample)

  const SUSPENDED := "suspended"

  predicate Awake(tick: Tick) {
    tick.state != SUSPENDED
  }

  /** One line of the log, `engineNs` before its division into milliseconds. */
  datatype Line = Line(
    status: map<string, int>, seconds: map<string, int>, engineNs: map<string, int>, longestQuiet: nat)

  function Get(m: map<string, int>, key: string): int {
    if key in m then m[key] else 0
  }

  // ---- What one pair of samples shows ----------------------------------------------------------

  predicate Grew(prev: Sample, cur: Sample, key: Client) {
    key in cur && key in prev && cur[key].ns > prev[key].ns
  }

  function GrowthOf(prev: Sample, cur: Sample, comm: string, key: Client): int {
    if Grew(prev, cur, key) && cur[key].comm == comm then cur[key].ns - prev[key].ns else 0
  }

  function Growth(prev: Sample, cur: Sample, comm: string): Client -> int {
    key => GrowthOf(prev, cur, comm, key)
  }

  /** The command names with a client whose counter grew. */
  function BusyIn(prev: Sample, cur: Sample, keys: set<Client>): set<string> {
    set key | key in keys && Grew(prev, cur, key) :: cur[key].comm
  }

  // ---- The batch definitions, over the history of ticks ------------------------------------------

  /** The sample that tick `t` is compared with: the one before it, unless the
      card was suspended then. */
  function PrevAt(all: seq<Tick>, t: nat): Option<Sample>
    requires t <= |all|
  {
    if t > 0 && Awake(all[t - 1]) then Some(all[t - 1].sample) else None
  }

  /** Awake, and so was the second before: there is something to compare. */
  predicate Diffable(all: seq<Tick>, t: nat) {
    t < |all| && Awake(all[t]) && t > 0 && Awake(all[t - 1])
  }

  function BusyAt(all: seq<Tick>, t: nat): set<string> {
    if Diffable(all, t) then BusyIn(all[t - 1].sample, all[t].sample, all[t].sample.Keys) else {}
  }

  predicate QuietAt(all: seq<Tick>, t: nat) {
    Diffable(all, t) && BusyAt(all, t) == {}
  }

  ghost function EngineAt(all: seq<Tick>, t: nat, comm: string): int {
    if Diffable(all, t) then Sum(all[t].sample.Keys, Growth(all[t - 1].sample, all[t].sample, comm)) else 0
  }

  function TicksIn(all: seq<Tick>, from: nat, to: nat, state: string): nat
    requires to <= |all|
  {
    if to <= from then 0 else TicksIn(all, from, to - 1, state) + if all[to - 1].state == state then 1 else 0
  }

  function BusySeconds(all: seq<Tick>, from: nat, to: nat, comm: string): nat {
    if to <= from then 0 else BusySeconds(all, from, to - 1, comm) + if comm in BusyAt(all, to - 1) then 1 else 0
  }

  ghost function EngineTime(all: seq<Tick>, from: nat, to: nat, comm: string): int {
    if to <= from then 0 else EngineTime(all, from, to - 1, comm) + EngineAt(all, to - 1, comm)
  }

  /** How many ticks up to `to` form an unbroken quiet block, `from` at the earliest. */
  function QuietBefore(all: seq<Tick>, from: nat, to: nat): nat {
    if to <= from || !QuietAt(all, to - 1) then 0 else QuietBefore(all, from, to - 1) + 1
  }

  function LongestQuiet(all: seq<Tick>, from: nat, to: nat): nat {
    if to <= from then 0 else Max(LongestQuiet(all, from, to - 1), QuietBefore(all, from, to))
  }

  ghost predicate Describes(line: Line, all: seq<Tick>, from: nat, to: nat)
    requires to <= |all|
  {
    && (forall state :: Get(line.status, state) == TicksIn(all, from, to, state))
    && DescribesClients(line, all, from, to)
  }

  ghost predicate DescribesClients(line: Line, all: seq<Tick>, from: nat, to: nat) {
    && (forall comm :: Get(line.seconds, comm) == BusySeconds(all, from, to, comm))
    && (forall comm :: Get(line.engineNs, comm) == EngineTime(all, from, to, comm))
    && line.longestQuiet == LongestQuiet(all, from, to)
  }

  // ---- The loop ------------------------------------------------------------------------------------

  /** The walk over the current clients: who grew, and by how much, added to
      the engine totals so far. */
  method Compare(prev: Sample, cur: Sample, before: map<string, int>)
    returns (busy: set<string>, engine: map<string, int>)
    ensures busy == BusyIn(prev, cur, cur.Keys)
    ensures forall comm :: Get(engine, comm) == Get(before, comm) + Sum(cur.Keys, Growth(prev, cur, comm))
  {
    busy, engine := {}, before;
    var todo := cur.Keys;
    ghost var done: set<Client> := {};
    while todo != {}
      invariant done !! todo && done + todo == cur.Keys
      invariant busy == BusyIn(prev, cur, done)
      invariant forall comm :: Get(engine, comm) == Get(before, comm) + Sum(done, Growth(prev, cur, comm))
    {
      var key :| key in todo;
      ghost var earlier := engine;
      if key in prev && cur[key].ns > prev[key].ns {
        var comm := cur[key].comm;
        busy := busy + {comm};
        engine := engine[comm := Get(engine, comm) + (cur[key].ns - prev[key].ns)];
      }
      forall comm ensures Get(engine, comm) == Get(before, comm) + Sum(done + {key}, Growth(prev, cur, comm)) {
        SumInsert(done, Growth(prev, cur, comm), key);
        assert Get(engine, comm) == Get(earlier, comm) + GrowthOf(prev, cur, comm, key);
      }
      todo, done := todo - {key}, done + {key};
    }
    assert done == cur.Keys;
  }

  /** `seconds[comm] += 1` for every busy command. */
  method CountBusy(before: map<string, int>, busy: set<string>) returns (seconds: map<string, int>)
    ensures forall comm :: Get(seconds, comm) == Get(before, comm) + if comm in busy then 1 else 0
  {
    seconds := before;
    var todo := busy;
    while todo != {}
      invariant todo <= busy
      invariant forall comm :: Get(seconds, comm) == Get(before, comm) + if comm in busy - todo then 1 else 0
    {
      var comm :| comm in todo;
      seconds := seconds[comm := Get(seconds, comm) + 1];
      todo := todo - {comm};
    }
  }

  /** One awake second. */
  method AwakeTick(ghost all: seq<Tick>, ghost from: nat, ghost t: nat, prev: Option<Sample>, cur: Sample,
                   before: Line, quietBefore: nat) returns (line: Line, quiet: nat)
    requires from <= t < |all| && Awake(all[t]) && all[t].sample == cur && prev == PrevAt(all, t)
    requires Describes(before, all, from, t) && quietBefore == QuietBefore(all, from, t)
    ensures line.status == before.status
    ensures DescribesClients(line, all, from, t + 1)
    ensures quiet == QuietBefore(all, from, t + 1)
  {
    line, quiet := before, quietBefore;
    if prev.Some? {
      var busy, engine := Compare(prev.value, cur, before.engineNs);
      assert busy == BusyAt(all, t);
      var seconds := CountBusy(before.seconds, busy);
      quiet := if busy != {} then 0 else quiet + 1;
      line := Line(before.status, seconds, engine, Max(before.longestQuiet, quiet));
      EngineNext(all, from, t, before.engineNs, engine);
      SecondsNext(all, from, t, before.seconds, seconds);
    } else {
      NothingComparable(all, from, t);
    }
  }

  lemma EngineNext(all: seq<Tick>, from: nat, t: nat, before: map<string, int>, after: map<string, int>)
    requires from <= t && Diffable(all, t)
    requires forall comm :: Get(before, comm) == EngineTime(all, from, t, comm)
    requires forall comm ::
      Get(after, comm) == Get(before, comm) + Sum(all[t].sample.Keys, Growth(all[t - 1].sample, all[t].sample, comm))
    ensures forall comm :: Get(after, comm) == EngineTime(all, from, t + 1, comm)
  {
  }

  lemma SecondsNext(all: seq<Tick>, from: nat, t: nat, before: map<string, int>, after: map<string, int>)
    requires from <= t
    requires forall comm :: Get(before, comm) == BusySeconds(all, from, t, comm)
    requires forall comm :: Get(after, comm) == Get(before, comm) + if comm in BusyAt(all, t) then 1 else 0
    ensures forall comm :: Get(after, comm) == BusySeconds(all, from, t + 1, comm)
  {
  }

  /** A second with nothing to compare it with adds nothing, and follows no quiet. */
  lemma NothingComparable(all: seq<Tick>, from: nat, t: nat)
    requires from <= t < |all| && !Diffable(all, t) && Awake(all[t])
    ensures forall comm :: BusySeconds(all, from, t + 1, comm) == BusySeconds(all, from, t, comm)
    ensures forall comm :: EngineTime(all, from, t + 1, comm) == EngineTime(all, from, t, comm)
    ensures QuietBefore(all, from, t) == 0 == QuietBefore(all, from, t + 1)
    ensures LongestQuiet(all, from, t + 1) == LongestQuiet(all, from, t)
  {
  }

  /** A suspended second adds to its status count and to nothing else. */
  lemma SuspendedTick(line: Line, all: seq<Tick>, from: nat, t: nat)
    requires from <= t < |all| && !Awake(all[t]) && Describes(line, all, from, t)
    ensures DescribesClients(line, all, from, t + 1)
    ensures QuietBefore(all, from, t + 1) == 0
  {
  }

  lemma StatusOneMore(before: map<string, int>, after: map<string, int>, all: seq<Tick>, from: nat, t: nat)
    requires from <= t < |all| && after == before[all[t].state := Get(before, all[t].state) + 1]
    requires forall state :: Get(before, state) == TicksIn(all, from, t, state)
    ensures forall state :: Get(after, state) == TicksIn(all, from, t + 1, state)
  {
  }

  /** One second, awake or not. */
  method OneTick(ghost all: seq<Tick>, ghost from: nat, ghost t: nat, tick: Tick,
                 before: Line, prevBefore: Option<Sample>, quietBefore: nat)
    returns (line: Line, prev: Option<Sample>, quiet: nat)
    requires from <= t < |all| && all[t] == tick && prevBefore == PrevAt(all, t)
    requires Describes(before, all, from, t) && quietBefore == QuietBefore(all, from, t)
    ensures Describes(line, all, from, t + 1)
    ensures quiet == QuietBefore(all, from, t + 1) && prev == PrevAt(all, t + 1)
  {
    var status := before.status[tick.state := Get(before.status, tick.state) + 1];
    StatusOneMore(before.status, status, all, from, t);
    if tick.state == SUSPENDED {
      SuspendedTick(before, all, from, t);
      line, prev, quiet := before, None, 0;
    } else {
      line, quiet := AwakeTick(all, from, t, prevBefore, tick.sample, before, quietBefore);
      prev := Some(tick.sample);
    }
    line := line.(status := status);
  }

  /** One period's line.  `prev` comes from the tick before the period, and is
      handed on to the next. */
  method Period(ghost history: seq<Tick>, before: Option<Sample>, ticks: seq<Tick>)
    returns (line: Line, prev: Option<Sample>)
    requires before == PrevAt(history, |history|)
    ensures Reports(line, history, ticks)
    ensures prev == PrevAt(history + ticks, |history + ticks|)
  {
    ghost var all, from := history + ticks, |history|;
    line, prev := Line(map[], map[], map[], 0), before;
    var quiet := 0;
    for i := 0 to |ticks|
      invariant Describes(line, all, from, from + i) && quiet == QuietBefore(all, from, from + i)
      invariant prev == PrevAt(all, from + i)
    {
      line, prev, quiet := OneTick(all, from, from + i, ticks[i], line, prev, quiet);
    }
  }

  /** The line describes the ticks that followed the history. */
  ghost predicate Reports(line: Line, history: seq<Tick>, ticks: seq<Tick>) {
    Describes(line, history + ticks, |history|, |history| + |ticks|)
  }

  function Concat(periods: seq<seq<Tick>>): seq<Tick> {
    if periods == [] then [] else Concat(periods[..|periods| - 1]) + periods[|periods| - 1]
  }

  ghost predicate ReportsPeriod(lines: seq<Line>, periods: seq<seq<Tick>>, k: nat) {
    k < |lines| && k < |periods| && Reports(lines[k], Concat(periods[..k]), periods[k])
  }

  /** The whole night: every line describes its own period of the one history,
      the first comparison of a period reaching back into the period before. */
  method Run(periods: seq<seq<Tick>>) returns (lines: seq<Line>)
    ensures |lines| == |periods|
    ensures forall k: nat | k < |periods| :: ReportsPeriod(lines, periods, k)
  {
    lines := [];
    var prev: Option<Sample> := None;
    ghost var history: seq<Tick> := [];
    for k := 0 to |periods|
      invariant |lines| == k && history == Concat(periods[..k]) && prev == PrevAt(history, |history|)
      invariant forall j: nat | j < k :: ReportsPeriod(lines, periods, j)
    {
      var line, next := Period(history, prev, periods[k]);
      assert periods[..k + 1][..k] == periods[..k];
      ghost var earlier := lines;
      lines, prev, history := lines + [line], next, history + periods[k];
      forall j: nat | j < k ensures ReportsPeriod(lines, periods, j) {
        assert ReportsPeriod(earlier, periods, j) && lines[j] == earlier[j];
      }
    }
  }

  // ---- What the line's figures mean -----------------------------------------------------------------

  /** `from <= a <= b <= to` and every tick of `a..b` is quiet. */
  ghost predicate QuietBlock(all: seq<Tick>, from: nat, to: nat, a: nat, b: nat) {
    from <= a <= b <= to && forall t | a <= t < b :: QuietAt(all, t)
  }

  lemma {:induction false} QuietBeforeIsTrailing(all: seq<Tick>, from: nat, to: nat)
    requires from <= to
    ensures var q := QuietBefore(all, from, to); q <= to - from && QuietBlock(all, from, to, to - q, to)
    ensures forall a: nat | QuietBlock(all, from, to, a, to) :: to - a <= QuietBefore(all, from, to)
  {
    if from < to && QuietAt(all, to - 1) {
      QuietBeforeIsTrailing(all, from, to - 1);
      forall a: nat | QuietBlock(all, from, to, a, to) ensures to - a <= QuietBefore(all, from, to) {
        assert a < to ==> QuietBlock(all, from, to - 1, a, to - 1);
      }
    } else if from < to {
      assert forall a: nat | QuietBlock(all, from, to, a, to) && a < to :: QuietAt(all, to - 1);
    }
  }

  /** `longest_quiet` is the length of the longest block of consecutive ticks,
      inside the period, that are awake, comparable and without growth: some
      block has that length, and none is longer. */
  lemma {:induction false} LongestQuietIsLongest(all: seq<Tick>, from: nat, to: nat)
    requires from <= to
    ensures exists a: nat, b: nat :: QuietBlock(all, from, to, a, b) && b - a == LongestQuiet(all, from, to)
    ensures forall a: nat, b: nat | QuietBlock(all, from, to, a, b) :: b - a <= LongestQuiet(all, from, to)
  {
    if from == to {
      assert QuietBlock(all, from, to, from, to);
    } else {
      LongestQuietIsLongest(all, from, to - 1);
      QuietBeforeIsTrailing(all, from, to);
      var q := QuietBefore(all, from, to);
      var a: nat, b: nat :| QuietBlock(all, from, to - 1, a, b) && b - a == LongestQuiet(all, from, to - 1);
      assert QuietBlock(all, from, to, a, b) && QuietBlock(all, from, to, to - q, to);
      forall a: nat, b: nat | QuietBlock(all, from, to, a, b) ensures b - a <= LongestQuiet(all, from, to) {
        assert b < to ==> QuietBlock(all, from, to - 1, a, b);
      }
    }
  }

  /** The awake seconds that have something to be compared with. */
  function DiffableIn(all: seq<Tick>, from: nat, to: nat): nat {
    if to <= from then 0 else DiffableIn(all, from, to - 1) + if Diffable(all, to - 1) then 1 else 0
  }

  /** No command is busy for longer than the card was awake and comparable; and
      quiet time and busy time do not overlap. */
  lemma {:induction false} BusyWithinAwake(all: seq<Tick>, from: nat, to: nat, comm: string)
    requires from <= to <= |all|
    ensures BusySeconds(all, from, to, comm) + LongestQuiet(all, from, to) <= DiffableIn(all, from, to)
    ensures DiffableIn(all, from, to) + TicksIn(all, from, to, SUSPENDED) <= to - from
    ensures BusySeconds(all, from, to, comm) + QuietBefore(all, from, to) <= DiffableIn(all, from, to)
  {
    if from < to {
      BusyWithinAwake(all, from, to - 1, comm);
    }
  }

  /** The states' counts add up to the period. */
  lemma {:induction false} StatusSumsToPeriod(all: seq<Tick>, from: nat, to: nat, states: set<string>)
    requires from <= to <= |all|
    requires forall t | from <= t < to :: all[t].state in states
    ensures Sum(states, StatusCount(all, from, to)) == to - from
  {
    if from == to {
      SumZero(states, StatusCount(all, from, to));
    } else {
      StatusSumsToPeriod(all, from, to - 1, states);
      var state := all[to - 1].state;
      SumBumped(states, StatusCount(all, from, to - 1), StatusCount(all, from, to), state);
    }
  }

  function StatusCount(all: seq<Tick>, from: nat, to: nat): string -> int
    requires to <= |all|
  {
    state => TicksIn(all, from, to, state)
  }

  lemma {:induction false} SeenIsCounted(all: seq<Tick>, from: nat, to: nat, t: nat)
    requires from <= t < to <= |all|
    ensures TicksIn(all, from, to, all[t].state) > 0
  {
    if t < to - 1 {
      SeenIsCounted(all, from, to - 1, t);
    }
  }

  /** So the counts a line prints add up to its period: no second is lost and
      none is counted twice. */
  lemma LineStatusSums(line: Line, all: seq<Tick>, from: nat, to: nat)
    requires from <= to <= |all| && Describes(line, all, from, to)
    ensures Sum(line.status.Keys, Printed(line.status)) == to - from
  {
    forall t | from <= t < to ensures all[t].state in line.status {
      SeenIsCounted(all, from, to, t);
      assert Get(line.status, all[t].state) == TicksIn(all, from, to, all[t].state);
    }
    StatusSumsToPeriod(all, from, to, line.status.Keys);
    SumAtLeast(line.status.Keys, Printed(line.status), StatusCount(all, from, to));
  }

  function Printed(status: map<string, int>): string -> int {
    state => Get(status, state)
  }

  // ---- Busy is engine time, quiet is none -------------------------------------------------------------

  function Nothing(): Client -> int {
    key => 0
  }

  /** A command is busy in a second exactly when its clients used the engines in
      it. */
  lemma BusyExactlyWhenEngineRan(all: seq<Tick>, t: nat, comm: string)
    ensures EngineAt(all, t, comm) >= 0
    ensures comm in BusyAt(all, t) <==> EngineAt(all, t, comm) > 0
  {
    if Diffable(all, t) {
      var keys, f := all[t].sample.Keys, Growth(all[t - 1].sample, all[t].sample, comm);
      SumAtLeast(keys, f, Nothing());
      SumZero(keys, Nothing());
      if comm in BusyAt(all, t) {
        var key :| key in keys && Grew(all[t - 1].sample, all[t].sample, key) && all[t].sample[key].comm == comm;
        assert f(key) > 0;
      }
      if key :| key in keys && f(key) != 0 {
        assert comm in BusyAt(all, t);
      }
    }
  }

  /** A second is quiet exactly when there is something to compare and no command
      used the engines. */
  lemma QuietExactlyWhenNoEngineRan(all: seq<Tick>, t: nat)
    ensures QuietAt(all, t) <==> Diffable(all, t) && forall comm :: EngineAt(all, t, comm) == 0
  {
    forall comm ensures EngineAt(all, t, comm) >= 0 && (comm in BusyAt(all, t) <==> EngineAt(all, t, comm) > 0) {
      BusyExactlyWhenEngineRan(all, t, comm);
    }
  }

  ghost predicate EngineRan(all: seq<Tick>, t: nat, comm: string) {
    EngineAt(all, t, comm) > 0
  }

  function IsBusy(all: seq<Tick>, comm: string): nat -> bool {
    (t: nat) => comm in BusyAt(all, t)
  }

  function IsIn(all: seq<Tick>, state: string): nat -> bool {
    (t: nat) => t < |all| && all[t].state == state
  }

  lemma {:induction false} BusySecondsAreCounted(all: seq<Tick>, from: nat, to: nat, comm: string)
    ensures BusySeconds(all, from, to, comm) == CountIn(from, to, IsBusy(all, comm))
  {
    if from < to {
      BusySecondsAreCounted(all, from, to - 1, comm);
    }
  }

  lemma {:induction false} TicksAreCounted(all: seq<Tick>, from: nat, to: nat, state: string)
    requires to <= |all|
    ensures TicksIn(all, from, to, state) == CountIn(from, to, IsIn(all, state))
  {
    if from < to {
      TicksAreCounted(all, from, to - 1, state);
    }
  }

  /** Busy seconds are the number of ticks in which the command used the engines. */
  lemma BusySecondsCount(all: seq<Tick>, from: nat, to: nat, comm: string) returns (busy: set<nat>)
    ensures |busy| == BusySeconds(all, from, to, comm)
    ensures forall t: nat :: t in busy <==> from <= t < to && EngineRan(all, t, comm)
  {
    BusySecondsAreCounted(all, from, to, comm);
    busy := CountIsSize(from, to, IsBusy(all, comm));
    forall t: nat ensures IsBusy(all, comm)(t) <==> EngineRan(all, t, comm) {
      BusyExactlyWhenEngineRan(all, t, comm);
    }
  }

  /** And a state's count is the number of ticks in that state. */
  lemma StatusCounts(all: seq<Tick>, from: nat, to: nat, state: string) returns (ticks: set<nat>)
    requires to <= |all|
    ensures |ticks| == TicksIn(all, from, to, state)
    ensures forall t: nat :: t in ticks <==> from <= t < to && all[t].state == state
  {
    TicksAreCounted(all, from, to, state);
    ticks := CountIsSize(from, to, IsIn(all, state));
    assert forall t: nat | from <= t < to :: IsIn(all, state)(t) <==> all[t].state == state;
  }

  // ---- Engine time telescopes --------------------------------------------------------------------------

  /** The clients running under a command name. */
  function Holders(sample: Sample, comm: string): set<Client> {
    set key | key in sample && sample[key].comm == comm
  }

  function Counter(sample: Sample): Client -> int {
    key => if key in sample then sample[key].ns else 0
  }

  /** The card is awake from tick `a` to tick `b`, both included, and `comm` is
      the name of the same clients throughout. */
  ghost predicate Stretch(all: seq<Tick>, a: nat, b: nat, comm: string, keys: set<Client>) {
    a <= b < |all| && forall t | a <= t <= b :: Awake(all[t]) && Holders(all[t].sample, comm) == keys
  }

  ghost predicate NeverFalls(all: seq<Tick>, a: nat, b: nat, keys: set<Client>) {
    forall t: nat | a < t <= b :: NoneFellAt(all, t, keys)
  }

  ghost predicate NoneFellAt(all: seq<Tick>, t: nat, keys: set<Client>) {
    0 < t < |all| && NoneFell(all[t - 1].sample, all[t].sample, keys)
  }

  ghost predicate NoneFell(prev: Sample, cur: Sample, keys: set<Client>) {
    forall key | key in keys :: Counter(prev)(key) <= Counter(cur)(key)
  }

  /** One comparison: what is added is at least the difference of the clients'
      counters, and exactly that when none of them fell. */
  lemma ComparisonDiffers(prev: Sample, cur: Sample, comm: string, keys: set<Client>)
    requires Holders(prev, comm) == keys == Holders(cur, comm)
    ensures Tells(Sum(cur.Keys, Growth(prev, cur, comm)),
                  Sum(keys, Counter(cur)) - Sum(keys, Counter(prev)),
                  NoneFell(prev, cur, keys))
  {
    var f, g := Growth(prev, cur, comm), Difference(prev, cur);
    SumSupport(cur.Keys, keys, f);
    SumDifference(keys, Counter(cur), Counter(prev), g);
    forall key | key in keys
      ensures f(key) >= g(key) && (f(key) == g(key) <==> Counter(prev)(key) <= Counter(cur)(key))
    {
      assert key in Holders(prev, comm) && key in Holders(cur, comm);
    }
    SumAtLeast(keys, f, g);
  }

  function Difference(prev: Sample, cur: Sample): Client -> int {
    key => Counter(cur)(key) - Counter(prev)(key)
  }

  /** Over an awake stretch with the same clients throughout, a command's engine
      time is the clients' last counters less their first, exactly when no
      counter ever fell; otherwise it is more. */
  lemma EngineTimeTelescopes(all: seq<Tick>, a: nat, b: nat, comm: string, keys: set<Client>)
    requires Stretch(all, a, b, comm, keys)
    ensures Tells(EngineTime(all, a + 1, b + 1, comm), Advance(all, a, b, keys), NeverFalls(all, a, b, keys))
  {
    var levels := seq(|all|, t requires 0 <= t < |all| => Sum(keys, Counter(all[t].sample)));
    forall t: nat | a < t <= b ensures StepTells(all, t, comm, keys, levels) {
      EngineAtDiffers(all, t, comm, keys);
    }
    StepsTelescope(all, a, b, comm, keys, levels);
  }

  ghost predicate StepTells(all: seq<Tick>, t: nat, comm: string, keys: set<Client>, levels: seq<int>) {
    0 < t < |levels| && Tells(EngineAt(all, t, comm), levels[t] - levels[t - 1], NoneFellAt(all, t, keys))
  }

  lemma {:induction false} StepsTelescope(all: seq<Tick>, a: nat, b: nat, comm: string, keys: set<Client>,
                                          levels: seq<int>)
    requires a <= b < |all| == |levels|
    requires forall t: nat | a < t <= b :: StepTells(all, t, comm, keys, levels)
    ensures Tells(EngineTime(all, a + 1, b + 1, comm), levels[b] - levels[a], NeverFalls(all, a, b, keys))
    decreases b
  {
    if a < b {
      var earlier, rose := EngineTime(all, a + 1, b, comm), NeverFalls(all, a, b - 1, keys);
      assert Tells(earlier, levels[b - 1] - levels[a], rose) by {
        StepsTelescope(all, a, b - 1, comm, keys, levels);
      }
      assert StepTells(all, b, comm, keys, levels);
      NeverFallsOneMore(all, a, b, keys);
    }
  }

  /** Never less than the counters' advance, and equal to it exactly when none fell. */
  predicate Tells(engine: int, advance: int, noneFell: bool) {
    engine >= advance && (engine == advance <==> noneFell)
  }

  lemma EngineAtDiffers(all: seq<Tick>, t: nat, comm: string, keys: set<Client>)
    requires 0 < t < |all| && Stretch(all, t - 1, t, comm, keys)
    ensures Tells(EngineAt(all, t, comm), Advance(all, t - 1, t, keys), NoneFellAt(all, t, keys))
  {
    ComparisonDiffers(all[t - 1].sample, all[t].sample, comm, keys);
  }

  /** The clients' counters at `b` less their counters at `a`. */
  ghost function Advance(all: seq<Tick>, a: nat, b: nat, keys: set<Client>): int
    requires a <= b < |all|
  {
    Sum(keys, Counter(all[b].sample)) - Sum(keys, Counter(all[a].sample))
  }

  lemma NeverFallsOneMore(all: seq<Tick>, a: nat, b: nat, keys: set<Client>)
    requires a < b < |all|
    ensures NeverFalls(all, a, b, keys) <==> NeverFalls(all, a, b - 1, keys) && NoneFellAt(all, b, keys)
  {
  }

  /** A command with one client: its engine time is the client's last counter
      less its first. */
  lemma OneClientTelescopes(all: seq<Tick>, a: nat, b: nat, comm: string, key: Client)
    requires Stretch(all, a, b, comm, {key}) && NeverFalls(all, a, b, {key})
    ensures key in all[a].sample && key in all[b].sample
    ensures EngineTime(all, a + 1, b + 1, comm) == all[b].sample[key].ns - all[a].sample[key].ns
  {
    EngineTimeTelescopes(all, a, b, comm, {key});
    SumOne(key, Counter(all[a].sample));
    SumOne(key, Counter(all[b].sample));
    assert key in Holders(all[a].sample, comm) && key in Holders(all[b].sample, comm);
  }
}
