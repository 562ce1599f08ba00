/** The tray's record of whether the backend answers (sysadmin_tray/client.py,
    `ApiWorker._on_connected`, `_on_disconnected` and the tick of
    `fetch_status`).  A worker makes a sequence of observations; it speaks only
    when the answer changes, and it times every failing episode from its first
    failure. */
module Tray {
  import opened Ordering

  /** One finished request.  A failure reads the monotonic clock when the episode
      opens and again for the age; on a later failure of the episode the first
      reading is not used.  Only the status poll `ticks`. */
  datatype Observation = Reached | Failed(openedAt: real, agedAt: real, ticks: bool)

  datatype Signal = Restored | Lost | Unreachable(age: real)

  datatype Tracker = Tracker(wasConnected: Option<bool>, unreachableSince: Option<real>)

  const UNSEEN := Tracker(None, None)

  /** The clock never runs backwards, within a failure or between two. */
  ghost predicate ClockRuns(obs: seq<Observation>) {
    && (forall i | 0 <= i < |obs| && obs[i].Failed? :: obs[i].openedAt <= obs[i].agedAt)
    && (forall i, j | 0 <= i < j < |obs| && obs[i].Failed? && obs[j].Failed? :: obs[i].agedAt <= obs[j].openedAt)
  }

  // ---- The machine as the code steps it ------------------------------------------------------

  function Since(t: Tracker, o: Observation): real
    requires o.Failed?
  {
    if t.unreachableSince.None? then o.openedAt else t.unreachableSince.value
  }

  function Step(t: Tracker, o: Observation): Tracker {
    if o.Reached? then Tracker(Some(true), None) else Tracker(Some(false), Some(Since(t, o)))
  }

  /** What one observation emits, in order. */
  function Emitted(t: Tracker, o: Observation): seq<Signal> {
    if o.Reached? then
      if t.wasConnected != Some(true) then [Restored] else []
    else
      var tick := if o.ticks then [Unreachable(o.agedAt - Since(t, o))] else [];
      if t.wasConnected != Some(false) then [Lost] + tick else tick
  }

  function After(obs: seq<Observation>): Tracker {
    if obs == [] then UNSEEN else Step(After(obs[..|obs| - 1]), obs[|obs| - 1])
  }

  /** Everything a run of observations emits. */
  function Heard(obs: seq<Observation>): seq<Signal> {
    if obs == [] then []
    else Heard(obs[..|obs| - 1]) + Emitted(After(obs[..|obs| - 1]), obs[|obs| - 1])
  }

  /** The worker, its mutex making each call one step.  `emitted` is what the
      connected slots have received. */
  class Worker {
    var wasConnected: Option<bool>
    var unreachableSince: Option<real>
    var emitted: seq<Signal>
    ghost var seen: seq<Observation>

    ghost predicate Valid()
      reads this
    {
      Tracker(wasConnected, unreachableSince) == After(seen) && emitted == Heard(seen)
    }

    constructor ()
      ensures Valid() && seen == []
    {
      wasConnected, unreachableSince, emitted, seen := None, None, [], [];
    }

    method OnConnected()
      requires Valid()
      modifies this
      ensures Valid() && seen == old(seen) + [Reached]
    {
      unreachableSince := None;
      if wasConnected != Some(true) {
        wasConnected := Some(true);
        emitted := emitted + [Restored];
      }
      seen := seen + [Reached];
      assert seen[..|seen| - 1] == old(seen);
    }

    /** A failed request; the status poll passes the age on as its tick. */
    method OnDisconnected(openedAt: real, agedAt: real, ticks: bool) returns (age: real)
      requires Valid()
      modifies this
      ensures Valid() && seen == old(seen) + [Failed(openedAt, agedAt, ticks)]
      ensures unreachableSince.Some? && age == agedAt - unreachableSince.value
    {
      ghost var o := Failed(openedAt, agedAt, ticks);
      if unreachableSince.None? {
        unreachableSince := Some(openedAt);
      }
      age := agedAt - unreachableSince.value;
      if wasConnected != Some(false) {
        wasConnected := Some(false);
        emitted := emitted + [Lost];
      }
      if ticks {
        emitted := emitted + [Unreachable(age)];
      }
      seen := seen + [o];
      assert seen[..|seen| - 1] == old(seen);
    }
  }

  // ---- The state, read off the observations ----------------------------------------------------

  /** The first failure of the unbroken failing episode that observation `k`
      belongs to. */
  function Opening(obs: seq<Observation>, k: nat): (start: nat)
    requires k < |obs| && obs[k].Failed?
    ensures start <= k && (start == 0 || obs[start - 1].Reached?)
    ensures forall i | start <= i <= k :: obs[i].Failed?
    decreases k
  {
    if k > 0 && obs[k - 1].Failed? then Opening(obs, k - 1) else k
  }

  /** The two fields are a function of the observations alone: whether the last
      one reached, and when its episode opened.  So the episode clock is set
      exactly while the last observation is a failure. */
  lemma {:induction false} StateIsTheLastObservation(obs: seq<Observation>)
    ensures After(obs).wasConnected == if obs == [] then None else Some(obs[|obs| - 1].Reached?)
    ensures After(obs).unreachableSince.Some? <==> After(obs).wasConnected == Some(false)
    ensures obs != [] && obs[|obs| - 1].Failed? ==>
      After(obs).unreachableSince == Some(obs[Opening(obs, |obs| - 1)].openedAt)
  {
    if obs != [] {
      var front := obs[..|obs| - 1];
      StateIsTheLastObservation(front);
      if |obs| > 1 && obs[|obs| - 1].Failed? && obs[|obs| - 2].Failed? {
        OpeningOfPrefix(obs, |obs| - 2, |obs| - 1);
      }
    }
  }

  lemma {:induction false} OpeningOfPrefix(obs: seq<Observation>, k: nat, n: nat)
    requires k < n <= |obs| && obs[k].Failed?
    ensures Opening(obs[..n], k) == Opening(obs, k)
    decreases k
  {
    if k > 0 && obs[k - 1].Failed? {
      OpeningOfPrefix(obs, k - 1, n);
    }
  }

  // ---- Lost and restored -------------------------------------------------------------------------

  /** Observation `k` is news: it is the first, or differs from the one before. */
  predicate IsNews(obs: seq<Observation>, k: nat)
    requires k < |obs|
  {
    k == 0 || obs[k].Reached? != obs[k - 1].Reached?
  }

  function NewsSignal(o: Observation): Signal {
    if o.Reached? then Restored else Lost
  }

  /** The signals that speak about the connection. */
  function Spoken(signals: seq<Signal>): seq<Signal> {
    if signals == [] then []
    else if signals[|signals| - 1].Unreachable? then Spoken(signals[..|signals| - 1])
    else Spoken(signals[..|signals| - 1]) + [signals[|signals| - 1]]
  }

  /** The news of the observations, with no reference to any state. */
  function News(obs: seq<Observation>): seq<Signal> {
    if obs == [] then []
    else if IsNews(obs, |obs| - 1) then News(obs[..|obs| - 1]) + [NewsSignal(obs[|obs| - 1])]
    else News(obs[..|obs| - 1])
  }

  lemma {:induction false} SpokenAppend(a: seq<Signal>, b: seq<Signal>)
    ensures Spoken(a + b) == Spoken(a) + Spoken(b)
  {
    if b == [] {
      assert a + b == a;
    } else {
      assert (a + b)[..|a + b| - 1] == a + b[..|b| - 1];
      SpokenAppend(a, b[..|b| - 1]);
    }
  }

  lemma SpokenOne(signal: Signal)
    ensures Spoken([signal]) == if signal.Unreachable? then [] else [signal]
  {
    assert [signal][..0] == [];
  }

  /** The step at observation `k` speaks exactly when it is news, and says which
      way; the first observation always speaks. */
  lemma StepSpeaksNews(obs: seq<Observation>, k: nat)
    requires k < |obs|
    ensures Spoken(Emitted(After(obs[..k]), obs[k])) == if IsNews(obs, k) then [NewsSignal(obs[k])] else []
  {
    StateIsTheLastObservation(obs[..k]);
    SpokenOne(NewsSignal(obs[k]));
    if obs[k].Failed? {
      var tick := Unreachable(obs[k].agedAt - Since(After(obs[..k]), obs[k]));
      SpokenOne(tick);
      SpokenAppend([Lost], [tick]);
    }
  }

  /** Over a whole run, what is spoken is the news: one `Lost` for every maximal
      run of failures, one `Restored` for every maximal run of successes. */
  lemma {:induction false} SpokenIsNews(obs: seq<Observation>)
    ensures Spoken(Heard(obs)) == News(obs)
  {
    if obs != [] {
      var front := obs[..|obs| - 1];
      SpokenIsNews(front);
      SpokenAppend(Heard(front), Emitted(After(front), obs[|obs| - 1]));
      StepSpeaksNews(obs, |obs| - 1);
    }
  }

  lemma {:induction false} NewsAlternates(obs: seq<Observation>)
    ensures forall i | 0 < i < |News(obs)| :: News(obs)[i] != News(obs)[i - 1]
    ensures obs != [] ==> |News(obs)| > 0 && News(obs)[0] == NewsSignal(obs[0])
    ensures obs != [] ==> News(obs)[|News(obs)| - 1] == NewsSignal(obs[|obs| - 1])
  {
    if obs != [] {
      NewsAlternates(obs[..|obs| - 1]);
    }
  }

  /** Lost and restored strictly alternate, on every run; the first observation
      always speaks, and the last word is about the last observation. */
  lemma SignalsAlternate(obs: seq<Observation>)
    ensures var spoken := Spoken(Heard(obs)); forall i | 0 < i < |spoken| :: spoken[i] != spoken[i - 1]
    ensures obs != [] ==>
      var spoken := Spoken(Heard(obs));
      && |spoken| > 0 && spoken[0] == NewsSignal(obs[0])
      && spoken[|spoken| - 1] == NewsSignal(obs[|obs| - 1])
  {
    SpokenIsNews(obs);
    NewsAlternates(obs);
  }

  /** Observation `k` is the first failure of a maximal failing episode. */
  predicate Opens(obs: seq<Observation>, k: nat) {
    k < |obs| && obs[k].Failed? && Opening(obs, k) == k
  }

  /** The number of maximal failing episodes. */
  function Episodes(obs: seq<Observation>): nat {
    |set k: nat | k < |obs| && Opens(obs, k)|
  }

  function CountLost(signals: seq<Signal>): nat {
    if signals == [] then 0 else CountLost(signals[..|signals| - 1]) + if signals[|signals| - 1] == Lost then 1 else 0
  }

  lemma {:induction false} OneLostInTheNews(obs: seq<Observation>)
    ensures CountLost(News(obs)) == Episodes(obs)
  {
    if obs != [] {
      var n := |obs| - 1;
      var front := obs[..n];
      OneLostInTheNews(front);
      EpisodesOneMore(obs);
      OpensIsNews(obs, n);
      if IsNews(obs, n) {
        assert News(obs)[..|News(front)|] == News(front);
      }
    }
  }

  lemma {:induction false} LostIsSpoken(signals: seq<Signal>)
    ensures CountLost(Spoken(signals)) == CountLost(signals)
  {
    if signals != [] {
      var front, last := signals[..|signals| - 1], signals[|signals| - 1];
      LostIsSpoken(front);
      if !last.Unreachable? {
        assert Spoken(signals)[..|Spoken(front)|] == Spoken(front);
      }
    }
  }

  /** Exactly one `Lost` is emitted per maximal failing episode. */
  lemma OneLostPerEpisode(obs: seq<Observation>)
    ensures CountLost(Heard(obs)) == Episodes(obs)
  {
    LostIsSpoken(Heard(obs));
    SpokenIsNews(obs);
    OneLostInTheNews(obs);
  }

  lemma OpensIsNews(obs: seq<Observation>, k: nat)
    requires k < |obs|
    ensures Opens(obs, k) <==> obs[k].Failed? && IsNews(obs, k)
  {
  }

  lemma EpisodesOneMore(obs: seq<Observation>)
    requires obs != []
    ensures Episodes(obs) == Episodes(obs[..|obs| - 1]) + if Opens(obs, |obs| - 1) then 1 else 0
  {
    var n := |obs| - 1;
    var front := obs[..n];
    var before := set k: nat | k < |front| && Opens(front, k);
    var now := set k: nat | k < |obs| && Opens(obs, k);
    forall k: nat | k < n ensures Opens(front, k) <==> Opens(obs, k) {
      OpensIsNews(front, k);
      OpensIsNews(obs, k);
    }
    if Opens(obs, n) {
      assert now == before + {n};
    } else {
      assert now == before;
    }
  }

  // ---- Ages ------------------------------------------------------------------------------------------

  /** The age a failure reports. */
  function AgeAt(obs: seq<Observation>, k: nat): real
    requires k < |obs| && obs[k].Failed?
  {
    obs[k].agedAt - Since(After(obs[..k]), obs[k])
  }

  /** Every age is measured from the first failure of its own episode, and the
      age is what a status poll's tick, and no other request, carries. */
  lemma AgesMeasureTheEpisode(obs: seq<Observation>, k: nat)
    requires k < |obs| && obs[k].Failed?
    ensures AgeAt(obs, k) == obs[k].agedAt - obs[Opening(obs, k)].openedAt
    ensures forall age :: Unreachable(age) in Emitted(After(obs[..k]), obs[k]) <==> obs[k].ticks && age == AgeAt(obs, k)
  {
    StateIsTheLastObservation(obs[..k]);
    if k > 0 && obs[k - 1].Failed? {
      OpeningOfPrefix(obs, k - 1, k);
    }
  }

  /** No age is negative, and within an episode none shrinks. */
  lemma AgesGrow(obs: seq<Observation>, j: nat, k: nat)
    requires k < |obs| && obs[k].Failed? && Opening(obs, k) <= j <= k
    requires ClockRuns(obs)
    ensures 0.0 <= AgeAt(obs, j) <= AgeAt(obs, k)
  {
    AgesMeasureTheEpisode(obs, j);
    AgesMeasureTheEpisode(obs, k);
    SameOpening(obs, j, k);
    var start := obs[Opening(obs, k)];
    assert start.Failed? && start.openedAt <= start.agedAt;
  }

  lemma {:induction false} SameOpening(obs: seq<Observation>, j: nat, k: nat)
    requires k < |obs| && obs[k].Failed? && Opening(obs, k) <= j <= k
    ensures Opening(obs, j) == Opening(obs, k)
    decreases k
  {
    if j < k {
      SameOpening(obs, j, k - 1);
    }
  }
}
