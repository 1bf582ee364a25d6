/** `core/syncx/singleflight.go` as a state machine over every interleaving of callers.

    `calls` is only touched under the group's lock, so each critical section is one step. A
    function may return anything at any time; it does not panic. */
module SingleFlights {
  import opened Options

  type Key = int

  /** What a function returns: a value and an error, either of which may be nil. */
  datatype Outcome = Outcome(val: Option<int>, err: Option<int>)

  /** A `call` record: its result, and whether its wait group has been released. */
  datatype Flight = Flight(key: Key, owner: nat, result: Option<Outcome>, done: bool)

  datatype Pc =
    | Arrive(key: Key)                                        // before the lock in createCall
    | Wait(key: Key, id: nat)                                 // in c.wg.Wait
    | Fly(key: Key, id: nat)                                  // running fn
    | Land(key: Key, id: nat)                                 // before the entry is deleted
    | Signal(key: Key, id: nat)                               // before c.wg.Done
    | Return(key: Key, id: nat, isFresh: bool, out: Outcome)

  datatype State = State(calls: map<Key, nat>, flights: seq<Flight>, threads: seq<Pc>)

  datatype Step =
    | Call(key: Key)
    | Run(thread: nat, out: Outcome)      // `out` is what fn returns, where it does

  function Init(): (s: State) {
    State(map[], [], [])
  }

  predicate Enabled(s: State, step: Step) {
    match step
    case Call(_) => true
    case Run(t, _) =>
      t < |s.threads| &&
      match s.threads[t]
      case Arrive(_) => true
      case Wait(_, id) => id < |s.flights| && s.flights[id].done && s.flights[id].result.Some?
      case Fly(_, id) => id < |s.flights|
      case Land(_, _) => true
      case Signal(_, id) => id < |s.flights| && s.flights[id].result.Some?
      case Return(_, _, _, _) => false
  }

  function Act(s: State, t: nat, out: Outcome): (r: State)
    requires Enabled(s, Run(t, out))
  {
    match s.threads[t]
    case Arrive(key) =>
      if key in s.calls then State(s.calls, s.flights, s.threads[t := Wait(key, s.calls[key])])
      else
        var id := |s.flights|;
        State(s.calls[key := id], s.flights + [Flight(key, t, None, false)], s.threads[t := Fly(key, id)])
    case Wait(key, id) =>
      State(s.calls, s.flights, s.threads[t := Return(key, id, false, s.flights[id].result.value)])
    case Fly(key, id) =>
      var f := s.flights[id];
      State(s.calls, s.flights[id := Flight(f.key, f.owner, Some(out), f.done)], s.threads[t := Land(key, id)])
    case Land(key, id) => State(s.calls - {key}, s.flights, s.threads[t := Signal(key, id)])
    case Signal(key, id) =>
      var f := s.flights[id];
      State(s.calls, s.flights[id := Flight(f.key, f.owner, f.result, true)],
            s.threads[t := Return(key, id, true, f.result.value)])
  }

  function Do(s: State, step: Step): (r: State)
    requires Enabled(s, step)
  {
    match step
    case Call(key) => State(s.calls, s.flights, s.threads + [Arrive(key)])
    case Run(t, out) => Act(s, t, out)
  }

  ghost predicate Next(s: State, s': State) {
    exists step :: Enabled(s, step) && s' == Do(s, step)
  }

  ghost predicate IsRun(run: seq<State>) {
    && |run| > 0 && run[0] == Init()
    && forall i, j {:trigger Next(run[i], run[j])} | 0 <= i && j == i + 1 < |run| :: Next(run[i], run[j])
  }

  // ---- the invariant

  /** Goroutine `t` is flying, landing or signalling flight `id`. */
  ghost predicate Pilots(s: State, t: nat, id: nat) {
    t < |s.threads| &&
    match s.threads[t]
    case Fly(_, i) => i == id
    case Land(_, i) => i == id
    case Signal(_, i) => i == id
    case _ => false
  }

  ghost predicate ThreadOk(s: State, t: nat)
    requires t < |s.threads|
  {
    match s.threads[t]
    case Arrive(_) => true
    case Wait(key, id) => id < |s.flights| && s.flights[id].key == key && s.flights[id].owner != t
    case Fly(key, id) =>
      && key in s.calls && s.calls[key] == id
      && id < |s.flights| && s.flights[id] == Flight(key, t, None, false)
    case Land(key, id) =>
      && key in s.calls && s.calls[key] == id
      && id < |s.flights| && s.flights[id].result.Some? && s.flights[id] == Flight(key, t, s.flights[id].result, false)
    case Signal(key, id) =>
      id < |s.flights| && s.flights[id].result.Some? && s.flights[id] == Flight(key, t, s.flights[id].result, false)
    case Return(key, id, isFresh, out) =>
      && id < |s.flights| && s.flights[id] == Flight(key, s.flights[id].owner, Some(out), true)
      && (isFresh <==> s.flights[id].owner == t)
  }

  ghost predicate ThreadsOk(s: State) {
    forall t {:trigger s.threads[t]} {:trigger ThreadOk(s, t)} | 0 <= t < |s.threads| :: ThreadOk(s, t)
  }

  /** A flight that is not done has its owner on board; a done one has a result. */
  ghost predicate FlightOk(s: State, id: nat)
    requires id < |s.flights|
  {
    if s.flights[id].done then s.flights[id].result.Some? else Pilots(s, s.flights[id].owner, id)
  }

  ghost predicate FlightsOk(s: State) {
    forall id {:trigger s.flights[id]} {:trigger FlightOk(s, id)} | 0 <= id < |s.flights| :: FlightOk(s, id)
  }

  /** A registered flight is in the air. */
  ghost predicate CallOk(s: State, key: Key)
    requires key in s.calls
  {
    var id := s.calls[key];
    && id < |s.flights| && s.flights[id].key == key && !s.flights[id].done
    && s.flights[id].owner < |s.threads|
    && (s.threads[s.flights[id].owner] == Fly(key, id) || s.threads[s.flights[id].owner] == Land(key, id))
  }

  ghost predicate CallsOk(s: State) {
    forall key {:trigger s.calls[key]} {:trigger CallOk(s, key)} | key in s.calls :: CallOk(s, key)
  }

  ghost predicate Inv(s: State) {
    ThreadsOk(s) && FlightsOk(s) && CallsOk(s)
  }

  lemma StepKeepsThreads(s: State, step: Step)
    requires Inv(s) && Enabled(s, step)
    ensures ThreadsOk(Do(s, step))
  {
    var s' := Do(s, step);
    forall t: nat | t < |s'.threads| ensures ThreadOk(s', t) {
      assert t < |s.threads| ==> ThreadOk(s, t);
    }
  }

  lemma StepKeepsFlights(s: State, step: Step)
    requires Inv(s) && Enabled(s, step)
    ensures FlightsOk(Do(s, step))
  {
    var s' := Do(s, step);
    forall id: nat | id < |s'.flights| ensures FlightOk(s', id) {
      assert id < |s.flights| ==> FlightOk(s, id);
    }
  }

  lemma StepKeepsCalls(s: State, step: Step)
    requires Inv(s) && Enabled(s, step)
    ensures CallsOk(Do(s, step))
  {
    var s' := Do(s, step);
    forall key | key in s'.calls ensures CallOk(s', key) {
      assert key in s.calls ==> CallOk(s, key);
    }
  }

  /** Every step keeps the invariant. */
  lemma StepKeepsInv(s: State, step: Step)
    requires Inv(s) && Enabled(s, step)
    ensures Inv(Do(s, step))
  {
    StepKeepsThreads(s, step);
    StepKeepsFlights(s, step);
    StepKeepsCalls(s, step);
  }

  lemma NextKeepsInv(s: State, s': State)
    requires Inv(s) && Next(s, s')
    ensures Inv(s')
  {
    var step :| Enabled(s, step) && s' == Do(s, step);
    StepKeepsInv(s, step);
  }

  lemma {:induction false} RunsKeepInv(run: seq<State>, k: nat)
    requires IsRun(run) && k < |run|
    ensures Inv(run[k])
  {
    if k > 0 {
      RunsKeepInv(run, k - 1);
      assert Next(run[k - 1], run[k]);
      NextKeepsInv(run[k - 1], run[k]);
    }
  }

  // ---- what the group promises

  ghost predicate Flying(s: State, t: nat, key: Key) {
    t < |s.threads| && s.threads[t].Fly? && s.threads[t].key == key
  }

  lemma OneFlightPerKeyIn(s: State, t: nat, u: nat, key: Key)
    requires Inv(s) && Flying(s, t, key) && Flying(s, u, key)
    ensures t == u
  {
    assert ThreadOk(s, t) && ThreadOk(s, u);
  }

  /** In every run, at most one function runs per key. */
  lemma OneFlightPerKey(run: seq<State>, k: nat, t: nat, u: nat, key: Key)
    requires IsRun(run) && k < |run|
    requires Flying(run[k], t, key) && Flying(run[k], u, key)
    ensures t == u
  {
    RunsKeepInv(run, k);
    OneFlightPerKeyIn(run[k], t, u, key);
  }

  /** Goroutine `t` is on its way with flight `id`, as its pilot or as one who joined. */
  ghost predicate Tracks(s: State, t: nat, key: Key, id: nat, joined: bool) {
    t < |s.threads| &&
    match s.threads[t]
    case Arrive(_) => false
    case Wait(k, i) => joined && k == key && i == id
    case Return(k, i, isFresh, _) => k == key && i == id && isFresh == !joined
    case pc => !joined && pc.key == key && pc.id == id
  }

  lemma StepTracks(s: State, s': State, t: nat, key: Key, id: nat, joined: bool)
    requires Tracks(s, t, key, id, joined) && Next(s, s')
    ensures Tracks(s', t, key, id, joined)
  {
  }

  lemma {:induction false} RunTracks(run: seq<State>, i: nat, k: nat, t: nat, key: Key, id: nat, joined: bool)
    requires IsRun(run) && i <= k < |run| && Tracks(run[i], t, key, id, joined)
    ensures Tracks(run[k], t, key, id, joined)
    decreases k
  {
    if i < k {
      RunTracks(run, i, k - 1, t, key, id, joined);
      assert Next(run[k - 1], run[k]);
      StepTracks(run[k - 1], run[k], t, key, id, joined);
    }
  }

  /** The flight that a caller arriving in state `s` shares or starts. */
  ghost function FlightFor(s: State, key: Key): (id: nat) {
    if key in s.calls then s.calls[key] else |s.flights|
  }

  /** A caller returns the completed result of the flight that was registered when it arrived,
      and that flight was still in the air then; or of the one it registered itself, and only
      then is the result reported as fresh. */
  lemma CallerGetsItsFlight(run: seq<State>, i: nat, k: nat, t: nat, key: Key)
    requires IsRun(run) && i < k < |run|
    requires t < |run[i].threads| && run[i].threads[t] == Arrive(key)
    requires t < |run[i + 1].threads| && run[i + 1].threads[t] != Arrive(key)
    requires t < |run[k].threads| && run[k].threads[t].Return?
    ensures var id, pc := FlightFor(run[i], key), run[k].threads[t];
            && id < |run[k].flights|
            && run[k].flights[id] == Flight(key, run[k].flights[id].owner, Some(pc.out), true)
            && pc.isFresh == (key !in run[i].calls) == (run[k].flights[id].owner == t)
            && (key in run[i].calls ==> id < |run[i].flights| && !run[i].flights[id].done)
  {
    var id, joined := FlightFor(run[i], key), key in run[i].calls;
    assert Next(run[i], run[i + 1]);
    assert Tracks(run[i + 1], t, key, id, joined);
    RunTracks(run, i + 1, k, t, key, id, joined);
    RunsKeepInv(run, k);
    assert ThreadOk(run[k], t);
    RunsKeepInv(run, i);
    if joined {
      assert CallOk(run[i], key);
    }
  }

  ghost predicate CallsFor(s: State, t: nat, key: Key) {
    t < |s.threads| && s.threads[t].key == key
  }

  /** A call is for its own key from arrival to return. */
  lemma {:induction false} CallerKeepsKey(run: seq<State>, i: nat, k: nat, key: Key)
    requires IsRun(run) && i < k < |run| && run[i + 1] == Do(run[i], Call(key))
    ensures CallsFor(run[k], |run[i].threads|, key)
    decreases k
  {
    if i + 1 < k {
      CallerKeepsKey(run, i, k - 1, key);
      assert Next(run[k - 1], run[k]);
    }
  }

  // ---- what a flight delivers

  ghost predicate HasResult(s: State, id: nat, out: Outcome) {
    id < |s.flights| && s.flights[id].result == Some(out)
  }

  /** A result once set stays: only the pilot sets it, and no longer flies. */
  lemma StepKeepsResult(s: State, s': State, id: nat, out: Outcome)
    requires Inv(s) && Next(s, s') && HasResult(s, id, out)
    ensures HasResult(s', id, out)
  {
    var step :| Enabled(s, step) && s' == Do(s, step);
    if step.Run? {
      assert ThreadOk(s, step.thread);
    }
  }

  lemma {:induction false} RunKeepsResult(run: seq<State>, i: nat, k: nat, id: nat, out: Outcome)
    requires IsRun(run) && i <= k < |run| && HasResult(run[i], id, out)
    ensures HasResult(run[k], id, out)
    decreases k
  {
    if i < k {
      RunKeepsResult(run, i, k - 1, id, out);
      RunsKeepInv(run, k - 1);
      assert Next(run[k - 1], run[k]);
      StepKeepsResult(run[k - 1], run[k], id, out);
    }
  }

  /** If the function of a flight returned `out`, everyone who returns from that flight returns
      exactly `out`. */
  lemma FlightDeliversWhatItReturned(run: seq<State>, i: nat, k: nat, t: nat, key: Key, id: nat, out: Outcome, u: nat)
    requires IsRun(run) && i < k < |run|
    requires t < |run[i].threads| && run[i].threads[t] == Fly(key, id)
    requires Enabled(run[i], Run(t, out)) && run[i + 1] == Do(run[i], Run(t, out))
    requires u < |run[k].threads| && run[k].threads[u].Return? && run[k].threads[u].id == id
    ensures run[k].threads[u].out == out && run[k].threads[u].key == key
  {
    RunsKeepInv(run, i);
    assert ThreadOk(run[i], t);
    assert HasResult(run[i + 1], id, out) && run[i + 1].flights[id].key == key;
    RunKeepsResult(run, i + 1, k, id, out);
    RunKeepsKey(run, i + 1, k, id, key);
    RunsKeepInv(run, k);
    assert ThreadOk(run[k], u);
  }

  lemma {:induction false} RunKeepsKey(run: seq<State>, i: nat, k: nat, id: nat, key: Key)
    requires IsRun(run) && i <= k < |run| && id < |run[i].flights| && run[i].flights[id].key == key
    ensures id < |run[k].flights| && run[k].flights[id].key == key
    decreases k
  {
    if i < k {
      RunKeepsKey(run, i, k - 1, id, key);
      assert Next(run[k - 1], run[k]);
    }
  }

  /** And nobody returns from a flight before its function has. */
  lemma {:induction false} ReturnedAfterTheFunction(run: seq<State>, k: nat, id: nat) returns (i: nat, out: Outcome)
    requires IsRun(run) && k < |run| && id < |run[k].flights| && run[k].flights[id].result.Some?
    ensures i < k && id < |run[i].flights| && run[i].flights[id].owner < |run[i].threads|
    ensures run[i].threads[run[i].flights[id].owner].Fly? && run[i].threads[run[i].flights[id].owner].id == id
    ensures var step := Run(run[i].flights[id].owner, out);
            Enabled(run[i], step) && run[i + 1] == Do(run[i], step)
  {
    assert k > 0;
    var s := run[k - 1];
    RunsKeepInv(run, k - 1);
    assert Next(s, run[k]);
    if id < |s.flights| && s.flights[id].result.Some? {
      i, out := ReturnedAfterTheFunction(run, k - 1, id);
    } else {
      var step :| Enabled(s, step) && run[k] == Do(s, step);
      i, out := k - 1, if step.Run? then step.out else Outcome(None, None);
      assert ThreadOk(s, step.thread);
    }
  }

  /** A caller that waits is never stuck: its flight is done, or the pilot can move. */
  lemma WaiterNeverStuck(run: seq<State>, k: nat, t: nat, out: Outcome)
    requires IsRun(run) && k < |run| && t < |run[k].threads| && run[k].threads[t].Wait?
    ensures run[k].threads[t].id < |run[k].flights|
    ensures Enabled(run[k], Run(t, out)) || Enabled(run[k], Run(run[k].flights[run[k].threads[t].id].owner, out))
  {
    RunsKeepInv(run, k);
    var s := run[k];
    assert ThreadOk(s, t);
    var id := s.threads[t].id;
    assert FlightOk(s, id);
    if !s.flights[id].done {
      assert ThreadOk(s, s.flights[id].owner);
    }
  }
}
