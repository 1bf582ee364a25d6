/** `core/syncx/resourcemanager.go`: `GetResource` runs inside a single flight. The state machine
    of `SingleFlights` is extended with the manager's map and the progress of each function. */
module ResourceManagers {
  import opened Options
  import opened SingleFlights

  /** What the function passed to `Do` does next. */
  datatype Fn =
    | Lookup
    | Create
    | Store(resource: int)
    | Finish(out: Outcome)

  /** `fns` holds the progress of each goroutine whose function runs; `created` records every
      `create` that succeeded. */
  datatype Manager = Manager(
    group: State,
    resources: map<Key, int>,
    fns: map<nat, Fn>,
    created: seq<(Key, int)>)

  datatype Creation = Created(resource: int) | Failed(err: int)

  datatype Move =
    | GetResource(key: Key)
    | Fly(thread: nat, creation: Creation)      // a move inside the function
    | Go(thread: nat)                           // a move of `Do` outside the function

  const NOTHING := Outcome(None, None)

  function Start(): (m: Manager) {
    Manager(SingleFlights.Init(), map[], map[], [])
  }

  predicate CanMove(m: Manager, move: Move) {
    match move
    case GetResource(_) => true
    case Fly(t, _) => t < |m.group.threads| && m.group.threads[t].Fly? && t in m.fns && Enabled(m.group, Run(t, NOTHING))
    case Go(t) => t < |m.group.threads| && !m.group.threads[t].Fly? && Enabled(m.group, Run(t, NOTHING))
  }

  function FnMove(m: Manager, t: nat, creation: Creation): (r: Manager)
    requires CanMove(m, Move.Fly(t, creation))
  {
    var key := m.group.threads[t].key;
    match m.fns[t]
    case Lookup =>
      var next := if key in m.resources then Finish(Outcome(Some(m.resources[key]), None)) else Create;
      Manager(m.group, m.resources, m.fns[t := next], m.created)
    case Create =>
      match creation {
        case Failed(e) => Manager(m.group, m.resources, m.fns[t := Finish(Outcome(None, Some(e)))], m.created)
        case Created(r) => Manager(m.group, m.resources, m.fns[t := Store(r)], m.created + [(key, r)])
      }
    case Store(r) =>
      Manager(m.group, m.resources[key := r], m.fns[t := Finish(Outcome(Some(r), None))], m.created)
    case Finish(out) => Manager(Act(m.group, t, out), m.resources, m.fns - {t}, m.created)
  }

  function Moved(m: Manager, move: Move): (r: Manager)
    requires CanMove(m, move)
  {
    match move
    case GetResource(key) => Manager(Do(m.group, Call(key)), m.resources, m.fns, m.created)
    case Fly(t, creation) => FnMove(m, t, creation)
    case Go(t) =>
      var group := Act(m.group, t, NOTHING);
      Manager(group, m.resources, if group.threads[t].Fly? then m.fns[t := Lookup] else m.fns, m.created)
  }

  ghost predicate Follows(m: Manager, m': Manager) {
    exists move :: CanMove(m, move) && m' == Moved(m, move)
  }

  ghost predicate IsManagerRun(run: seq<Manager>) {
    && |run| > 0 && run[0] == Start()
    && forall i, j {:trigger Follows(run[i], run[j])} | 0 <= i && j == i + 1 < |run| :: Follows(run[i], run[j])
  }

  // ---- the invariant

  ghost predicate HasBeenCreated(m: Manager, key: Key) {
    exists c :: c in m.created && c.0 == key
  }

  ghost predicate Has(m: Manager, key: Key, r: int) {
    key in m.resources && m.resources[key] == r
  }

  ghost predicate FnOk(m: Manager, t: nat)
    requires t in m.fns
  {
    && t < |m.group.threads| && m.group.threads[t].Fly?
    && var key := m.group.threads[t].key;
       match m.fns[t]
       case Lookup => true
       case Create => !HasBeenCreated(m, key)
       case Store(r) => key !in m.resources && (key, r) in m.created
       case Finish(out) => out.err == None ==> out.val.Some? && Has(m, key, out.val.value)
  }

  /** Exactly the flying goroutines are inside a function. */
  ghost predicate FnsOk(m: Manager) {
    && (forall t {:trigger m.fns[t]} {:trigger FnOk(m, t)} | t in m.fns :: FnOk(m, t))
    && (forall t {:trigger m.group.threads[t]} | 0 <= t < |m.group.threads| && m.group.threads[t].Fly? :: t in m.fns)
  }

  ghost predicate Storing(m: Manager, key: Key, r: int) {
    && key in m.group.calls && m.group.calls[key] < |m.group.flights|
    && var t := m.group.flights[m.group.calls[key]].owner;
       t in m.fns && m.fns[t] == Store(r)
  }

  /** A created resource is in the map, or about to be stored there. */
  ghost predicate CreatedOk(m: Manager) {
    && (forall c {:trigger c in m.created} | c in m.created :: Has(m, c.0, c.1) || Storing(m, c.0, c.1))
    && (forall key {:trigger m.resources[key]} | key in m.resources :: (key, m.resources[key]) in m.created)
  }

  ghost predicate CreatedOnceIn(m: Manager) {
    forall i, j {:trigger m.created[i], m.created[j]} | 0 <= i < j < |m.created| :: m.created[i].0 != m.created[j].0
  }

  /** A successful flight delivered what the map holds. */
  ghost predicate Delivers(m: Manager, f: Flight) {
    f.result.Some? && f.result.value.err == None
    ==> f.result.value.val.Some? && Has(m, f.key, f.result.value.val.value)
  }

  ghost predicate FlightsDeliver(m: Manager) {
    forall f {:trigger Delivers(m, f)} {:trigger f in m.group.flights} | f in m.group.flights :: Delivers(m, f)
  }

  ghost predicate ManagerInv(m: Manager) {
    Inv(m.group) && FnsOk(m) && CreatedOk(m) && CreatedOnceIn(m) && FlightsDeliver(m)
  }

  lemma LookupKeeps(m: Manager, t: nat, creation: Creation)
    requires ManagerInv(m) && CanMove(m, Move.Fly(t, creation)) && m.fns[t].Lookup?
    ensures ManagerInv(FnMove(m, t, creation))
  {
    var m' := FnMove(m, t, creation);
    var key := m.group.threads[t].key;
    assert FlightsDeliver(m') by {
      forall f | f in m.group.flights ensures Delivers(m', f) {
        assert Delivers(m, f);
      }
    }
    NobodyElseStores(m, t);
    assert CreatedOk(m');
    assert m'.fns[t].Create? ==> forall c | c in m.created :: c.0 != key;
    forall u | u in m'.fns ensures FnOk(m', u) {
      assert FnOk(m, u);
    }
  }

  /** The goroutine flying a key is the one registered for it. */
  lemma NobodyElseStores(m: Manager, t: nat)
    requires ManagerInv(m) && t in m.fns
    ensures var key := m.group.threads[t].key;
            && key in m.group.calls && m.group.calls[key] < |m.group.flights|
            && m.group.flights[m.group.calls[key]].owner == t
            && (forall u | u in m.fns && m.group.threads[u].key == key :: u == t)
            && (forall k, r | k != key && Storing(m, k, r) :: m.group.flights[m.group.calls[k]].owner != t)
  {
    assert FnOk(m, t) && ThreadOk(m.group, t);
    var key := m.group.threads[t].key;
    forall u | u in m.fns && m.group.threads[u].key == key ensures u == t {
      assert FnOk(m, u);
      OneFlightPerKeyIn(m.group, t, u, key);
    }
    forall k, r | k != key && Storing(m, k, r) ensures m.group.flights[m.group.calls[k]].owner != t {
      assert CallOk(m.group, k);
    }
  }

  lemma CreateKeeps(m: Manager, t: nat, creation: Creation)
    requires ManagerInv(m) && CanMove(m, Move.Fly(t, creation)) && m.fns[t].Create?
    ensures ManagerInv(FnMove(m, t, creation))
  {
    var m' := FnMove(m, t, creation);
    var key := m.group.threads[t].key;
    NobodyElseStores(m, t);
    assert FnOk(m, t);
    assert FlightsDeliver(m') by {
      forall f | f in m.group.flights ensures Delivers(m', f) {
        assert Delivers(m, f);
      }
    }
    assert CreatedOk(m') by {
      forall c | c in m'.created ensures Has(m', c.0, c.1) || Storing(m', c.0, c.1) {
        assert c in m.created ==> c.0 != key;
      }
    }
    assert CreatedOnceIn(m') by {
      assert forall i | 0 <= i < |m.created| :: m.created[i] in m.created && m.created[i].0 != key;
    }
    forall u | u in m'.fns ensures FnOk(m', u) {
      assert FnOk(m, u);
    }
  }

  lemma StoreKeeps(m: Manager, t: nat, creation: Creation)
    requires ManagerInv(m) && CanMove(m, Move.Fly(t, creation)) && m.fns[t].Store?
    ensures ManagerInv(FnMove(m, t, creation))
  {
    var m' := FnMove(m, t, creation);
    NobodyElseStores(m, t);
    assert FnOk(m, t);
    assert FlightsDeliver(m') by {
      forall f | f in m.group.flights ensures Delivers(m', f) {
        assert Delivers(m, f);
      }
    }
    assert CreatedOk(m') by {
      forall c | c in m'.created ensures Has(m', c.0, c.1) || Storing(m', c.0, c.1) {
        assert Has(m, c.0, c.1) || Storing(m, c.0, c.1);
      }
    }
    forall u | u in m'.fns ensures FnOk(m', u) {
      assert FnOk(m, u);
    }
  }

  lemma FinishKeeps(m: Manager, t: nat, creation: Creation)
    requires ManagerInv(m) && CanMove(m, Move.Fly(t, creation)) && m.fns[t].Finish?
    ensures ManagerInv(FnMove(m, t, creation))
  {
    var m' := FnMove(m, t, creation);
    NobodyElseStores(m, t);
    assert FnOk(m, t) && ThreadOk(m.group, t);
    StepKeepsInv(m.group, Run(t, m.fns[t].out));
    assert FlightsDeliver(m') by {
      forall f | f in m'.group.flights ensures Delivers(m', f) {
        assert f in m.group.flights ==> Delivers(m, f);
      }
    }
    assert CreatedOk(m') by {
      forall c | c in m'.created ensures Has(m', c.0, c.1) || Storing(m', c.0, c.1) {
        assert Has(m, c.0, c.1) || Storing(m, c.0, c.1);
      }
    }
    forall u | u in m'.fns ensures FnOk(m', u) {
      assert FnOk(m, u);
    }
  }

  lemma GoKeepsCreated(m: Manager, t: nat)
    requires ManagerInv(m) && CanMove(m, Go(t))
    ensures CreatedOk(Moved(m, Go(t)))
  {
    var m' := Moved(m, Go(t));
    assert ThreadOk(m.group, t);
    forall c | c in m'.created ensures Has(m', c.0, c.1) || Storing(m', c.0, c.1) {
      assert Has(m, c.0, c.1) || Storing(m, c.0, c.1);
      if Storing(m, c.0, c.1) {
        assert CallOk(m.group, c.0);
      }
    }
  }

  lemma GoKeepsDelivery(m: Manager, t: nat)
    requires ManagerInv(m) && CanMove(m, Go(t))
    ensures FlightsDeliver(Moved(m, Go(t)))
  {
    var m' := Moved(m, Go(t));
    assert ThreadOk(m.group, t);
    forall f | f in m'.group.flights ensures Delivers(m', f) {
      assert f in m.group.flights ==> Delivers(m, f);
      assert m.group.threads[t].Signal? ==> m.group.flights[m.group.threads[t].id] in m.group.flights;
    }
  }

  lemma GoKeeps(m: Manager, t: nat)
    requires ManagerInv(m) && CanMove(m, Go(t))
    ensures ManagerInv(Moved(m, Go(t)))
  {
    var m' := Moved(m, Go(t));
    assert ThreadOk(m.group, t);
    StepKeepsInv(m.group, Run(t, NOTHING));
    GoKeepsDelivery(m, t);
    GoKeepsCreated(m, t);
    forall u | u in m'.fns ensures FnOk(m', u) {
      assert u in m.fns ==> FnOk(m, u);
    }
  }

  lemma CallKeeps(m: Manager, key: Key)
    requires ManagerInv(m)
    ensures ManagerInv(Moved(m, GetResource(key)))
  {
    var m' := Moved(m, GetResource(key));
    StepKeepsInv(m.group, Call(key));
    assert FlightsDeliver(m') by {
      forall f | f in m'.group.flights ensures Delivers(m', f) {
        assert Delivers(m, f);
      }
    }
    assert CreatedOk(m') by {
      forall c | c in m'.created ensures Has(m', c.0, c.1) || Storing(m', c.0, c.1) {
        assert Has(m, c.0, c.1) || Storing(m, c.0, c.1);
      }
    }
    forall u | u in m'.fns ensures FnOk(m', u) {
      assert FnOk(m, u);
    }
  }

  lemma MoveKeepsInv(m: Manager, move: Move)
    requires ManagerInv(m) && CanMove(m, move)
    ensures ManagerInv(Moved(m, move))
  {
    match move
    case GetResource(key) => CallKeeps(m, key);
    case Go(t) => GoKeeps(m, t);
    case Fly(t, creation) =>
      match m.fns[t]
      case Lookup => LookupKeeps(m, t, creation);
      case Create => CreateKeeps(m, t, creation);
      case Store(_) => StoreKeeps(m, t, creation);
      case Finish(_) => FinishKeeps(m, t, creation);
  }

  lemma FollowsKeepsInv(m: Manager, m': Manager)
    requires ManagerInv(m) && Follows(m, m')
    ensures ManagerInv(m')
  {
    var move :| CanMove(m, move) && m' == Moved(m, move);
    MoveKeepsInv(m, move);
  }

  lemma {:induction false} ManagerRunsKeepInv(run: seq<Manager>, k: nat)
    requires IsManagerRun(run) && k < |run|
    ensures ManagerInv(run[k])
  {
    if k > 0 {
      ManagerRunsKeepInv(run, k - 1);
      assert Follows(run[k - 1], run[k]);
      FollowsKeepsInv(run[k - 1], run[k]);
    }
  }

  // ---- what a flight of the manager delivers

  /** What a creation leads to. */
  function OutcomeOf(creation: Creation): (out: Outcome) {
    match creation
    case Created(r) => Outcome(Some(r), None)
    case Failed(e) => Outcome(None, Some(e))
  }

  /** Goroutine `t` flies flight `id`. */
  ghost predicate Flies(m: Manager, t: nat, id: nat) {
    t < |m.group.threads| && m.group.threads[t].Fly? && m.group.threads[t].id == id
  }

  /** Flight `id` is going to deliver `out`, or has done so. */
  ghost predicate Bound(m: Manager, t: nat, id: nat, out: Outcome) {
    || HasResult(m.group, id, out)
    || (Flies(m, t, id) && t in m.fns
        && (m.fns[t] == Finish(out)
            || (m.fns[t].Store? && out == Outcome(Some(m.fns[t].resource), None))))
  }

  lemma ActKeepsResult(s: State, t: nat, given: Outcome, id: nat, out: Outcome)
    requires Inv(s) && Enabled(s, Run(t, given)) && HasResult(s, id, out)
    ensures HasResult(Act(s, t, given), id, out)
  {
    assert ThreadOk(s, t);
  }

  lemma MoveKeepsBound(m: Manager, move: Move, t: nat, id: nat, out: Outcome)
    requires ManagerInv(m) && CanMove(m, move) && Bound(m, t, id, out)
    ensures Bound(Moved(m, move), t, id, out)
  {
    if HasResult(m.group, id, out) {
      match move {
        case GetResource(_) =>
        case Go(u) => ActKeepsResult(m.group, u, NOTHING, id, out);
        case Fly(u, _) =>
          if m.fns[u].Finish? {
            ActKeepsResult(m.group, u, m.fns[u].out, id, out);
          }
      }
    } else {
      assert ThreadOk(m.group, t);
    }
  }

  lemma {:induction false} RunKeepsBound(run: seq<Manager>, i: nat, k: nat, t: nat, id: nat, out: Outcome)
    requires IsManagerRun(run) && i <= k < |run| && Bound(run[i], t, id, out)
    ensures Bound(run[k], t, id, out)
    decreases k
  {
    if i < k {
      RunKeepsBound(run, i, k - 1, t, id, out);
      ManagerRunsKeepInv(run, k - 1);
      assert Follows(run[k - 1], run[k]);
      var move :| CanMove(run[k - 1], move) && run[k] == Moved(run[k - 1], move);
      MoveKeepsBound(run[k - 1], move, t, id, out);
    }
  }

  lemma BoundIsReturned(run: seq<Manager>, i: nat, k: nat, t: nat, id: nat, out: Outcome, u: nat)
    requires IsManagerRun(run) && i <= k < |run| && Bound(run[i], t, id, out)
    requires u < |run[k].group.threads| && run[k].group.threads[u].Return? && run[k].group.threads[u].id == id
    ensures run[k].group.threads[u].out == out
  {
    RunKeepsBound(run, i, k, t, id, out);
    ManagerRunsKeepInv(run, k);
    assert ThreadOk(run[k].group, u);
    if Flies(run[k], t, id) {
      assert ThreadOk(run[k].group, t);
    }
  }

  /** If `create` returned a resource, everyone who returns from that flight returns it without an
      error; if it failed, they return no resource and its error. */
  lemma CreationIsReturned(run: seq<Manager>, i: nat, k: nat, t: nat, creation: Creation, u: nat)
    requires IsManagerRun(run) && i < k < |run|
    requires CanMove(run[i], Move.Fly(t, creation)) && run[i].fns[t] == Create
    requires run[i + 1] == Moved(run[i], Move.Fly(t, creation))
    requires u < |run[k].group.threads| && run[k].group.threads[u].Return?
    requires run[k].group.threads[u].id == run[i].group.threads[t].id
    ensures run[k].group.threads[u].out == OutcomeOf(creation)
  {
    BoundIsReturned(run, i + 1, k, t, run[i].group.threads[t].id, OutcomeOf(creation), u);
  }

  /** If the function found a resource, everyone who returns from that flight returns it. */
  lemma FoundIsReturned(run: seq<Manager>, i: nat, k: nat, t: nat, creation: Creation, u: nat)
    requires IsManagerRun(run) && i < k < |run|
    requires CanMove(run[i], Move.Fly(t, creation)) && run[i].fns[t] == Lookup
    requires run[i].group.threads[t].key in run[i].resources
    requires run[i + 1] == Moved(run[i], Move.Fly(t, creation))
    requires u < |run[k].group.threads| && run[k].group.threads[u].Return?
    requires run[k].group.threads[u].id == run[i].group.threads[t].id
    ensures run[k].group.threads[u].out == Outcome(Some(run[i].resources[run[i].group.threads[t].key]), None)
  {
    BoundIsReturned(run, i + 1, k, t, run[i].group.threads[t].id,
                    Outcome(Some(run[i].resources[run[i].group.threads[t].key]), None), u);
  }

  // ---- what the manager promises

  /** In every run, `create` succeeds at most once per key. */
  lemma CreatedAtMostOnce(run: seq<Manager>, k: nat, i: nat, j: nat)
    requires IsManagerRun(run) && k < |run|
    requires i < j < |run[k].created|
    ensures run[k].created[i].0 != run[k].created[j].0
  {
    ManagerRunsKeepInv(run, k);
  }

  ghost predicate Got(m: Manager, t: nat, key: Key) {
    t < |m.group.threads| && m.group.threads[t].Return? && m.group.threads[t].key == key
    && m.group.threads[t].out.err == None
  }

  /** In every run, all successful calls for a key return the one resource created for it. */
  lemma SuccessfulCallsAgree(run: seq<Manager>, k: nat, t: nat, u: nat, key: Key)
    requires IsManagerRun(run) && k < |run| && Got(run[k], t, key) && Got(run[k], u, key)
    ensures run[k].group.threads[t].out == run[k].group.threads[u].out
    ensures run[k].group.threads[t].out.val.Some?
    ensures (key, run[k].group.threads[t].out.val.value) in run[k].created
  {
    ManagerRunsKeepInv(run, k);
    var m := run[k];
    assert ThreadOk(m.group, t) && ThreadOk(m.group, u);
    assert m.group.flights[m.group.threads[t].id] in m.group.flights;
    assert m.group.flights[m.group.threads[u].id] in m.group.flights;
  }
}
