/** Progress of `core/threading/stablerunner.go`: a `Get` that waits for a numbered push can always be
    served by the goroutines that are there. */
module RunnerProgress {
  import opened Options
  import opened StableRunners

  ghost predicate IsPath(c: Config, path: seq<State>)
    requires c.Valid()
  {
    && path != []
    && forall i, j {:trigger Next(c, path[i], path[j])} | 0 <= i && j == i + 1 < |path| :: Next(c, path[i], path[j])
  }

  lemma Join(c: Config, first: seq<State>, second: seq<State>)
    requires c.Valid() && IsPath(c, first) && IsPath(c, second) && first[|first| - 1] == second[0]
    ensures IsPath(c, first + second[1..])
    ensures (first + second[1..])[|first + second[1..]| - 1] == second[|second| - 1]
  {
    var all := first + second[1..];
    forall i, j | 0 <= i && j == i + 1 < |all| ensures Next(c, all[i], all[j]) {
      if j < |first| {
        assert Next(c, first[i], first[j]);
      } else {
        var l := i - |first| + 1;
        assert all[i] == second[l] && all[j] == second[l + 1];
        assert Next(c, second[l], second[l + 1]);
      }
    }
  }

  lemma OneStep(c: Config, s: State, step: Step)
    requires c.Valid() && |s.slots| == c.size && Enabled(c, s, step)
    ensures IsPath(c, [s, Do(c, s, step)])
  {
    var path := [s, Do(c, s, step)];
    assert Next(c, s, Do(c, s, step));
    forall i, j | 0 <= i && j == i + 1 < |path| ensures Next(c, path[i], path[j]) {
      assert i == 0 && j == 1;
    }
  }

  // ---- How far a waiting get is from being served

  /** Steps that a worker has before it. */
  function Stage(w: Working): (r: nat) {
    match w
    case Run(_) => 5
    case Send(_) => 4
    case Unlock => 3
    case Release => 2
    case Leave => 1
  }

  ghost function StageAt(workers: map<nat, Working>, t: nat): (r: nat) {
    if t in workers then Stage(workers[t]) else 0
  }

  ghost function StageSum(workers: map<nat, Working>, n: nat): (r: nat) {
    if n == 0 then 0 else StageSum(workers, n - 1) + StageAt(workers, n - 1)
  }

  /** Steps of a push, and of the worker it will start. */
  function PushRank(p: Pushing): (r: nat) {
    match p
    case PushLock(_, _) => 8
    case PushEnter(_, _) => 7
    case PushLimit(_, _) => 6
    case _ => 0
  }

  ghost function Distance(s: State): (r: nat) {
    StageSum(s.workers, s.written) + PushRank(s.pusher)
  }

  /** Only worker `t` differs. */
  ghost predicate OnlyDiffersAt(workers: map<nat, Working>, workers': map<nat, Working>, t: nat) {
    forall u: nat {:trigger StageAt(workers', u)} | u != t :: StageAt(workers', u) == StageAt(workers, u)
  }

  lemma {:induction false} StageSumUpdate(workers: map<nat, Working>, workers': map<nat, Working>, t: nat, n: nat)
    requires OnlyDiffersAt(workers, workers', t)
    ensures StageSum(workers', n) == StageSum(workers, n)
                                     + if t < n then StageAt(workers', t) - StageAt(workers, t) else 0
  {
    if n > 0 {
      StageSumUpdate(workers, workers', t, n - 1);
      assert n - 1 != t ==> StageAt(workers', n - 1) == StageAt(workers, n - 1);
    }
  }

  /** `s'` is `s` with the same messages, and the waiting get is closer to its own. */
  ghost predicate Nearer(c: Config, s: State, s': State)
    requires c.Valid()
  {
    WaitingGet(c, s') && s'.results == s.results && s'.pushed == s.pushed && Distance(s') < Distance(s)
  }

  lemma WorkLowersStages(c: Config, s: State, t: nat)
    requires c.Valid() && |s.slots| == c.size && WorkReady(c, s, t) && t < s.written
    ensures StageSum(DoWork(c, s, t).workers, s.written) < StageSum(s.workers, s.written)
  {
    var workers' := DoWork(c, s, t).workers;
    assert OnlyDiffersAt(s.workers, workers', t);
    assert StageAt(workers', t) < StageAt(s.workers, t);
    StageSumUpdate(s.workers, workers', t, s.written);
  }

  lemma WorkBringsNearer(c: Config, s: State, t: nat)
    requires c.Valid() && WaitingGet(c, s) && WorkReady(c, s, t)
    ensures Nearer(c, s, DoWork(c, s, t))
  {
    StepKeepsInv(c, s, Work(t));
    assert WorkerOk(c, s, t);
    WorkLowersStages(c, s, t);
  }

  lemma PushBringsNearer(c: Config, s: State)
    requires c.Valid() && WaitingGet(c, s) && PushReady(c, s) && PusherHas(s, |s.results|)
    ensures Nearer(c, s, DoPush(c, s))
  {
    var s' := DoPush(c, s);
    StepKeepsInv(c, s, Push);
    if s.pusher.PushLimit? {
      StageSumUpdate(s.workers, s'.workers, s.pusher.ticket, s.written);
    }
  }

  /** The waiting get has received the message it waited for. */
  ghost predicate Served(c: Config, s: State, s': State) {
    && |s.results| < |s.pushed| && s'.getter.GetReturn? && s'.pushed == s.pushed
    && s'.results == s.results + [c.handle(s.pushed[|s.results|])]
  }

  lemma ReceivingServes(c: Config, s: State)
    requires c.Valid() && WaitingGet(c, s) && Enabled(c, s, Get(true))
    ensures Served(c, s, Do(c, s, Get(true)))
  {
    ReceivedIsOldest(c, s, s.getter.index);
    assert SlotOk(c, s, SlotOf(c, s.getter.index));
  }

  lemma {:induction false} GetIsServed(c: Config, s: State) returns (path: seq<State>)
    requires c.Valid() && WaitingGet(c, s)
    ensures IsPath(c, path) && path[0] == s && Served(c, s, path[|path| - 1])
    decreases Distance(s)
  {
    var step := WaitingGetMoves(c, s);
    var s' := Do(c, s, step);
    OneStep(c, s, step);
    path := [s, s'];
    if step == Get(true) {
      ReceivingServes(c, s);
    } else {
      if step.Work? {
        WorkBringsNearer(c, s, step.ticket);
      } else {
        PushBringsNearer(c, s);
      }
      var rest := GetIsServed(c, s');
      Join(c, path, rest);
      path := path + rest[1..];
    }
  }

  /** Every run in which a `Get` waits for a numbered push has a continuation in which this `Get`
      receives what the handler makes of that push. */
  lemma WaitingGetIsServed(c: Config, run: seq<State>) returns (path: seq<State>)
    requires c.Valid() && IsRun(c, run)
    requires run[|run| - 1].getter.GetSelect? || run[|run| - 1].getter.GetDrain?
    requires run[|run| - 1].failures == 0 && |run[|run| - 1].results| < run[|run| - 1].written
    ensures IsPath(c, path) && path[0] == run[|run| - 1] && IsRun(c, run + path[1..])
    ensures Served(c, path[0], path[|path| - 1])
  {
    RunsKeepInv(c, run, |run| - 1);
    path := GetIsServed(c, run[|run| - 1]);
    Join(c, run, path);
  }
}
