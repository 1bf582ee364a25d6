/** When `Wait` of `core/threading/stablerunner.go` may be trusted: exactly when no push is between
    its test of `done` and its numbering at the moment of the call. */
module RunnerWait {
  import opened Options
  import opened StableRunners
  import opened RunnerProgress

  // ---- Taking out every numbered message

  /** `Wait` has closed the runner, a push is about to be numbered, and no get has failed. */
  ghost predicate Draining(c: Config, s: State)
    requires c.Valid()
  {
    Inv(c, s) && s.pusher.PushNumber? && s.waiter == WaitTasks && s.failures == 0
  }

  /** How far the getter is from receiving. */
  function GetRank(g: Getting): (r: nat) {
    match g
    case GetReturn => 4
    case GetIdle => 3
    case GetSelect(_) => 2
    case GetClosed(_) => 1
    case GetDrain(_) => 0
  }

  /** How far the worker of the oldest message is from sending. */
  ghost function NextStage(s: State): (r: nat) {
    var t := |s.results|;
    if t in s.workers then Stage(s.workers[t]) else 0
  }

  ghost function Untaken(s: State): (r: nat) {
    if |s.results| <= s.written then s.written - |s.results| else 0
  }

  ghost predicate Closer(s: State, s': State) {
    || Untaken(s') < Untaken(s)
    || (Untaken(s') == Untaken(s) && GetRank(s'.getter) < GetRank(s.getter))
    || (Untaken(s') == Untaken(s) && GetRank(s'.getter) == GetRank(s.getter) && NextStage(s') < NextStage(s))
  }

  /** The oldest message that was not taken is in its channel, or its worker can move. */
  lemma OldestMoves(c: Config, s: State)
    requires c.Valid() && Draining(c, s) && |s.results| < s.written
    ensures InChannel(c, s, |s.results|) || (WorkReady(c, s, |s.results|) && Unsent(s, |s.results|))
  {
    var t := |s.results|;
    assert TicketOk(c, s, t);
    assert SlotOk(c, s, SlotOf(c, t));
    if !InChannel(c, s, t) {
      assert WorkerOk(c, s, t);
    }
  }

  lemma GetterDrains(c: Config, s: State) returns (step: Step)
    requires c.Valid() && Draining(c, s) && (|s.results| < s.written || s.getter.GetReturn?)
    requires s.getter.GetSelect? || s.getter.GetDrain? ==> InChannel(c, s, |s.results|)
    ensures Enabled(c, s, step) && Draining(c, Do(c, s, step)) && Closer(s, Do(c, s, step))
  {
    step := if s.getter.GetIdle? then CallGet else Get(true);
    StepKeepsInv(c, s, step);
  }

  lemma WorkerDrains(c: Config, s: State)
    requires c.Valid() && Draining(c, s) && WorkReady(c, s, |s.results|) && Unsent(s, |s.results|)
    ensures Draining(c, DoWork(c, s, |s.results|)) && Closer(s, DoWork(c, s, |s.results|))
  {
    StepKeepsInv(c, s, Work(|s.results|));
  }

  lemma DrainStep(c: Config, s: State) returns (step: Step)
    requires c.Valid() && Draining(c, s) && (|s.results| < s.written || s.getter.GetReturn?)
    ensures Enabled(c, s, step) && Draining(c, Do(c, s, step)) && Closer(s, Do(c, s, step))
  {
    if s.getter.GetSelect? || s.getter.GetDrain? {
      OldestMoves(c, s);
      if !InChannel(c, s, |s.results|) {
        WorkerDrains(c, s);
        return Work(|s.results|);
      }
    }
    step := GetterDrains(c, s);
  }

  /** All numbered messages are taken, and the last get has been counted. */
  ghost predicate Drained(c: Config, s: State)
    requires c.Valid()
  {
    Draining(c, s) && |s.results| == s.written && !s.getter.GetReturn?
  }

  lemma {:induction false} Drain(c: Config, s: State) returns (path: seq<State>)
    requires c.Valid() && Draining(c, s)
    ensures IsPath(c, path) && path[0] == s && Drained(c, path[|path| - 1])
    decreases Untaken(s), GetRank(s.getter), NextStage(s)
  {
    if |s.results| == s.written && !s.getter.GetReturn? {
      path := [s];
    } else {
      var step := DrainStep(c, s);
      var rest := Drain(c, Do(c, s, step));
      OneStep(c, s, step);
      Join(c, [s, Do(c, s, step)], rest);
      path := [s, Do(c, s, step)] + rest[1..];
    }
  }

  // ---- Letting the workers leave

  lemma LeavingWorkerMoves(c: Config, s: State, t: nat)
    requires c.Valid() && Drained(c, s) && t in s.workers
    ensures Stage(s.workers[t]) <= 3 && WorkReady(c, s, t)
    ensures var s' := DoWork(c, s, t);
            && Drained(c, s')
            && (if t in s'.workers then s'.workers.Keys == s.workers.Keys && Stage(s'.workers[t]) < Stage(s.workers[t])
                else s'.workers.Keys == s.workers.Keys - {t})
  {
    assert TicketOk(c, s, t) && WorkerOk(c, s, t);
    StepKeepsInv(c, s, Work(t));
  }

  lemma {:induction false} WorkerLeaves(c: Config, s: State, t: nat) returns (path: seq<State>)
    requires c.Valid() && Drained(c, s) && t in s.workers
    ensures IsPath(c, path) && path[0] == s && Drained(c, path[|path| - 1])
    ensures path[|path| - 1].workers.Keys == s.workers.Keys - {t}
    decreases Stage(s.workers[t])
  {
    LeavingWorkerMoves(c, s, t);
    var s' := Do(c, s, Work(t));
    OneStep(c, s, Work(t));
    path := [s, s'];
    if t in s'.workers {
      var rest := WorkerLeaves(c, s', t);
      Join(c, path, rest);
      path := path + rest[1..];
    }
  }

  lemma {:induction false} WorkersLeave(c: Config, s: State) returns (path: seq<State>)
    requires c.Valid() && Drained(c, s)
    ensures IsPath(c, path) && path[0] == s && Drained(c, path[|path| - 1])
    ensures path[|path| - 1].workers.Keys == {}
    decreases |s.workers.Keys|
  {
    if s.workers.Keys == {} {
      path := [s];
    } else {
      var t :| t in s.workers.Keys;
      path := WorkerLeaves(c, s, t);
      var s' := path[|path| - 1];
      assert s'.workers.Keys < s.workers.Keys;
      var rest := WorkersLeave(c, s');
      Join(c, path, rest);
      path := path + rest[1..];
    }
  }

  // ---- The message that is left over

  ghost predicate LeftOver(s: State) {
    s.waiter == WaitDone && |s.results| < |s.pushed|
  }

  lemma WaitReturnsEarly(c: Config, s: State) returns (path: seq<State>)
    requires c.Valid() && Drained(c, s) && s.workers.Keys == {}
    ensures IsPath(c, path) && path[0] == s && LeftOver(path[|path| - 1])
  {
    var s1 := Do(c, s, Wait);
    var s2 := Do(c, s1, Wait);
    var s3 := Do(c, s2, Push);
    OneStep(c, s, Wait);
    OneStep(c, s1, Wait);
    OneStep(c, s2, Push);
    Join(c, [s, s1], [s1, s2]);
    Join(c, [s, s1] + [s1, s2][1..], [s2, s3]);
    path := [s, s1] + [s1, s2][1..] + [s2, s3][1..];
  }

  /** From every state in which a push is about to be numbered, calling `Wait` can return with a
      message left over. */
  lemma LatePushCanBeLeftOver(c: Config, s: State) returns (path: seq<State>)
    requires c.Valid() && Inv(c, s) && s.waiter == WaitIdle && s.pusher.PushNumber?
    ensures IsPath(c, path) && |path| > 1 && path[0] == s && path[1] == Do(c, s, CallWait)
    ensures LeftOver(path[|path| - 1])
  {
    var s' := Do(c, s, CallWait);
    StepKeepsInv(c, s, CallWait);
    var drain := Drain(c, s');
    var leave := WorkersLeave(c, drain[|drain| - 1]);
    var wait := WaitReturnsEarly(c, leave[|leave| - 1]);
    OneStep(c, s, CallWait);
    Join(c, leave, wait);
    Join(c, drain, leave + wait[1..]);
    var rest := drain + (leave + wait[1..])[1..];
    Join(c, [s, s'], rest);
    path := [s, s'] + rest[1..];
  }

  // ---- Both halves

  lemma {:induction false} LateStays(c: Config, path: seq<State>, k: nat)
    requires c.Valid() && IsPath(c, path) && k < |path| && path[0].waiter != WaitIdle
    ensures path[k].waiter != WaitIdle && path[k].late == path[0].late
  {
    if k > 0 {
      LateStays(c, path, k - 1);
      assert Next(c, path[k - 1], path[k]);
    }
  }

  /** A continuation of a run that calls `Wait` next and ends when it has returned, with a message
      left over. */
  ghost predicate Betrays(c: Config, run: seq<State>, rest: seq<State>)
    requires c.Valid() && IsRun(c, run) && run[|run| - 1].waiter == WaitIdle
  {
    && IsRun(c, run + rest) && rest != []
    && |run[|run| - 1].slots| == c.size && rest[0] == Do(c, run[|run| - 1], CallWait)
    && LeftOver(rest[|rest| - 1])
  }

  lemma BetrayedOnlyByLatePush(c: Config, run: seq<State>, rest: seq<State>)
    requires c.Valid() && IsRun(c, run) && run[|run| - 1].waiter == WaitIdle && Betrays(c, run, rest)
    ensures run[|run| - 1].pusher.PushNumber?
  {
    var all := run + rest;
    forall i, j | 0 <= i && j == i + 1 < |rest| ensures Next(c, rest[i], rest[j]) {
      assert all[|run| + i] == rest[i] && all[|run| + j] == rest[j];
      assert Next(c, all[|run| + i], all[|run| + j]);
    }
    LateStays(c, rest, |rest| - 1);
    assert all[|all| - 1] == rest[|rest| - 1];
    if !rest[0].late {
      WaitMeansTaken(c, all, |all| - 1);
    }
  }

  lemma LatePushBetrays(c: Config, run: seq<State>) returns (rest: seq<State>)
    requires c.Valid() && IsRun(c, run) && run[|run| - 1].waiter == WaitIdle && run[|run| - 1].pusher.PushNumber?
    ensures Betrays(c, run, rest)
  {
    RunsKeepInv(c, run, |run| - 1);
    var path := LatePushCanBeLeftOver(c, run[|run| - 1]);
    rest := path[1..];
    Join(c, run, path);
  }

  /** In every run, calling `Wait` is certain to return only after every message was taken, if and
      only if no push is between its test of `done` and its numbering. */
  lemma WaitIsSafeIff(c: Config, run: seq<State>)
    requires c.Valid() && IsRun(c, run) && run[|run| - 1].waiter == WaitIdle
    ensures !run[|run| - 1].pusher.PushNumber? <==> forall rest :: !Betrays(c, run, rest)
  {
    if run[|run| - 1].pusher.PushNumber? {
      var rest := LatePushBetrays(c, run);
    } else if rest :| Betrays(c, run, rest) {
      BetrayedOnlyByLatePush(c, run, rest);
    }
  }
}
