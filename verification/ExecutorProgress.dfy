/** Progress of `core/executors/periodicalexecutor.go`: from every reachable state the goroutines can
    come to rest by themselves. A measure falls with every step that is well chosen: first the
    work that is left, then the distance of the idle flusher from its next stop. */
module ExecutorProgress {
  import opened Options
  import opened PeriodicalExecution

  /** The background flusher going round its loop without a batch. */
  predicate Cycling(pc: Pc) {
    match pc
    case FlushEnter(who) => who == Tick
    case FlushLock(who) => who == Tick
    case FlushRemove(who) => who == Tick
    case FlushUnlock(who, _) => who == Tick
    case FlushExecute(who, _) => who == Tick
    case FlushDone(who, _) => who == Tick
    case BgQuitUnlock(stop) => !stop
    case _ => pc.BgLoop? || pc.BgQuitLock? || pc.BgQuitCheck?
  }

  /** An upper bound on the steps a goroutine has before it, going round its loop aside; whoever
      spawns a flusher carries its share. */
  function Work(pc: Pc): (r: int) {
    if Cycling(pc) then 8
    else
      match pc
      case AddLock(_) => 23
      case AddInsert(_) => 22
      case AddCount => 21
      case AddExtract => 20
      case AddGuard(_) => 19
      case AddUnlock(_, _) => 18
      case AddSpawn(_) => 17
      case AddSend(_) => 8
      case AddConfirm => 1
      case BgCount(_) => 13
      case BgEnter(_) => 12
      case BgConfirm(_) => 11
      case BgExecute(_) => 10
      case BgDone => 9
      case BgQuitUnlock(_) => 7
      case FlushEnter(_) => 6
      case FlushLock(_) => 5
      case FlushRemove(_) => 4
      case FlushUnlock(_, _) => 3
      case FlushExecute(_, _) => 2
      case FlushDone(_, _) => 1
      case _ => 0
  }

  const QUEUED := 6

  ghost function Load(s: State): (r: nat) {
    SumNonNegative(s.threads, Work);
    Sum(s.threads, Work) + QUEUED * |s.mem.commander|
  }

  /** Nothing is left but an idle flusher. */
  ghost predicate Quiet(s: State) {
    Load(s) == 8
  }

  /** While others are at work, the flusher heads for the top of its loop. */
  function BusyRank(pc: Pc): (r: int) {
    if !Cycling(pc) then 0
    else
      match pc
      case FlushEnter(_) => 9
      case FlushLock(_) => 8
      case FlushRemove(_) => 7
      case FlushUnlock(_, _) => 6
      case FlushExecute(_, _) => 5
      case FlushDone(_, _) => 4
      case BgQuitLock => 3
      case BgQuitCheck => 2
      case BgQuitUnlock(_) => 1
      case _ => 0
  }

  /** When all is quiet, it heads for the exit, once more round the loop if it flushed tasks. */
  function QuietRank(pc: Pc): (r: int) {
    if !Cycling(pc) then 0
    else
      match pc
      case FlushUnlock(_, vals) => if vals != [] then 14 else 5
      case FlushExecute(_, vals) => if vals != [] then 13 else 4
      case FlushDone(_, ok) => if ok then 12 else 3
      case BgQuitUnlock(_) => 11
      case BgLoop(commanded) => if commanded then 10 else 9
      case FlushEnter(_) => 8
      case FlushLock(_) => 7
      case FlushRemove(_) => 6
      case BgQuitLock => 2
      case BgQuitCheck => 1
      case _ => 0
  }

  function Waiting(m: Shared): (r: int) {
    if m.container != [] then 20 else 0
  }

  ghost function Rank(s: State): (r: nat) {
    SumNonNegative(s.threads, BusyRank);
    SumNonNegative(s.threads, QuietRank);
    if Quiet(s) then Sum(s.threads, QuietRank) + Waiting(s.mem) else Sum(s.threads, BusyRank)
  }

  /** The measure falls from `s` to `s'`. */
  ghost predicate Descends(s: State, s': State) {
    Load(s') < Load(s) || (Load(s') == Load(s) && Rank(s') < Rank(s))
  }

  /** How to use the freedom of a step: tick and give up only when all is quiet, and let an empty
      batch count as nothing to do. */
  predicate Sensible(pc: Pc, choice: bool, quiet: bool) {
    match pc
    case BgLoop(_) => choice || quiet
    case FlushExecute(_, vals) => choice == (vals != [])
    case FlushDone(who, _) => who == Tick ==> choice == quiet
    case _ => true
  }

  // ---- One action ----

  lemma ActLoad(m: Shared, me: nat, pc: Pc, choice: bool)
    requires Ready(m, pc, choice) && |m.commander| <= COMMANDER_CAPACITY
    ensures var (m', pc') := Act(m, me, pc, choice);
            var change := Delta(Work, pc, pc', pc.AddSpawn?) + QUEUED * (|m'.commander| - |m.commander|);
            change < 0 || (change == 0 && Cycling(pc) && Cycling(pc'))
  {
  }

  lemma ActRank(m: Shared, me: nat, pc: Pc, choice: bool, quiet: bool)
    requires Ready(m, pc, choice) && Sensible(pc, choice, quiet) && Cycling(pc)
    requires quiet && pc.BgQuitCheck? ==> m.inflight == 0
    ensures var (m', pc') := Act(m, me, pc, choice);
            Cycling(pc') ==>
              && (!quiet ==> BusyRank(pc') < BusyRank(pc))
              && (quiet ==> QuietRank(pc') + Waiting(m') < QuietRank(pc) + Waiting(m))
  {
  }

  // ---- One step ----

  /** When all is quiet, a flusher that is about to quit finds nothing in flight. */
  lemma QuietMeansNoneInflight(s: State, i: nat)
    requires Inv(s) && Quiet(s) && i < |s.threads| && s.threads[i].BgQuitCheck?
    ensures s.mem.inflight == 0
  {
    SumUpdate(s.threads, i, Finished, Work);
    SumUpdate(s.threads, i, Finished, Counted);
    var rest := s.threads[i := Finished];
    SumNonNegative(rest, Work);
    SumNonNegative(rest, Counted);
    SumLessEqual(rest, Counted, Work);
  }

  lemma RunDescends(s: State, i: nat, choice: bool)
    requires Inv(s) && Enabled(s, Run(i, choice)) && Sensible(s.threads[i], choice, Quiet(s))
    ensures Descends(s, Do(s, Run(i, choice)))
  {
    var pc := s.threads[i];
    var (m', pc') := Act(s.mem, i, pc, choice);
    var s' := Do(s, Run(i, choice));
    ActLoad(s.mem, i, pc, choice);
    SumMoved(s.threads, i, pc', pc.AddSpawn?, Work);
    if Load(s') == Load(s) {
      if Quiet(s) && pc.BgQuitCheck? {
        QuietMeansNoneInflight(s, i);
      }
      ActRank(s.mem, i, pc, choice, Quiet(s));
      SumMoved(s.threads, i, pc', pc.AddSpawn?, BusyRank);
      SumMoved(s.threads, i, pc', pc.AddSpawn?, QuietRank);
    }
  }

  lemma ConfirmDescends(s: State, f: nat, a: nat)
    requires Enabled(s, Confirm(f, a))
    ensures Descends(s, Do(s, Confirm(f, a)))
  {
    SumConfirm(s, f, a, Work, Sum(s.threads, Work) - 2);
  }

  /** A flusher that ticks although it could wait. */
  predicate IdleTick(s: State, step: Step) {
    step.Run? && step.thread < |s.threads| && s.threads[step.thread].BgLoop? && !step.choice
  }

  /** A step of the goroutines present, without new callers, that brings them closer to rest. */
  ghost predicate Advances(s: State, step: Step) {
    && Enabled(s, step) && (step.Run? || step.Confirm?)
    && Descends(s, Do(s, step)) && (IdleTick(s, step) ==> Quiet(s))
  }

  /** Goroutines that only wait for others. */
  predicate Blockable(pc: Pc) {
    pc.AddSend? || pc.AddConfirm? || pc.BgConfirm? || pc.BgLoop?
  }

  lemma HolderAdvances(s: State) returns (step: Step)
    requires Inv(s) && s.mem.lock.Some?
    ensures Advances(s, step)
  {
    step := Run(s.mem.lock.value, false);
    assert HoldsLock(s.threads[s.mem.lock.value]);
    RunDescends(s, s.mem.lock.value, false);
  }

  lemma UnblockedAdvances(s: State, i: nat) returns (step: Step)
    requires Inv(s) && s.mem.lock == None && i < |s.threads|
    requires !Blockable(s.threads[i]) && !s.threads[i].Finished?
    ensures Advances(s, step)
  {
    var pc := s.threads[i];
    var choice := if pc.FlushExecute? || pc.BgExecute? then pc.vals != [] else Quiet(s);
    step := Run(i, choice);
    RunDescends(s, i, choice);
  }

  /** Whoever serves the commander can advance while there is a batch in it. */
  lemma ServerAdvances(s: State) returns (step: Step)
    requires Inv(s) && s.mem.lock == None && |s.mem.commander| > 0
    ensures Advances(s, step)
  {
    UnservedIsGuarded(s, 0);
    var f := SumPositive(s.threads, Guarding);
    if s.threads[f].BgLoop? {
      step := Run(f, true);
      RunDescends(s, f, true);
    } else if s.threads[f].BgConfirm? {
      step := ConfirmerAdvances(s, f);
    } else {
      step := UnblockedAdvances(s, f);
    }
  }

  lemma ConfirmerAdvances(s: State, f: nat) returns (step: Step)
    requires Inv(s) && f < |s.threads| && s.threads[f].BgConfirm?
    ensures Advances(s, step)
  {
    SumBounds(s.threads, f, OwingConfirm);
    var a := SumPositive(s.threads, AwaitingConfirm);
    step := Confirm(f, a);
    ConfirmDescends(s, f, a);
  }

  /** An adder that waits to send or to be confirmed makes no one else wait for ever. */
  lemma AdderAdvances(s: State, i: nat) returns (step: Step)
    requires Inv(s) && s.mem.lock == None && i < |s.threads|
    requires s.threads[i].AddSend? || s.threads[i].AddConfirm?
    ensures Advances(s, step)
  {
    if |s.mem.commander| > 0 {
      step := ServerAdvances(s);
    } else if s.threads[i].AddSend? {
      step := Run(i, true);
      RunDescends(s, i, true);
    } else {
      SumBounds(s.threads, i, AwaitingConfirm);
      var f := SumPositive(s.threads, OwingConfirm);
      if s.threads[f].BgConfirm? {
        step := ConfirmerAdvances(s, f);
      } else {
        step := UnblockedAdvances(s, f);
      }
    }
  }

  lemma TwoWeights(threads: seq<Pc>, i: nat, j: nat, weight: Pc -> int)
    requires i < |threads| && j < |threads| && i != j && weight(Finished) == 0 && forall pc :: weight(pc) >= 0
    ensures Sum(threads, weight) >= weight(threads[i]) + weight(threads[j])
  {
    SumUpdate(threads, i, Finished, weight);
    SumBounds(threads[i := Finished], j, weight);
  }

  /** Someone other than an idle flusher has work left. */
  lemma OtherAtWork(s: State, f: nat) returns (i: nat)
    requires Inv(s) && !Quiet(s) && |s.mem.commander| == 0 && f < |s.threads| && s.threads[f].BgLoop?
    ensures i < |s.threads| && !s.threads[i].BgLoop? && !s.threads[i].BgConfirm? && !s.threads[i].Finished?
  {
    SumUpdate(s.threads, f, Finished, Work);
    SumNonNegative(s.threads[f := Finished], Work);
    i := SumPositive(s.threads[f := Finished], Work);
    TwoWeights(s.threads, f, i, Guarding);
  }

  /** As long as some goroutine is not finished, a step brings all of them closer to rest. */
  lemma SomeoneAdvances(s: State, i: nat) returns (step: Step)
    requires Inv(s) && i < |s.threads| && !s.threads[i].Finished?
    ensures Advances(s, step)
  {
    if s.mem.lock.Some? {
      step := HolderAdvances(s);
    } else if !Blockable(s.threads[i]) {
      step := UnblockedAdvances(s, i);
    } else if |s.mem.commander| > 0 {
      step := ServerAdvances(s);
    } else if s.threads[i].AddSend? || s.threads[i].AddConfirm? {
      step := AdderAdvances(s, i);
    } else if s.threads[i].BgConfirm? {
      step := ConfirmerAdvances(s, i);
    } else if Quiet(s) {
      step := Run(i, false);
      RunDescends(s, i, false);
    } else {
      var j := OtherAtWork(s, i);
      if s.threads[j].AddSend? || s.threads[j].AddConfirm? {
        step := AdderAdvances(s, j);
      } else {
        step := UnblockedAdvances(s, j);
      }
    }
  }

  // ---- Whole runs ----

  /** No deadlock on lock, commander or confirm channel: while some goroutine is neither finished
      nor an idle flusher, one of them can take a step other than an idle tick, and that step
      leaves less to do. */
  lemma NeverStuck(run: seq<State>, k: nat, i: nat) returns (step: Step)
    requires IsRun(run) && k < |run| && i < |run[k].threads|
    requires !run[k].threads[i].Finished? && !run[k].threads[i].BgLoop?
    ensures Enabled(run[k], step) && (step.Run? || step.Confirm?) && !IdleTick(run[k], step)
    ensures Descends(run[k], Do(run[k], step))
  {
    RunsKeepInv(run, k);
    step := SomeoneAdvances(run[k], i);
    if IdleTick(run[k], step) {
      TwoWeights(run[k].threads, i, step.thread, Work);
    }
  }

  /** A step of the goroutines present. */
  ghost predicate Unaided(s: State, s': State) {
    exists step: Step :: (step.Run? || step.Confirm?) && Enabled(s, step) && s' == Do(s, step)
  }

  ghost predicate IsUnaided(path: seq<State>) {
    forall i, j {:trigger Unaided(path[i], path[j])} | 0 <= i && j == i + 1 < |path| :: Unaided(path[i], path[j])
  }

  ghost predicate AtRest(s: State) {
    forall i | 0 <= i < |s.threads| :: s.threads[i].Finished?
  }

  lemma Prepend(s: State, path: seq<State>)
    requires path != [] && Unaided(s, path[0]) && IsUnaided(path)
    ensures IsUnaided([s] + path)
  {
    var all := [s] + path;
    forall i, j | 0 <= i && j == i + 1 < |all| ensures Unaided(all[i], all[j]) {
      if i > 0 {
        assert Unaided(path[i - 1], path[j - 1]);
      }
    }
  }

  lemma {:induction false} ComesToRest(s: State) returns (path: seq<State>)
    requires Inv(s)
    ensures path != [] && path[0] == s && IsUnaided(path) && AtRest(path[|path| - 1])
    decreases Load(s), Rank(s)
  {
    if AtRest(s) {
      path := [s];
    } else {
      var i :| 0 <= i < |s.threads| && !s.threads[i].Finished?;
      var step := SomeoneAdvances(s, i);
      var s' := Do(s, step);
      assert Unaided(s, s');
      StepKeepsInv(s, step);
      path := ComesToRest(s');
      Prepend(s, path);
      path := [s] + path;
    }
  }

  lemma {:induction false} UnaidedAddsNothing(path: seq<State>, k: nat)
    requires IsUnaided(path) && k < |path|
    ensures path[k].mem.added == path[0].mem.added
  {
    if k > 0 {
      UnaidedAddsNothing(path, k - 1);
      assert Unaided(path[k - 1], path[k]);
    }
  }

  lemma Continues(run: seq<State>, path: seq<State>)
    requires IsRun(run) && path != [] && IsUnaided(path) && path[0] == run[|run| - 1]
    ensures IsRun(run + path[1..])
  {
    var all := run + path[1..];
    forall i, j | 0 <= i && j == i + 1 < |all| ensures Next(all[i], all[j]) {
      if j < |run| {
        assert Next(run[i], run[j]);
      } else {
        var l := i - |run| + 1;
        assert all[i] == path[l] && all[j] == path[l + 1];
        assert Unaided(path[l], path[l + 1]);
      }
    }
  }

  /** From every reachable state the goroutines present can come to rest without new callers, and
      then everything that was added has been executed, exactly once. */
  lemma RestIsReachable(run: seq<State>) returns (path: seq<State>)
    requires IsRun(run)
    ensures path != [] && path[0] == run[|run| - 1] && IsUnaided(path) && IsRun(run + path[1..])
    ensures var s := path[|path| - 1];
            AtRest(s) && multiset(s.mem.executed) == multiset(run[|run| - 1].mem.added)
  {
    RunsKeepInv(run, |run| - 1);
    path := ComesToRest(run[|run| - 1]);
    Continues(run, path);
    UnaidedAddsNothing(path, |path| - 1);
    var all := run + path[1..];
    assert all[|all| - 1] == path[|path| - 1];
    QuiescentMeansExecuted(all, |all| - 1);
  }
}
