/** `core/executors/periodicalexecutor.go` as a state machine over every interleaving.

    A state holds the shared fields and one program counter per goroutine: callers of `Add` and
    `Flush`, and the background flushers they spawn. A step lets one goroutine perform its next
    atomic action (or two of them meet on the unbuffered confirm channel). What the code leaves
    open is a free choice of the step: whether the container reports itself full, which ready
    branch of `select` is taken, whether the idle time has elapsed, and what `hasTasks` says of
    an empty batch (false for a nil or empty slice, true for a type it does not know). */
module PeriodicalExecution {
  import opened Options

  /** Tasks are opaque to the executor; equal tasks may be added any number of times. */
  type Task = int
  type Batch = seq<Task>

  /** Who runs `Flush`: an outside caller, a tick of the background loop, or its deferred exit. */
  datatype Caller = External | Tick | Final

  /** What a goroutine does next. */
  datatype Pc =
      // Add and addAndCheck
    | AddLock(task: Task)
    | AddInsert(task: Task)                         // holds the lock, before container.AddTask
    | AddCount                                      // holds the lock, before inflight++
    | AddExtract                                    // holds the lock, before container.RemoveAll
    | AddGuard(batch: Option<Batch>)                // holds the lock, before testing guarded
    | AddUnlock(batch: Option<Batch>, spawn: bool)  // holds the lock
    | AddSpawn(batch: Option<Batch>)                // before starting the background flusher
    | AddSend(vals: Batch)                          // before sending on commander
    | AddConfirm                                    // waiting on confirmChan
      // Flush and executeTasks
    | FlushEnter(who: Caller)
    | FlushLock(who: Caller)
    | FlushRemove(who: Caller)                       // holds the lock, before container.RemoveAll
    | FlushUnlock(who: Caller, vals: Batch)          // holds the lock
    | FlushExecute(who: Caller, vals: Batch)
    | FlushDone(who: Caller, ok: bool)
      // backgroundFlush and shallQuit
    | BgLoop(commanded: bool)
    | BgCount(vals: Batch)                          // received, before inflight--
    | BgEnter(vals: Batch)
    | BgConfirm(vals: Batch)                        // before sending on confirmChan
    | BgExecute(vals: Batch)
    | BgDone
    | BgQuitLock
    | BgQuitCheck                                   // holds the lock, before testing inflight
    | BgQuitUnlock(stop: bool)                      // holds the lock
    | Finished

  /** The executor's fields, and what was handed to `Add` and to `Execute` so far. */
  datatype Shared = Shared(
    container: Batch,
    commander: seq<Batch>,
    inflight: int,
    guarded: bool,
    lock: Option<nat>,
    waitGroup: int,
    added: Batch,
    executed: Batch)

  datatype State = State(mem: Shared, threads: seq<Pc>)

  const COMMANDER_CAPACITY := 1

  function Init(): (s: State) {
    State(Shared([], [], 0, false, None, 0, [], []), [])
  }

  datatype Step =
    | CallAdd(task: Task)
    | CallFlush
    | Run(thread: nat, choice: bool)
    | Confirm(flusher: nat, adder: nat)

  /** Whether a goroutine at this point can move, given the shared state. */
  predicate Ready(m: Shared, pc: Pc, choice: bool) {
    match pc
    case AddLock(_) => m.lock == None
    case FlushLock(_) => m.lock == None
    case BgQuitLock => m.lock == None
    case AddSend(_) => |m.commander| < COMMANDER_CAPACITY
    case BgLoop(_) => choice ==> |m.commander| > 0
    case FlushExecute(_, vals) => |vals| > 0 ==> choice
    case BgExecute(vals) => |vals| > 0 ==> choice
    case AddConfirm => false
    case BgConfirm(_) => false
    case Finished => false
    case _ => true
  }

  function AfterAdd(batch: Option<Batch>): (pc: Pc) {
    if batch.Some? then AddSend(batch.value) else Finished
  }

  /** Where `Flush` returns to; `elapsed` is the idle test of `shallQuit`. */
  function AfterFlush(who: Caller, ok: bool, elapsed: bool): (pc: Pc) {
    if who == Tick then (if !ok && elapsed then BgQuitLock else BgLoop(false)) else Finished
  }

  /** The next atomic action of goroutine `me`: the new shared state and its new position. */
  function Act(m: Shared, me: nat, pc: Pc, choice: bool): (r: (Shared, Pc))
    requires Ready(m, pc, choice)
  {
    match pc
    case AddLock(task) => (m.(lock := Some(me)), AddInsert(task))
    case AddInsert(task) => (m.(container := m.container + [task]), if choice then AddCount else AddGuard(None))
    case AddCount => (m.(inflight := m.inflight + 1), AddExtract)
    case AddExtract => (m.(container := []), AddGuard(Some(m.container)))
    case AddGuard(batch) => (m.(guarded := true), AddUnlock(batch, !m.guarded))
    case AddUnlock(batch, spawn) => (m.(lock := None), if spawn then AddSpawn(batch) else AfterAdd(batch))
    case AddSpawn(batch) => (m, AfterAdd(batch))
    case AddSend(vals) => (m.(commander := m.commander + [vals]), AddConfirm)
    case FlushEnter(who) => (m.(waitGroup := m.waitGroup + 1), FlushLock(who))
    case FlushLock(who) => (m.(lock := Some(me)), FlushRemove(who))
    case FlushRemove(who) => (m.(container := []), FlushUnlock(who, m.container))
    case FlushUnlock(who, vals) => (m.(lock := None), FlushExecute(who, vals))
    case FlushExecute(who, vals) =>
      (if choice then m.(executed := m.executed + vals) else m, FlushDone(who, choice))
    case FlushDone(who, ok) => (m.(waitGroup := m.waitGroup - 1), AfterFlush(who, ok, choice))
    case BgLoop(commanded) =>
      if choice then (m.(commander := m.commander[1..]), BgCount(m.commander[0]))
      else (m, if commanded then BgLoop(false) else FlushEnter(Tick))
    case BgCount(vals) => (m.(inflight := m.inflight - 1), BgEnter(vals))
    case BgEnter(vals) => (m.(waitGroup := m.waitGroup + 1), BgConfirm(vals))
    case BgExecute(vals) => (if choice then m.(executed := m.executed + vals) else m, BgDone)
    case BgDone => (m.(waitGroup := m.waitGroup - 1), BgLoop(true))
    case BgQuitLock => (m.(lock := Some(me)), BgQuitCheck)
    case BgQuitCheck =>
      if m.inflight == 0 then (m.(guarded := false), BgQuitUnlock(true)) else (m, BgQuitUnlock(false))
    case BgQuitUnlock(stop) => (m.(lock := None), if stop then FlushEnter(Final) else BgLoop(false))
  }

  predicate Enabled(s: State, step: Step) {
    match step
    case CallAdd(_) => true
    case CallFlush => true
    case Run(i, choice) => i < |s.threads| && Ready(s.mem, s.threads[i], choice)
    case Confirm(f, a) =>
      f < |s.threads| && a < |s.threads| && s.threads[f].BgConfirm? && s.threads[a].AddConfirm?
  }

  /** Goroutine `i` moves to `pc`; `spawn` also starts a background flusher. */
  function Moved(threads: seq<Pc>, i: nat, pc: Pc, spawn: bool): (r: seq<Pc>)
    requires i < |threads|
  {
    threads[i := pc] + if spawn then [BgLoop(false)] else []
  }

  function Do(s: State, step: Step): (s': State)
    requires Enabled(s, step)
  {
    match step
    case CallAdd(task) => State(s.mem.(added := s.mem.added + [task]), s.threads + [AddLock(task)])
    case CallFlush => State(s.mem, s.threads + [FlushEnter(External)])
    case Run(i, choice) =>
      var (m, pc) := Act(s.mem, i, s.threads[i], choice);
      State(m, Moved(s.threads, i, pc, s.threads[i].AddSpawn?))
    case Confirm(f, a) => State(s.mem, s.threads[f := BgExecute(s.threads[f].vals)][a := Finished])
  }

  ghost predicate Next(s: State, s': State) {
    exists step :: Enabled(s, step) && s' == Do(s, step)
  }

  /** A finite run: states linked by enabled steps, from the initial one. */
  ghost predicate IsRun(run: seq<State>) {
    && |run| > 0 && run[0] == Init()
    && forall i, j {:trigger Next(run[i], run[j])} | 0 <= i && j == i + 1 < |run| :: Next(run[i], run[j])
  }

  // ---- Counting goroutines ----

  ghost function Sum(threads: seq<Pc>, weight: Pc -> int): (r: int) {
    if threads == [] then 0 else Sum(threads[..|threads| - 1], weight) + weight(threads[|threads| - 1])
  }

  lemma {:induction false} SumUpdate(threads: seq<Pc>, i: nat, pc: Pc, weight: Pc -> int)
    requires i < |threads|
    ensures Sum(threads[i := pc], weight) == Sum(threads, weight) - weight(threads[i]) + weight(pc)
  {
    var n := |threads| - 1;
    if i < n {
      SumUpdate(threads[..n], i, pc, weight);
      assert threads[i := pc][..n] == threads[..n][i := pc];
    } else {
      assert threads[i := pc][..n] == threads[..n];
    }
  }

  lemma SumAppend(threads: seq<Pc>, pc: Pc, weight: Pc -> int)
    ensures Sum(threads + [pc], weight) == Sum(threads, weight) + weight(pc)
  {
    assert (threads + [pc])[..|threads|] == threads;
  }

  lemma {:induction false} SumBounds(threads: seq<Pc>, i: nat, weight: Pc -> int)
    requires i < |threads| && forall pc :: weight(pc) >= 0
    ensures Sum(threads, weight) >= weight(threads[i])
  {
    var n := |threads| - 1;
    SumNonNegative(threads[..n], weight);
    if i < n {
      SumBounds(threads[..n], i, weight);
    }
  }

  lemma {:induction false} SumNonNegative(threads: seq<Pc>, weight: Pc -> int)
    requires forall pc :: weight(pc) >= 0
    ensures Sum(threads, weight) >= 0
  {
    if threads != [] {
      SumNonNegative(threads[..|threads| - 1], weight);
    }
  }

  lemma {:induction false} SumLessEqual(threads: seq<Pc>, small: Pc -> int, large: Pc -> int)
    requires forall pc :: small(pc) <= large(pc)
    ensures Sum(threads, small) <= Sum(threads, large)
  {
    if threads != [] {
      SumLessEqual(threads[..|threads| - 1], small, large);
    }
  }

  /** How much moving from `pc` to `pc'` adds to a sum. */
  ghost function Delta(weight: Pc -> int, pc: Pc, pc': Pc, spawn: bool): (r: int) {
    weight(pc') - weight(pc) + if spawn then weight(BgLoop(false)) else 0
  }

  lemma SumMoved(threads: seq<Pc>, i: nat, pc: Pc, spawn: bool, weight: Pc -> int)
    requires i < |threads|
    ensures Sum(Moved(threads, i, pc, spawn), weight) == Sum(threads, weight) + Delta(weight, threads[i], pc, spawn)
  {
    SumUpdate(threads, i, pc, weight);
    if spawn {
      SumAppend(threads[i := pc], BgLoop(false), weight);
    } else {
      assert Moved(threads, i, pc, spawn) == threads[i := pc];
    }
  }

  // ---- What the counts mean ----

  function Indicator(b: bool): (r: int) {
    if b then 1 else 0
  }

  predicate HoldsLock(pc: Pc) {
    || pc.AddInsert? || pc.AddCount? || pc.AddExtract? || pc.AddGuard? || pc.AddUnlock?
    || pc.FlushRemove? || pc.FlushUnlock? || pc.BgQuitCheck? || pc.BgQuitUnlock?
  }

  /** A batch is extracted, or about to be, and counted in `inflight`. */
  function Counted(pc: Pc): (r: int) {
    match pc
    case AddExtract => 1
    case AddGuard(batch) => Indicator(batch.Some?)
    case AddUnlock(batch, _) => Indicator(batch.Some?)
    case AddSpawn(batch) => Indicator(batch.Some?)
    case AddSend(_) => 1
    case BgCount(_) => 1
    case _ => 0
  }

  /** Like `Counted`, but past the test of `guarded`. */
  function CountedPastGuard(pc: Pc): (r: int) {
    if pc.AddExtract? || pc.AddGuard? then 0 else Counted(pc)
  }

  /** The background flusher that `guarded` stands for: running, or about to be spawned. */
  function Guarding(pc: Pc): (r: int) {
    match pc
    case AddUnlock(_, spawn) => Indicator(spawn)
    case AddSpawn(_) => 1
    case FlushEnter(who) => Indicator(who == Tick)
    case FlushLock(who) => Indicator(who == Tick)
    case FlushRemove(who) => Indicator(who == Tick)
    case FlushUnlock(who, _) => Indicator(who == Tick)
    case FlushExecute(who, _) => Indicator(who == Tick)
    case FlushDone(who, _) => Indicator(who == Tick)
    case BgQuitUnlock(stop) => Indicator(!stop)
    case _ => Indicator(pc.BgLoop? || pc.BgCount? || pc.BgEnter? || pc.BgConfirm? || pc.BgExecute?
                        || pc.BgDone? || pc.BgQuitLock? || pc.BgQuitCheck?)
  }

  /** Will see to the container although no flusher is guarding: an adder about to test
      `guarded`, or a quitting flusher whose final `Flush` has not removed the tasks yet. */
  function Rescuing(pc: Pc): (r: int) {
    match pc
    case FlushEnter(who) => Indicator(who == Final)
    case FlushLock(who) => Indicator(who == Final)
    case FlushRemove(who) => Indicator(who == Final)
    case BgQuitUnlock(stop) => Indicator(stop)
    case _ => Indicator(pc.AddCount? || pc.AddExtract? || pc.AddGuard?)
  }

  function AwaitingConfirm(pc: Pc): (r: int) {
    Indicator(pc.AddConfirm?)
  }

  function OwingConfirm(pc: Pc): (r: int) {
    Indicator(pc.BgCount? || pc.BgEnter? || pc.BgConfirm?)
  }

  /** Between `enterExecution` and `doneExecution`. */
  function Executing(pc: Pc): (r: int) {
    Indicator(pc.FlushLock? || pc.FlushRemove? || pc.FlushUnlock? || pc.FlushExecute? || pc.FlushDone?
              || pc.BgConfirm? || pc.BgExecute? || pc.BgDone?)
  }

  function Count(batch: Batch, task: Task): (r: int)
    ensures r >= 0
  {
    if batch == [] then 0 else Indicator(batch[0] == task) + Count(batch[1..], task)
  }

  lemma {:induction false} CountConcat(a: Batch, b: Batch, task: Task)
    ensures Count(a + b, task) == Count(a, task) + Count(b, task)
  {
    if a == [] {
      assert a + b == b;
    } else {
      assert (a + b)[1..] == a[1..] + b;
      CountConcat(a[1..], b, task);
    }
  }

  lemma {:induction false} CountIsMultiplicity(batch: Batch, task: Task)
    ensures multiset(batch)[task] == Count(batch, task)
  {
    if batch != [] {
      assert batch == [batch[0]] + batch[1..];
      CountIsMultiplicity(batch[1..], task);
    }
  }

  function CountBatch(batch: Option<Batch>, task: Task): (r: int) {
    if batch.Some? then Count(batch.value, task) else 0
  }

  /** How many copies of `task` a goroutine carries. */
  function Carried(pc: Pc, task: Task): (r: int) {
    match pc
    case AddLock(t) => Indicator(t == task)
    case AddInsert(t) => Indicator(t == task)
    case AddGuard(batch) => CountBatch(batch, task)
    case AddUnlock(batch, _) => CountBatch(batch, task)
    case AddSpawn(batch) => CountBatch(batch, task)
    case AddSend(vals) => Count(vals, task)
    case FlushUnlock(_, vals) => Count(vals, task)
    case FlushExecute(_, vals) => Count(vals, task)
    case BgCount(vals) => Count(vals, task)
    case BgEnter(vals) => Count(vals, task)
    case BgConfirm(vals) => Count(vals, task)
    case BgExecute(vals) => Count(vals, task)
    case _ => 0
  }

  function CountQueued(commander: seq<Batch>, task: Task): (r: int) {
    if commander == [] then 0 else Count(commander[0], task) + CountQueued(commander[1..], task)
  }

  lemma {:induction false} CountQueuedAppend(commander: seq<Batch>, vals: Batch, task: Task)
    ensures CountQueued(commander + [vals], task) == CountQueued(commander, task) + Count(vals, task)
  {
    if commander == [] {
      assert [vals][1..] == [] && commander + [vals] == [vals];
    } else {
      assert (commander + [vals])[1..] == commander[1..] + [vals];
      CountQueuedAppend(commander[1..], vals, task);
    }
  }

  ghost function Copies(task: Task): (weight: Pc -> int) {
    (pc: Pc) => Carried(pc, task)
  }

  // ---- The invariant ----

  ghost predicate LockInv(s: State) {
    && (s.mem.lock.Some? ==> s.mem.lock.value < |s.threads|)
    && forall i | 0 <= i < |s.threads| :: HoldsLock(s.threads[i]) <==> s.mem.lock == Some(i)
  }

  /** The copies of `task` waiting in the container or the channel, or executed. */
  ghost function Placed(m: Shared, task: Task): (r: int) {
    Count(m.container, task) + CountQueued(m.commander, task) + Count(m.executed, task)
  }

  /** Every copy of every task handed to `Add` is in exactly one place. */
  ghost predicate Conserved(s: State) {
    forall task :: Count(s.mem.added, task) == Placed(s.mem, task) + Sum(s.threads, Copies(task))
  }

  ghost predicate CountsInv(s: State) {
    && |s.mem.commander| <= COMMANDER_CAPACITY
    && s.mem.inflight == |s.mem.commander| + Sum(s.threads, Counted)
    && Indicator(s.mem.guarded) == Sum(s.threads, Guarding)
    && |s.mem.commander| + Sum(s.threads, OwingConfirm) == Sum(s.threads, AwaitingConfirm)
    && s.mem.waitGroup == Sum(s.threads, Executing)
  }

  /** `past` and `rescuing` stand for the sums of `CountedPastGuard` and `Rescuing`. */
  ghost predicate NoneStranded(m: Shared, past: int, rescuing: int) {
    && (!m.guarded ==> |m.commander| + past == 0)
    && (m.container != [] && !m.guarded ==> rescuing > 0)
  }

  ghost predicate NotStranded(s: State) {
    NoneStranded(s.mem, Sum(s.threads, CountedPastGuard), Sum(s.threads, Rescuing))
  }

  ghost predicate Inv(s: State) {
    LockInv(s) && CountsInv(s) && NotStranded(s) && Conserved(s)
  }

  // ---- One action, seen from the shared state ----

  lemma ActLock(m: Shared, me: nat, pc: Pc, choice: bool)
    requires Ready(m, pc, choice) && (HoldsLock(pc) <==> m.lock == Some(me))
    ensures var (m', pc') := Act(m, me, pc, choice);
            && (HoldsLock(pc') <==> m'.lock == Some(me))
            && (m'.lock == m.lock || m'.lock == Some(me) || (m.lock == Some(me) && m'.lock == None))
            && (m'.lock == Some(me) ==> m.lock == None || m.lock == Some(me))
  {
  }

  lemma ActInflight(m: Shared, me: nat, pc: Pc, choice: bool)
    requires Ready(m, pc, choice) && |m.commander| <= COMMANDER_CAPACITY
    ensures var (m', pc') := Act(m, me, pc, choice);
            && |m'.commander| <= COMMANDER_CAPACITY
            && m'.inflight - m.inflight == |m'.commander| - |m.commander| + Delta(Counted, pc, pc', pc.AddSpawn?)
  {
  }

  lemma ActGuarded(m: Shared, me: nat, pc: Pc, choice: bool)
    requires Ready(m, pc, choice) && Guarding(pc) <= Indicator(m.guarded)
    ensures var (m', pc') := Act(m, me, pc, choice);
            Indicator(m'.guarded) - Indicator(m.guarded) == Delta(Guarding, pc, pc', pc.AddSpawn?)
  {
    if pc.AddGuard? || pc.BgQuitCheck? {
      assert Act(m, me, pc, choice).0.guarded == (pc.AddGuard? || (m.guarded && m.inflight != 0));
    } else {
      assert Act(m, me, pc, choice).0.guarded == m.guarded;
    }
  }

  lemma ActConfirm(m: Shared, me: nat, pc: Pc, choice: bool)
    requires Ready(m, pc, choice)
    ensures var (m', pc') := Act(m, me, pc, choice);
            |m'.commander| - |m.commander| + Delta(OwingConfirm, pc, pc', pc.AddSpawn?)
            == Delta(AwaitingConfirm, pc, pc', pc.AddSpawn?)
  {
  }

  lemma ActWaitGroup(m: Shared, me: nat, pc: Pc, choice: bool)
    requires Ready(m, pc, choice)
    ensures var (m', pc') := Act(m, me, pc, choice);
            m'.waitGroup - m.waitGroup == Delta(Executing, pc, pc', pc.AddSpawn?)
  {
  }

  /** The actions that move tasks between the container, the channel and goroutines. */
  predicate MovesTasks(pc: Pc) {
    pc.AddInsert? || pc.AddExtract? || pc.AddSend? || pc.FlushRemove? || pc.BgLoop?
  }

  lemma ActKeepsTasks(m: Shared, me: nat, pc: Pc, choice: bool, task: Task)
    requires Ready(m, pc, choice) && !MovesTasks(pc) && !pc.FlushExecute? && !pc.BgExecute?
    ensures var (m', pc') := Act(m, me, pc, choice);
            && m'.added == m.added && m'.container == m.container
            && m'.commander == m.commander && m'.executed == m.executed
            && Carried(pc', task) == Carried(pc, task)
  {
  }

  lemma ActMovesTasks(m: Shared, me: nat, pc: Pc, choice: bool, task: Task)
    requires Ready(m, pc, choice) && MovesTasks(pc) && |m.commander| <= COMMANDER_CAPACITY
    ensures var (m', pc') := Act(m, me, pc, choice);
            m'.added == m.added && Placed(m', task) + Carried(pc', task) == Placed(m, task) + Carried(pc, task)
  {
    var (m', pc') := Act(m, me, pc, choice);
    match pc {
      case AddInsert(t) =>
        CountConcat(m.container, [t], task);
      case AddSend(vals) =>
        CountQueuedAppend(m.commander, vals, task);
      case BgLoop(_) =>
        assert CountQueued(m'.commander, task) + Carried(pc', task) == CountQueued(m.commander, task);
      case _ =>
    }
  }

  lemma ActExecutes(m: Shared, me: nat, pc: Pc, choice: bool, task: Task)
    requires Ready(m, pc, choice) && (pc.FlushExecute? || pc.BgExecute?)
    ensures var (m', pc') := Act(m, me, pc, choice);
            m'.added == m.added && Placed(m', task) + Carried(pc', task) == Placed(m, task) + Carried(pc, task)
  {
    CountConcat(m.executed, pc.vals, task);
  }

  lemma ActStrandsNone(m: Shared, me: nat, pc: Pc, choice: bool, past: int, rescuing: int)
    requires Ready(m, pc, choice) && NoneStranded(m, past, rescuing)
    requires CountedPastGuard(pc) <= past && Rescuing(pc) <= rescuing
    requires Guarding(pc) <= Indicator(m.guarded) && |m.commander| + past <= m.inflight
    ensures var (m', pc') := Act(m, me, pc, choice);
            NoneStranded(m', past + Delta(CountedPastGuard, pc, pc', pc.AddSpawn?),
                         rescuing + Delta(Rescuing, pc, pc', pc.AddSpawn?))
  {
  }

  // ---- Every step keeps the invariant ----

  /** The effect of one action on the counts, as the `Act` lemmas establish it. */
  ghost predicate CountsMove(m: Shared, m': Shared, pc: Pc, pc': Pc, spawn: bool) {
    && |m'.commander| <= COMMANDER_CAPACITY
    && m'.inflight - m.inflight == |m'.commander| - |m.commander| + Delta(Counted, pc, pc', spawn)
    && Indicator(m'.guarded) - Indicator(m.guarded) == Delta(Guarding, pc, pc', spawn)
    && |m'.commander| - |m.commander| + Delta(OwingConfirm, pc, pc', spawn) == Delta(AwaitingConfirm, pc, pc', spawn)
    && m'.waitGroup - m.waitGroup == Delta(Executing, pc, pc', spawn)
  }

  lemma MoveKeepsCounts(s: State, i: nat, m': Shared, pc': Pc, spawn: bool)
    requires CountsInv(s) && i < |s.threads| && CountsMove(s.mem, m', s.threads[i], pc', spawn)
    ensures CountsInv(State(m', Moved(s.threads, i, pc', spawn)))
  {
    SumMoved(s.threads, i, pc', spawn, Counted);
    SumMoved(s.threads, i, pc', spawn, Guarding);
    SumMoved(s.threads, i, pc', spawn, OwingConfirm);
    SumMoved(s.threads, i, pc', spawn, AwaitingConfirm);
    SumMoved(s.threads, i, pc', spawn, Executing);
  }

  lemma MoveKeepsNotStranded(s: State, i: nat, m': Shared, pc': Pc, spawn: bool)
    requires i < |s.threads|
    requires NoneStranded(m', Sum(s.threads, CountedPastGuard) + Delta(CountedPastGuard, s.threads[i], pc', spawn),
                          Sum(s.threads, Rescuing) + Delta(Rescuing, s.threads[i], pc', spawn))
    ensures NotStranded(State(m', Moved(s.threads, i, pc', spawn)))
  {
    SumMoved(s.threads, i, pc', spawn, CountedPastGuard);
    SumMoved(s.threads, i, pc', spawn, Rescuing);
  }

  lemma MoveConserves(s: State, i: nat, m': Shared, pc': Pc, spawn: bool)
    requires Conserved(s) && i < |s.threads| && m'.added == s.mem.added
    requires forall task ::
               Placed(m', task) + Carried(pc', task) == Placed(s.mem, task) + Carried(s.threads[i], task)
    ensures Conserved(State(m', Moved(s.threads, i, pc', spawn)))
  {
    forall task ensures Count(m'.added, task) == Placed(m', task) + Sum(Moved(s.threads, i, pc', spawn), Copies(task)) {
      SumMoved(s.threads, i, pc', spawn, Copies(task));
    }
  }

  lemma MoveKeepsLock(s: State, i: nat, m': Shared, pc': Pc, spawn: bool)
    requires LockInv(s) && i < |s.threads|
    requires HoldsLock(pc') <==> m'.lock == Some(i)
    requires m'.lock == s.mem.lock || m'.lock == Some(i) || (s.mem.lock == Some(i) && m'.lock == None)
    requires m'.lock == Some(i) ==> s.mem.lock == None || s.mem.lock == Some(i)
    ensures LockInv(State(m', Moved(s.threads, i, pc', spawn)))
  {
  }

  lemma RunKeepsCounts(s: State, i: nat, choice: bool)
    requires Inv(s) && Enabled(s, Run(i, choice))
    ensures CountsInv(Do(s, Run(i, choice)))
  {
    var pc := s.threads[i];
    var (m', pc') := Act(s.mem, i, pc, choice);
    SumBounds(s.threads, i, Guarding);
    ActInflight(s.mem, i, pc, choice);
    ActGuarded(s.mem, i, pc, choice);
    ActConfirm(s.mem, i, pc, choice);
    ActWaitGroup(s.mem, i, pc, choice);
    MoveKeepsCounts(s, i, m', pc', pc.AddSpawn?);
  }

  lemma RunKeepsNotStranded(s: State, i: nat, choice: bool)
    requires Inv(s) && Enabled(s, Run(i, choice))
    ensures NotStranded(Do(s, Run(i, choice)))
  {
    var pc := s.threads[i];
    var (m', pc') := Act(s.mem, i, pc, choice);
    SumBounds(s.threads, i, Guarding);
    SumBounds(s.threads, i, CountedPastGuard);
    SumBounds(s.threads, i, Rescuing);
    SumLessEqual(s.threads, CountedPastGuard, Counted);
    ActStrandsNone(s.mem, i, pc, choice, Sum(s.threads, CountedPastGuard), Sum(s.threads, Rescuing));
    MoveKeepsNotStranded(s, i, m', pc', pc.AddSpawn?);
  }

  lemma RunKeepsLock(s: State, i: nat, choice: bool)
    requires Inv(s) && Enabled(s, Run(i, choice))
    ensures LockInv(Do(s, Run(i, choice)))
  {
    var (m', pc') := Act(s.mem, i, s.threads[i], choice);
    ActLock(s.mem, i, s.threads[i], choice);
    MoveKeepsLock(s, i, m', pc', s.threads[i].AddSpawn?);
  }

  lemma RunConserves(s: State, i: nat, choice: bool)
    requires Inv(s) && Enabled(s, Run(i, choice))
    ensures Conserved(Do(s, Run(i, choice)))
  {
    var pc := s.threads[i];
    var (m', pc') := Act(s.mem, i, pc, choice);
    forall task
      ensures m'.added == s.mem.added
      ensures Placed(m', task) + Carried(pc', task) == Placed(s.mem, task) + Carried(pc, task)
    {
      if MovesTasks(pc) {
        ActMovesTasks(s.mem, i, pc, choice, task);
      } else if pc.FlushExecute? || pc.BgExecute? {
        ActExecutes(s.mem, i, pc, choice, task);
      } else {
        ActKeepsTasks(s.mem, i, pc, choice, task);
      }
    }
    MoveConserves(s, i, m', pc', pc.AddSpawn?);
  }

  /** A goroutine that has not touched the shared state yet. */
  ghost predicate Arriving(pc: Pc) {
    && !HoldsLock(pc) && Counted(pc) == 0 && Guarding(pc) == 0 && OwingConfirm(pc) == 0
    && AwaitingConfirm(pc) == 0 && Executing(pc) == 0 && CountedPastGuard(pc) == 0 && Rescuing(pc) == 0
  }

  /** A new caller arrives, carrying the task it wants to add, if any. */
  lemma ArrivalKeepsInv(s: State, added: Batch, pc: Pc)
    requires Inv(s) && Arriving(pc)
    requires forall task :: Count(added, task) == Count(s.mem.added, task) + Carried(pc, task)
    ensures Inv(State(s.mem.(added := added), s.threads + [pc]))
  {
    SumAppend(s.threads, pc, Counted);
    SumAppend(s.threads, pc, Guarding);
    SumAppend(s.threads, pc, OwingConfirm);
    SumAppend(s.threads, pc, AwaitingConfirm);
    SumAppend(s.threads, pc, Executing);
    SumAppend(s.threads, pc, CountedPastGuard);
    SumAppend(s.threads, pc, Rescuing);
    forall task ensures Count(added, task) == Placed(s.mem, task) + Sum(s.threads + [pc], Copies(task)) {
      SumAppend(s.threads, pc, Copies(task));
    }
  }

  lemma CallAddKeepsInv(s: State, task: Task)
    requires Inv(s)
    ensures Inv(Do(s, CallAdd(task)))
  {
    forall t ensures Count(s.mem.added + [task], t) == Count(s.mem.added, t) + Carried(AddLock(task), t) {
      CountConcat(s.mem.added, [task], t);
    }
    ArrivalKeepsInv(s, s.mem.added + [task], AddLock(task));
  }

  /** How the rendezvous on `confirmChan` changes a sum. */
  lemma SumConfirm(s: State, f: nat, a: nat, weight: Pc -> int, sum: int)
    requires Enabled(s, Confirm(f, a))
    requires sum == Sum(s.threads, weight) + weight(BgExecute(s.threads[f].vals)) - weight(s.threads[f])
                    + weight(Finished) - weight(AddConfirm)
    ensures Sum(Do(s, Confirm(f, a)).threads, weight) == sum
  {
    var pc := BgExecute(s.threads[f].vals);
    SumUpdate(s.threads, f, pc, weight);
    SumUpdate(s.threads[f := pc], a, Finished, weight);
  }

  /** The rendezvous leaves three of the counts alone. */
  lemma ConfirmKeepsSums(s: State, f: nat, a: nat)
    requires Enabled(s, Confirm(f, a))
    ensures var threads := Do(s, Confirm(f, a)).threads;
            && Sum(threads, Counted) == Sum(s.threads, Counted)
            && Sum(threads, Guarding) == Sum(s.threads, Guarding)
            && Sum(threads, Executing) == Sum(s.threads, Executing)
  {
    SumConfirm(s, f, a, Counted, Sum(s.threads, Counted));
    SumConfirm(s, f, a, Guarding, Sum(s.threads, Guarding));
    SumConfirm(s, f, a, Executing, Sum(s.threads, Executing));
  }

  lemma ConfirmKeepsCounts(s: State, f: nat, a: nat)
    requires CountsInv(s) && Enabled(s, Confirm(f, a))
    ensures CountsInv(Do(s, Confirm(f, a)))
  {
    ConfirmKeepsSums(s, f, a);
    SumConfirm(s, f, a, OwingConfirm, Sum(s.threads, OwingConfirm) - 1);
    SumConfirm(s, f, a, AwaitingConfirm, Sum(s.threads, AwaitingConfirm) - 1);
  }

  lemma ConfirmKeepsNotStranded(s: State, f: nat, a: nat)
    requires NotStranded(s) && Enabled(s, Confirm(f, a))
    ensures NotStranded(Do(s, Confirm(f, a)))
  {
    SumConfirm(s, f, a, CountedPastGuard, Sum(s.threads, CountedPastGuard));
    SumConfirm(s, f, a, Rescuing, Sum(s.threads, Rescuing));
  }

  lemma ConfirmKeepsLock(s: State, f: nat, a: nat)
    requires LockInv(s) && Enabled(s, Confirm(f, a))
    ensures LockInv(Do(s, Confirm(f, a)))
  {
  }

  lemma ConfirmConserves(s: State, f: nat, a: nat)
    requires Conserved(s) && Enabled(s, Confirm(f, a))
    ensures Conserved(Do(s, Confirm(f, a)))
  {
    var s' := Do(s, Confirm(f, a));
    forall task ensures Count(s'.mem.added, task) == Placed(s'.mem, task) + Sum(s'.threads, Copies(task)) {
      SumConfirm(s, f, a, Copies(task), Sum(s.threads, Copies(task)));
    }
  }

  lemma StepKeepsInv(s: State, step: Step)
    requires Inv(s) && Enabled(s, step)
    ensures Inv(Do(s, step))
  {
    match step
    case Run(i, choice) =>
      RunKeepsCounts(s, i, choice);
      RunKeepsNotStranded(s, i, choice);
      RunKeepsLock(s, i, choice);
      RunConserves(s, i, choice);
    case Confirm(f, a) =>
      ConfirmKeepsCounts(s, f, a);
      ConfirmKeepsNotStranded(s, f, a);
      ConfirmKeepsLock(s, f, a);
      ConfirmConserves(s, f, a);
    case CallAdd(task) => CallAddKeepsInv(s, task);
    case CallFlush => ArrivalKeepsInv(s, s.mem.added, FlushEnter(External));
  }

  lemma {:induction false} RunsKeepInv(run: seq<State>, k: nat)
    requires IsRun(run) && k < |run|
    ensures Inv(run[k])
  {
    if k > 0 {
      RunsKeepInv(run, k - 1);
      assert Next(run[k - 1], run[k]);
      var step :| Enabled(run[k - 1], step) && run[k] == Do(run[k - 1], step);
      StepKeepsInv(run[k - 1], step);
    }
  }

  // ---- What this means for callers, in every run ----

  /** `i` is the one goroutine with a positive weight. */
  ghost predicate Only(threads: seq<Pc>, i: nat, weight: Pc -> int) {
    i < |threads| && weight(threads[i]) == 1 && forall j | 0 <= j < |threads| && j != i :: weight(threads[j]) == 0
  }

  lemma {:induction false} SumPositive(threads: seq<Pc>, weight: Pc -> int) returns (i: nat)
    requires Sum(threads, weight) > 0
    ensures i < |threads| && weight(threads[i]) > 0
  {
    var n := |threads| - 1;
    if weight(threads[n]) > 0 {
      i := n;
    } else {
      i := SumPositive(threads[..n], weight);
    }
  }

  lemma SumOne(threads: seq<Pc>, weight: Pc -> int) returns (i: nat)
    requires Sum(threads, weight) == 1 && weight(Finished) == 0 && forall pc :: weight(pc) >= 0
    ensures Only(threads, i, weight)
  {
    i := SumPositive(threads, weight);
    forall j | 0 <= j < |threads| && j != i ensures weight(threads[j]) == 0 && weight(threads[i]) == 1 {
      SumUpdate(threads, i, Finished, weight);
      SumBounds(threads[i := Finished], j, weight);
      SumBounds(threads, i, weight);
    }
    SumBounds(threads, i, weight);
  }

  ghost predicate Takes(s: State, step: Step, s': State) {
    Enabled(s, step) && s' == Do(s, step)
  }

  ghost predicate IsLabelled(run: seq<State>, steps: seq<Step>) {
    && |run| == |steps| + 1 && run[0] == Init()
    && forall i, j {:trigger Takes(run[i], steps[i], run[j])} | 0 <= i && j == i + 1 < |run| ::
         Takes(run[i], steps[i], run[j])
  }

  /** The tasks handed to `Add`, in the order of the calls. */
  ghost function Handed(steps: seq<Step>): (r: Batch) {
    if steps == [] then []
    else
      var last := steps[|steps| - 1];
      Handed(steps[..|steps| - 1]) + if last.CallAdd? then [last.task] else []
  }

  /** What is counted as added is exactly what callers handed to `Add`. */
  lemma {:induction false} AddedIsHanded(run: seq<State>, steps: seq<Step>)
    requires IsLabelled(run, steps)
    ensures run[|steps|].mem.added == Handed(steps)
    decreases |steps|
  {
    if steps != [] {
      var n := |steps| - 1;
      var init, before := run[..n + 1], steps[..n];
      forall i, j | 0 <= i && j == i + 1 < |init| ensures Takes(init[i], before[i], init[j]) {
        assert Takes(run[i], steps[i], run[j]);
      }
      AddedIsHanded(init, before);
      assert Takes(run[n], steps[n], run[n + 1]);
    }
  }

  /** Conservation: no task is lost, duplicated or executed twice. */
  lemma EveryTaskInOnePlace(run: seq<State>, k: nat, task: Task)
    requires IsRun(run) && k < |run|
    ensures var s := run[k];
            && multiset(s.mem.added)[task]
               == multiset(s.mem.container)[task] + CountQueued(s.mem.commander, task)
                  + Sum(s.threads, Copies(task)) + multiset(s.mem.executed)[task]
            && multiset(s.mem.executed)[task] <= multiset(s.mem.added)[task]
  {
    RunsKeepInv(run, k);
    var s := run[k];
    CountIsMultiplicity(s.mem.added, task);
    CountIsMultiplicity(s.mem.container, task);
    CountIsMultiplicity(s.mem.executed, task);
    SumNonNegative(s.threads, Copies(task));
    assert Count(s.mem.added, task) == Placed(s.mem, task) + Sum(s.threads, Copies(task));
    CountQueuedNonNegative(s.mem.commander, task);
  }

  lemma {:induction false} CountQueuedNonNegative(commander: seq<Batch>, task: Task)
    ensures CountQueued(commander, task) >= 0
  {
    if commander != [] {
      CountQueuedNonNegative(commander[1..], task);
    }
  }

  /** `inflight` counts exactly the batches that are extracted, or about to be, and whose receipt
      has not been counted yet. */
  lemma InflightIsExact(run: seq<State>, k: nat)
    requires IsRun(run) && k < |run|
    ensures run[k].mem.inflight == |run[k].mem.commander| + Sum(run[k].threads, Counted)
  {
    RunsKeepInv(run, k);
  }

  /** A sent batch, or a goroutine that holds a counted one past the test of `guarded`, or an
      adder that waits for a confirmation. */
  predicate Unserved(s: State, i: nat) {
    |s.mem.commander| > 0 || (i < |s.threads| && (CountedPastGuard(s.threads[i]) == 1 || s.threads[i].AddConfirm?))
  }

  lemma UnservedIsGuarded(s: State, i: nat)
    requires CountsInv(s) && NotStranded(s) && Unserved(s, i)
    ensures s.mem.guarded
  {
    SumNonNegative(s.threads, CountedPastGuard);
    if |s.mem.commander| == 0 {
      if CountedPastGuard(s.threads[i]) == 1 {
        SumBounds(s.threads, i, CountedPastGuard);
      } else {
        SumBounds(s.threads, i, AwaitingConfirm);
        SumLessEqual(s.threads, OwingConfirm, Guarding);
      }
    }
  }

  /** Whoever extracted a batch or waits for its confirmation has exactly one background flusher,
      running or about to be spawned, to serve it. */
  lemma UnreceivedBatchIsServed(run: seq<State>, k: nat, i: nat) returns (flusher: nat)
    requires IsRun(run) && k < |run| && Unserved(run[k], i)
    ensures run[k].mem.guarded && Only(run[k].threads, flusher, Guarding)
  {
    RunsKeepInv(run, k);
    UnservedIsGuarded(run[k], i);
    flusher := SumOne(run[k].threads, Guarding);
  }

  /** A task left in the container is never abandoned: a flusher is guarding it, or an adder still
      inside its critical section will start one, or a quitting flusher has yet to flush it. */
  lemma ContainerIsWatched(run: seq<State>, k: nat) returns (watcher: nat)
    requires IsRun(run) && k < |run| && run[k].mem.container != []
    ensures watcher < |run[k].threads|
    ensures Guarding(run[k].threads[watcher]) == 1 || Rescuing(run[k].threads[watcher]) == 1
  {
    RunsKeepInv(run, k);
    if run[k].mem.guarded {
      watcher := SumPositive(run[k].threads, Guarding);
    } else {
      watcher := SumPositive(run[k].threads, Rescuing);
    }
  }

  /** When every goroutine has come to rest, everything added has been executed, exactly once. */
  lemma QuiescentMeansExecuted(run: seq<State>, k: nat)
    requires IsRun(run) && k < |run|
    requires forall i | 0 <= i < |run[k].threads| :: run[k].threads[i].Finished?
    ensures multiset(run[k].mem.executed) == multiset(run[k].mem.added)
    ensures run[k].mem.container == [] && run[k].mem.commander == [] && run[k].mem.inflight == 0
  {
    RunsKeepInv(run, k);
    var s := run[k];
    SumOfFinished(s.threads, Counted);
    SumOfFinished(s.threads, Guarding);
    SumOfFinished(s.threads, AwaitingConfirm);
    SumOfFinished(s.threads, OwingConfirm);
    SumOfFinished(s.threads, Rescuing);
    forall task ensures multiset(s.mem.executed)[task] == multiset(s.mem.added)[task] {
      EveryTaskInOnePlace(run, k, task);
      SumOfFinished(s.threads, Copies(task));
    }
  }

  lemma {:induction false} SumOfFinished(threads: seq<Pc>, weight: Pc -> int)
    requires weight(Finished) == 0 && forall i | 0 <= i < |threads| :: threads[i].Finished?
    ensures Sum(threads, weight) == 0
  {
    if threads != [] {
      SumOfFinished(threads[..|threads| - 1], weight);
    }
  }
}
