/** `core/threading/stablerunner.go` over `core/threading/taskrunner.go`, as a state machine over
    every interleaving of one pusher, one getter, one caller of `Wait` and the workers.

    The k-th push gets ticket k. Tickets also label a worker and what it puts into a slot's
    channel; no step looks at a label, so they only record which push a value stems from. */
module StableRunners {
  import opened Options

  /** The ring size, the concurrency limit of the task runner, and the handler. */
  datatype Config = Config(size: int, limit: int, handle: int -> int) {
    ghost predicate Valid() {
      size > 0 && limit > 0
    }
  }

  datatype Item = Item(ticket: nat, value: int)

  /** A ring slot: the ticket that holds its lock, and its one-element channel. */
  datatype Slot = Slot(lock: Option<nat>, item: Option<Item>)

  datatype Pushing =
    | PushIdle
    | PushNumber(v: int)                 // done was open; before the increment of writtenIndex
    | PushLock(v: int, ticket: nat)      // before locking the slot
    | PushEnter(v: int, ticket: nat)     // before waitGroup.Add
    | PushLimit(v: int, ticket: nat)     // before sending on limitChan and starting the worker

  datatype Getting =
    | GetIdle
    | GetSelect(index: nat)
    | GetClosed(index: nat)              // saw done; before comparing the indices
    | GetDrain(index: nat)               // waiting for the slot's channel alone
    | GetReturn                          // before the deferred increment of consumedIndex

  datatype Waiting = WaitIdle | WaitTasks | WaitTaken | WaitDone

  datatype Working = Run(v: int) | Send(o: int) | Unlock | Release | Leave

  /** The runner's fields, the goroutines, and what happened so far: the numbered pushes, the
      values of the successful gets, how many gets failed, and whether a push was between its
      test of `done` and its numbering when `Wait` closed the runner. */
  datatype State = State(
    written: nat,
    consumed: nat,
    slots: seq<Slot>,
    tasks: nat,
    waitGroup: nat,
    closed: bool,
    pusher: Pushing,
    getter: Getting,
    waiter: Waiting,
    workers: map<nat, Working>,
    pushed: seq<int>,
    results: seq<int>,
    failures: nat,
    late: bool)

  datatype Step =
    | CallPush(v: int)
    | Push
    | CallGet
    | Get(receive: bool)
    | CallWait
    | Wait
    | Work(ticket: nat)

  function Init(c: Config): (s: State)
    requires c.Valid()
  {
    State(0, 0, seq(c.size, i => Slot(None, None)), 0, 0, false, PushIdle, GetIdle, WaitIdle, map[], [], [], 0, false)
  }

  function SlotOf(c: Config, ticket: nat): (j: nat)
    requires c.Valid()
    ensures j < c.size
  {
    ticket % c.size
  }

  // ---- the pusher

  predicate PushReady(c: Config, s: State)
    requires c.Valid() && |s.slots| == c.size
  {
    match s.pusher
    case PushIdle => false
    case PushNumber(v) => true
    case PushLock(v, t) => s.slots[SlotOf(c, t)].lock == None
    case PushEnter(v, t) => true
    case PushLimit(v, t) => s.tasks < c.limit
  }

  function Lock(slots: seq<Slot>, j: nat, lock: Option<nat>): (r: seq<Slot>)
    requires j < |slots|
  {
    slots[j := Slot(lock, slots[j].item)]
  }

  function Fill(slots: seq<Slot>, j: nat, item: Option<Item>): (r: seq<Slot>)
    requires j < |slots|
  {
    slots[j := Slot(slots[j].lock, item)]
  }

  function DoPush(c: Config, s: State): (r: State)
    requires c.Valid() && |s.slots| == c.size && PushReady(c, s)
  {
    match s.pusher
    case PushNumber(v) =>
      s.(written := s.written + 1, pusher := PushLock(v, s.written), pushed := s.pushed + [v])
    case PushLock(v, t) => s.(slots := Lock(s.slots, SlotOf(c, t), Some(t)), pusher := PushEnter(v, t))
    case PushEnter(v, t) => s.(waitGroup := s.waitGroup + 1, pusher := PushLimit(v, t))
    case PushLimit(v, t) =>
      s.(tasks := s.tasks + 1, workers := s.workers[t := Run(v)], pusher := PushIdle)
  }

  // ---- the getter

  predicate GetReady(c: Config, s: State, receive: bool)
    requires c.Valid() && |s.slots| == c.size
  {
    match s.getter
    case GetIdle => false
    case GetSelect(i) => if receive then s.slots[SlotOf(c, i)].item.Some? else s.closed
    case GetClosed(_) => true
    case GetDrain(i) => s.slots[SlotOf(c, i)].item.Some?
    case GetReturn => true
  }

  function Take(c: Config, s: State, index: nat): (r: State)
    requires c.Valid() && |s.slots| == c.size && s.slots[SlotOf(c, index)].item.Some?
  {
    var j := SlotOf(c, index);
    s.(slots := Fill(s.slots, j, None), results := s.results + [s.slots[j].item.value.value], getter := GetReturn)
  }

  function DoGet(c: Config, s: State, receive: bool): (r: State)
    requires c.Valid() && |s.slots| == c.size && GetReady(c, s, receive)
  {
    match s.getter
    case GetSelect(i) => if receive then Take(c, s, i) else s.(getter := GetClosed(i))
    case GetClosed(i) =>
      if s.consumed < s.written then s.(getter := GetDrain(i))
      else s.(getter := GetReturn, failures := s.failures + 1)
    case GetDrain(i) => Take(c, s, i)
    case GetReturn => s.(consumed := s.consumed + 1, getter := GetIdle)
  }

  // ---- the workers

  predicate WorkReady(c: Config, s: State, t: nat)
    requires c.Valid() && |s.slots| == c.size
  {
    t in s.workers && (s.workers[t].Send? ==> s.slots[SlotOf(c, t)].item == None)
  }

  function DoWork(c: Config, s: State, t: nat): (r: State)
    requires c.Valid() && |s.slots| == c.size && WorkReady(c, s, t)
  {
    match s.workers[t]
    case Run(v) => s.(workers := s.workers[t := Send(c.handle(v))])
    case Send(o) =>
      s.(slots := Fill(s.slots, SlotOf(c, t), Some(Item(t, o))), workers := s.workers[t := Unlock])
    case Unlock => s.(slots := Lock(s.slots, SlotOf(c, t), None), workers := s.workers[t := Release])
    case Release => s.(tasks := if s.tasks > 0 then s.tasks - 1 else 0, workers := s.workers[t := Leave])
    case Leave => s.(waitGroup := if s.waitGroup > 0 then s.waitGroup - 1 else 0, workers := s.workers - {t})
  }

  // ---- all of it

  predicate Enabled(c: Config, s: State, step: Step)
    requires c.Valid() && |s.slots| == c.size
  {
    match step
    case CallPush(_) => s.pusher == PushIdle
    case Push => PushReady(c, s)
    case CallGet => s.getter == GetIdle
    case Get(receive) => GetReady(c, s, receive)
    case CallWait => s.waiter == WaitIdle
    case Wait =>
      || (s.waiter == WaitTasks && s.waitGroup == 0)
      || (s.waiter == WaitTaken && s.consumed >= s.written)
    case Work(t) => WorkReady(c, s, t)
  }

  function Do(c: Config, s: State, step: Step): (r: State)
    requires c.Valid() && |s.slots| == c.size && Enabled(c, s, step)
  {
    match step
    case CallPush(v) => if s.closed then s else s.(pusher := PushNumber(v))
    case Push => DoPush(c, s)
    case CallGet => s.(getter := GetSelect(s.consumed))
    case Get(receive) => DoGet(c, s, receive)
    case CallWait => s.(closed := true, waiter := WaitTasks, late := s.pusher.PushNumber?)
    case Wait => s.(waiter := if s.waiter == WaitTasks then WaitTaken else WaitDone)
    case Work(t) => DoWork(c, s, t)
  }

  ghost predicate Next(c: Config, s: State, s': State)
    requires c.Valid()
  {
    |s.slots| == c.size && exists step :: Enabled(c, s, step) && s' == Do(c, s, step)
  }

  ghost predicate IsRun(c: Config, run: seq<State>)
    requires c.Valid()
  {
    && |run| > 0 && run[0] == Init(c)
    && forall i, j {:trigger Next(c, run[i], run[j])} | 0 <= i && j == i + 1 < |run| :: Next(c, run[i], run[j])
  }

  // ---- the invariant

  ghost predicate PusherHas(s: State, t: nat) {
    match s.pusher
    case PushLock(_, u) => t == u
    case PushEnter(_, u) => t == u
    case PushLimit(_, u) => t == u
    case _ => false
  }

  ghost predicate Locked(c: Config, s: State, t: nat)
    requires c.Valid() && |s.slots| == c.size
  {
    s.slots[SlotOf(c, t)].lock == Some(t)
  }

  ghost predicate InChannel(c: Config, s: State, t: nat)
    requires c.Valid() && |s.slots| == c.size
  {
    var item := s.slots[SlotOf(c, t)].item;
    item.Some? && item.value.ticket == t
  }

  /** Numbered, but its value has not reached the channel. */
  ghost predicate Unsent(s: State, t: nat) {
    PusherHas(s, t) || (t in s.workers && (s.workers[t].Run? || s.workers[t].Send?))
  }

  ghost predicate PusherOk(c: Config, s: State)
    requires c.Valid() && |s.slots| == c.size
  {
    && |s.pushed| == s.written
    && match s.pusher
       case PushLock(v, t) => t + 1 == s.written && v == s.pushed[t] && t !in s.workers
       case PushEnter(v, t) => t + 1 == s.written && v == s.pushed[t] && t !in s.workers && Locked(c, s, t)
       case PushLimit(v, t) => t + 1 == s.written && v == s.pushed[t] && t !in s.workers && Locked(c, s, t)
       case _ => true
  }

  ghost predicate WorkerOk(c: Config, s: State, t: nat)
    requires c.Valid() && |s.slots| == c.size && t in s.workers
  {
    && t < |s.pushed|
    && match s.workers[t]
       case Run(v) => v == s.pushed[t] && Locked(c, s, t)
       case Send(o) => o == c.handle(s.pushed[t]) && Locked(c, s, t)
       case Unlock => Locked(c, s, t)
       case _ => true
  }

  ghost predicate WorkersOk(c: Config, s: State)
    requires c.Valid() && |s.slots| == c.size
  {
    forall t {:trigger WorkerOk(c, s, t)} {:trigger s.workers[t]} | t in s.workers :: WorkerOk(c, s, t)
  }

  /** A held lock belongs to a push or worker that will release it; what the channel holds is
      not newer than that. */
  ghost predicate SlotOk(c: Config, s: State, j: nat)
    requires c.Valid() && |s.slots| == c.size && j < c.size
  {
    && (s.slots[j].lock.Some? ==>
          var h := s.slots[j].lock.value;
          && SlotOf(c, h) == j && h < s.written
          && (|| (PusherHas(s, h) && !s.pusher.PushLock?)
              || (h in s.workers && !s.workers[h].Release? && !s.workers[h].Leave?)))
    && (s.slots[j].item.Some? ==>
          var t := s.slots[j].item.value.ticket;
          && SlotOf(c, t) == j && |s.results| <= t < |s.pushed|
          && s.slots[j].item.value.value == c.handle(s.pushed[t])
          && (s.slots[j].lock.Some? ==> t <= s.slots[j].lock.value))
  }

  ghost predicate SlotsOk(c: Config, s: State)
    requires c.Valid() && |s.slots| == c.size
  {
    forall j {:trigger SlotOk(c, s, j)} {:trigger s.slots[j]} | 0 <= j < c.size :: SlotOk(c, s, j)
  }

  /** Every numbered push that has not been taken is in exactly one place. */
  ghost predicate TicketOk(c: Config, s: State, t: nat)
    requires c.Valid() && |s.slots| == c.size
  {
    && (Unsent(s, t) ==> |s.results| <= t && !InChannel(c, s, t))
    && (|s.results| <= t < s.written ==> Unsent(s, t) || InChannel(c, s, t))
  }

  ghost predicate TicketsOk(c: Config, s: State)
    requires c.Valid() && |s.slots| == c.size
  {
    forall t {:trigger TicketOk(c, s, t)} {:trigger Unsent(s, t)} :: TicketOk(c, s, t)
  }

  /** A failed get means that at most one message can still come. */
  ghost predicate GetterOk(s: State) {
    && s.consumed + (if s.getter.GetReturn? then 1 else 0) == |s.results| + s.failures
    && (s.getter.GetSelect? || s.getter.GetClosed? || s.getter.GetDrain? ==> s.getter.index == s.consumed)
    && (s.getter.GetClosed? ==> s.closed)
    && (s.getter.GetDrain? ==> s.failures == 0 && |s.results| < s.written)
    && (s.failures > 0 ==> s.closed && s.written + (if s.pusher.PushNumber? then 1 else 0) <= |s.results| + 1)
  }

  /** The results are what the handler makes of the pushes, in order. */
  ghost predicate InOrder(c: Config, s: State) {
    && |s.results| <= |s.pushed|
    && forall k | 0 <= k < |s.results| :: s.results[k] == c.handle(s.pushed[k])
  }

  ghost predicate WaiterOk(s: State) {
    && s.closed == (s.waiter != WaitIdle)
    && (s.closed && !s.late ==>
          && !s.pusher.PushNumber?
          && (s.failures > 0 || s.waiter == WaitDone ==> |s.results| == s.written))
  }

  ghost function Holding(workers: map<nat, Working>): (r: set<nat>) {
    set t | t in workers && !workers[t].Leave?
  }

  /** The task runner's counters. */
  ghost predicate CountsOk(c: Config, s: State) {
    && s.tasks == |Holding(s.workers)| && s.tasks <= c.limit
    && s.waitGroup == |s.workers.Keys| + if s.pusher.PushLimit? then 1 else 0
  }

  ghost predicate Inv(c: Config, s: State)
    requires c.Valid()
  {
    && |s.slots| == c.size
    && PusherOk(c, s) && WorkersOk(c, s) && SlotsOk(c, s) && TicketsOk(c, s)
    && GetterOk(s) && InOrder(c, s) && WaiterOk(s) && CountsOk(c, s)
  }

  lemma InitInv(c: Config)
    requires c.Valid()
    ensures Inv(c, Init(c))
  {
    assert Holding(Init(c).workers) == {};
    assert Init(c).workers.Keys == {};
  }

  lemma TicketsCarry(c: Config, s: State, s': State)
    requires c.Valid() && |s.slots| == c.size && TicketsOk(c, s)
    requires s'.slots == s.slots && s'.workers == s.workers && s'.results == s.results && s'.written == s.written
    requires forall t: nat :: PusherHas(s', t) == PusherHas(s, t)
    ensures TicketsOk(c, s')
  {
    forall t: nat ensures TicketOk(c, s', t) {
      assert TicketOk(c, s, t);
      assert PusherHas(s', t) == PusherHas(s, t);
    }
  }

  lemma NumberKeepsInv(c: Config, s: State)
    requires c.Valid() && Inv(c, s) && s.pusher.PushNumber?
    ensures Inv(c, DoPush(c, s))
  {
    var s' := DoPush(c, s);
    assert WorkersOk(c, s');
    assert SlotsOk(c, s');
    forall t: nat ensures TicketOk(c, s', t) {
      assert TicketOk(c, s, t);
    }
  }

  lemma LockKeepsInv(c: Config, s: State)
    requires c.Valid() && Inv(c, s) && PushReady(c, s) && s.pusher.PushLock?
    ensures Inv(c, DoPush(c, s))
  {
    var s' := DoPush(c, s);
    assert WorkersOk(c, s');
    assert SlotsOk(c, s');
    forall t: nat ensures TicketOk(c, s', t) {
      assert TicketOk(c, s, t);
    }
  }

  lemma EnterKeepsInv(c: Config, s: State)
    requires c.Valid() && Inv(c, s) && s.pusher.PushEnter?
    ensures Inv(c, DoPush(c, s))
  {
    TicketsCarry(c, s, DoPush(c, s));
  }

  lemma StartKeepsTickets(c: Config, s: State)
    requires c.Valid() && Inv(c, s) && PushReady(c, s) && s.pusher.PushLimit?
    ensures TicketsOk(c, DoPush(c, s))
  {
    var s' := DoPush(c, s);
    forall u: nat ensures TicketOk(c, s', u) {
      assert TicketOk(c, s, u);
    }
  }

  lemma StartKeepsSlots(c: Config, s: State)
    requires c.Valid() && Inv(c, s) && PushReady(c, s) && s.pusher.PushLimit?
    ensures SlotsOk(c, DoPush(c, s))
  {
    var s' := DoPush(c, s);
    forall j: nat | j < c.size ensures SlotOk(c, s', j) {
      assert SlotOk(c, s, j);
    }
  }

  lemma StartKeepsWorkers(c: Config, s: State)
    requires c.Valid() && Inv(c, s) && PushReady(c, s) && s.pusher.PushLimit?
    ensures WorkersOk(c, DoPush(c, s))
  {
    var s' := DoPush(c, s);
    forall u | u in s'.workers ensures WorkerOk(c, s', u) {
      assert u in s.workers ==> WorkerOk(c, s, u);
    }
  }

  lemma StartKeepsCounts(c: Config, s: State)
    requires c.Valid() && Inv(c, s) && PushReady(c, s) && s.pusher.PushLimit?
    ensures CountsOk(c, DoPush(c, s))
  {
    var s' := DoPush(c, s);
    var t := s.pusher.ticket;
    assert s'.workers.Keys == s.workers.Keys + {t};
    assert Holding(s'.workers) == Holding(s.workers) + {t};
  }

  lemma StartKeepsInv(c: Config, s: State)
    requires c.Valid() && Inv(c, s) && PushReady(c, s) && s.pusher.PushLimit?
    ensures Inv(c, DoPush(c, s))
  {
    StartKeepsCounts(c, s);
    StartKeepsWorkers(c, s);
    StartKeepsSlots(c, s);
    StartKeepsTickets(c, s);
  }

  lemma GetKeepsInv(c: Config, s: State, receive: bool)
    requires c.Valid() && Inv(c, s) && GetReady(c, s, receive)
    requires s.getter.GetReturn? || (s.getter.GetSelect? && !receive)
    ensures Inv(c, DoGet(c, s, receive))
  {
    TicketsCarry(c, s, DoGet(c, s, receive));
  }

  lemma ClosedKeepsInv(c: Config, s: State, receive: bool)
    requires c.Valid() && Inv(c, s) && s.getter.GetClosed?
    ensures Inv(c, DoGet(c, s, receive))
  {
    TicketsCarry(c, s, DoGet(c, s, receive));
  }

  /** What `Get` receives stems from the oldest push that was not taken. */
  lemma ReceivedIsOldest(c: Config, s: State, index: nat)
    requires c.Valid() && Inv(c, s) && s.slots[SlotOf(c, index)].item.Some?
    requires (s.getter == GetSelect(index) || s.getter == GetDrain(index))
    ensures s.slots[SlotOf(c, index)].item.value.ticket == |s.results|
  {
    var j := SlotOf(c, index);
    var t := s.slots[j].item.value.ticket;
    assert SlotOk(c, s, j);
    if s.failures == 0 && t > |s.results| {
      assert TicketOk(c, s, |s.results|);
      assert WorkersOk(c, s);
    }
  }

  lemma TakeKeepsTickets(c: Config, s: State)
    requires c.Valid() && Inv(c, s) && (s.getter.GetSelect? || s.getter.GetDrain?)
    requires s.slots[SlotOf(c, s.getter.index)].item.Some?
    ensures TicketsOk(c, Take(c, s, s.getter.index))
  {
    var s' := Take(c, s, s.getter.index);
    ReceivedIsOldest(c, s, s.getter.index);
    forall t: nat ensures TicketOk(c, s', t) {
      assert TicketOk(c, s, t);
    }
  }

  lemma TakeKeepsPlaces(c: Config, s: State)
    requires c.Valid() && Inv(c, s) && (s.getter.GetSelect? || s.getter.GetDrain?)
    requires s.slots[SlotOf(c, s.getter.index)].item.Some?
    ensures var s' := Take(c, s, s.getter.index);
            PusherOk(c, s') && WorkersOk(c, s') && SlotsOk(c, s')
  {
    var s' := Take(c, s, s.getter.index);
    ReceivedIsOldest(c, s, s.getter.index);
    forall u | u in s'.workers ensures WorkerOk(c, s', u) {
      assert WorkerOk(c, s, u);
    }
    forall j: nat | j < c.size ensures SlotOk(c, s', j) {
      assert SlotOk(c, s, j);
    }
  }

  lemma TakeKeepsInv(c: Config, s: State)
    requires c.Valid() && Inv(c, s) && (s.getter.GetSelect? || s.getter.GetDrain?)
    requires s.slots[SlotOf(c, s.getter.index)].item.Some?
    ensures Inv(c, Take(c, s, s.getter.index))
  {
    ReceivedIsOldest(c, s, s.getter.index);
    assert SlotOk(c, s, SlotOf(c, s.getter.index));
    TakeKeepsPlaces(c, s);
    TakeKeepsTickets(c, s);
  }

  lemma RunKeepsInv(c: Config, s: State, t: nat)
    requires c.Valid() && Inv(c, s) && WorkReady(c, s, t) && s.workers[t].Run?
    ensures Inv(c, DoWork(c, s, t))
  {
    var s' := DoWork(c, s, t);
    assert s'.workers.Keys == s.workers.Keys && Holding(s'.workers) == Holding(s.workers);
    assert WorkerOk(c, s, t);
    assert WorkersOk(c, s');
    assert SlotsOk(c, s');
    forall u: nat ensures TicketOk(c, s', u) {
      assert TicketOk(c, s, u);
    }
  }

  lemma SendKeepsTickets(c: Config, s: State, t: nat)
    requires c.Valid() && Inv(c, s) && WorkReady(c, s, t) && s.workers[t].Send?
    ensures TicketsOk(c, DoWork(c, s, t))
  {
    var s' := DoWork(c, s, t);
    assert WorkerOk(c, s, t) && TicketOk(c, s, t);
    forall u: nat ensures TicketOk(c, s', u) {
      assert TicketOk(c, s, u);
    }
  }

  lemma SendKeepsInv(c: Config, s: State, t: nat)
    requires c.Valid() && Inv(c, s) && WorkReady(c, s, t) && s.workers[t].Send?
    ensures Inv(c, DoWork(c, s, t))
  {
    var s' := DoWork(c, s, t);
    assert s'.workers.Keys == s.workers.Keys && Holding(s'.workers) == Holding(s.workers);
    assert WorkerOk(c, s, t) && TicketOk(c, s, t);
    assert WorkersOk(c, s');
    assert SlotsOk(c, s');
    SendKeepsTickets(c, s, t);
  }

  lemma UnlockKeepsTickets(c: Config, s: State, t: nat)
    requires c.Valid() && Inv(c, s) && WorkReady(c, s, t) && s.workers[t].Unlock?
    ensures TicketsOk(c, DoWork(c, s, t))
  {
    var s' := DoWork(c, s, t);
    assert WorkerOk(c, s, t);
    forall u: nat ensures TicketOk(c, s', u) {
      assert TicketOk(c, s, u);
    }
  }

  lemma UnlockKeepsInv(c: Config, s: State, t: nat)
    requires c.Valid() && Inv(c, s) && WorkReady(c, s, t) && s.workers[t].Unlock?
    ensures Inv(c, DoWork(c, s, t))
  {
    var s' := DoWork(c, s, t);
    assert s'.workers.Keys == s.workers.Keys && Holding(s'.workers) == Holding(s.workers);
    assert WorkerOk(c, s, t);
    assert WorkersOk(c, s');
    assert SlotsOk(c, s');
    UnlockKeepsTickets(c, s, t);
  }

  lemma FinishKeepsTickets(c: Config, s: State, t: nat)
    requires c.Valid() && Inv(c, s) && WorkReady(c, s, t) && (s.workers[t].Release? || s.workers[t].Leave?)
    ensures TicketsOk(c, DoWork(c, s, t))
  {
    var s' := DoWork(c, s, t);
    forall u: nat ensures TicketOk(c, s', u) {
      assert TicketOk(c, s, u);
    }
  }

  lemma FinishKeepsPlaces(c: Config, s: State, t: nat)
    requires c.Valid() && Inv(c, s) && WorkReady(c, s, t) && (s.workers[t].Release? || s.workers[t].Leave?)
    ensures PusherOk(c, DoWork(c, s, t)) && WorkersOk(c, DoWork(c, s, t)) && SlotsOk(c, DoWork(c, s, t))
  {
    var s' := DoWork(c, s, t);
    forall u | u in s'.workers ensures WorkerOk(c, s', u) {
      assert WorkerOk(c, s, u);
    }
    forall j: nat | j < c.size ensures SlotOk(c, s', j) {
      assert SlotOk(c, s, j);
    }
  }

  lemma FinishKeepsInv(c: Config, s: State, t: nat)
    requires c.Valid() && Inv(c, s) && WorkReady(c, s, t) && (s.workers[t].Release? || s.workers[t].Leave?)
    ensures Inv(c, DoWork(c, s, t))
  {
    var s' := DoWork(c, s, t);
    if s.workers[t].Release? {
      assert s'.workers.Keys == s.workers.Keys && Holding(s'.workers) == Holding(s.workers) - {t};
    } else {
      assert s'.workers.Keys == s.workers.Keys - {t} && Holding(s'.workers) == Holding(s.workers);
    }
    FinishKeepsPlaces(c, s, t);
    FinishKeepsTickets(c, s, t);
  }

  lemma CallKeepsInv(c: Config, s: State, step: Step)
    requires c.Valid() && Inv(c, s) && Enabled(c, s, step)
    requires step.CallPush? || step.CallGet? || step.CallWait? || step.Wait?
    ensures Inv(c, Do(c, s, step))
  {
    TicketsCarry(c, s, Do(c, s, step));
  }

  /** Every step keeps the invariant. */
  lemma StepKeepsInv(c: Config, s: State, step: Step)
    requires c.Valid() && Inv(c, s) && Enabled(c, s, step)
    ensures Inv(c, Do(c, s, step))
  {
    match step
    case Push =>
      match s.pusher {
        case PushNumber(_) => NumberKeepsInv(c, s);
        case PushLock(_, _) => LockKeepsInv(c, s);
        case PushEnter(_, _) => EnterKeepsInv(c, s);
        case PushLimit(_, _) => StartKeepsInv(c, s);
      }
    case Get(receive) =>
      if (s.getter.GetSelect? && receive) || s.getter.GetDrain? {
        TakeKeepsInv(c, s);
      } else if s.getter.GetClosed? {
        ClosedKeepsInv(c, s, receive);
      } else {
        GetKeepsInv(c, s, receive);
      }
    case Work(t) =>
      match s.workers[t] {
        case Run(_) => RunKeepsInv(c, s, t);
        case Send(_) => SendKeepsInv(c, s, t);
        case Unlock => UnlockKeepsInv(c, s, t);
        case _ => FinishKeepsInv(c, s, t);
      }
    case _ => CallKeepsInv(c, s, step);
  }

  lemma NextKeepsInv(c: Config, s: State, s': State)
    requires c.Valid() && Inv(c, s) && Next(c, s, s')
    ensures Inv(c, s')
  {
    var step :| Enabled(c, s, step) && s' == Do(c, s, step);
    StepKeepsInv(c, s, step);
  }

  /** The invariant holds throughout every run. */
  lemma {:induction false} RunsKeepInv(c: Config, run: seq<State>, k: nat)
    requires c.Valid() && IsRun(c, run) && k < |run|
    ensures Inv(c, run[k])
  {
    if k == 0 {
      InitInv(c);
    } else {
      RunsKeepInv(c, run, k - 1);
      assert Next(c, run[k - 1], run[k]);
      NextKeepsInv(c, run[k - 1], run[k]);
    }
  }

  // ---- what a push waits for

  lemma SameSlotIsRingApart(c: Config, t: nat, u: nat)
    requires c.Valid() && t < u && SlotOf(c, t) == SlotOf(c, u)
    ensures t + c.size <= u
  {
    assert t == t / c.size * c.size + t % c.size && u == u / c.size * c.size + u % c.size;
    if u / c.size <= t / c.size {
      ProductMonotone(u / c.size, t / c.size, c.size);
    } else {
      ProductMonotone(t / c.size + 1, u / c.size, c.size);
      assert (t / c.size + 1) * c.size == t / c.size * c.size + c.size;
    }
  }

  lemma ProductMonotone(a: nat, b: nat, n: nat)
    requires a <= b
    ensures a * n <= b * n
  {
  }

  /** A worker that has not released its slot. */
  predicate Handling(w: Working) {
    w.Run? || w.Send? || w.Unlock?
  }

  /** A push waits for its slot only while a message at least a whole ring ahead of it is being
      handled. */
  lemma PushWaitsForRingAhead(c: Config, run: seq<State>, k: nat)
    requires c.Valid() && IsRun(c, run) && k < |run| && |run[k].slots| == c.size
    requires run[k].pusher.PushLock? && !PushReady(c, run[k])
    ensures var s := run[k];
            exists h :: h in s.workers && h + c.size <= s.pusher.ticket && Handling(s.workers[h])
  {
    RunsKeepInv(c, run, k);
    var s := run[k];
    var j := SlotOf(c, s.pusher.ticket);
    assert SlotOk(c, s, j);
    var h := s.slots[j].lock.value;
    SameSlotIsRingApart(c, h, s.pusher.ticket);
  }

  /** And for the task runner only while `limit` workers are busy. */
  lemma PushWaitsForFullRunner(c: Config, run: seq<State>, k: nat)
    requires c.Valid() && IsRun(c, run) && k < |run| && |run[k].slots| == c.size
    requires run[k].pusher.PushLimit? && !PushReady(c, run[k])
    ensures |Holding(run[k].workers)| == c.limit
  {
    RunsKeepInv(c, run, k);
  }

  // ---- a pushed value keeps its value

  /** The push that is, or will be, number `n` has value `v`. */
  ghost predicate PushOf(s: State, n: nat, v: int) {
    (s.pusher == PushNumber(v) && |s.pushed| == n) || (n < |s.pushed| && s.pushed[n] == v)
  }

  /** Only a step of the pusher touches what is being or has been pushed. */
  lemma OthersLeavePushes(c: Config, s: State, step: Step)
    requires c.Valid() && |s.slots| == c.size && Enabled(c, s, step) && !step.Push? && !step.CallPush?
    ensures Do(c, s, step).pusher == s.pusher && Do(c, s, step).pushed == s.pushed
  {
  }

  lemma StepKeepsPush(c: Config, s: State, s': State, n: nat, v: int)
    requires c.Valid() && Next(c, s, s') && PushOf(s, n, v)
    ensures PushOf(s', n, v)
  {
    var step :| Enabled(c, s, step) && s' == Do(c, s, step);
    if step.Push? {
      assert s'.pushed == s.pushed + if s.pusher.PushNumber? then [s.pusher.v] else [];
    } else if !step.CallPush? {
      OthersLeavePushes(c, s, step);
    }
  }

  lemma {:induction false} RunKeepsPush(c: Config, run: seq<State>, i: nat, k: nat, n: nat, v: int)
    requires c.Valid() && IsRun(c, run) && i <= k < |run| && PushOf(run[i], n, v)
    ensures PushOf(run[k], n, v)
    decreases k
  {
    if i < k {
      RunKeepsPush(c, run, i, k - 1, n, v);
      assert Next(c, run[k - 1], run[k]);
      StepKeepsPush(c, run[k - 1], run[k], n, v);
    }
  }

  /** An accepted call of `Push` takes the next number for its value; once the runner is closed, a
      call changes nothing. */
  lemma PushIsNumberedInTurn(c: Config, run: seq<State>, i: nat, k: nat, v: int)
    requires c.Valid() && IsRun(c, run) && i < k < |run| && |run[i].slots| == c.size
    requires Enabled(c, run[i], CallPush(v)) && run[i + 1] == Do(c, run[i], CallPush(v))
    ensures run[i].closed ==> run[i + 1] == run[i]
    ensures !run[i].closed && |run[k].pushed| > |run[i].pushed| ==> run[k].pushed[|run[i].pushed|] == v
  {
    if !run[i].closed {
      RunKeepsPush(c, run, i + 1, k, |run[i].pushed|, v);
    }
  }

  // ---- what the runner promises

  /** In every run, the k-th successful `Get` returns what the handler makes of the k-th push. */
  lemma ResultsInPushOrder(c: Config, run: seq<State>, k: nat)
    requires c.Valid() && IsRun(c, run) && k < |run|
    ensures var s := run[k];
            && |s.results| <= |s.pushed|
            && forall i | 0 <= i < |s.results| :: s.results[i] == c.handle(s.pushed[i])
  {
    RunsKeepInv(c, run, k);
  }

  ghost predicate InHandler(s: State, t: nat) {
    t in s.workers && s.workers[t].Run?
  }

  /** At most `limit` handlers run at once. */
  lemma HandlersLimited(c: Config, run: seq<State>, k: nat, busy: set<nat>)
    requires c.Valid() && IsRun(c, run) && k < |run|
    requires forall t | t in busy :: InHandler(run[k], t)
    ensures |busy| <= c.limit
  {
    RunsKeepInv(c, run, k);
    forall t | t in busy ensures t in Holding(run[k].workers) {
      assert InHandler(run[k], t);
    }
    SubsetSize(busy, Holding(run[k].workers));
  }

  lemma {:induction false} SubsetSize(a: set<nat>, b: set<nat>)
    requires a <= b
    ensures |a| <= |b|
  {
    if a != {} {
      var t :| t in a;
      SubsetSize(a - {t}, b - {t});
    }
  }

  /** A `Get` that waits for a numbered push, with no failed one before it. */
  ghost predicate WaitingGet(c: Config, s: State)
    requires c.Valid()
  {
    && Inv(c, s) && (s.getter.GetSelect? || s.getter.GetDrain?)
    && s.failures == 0 && |s.results| < s.written
  }

  /** It is never stuck: the push, its worker, a worker that is about to leave, or the `Get` itself
      can move. */
  lemma WaitingGetMoves(c: Config, s: State) returns (step: Step)
    requires c.Valid() && WaitingGet(c, s)
    ensures Enabled(c, s, step)
    ensures step.Work? || (step.Push? && PusherHas(s, |s.results|)) || step == Get(true)
  {
    var t := |s.results|;
    assert TicketOk(c, s, t);
    var j := SlotOf(c, t);
    assert SlotOk(c, s, j);
    if InChannel(c, s, t) {
      step := Get(true);
    } else if t in s.workers {
      assert WorkerOk(c, s, t);
      step := Work(t);
    } else if s.pusher.PushLock? && s.slots[j].lock.Some? {
      step := LockHolderMoves(c, s);
    } else if s.pusher.PushLimit? && s.tasks >= c.limit {
      step := BusyWorkerMoves(c, s);
    } else {
      step := Push;
    }
  }

  lemma LockHolderMoves(c: Config, s: State) returns (step: Step)
    requires c.Valid() && Inv(c, s) && s.pusher.PushLock? && s.pusher.ticket == |s.results|
    requires s.slots[SlotOf(c, s.pusher.ticket)].lock.Some?
    ensures step.Work? && Enabled(c, s, step)
  {
    var j := SlotOf(c, s.pusher.ticket);
    assert SlotOk(c, s, j);
    var h := s.slots[j].lock.value;
    assert TicketOk(c, s, h);
    step := Work(h);
  }

  lemma BusyWorkerMoves(c: Config, s: State) returns (step: Step)
    requires c.Valid() && Inv(c, s) && s.pusher.PushLimit? && s.pusher.ticket == |s.results|
    requires s.tasks >= c.limit
    ensures step.Work? && Enabled(c, s, step)
  {
    assert Holding(s.workers) != {};
    var t :| t in Holding(s.workers);
    assert TicketOk(c, s, t) && WorkerOk(c, s, t);
    step := Work(t);
  }

  /** When `Wait` returns, every pushed message has been taken, unless a push had passed its test
      of `done` but had no number yet when `Wait` closed the runner. */
  lemma WaitMeansTaken(c: Config, run: seq<State>, k: nat)
    requires c.Valid() && IsRun(c, run) && k < |run|
    requires run[k].waiter == WaitDone && !run[k].late
    ensures run[k].results == seq(|run[k].pushed|, i requires 0 <= i < |run[k].pushed| => c.handle(run[k].pushed[i]))
  {
    RunsKeepInv(c, run, k);
  }
}
