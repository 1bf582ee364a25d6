/** What a timing wheel (`core/collection/timingwheel.go`) means, as values: where each timer sits,
    what every operation does to it, and on which tick it fires. */
module TimerModel {
  import opened Modulo

  /** A live timer: its slot, and the `circle` and `diff` of its entry. */
  datatype Timer<V> = Timer(value: V, pos: nat, circle: nat, diff: nat)

  datatype Wheel<K(==), V> = Wheel(numSlots: nat, tickedPos: nat, timers: map<K, Timer<V>>)

  ghost predicate WellFormed<K, V>(w: Wheel<K, V>) {
    && w.tickedPos < w.numSlots
    && forall k | k in w.timers :: w.timers[k].pos < w.numSlots && w.timers[k].diff < w.numSlots
  }

  /** Delays are counted in whole intervals; `SetTimer` and `MoveTimer` act on at least one. */
  datatype Op<K, V> = Set(key: K, value: V, steps: nat) | Move(key: K, steps: nat) | Remove(key: K) | Tick

  ghost predicate Legal<K, V>(op: Op<K, V>) {
    (op.Set? || op.Move?) ==> op.steps >= 1
  }

  function NewPos(numSlots: nat, tickedPos: nat, steps: nat): (pos: nat)
    requires tickedPos < numSlots
    ensures pos < numSlots
  {
    (tickedPos + steps) % numSlots
  }

  function NewCircle(numSlots: nat, steps: nat): (circle: nat)
    requires numSlots > 0 && steps >= 1
  {
    (steps - 1) / numSlots
  }

  /** `moveTask` on a live timer, towards slot `pos` after `circle` full circles: it stays where it
      is and is told how much further to go, unless the new slot comes earlier in the array and no
      full circle is left. */
  function MoveTo<V>(t: Timer<V>, numSlots: nat, pos: nat, circle: nat): (t': Timer<V>)
    requires t.pos < numSlots && pos < numSlots
    ensures t'.pos < numSlots && t'.diff < numSlots
  {
    if pos >= t.pos then Timer(t.value, t.pos, circle, pos - t.pos)
    else if circle > 0 then Timer(t.value, t.pos, circle - 1, numSlots + pos - t.pos)
    else Timer(t.value, pos, 0, 0)
  }

  function MoveTimer<V>(t: Timer<V>, numSlots: nat, tickedPos: nat, steps: nat): (t': Timer<V>)
    requires tickedPos < numSlots && t.pos < numSlots && steps >= 1
    ensures t'.pos < numSlots && t'.diff < numSlots
  {
    MoveTo(t, numSlots, NewPos(numSlots, tickedPos, steps), NewCircle(numSlots, steps))
  }

  predicate Fires<V>(t: Timer<V>, tickedPos: nat) {
    t.pos == tickedPos && t.circle == 0 && t.diff == 0
  }

  /** The slot `diff` places further round the wheel, as `(pos + diff) % numSlots` computes it. */
  function Further(pos: nat, diff: nat, numSlots: nat): (r: nat)
    requires pos < numSlots && diff <= numSlots
    ensures r < numSlots
  {
    if pos + diff < numSlots then pos + diff else pos + diff - numSlots
  }

  lemma FurtherIsModulo(pos: nat, diff: nat, numSlots: nat)
    requires pos < numSlots && diff <= numSlots
    ensures Further(pos, diff, numSlots) == (pos + diff) % numSlots
  {
    WrapOnce(pos + diff, numSlots);
  }

  /** What the scan of slot `tickedPos` does to a timer that does not fire. */
  function TickTimer<V>(t: Timer<V>, numSlots: nat, tickedPos: nat): (t': Timer<V>)
    requires tickedPos < numSlots && t.diff <= numSlots
  {
    if t.pos != tickedPos then t
    else if t.circle > 0 then t.(circle := t.circle - 1)
    else t.(pos := Further(tickedPos, t.diff, numSlots), diff := 0)
  }

  ghost function TickedPos<K, V>(w: Wheel<K, V>): (r: nat)
    requires WellFormed(w)
    ensures r < w.numSlots
  {
    Further(w.tickedPos, 1, w.numSlots)
  }

  /** The tasks that `op` runs, with their values. */
  ghost function Fired<K, V>(w: Wheel<K, V>, op: Op<K, V>): (r: map<K, V>)
    requires WellFormed(w)
  {
    if op.Tick? then map k | k in w.timers && Fires(w.timers[k], TickedPos(w)) :: w.timers[k].value
    else map[]
  }

  function WithValue<V>(t: Timer<V>, value: V): (t': Timer<V>) {
    Timer(value, t.pos, t.circle, t.diff)
  }

  ghost function SetIn<K, V>(w: Wheel<K, V>, key: K, value: V, steps: nat): (w': Wheel<K, V>)
    requires WellFormed(w) && steps >= 1
    ensures WellFormed(w')
  {
    var t := if key in w.timers then MoveTimer(WithValue(w.timers[key], value), w.numSlots, w.tickedPos, steps)
             else Timer(value, NewPos(w.numSlots, w.tickedPos, steps), NewCircle(w.numSlots, steps), 0);
    Wheel(w.numSlots, w.tickedPos, w.timers[key := t])
  }

  ghost function MoveIn<K, V>(w: Wheel<K, V>, key: K, steps: nat): (w': Wheel<K, V>)
    requires WellFormed(w) && steps >= 1
    ensures WellFormed(w')
  {
    if key !in w.timers then w
    else Wheel(w.numSlots, w.tickedPos, w.timers[key := MoveTimer(w.timers[key], w.numSlots, w.tickedPos, steps)])
  }

  ghost function RemoveIn<K, V>(w: Wheel<K, V>, key: K): (w': Wheel<K, V>)
    requires WellFormed(w)
    ensures WellFormed(w')
  {
    Wheel(w.numSlots, w.tickedPos, w.timers - {key})
  }

  lemma RemoveAbsent<K, V>(w: Wheel<K, V>, key: K)
    requires WellFormed(w) && key !in w.timers
    ensures RemoveIn(w, key) == w
  {
    assert w.timers - {key} == w.timers;
  }

  ghost function TickIn<K, V>(w: Wheel<K, V>): (w': Wheel<K, V>)
    requires WellFormed(w)
    ensures WellFormed(w')
  {
    var now := TickedPos(w);
    Wheel(w.numSlots, now,
          map k | k in w.timers && !Fires(w.timers[k], now) :: TickTimer(w.timers[k], w.numSlots, now))
  }

  ghost function Apply<K, V>(w: Wheel<K, V>, op: Op<K, V>): (w': Wheel<K, V>)
    requires WellFormed(w) && Legal(op)
    ensures WellFormed(w') && w'.numSlots == w.numSlots
  {
    match op
    case Set(key, value, steps) => SetIn(w, key, value, steps)
    case Move(key, steps) => MoveIn(w, key, steps)
    case Remove(key) => RemoveIn(w, key)
    case Tick => TickIn(w)
  }

  // ---- When a timer fires ----

  /** Ticks until slot `pos` is scanned next; the slot just scanned comes a full circle later. */
  function TicksTo(pos: nat, numSlots: nat, tickedPos: nat): (r: int) {
    if pos > tickedPos then pos - tickedPos else pos - tickedPos + numSlots
  }

  function Remaining<V>(t: Timer<V>, numSlots: nat, tickedPos: nat): (r: int) {
    TicksTo(t.pos, numSlots, tickedPos) + t.circle * numSlots + t.diff
  }

  ghost function RemainingOf<K, V>(w: Wheel<K, V>, key: K): (r: int)
    requires WellFormed(w) && key in w.timers
    ensures r >= 1
  {
    Remaining(w.timers[key], w.numSlots, w.tickedPos)
  }

  /** The slot and circle chosen for a delay are exactly that many ticks away. */
  lemma PositionIsExact(numSlots: nat, tickedPos: nat, steps: nat)
    requires tickedPos < numSlots && steps >= 1
    ensures TicksTo(NewPos(numSlots, tickedPos, steps), numSlots, tickedPos)
            + NewCircle(numSlots, steps) * numSlots == steps
  {
    var q, r := (steps - 1) / numSlots, (steps - 1) % numSlots;
    assert steps - 1 == q * numSlots + r;
    ModShift(tickedPos + r + 1, q, numSlots);
    assert tickedPos + steps == tickedPos + r + 1 + q * numSlots;
    WrapOnce(tickedPos + r + 1, numSlots);
  }

  /** The two cases in which a moved timer is a full circle off. */
  predicate MovedLate<V>(t: Timer<V>, numSlots: nat, tickedPos: nat, steps: nat)
    requires tickedPos < numSlots
  {
    t.pos <= tickedPos < NewPos(numSlots, tickedPos, steps)
  }

  predicate MovedEarly<V>(t: Timer<V>, numSlots: nat, tickedPos: nat, steps: nat)
    requires tickedPos < numSlots && steps >= 1
  {
    NewCircle(numSlots, steps) > 0 && NewPos(numSlots, tickedPos, steps) <= tickedPos < t.pos
  }

  /** A moved timer fires on the requested tick, or one revolution late, or one early. */
  lemma MoveRemaining<V>(t: Timer<V>, numSlots: nat, tickedPos: nat, steps: nat)
    requires tickedPos < numSlots && t.pos < numSlots && steps >= 1
    ensures Remaining(MoveTimer(t, numSlots, tickedPos, steps), numSlots, tickedPos)
            == steps + (if MovedLate(t, numSlots, tickedPos, steps) then numSlots else 0)
               - (if MovedEarly(t, numSlots, tickedPos, steps) then numSlots else 0)
  {
    PositionIsExact(numSlots, tickedPos, steps);
    var circle := NewCircle(numSlots, steps);
    assert (circle - 1) * numSlots == circle * numSlots - numSlots;
  }

  /** `MoveTimer` is exact if and only if neither case applies. */
  lemma MoveIsExactIff<V>(t: Timer<V>, numSlots: nat, tickedPos: nat, steps: nat)
    requires tickedPos < numSlots && t.pos < numSlots && steps >= 1
    ensures Remaining(MoveTimer(t, numSlots, tickedPos, steps), numSlots, tickedPos) == steps
            <==> !MovedLate(t, numSlots, tickedPos, steps) && !MovedEarly(t, numSlots, tickedPos, steps)
  {
    MoveRemaining(t, numSlots, tickedPos, steps);
  }

  /** A late one: a timer in slot 2, moved to 3 intervals from now when slot 5 was just scanned. */
  lemma MoveCanBeLate()
    ensures Remaining(MoveTimer(Timer(0, 2, 0, 0), 10, 5, 3), 10, 5) == 13
  {
  }

  /** An early one: a timer in slot 8, moved to 17 intervals from then. */
  lemma MoveCanBeEarly()
    ensures Remaining(MoveTimer(Timer(0, 8, 0, 0), 10, 5, 17), 10, 5) == 7
  {
  }

  /** A tick brings a timer one step closer, and it fires exactly when one step is left. */
  lemma TickCountsDown<V>(t: Timer<V>, numSlots: nat, tickedPos: nat)
    requires tickedPos < numSlots && t.pos < numSlots && t.diff < numSlots
    ensures var now := Further(tickedPos, 1, numSlots);
            && (Fires(t, now) <==> Remaining(t, numSlots, tickedPos) == 1)
            && (!Fires(t, now) ==>
                  Remaining(TickTimer(t, numSlots, now), numSlots, now) == Remaining(t, numSlots, tickedPos) - 1)
  {
    if t.circle > 0 {
      OneCircleLess(t.circle, numSlots);
    } else {
      assert t.circle * numSlots == 0;
    }
  }

  lemma OneCircleLess(circle: nat, numSlots: nat)
    requires circle > 0
    ensures circle * numSlots == (circle - 1) * numSlots + numSlots && (circle - 1) * numSlots >= 0
  {
  }

  // ---- Whole runs ----

  predicate Touches<K(==), V>(op: Op<K, V>, key: K) {
    !op.Tick? && op.key == key
  }

  ghost predicate Untouched<K, V>(ops: seq<Op<K, V>>, key: K) {
    forall op | op in ops :: Legal(op) && !Touches(op, key)
  }

  function Ticks<K, V>(ops: seq<Op<K, V>>): (r: nat) {
    if ops == [] then 0 else (if ops[0].Tick? then 1 else 0) + Ticks(ops[1..])
  }

  /** The values with which `key` is executed while `ops` run, in order. */
  ghost function FiredValues<K, V>(w: Wheel<K, V>, ops: seq<Op<K, V>>, key: K): (r: seq<V>)
    requires WellFormed(w) && forall op | op in ops :: Legal(op)
    decreases ops
  {
    if ops == [] then []
    else (if key in Fired(w, ops[0]) then [Fired(w, ops[0])[key]] else [])
         + FiredValues(Apply(w, ops[0]), ops[1..], key)
  }

  lemma UntouchedStep<K, V>(w: Wheel<K, V>, op: Op<K, V>, key: K)
    requires WellFormed(w) && Legal(op) && !Touches(op, key) && key in w.timers
    ensures key in Fired(w, op) <==> op.Tick? && RemainingOf(w, key) == 1
    ensures key in Fired(w, op) ==> Fired(w, op)[key] == w.timers[key].value && key !in Apply(w, op).timers
    ensures key !in Fired(w, op) ==>
              && key in Apply(w, op).timers
              && Apply(w, op).timers[key].value == w.timers[key].value
              && RemainingOf(Apply(w, op), key) == RemainingOf(w, key) - (if op.Tick? then 1 else 0)
  {
    if op.Tick? {
      TickCountsDown(w.timers[key], w.numSlots, w.tickedPos);
    }
  }

  lemma {:induction false} AbsentTimerStaysSilent<K, V>(w: Wheel<K, V>, ops: seq<Op<K, V>>, key: K)
    requires WellFormed(w) && Untouched(ops, key) && key !in w.timers
    ensures FiredValues(w, ops, key) == []
    decreases ops
  {
    if ops != [] {
      AbsentTimerStaysSilent(Apply(w, ops[0]), ops[1..], key);
    }
  }

  /** Left alone, a live timer fires exactly once, on the tick that `RemainingOf` announces,
      whatever happens to other timers meanwhile. */
  lemma {:induction false} UntouchedTimerFiresOnce<K, V>(w: Wheel<K, V>, ops: seq<Op<K, V>>, key: K)
    requires WellFormed(w) && Untouched(ops, key) && key in w.timers
    ensures FiredValues(w, ops, key) == if Ticks(ops) >= RemainingOf(w, key) then [w.timers[key].value] else []
    decreases ops
  {
    if ops != [] {
      var w' := Apply(w, ops[0]);
      UntouchedStep(w, ops[0], key);
      if key in Fired(w, ops[0]) {
        AbsentTimerStaysSilent(w', ops[1..], key);
      } else {
        UntouchedTimerFiresOnce(w', ops[1..], key);
      }
    }
  }

  /** A freshly set timer fires once, on exactly the requested tick. */
  lemma SetTimerFiresOnRequestedTick<K, V>(w: Wheel<K, V>, key: K, value: V, steps: nat, ops: seq<Op<K, V>>)
    requires WellFormed(w) && key !in w.timers && steps >= 1 && Untouched(ops, key)
    ensures FiredValues(Apply(w, Set(key, value, steps)), ops, key) == if Ticks(ops) >= steps then [value] else []
  {
    PositionIsExact(w.numSlots, w.tickedPos, steps);
    UntouchedTimerFiresOnce(Apply(w, Set(key, value, steps)), ops, key);
  }

  /** A moved timer fires once, on the requested tick corrected by the two cases. */
  lemma MovedTimerFiresOnce<K, V>(w: Wheel<K, V>, key: K, steps: nat, ops: seq<Op<K, V>>)
    requires WellFormed(w) && key in w.timers && steps >= 1 && Untouched(ops, key)
    ensures var t := w.timers[key];
            var due := steps + (if MovedLate(t, w.numSlots, w.tickedPos, steps) then w.numSlots else 0)
                       - (if MovedEarly(t, w.numSlots, w.tickedPos, steps) then w.numSlots else 0);
            && FiredValues(Apply(w, Move(key, steps)), ops, key) == (if Ticks(ops) >= due then [t.value] else [])
            && due >= 1
  {
    MoveRemaining(w.timers[key], w.numSlots, w.tickedPos, steps);
    UntouchedTimerFiresOnce(Apply(w, Move(key, steps)), ops, key);
  }

  /** Setting a timer that exists gives it the new value and otherwise moves it. */
  lemma ResetTimerFiresOnce<K, V>(w: Wheel<K, V>, key: K, value: V, steps: nat, ops: seq<Op<K, V>>)
    requires WellFormed(w) && key in w.timers && steps >= 1 && Untouched(ops, key)
    ensures var t := w.timers[key];
            var due := steps + (if MovedLate(t, w.numSlots, w.tickedPos, steps) then w.numSlots else 0)
                       - (if MovedEarly(t, w.numSlots, w.tickedPos, steps) then w.numSlots else 0);
            FiredValues(Apply(w, Set(key, value, steps)), ops, key) == if Ticks(ops) >= due then [value] else []
  {
    MoveRemaining(WithValue(w.timers[key], value), w.numSlots, w.tickedPos, steps);
    UntouchedTimerFiresOnce(Apply(w, Set(key, value, steps)), ops, key);
  }

  /** A removed timer does not fire. */
  lemma RemovedTimerStaysSilent<K, V>(w: Wheel<K, V>, key: K, ops: seq<Op<K, V>>)
    requires WellFormed(w) && Untouched(ops, key)
    ensures FiredValues(Apply(w, Remove(key)), ops, key) == []
  {
    AbsentTimerStaysSilent(Apply(w, Remove(key)), ops, key);
  }
}
