/** `core/collection/timingwheel.go`: the wheel itself, with entries shared between the slot lists
    and the timer index. `TimerModel` says what it means; here the code is shown to do that. */
module TimingWheels {
  import opened Options
  import opened GoMaps
  import opened SafeMaps
  import opened TimerModel
  import opened WheelLayout

  /** Go's `any`: the wheel compares keys and carries values, and looks at neither. */
  type Key = int
  type Value = int

  lemma WholeIntervals(delay: int, interval: int)
    requires 0 < interval <= delay
    ensures delay / interval >= 1
    ensures delay / interval * interval <= delay < (delay / interval + 1) * interval
  {
    if delay / interval < 1 {
      ProductAtMost(delay / interval, interval);
    }
  }

  lemma ProductAtMost(a: int, n: int)
    requires a <= 0 && n > 0
    ensures a * n <= 0
  {
  }

  class TimingEntry {
    const key: Key
    var value: Value
    var circle: int
    var diff: int
    var removed: bool

    constructor (key: Key, value: Value, circle: int)
      ensures this.key == key && this.value == value && this.circle == circle && diff == 0 && !removed
    {
      this.key, this.value, this.circle, diff, removed := key, value, circle, 0, false;
    }

    ghost function Fields(): (f: Entry<Key, Value>)
      reads this
    {
      Entry(key, value, circle, diff, removed)
    }
  }

  class PositionEntry {
    var pos: int
    var item: TimingEntry
    ghost const owner: Key  // the key whose index record this is

    constructor (pos: int, item: TimingEntry, ghost owner: Key)
      ensures this.pos == pos && this.item == item && this.owner == owner
    {
      this.pos, this.item, this.owner := pos, item, owner;
    }
  }

  class TimingWheel {
    const interval: int
    const numSlots: int
    const timers: SafeMap<Key, PositionEntry>
    var slots: seq<seq<TimingEntry>>
    var tickedPos: int
    ghost var entries: set<TimingEntry>
    ghost var positions: set<PositionEntry>
    ghost var model: Wheel<Key, Value>                                // what the wheel stands for
    ghost var index: map<Key, Place<TimingEntry>>           // what `timers` holds, by value
    ghost var fields: map<TimingEntry, Entry<Key, Value>>  // what the entries hold, by value

    ghost predicate FieldsTied()
      reads this`fields, this`entries, entries
    {
      fields.Keys == entries && forall e | e in entries :: fields[e] == e.Fields()
    }

    ghost predicate IndexTied()
      reads this`index, this`positions, timers, positions
    {
      && timers.Valid() && index.Keys == timers.Contents().Keys
      && forall k | k in timers.Contents() ::
           && timers.Contents()[k] in positions && timers.Contents()[k].owner == k
           && index[k] == Place(timers.Contents()[k].pos, timers.Contents()[k].item)
    }

    ghost predicate Tied()
      reads this`slots, this`fields, this`entries, entries, this`index, this`positions, timers, positions
    {
      interval > 0 && numSlots == |slots| && FieldsTied() && IndexTied()
    }

    /** The heap structure as a value. */
    ghost function Mem(): (m: Layout<Key, Value, TimingEntry>)
      reads this`tickedPos, this`slots, this`index, this`fields
    {
      Layout(tickedPos, slots, index, fields)
    }

    ghost predicate Valid()
      reads this, timers, entries, positions
    {
      Tied() && Represents(Mem(), model)
    }

    constructor (interval: int, numSlots: int)
      requires interval > 0 && numSlots > 0
      ensures Valid() && model == Wheel(numSlots, numSlots - 1, map[])
      ensures this.interval == interval && fresh(timers) && fresh(entries) && fresh(positions)
    {
      this.interval, this.numSlots, tickedPos := interval, numSlots, numSlots - 1;
      slots := seq(numSlots, _ => []);
      timers := new SafeMap<Key, PositionEntry>();
      entries, positions := {}, {};
      index, fields, model := map[], map[], Wheel(numSlots, numSlots - 1, map[]);
    }

    // ---- Single updates of the heap ----

    /** Points the index record of `task.key` at `task` in slot `pos`, creating it if needed. */
    method SetTimerPosition(pos: int, task: TimingEntry)
      requires IndexTied()
      modifies this`index, this`positions, timers, positions
      ensures IndexTied() && fresh(positions - old(positions)) && old(positions) <= positions
      ensures index == old(index)[task.key := Place(pos, task)]
    {
      var val := timers.Get(task.key);
      if val.Some? {
        val.value.item := task;
        val.value.pos := pos;
      } else {
        var timer := new PositionEntry(pos, task, task.key);
        positions := positions + {timer};
        timers.Set(task.key, timer);
      }
      index := index[task.key := Place(pos, task)];
    }

    method WriteDistance(item: TimingEntry, circle: int, diff: int)
      requires FieldsTied() && item in entries
      modifies item`circle, item`diff, this`fields
      ensures FieldsTied()
      ensures fields == old(fields)[item := Entry(item.key, item.value, circle, diff, item.removed)]
    {
      item.circle := circle;
      item.diff := diff;
      fields := fields[item := item.Fields()];
    }

    method SetValue(item: TimingEntry, value: Value)
      requires FieldsTied() && item in entries
      modifies item`value, this`fields
      ensures FieldsTied() && fields == old(fields)[item := Entry(item.key, value, item.circle, item.diff, item.removed)]
    {
      item.value := value;
      fields := fields[item := item.Fields()];
    }

    method WriteRemoved(item: TimingEntry)
      requires FieldsTied() && item in entries
      modifies item`removed, this`fields
      ensures FieldsTied()
      ensures fields == old(fields)[item := Dead(old(fields)[item])]
    {
      item.removed := true;
      fields := fields[item := item.Fields()];
    }

    method NewEntry(key: Key, value: Value, circle: int) returns (task: TimingEntry)
      requires FieldsTied()
      modifies this`entries, this`fields
      ensures FieldsTied() && fresh(task) && entries == old(entries) + {task} && task.key == key
      ensures fields == old(fields)[task := Entry(key, value, circle, 0, false)]
    {
      task := new TimingEntry(key, value, circle);
      entries := entries + {task};
      fields := fields[task := task.Fields()];
    }

    method Forget(key: Key)
      requires IndexTied()
      modifies timers, this`index
      ensures IndexTied() && index == old(index) - {key}
    {
      timers.Del(key);
      index := index - {key};
    }

    /** Whole intervals in a delay; `setTask` rounds shorter delays up to one. */
    function StepsIn(delay: int): (steps: nat)
      requires interval > 0
      ensures steps >= 1 && LastTickWithin(steps, delay)
    {
      if delay < interval then 1 else WholeIntervals(delay, interval); delay / interval
    }

    /** The `steps`-th tick from now is the last one not later than the delay, or the first one if
        the delay is below one interval. */
    ghost predicate LastTickWithin(steps: nat, delay: int) {
      if delay < interval then steps == 1 else steps * interval <= delay < (steps + 1) * interval
    }

    method GetPositionAndCircle(delay: int) returns (pos: int, circle: int)
      requires interval > 0 && delay >= interval && 0 <= tickedPos < numSlots
      ensures pos == NewPos(numSlots, tickedPos, StepsIn(delay)) && circle == NewCircle(numSlots, StepsIn(delay))
    {
      var steps := delay / interval;
      pos := (tickedPos + steps) % numSlots;
      circle := (steps - 1) / numSlots;
    }

    // ---- The updates of `WheelLayout`, carried out on the heap ----

    method Link(key: Key, value: Value, pos: int, circle: int) returns (task: TimingEntry)
      requires Tied() && 0 <= pos < numSlots && circle >= 0
      modifies this`slots, this`entries, this`fields, this`index, this`positions, timers, positions
      ensures Tied() && fresh(task) && entries == old(entries) + {task}
      ensures fresh(positions - old(positions)) && old(positions) <= positions
      ensures Mem() == Insert(old(Mem()), key, value, pos, circle, task)
    {
      task := NewEntry(key, value, circle);
      slots := slots[pos := slots[pos] + [task]];
      SetTimerPosition(pos, task);
    }

    method Reschedule(timer: PositionEntry, circle: int, diff: int, ghost key: Key)
      requires Tied() && key in index && timer == timers.Contents()[key]
      requires timer.item.key == key && !timer.item.removed && circle >= 0 && diff >= 0 && Indexed(Mem(), key)
      modifies timer.item`circle, timer.item`diff, this`fields
      ensures Tied() && Mem() == Rewrite(old(Mem()), key, timer.item.value, circle, diff)
    {
      WriteDistance(timer.item, circle, diff);
    }

    method Unlink(timer: PositionEntry, key: Key)
      requires Tied() && key in index && timer == timers.Contents()[key] && timer.item in entries
      modifies timer.item`removed, this`fields, timers, this`index
      ensures Tied() && Mem() == Kill(old(Mem()), key)
    {
      ghost var m := Mem();
      assert index[key].item == timer.item;
      WriteRemoved(timer.item);
      Forget(key);
      assert slots == m.slots && tickedPos == m.tickedPos;
    }

    method Supplant(timer: PositionEntry, pos: int, key: Key) returns (task: TimingEntry)
      requires Tied() && key in index && timer == timers.Contents()[key] && timer.item in entries && 0 <= pos < numSlots
      modifies this`slots, this`entries, this`fields, this`index, this`positions, timers, positions, timer.item`removed
      ensures Tied() && fresh(task) && entries == old(entries) + {task}
      ensures fresh(positions - old(positions)) && old(positions) <= positions
      ensures Mem() == Supersede(old(Mem()), key, old(timer.item.value), pos, task)
    {
      WriteRemoved(timer.item);
      task := Link(key, timer.item.value, pos, 0);
    }

    // ---- The operations, each doing what the model says ----

    method RemoveTask(key: Key)
      requires Valid()
      modifies timers, entries, this`fields, this`index, this`model
      ensures Valid() && model == RemoveIn(old(model), key)
    {
      var val := timers.Get(key);
      if val.Some? {
        RemoveLive(val.value, key);
      } else {
        RemoveAbsent(model, key);
      }
    }

    method RemoveLive(timer: PositionEntry, key: Key)
      requires Valid() && key in index && timer == timers.Contents()[key]
      modifies timers, entries, this`fields, this`index, this`model
      ensures Valid() && model == RemoveIn(old(model), key)
    {
      RepresentedTimer(Mem(), model, key);
      KillRepresents(Mem(), model, key);
      model := RemoveIn(model, key);
      Unlink(timer, key);
    }

    /** The branch of `setTask` for a key without a timer. */
    method InsertTask(key: Key, value: Value, pos: int, circle: int)
      requires Valid() && key !in index && 0 <= pos < numSlots && circle >= 0
      modifies this`slots, this`entries, this`fields, this`index, this`positions, this`model, timers, positions
      ensures Valid() && fresh(entries - old(entries)) && fresh(positions - old(positions))
      ensures model == Wheel(numSlots, tickedPos, old(model).timers[key := Timer(value, pos, circle, 0)])
    {
      ghost var m, w := Mem(), model;
      model := Wheel(numSlots, tickedPos, model.timers[key := Timer(value, pos, circle, 0)]);
      var task := Link(key, value, pos, circle);
      InsertRepresents(m, w, key, value, pos, circle, task);
    }

    /** The first two cases of `moveTask`: the entry stays and is told how much further to go. */
    method MoveOn(timer: PositionEntry, circle: int, diff: int, ghost key: Key, ghost t: Timer<Value>)
      requires Valid() && key in index && timer == timers.Contents()[key] && circle >= 0 && 0 <= diff < numSlots
      requires timer.pos >= 0 && t == Timer(timer.item.value, timer.pos, circle, diff)
      modifies timer.item`circle, timer.item`diff, this`fields, this`model
      ensures Valid() && model == Wheel(numSlots, tickedPos, old(model).timers[key := t])
    {
      RepresentedTimer(Mem(), model, key);
      RewriteRepresents(Mem(), model, key, timer.item.value, circle, diff);
      model := Wheel(numSlots, tickedPos, model.timers[key := t]);
      Reschedule(timer, circle, diff, key);
    }

    /** The third case of `moveTask`: a tombstone stays behind and a new entry takes over. */
    method MoveBack(timer: PositionEntry, pos: int, key: Key, ghost t: Timer<Value>) returns (ghost task: TimingEntry)
      requires Valid() && key in index && timer == timers.Contents()[key] && 0 <= pos < numSlots
      requires t == Timer(timer.item.value, pos, 0, 0)
      modifies this`slots, this`entries, this`fields, this`index, this`positions, this`model, timers, positions
      modifies timer.item`removed
      ensures Valid() && fresh(task) && entries == old(entries) + {task} && fresh(positions - old(positions))
      ensures model == Wheel(numSlots, tickedPos, old(model).timers[key := t])
    {
      ghost var m, w, value := Mem(), model, timer.item.value;
      RepresentedTimer(m, w, key);
      model := Wheel(numSlots, tickedPos, model.timers[key := t]);
      task := Supplant(timer, pos, key);
      SupersedeRepresents(m, w, key, value, pos, task);
    }

    /** `moveTask` once slot and circle are known. */
    method MoveEntry(timer: PositionEntry, pos: int, circle: int, key: Key, ghost t: Timer<Value>)
      returns (ghost added: set<TimingEntry>)
      requires Valid() && key in index && timer == timers.Contents()[key] && 0 <= pos < numSlots && circle >= 0
      requires t == MoveTo(model.timers[key], numSlots, pos, circle)
      modifies this`slots, this`entries, this`fields, this`index, this`positions, this`model, timers, positions, entries
      ensures Valid() && fresh(added) && entries == old(entries) + added && fresh(positions - old(positions))
      ensures model == Wheel(numSlots, tickedPos, old(model).timers[key := t])
    {
      RepresentedTimer(Mem(), model, key);
      added := {};
      if pos >= timer.pos {
        MoveOn(timer, circle, pos - timer.pos, key, t);
      } else if circle > 0 {
        MoveOn(timer, circle - 1, numSlots + pos - timer.pos, key, t);
      } else {
        ghost var task := MoveBack(timer, pos, key, t);
        added := {task};
      }
    }

    /** After a move the timer is due on the last tick not later than the delay, or a revolution
        later or earlier in the two cases of `MoveIsExactIff`. */
    ghost predicate MoveDue(w: Wheel<Key, Value>, key: Key, delay: int, due: int)
      requires WellFormed(w) && key in w.timers && interval > 0
    {
      exists steps: nat :: steps >= 1 && LastTickWithin(steps, delay)
        && due == steps + (if MovedLate(w.timers[key], w.numSlots, w.tickedPos, steps) then w.numSlots else 0)
                        - (if MovedEarly(w.timers[key], w.numSlots, w.tickedPos, steps) then w.numSlots else 0)
    }

    lemma MoveDueAfter(w: Wheel<Key, Value>, key: Key, delay: int)
      requires WellFormed(w) && key in w.timers && interval > 0
      ensures MoveDue(w, key, delay, RemainingOf(MoveIn(w, key, StepsIn(delay)), key))
    {
      MoveRemaining(w.timers[key], w.numSlots, w.tickedPos, StepsIn(delay));
    }

    /** Moves a timer, or runs it at once when the delay is below one interval. In the latter case
        the timer stays set and will fire again. */
    method MoveTask(key: Key, delay: int) returns (ran: Option<(Key, Value)>)
      requires Valid()
      modifies this`slots, this`entries, this`fields, this`index, this`positions, this`model, timers, positions, entries
      ensures Valid() && fresh(entries - old(entries)) && fresh(positions - old(positions))
      ensures delay >= interval ==> ran == None && model == MoveIn(old(model), key, StepsIn(delay))
      ensures delay >= interval && key in old(model).timers ==> MoveDue(old(model), key, delay, RemainingOf(model, key))
      ensures delay < interval ==> model == old(model)
      ensures delay < interval ==> ran == if key in model.timers then Some((key, model.timers[key].value)) else None
    {
      var val := timers.Get(key);
      if val.None? {
        return None;
      }
      var timer := val.value;
      RepresentedTimer(Mem(), model, key);
      if delay < interval {
        return Some((timer.item.key, timer.item.value));
      }
      var pos, circle := GetPositionAndCircle(delay);
      MoveDueAfter(model, key, delay);
      ghost var added := MoveEntry(timer, pos, circle, key, MoveTo(model.timers[key], numSlots, pos, circle));
      ran := None;
    }

    /** The branch of `setTask` for a key that has a timer: a new value, then a move. */
    method ResetTask(key: Key, value: Value, timer: PositionEntry, pos: int, circle: int)
      returns (ghost added: set<TimingEntry>)
      requires Valid() && key in index && timer == timers.Contents()[key] && timer.item in entries
      requires 0 <= pos < numSlots && circle >= 0
      modifies this`slots, this`entries, this`fields, this`index, this`positions, this`model, timers, positions, entries
      ensures Valid() && fresh(added) && entries == old(entries) + added && fresh(positions - old(positions))
      ensures model == Wheel(numSlots, tickedPos,
                             old(model).timers[key := MoveTo(WithValue(old(model).timers[key], value), numSlots, pos, circle)])
    {
      ghost var t := WithValue(model.timers[key], value);
      ghost var t' := MoveTo(t, numSlots, pos, circle);
      Overwrite(model.timers, key, t, t');
      WriteValue(timer, value, key, t);
      added := MoveEntry(timer, pos, circle, key, t');
    }

    method WriteValue(timer: PositionEntry, value: Value, ghost key: Key, ghost t: Timer<Value>)
      requires Valid() && key in index && timer == timers.Contents()[key]
      requires t == WithValue(model.timers[key], value)
      modifies timer.item`value, this`fields, this`model
      ensures Valid() && model == Wheel(numSlots, tickedPos, old(model).timers[key := t])
    {
      var item := timer.item;
      RepresentedTimer(Mem(), model, key);
      RewriteRepresents(Mem(), model, key, value, item.circle, item.diff);
      model := Wheel(numSlots, tickedPos, model.timers[key := t]);
      SetValue(item, value);
    }

    /** A timer set for an absent key fires once, on the last tick not later than its delay (or on
        the first tick, for a delay below one interval), whatever happens to other timers. */
    lemma SetFiresWithinDelay(w: Wheel<Key, Value>, key: Key, value: Value, delay: int, ops: seq<Op<Key, Value>>)
      returns (due: nat)
      requires interval > 0 && WellFormed(w) && key !in w.timers && Untouched(ops, key)
      ensures due >= 1 && LastTickWithin(due, delay)
      ensures FiredValues(SetIn(w, key, value, StepsIn(delay)), ops, key) == if Ticks(ops) >= due then [value] else []
    {
      due := StepsIn(delay);
      SetTimerFiresOnRequestedTick(w, key, value, due, ops);
    }

    method SetTask(key: Key, value: Value, delay: int)
      requires Valid()
      modifies this`slots, this`entries, this`fields, this`index, this`positions, this`model, timers, positions, entries
      ensures Valid() && fresh(entries - old(entries)) && fresh(positions - old(positions))
      ensures model == SetIn(old(model), key, value, StepsIn(delay))
      ensures key !in old(model).timers ==> LastTickWithin(RemainingOf(model, key), delay)
    {
      PositionIsExact(numSlots, tickedPos, StepsIn(delay));
      var pos, circle := GetPositionAndCircle(if delay < interval then interval else delay);
      var val := timers.Get(key);
      if val.Some? {
        assert val.value.item in entries by { RepresentedTimer(Mem(), model, key); }
        ghost var added := ResetTask(key, value, val.value, pos, circle);
      } else {
        InsertTask(key, value, pos, circle);
      }
    }

    // ---- The scan of one slot; `w` is the wheel before it and `done` the keys dealt with ----

    /** The entry at place `i` of the slot being scanned. */
    ghost predicate ScansAt(i: nat, task: TimingEntry, w: Wheel<Key, Value>, done: set<Key>)
      reads this`tickedPos, this`slots, this`fields, this`entries, entries, this`index, this`positions, timers, positions
    {
      && Tied() && MidScan(Mem(), i, w, done) && i < |slots[tickedPos]|
      && task == slots[tickedPos][i] && task in entries
    }

    /** A tombstone is dropped. */
    method ScanRemoved(i: nat, task: TimingEntry, ghost w: Wheel<Key, Value>, ghost done: set<Key>)
      requires ScansAt(i, task, w, done) && task.removed
      modifies this`slots
      ensures Tied() && MidScan(Mem(), i, w, done) && |slots[tickedPos]| == |old(slots)[tickedPos]| - 1
    {
      MidScanSweeps(Mem(), i, w, done);
      slots := slots[tickedPos := slots[tickedPos][..i] + slots[tickedPos][i + 1..]];
    }

    /** One full circle less to go. */
    method ScanCircle(i: nat, task: TimingEntry, ghost w: Wheel<Key, Value>, ghost done: set<Key>)
      requires ScansAt(i, task, w, done) && !task.removed && task.circle > 0
      modifies task`circle, task`diff, this`fields
      ensures Tied() && MidScan(Mem(), i + 1, w, done + {task.key})
    {
      MidScanEntry(Mem(), i, w, done);
      MidScanCircles(Mem(), i, w, done);
      WriteDistance(task, task.circle - 1, task.diff);
    }

    /** The entry fires: it leaves its list and the index. */
    method ScanDue(i: nat, task: TimingEntry, ghost w: Wheel<Key, Value>, ghost done: set<Key>)
      requires ScansAt(i, task, w, done) && !task.removed && task.circle == 0 && task.diff == 0
      modifies this`slots, this`index, timers
      ensures Tied() && MidScan(Mem(), i, w, done + {task.key}) && |slots[tickedPos]| == |old(slots)[tickedPos]| - 1
    {
      MidScanFires(Mem(), i, w, done);
      slots := slots[tickedPos := slots[tickedPos][..i] + slots[tickedPos][i + 1..]];
      Forget(task.key);
    }

    method Carry(i: nat, task: TimingEntry, pos: int)
      requires Tied() && task in entries && 0 <= tickedPos < |slots| && i < |slots[tickedPos]| && 0 <= pos < |slots|
      modifies this`slots, this`index, this`positions, this`fields, timers, positions, task`circle, task`diff
      ensures Tied() && fresh(positions - old(positions))
      ensures slots == Append(RemoveAt(old(slots), tickedPos, i), pos, task)
      ensures index == old(index)[task.key := Place(pos, task)]
      ensures fields == old(fields)[task := Entry(task.key, task.value, old(task.circle), 0, task.removed)]
    {
      slots := slots[tickedPos := slots[tickedPos][..i] + slots[tickedPos][i + 1..]];
      slots := slots[pos := slots[pos] + [task]];
      SetTimerPosition(pos, task);
      WriteDistance(task, task.circle, 0);
    }

    /** The entry moves on to the slot it was told; that is never the slot being scanned. */
    method ScanOnward(i: nat, task: TimingEntry, ghost w: Wheel<Key, Value>, ghost done: set<Key>)
      requires ScansAt(i, task, w, done) && !task.removed && task.circle == 0 && task.diff > 0
      modifies this`slots, this`index, this`positions, this`fields, timers, positions, task`circle, task`diff
      ensures Tied() && fresh(positions - old(positions))
      ensures MidScan(Mem(), i, w, done + {task.key}) && |slots[tickedPos]| == |old(slots)[tickedPos]| - 1
    {
      ghost var m := Mem();
      MidScanEntry(m, i, w, done);
      var pos := (tickedPos + task.diff) % numSlots;
      FurtherIsModulo(tickedPos, task.diff, numSlots);
      MidScanRelocates(m, i, w, done, pos);
      Reinsert(index, task.key, Place(pos, task));
      Carry(i, task, pos);
      assert Mem() == Relocate(m, i, pos);
    }

    /** One round of the loop in `scanAndRunTasks`. */
    method ScanOne(i: nat, ghost w: Wheel<Key, Value>, ghost done: set<Key>)
      returns (i': nat, due: Option<(Key, Value)>, ghost done': set<Key>)
      requires Tied() && MidScan(Mem(), i, w, done) && i < |slots[tickedPos]|
      modifies this`slots, this`index, this`positions, this`fields, timers, positions, entries
      ensures Tied() && fresh(positions - old(positions)) && MidScan(Mem(), i', w, done')
      ensures |slots[tickedPos]| - i' < |old(slots)[tickedPos]| - i
      ensures due.Some? ==> && due.value.0 in w.timers && due.value.0 !in done && done' == done + {due.value.0}
                            && Fires(w.timers[due.value.0], w.tickedPos) && due.value.1 == w.timers[due.value.0].value
      ensures due.None? ==>
                done <= done' && forall k | k in done' && k !in done :: k in w.timers && !Fires(w.timers[k], w.tickedPos)
    {
      MidScanEntry(Mem(), i, w, done);
      var task := slots[tickedPos][i];
      i', due, done' := i, None, done + {task.key};
      if task.removed {
        ScanRemoved(i, task, w, done);
        done' := done;
      } else if task.circle > 0 {
        ScanCircle(i, task, w, done);
        i' := i + 1;
      } else if task.diff > 0 {
        ScanOnward(i, task, w, done);
      } else {
        due := Some((task.key, task.value));
        ScanDue(i, task, w, done);
      }
    }

    /** The tasks handed to `runTasks`: the timers of `w` that fire among those in `done`, once each. */
    ghost predicate RunsDue(tasks: seq<(Key, Value)>, w: Wheel<Key, Value>, done: set<Key>) {
      && (forall j | 0 <= j < |tasks| :: tasks[j].0 in done && tasks[j].0 in w.timers
            && Fires(w.timers[tasks[j].0], w.tickedPos) && tasks[j].1 == w.timers[tasks[j].0].value)
      && (forall j, l | 0 <= j < l < |tasks| :: tasks[j].0 != tasks[l].0)
      && (forall k | k in done && k in w.timers && Fires(w.timers[k], w.tickedPos) :: (k, w.timers[k].value) in tasks)
    }

    method ScanAndRunTasks(ghost w: Wheel<Key, Value>) returns (tasks: seq<(Key, Value)>, ghost done: set<Key>)
      requires Tied() && MidScan(Mem(), 0, w, {})
      modifies this`slots, this`index, this`positions, this`fields, timers, positions, entries
      ensures Tied() && fresh(positions - old(positions))
      ensures MidScan(Mem(), |slots[w.tickedPos]|, w, done) && RunsDue(tasks, w, done)
    {
      tasks, done := [], {};
      var i: nat := 0;
      while i < |slots[tickedPos]|
        invariant Tied() && fresh(positions - old(positions)) && MidScan(Mem(), i, w, done) && RunsDue(tasks, w, done)
        decreases |slots[tickedPos]| - i
      {
        var due;
        i, due, done := ScanOne(i, w, done);
        if due.Some? {
          tasks := tasks + [due.value];
        }
      }
    }

    /** One tick: exactly the timers due now are run, each once and with its value, and every other
        timer comes one step closer. */
    method OnTick() returns (tasks: seq<(Key, Value)>)
      requires Valid()
      modifies this`tickedPos, this`model, this`slots, this`index, this`positions, this`fields, timers, positions, entries
      ensures Valid() && fresh(positions - old(positions))
      ensures model == TickIn(old(model))
      ensures forall j | 0 <= j < |tasks| ::
                tasks[j].0 in Fired(old(model), Tick) && Fired(old(model), Tick)[tasks[j].0] == tasks[j].1
      ensures forall j, l | 0 <= j < l < |tasks| :: tasks[j].0 != tasks[l].0
      ensures forall k | k in Fired(old(model), Tick) :: (k, Fired(old(model), Tick)[k]) in tasks
    {
      ghost var before := model;
      ghost var m := Mem();
      tickedPos := (tickedPos + 1) % numSlots;
      FurtherIsModulo(before.tickedPos, 1, numSlots);
      ghost var w := Wheel(before.numSlots, TickedPos(before), before.timers);
      TurnRepresents(m, before, tickedPos);
      MidScanStarts(Mem(), w);
      model := TickIn(before);
      ghost var done;
      tasks, done := ScanAndRunTasks(w);
      MidScanEnds(Mem(), before, w, done);
    }
  }
}
