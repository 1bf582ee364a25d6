/** `core/collection/rollingwindow.go`: a ring of buckets, one per time interval, that is reset
    lazily when the clock has moved on. The ring stands for the whole log of additions. */
module RollingWindows {
  import Modulo

  /** A bucket type: its value after `Reset`, and what its `Add` does. */
  datatype Kind<!T, !B> = Kind(empty: B, add: (B, T) -> B)

  datatype Event<T> = Event(at: int, value: T)

  /** Interval `id` is `[birth + id * interval, birth + (id + 1) * interval)`. */
  datatype Grid = Grid(birth: int, interval: int) {
    ghost predicate Valid() {
      interval > 0
    }

    ghost function IdOf(t: int): (id: int)
      requires Valid()
      ensures birth + id * interval <= t < birth + (id + 1) * interval
    {
      (t - birth) / interval
    }
  }

  datatype Ring<B> = Ring(buckets: seq<B>, offset: int, last: int) {
    ghost predicate Valid() {
      0 <= offset < |buckets|
    }
  }

  // ---- the log, grouped by interval

  ghost function Aggregate<T, B>(kind: Kind<T, B>, grid: Grid, log: seq<Event<T>>, id: int): (r: B)
    requires grid.Valid()
  {
    if log == [] then kind.empty
    else
      var e := log[|log| - 1];
      var earlier := Aggregate(kind, grid, log[..|log| - 1], id);
      if grid.IdOf(e.at) == id then kind.add(earlier, e.value) else earlier
  }

  ghost function Aggregates<T, B>(kind: Kind<T, B>, grid: Grid, log: seq<Event<T>>, from: int, to: int)
    : (r: seq<B>)
    requires grid.Valid()
    ensures |r| == if from <= to then to - from else 0
    ensures forall i | 0 <= i < |r| :: r[i] == Aggregate(kind, grid, log, from + i)
  {
    seq(if from <= to then to - from else 0, i => Aggregate(kind, grid, log, from + i))
  }

  lemma AggregateAppend<T, B>(kind: Kind<T, B>, grid: Grid, log: seq<Event<T>>, e: Event<T>, id: int)
    requires grid.Valid()
    ensures Aggregate(kind, grid, log + [e], id)
         == if grid.IdOf(e.at) == id then kind.add(Aggregate(kind, grid, log, id), e.value)
            else Aggregate(kind, grid, log, id)
  {
    assert (log + [e])[..|log|] == log;
  }

  ghost predicate AllUpTo<T>(grid: Grid, log: seq<Event<T>>, id: int)
    requires grid.Valid()
  {
    forall e | e in log :: grid.IdOf(e.at) <= id
  }

  /** An interval after every event is empty. */
  lemma {:induction false} AggregateLater<T, B>(kind: Kind<T, B>, grid: Grid, log: seq<Event<T>>, id: int, later: int)
    requires grid.Valid() && AllUpTo(grid, log, id) && id < later
    ensures Aggregate(kind, grid, log, later) == kind.empty
  {
    if log != [] {
      assert log[|log| - 1] in log;
      AggregateLater(kind, grid, log[..|log| - 1], id, later);
    }
  }

  // ---- the ring

  /** The slot `back` intervals behind `offset`. */
  function Slot(offset: int, back: int, size: int): (s: int)
    requires 0 <= offset < size && 0 <= back < size
    ensures 0 <= s < size
  {
    if back <= offset then offset - back else offset - back + size
  }

  /** The ring holds, for interval `id` and the `|buckets| - 1` before it, what the log says. */
  ghost predicate Holds<T(!new), B(!new)>(kind: Kind<T, B>, grid: Grid, log: seq<Event<T>>, ring: Ring<B>, id: int)
  {
    && grid.Valid() && ring.Valid()
    && ring.last == grid.birth + id * grid.interval
    && AllUpTo(grid, log, id)
    && forall back | 0 <= back < |ring.buckets| ::
         ring.buckets[Slot(ring.offset, back, |ring.buckets|)] == Aggregate(kind, grid, log, id - back)
  }

  function Span(last: int, now: int, interval: int, size: int): (r: int)
    requires interval > 0 && size > 0 && last <= now
    ensures 0 <= r <= size
  {
    var offset := (now - last) / interval;
    if offset < size then offset else size
  }

  function Cleared<B>(buckets: seq<B>, empty: B, offset: int, count: nat): (r: seq<B>)
    requires 0 <= offset < |buckets|
    ensures |r| == |buckets|
  {
    if count == 0 then buckets
    else Cleared(buckets, empty, offset, count - 1)[(offset + count) % |buckets| := empty]
  }

  /** `updateOffset` with its two clock readings: `seen` in `span`, `now` for the new start. */
  function Advance<B>(ring: Ring<B>, empty: B, interval: int, seen: int, now: int): (r: Ring<B>)
    requires ring.Valid() && interval > 0 && ring.last <= seen <= now
  {
    var size := |ring.buckets|;
    var span := Span(ring.last, seen, interval, size);
    if span == 0 then ring
    else Ring(Cleared(ring.buckets, empty, ring.offset, span), (ring.offset + span) % size,
              now - (now - ring.last) % interval)
  }

  /** The two readings lead to the same interval, or nothing in the ring survives. */
  predicate InStep(last: int, interval: int, size: int, seen: int, now: int)
    requires interval > 0 && size > 0 && last <= seen <= now
  {
    var a := (seen - last) / interval;
    a == 0 || a == (now - last) / interval || a >= size
  }

  /** The reading that decides which interval an addition belongs to. */
  function Filed(last: int, interval: int, seen: int, now: int): (t: int)
    requires interval > 0
  {
    if (seen - last) / interval == 0 then seen else now
  }

  lemma SlotForward(offset: int, back: int, size: int)
    requires 0 <= offset < size && 0 <= back < size
    ensures (offset + 1) % size == if offset + 1 < size then offset + 1 else 0
    ensures back + 1 < size ==> Slot((offset + 1) % size, back + 1, size) == Slot(offset, back, size)
                             != (offset + 1) % size
  {
    Modulo.WrapOnce(offset + 1, size);
  }

  lemma ModStep(a: nat, size: nat)
    requires size > 0
    ensures (a + 1) % size == (a % size + 1) % size
  {
    Modulo.ModShift(a % size + 1, a / size, size);
    assert a == (a / size) * size + a % size;
  }

  /** Clearing `count` slots shifts the ring by `count` intervals; the new ones are empty. */
  lemma {:induction false} ClearedShifts<B>(buckets: seq<B>, empty: B, offset: int, count: nat, back: int)
    requires 0 <= offset < |buckets| && count <= |buckets| && 0 <= back < |buckets|
    ensures Cleared(buckets, empty, offset, count)[Slot((offset + count) % |buckets|, back, |buckets|)]
         == if back < count then empty else buckets[Slot(offset, back - count, |buckets|)]
  {
    var size := |buckets|;
    if count == 0 {
      Modulo.WrapOnce(offset, size);
    } else {
      var o := (offset + count - 1) % size;
      ModStep(offset + count - 1, size);
      if back > 0 {
        SlotForward(o, back - 1, size);
        ClearedShifts(buckets, empty, offset, count - 1, back - 1);
      }
    }
  }

  /** A reading `now` at or after the start of interval `id` is that many intervals later. */
  lemma IdAfter(grid: Grid, id: int, last: int, now: int)
    requires grid.Valid() && last == grid.birth + id * grid.interval && last <= now
    ensures grid.IdOf(now) == id + (now - last) / grid.interval
    ensures now - (now - last) % grid.interval == grid.birth + grid.IdOf(now) * grid.interval
  {
    var n := grid.interval;
    var q, r := (now - last) / n, (now - last) % n;
    assert now - grid.birth == (id + q) * n + r by {
      assert (id + q) * n == id * n + q * n;
    }
    Modulo.QuotientUnique(now - grid.birth, id + q, r, n);
  }

  /** `updateOffset` keeps the ring true to the log when its clock readings are in step. */
  lemma AdvanceKeeps<T(!new), B(!new)>(kind: Kind<T, B>, grid: Grid, log: seq<Event<T>>, ring: Ring<B>,
                       id: int, seen: int, now: int)
    requires Holds(kind, grid, log, ring, id) && ring.last <= seen <= now
    requires InStep(ring.last, grid.interval, |ring.buckets|, seen, now)
    ensures Holds(kind, grid, log, Advance(ring, kind.empty, grid.interval, seen, now),
                  grid.IdOf(Filed(ring.last, grid.interval, seen, now)))
  {
    var size := |ring.buckets|;
    var span := Span(ring.last, seen, grid.interval, size);
    IdAfter(grid, id, ring.last, seen);
    IdAfter(grid, id, ring.last, now);
    if span > 0 {
      Modulo.QuotientMonotone(seen - ring.last, now - ring.last, grid.interval);
      var r := Advance(ring, kind.empty, grid.interval, seen, now);
      var id' := grid.IdOf(now);
      assert 0 <= r.offset < size;
      forall back | 0 <= back < size
        ensures r.buckets[Slot(r.offset, back, size)] == Aggregate(kind, grid, log, id' - back)
      {
        ClearedShifts(ring.buckets, kind.empty, ring.offset, span, back);
        if back < span {
          AggregateLater(kind, grid, log, id, id' - back);
        }
      }
    }
  }

  /** With the readings out of step, some log is misread: its only event has moved to a later
      interval. */
  lemma DriftMisreads<T(!new), B(!new)>(kind: Kind<T, B>, grid: Grid, v: T, size: int, offset: int, id: int,
                        seen: int, now: int)
    returns (log: seq<Event<T>>, ring: Ring<B>)
    requires grid.Valid() && 0 <= offset < size
    requires kind.add(kind.empty, v) != kind.empty
    requires grid.birth + id * grid.interval <= seen <= now
    requires !InStep(grid.birth + id * grid.interval, grid.interval, size, seen, now)
    ensures |ring.buckets| == size && ring.offset == offset && ring.last == grid.birth + id * grid.interval
    ensures Holds(kind, grid, log, ring, id)
    ensures forall id' :: !Holds(kind, grid, log, Advance(ring, kind.empty, grid.interval, seen, now), id')
  {
    var last := grid.birth + id * grid.interval;
    var e := Event(last, v);
    log := [e];
    ring := Ring(seq(size, i => if i == offset then kind.add(kind.empty, v) else kind.empty), offset, last);
    IdAfter(grid, id, last, last);
    IdAfter(grid, id, last, now);
    forall i ensures Aggregate(kind, grid, log, i) == if i == id then kind.add(kind.empty, v) else kind.empty {
      AggregateAppend(kind, grid, [], e, i);
      assert [] + [e] == log;
    }
    Modulo.QuotientMonotone(seen - last, now - last, grid.interval);
    var span := (seen - last) / grid.interval;
    var r := Advance(ring, kind.empty, grid.interval, seen, now);
    ClearedShifts(ring.buckets, kind.empty, offset, span, span);
    assert r.buckets[Slot(r.offset, span, size)] == kind.add(kind.empty, v);
    forall id' ensures !Holds(kind, grid, log, r, id') {
      if Holds(kind, grid, log, r, id') {
        Modulo.ProductUnique(id', grid.IdOf(now), grid.interval);
      }
    }
  }

  /** Exactly when `updateOffset` is right about every log. */
  lemma AdvanceKeepsIff<T(!new), B(!new)>(kind: Kind<T, B>, grid: Grid, v: T, size: int, offset: int, id: int,
                          seen: int, now: int)
    requires grid.Valid() && 0 <= offset < size
    requires kind.add(kind.empty, v) != kind.empty
    requires grid.birth + id * grid.interval <= seen <= now
    ensures InStep(grid.birth + id * grid.interval, grid.interval, size, seen, now)
       <==> forall log, ring: Ring<B> |
              Holds(kind, grid, log, ring, id) && |ring.buckets| == size && ring.offset == offset
              :: exists id' :: Holds(kind, grid, log, Advance(ring, kind.empty, grid.interval, seen, now), id')
  {
    var last := grid.birth + id * grid.interval;
    if InStep(last, grid.interval, size, seen, now) {
      forall log, ring: Ring<B> | Holds(kind, grid, log, ring, id) && |ring.buckets| == size && ring.offset == offset
        ensures exists id' :: Holds(kind, grid, log, Advance(ring, kind.empty, grid.interval, seen, now), id')
      {
        AdvanceKeeps(kind, grid, log, ring, id, seen, now);
      }
    } else {
      var log, ring := DriftMisreads(kind, grid, v, size, offset, id, seen, now);
    }
  }

  function Put<T, B>(kind: Kind<T, B>, ring: Ring<B>, v: T): (r: Ring<B>)
    requires ring.Valid()
  {
    Ring(ring.buckets[ring.offset := kind.add(ring.buckets[ring.offset], v)], ring.offset, ring.last)
  }

  lemma PutKeeps<T(!new), B(!new)>(kind: Kind<T, B>, grid: Grid, log: seq<Event<T>>, ring: Ring<B>, e: Event<T>)
    requires grid.Valid() && Holds(kind, grid, log, ring, grid.IdOf(e.at))
    ensures Holds(kind, grid, log + [e], Put(kind, ring, e.value), grid.IdOf(e.at))
  {
    var id := grid.IdOf(e.at);
    var r := Put(kind, ring, e.value);
    forall back | 0 <= back < |r.buckets|
      ensures r.buckets[Slot(r.offset, back, |r.buckets|)] == Aggregate(kind, grid, log + [e], id - back)
    {
      AggregateAppend(kind, grid, log, e, id - back);
    }
  }

  lemma StartOfLatest<T(!new), B(!new)>(kind: Kind<T, B>, grid: Grid, log: seq<Event<T>>, ring: Ring<B>, id: int)
    requires Holds(kind, grid, log, ring, id)
    ensures grid.IdOf(ring.last) == id
  {
    IdAfter(grid, id, ring.last, ring.last);
  }

  /** `Add` on the ring is `Add` on the log. */
  lemma AddKeeps<T(!new), B(!new)>(kind: Kind<T, B>, grid: Grid, log: seq<Event<T>>, ring: Ring<B>, v: T,
                   seen: int, now: int)
    requires grid.Valid() && ring.last <= seen <= now
    requires Holds(kind, grid, log, ring, grid.IdOf(ring.last))
    requires InStep(ring.last, grid.interval, |ring.buckets|, seen, now)
    ensures var r := Put(kind, Advance(ring, kind.empty, grid.interval, seen, now), v);
            Holds(kind, grid, log + [Event(Filed(ring.last, grid.interval, seen, now), v)], r, grid.IdOf(r.last))
  {
    var advanced := Advance(ring, kind.empty, grid.interval, seen, now);
    var e := Event(Filed(ring.last, grid.interval, seen, now), v);
    AdvanceKeeps(kind, grid, log, ring, grid.IdOf(ring.last), seen, now);
    PutKeeps(kind, grid, log, advanced, e);
    StartOfLatest(kind, grid, log, advanced, grid.IdOf(e.at));
  }

  // ---- what Reduce visits

  ghost function Fold<A, B>(fn: (A, B) -> A, a: A, bs: seq<B>): (r: A) {
    if bs == [] then a else fn(Fold(fn, a, bs[..|bs| - 1]), bs[|bs| - 1])
  }

  lemma FoldAppend<A, B>(fn: (A, B) -> A, a: A, bs: seq<B>, b: B)
    ensures Fold(fn, a, bs + [b]) == fn(Fold(fn, a, bs), b)
  {
    assert (bs + [b])[..|bs|] == bs;
  }

  lemma {:induction false} FoldNeutral<A(!new), B>(fn: (A, B) -> A, a: A, bs: seq<B>, count: nat, empty: B)
    requires count <= |bs|
    requires forall i | count <= i < |bs| :: bs[i] == empty
    requires forall x :: fn(x, empty) == x
    ensures Fold(fn, a, bs) == Fold(fn, a, bs[..count])
    decreases |bs|
  {
    if count < |bs| {
      var init := bs[..|bs| - 1];
      FoldNeutral(fn, a, init, count, empty);
      assert init[..count] == bs[..count];
    } else {
      assert bs[..count] == bs;
    }
  }

  /** How many buckets `Reduce` visits. */
  function Diff(ignoreCurrent: bool, size: int, span: int): (r: int) {
    if span == 0 && ignoreCurrent then size - 1 else size - span
  }

  /** Walking forward from `offset + span + 1` visits the oldest live interval first. */
  lemma SlotWalk(offset: int, span: int, i: int, size: int)
    requires 0 <= offset < size && 0 <= span && 0 <= i && span + i < size
    ensures ((offset + span + 1) % size + i) % size == Slot(offset, size - 1 - span - i, size)
  {
    Modulo.WrapOnce(offset + span + 1, size);
    Modulo.WrapOnce((offset + span + 1) % size + i, size);
  }

  /** The buckets that `Reduce` visits, in order. */
  ghost function Visited<B>(ring: Ring<B>, interval: int, now: int, ignoreCurrent: bool): (r: seq<B>)
    requires ring.Valid() && interval > 0 && ring.last <= now
    ensures forall b | b in r :: b in ring.buckets
  {
    var size := |ring.buckets|;
    var span := Span(ring.last, now, interval, size);
    var diff := Diff(ignoreCurrent, size, span);
    seq(if diff > 0 then diff else 0, i => ring.buckets[((ring.offset + span + 1) % size + i) % size])
  }

  /** On a ring that holds a log, they are what the log says about the intervals from the oldest of
      the window up to the horizon. */
  lemma VisitedIsLog<T(!new), B(!new)>(kind: Kind<T, B>, grid: Grid, log: seq<Event<T>>, ring: Ring<B>, id: int,
                                       now: int, ignoreCurrent: bool)
    requires Holds(kind, grid, log, ring, id) && ring.last <= now
    ensures Visited(ring, grid.interval, now, ignoreCurrent)
         == Aggregates(kind, grid, log, grid.IdOf(now) - |ring.buckets| + 1,
                       Horizon(ignoreCurrent, id, grid.IdOf(now)))
  {
    var size := |ring.buckets|;
    var span := Span(ring.last, now, grid.interval, size);
    var current := grid.IdOf(now);
    IdAfter(grid, id, ring.last, now);
    var visited := Visited(ring, grid.interval, now, ignoreCurrent);
    var wanted := Aggregates(kind, grid, log, current - size + 1, Horizon(ignoreCurrent, id, current));
    assert |visited| == |wanted|;
    forall i | 0 <= i < |visited| ensures visited[i] == wanted[i] {
      SlotWalk(ring.offset, span, i, size);
      var back := size - 1 - span - i;
      assert ring.buckets[Slot(ring.offset, back, size)] == Aggregate(kind, grid, log, id - back);
      assert id - back == current - size + 1 + i;
    }
  }

  /** The end of the intervals that `Reduce` looks at. */
  ghost function Horizon(ignoreCurrent: bool, id: int, current: int): (r: int) {
    if current == id && ignoreCurrent then id else id + 1
  }

  /** The last `size` intervals, without the current one when it is ignored. */
  ghost function Recent<T, B>(kind: Kind<T, B>, grid: Grid, log: seq<Event<T>>, current: int, size: int,
                              ignoreCurrent: bool)
    : (r: seq<B>)
    requires grid.Valid()
  {
    Aggregates(kind, grid, log, current - size + 1, if ignoreCurrent then current else current + 1)
  }

  /** The intervals that `Reduce` passes over hold nothing, so leaving them out changes no fold
      that ignores empty buckets. */
  lemma HorizonSuffices<T, A(!new), B>(kind: Kind<T, B>, grid: Grid, log: seq<Event<T>>, id: int, current: int,
                             size: int, ignoreCurrent: bool, fn: (A, B) -> A, a: A)
    requires grid.Valid() && AllUpTo(grid, log, id) && id <= current && size > 0
    requires forall x :: fn(x, kind.empty) == x
    ensures Fold(fn, a, Aggregates(kind, grid, log, current - size + 1, Horizon(ignoreCurrent, id, current)))
         == Fold(fn, a, Recent(kind, grid, log, current, size, ignoreCurrent))
  {
    var from := current - size + 1;
    var all := Recent(kind, grid, log, current, size, ignoreCurrent);
    var some := Aggregates(kind, grid, log, from, Horizon(ignoreCurrent, id, current));
    assert |some| <= |all|;
    forall i | |some| <= i < |all| ensures all[i] == kind.empty {
      AggregateLater(kind, grid, log, id, from + i);
    }
    FoldNeutral(fn, a, all, |some|, kind.empty);
    assert all[..|some|] == some;
  }

  class RollingWindow<T(!new), B(!new)> {
    const kind: Kind<T, B>
    const size: int
    const interval: int
    const ignoreCurrent: bool
    const buckets: array<B>
    var offset: int
    var lastTime: int

    ghost const birth: int
    /** Every addition so far, with the clock reading that filed it. */
    ghost var log: seq<Event<T>>

    ghost predicate Valid()
      reads this`offset
    {
      size == buckets.Length && interval > 0 && 0 <= offset < size
    }

    ghost function Intervals(): (g: Grid) {
      Grid(birth, interval)
    }

    ghost function State(): (r: Ring<B>)
      reads this`offset, this`lastTime, buckets
    {
      Ring(buckets[..], offset, lastTime)
    }

    /** The interval that starts at `lastTime`. */
    ghost function Latest(): (id: int)
      requires Valid()
      reads this`offset, this`lastTime
    {
      Intervals().IdOf(lastTime)
    }

    /** The buckets are the log, grouped by interval. */
    ghost predicate Faithful()
      reads this`offset, this`lastTime, this`log, buckets
    {
      Valid() && Holds(kind, Intervals(), log, State(), Latest())
    }

    constructor (kind: Kind<T, B>, size: int, interval: int, ignoreCurrent: bool, now: int)
      requires size >= 1 && interval > 0
      ensures Valid() && Faithful() && log == [] && lastTime == now && fresh(buckets)
      ensures this.kind == kind && this.size == size && this.interval == interval
      ensures this.ignoreCurrent == ignoreCurrent && birth == now
      ensures State() == Ring(seq(size, _ => kind.empty), 0, now)
    {
      this.kind, this.size, this.interval, this.ignoreCurrent := kind, size, interval, ignoreCurrent;
      buckets := new B[size](_ => kind.empty);
      offset, lastTime, birth, log := 0, now, now, [];
      new;
      assert Intervals().IdOf(lastTime) == 0;
    }

    method GetSpan(now: int) returns (r: int)
      requires Valid() && lastTime <= now
      ensures r == Span(lastTime, now, interval, size)
    {
      var offset := (now - lastTime) / interval;
      if 0 <= offset < size {
        return offset;
      }
      return size;
    }

    /** The loop of `updateOffset`. */
    method ClearBuckets(offset: int, span: int)
      requires size == buckets.Length && 0 <= offset < size && 0 <= span <= size
      modifies buckets
      ensures buckets[..] == Cleared(old(buckets[..]), kind.empty, offset, span)
    {
      var i := 0;
      while i < span
        invariant 0 <= i <= span
        invariant buckets[..] == Cleared(old(buckets[..]), kind.empty, offset, i)
      {
        buckets[(offset + i + 1) % size] := kind.empty;
        i := i + 1;
      }
    }

    method UpdateOffset(seen: int, now: int)
      requires Valid() && lastTime <= seen <= now
      modifies this`offset, this`lastTime, buckets
      ensures Valid()
      ensures State() == Advance(old(State()), kind.empty, interval, seen, now)
    {
      var span := GetSpan(seen);
      if span <= 0 {
        return;
      }
      ClearBuckets(offset, span);
      offset := (offset + span) % size;
      lastTime := now - (now - lastTime) % interval;
    }

    /** An addition joins the log, and a faithful window stays faithful unless the clock moved to
        another interval between the two readings. */
    method Add(v: T, seen: int, now: int)
      requires Valid() && lastTime <= seen <= now
      modifies this`offset, this`lastTime, this`log, buckets
      ensures Valid()
      ensures State() == Put(kind, Advance(old(State()), kind.empty, interval, seen, now), v)
      ensures log == old(log) + [Event(Filed(old(lastTime), interval, seen, now), v)]
      ensures old(Faithful()) && InStep(old(lastTime), interval, size, seen, now) ==> Faithful()
      ensures lastTime <= now
    {
      ghost var ring, before := State(), log;
      UpdateOffset(seen, now);
      assert offset % size == offset by {
        Modulo.WrapOnce(offset, size);
      }
      PutBucket(offset % size, v);
      log := before + [Event(Filed(ring.last, interval, seen, now), v)];
      if old(Faithful()) && InStep(ring.last, interval, size, seen, now) {
        AddKeeps(kind, Intervals(), before, ring, v, seen, now);
      }
    }

    method PutBucket(at: int, v: T)
      requires Valid() && at == offset
      modifies buckets
      ensures State() == Put(kind, old(State()), v)
    {
      buckets[at] := kind.add(buckets[at], v);
    }

    /** `Reduce` runs `fn` over the intervals of the window in chronological order: on a faithful
        ring, over what the whole log says about each of them, after a gap of any length. */
    method Reduce<A(!new)>(fn: (A, B) -> A, a0: A, now: int) returns (a: A)
      requires Valid() && lastTime <= now
      ensures a == Fold(fn, a0, Visited(State(), interval, now, ignoreCurrent))
      ensures Faithful() ==>
                a == Fold(fn, a0, Aggregates(kind, Intervals(), log, Intervals().IdOf(now) - size + 1,
                                             Horizon(ignoreCurrent, Latest(), Intervals().IdOf(now))))
      ensures Faithful() && (forall x :: fn(x, kind.empty) == x) ==>
                a == Fold(fn, a0, Recent(kind, Intervals(), log, Intervals().IdOf(now), size, ignoreCurrent))
    {
      if Faithful() {
        VisitsTheLog(fn, a0, now);
      }
      a := Visit(fn, a0, now);
    }

    lemma VisitsTheLog<A(!new)>(fn: (A, B) -> A, a0: A, now: int)
      requires Faithful() && lastTime <= now
      ensures Visited(State(), interval, now, ignoreCurrent)
           == Aggregates(kind, Intervals(), log, Intervals().IdOf(now) - size + 1,
                         Horizon(ignoreCurrent, Latest(), Intervals().IdOf(now)))
      ensures (forall x :: fn(x, kind.empty) == x) ==>
                Fold(fn, a0, Visited(State(), interval, now, ignoreCurrent))
                == Fold(fn, a0, Recent(kind, Intervals(), log, Intervals().IdOf(now), size, ignoreCurrent))
    {
      VisitedIsLog(kind, Intervals(), log, State(), Latest(), now, ignoreCurrent);
      if forall x :: fn(x, kind.empty) == x {
        IdAfter(Intervals(), Latest(), lastTime, now);
        HorizonSuffices(kind, Intervals(), log, Latest(), Intervals().IdOf(now), size, ignoreCurrent, fn, a0);
      }
    }

    method Visit<A>(fn: (A, B) -> A, a0: A, now: int) returns (a: A)
      requires Valid() && lastTime <= now
      ensures a == Fold(fn, a0, Visited(State(), interval, now, ignoreCurrent))
    {
      var span := GetSpan(now);
      a := Walk((offset + span + 1) % size, Diff(ignoreCurrent, size, span), fn, a0,
                Visited(State(), interval, now, ignoreCurrent));
    }

    /** `window.reduce` */
    method Walk<A>(start: int, count: int, fn: (A, B) -> A, a0: A, ghost visited: seq<B>) returns (a: A)
      requires size == buckets.Length > 0 && |visited| == if count > 0 then count else 0
      requires forall i | 0 <= i < |visited| :: visited[i] == buckets[(start + i) % size]
      ensures a == Fold(fn, a0, visited)
    {
      a := a0;
      var i := 0;
      while i < count
        invariant 0 <= i <= |visited|
        invariant a == Fold(fn, a0, visited[..i])
      {
        FoldAppend(fn, a0, visited[..i], visited[i]);
        assert visited[..i] + [visited[i]] == visited[..i + 1];
        a := fn(a, buckets[(start + i) % size]);
        i := i + 1;
      }
      assert visited[..i] == visited;
    }
  }
}
