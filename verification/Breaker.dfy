/** `core/breaker/googlebreaker.go` and `core/breaker/bucket.go`: client-side throttling over a
    rolling window of outcomes. Float arithmetic is exact here. */
module Breakers {
  import opened Options
  import opened RollingWindows

  const SUCCESS := 0
  const FAIL := 1
  const DROP := 2

  const SECOND := 1_000_000_000
  const WINDOW := 10 * SECOND
  const BUCKETS := 40
  const INTERVAL := WINDOW / BUCKETS
  const FORCE_PASS := SECOND
  const K := 1.5
  const MIN_K := 1.1
  const PROTECTION := 5

  datatype Bucket = Bucket(sum: int, success: int, failure: int, dropped: int)

  const EMPTY := Bucket(0, 0, 0, 0)

  /** `bucket.Add`: any mark that is neither `fail` nor `drop` is a success. */
  function Bump(b: Bucket, v: int): (r: Bucket) {
    if v == FAIL then Bucket(b.sum + 1, b.success, b.failure + 1, b.dropped)
    else if v == DROP then Bucket(b.sum + 1, b.success, b.failure, b.dropped + 1)
    else Bucket(b.sum + 1, b.success + 1, b.failure, b.dropped)
  }

  function BucketKind(): (kind: Kind<int, Bucket>) {
    Kind(EMPTY, Bump)
  }

  datatype Outcome = Succeeded | Failed | Dropped

  function OutcomeOf(v: int): (o: Outcome) {
    if v == FAIL then Failed else if v == DROP then Dropped else Succeeded
  }

  /** How many logged events in the intervals `[from, to)` had the given outcome. */
  ghost function Count(grid: Grid, log: seq<Event<int>>, o: Outcome, from: int, to: int): (n: nat)
    requires grid.Valid()
  {
    if log == [] then 0
    else
      var e := log[|log| - 1];
      Count(grid, log[..|log| - 1], o, from, to)
      + if OutcomeOf(e.value) == o && from <= grid.IdOf(e.at) < to then 1 else 0
  }

  lemma {:induction false} CountSplit(grid: Grid, log: seq<Event<int>>, o: Outcome, from: int, mid: int, to: int)
    requires grid.Valid() && from <= mid <= to
    ensures Count(grid, log, o, from, to) == Count(grid, log, o, from, mid) + Count(grid, log, o, mid, to)
  {
    if log != [] {
      CountSplit(grid, log[..|log| - 1], o, from, mid, to);
    }
  }

  lemma {:induction false} CountNothing(grid: Grid, log: seq<Event<int>>, o: Outcome, from: int, to: int)
    requires grid.Valid()
    requires from >= to || forall e | e in log :: OutcomeOf(e.value) != o
    ensures Count(grid, log, o, from, to) == 0
  {
    if log != [] {
      assert log[|log| - 1] in log;
      CountNothing(grid, log[..|log| - 1], o, from, to);
    }
  }

  /** A bucket counts the outcomes of its interval, and `Sum` is their total. */
  lemma {:induction false} BucketCounts(grid: Grid, log: seq<Event<int>>, id: int)
    requires grid.Valid()
    ensures var b := Aggregate(BucketKind(), grid, log, id);
            && b.success == Count(grid, log, Succeeded, id, id + 1)
            && b.failure == Count(grid, log, Failed, id, id + 1)
            && b.dropped == Count(grid, log, Dropped, id, id + 1)
            && b.sum == b.success + b.failure + b.dropped
  {
    if log != [] {
      BucketCounts(grid, log[..|log| - 1], id);
    }
  }

  // ---- history

  datatype WindowResult = WindowResult(accepts: int, total: int, failingBuckets: int, workingBuckets: int)

  const NOTHING := WindowResult(0, 0, 0, 0)

  /** The callback of `history`. */
  function Tally(r: WindowResult, b: Bucket): (r': WindowResult) {
    WindowResult(
      r.accepts + b.success,
      r.total + b.sum,
      if b.success > 0 then 0 else if b.failure > 0 then r.failingBuckets + 1 else r.failingBuckets,
      if b.failure > 0 then 0 else if b.success > 0 then r.workingBuckets + 1 else r.workingBuckets)
  }

  /** Buckets that `good` picks out, with none that `bad` picks out at or after them. */
  ghost function Streak(bs: seq<Bucket>, good: Bucket -> bool, bad: Bucket -> bool): (s: set<int>) {
    set i | 0 <= i < |bs| && good(bs[i]) && Unbroken(bs, bad, i)
  }

  ghost predicate Unbroken(bs: seq<Bucket>, bad: Bucket -> bool, i: int)
    requires 0 <= i
  {
    forall j | i <= j < |bs| :: !bad(bs[j])
  }

  predicate Working(b: Bucket) {
    b.success > 0
  }

  predicate Failing(b: Bucket) {
    b.failure > 0
  }

  lemma StreakAppend(init: seq<Bucket>, b: Bucket, good: Bucket -> bool, bad: Bucket -> bool)
    ensures |Streak(init + [b], good, bad)|
         == if bad(b) then 0 else |Streak(init, good, bad)| + if good(b) then 1 else 0
  {
    var bs, n := init + [b], |init|;
    assert bs[n] == b;
    if bad(b) {
      assert Streak(bs, good, bad) == {};
    } else {
      forall i | 0 <= i < n ensures Unbroken(bs, bad, i) == Unbroken(init, bad, i) {
        assert forall j | i <= j < n :: bs[j] == init[j];
      }
      assert Unbroken(bs, bad, n);
      assert Streak(bs, good, bad) == Streak(init, good, bad) + if good(b) then {n} else {};
    }
  }

  /** `history` measures two streaks at the recent end of the window: buckets with successes that
      no failing bucket is or follows, and buckets with failures that no working one is or
      follows. */
  lemma {:induction false} HistoryMeasuresStreaks(bs: seq<Bucket>)
    ensures Fold(Tally, NOTHING, bs).workingBuckets == |Streak(bs, Working, Failing)|
    ensures Fold(Tally, NOTHING, bs).failingBuckets == |Streak(bs, Failing, Working)|
  {
    if bs != [] {
      var init, b := bs[..|bs| - 1], bs[|bs| - 1];
      assert bs == init + [b];
      HistoryMeasuresStreaks(init);
      StreakAppend(init, b, Working, Failing);
      StreakAppend(init, b, Failing, Working);
    }
  }

  /** The two streaks exclude each other, and neither exceeds the window. */
  lemma {:induction false} StreaksExclude(bs: seq<Bucket>)
    ensures var h := Fold(Tally, NOTHING, bs);
            && 0 <= h.failingBuckets <= |bs| && 0 <= h.workingBuckets <= |bs|
            && !(h.failingBuckets > 0 && h.workingBuckets > 0)
  {
    if bs != [] {
      StreaksExclude(bs[..|bs| - 1]);
    }
  }

  lemma TallyExtend(grid: Grid, log: seq<Event<int>>, from: int, to: int)
    requires grid.Valid() && from < to
    ensures Fold(Tally, NOTHING, Aggregates(BucketKind(), grid, log, from, to))
         == Tally(Fold(Tally, NOTHING, Aggregates(BucketKind(), grid, log, from, to - 1)),
                  Aggregate(BucketKind(), grid, log, to - 1))
  {
    var bs := Aggregates(BucketKind(), grid, log, from, to);
    var init := Aggregates(BucketKind(), grid, log, from, to - 1);
    var b := Aggregate(BucketKind(), grid, log, to - 1);
    assert bs == init + [b];
    FoldAppend(Tally, NOTHING, init, b);
  }

  lemma {:induction false} TallyCounts(grid: Grid, log: seq<Event<int>>, from: int, to: int)
    requires grid.Valid() && from <= to
    ensures var h := Fold(Tally, NOTHING, Aggregates(BucketKind(), grid, log, from, to));
            && h.accepts == Count(grid, log, Succeeded, from, to)
            && h.total == Count(grid, log, Succeeded, from, to) + Count(grid, log, Failed, from, to)
                        + Count(grid, log, Dropped, from, to)
    decreases (to - from)
  {
    if from == to {
      CountNothing(grid, log, Succeeded, from, to);
      CountNothing(grid, log, Failed, from, to);
      CountNothing(grid, log, Dropped, from, to);
    } else {
      TallyCounts(grid, log, from, to - 1);
      TallyExtend(grid, log, from, to);
      BucketCounts(grid, log, to - 1);
      CountSplit(grid, log, Succeeded, from, to - 1, to);
      CountSplit(grid, log, Failed, from, to - 1, to);
      CountSplit(grid, log, Dropped, from, to - 1, to);
    }
  }

  ghost predicate Counts(h: WindowResult) {
    && 0 <= h.accepts <= h.total
    && 0 <= h.failingBuckets <= BUCKETS && 0 <= h.workingBuckets <= BUCKETS
  }

  /** What `history` computes from the log. */
  ghost function WindowHistory(grid: Grid, log: seq<Event<int>>, current: int): (h: WindowResult)
    requires grid.Valid()
    ensures Counts(h)
  {
    TallyCounts(grid, log, current - BUCKETS + 1, current + 1);
    StreaksExclude(Recent(BucketKind(), grid, log, current, BUCKETS, false));
    Fold(Tally, NOTHING, Recent(BucketKind(), grid, log, current, BUCKETS, false))
  }

  /** `accepts` and `total` are counts over the last 40 intervals of the log. */
  lemma HistoryCounts(grid: Grid, log: seq<Event<int>>, current: int)
    requires grid.Valid()
    ensures var h := WindowHistory(grid, log, current);
            var from := current - BUCKETS + 1;
            && h.accepts == Count(grid, log, Succeeded, from, current + 1)
            && h.total == h.accepts + Count(grid, log, Failed, from, current + 1)
                        + Count(grid, log, Dropped, from, current + 1)
            && !(h.failingBuckets > 0 && h.workingBuckets > 0)
  {
    TallyCounts(grid, log, current - BUCKETS + 1, current + 1);
    StreaksExclude(Recent(BucketKind(), grid, log, current, BUCKETS, false));
  }

  // ---- the decision

  function AtLeast(x: real, lower: real): (r: real) {
    if x < lower then lower else x
  }

  function Weight(k: real, failingBuckets: int): (w: real) {
    k - (k - MIN_K) * failingBuckets as real / BUCKETS as real
  }

  function DropRatio(h: WindowResult): (r: real)
    requires h.total >= 0
  {
    Ratio(h.total, h.accepts, AtLeast(Weight(K, h.failingBuckets), MIN_K))
  }

  function Ratio(total: int, accepts: int, weight: real): (r: real)
    requires total >= 0
  {
    ((total - PROTECTION) as real - weight * accepts as real) / (total + 1) as real
  }

  predicate ForcedPass(lastPass: int, now: int) {
    lastPass > 0 && now - lastPass > FORCE_PASS
  }

  function FinalRatio(h: WindowResult): (r: real)
    requires h.total >= 0
  {
    DropRatio(h) * ((BUCKETS - h.workingBuckets) as real / BUCKETS as real)
  }

  /** Whether `accept` refuses, when the random number drawn is `draw`. */
  predicate Drops(h: WindowResult, lastPass: int, now: int, draw: real)
    requires h.total >= 0
  {
    DropRatio(h) > 0.0 && !ForcedPass(lastPass, now) && draw < FinalRatio(h)
  }

  lemma ProductOrder(a: real, b: real, c: real)
    requires a <= b && c >= 0.0
    ensures a * c <= b * c
  {
  }

  lemma ProductPositive(a: real, b: real)
    requires a > 0.0 && b > 0.0
    ensures a * b > 0.0
  {
  }

  lemma WeightInRange(failing: int)
    requires 0 <= failing <= BUCKETS
    ensures MIN_K <= Weight(K, failing) <= K
    ensures AtLeast(Weight(K, failing), MIN_K) == Weight(K, failing)
  {
  }

  lemma RatioSign(a: real, n: real)
    requires n > 0.0
    ensures a / n > 0.0 <==> a > 0.0
    ensures a < n ==> a / n < 1.0
  {
    var q := a / n;
    assert q * n == a;
    if q > 0.0 {
      ProductPositive(q, n);
    } else {
      ProductOrder(q, 0.0, n);
    }
    if q >= 1.0 {
      ProductOrder(1.0, q, n);
    }
  }

  /** The exact region of the drop ratio, and that it is a probability. */
  lemma RatioRegion(h: WindowResult)
    requires Counts(h)
    ensures DropRatio(h) > 0.0 <==> Outweighed(h)
    ensures DropRatio(h) < 1.0
  {
    WeightInRange(h.failingBuckets);
    RatioArithmetic(h.total, h.accepts, Weight(K, h.failingBuckets));
  }

  lemma RatioArithmetic(total: int, accepts: int, w: real)
    requires 0 <= accepts <= total && w >= 0.0
    ensures Ratio(total, accepts, w) < 1.0
    ensures Ratio(total, accepts, w) > 0.0 <==> Exceeds(total, accepts, w)
  {
    var t, x := total as real, accepts as real;
    var weighted := w * x;
    assert weighted >= 0.0 by {
      ProductNonNegative(w, x);
    }
    var top, n := (total - PROTECTION) as real - weighted, (total + 1) as real;
    assert top == t - 5.0 - weighted && n == t + 1.0 && top < n;
    RatioSign(top, n);
    assert Ratio(total, accepts, w) == top / n;
    SplitOff(w, x);
    assert (total - accepts) as real == t - x;
  }

  lemma ProductNonNegative(a: real, b: real)
    requires a >= 0.0 && b >= 0.0
    ensures a * b >= 0.0
  {
  }

  lemma SplitOff(w: real, x: real)
    ensures w * x == (w - 1.0) * x + x
  {
  }

  ghost predicate Exceeds(total: int, accepts: int, w: real) {
    (total - accepts) as real > PROTECTION as real + (w - 1.0) * accepts as real
  }

  /** Failures and drops exceed the protection plus the weighted share of the successes. */
  ghost predicate Outweighed(h: WindowResult) {
    Exceeds(h.total, h.accepts, Weight(K, h.failingBuckets))
  }

  /** Some draw is refused exactly when failures and drops outweigh the protected and weighted
      successes, no forced pass is due, and the window is not one unbroken working streak. */
  lemma DropPossibleIff(h: WindowResult, lastPass: int, now: int)
    requires Counts(h)
    ensures (exists draw :: 0.0 <= draw < 1.0 && Drops(h, lastPass, now, draw))
       <==> Outweighed(h) && !ForcedPass(lastPass, now) && h.workingBuckets < BUCKETS
  {
    RatioRegion(h);
    var live := (BUCKETS - h.workingBuckets) as real / BUCKETS as real;
    if DropRatio(h) > 0.0 && h.workingBuckets < BUCKETS {
      ProductPositive(DropRatio(h), live);
      assert !ForcedPass(lastPass, now) ==> Drops(h, lastPass, now, 0.0);
    }
    if h.workingBuckets == BUCKETS {
      assert live == 0.0;
      assert FinalRatio(h) == 0.0;
    }
  }

  lemma DropNeedsTrouble(h: WindowResult, lastPass: int, now: int, draw: real)
    requires Counts(h) && Drops(h, lastPass, now, draw)
    ensures 10 * (h.total - h.accepts) > 50 + h.accepts
  {
    RatioRegion(h);
    WeightInRange(h.failingBuckets);
    ExceedsByTenth(h.total, h.accepts, Weight(K, h.failingBuckets));
  }

  lemma ExceedsByTenth(total: int, accepts: int, w: real)
    requires w >= MIN_K && accepts >= 0 && Exceeds(total, accepts, w)
    ensures 10 * (total - accepts) > 50 + accepts
  {
    var trouble := total - accepts;
    var p := (w - 1.0) * accepts as real;
    ProductOrder(0.1, w - 1.0, accepts as real);
    assert 10.0 * p >= accepts as real;
    assert 10.0 * trouble as real > 50.0 + accepts as real;
    assert (10 * trouble) as real == 10.0 * trouble as real;
  }

  // ---- the decision in whole numbers

  /** A hundred times the numerator of the drop ratio: each failing bucket takes 0.01 off the weight
      1.5 of a success. */
  ghost function Excess(accepts: int, total: int, failing: int): (s: int) {
    100 * (total - 5) - (150 - failing) * accepts
  }

  /** What the four counts, the last pass and the draw decide. */
  ghost predicate Refuses(h: WindowResult, lastPass: int, now: int, draw: real) {
    var s := Excess(h.accepts, h.total, h.failingBuckets);
    && s > 0
    && !(lastPass > 0 && now - lastPass > 1_000_000_000)
    && 4000.0 * ((h.total + 1) as real * draw) < ((40 - h.workingBuckets) * s) as real
  }

  lemma {:induction false} ProductAsReal(x: int, y: nat)
    ensures (x * y) as real == x as real * y as real
  {
    if y > 0 {
      ProductAsReal(x, y - 1);
      assert x * y == x * (y - 1) + x;
      assert x as real * y as real == x as real * (y - 1) as real + x as real by {
        assert y as real == (y - 1) as real + 1.0;
        Distribute(x as real, (y - 1) as real);
      }
    }
  }

  lemma Distribute(a: real, b: real)
    ensures a * (b + 1.0) == a * b + a
  {
  }

  lemma WeightedTop(total: int, accepts: nat, failing: int)
    requires 0 <= failing <= BUCKETS
    ensures 100.0 * ((total - PROTECTION) as real - Weight(K, failing) * accepts as real)
         == Excess(accepts, total, failing) as real
  {
    var a := accepts as real;
    var w := Weight(K, failing);
    assert 100.0 * w == (150 - failing) as real;
    Scaled(100.0, w, a);
    ProductAsReal(150 - failing, accepts);
    assert ((150 - failing) * accepts) as real == 100.0 * (w * a);
  }

  lemma Scaled(c: real, w: real, a: real)
    ensures c * (w * a) == c * w * a
  {
  }

  lemma ScaleOrder(x: real, y: real, n: real)
    requires n > 0.0
    ensures x < y <==> x * n < y * n
  {
    if x < y {
      ProductPositive(y - x, n);
      Difference(y, x, n);
    } else {
      ProductOrder(y, x, n);
    }
  }

  lemma Difference(y: real, x: real, n: real)
    ensures (y - x) * n == y * n - x * n
  {
  }

  lemma Rearrange(q: real, part: real, n: real)
    ensures q * part * n == q * n * part
  {
  }

  /** Comparing a draw with a quotient, without dividing. */
  lemma DrawBelow(draw: real, top: real, n: real, part: real)
    requires n > 0.0
    ensures draw < top / n * part <==> n * draw < top * part
  {
    var q := top / n;
    assert q * n == top;
    ScaleOrder(draw, q * part, n);
    Rearrange(q, part, n);
  }

  lemma FinalComparison(n: real, draw: real, top: real, s: real, live: real, part: real)
    requires 100.0 * top == s && 40.0 * part == live
    ensures n * draw < top * part <==> 4000.0 * (n * draw) < live * s
  {
    Scaled(100.0, top, part);
    Scaled(40.0, part, s);
    Commute(s, part);
    assert 4000.0 * (top * part) == live * s;
  }

  lemma Commute(a: real, b: real)
    ensures a * b == b * a
  {
  }

  /** The two comparisons of `accept`, as quotients and in whole numbers. */
  lemma QuotientDecision(top: real, n: int, s: int, live: nat, draw: real)
    requires n > 0 && 100.0 * top == s as real
    ensures top / n as real > 0.0 <==> s > 0
    ensures s > 0 ==>
              (draw < top / n as real * (live as real / 40.0) <==> 4000.0 * (n as real * draw) < (live * s) as real)
  {
    var part := live as real / 40.0;
    RatioSign(top, n as real);
    if s > 0 {
      DrawBelow(draw, top, n as real, part);
      FinalComparison(n as real, draw, top, s as real, live as real, part);
      ProductAsReal(live, s);
    }
  }

  lemma RatioDecision(total: nat, accepts: int, w: real, s: int, working: int, draw: real)
    requires 100.0 * ((total - PROTECTION) as real - w * accepts as real) == s as real && working <= 40
    ensures Ratio(total, accepts, w) > 0.0 <==> s > 0
    ensures s > 0 ==>
              (draw < Ratio(total, accepts, w) * ((BUCKETS - working) as real / BUCKETS as real)
               <==> 4000.0 * ((total + 1) as real * draw) < ((40 - working) * s) as real)
  {
    QuotientDecision((total - PROTECTION) as real - w * accepts as real, total + 1, s, 40 - working, draw);
  }

  /** `accept` refuses exactly when the whole numbers say so. */
  lemma DropsIffRefuses(h: WindowResult, lastPass: int, now: int, draw: real)
    requires Counts(h)
    ensures Drops(h, lastPass, now, draw) <==> Refuses(h, lastPass, now, draw)
    ensures DropRatio(h) > 0.0 <==> Excess(h.accepts, h.total, h.failingBuckets) > 0
  {
    var s, w := Excess(h.accepts, h.total, h.failingBuckets), AtLeast(Weight(K, h.failingBuckets), MIN_K);
    assert 100.0 * ((h.total - PROTECTION) as real - w * h.accepts as real) == s as real by {
      WeightInRange(h.failingBuckets);
      WeightedTop(h.total, h.accepts, h.failingBuckets);
    }
    assert DropRatio(h) == Ratio(h.total, h.accepts, w);
    RatioDecision(h.total, h.accepts, w, s, h.workingBuckets, draw);
  }

  /** In the window, failures and drops exceed 5 plus a tenth of the successes. */
  ghost predicate Troubled(grid: Grid, log: seq<Event<int>>, current: int)
    requires grid.Valid()
  {
    var from, to := current - BUCKETS + 1, current + 1;
    10 * (Count(grid, log, Failed, from, to) + Count(grid, log, Dropped, from, to))
    > 50 + Count(grid, log, Succeeded, from, to)
  }

  /** Every refusal sees failures and drops exceed 5 plus a tenth of the successes. */
  lemma DropSeesTrouble(grid: Grid, log: seq<Event<int>>, current: int, lastPass: int, now: int, draw: real)
    requires grid.Valid()
    requires Drops(WindowHistory(grid, log, current), lastPass, now, draw)
    ensures Troubled(grid, log, current)
  {
    HistoryCounts(grid, log, current);
    DropNeedsTrouble(WindowHistory(grid, log, current), lastPass, now, draw);
  }

  // ---- the same on the ring, whatever its clock readings were

  /** The counters of a bucket that only `Add` and `Reset` have changed. */
  ghost predicate Sound(b: Bucket) {
    b.success >= 0 && b.failure >= 0 && b.dropped >= 0 && b.sum == b.success + b.failure + b.dropped
  }

  ghost predicate AllSound(bs: seq<Bucket>) {
    forall b | b in bs :: Sound(b)
  }

  /** Failures and drops in some buckets. */
  ghost function Trouble(bs: seq<Bucket>): (n: int) {
    if bs == [] then 0 else Trouble(bs[..|bs| - 1]) + bs[|bs| - 1].failure + bs[|bs| - 1].dropped
  }

  lemma {:induction false} SoundTally(bs: seq<Bucket>)
    requires AllSound(bs)
    ensures var h := Fold(Tally, NOTHING, bs);
            0 <= h.accepts && 0 <= Trouble(bs) && h.total == h.accepts + Trouble(bs)
  {
    if bs != [] {
      assert bs[|bs| - 1] in bs;
      SoundTally(bs[..|bs| - 1]);
    }
  }

  lemma {:induction false} NoTrouble(bs: seq<Bucket>)
    requires forall b | b in bs :: b.failure == 0 && b.dropped == 0
    ensures Trouble(bs) == 0
  {
    if bs != [] {
      assert bs[|bs| - 1] in bs;
      NoTrouble(bs[..|bs| - 1]);
    }
  }

  ghost predicate RingOk(ring: Ring<Bucket>) {
    ring.Valid() && |ring.buckets| == BUCKETS && AllSound(ring.buckets)
  }

  /** The buckets that `history` looks at. */
  ghost function Window(ring: Ring<Bucket>, now: int): (bs: seq<Bucket>)
    requires RingOk(ring) && ring.last <= now
    ensures AllSound(bs) && |bs| <= BUCKETS
  {
    Visited(ring, INTERVAL, now, false)
  }

  /** What `history` computes from the ring. */
  ghost function RingHistory(ring: Ring<Bucket>, now: int): (h: WindowResult)
    requires RingOk(ring) && ring.last <= now
    ensures Counts(h)
  {
    SoundTally(Window(ring, now));
    StreaksExclude(Window(ring, now));
    Fold(Tally, NOTHING, Window(ring, now))
  }

  /** Every refusal sees failures and drops exceed 5 plus a tenth of the successes in the buckets it
      looks at. */
  lemma DropSeesTroubledRing(ring: Ring<Bucket>, at: int, lastPass: int, now: int, draw: real)
    requires RingOk(ring) && ring.last <= at && Drops(RingHistory(ring, at), lastPass, now, draw)
    ensures 10 * Trouble(Window(ring, at)) > 50 + RingHistory(ring, at).accepts
  {
    SoundTally(Window(ring, at));
    DropNeedsTrouble(RingHistory(ring, at), lastPass, now, draw);
  }

  /** `Add` on the ring, with its two clock readings. */
  ghost function Marked(ring: Ring<Bucket>, v: int, seen: int, now: int): (r: Ring<Bucket>)
    requires RingOk(ring) && ring.last <= seen <= now
  {
    Put(BucketKind(), Advance(ring, EMPTY, INTERVAL, seen, now), v)
  }

  /** Each bucket after a mark is an old one or empty, except for the one that takes the mark. */
  lemma MarkedBuckets(ring: Ring<Bucket>, v: int, seen: int, now: int)
    requires RingOk(ring) && ring.last <= seen <= now
    ensures RingOk(Marked(ring, v, seen, now))
    ensures forall b | b in Marked(ring, v, seen, now).buckets ::
              b in ring.buckets || b == EMPTY || (exists o :: (o in ring.buckets || o == EMPTY) && b == Bump(o, v))
  {
    var advanced := Advance(ring, EMPTY, INTERVAL, seen, now);
    var size := |ring.buckets|;
    var span := Span(ring.last, seen, INTERVAL, size);
    ClearedMembers(ring.buckets, ring.offset, span);
    assert advanced.Valid() && forall b | b in advanced.buckets :: b in ring.buckets || b == EMPTY;
    var o := advanced.buckets[advanced.offset];
    assert o in advanced.buckets;
    var marked := Marked(ring, v, seen, now);
    forall b | b in marked.buckets
      ensures Sound(b)
      ensures b in ring.buckets || b == EMPTY || ((o in ring.buckets || o == EMPTY) && b == Bump(o, v))
    {
      var i :| 0 <= i < |marked.buckets| && marked.buckets[i] == b;
      assert i != advanced.offset ==> b == advanced.buckets[i] && b in advanced.buckets;
    }
  }

  lemma {:induction false} ClearedMembers(buckets: seq<Bucket>, offset: int, count: nat)
    requires 0 <= offset < |buckets|
    ensures forall b | b in Cleared(buckets, EMPTY, offset, count) :: b in buckets || b == EMPTY
  {
    if count > 0 {
      ClearedMembers(buckets, offset, count - 1);
      var before := Cleared(buckets, EMPTY, offset, count - 1);
      var j := (offset + count) % |buckets|;
      forall b | b in before[j := EMPTY] ensures b in before || b == EMPTY {
      }
    }
  }

  // ---- concurrent runs: decisions and marks in any order

  /** `marks` is every mark so far; `dropping` requests were refused and are not marked yet. */
  datatype State = State(ring: Ring<Bucket>, marks: seq<int>, dropping: nat)

  /** A decision reads the clock once for the window; a mark reads it up to twice. */
  datatype Step =
    | Decide(at: int, lastPass: int, now: int, draw: real)
    | MarkDrop(seen: int, now: int)
    | MarkResult(mark: int, seen: int, now: int)

  ghost function Start(birth: int): (s: State) {
    State(Ring(seq(BUCKETS, _ => EMPTY), 0, birth), [], 0)
  }

  ghost predicate Next(s: State, step: Step, s': State) {
    && RingOk(s.ring)
    && match step
       case Decide(at, lastPass, now, draw) =>
         && s.ring.last <= at
         && s' == State(s.ring, s.marks,
                        if Drops(RingHistory(s.ring, at), lastPass, now, draw) then s.dropping + 1 else s.dropping)
       case MarkDrop(seen, now) =>
         && s.ring.last <= seen <= now && s.dropping > 0
         && s' == State(Marked(s.ring, DROP, seen, now), s.marks + [DROP], s.dropping - 1)
       case MarkResult(mark, seen, now) =>
         && s.ring.last <= seen <= now && mark != DROP
         && s' == State(Marked(s.ring, mark, seen, now), s.marks + [mark], s.dropping)
  }

  ghost predicate IsRun(states: seq<State>, steps: seq<Step>) {
    && |states| == |steps| + 1
    && (exists birth :: states[0] == Start(birth))
    && forall i, j {:trigger states[i], states[j]} | 0 <= i && j == i + 1 < |states| ::
         Next(states[i], steps[i], states[j])
  }

  /** Without a failed request there is no drop, decided or marked, and no bucket shows either. */
  ghost predicate Clean(s: State) {
    && RingOk(s.ring)
    && (FAIL !in s.marks ==>
          && DROP !in s.marks && s.dropping == 0
          && forall b | b in s.ring.buckets :: b.failure == 0 && b.dropped == 0)
  }

  lemma DecideKeepsClean(s: State, at: int, lastPass: int, now: int, draw: real)
    requires Clean(s) && FAIL !in s.marks && s.ring.last <= at
    ensures !Drops(RingHistory(s.ring, at), lastPass, now, draw)
  {
    if Drops(RingHistory(s.ring, at), lastPass, now, draw) {
      NoTrouble(Window(s.ring, at));
      DropSeesTroubledRing(s.ring, at, lastPass, now, draw);
    }
  }

  lemma MarkKeepsClean(s: State, v: int, seen: int, now: int, dropping: nat)
    requires Clean(s) && s.ring.last <= seen <= now && (v == DROP ==> s.dropping > 0)
    requires dropping <= s.dropping
    ensures Clean(State(Marked(s.ring, v, seen, now), s.marks + [v], dropping))
  {
    MarkedBuckets(s.ring, v, seen, now);
  }

  lemma StepKeepsClean(s: State, step: Step, s': State)
    requires Clean(s) && Next(s, step, s')
    ensures Clean(s')
  {
    match step
    case Decide(at, lastPass, now, draw) =>
      if FAIL !in s.marks {
        DecideKeepsClean(s, at, lastPass, now, draw);
      }
    case MarkDrop(seen, now) => MarkKeepsClean(s, DROP, seen, now, s.dropping - 1);
    case MarkResult(mark, seen, now) => MarkKeepsClean(s, mark, seen, now, s.dropping);
  }

  /** In every run, whatever the clock readings, a request is only ever refused after some request
      has failed. */
  lemma {:induction false} NoFailureNoDrop(states: seq<State>, steps: seq<Step>)
    requires IsRun(states, steps)
    ensures Clean(states[|steps|])
    decreases |steps|
  {
    if steps == [] {
      var birth :| states[0] == Start(birth);
    } else {
      var n := |steps| - 1;
      var ss, ts := states[..n + 1], steps[..n];
      NoFailureNoDrop(ss, ts);
      assert ss[n] == states[n];
      StepKeepsClean(states[n], steps[n], states[n + 1]);
    }
  }

  // ---- the breaker

  datatype Error = ServiceUnavailable | Other(code: int)

  /** What becomes of a call: it returns an error or nil, or it panics. */
  datatype Ending = Returned(err: Option<Error>) | Panicked

  class GoogleBreaker {
    const stat: RollingWindow<int, Bucket>
    var lastPass: int

    ghost predicate Valid()
      reads this, stat, stat.buckets
    {
      && stat.kind == BucketKind() && stat.size == BUCKETS && stat.interval == INTERVAL
      && !stat.ignoreCurrent && stat.Valid() && RingOk(stat.State())
    }

    constructor (now: int)
      ensures Valid() && stat.Faithful() && stat.log == [] && stat.lastTime == now
      ensures fresh(stat) && fresh(stat.buckets)
    {
      stat := new RollingWindow<int, Bucket>(BucketKind(), BUCKETS, INTERVAL, false, now);
      lastPass := 0;
    }

    /** What `history` computes from the ring; on a faithful ring, from the log. */
    method History(now: int) returns (h: WindowResult)
      requires Valid() && stat.lastTime <= now
      ensures h == RingHistory(stat.State(), now)
      ensures stat.Faithful() ==> h == WindowHistory(stat.Intervals(), stat.log, stat.Intervals().IdOf(now))
    {
      h := stat.Reduce(Tally, NOTHING, now);
    }

    /** `at` is the clock when the window is read, `now` when the last pass is judged. */
    method Accept(at: int, now: int, draw: real) returns (ok: bool)
      requires Valid() && stat.lastTime <= at
      modifies this
      ensures Valid() && stat.Faithful() == old(stat.Faithful())
      ensures ok == !Refuses(RingHistory(stat.State(), at), old(lastPass), now, draw)
      ensures var h := RingHistory(stat.State(), at);
              lastPass == if ok && Excess(h.accepts, h.total, h.failingBuckets) > 0 then now else old(lastPass)
      ensures !ok ==> 10 * Trouble(Window(stat.State(), at)) > 50 + RingHistory(stat.State(), at).accepts
      ensures !ok && stat.Faithful() ==> Troubled(stat.Intervals(), stat.log, stat.Intervals().IdOf(at))
      ensures old(lastPass) > 0 && now > old(lastPass) + SECOND ==> ok
    {
      var history := History(at);
      DropsIffRefuses(history, lastPass, now, draw);
      if DropRatio(history) <= 0.0 {
        return true;
      }
      if lastPass > 0 && now - lastPass > FORCE_PASS {
        lastPass := now;
        return true;
      }
      if draw < FinalRatio(history) {
        DropSeesTroubledRing(stat.State(), at, lastPass, now, draw);
        if stat.Faithful() {
          DropSeesTrouble(stat.Intervals(), stat.log, stat.Intervals().IdOf(at), lastPass, now, draw);
        }
        return false;
      }
      lastPass := now;
      return true;
    }

    /** A mark joins the log; a faithful ring stays faithful unless the clock moved to another
        interval between the two readings. */
    method Mark(v: int, seen: int, now: int)
      requires Valid() && stat.lastTime <= seen <= now
      modifies stat`offset, stat`lastTime, stat`log, stat.buckets
      ensures Valid() && stat.lastTime <= now
      ensures stat.State() == Marked(old(stat.State()), v, seen, now)
      ensures stat.log == old(stat.log) + [Event(Filed(old(stat.lastTime), INTERVAL, seen, now), v)]
      ensures old(stat.Faithful()) && InStep(old(stat.lastTime), INTERVAL, BUCKETS, seen, now) ==> stat.Faithful()
    {
      MarkedBuckets(stat.State(), v, seen, now);
      stat.Add(v, seen, now);
    }

    /** A refused request is logged as a drop; an admitted one is logged later by its promise. */
    method Allow(at: int, now: int, seen: int, done: int, draw: real) returns (ok: bool)
      requires Valid() && stat.lastTime <= at <= now <= seen <= done
      modifies this, stat`offset, stat`lastTime, stat`log, stat.buckets
      ensures Valid() && stat.lastTime <= done
      ensures ok == !Refuses(RingHistory(old(stat.State()), at), old(lastPass), now, draw)
      ensures stat.State() == if ok then old(stat.State()) else Marked(old(stat.State()), DROP, seen, done)
      ensures stat.log == old(stat.log) + if ok then []
                                          else [Event(Filed(old(stat.lastTime), INTERVAL, seen, done), DROP)]
    {
      ok := Accept(at, now, draw);
      if !ok {
        Mark(DROP, seen, done);
      }
    }

    /** Every request is logged exactly once, under its true outcome. */
    method DoReq(req: Ending, fallback: Option<Error -> Option<Error>>, acceptable: Option<Error> -> bool,
                 at: int, now: int, seen: int, done: int, draw: real)
      returns (ending: Ending)
      requires Valid() && stat.lastTime <= at <= now <= seen <= done
      modifies this, stat`offset, stat`lastTime, stat`log, stat.buckets
      ensures Valid() && stat.lastTime <= done
      ensures var drop := Refuses(RingHistory(old(stat.State()), at), old(lastPass), now, draw);
              var mark := if drop then DROP
                          else if req.Returned? && acceptable(req.err) then SUCCESS else FAIL;
              && stat.State() == Marked(old(stat.State()), mark, seen, done)
              && stat.log == old(stat.log) + [Event(Filed(old(stat.lastTime), INTERVAL, seen, done), mark)]
              && ending == if !drop then req
                           else if fallback.Some? then Returned(fallback.value(ServiceUnavailable))
                           else Returned(Some(ServiceUnavailable))
    {
      var ok := Accept(at, now, draw);
      if !ok {
        Mark(DROP, seen, done);
        if fallback.Some? {
          return Returned(fallback.value(ServiceUnavailable));
        }
        return Returned(Some(ServiceUnavailable));
      }
      var succ := false;
      if req.Returned? && acceptable(req.err) {
        succ := true;
      }
      Mark(if succ then SUCCESS else FAIL, seen, done);
      ending := req;
    }
  }
}
