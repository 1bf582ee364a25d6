/** `core/stat/metrics.go`: the container behind `Metrics` and the percentiles of its reports.
    Float arithmetic is exact here. */
module Metrics {
  import opened Modulo
  import opened TopTasks

  const MILLISECOND := 1_000_000
  const LOG_INTERVAL_SECONDS := 60

  datatype Report = Report(
    reqsPerSecond: real,
    drops: int,
    average: real,
    median: real,
    top90th: real,
    top99th: real,
    top99p9th: real)

  datatype Batch = Batch(tasks: seq<Task>, duration: int, drops: int)

  function Millis(duration: int): (ms: real)
    ensures ms * 1_000_000.0 == duration as real
  {
    duration as real / MILLISECOND as real
  }

  function AtLeastOne(k: int): (r: int) {
    if k > 0 then k else 1
  }

  /** `k` of `size` tasks are at most one part in `part`, and `k + 1` would be more; but with fewer
      than `part` tasks `k` is one. */
  ghost predicate IsShare(size: int, part: int, k: int) {
    if size < part then k == 1 else part * k <= size < part * (k + 1)
  }

  /** The ranks, counted from the longest task, that the four percentiles stand for. */
  function MedianRank(size: int): (k: int)
    ensures IsShare(size, 2, k)
  {
    AtLeastOne(size / 2)
  }

  function Rank90(size: int): (k: int)
    ensures IsShare(size, 10, k)
  {
    AtLeastOne(size / 2 / 5)
  }

  function Rank99(size: int): (k: int)
    ensures IsShare(size, 100, k)
  {
    AtLeastOne(size / 2 / 5 / 10)
  }

  function Rank99p9(size: int): (k: int)
    ensures IsShare(size, 1000, k)
  {
    AtLeastOne(size / 2 / 5 / 10 / 10)
  }

  /** `ms` is the k-th longest duration in milliseconds. */
  ghost predicate HasRank(tasks: seq<Task>, k: int, ms: real) {
    exists v :: KthLargest(tasks, k, v) && ms == Millis(v)
  }

  lemma HigherRankIsShorter(tasks: seq<Task>, k: int, ms: real, k': int, ms': real)
    requires HasRank(tasks, k, ms) && HasRank(tasks, k', ms') && k' <= k
    ensures ms <= ms'
    ensures k == k' ==> ms == ms'
  {
    var v :| KthLargest(tasks, k, v) && ms == Millis(v);
    var v' :| KthLargest(tasks, k', v') && ms' == Millis(v');
    RanksDescend(tasks, k, v, k', v');
  }

  /** The four numbers of a report are true percentiles of the tasks. */
  ghost predicate ArePercentiles(tasks: seq<Task>, r: Report) {
    && HasRank(tasks, MedianRank(|tasks|), r.median)
    && HasRank(tasks, Rank90(|tasks|), r.top90th)
    && HasRank(tasks, Rank99(|tasks|), r.top99th)
    && HasRank(tasks, Rank99p9(|tasks|), r.top99p9th)
  }

  lemma PercentilesAscend(tasks: seq<Task>, r: Report)
    requires ArePercentiles(tasks, r)
    ensures r.median <= r.top90th <= r.top99th <= r.top99p9th
  {
    var n := |tasks|;
    HigherRankIsShorter(tasks, MedianRank(n), r.median, Rank90(n), r.top90th);
    HigherRankIsShorter(tasks, Rank90(n), r.top90th, Rank99(n), r.top99th);
    HigherRankIsShorter(tasks, Rank99(n), r.top99th, Rank99p9(n), r.top99p9th);
  }

  /** The k longest of `from`, which are the `size` longest of `tasks`, with the rank of the
      first. */
  method Narrow(ghost tasks: seq<Task>, ghost size: int, from: seq<Task>, k: int) returns (top: seq<Task>, ms: real)
    requires IsTop(tasks, size, from) && 0 < k <= size <= |tasks|
    ensures IsTop(tasks, k, top)
    ensures HasRank(tasks, k, ms)
  {
    top := TopK(from, k);
    TopOfTop(tasks, size, from, k, top);
    LeastOfTop(tasks, k, top, top[0]);
    ms := Millis(top[0].duration);
  }

  lemma AllAreTop(tasks: seq<Task>)
    ensures IsTop(tasks, |tasks|, tasks)
  {
  }

  /** The longest duration of a non-empty list, 0 for an empty one. */
  method GetTopDuration(tasks: seq<Task>) returns (ms: real)
    ensures if tasks == [] then ms == 0.0 else HasRank(tasks, 1, ms)
  {
    var top := TopK(tasks, 1);
    if |top| < 1 {
      return 0.0;
    }
    LeastOfTop(tasks, 1, top, top[0]);
    ms := Millis(top[0].duration);
  }

  /** The longest of the longest is the longest of all. */
  method TopDurationOf(ghost tasks: seq<Task>, ghost size: int, from: seq<Task>) returns (ms: real)
    requires IsTop(tasks, size, from) && 0 < size <= |tasks|
    ensures HasRank(tasks, 1, ms)
  {
    ms := GetTopDuration(from);
    ghost var v :| KthLargest(from, 1, v) && ms == Millis(v);
    TopHasSameLongest(tasks, size, from, v);
  }

  lemma TopHasSameLongest(tasks: seq<Task>, size: int, from: seq<Task>, v: int)
    requires IsTop(tasks, size, from) && 0 < size <= |tasks| && KthLargest(from, 1, v)
    ensures KthLargest(tasks, 1, v)
  {
    var top: multiset<Task> :| IsWitness(from, 1, v, top);
    var x :| x in top && x.duration == v;
    assert top == multiset{x} by {
      SubsetCardinality(multiset{x}, top);
    }
    assert x in multiset(from);
    forall y | y in multiset(tasks) - top ensures y.duration <= v {
      if y !in multiset(from) - top {
        assert y in multiset(tasks) - multiset(from);
      }
    }
    assert IsWitness(tasks, 1, v, top);
  }

  class MetricsContainer {
    var tasks: seq<Task>
    var duration: int
    var drops: int

    /** Everything added since the last `RemoveAll`. */
    ghost var added: seq<Task>

    ghost predicate Valid()
      reads this
    {
      && tasks == Kept(added) && drops == |added| - |tasks|
      && duration == TotalDuration(tasks)
    }

    constructor ()
      ensures Valid() && added == []
    {
      tasks, duration, drops, added := [], 0, 0, [];
    }

    /** Never asks for an early flush. */
    method AddTask(task: Task) returns (full: bool)
      requires Valid()
      modifies this
      ensures Valid() && added == old(added) + [task] && !full
    {
      added := added + [task];
      assert added[..|added| - 1] == old(added);
      if task.drop {
        drops := drops + 1;
      } else {
        ghost var before := tasks;
        tasks := tasks + [task];
        assert tasks[..|tasks| - 1] == before;
        duration := duration + task.duration;
      }
      return false;
    }

    method RemoveAll() returns (batch: Batch)
      requires Valid()
      modifies this
      ensures Valid() && added == []
      ensures batch.tasks == Kept(old(added)) && batch.drops == |old(added)| - |batch.tasks|
      ensures batch.duration == TotalDuration(batch.tasks)
    {
      batch := Batch(tasks, duration, drops);
      tasks, duration, drops, added := [], 0, 0, [];
    }
  }

  ghost function Kept(added: seq<Task>): (r: seq<Task>) {
    if added == [] then []
    else
      var last := added[|added| - 1];
      Kept(added[..|added| - 1]) + if last.drop then [] else [last]
  }

  /** Exactly the tasks that are not drops are kept, as often as they were added. */
  lemma {:induction false} KeptAreNotDrops(added: seq<Task>, t: Task)
    ensures multiset(Kept(added))[t] == if t.drop then 0 else multiset(added)[t]
  {
    if added != [] {
      var init, last := added[..|added| - 1], added[|added| - 1];
      KeptAreNotDrops(init, t);
      assert added == init + [last];
    }
  }

  ghost function TotalDuration(tasks: seq<Task>): (r: int) {
    if tasks == [] then 0 else TotalDuration(tasks[..|tasks| - 1]) + tasks[|tasks| - 1].duration
  }

  /** Every percentile reported is the true one of all the tasks, also where the cascade of
      ever smaller heaps stops early; and they ascend. */
  method Execute(batch: Batch) returns (report: Report)
    ensures report.drops == batch.drops
    ensures report.reqsPerSecond == |batch.tasks| as real / LOG_INTERVAL_SECONDS as real
    ensures batch.tasks == [] ==>
              report.average == report.median == report.top90th == report.top99th == report.top99p9th == 0.0
    ensures batch.tasks != [] ==>
              && report.average == Truncated(batch.duration, MILLISECOND) as real / |batch.tasks| as real
              && ArePercentiles(batch.tasks, report)
              && report.median <= report.top90th <= report.top99th <= report.top99p9th
  {
    var size := |batch.tasks|;
    var average, median, t90, t99, t99p9 := 0.0, 0.0, 0.0, 0.0, 0.0;
    if size > 0 {
      average := Truncated(batch.duration, MILLISECOND) as real / size as real;
      median, t90, t99, t99p9 := Percentiles(batch.tasks);
    }
    report := Report(size as real / LOG_INTERVAL_SECONDS as real, batch.drops, average, median, t90, t99, t99p9);
    if size > 0 {
      PercentilesAscend(batch.tasks, report);
    }
  }

  method Percentiles(tasks: seq<Task>) returns (median: real, t90: real, t99: real, t99p9: real)
    requires tasks != []
    ensures HasRank(tasks, MedianRank(|tasks|), median) && HasRank(tasks, Rank90(|tasks|), t90)
    ensures HasRank(tasks, Rank99(|tasks|), t99) && HasRank(tasks, Rank99p9(|tasks|), t99p9)
  {
    var fiftyPercent := |tasks| / 2;
    if fiftyPercent > 0 {
      var top50p;
      AllAreTop(tasks);
      top50p, median := Narrow(tasks, |tasks|, tasks, fiftyPercent);
      t90, t99, t99p9 := UpperPercentiles(tasks, fiftyPercent, top50p);
    } else {
      var most := GetTopDuration(tasks);
      return most, most, most, most;
    }
  }

  method UpperPercentiles(ghost tasks: seq<Task>, fiftyPercent: int, top50p: seq<Task>)
    returns (t90: real, t99: real, t99p9: real)
    requires 0 < fiftyPercent <= |tasks| && IsTop(tasks, fiftyPercent, top50p)
    ensures HasRank(tasks, AtLeastOne(fiftyPercent / 5), t90)
    ensures HasRank(tasks, AtLeastOne(fiftyPercent / 5 / 10), t99)
    ensures HasRank(tasks, AtLeastOne(fiftyPercent / 5 / 10 / 10), t99p9)
  {
    var tenPercent := fiftyPercent / 5;
    if tenPercent > 0 {
      var top10p;
      top10p, t90 := Narrow(tasks, fiftyPercent, top50p, tenPercent);
      var onePercent := tenPercent / 10;
      if onePercent > 0 {
        var top1p;
        top1p, t99 := Narrow(tasks, tenPercent, top10p, onePercent);
        var pointOnePercent := onePercent / 10;
        if pointOnePercent > 0 {
          var topPointOne;
          topPointOne, t99p9 := Narrow(tasks, onePercent, top1p, pointOnePercent);
        } else {
          t99p9 := TopDurationOf(tasks, onePercent, top1p);
        }
      } else {
        var most := TopDurationOf(tasks, tenPercent, top10p);
        t99, t99p9 := most, most;
      }
    } else {
      var most := TopDurationOf(tasks, fiftyPercent, top50p);
      return most, most, most;
    }
  }
}
