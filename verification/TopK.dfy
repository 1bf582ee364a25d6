/** `core/stat/topk.go`: a bounded min-heap, with the sift loops of Go's `container/heap`. */
module TopTasks {

  datatype Task = Task(drop: bool, duration: int, description: string)

  // ---- what "the k largest" means

  /** `top` holds `k` of the tasks of `all` (or all of them), none shorter than one left out. */
  ghost predicate IsTop(all: seq<Task>, k: int, top: seq<Task>) {
    && multiset(top) <= multiset(all)
    && |top| == (if k >= |all| then |all| else if k > 0 then k else 0)
    && Dominates(top, multiset(all) - multiset(top))
  }

  ghost predicate Dominates(top: seq<Task>, rest: multiset<Task>) {
    forall x, y | x in rest && y in top :: x.duration <= y.duration
  }

  /** `v` is the k-th largest duration: some k tasks last at least `v`, one exactly `v`, and the
      others at most `v`. */
  ghost predicate KthLargest(all: seq<Task>, k: int, v: int) {
    exists top: multiset<Task> :: IsWitness(all, k, v, top)
  }

  ghost predicate IsWitness(all: seq<Task>, k: int, v: int, top: multiset<Task>) {
    && top <= multiset(all) && |top| == k
    && (forall x | x in top :: v <= x.duration)
    && (exists x :: x in top && x.duration == v)
    && (forall x | x in multiset(all) - top :: x.duration <= v)
  }

  lemma SubsetCardinality(a: multiset<Task>, b: multiset<Task>)
    requires a <= b
    ensures |a| <= |b|
    ensures |a| == |b| ==> a == b
  {
    assert b == a + (b - a);
    assert |b| == |a| + |b - a|;
  }

  /** A lower rank is a longer duration; so a rank determines its duration. */
  lemma RanksDescend(all: seq<Task>, k: int, v: int, k': int, v': int)
    requires KthLargest(all, k, v) && KthLargest(all, k', v') && k' <= k
    ensures v <= v'
    ensures k == k' ==> v == v'
  {
    var top: multiset<Task> :| IsWitness(all, k, v, top);
    var top': multiset<Task> :| IsWitness(all, k', v', top');
    if v' < v {
      WitnessesNest(all, k, v, top, k', v', top');
    }
    if k == k' && v < v' {
      WitnessesNest(all, k', v', top', k, v, top);
    }
  }

  lemma WitnessesNest(all: seq<Task>, k: int, v: int, top: multiset<Task>, k': int, v': int, top': multiset<Task>)
    requires IsWitness(all, k, v, top) && IsWitness(all, k', v', top') && v' < v
    ensures k < k'
  {
    var x :| x in top' && x.duration == v';
    assert x !in top;
    forall y | y in top ensures top[y] <= (top' - multiset{x})[y] {
      assert y !in multiset(all) - top';
    }
    SubsetCardinality(top, top' - multiset{x});
  }

  /** The smallest of the k largest is the k-th largest. */
  lemma LeastOfTop(all: seq<Task>, k: int, top: seq<Task>, least: Task)
    requires IsTop(all, k, top) && 0 < k <= |all| && least in top
    requires forall x | x in top :: least.duration <= x.duration
    ensures KthLargest(all, k, least.duration)
  {
    assert IsWitness(all, k, least.duration, multiset(top));
  }

  /** The largest of the largest are the largest of all. */
  lemma TopOfTop(all: seq<Task>, k: int, top: seq<Task>, k': int, top': seq<Task>)
    requires IsTop(all, k, top) && IsTop(top, k', top') && k' <= k
    ensures IsTop(all, k', top')
  {
    forall x, y | x in multiset(all) - multiset(top') && y in top' ensures x.duration <= y.duration {
      assert y in multiset(top');
      assert y in multiset(top);
      if x !in multiset(top) - multiset(top') {
        assert x in multiset(all) - multiset(top);
      }
    }
    SubsetCardinality(multiset(top), multiset(all));
  }

  // ---- the heap

  function Parent(i: int): (p: int)
    requires i > 0
    ensures 0 <= p < i
  {
    (i - 1) / 2
  }

  ghost predicate Ordered(s: seq<Task>, i: int)
    requires 0 < i < |s|
  {
    s[Parent(i)].duration <= s[i].duration
  }

  ghost predicate IsHeap(s: seq<Task>, n: int)
    requires n <= |s|
  {
    forall i {:trigger Ordered(s, i)} | 0 < i < n :: Ordered(s, i)
  }

  /** A heap, except that the element at `j` may be smaller than its parent. */
  ghost predicate HeapButUp(s: seq<Task>, j: int)
    requires 0 <= j < |s|
  {
    && (forall i {:trigger Ordered(s, i)} | 0 < i < |s| && i != j :: Ordered(s, i))
    && (j > 0 ==> forall i {:trigger Ordered(s, i)} | 0 < i < |s| && Parent(i) == j ::
                    s[Parent(j)].duration <= s[i].duration)
  }

  /** The first `n` are a heap, except that the element at `i` may be larger than its children. */
  ghost predicate HeapButDown(s: seq<Task>, i: int, n: int)
    requires 0 <= i < |s| && n <= |s|
  {
    && (forall c {:trigger Ordered(s, c)} | 0 < c < n && Parent(c) != i :: Ordered(s, c))
    && (i > 0 ==> forall c {:trigger Ordered(s, c)} | 0 < c < n && Parent(c) == i ::
                    s[Parent(i)].duration <= s[c].duration)
  }

  function Swapped(s: seq<Task>, i: int, j: int): (r: seq<Task>)
    requires 0 <= i < |s| && 0 <= j < |s|
    ensures |r| == |s| && multiset(r) == multiset(s)
  {
    s[i := s[j]][j := s[i]]
  }

  lemma UpStep(s: seq<Task>, j: int)
    requires 0 < j < |s| && HeapButUp(s, j) && s[j].duration < s[Parent(j)].duration
    ensures HeapButUp(Swapped(s, Parent(j), j), Parent(j))
  {
    var p := Parent(j);
    var r := Swapped(s, p, j);
    forall i | 0 < i < |s| && i != p ensures Ordered(r, i) {
      assert i != j ==> Ordered(s, i);
    }
    if p > 0 {
      assert Ordered(s, p);
      forall i | 0 < i < |s| && Parent(i) == p ensures r[Parent(p)].duration <= r[i].duration {
        assert i != j ==> Ordered(s, i);
      }
    }
  }

  lemma DownStep(s: seq<Task>, i: int, j: int, n: int)
    requires 0 <= i < j < n <= |s| && Parent(j) == i && HeapButDown(s, i, n)
    requires s[j].duration < s[i].duration
    requires forall c | 0 < c < n && Parent(c) == i :: s[j].duration <= s[c].duration
    ensures HeapButDown(Swapped(s, i, j), j, n)
  {
    var r := Swapped(s, i, j);
    forall c | 0 < c < n && Parent(c) != j ensures Ordered(r, c) {
      assert Parent(c) != i ==> Ordered(s, c);
      assert c == i ==> (Ordered(s, j) || !Ordered(s, j));
    }
    forall c | 0 < c < n && Parent(c) == j ensures r[Parent(j)].duration <= r[c].duration {
      assert Ordered(s, c);
    }
  }

  /** `Pop` first exchanges the root with the last element. */
  lemma SwapRoot(s: seq<Task>)
    requires s != [] && IsHeap(s, |s|)
    ensures HeapButDown(Swapped(s, 0, |s| - 1), 0, |s| - 1)
    ensures Swapped(s, 0, |s| - 1)[|s| - 1] == s[0]
  {
    var n := |s| - 1;
    var r := Swapped(s, 0, n);
    forall c | 0 < c < n && Parent(c) != 0 ensures Ordered(r, c) {
      assert Ordered(s, c);
    }
  }

  lemma DropLast(s: seq<Task>)
    requires s != [] && IsHeap(s, |s| - 1)
    ensures IsHeap(s[..|s| - 1], |s| - 1)
    ensures multiset(s) == multiset(s[..|s| - 1]) + multiset{s[|s| - 1]}
  {
    var init := s[..|s| - 1];
    assert s == init + [s[|s| - 1]];
    forall i | 0 < i < |init| ensures Ordered(init, i) {
      assert Ordered(s, i);
    }
  }

  lemma DownEnd(s: seq<Task>, i: int, n: int)
    requires 0 <= i < n <= |s| && HeapButDown(s, i, n)
    requires forall c | 0 < c < n && Parent(c) == i :: s[i].duration <= s[c].duration
    ensures IsHeap(s, n)
  {
    forall c | 0 < c < n ensures Ordered(s, c) {
      assert Parent(c) == i || Ordered(s, c);
    }
  }

  lemma {:induction false} RootIsLeast(s: seq<Task>, i: int)
    requires 0 <= i < |s| && IsHeap(s, |s|)
    ensures s[0].duration <= s[i].duration
  {
    if i > 0 {
      assert Ordered(s, i);
      RootIsLeast(s, Parent(i));
    }
  }

  lemma RootIsLeastIn(s: seq<Task>)
    requires s != [] && IsHeap(s, |s|)
    ensures forall x | x in s :: s[0].duration <= x.duration
  {
    forall x | x in s ensures s[0].duration <= x.duration {
      var i :| 0 <= i < |s| && s[i] == x;
      RootIsLeast(s, i);
    }
  }

  class TaskHeap {
    var tasks: seq<Task>

    constructor ()
      ensures tasks == []
    {
      tasks := [];
    }

    /** `heap.Push` */
    method Push(x: Task)
      requires IsHeap(tasks, |tasks|)
      modifies this
      ensures IsHeap(tasks, |tasks|)
      ensures |tasks| == |old(tasks)| + 1 && multiset(tasks) == multiset(old(tasks)) + multiset{x}
    {
      ghost var before := tasks;
      tasks := tasks + [x];
      forall i | 0 < i < |before| ensures Ordered(tasks, i) {
        assert Ordered(before, i);
      }
      forall i | 0 < i < |tasks| ensures Parent(i) != |tasks| - 1 {
      }
      Up(|tasks| - 1);
    }

    method Up(at: int)
      requires 0 <= at < |tasks| && HeapButUp(tasks, at)
      modifies this
      ensures IsHeap(tasks, |tasks|)
      ensures |tasks| == |old(tasks)| && multiset(tasks) == multiset(old(tasks))
    {
      var j := at;
      while j > 0 && tasks[j].duration < tasks[Parent(j)].duration
        invariant 0 <= j < |tasks| == |old(tasks)|
        invariant HeapButUp(tasks, j)
        invariant multiset(tasks) == multiset(old(tasks))
        decreases j
      {
        UpStep(tasks, j);
        tasks := Swapped(tasks, Parent(j), j);
        j := Parent(j);
      }
    }

    /** `heap.Pop` */
    method Pop() returns (x: Task)
      requires tasks != [] && IsHeap(tasks, |tasks|)
      modifies this
      ensures IsHeap(tasks, |tasks|)
      ensures x == old(tasks[0])
      ensures |tasks| == |old(tasks)| - 1 && multiset(old(tasks)) == multiset(tasks) + multiset{x}
    {
      var n := |tasks| - 1;
      SwapRoot(tasks);
      tasks := Swapped(tasks, 0, n);
      if n > 0 {
        Down(n);
      }
      x := tasks[n];
      DropLast(tasks);
      tasks := tasks[..n];
    }

    method SmallerChild(i: int, n: int) returns (j: int)
      requires 0 <= i && 2 * i + 1 < n <= |tasks|
      ensures i < j < n && Parent(j) == i
      ensures forall c | 0 < c < n && Parent(c) == i :: tasks[j].duration <= tasks[c].duration
    {
      j := 2 * i + 1;
      if j + 1 < n && tasks[j + 1].duration < tasks[j].duration {
        j := j + 1;
      }
      forall c | 0 < c < n && Parent(c) == i ensures tasks[j].duration <= tasks[c].duration {
        assert c == 2 * i + 1 || c == 2 * i + 2;
      }
    }

    /** `down(h, 0, n)` */
    method Down(n: int)
      requires 0 < n <= |tasks| && HeapButDown(tasks, 0, n)
      modifies this
      ensures |tasks| == |old(tasks)| && multiset(tasks) == multiset(old(tasks))
      ensures IsHeap(tasks, n)
      ensures forall c | n <= c < |tasks| :: tasks[c] == old(tasks)[c]
    {
      var i := 0;
      while 2 * i + 1 < n
        invariant 0 <= i < n <= |tasks| == |old(tasks)|
        invariant HeapButDown(tasks, i, n)
        invariant multiset(tasks) == multiset(old(tasks))
        invariant forall c | n <= c < |tasks| :: tasks[c] == old(tasks)[c]
        decreases n - i
      {
        var j := SmallerChild(i, n);
        if tasks[i].duration <= tasks[j].duration {
          DownEnd(tasks, i, n);
          return;
        }
        DownStep(tasks, i, j, n);
        tasks := Swapped(tasks, i, j);
        i := j;
      }
      DownEnd(tasks, i, n);
    }
  }

  // ---- topK

  lemma TopPush(all: seq<Task>, k: int, top: seq<Task>, x: Task, top': seq<Task>)
    requires IsTop(all, k, top) && |top| < k && |top'| == |top| + 1
    requires multiset(top') == multiset(top) + multiset{x}
    ensures IsTop(all + [x], k, top')
  {
    SubsetCardinality(multiset(top), multiset(all));
    assert multiset(all + [x]) == multiset(all) + multiset{x};
  }

  lemma TopReplace(all: seq<Task>, k: int, top: seq<Task>, x: Task, top': seq<Task>)
    requires IsTop(all, k, top) && |top| >= k > 0 && |top'| == |top|
    requires forall y | y in top :: top[0].duration <= y.duration
    requires top[0].duration < x.duration
    requires multiset(top') == multiset(top) - multiset{top[0]} + multiset{x}
    ensures IsTop(all + [x], k, top')
  {
    var least := top[0];
    assert least in multiset(top);
    assert multiset(all + [x]) == multiset(all) + multiset{x};
    assert multiset(all + [x]) - multiset(top') == multiset(all) - multiset(top) + multiset{least};
    forall z, y | z in multiset(all + [x]) - multiset(top') && y in top' ensures z.duration <= y.duration {
      assert y in multiset(top');
      assert z in multiset(all) - multiset(top) || z == least;
      assert z.duration <= least.duration;
      assert y == x || y in multiset(top);
    }
  }

  lemma TopKeep(all: seq<Task>, k: int, top: seq<Task>, x: Task)
    requires IsTop(all, k, top) && |top| >= k > 0
    requires forall y | y in top :: x.duration <= y.duration
    ensures IsTop(all + [x], k, top)
  {
    assert multiset(all + [x]) == multiset(all) + multiset{x};
    assert multiset(all + [x]) - multiset(top) == multiset(all) - multiset(top) + multiset{x};
  }

  /** The k longest tasks, the shortest of them first. With `k <= 0` the source fails on the
      first task. */
  method TopK(all: seq<Task>, k: int) returns (top: seq<Task>)
    requires k > 0 || all == []
    ensures IsTop(all, k, top)
    ensures forall x | x in top :: top[0].duration <= x.duration
  {
    var h := new TaskHeap();
    var n := 0;
    while n < |all|
      invariant 0 <= n <= |all|
      invariant IsHeap(h.tasks, |h.tasks|)
      invariant IsTop(all[..n], k, h.tasks)
    {
      Offer(h, all[n], k, all[..n]);
      assert all[..n + 1] == all[..n] + [all[n]];
      n := n + 1;
    }
    assert all[..n] == all;
    top := h.tasks;
    if top != [] {
      RootIsLeastIn(top);
    }
  }

  /** The body of the loop of `topK`. */
  method Offer(h: TaskHeap, each: Task, k: int, ghost seen: seq<Task>)
    requires k > 0 && IsHeap(h.tasks, |h.tasks|) && IsTop(seen, k, h.tasks)
    modifies h
    ensures IsHeap(h.tasks, |h.tasks|) && IsTop(seen + [each], k, h.tasks)
  {
    ghost var before := h.tasks;
    if |h.tasks| < k {
      h.Push(each);
      TopPush(seen, k, before, each, h.tasks);
    } else {
      RootIsLeastIn(h.tasks);
      if h.tasks[0].duration < each.duration {
        var least := h.Pop();
        h.Push(each);
        TopReplace(seen, k, before, each, h.tasks);
      } else {
        TopKeep(seen, k, before, each);
      }
    }
  }
}
