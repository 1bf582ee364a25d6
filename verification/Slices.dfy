/** `sort.Slice`: any sorting algorithm will do, so this one inserts. */
module Slices {

  ghost predicate SortedBy<T>(xs: seq<T>, le: (T, T) -> bool) {
    forall i, j | 0 <= i < j < |xs| :: le(xs[i], xs[j])
  }

  ghost predicate IsOrder<T(!new)>(le: (T, T) -> bool) {
    && (forall a, b :: le(a, b) || le(b, a))
    && (forall a, b, c | le(a, b) && le(b, c) :: le(a, c))
  }

  function Inserted<T>(xs: seq<T>, k: nat, x: T): (r: seq<T>)
    requires k <= |xs|
    ensures |r| == |xs| + 1
    ensures forall i | 0 <= i < |r| :: r[i] == if i < k then xs[i] else if i == k then x else xs[i - 1]
  {
    xs[..k] + [x] + xs[k..]
  }

  lemma InsertedSorted<T>(xs: seq<T>, k: nat, x: T, le: (T, T) -> bool)
    requires SortedBy(xs, le) && k <= |xs|
    requires (forall i | 0 <= i < k :: le(xs[i], x)) && (forall i | k <= i < |xs| :: le(x, xs[i]))
    ensures SortedBy(Inserted(xs, k, x), le)
  {
    var r := Inserted(xs, k, x);
    forall i, j | 0 <= i < j < |r| ensures le(r[i], r[j]) {
      assert r[i] == if i < k then xs[i] else if i == k then x else xs[i - 1];
      assert r[j] == if j < k then xs[j] else if j == k then x else xs[j - 1];
    }
  }

  lemma InsertedMultiset<T>(xs: seq<T>, k: nat, x: T)
    requires k <= |xs|
    ensures multiset(Inserted(xs, k, x)) == multiset(xs) + multiset{x}
  {
    assert xs == xs[..k] + xs[k..];
  }

  /** Where to insert `x`. */
  method PlaceFor<T(!new)>(xs: seq<T>, x: T, le: (T, T) -> bool) returns (k: nat)
    requires IsOrder(le) && SortedBy(xs, le)
    ensures k <= |xs|
    ensures (forall i | 0 <= i < k :: le(xs[i], x)) && (forall i | k <= i < |xs| :: le(x, xs[i]))
  {
    k := 0;
    while k < |xs| && le(xs[k], x)
      invariant k <= |xs|
      invariant forall i | 0 <= i < k :: le(xs[i], x)
    {
      k := k + 1;
    }
    forall i | k <= i < |xs| ensures le(x, xs[i]) {
      assert le(x, xs[k]);
      assert i > k ==> le(xs[k], xs[i]);
    }
  }

  method SortSlice<T(!new)>(xs: seq<T>, le: (T, T) -> bool) returns (sorted: seq<T>)
    requires IsOrder(le)
    ensures SortedBy(sorted, le) && multiset(sorted) == multiset(xs)
  {
    sorted := [];
    for n := 0 to |xs|
      invariant SortedBy(sorted, le) && multiset(sorted) == multiset(xs[..n])
    {
      var k := PlaceFor(sorted, xs[n], le);
      InsertedSorted(sorted, k, xs[n], le);
      InsertedMultiset(sorted, k, xs[n]);
      assert xs[..n + 1] == xs[..n] + [xs[n]];
      sorted := Inserted(sorted, k, xs[n]);
    }
    assert xs[..|xs|] == xs;
  }
}
