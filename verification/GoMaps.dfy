/** Go maps as the modelled code uses them: `range` visits every key once, in no fixed order. */
module GoMaps {

  ghost predicate NoDuplicates<T>(xs: seq<T>) {
    forall i, j | 0 <= i < j < |xs| :: xs[i] != xs[j]
  }

  lemma NoDuplicatesAppend<T>(xs: seq<T>, ys: seq<T>)
    requires NoDuplicates(xs) && NoDuplicates(ys) && forall x | x in xs :: x !in ys
    ensures NoDuplicates(xs + ys)
  {
    forall i, j | 0 <= i < j < |xs + ys| ensures (xs + ys)[i] != (xs + ys)[j] {
      assert i < |xs| ==> (xs + ys)[i] in xs;
      assert j >= |xs| ==> (xs + ys)[j] in ys;
    }
  }

  /** An order in which a Go `range` may visit the keys of a map. */
  ghost predicate IsOrderOf<T>(order: seq<T>, keys: set<T>) {
    && (forall i | 0 <= i < |order| :: order[i] in keys)
    && (forall k | k in keys :: k in order)
    && NoDuplicates(order)
  }

  method RangeOrder<T(==)>(keys: set<T>) returns (order: seq<T>)
    ensures IsOrderOf(order, keys)
  {
    order := [];
    var rest := keys;
    while rest != {}
      invariant rest <= keys
      invariant forall i | 0 <= i < |order| :: order[i] in keys && order[i] !in rest
      invariant forall k | k in keys :: k in order || k in rest
      invariant forall i, j | 0 <= i < j < |order| :: order[i] != order[j]
    {
      var k :| k in rest;
      rest := rest - {k};
      order := order + [k];
    }
  }

  /** `for k, v := range src { dst[k] = v }` */
  method CopyInto<K(==), V>(src: map<K, V>, dst: map<K, V>) returns (r: map<K, V>)
    ensures r == dst + src
  {
    r := dst;
    var rest := src.Keys;
    while rest != {}
      invariant rest <= src.Keys
      invariant r == dst + (map k | k in src && k !in rest :: src[k])
    {
      var k :| k in rest;
      rest := rest - {k};
      r := r[k := src[k]];
    }
  }

  lemma Overwrite<K, T>(m: map<K, T>, key: K, a: T, b: T)
    ensures m[key := a][key := b] == m[key := b]
  {
  }

  lemma Reinsert<K, T>(m: map<K, T>, key: K, value: T)
    ensures (m - {key})[key := value] == m[key := value]
  {
  }
}
