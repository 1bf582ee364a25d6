/** `core/collection/safemap.go`: a map kept in two generations, so that a generation with many
    deletions can be dropped. */
module SafeMaps {
  import opened Options
  import opened GoMaps

  const COPY_THRESHOLD := 1000
  const MAX_DELETION := 10000

  lemma Disjoint<K, V>(a: map<K, V>, b: map<K, V>)
    requires a.Keys !! b.Keys
    ensures a + b == b + a
  {
  }

  class SafeMap<K(==), V> {
    var deletionOld: int
    var deletionNew: int
    var dirtyOld: map<K, V>
    var dirtyNew: map<K, V>

    ghost predicate Valid()
      reads this
    {
      dirtyOld.Keys !! dirtyNew.Keys && deletionOld >= 0 && deletionNew >= 0
    }

    /** The plain map that the two generations stand for. */
    ghost function Contents(): (r: map<K, V>)
      reads this
    {
      dirtyOld + dirtyNew
    }

    constructor ()
      ensures Valid() && Contents() == map[]
    {
      deletionOld, deletionNew, dirtyOld, dirtyNew := 0, 0, map[], map[];
    }

    method Set(key: K, value: V)
      requires Valid()
      modifies this
      ensures Valid() && Contents() == old(Contents())[key := value]
    {
      if deletionOld <= MAX_DELETION {
        if key in dirtyNew {
          dirtyNew := dirtyNew - {key};
          deletionNew := deletionNew + 1;
        }
        dirtyOld := dirtyOld[key := value];
      } else {
        if key in dirtyOld {
          dirtyOld := dirtyOld - {key};
          deletionOld := deletionOld + 1;
        }
        dirtyNew := dirtyNew[key := value];
      }
    }

    method Get(key: K) returns (value: Option<V>)
      requires Valid()
      ensures value == if key in Contents() then Some(Contents()[key]) else None
    {
      if key in dirtyOld {
        return Some(dirtyOld[key]);
      }
      value := if key in dirtyNew then Some(dirtyNew[key]) else None;
    }

    method Del(key: K)
      requires Valid()
      modifies this
      ensures Valid() && Contents() == old(Contents()) - {key}
    {
      if key in dirtyOld {
        dirtyOld := dirtyOld - {key};
        deletionOld := deletionOld + 1;
      } else if key in dirtyNew {
        dirtyNew := dirtyNew - {key};
        deletionNew := deletionNew + 1;
      }
      assert Valid() && Contents() == old(Contents()) - {key};
      DropOld();
      DropNew();
    }

    /** The first migration in `Del`: a worn-out old generation moves into the new one, which
        takes its place. */
    method DropOld()
      requires Valid()
      modifies this
      ensures Valid() && Contents() == old(Contents())
      ensures old(deletionOld >= MAX_DELETION && |dirtyOld| < COPY_THRESHOLD)
              ==> dirtyNew == map[] && deletionNew == 0 && deletionOld == old(deletionNew)
      ensures !old(deletionOld >= MAX_DELETION && |dirtyOld| < COPY_THRESHOLD) ==> unchanged(this)
    {
      if deletionOld >= MAX_DELETION && |dirtyOld| < COPY_THRESHOLD {
        var merged := CopyInto(dirtyOld, dirtyNew);
        Disjoint(dirtyOld, dirtyNew);
        dirtyOld := merged;
        deletionOld := deletionNew;
        dirtyNew := map[];
        deletionNew := 0;
      }
    }

    /** The second migration in `Del`: a worn-out new generation moves into the old one. */
    method DropNew()
      requires Valid()
      modifies this
      ensures Valid() && Contents() == old(Contents())
      ensures old(deletionNew >= MAX_DELETION && |dirtyNew| < COPY_THRESHOLD)
              ==> dirtyNew == map[] && deletionNew == 0 && deletionOld == old(deletionOld)
      ensures !old(deletionNew >= MAX_DELETION && |dirtyNew| < COPY_THRESHOLD) ==> unchanged(this)
    {
      if deletionNew >= MAX_DELETION && |dirtyNew| < COPY_THRESHOLD {
        dirtyOld := CopyInto(dirtyNew, dirtyOld);
        dirtyNew := map[];
        deletionNew := 0;
      }
    }

    method Size() returns (size: int)
      requires Valid()
      ensures size == |Contents()|
    {
      assert Contents().Keys == dirtyOld.Keys + dirtyNew.Keys;
      size := |dirtyOld| + |dirtyNew|;
    }
  }
}
