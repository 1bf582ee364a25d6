/** The data structure of `core/collection/timingwheel.go` as a value: slot lists and timer index
    share entries, and an entry is an identity `E` with a record of its fields. The lemmas say that
    each way the code updates this structure keeps it sound and does what `TimerModel` says. */
module WheelLayout {
  import opened Modulo
  import opened GoMaps
  import opened TimerModel

  datatype Entry<K, V> = Entry(key: K, value: V, circle: int, diff: int, removed: bool)

  datatype Place<E> = Place(pos: int, item: E)

  datatype Layout<K(==), V, E(==)> = Layout(
    tickedPos: int,
    slots: seq<seq<E>>,
    index: map<K, Place<E>>,
    fields: map<E, Entry<K, V>>)

  ghost predicate At<E>(slots: seq<seq<E>>, p: int, e: E) {
    0 <= p < |slots| && e in slots[p]
  }

  /** The slot lists hold every entry at most once. */
  ghost predicate SlotsSound<E>(slots: seq<seq<E>>) {
    && (forall p | 0 <= p < |slots| :: NoDuplicates(slots[p]))
    && (forall p, q, e {:trigger At(slots, p, e), At(slots, q, e)} |
          0 <= p < |slots| && e in slots[p] && At(slots, q, e) :: p == q)
  }

  function Append<E>(slots: seq<seq<E>>, pos: nat, e: E): (r: seq<seq<E>>)
    requires pos < |slots|
  {
    slots[pos := slots[pos] + [e]]
  }

  function RemoveAt<E>(slots: seq<seq<E>>, pos: nat, i: nat): (r: seq<seq<E>>)
    requires pos < |slots| && i < |slots[pos]|
  {
    slots[pos := slots[pos][..i] + slots[pos][i + 1..]]
  }

  lemma AppendSound<E>(slots: seq<seq<E>>, pos: nat, e: E)
    requires SlotsSound(slots) && pos < |slots| && forall p | 0 <= p < |slots| :: e !in slots[p]
    ensures SlotsSound(Append(slots, pos, e))
    ensures forall p, x | 0 <= p < |slots| :: x in Append(slots, pos, e)[p] <==> x in slots[p] || (p == pos && x == e)
  {
    var slot := slots[pos];
    NoDuplicatesAppend(slot, [e]);
    assert (slot + [e])[|slot|] == e;
    assert forall x :: x in slot + [e] <==> x in slot || x == e;
    var slots' := Append(slots, pos, e);
    forall p, q, x | 0 <= p < |slots'| && x in slots'[p] && At(slots', q, x) ensures p == q {
      assert x != e ==> At(slots, p, x) && At(slots, q, x);
    }
  }

  lemma RemoveAtSound<E>(slots: seq<seq<E>>, pos: nat, i: nat)
    requires SlotsSound(slots) && pos < |slots| && i < |slots[pos]|
    ensures SlotsSound(RemoveAt(slots, pos, i))
    ensures forall p, x | 0 <= p < |slots| :: x in RemoveAt(slots, pos, i)[p] <==> x in slots[p] && x != slots[pos][i]
  {
    var slot, e := slots[pos], slots[pos][i];
    var rest := slot[..i] + slot[i + 1..];
    assert forall j | 0 <= j < |rest| :: rest[j] == if j < i then slot[j] else slot[j + 1];
    forall x ensures x in rest <==> x in slot && x != e {
      if x in slot && x != e {
        var j :| 0 <= j < |slot| && slot[j] == x;
        assert rest[if j < i then j else j - 1] == x;
      }
    }
    assert At(slots, pos, e);
    var slots' := RemoveAt(slots, pos, i);
    forall p, x | 0 <= p < |slots| ensures x in slots'[p] <==> x in slots[p] && x != e {
      assert At(slots, p, e) ==> p == pos;
    }
    forall p, q, x | 0 <= p < |slots'| && x in slots'[p] && At(slots', q, x) ensures p == q {
      assert At(slots, p, x) && At(slots, q, x);
    }
  }

  /** The index leads `key` to a live entry of that key in the recorded slot. */
  ghost predicate Indexed<K, V, E>(m: Layout<K, V, E>, key: K)
    requires key in m.index
  {
    var Place(pos, item) := m.index[key];
    && 0 <= pos < |m.slots| && item in m.slots[pos] && item in m.fields
    && m.fields[item].key == key && !m.fields[item].removed
    && m.fields[item].circle >= 0 && 0 <= m.fields[item].diff < |m.slots|
  }

  /** An entry in a slot list is tombstoned or the one the index names for its key. */
  ghost predicate Listed<K, V, E>(m: Layout<K, V, E>, e: E) {
    e in m.fields && (!m.fields[e].removed ==> m.fields[e].key in m.index && m.index[m.fields[e].key].item == e)
  }

  ghost predicate Consistent<K, V, E>(m: Layout<K, V, E>) {
    && SlotsSound(m.slots)
    && (forall p, e {:trigger e in m.slots[p]} | 0 <= p < |m.slots| && e in m.slots[p] :: Listed(m, e))
    && (forall k | k in m.index :: Indexed(m, k))
  }

  /** Always true; mentioning it lets the verifier look inside the predicates that speak of `x`. */
  predicate Unfold<T>(x: T, u: bool) {
    true
  }

  /** Index and live slot entries are in bijection by key, and each is where the index says. */
  ghost predicate Sound<K, V, E>(m: Layout<K, V, E>) {
    0 <= m.tickedPos < |m.slots| && forall u {:trigger Unfold(m, u)} | Unfold(m, u) :: Consistent(m)
  }

  lemma IndexedIn<K, V, E>(m: Layout<K, V, E>, key: K)
    requires Sound(m) && key in m.index
    ensures Indexed(m, key)
  {
    assert Unfold(m, true);
  }

  lemma Unfolded<K, V, E>(m: Layout<K, V, E>)
    requires Sound(m)
    ensures Consistent(m)
  {
    assert Unfold(m, true);
  }

  ghost function TimerOf<K, V, E>(m: Layout<K, V, E>, key: K): (t: Timer<V>)
    requires key in m.index && Indexed(m, key)
  {
    var f := m.fields[m.index[key].item];
    Timer(f.value, m.index[key].pos, f.circle, f.diff)
  }

  ghost function ModelOf<K, V, E>(m: Layout<K, V, E>): (w: Wheel<K, V>)
    requires Sound(m)
    ensures WellFormed(w) && w.timers.Keys == m.index.Keys
  {
    Unfolded(m);
    Wheel(|m.slots|, m.tickedPos, map k | k in m.index :: TimerOf(m, k))
  }

  // ---- The updates ----

  /** A live entry's fields change, its key does not. */
  ghost function Rewrite<K, V, E>(m: Layout<K, V, E>, key: K, value: V, circle: nat, diff: nat): (m': Layout<K, V, E>)
    requires key in m.index && Indexed(m, key)
  {
    Layout(m.tickedPos, m.slots, m.index, m.fields[m.index[key].item := Entry(key, value, circle, diff, false)])
  }

  lemma RewriteSound<K, V, E>(m: Layout<K, V, E>, key: K, value: V, circle: nat, diff: nat)
    requires Sound(m) && key in m.index && Indexed(m, key) && diff < |m.slots|
    ensures Sound(Rewrite(m, key, value, circle, diff))
    ensures ModelOf(Rewrite(m, key, value, circle, diff)).timers
            == ModelOf(m).timers[key := Timer(value, m.index[key].pos, circle, diff)]
  {
    assert Unfold(m, true);
    var m' := Rewrite(m, key, value, circle, diff);
    forall k | k in m.index ensures Indexed(m', k) && (k != key ==> TimerOf(m', k) == TimerOf(m, k)) {
      assert Indexed(m, k);
    }
  }

  /** A new entry is appended to slot `pos` and entered in the index. */
  ghost function Insert<K, V, E>(m: Layout<K, V, E>, key: K, value: V, pos: nat, circle: nat,
                                 e: E): (m': Layout<K, V, E>)
    requires pos < |m.slots|
  {
    Layout(m.tickedPos, Append(m.slots, pos, e), m.index[key := Place(pos, e)],
           m.fields[e := Entry(key, value, circle, 0, false)])
  }

  lemma InsertConsistent<K, V, E>(m: Layout<K, V, E>, key: K, value: V, pos: nat, circle: nat, e: E)
    requires Consistent(m) && key !in m.index && pos < |m.slots|
    requires forall p | 0 <= p < |m.slots| :: e !in m.slots[p]
    ensures var m' := Insert(m, key, value, pos, circle, e);
            Consistent(m') && forall k | k in m.index :: k in m'.index && Indexed(m, k) && TimerOf(m', k) == TimerOf(m, k)
  {
    var m' := Insert(m, key, value, pos, circle, e);
    AppendSound(m.slots, pos, e);
    forall k | k in m'.index ensures Indexed(m', k) && (k != key ==> TimerOf(m', k) == TimerOf(m, k)) {
      assert k != key ==> Indexed(m, k);
    }
    forall p, x | 0 <= p < |m'.slots| && x in m'.slots[p] ensures Listed(m', x) {
      assert x != e ==> x in m.slots[p] && Listed(m, x);
    }
  }

  lemma InsertSound<K, V, E>(m: Layout<K, V, E>, key: K, value: V, pos: nat, circle: nat, e: E)
    requires Sound(m) && key !in m.index && pos < |m.slots|
    requires forall p | 0 <= p < |m.slots| :: e !in m.slots[p]
    ensures Sound(Insert(m, key, value, pos, circle, e))
    ensures ModelOf(Insert(m, key, value, pos, circle, e)).timers
            == ModelOf(m).timers[key := Timer(value, pos, circle, 0)]
  {
    Unfolded(m);
    InsertConsistent(m, key, value, pos, circle, e);
  }

  ghost function Dead<K, V>(f: Entry<K, V>): (f': Entry<K, V>) {
    Entry(f.key, f.value, f.circle, f.diff, true)
  }

  /** A live entry becomes a tombstone and leaves the index. */
  ghost function Kill<K, V, E>(m: Layout<K, V, E>, key: K): (m': Layout<K, V, E>)
    requires key in m.index && m.index[key].item in m.fields
  {
    var item := m.index[key].item;
    Layout(m.tickedPos, m.slots, m.index - {key}, m.fields[item := Dead(m.fields[item])])
  }

  lemma KillSound<K, V, E>(m: Layout<K, V, E>, key: K)
    requires Sound(m) && key in m.index && Indexed(m, key)
    ensures Sound(Kill(m, key)) && ModelOf(Kill(m, key)).timers == ModelOf(m).timers - {key}
  {
    assert Unfold(m, true);
    var m' := Kill(m, key);
    forall k | k in m'.index ensures Indexed(m', k) && TimerOf(m', k) == TimerOf(m, k) {
      assert Indexed(m, k);
    }
    forall p, x | 0 <= p < |m'.slots| && x in m'.slots[p] ensures Listed(m', x) {
      assert Listed(m, x);
    }
  }

  /** The scan drops a tombstone from its list. */
  ghost function Sweep<K, V, E>(m: Layout<K, V, E>, i: nat): (m': Layout<K, V, E>)
    requires 0 <= m.tickedPos < |m.slots| && i < |m.slots[m.tickedPos]|
  {
    Layout(m.tickedPos, RemoveAt(m.slots, m.tickedPos, i), m.index, m.fields)
  }

  /** The entry at place `i` of the slot being scanned. */
  ghost function Scanned<K, V, E>(m: Layout<K, V, E>, i: nat): (f: Entry<K, V>)
    requires 0 <= m.tickedPos < |m.slots| && i < |m.slots[m.tickedPos]| && m.slots[m.tickedPos][i] in m.fields
  {
    m.fields[m.slots[m.tickedPos][i]]
  }

  lemma SweepSound<K, V, E>(m: Layout<K, V, E>, i: nat)
    requires Sound(m) && i < |m.slots[m.tickedPos]| && Listed(m, m.slots[m.tickedPos][i]) && Scanned(m, i).removed
    ensures Sound(Sweep(m, i)) && ModelOf(Sweep(m, i)).timers == ModelOf(m).timers
  {
    assert Unfold(m, true);
    var m' := Sweep(m, i);
    RemoveAtSound(m.slots, m.tickedPos, i);
    forall k | k in m'.index ensures Indexed(m', k) && TimerOf(m', k) == TimerOf(m, k) {
      assert Indexed(m, k);
    }
    forall p, x | 0 <= p < |m'.slots| && x in m'.slots[p] ensures Listed(m', x) {
      assert Listed(m, x);
    }
  }

  /** The scan takes a due entry out of its list and of the index. */
  ghost function Expire<K, V, E>(m: Layout<K, V, E>, i: nat): (m': Layout<K, V, E>)
    requires 0 <= m.tickedPos < |m.slots| && i < |m.slots[m.tickedPos]| && m.slots[m.tickedPos][i] in m.fields
  {
    Layout(m.tickedPos, RemoveAt(m.slots, m.tickedPos, i), m.index - {Scanned(m, i).key}, m.fields)
  }

  lemma ExpireSound<K, V, E>(m: Layout<K, V, E>, i: nat)
    requires Sound(m) && i < |m.slots[m.tickedPos]| && Listed(m, m.slots[m.tickedPos][i]) && !Scanned(m, i).removed
    ensures Sound(Expire(m, i)) && ModelOf(Expire(m, i)).timers == ModelOf(m).timers - {Scanned(m, i).key}
  {
    assert Unfold(m, true);
    var m' := Expire(m, i);
    RemoveAtSound(m.slots, m.tickedPos, i);
    forall k | k in m'.index ensures Indexed(m', k) && TimerOf(m', k) == TimerOf(m, k) {
      assert Indexed(m, k);
    }
    forall p, x | 0 <= p < |m'.slots| && x in m'.slots[p] ensures Listed(m', x) {
      assert Listed(m, x);
      assert m.index[Scanned(m, i).key].item == m.slots[m.tickedPos][i];
    }
  }

  /** A tombstone stays behind and the new entry `e` in slot `pos` takes over its key and value. */
  ghost function Supersede<K, V, E>(m: Layout<K, V, E>, key: K, value: V, pos: nat, e: E): (m': Layout<K, V, E>)
    requires key in m.index && m.index[key].item in m.fields && pos < |m.slots|
  {
    var item := m.index[key].item;
    Layout(m.tickedPos, Append(m.slots, pos, e), m.index[key := Place(pos, e)],
           m.fields[item := Dead(m.fields[item])][e := Entry(key, value, 0, 0, false)])
  }

  lemma SupersedeSound<K, V, E>(m: Layout<K, V, E>, key: K, value: V, pos: nat, e: E)
    requires Sound(m) && key in m.index && m.index[key].item in m.fields && pos < |m.slots| && e !in m.fields
    ensures Sound(Supersede(m, key, value, pos, e))
    ensures ModelOf(Supersede(m, key, value, pos, e)).timers == ModelOf(m).timers[key := Timer(value, pos, 0, 0)]
  {
    assert Unfold(m, true);
    assert Indexed(m, key);
    KillSound(m, key);
    assert forall p | 0 <= p < |m.slots| :: e !in m.slots[p];
    InsertSound(Kill(m, key), key, value, pos, 0, e);
    Reinsert(m.index, key, Place(pos, e));
    Reinsert(ModelOf(m).timers, key, Timer(value, pos, 0, 0));
  }

  /** The scan moves an entry on to slot `pos`: as if it expired and were set anew there. */
  ghost function Relocate<K, V, E>(m: Layout<K, V, E>, i: nat, pos: nat): (m': Layout<K, V, E>)
    requires 0 <= m.tickedPos < |m.slots| && i < |m.slots[m.tickedPos]| && m.slots[m.tickedPos][i] in m.fields
    requires pos < |m.slots| && Scanned(m, i).circle >= 0
  {
    var f := Scanned(m, i);
    Insert(Expire(m, i), f.key, f.value, pos, f.circle, m.slots[m.tickedPos][i])
  }

  lemma RelocateSound<K, V, E>(m: Layout<K, V, E>, i: nat, pos: nat)
    requires Sound(m) && i < |m.slots[m.tickedPos]| && Listed(m, m.slots[m.tickedPos][i]) && !Scanned(m, i).removed
    requires pos < |m.slots| && Scanned(m, i).circle >= 0
    ensures var f := Scanned(m, i);
            && Sound(Relocate(m, i, pos))
            && ModelOf(Relocate(m, i, pos)).timers == ModelOf(m).timers[f.key := Timer(f.value, pos, f.circle, 0)]
  {
    assert Unfold(m, true);
    var e, f := m.slots[m.tickedPos][i], Scanned(m, i);
    ExpireSound(m, i);
    assert forall p | 0 <= p < |m.slots| :: e !in Expire(m, i).slots[p] by {
      RemoveAtSound(m.slots, m.tickedPos, i);
    }
    InsertSound(Expire(m, i), f.key, f.value, pos, f.circle, e);
    Reinsert(ModelOf(m).timers, f.key, Timer(f.value, pos, f.circle, 0));
  }

  // ---- What the structure represents ----

  /** `m` is sound and stands for the wheel `w`. */
  ghost predicate Represents<K, V, E>(m: Layout<K, V, E>, w: Wheel<K, V>) {
    && Sound(m) && WellFormed(w)
    && w.numSlots == |m.slots| && w.tickedPos == m.tickedPos && w.timers.Keys == m.index.Keys
    && forall u {:trigger Unfold(m, u)} | Unfold(m, u) :: w.timers == ModelOf(m).timers
  }

  lemma RepresentedTimer<K, V, E>(m: Layout<K, V, E>, w: Wheel<K, V>, key: K)
    requires Represents(m, w) && key in m.index
    ensures Indexed(m, key) && w.timers[key] == TimerOf(m, key)
  {
    assert Unfold(m, true);
  }

  lemma RepresentsUpdate<K, V, E>(m: Layout<K, V, E>, w: Wheel<K, V>, m': Layout<K, V, E>, key: K, t: Timer<V>)
    requires Represents(m, w) && Sound(m') && m'.tickedPos == m.tickedPos && |m'.slots| == |m.slots|
    requires ModelOf(m').timers == ModelOf(m).timers[key := t]
    ensures t.pos < w.numSlots && t.diff < w.numSlots
    ensures Represents(m', Wheel(w.numSlots, w.tickedPos, w.timers[key := t]))
  {
    assert Unfold(m, true);
    assert ModelOf(m').timers[key] == t;
  }

  lemma RewriteRepresents<K, V, E>(m: Layout<K, V, E>, w: Wheel<K, V>, key: K, value: V, circle: nat, diff: nat)
    requires Represents(m, w) && key in m.index && Indexed(m, key) && diff < |m.slots|
    ensures Represents(Rewrite(m, key, value, circle, diff),
                       Wheel(w.numSlots, w.tickedPos, w.timers[key := Timer(value, m.index[key].pos, circle, diff)]))
  {
    RewriteSound(m, key, value, circle, diff);
    RepresentsUpdate(m, w, Rewrite(m, key, value, circle, diff), key, Timer(value, m.index[key].pos, circle, diff));
  }

  lemma InsertRepresents<K, V, E>(m: Layout<K, V, E>, w: Wheel<K, V>, key: K, value: V, pos: nat, circle: nat, e: E)
    requires Represents(m, w) && key !in m.index && pos < |m.slots| && e !in m.fields
    ensures Represents(Insert(m, key, value, pos, circle, e),
                       Wheel(w.numSlots, w.tickedPos, w.timers[key := Timer(value, pos, circle, 0)]))
  {
    NotInSlots(m, e);
    InsertSound(m, key, value, pos, circle, e);
    RepresentsUpdate(m, w, Insert(m, key, value, pos, circle, e), key, Timer(value, pos, circle, 0));
  }

  lemma NotInSlots<K, V, E>(m: Layout<K, V, E>, e: E)
    requires Sound(m) && e !in m.fields
    ensures forall p | 0 <= p < |m.slots| :: e !in m.slots[p]
  {
    assert Unfold(m, true);
  }

  lemma SupersedeRepresents<K, V, E>(m: Layout<K, V, E>, w: Wheel<K, V>, key: K, value: V, pos: nat, e: E)
    requires Represents(m, w) && key in m.index && m.index[key].item in m.fields && pos < |m.slots| && e !in m.fields
    ensures Represents(Supersede(m, key, value, pos, e),
                       Wheel(w.numSlots, w.tickedPos, w.timers[key := Timer(value, pos, 0, 0)]))
  {
    SupersedeSound(m, key, value, pos, e);
    RepresentsUpdate(m, w, Supersede(m, key, value, pos, e), key, Timer(value, pos, 0, 0));
  }

  lemma KillRepresents<K, V, E>(m: Layout<K, V, E>, w: Wheel<K, V>, key: K)
    requires Represents(m, w) && key in m.index && Indexed(m, key)
    ensures Represents(Kill(m, key), RemoveIn(w, key))
  {
    KillSound(m, key);
    assert Unfold(m, true);
  }

  /** Turning the wheel touches no timer. */
  lemma TurnRepresents<K, V, E>(m: Layout<K, V, E>, w: Wheel<K, V>, pos: nat)
    requires Represents(m, w) && pos < |m.slots|
    ensures Represents(Layout(pos, m.slots, m.index, m.fields), Wheel(w.numSlots, pos, w.timers))
  {
    assert Unfold(m, true);
    var m' := Layout(pos, m.slots, m.index, m.fields);
    forall k | k in m.index ensures Indexed(m', k) && TimerOf(m', k) == TimerOf(m, k) {
      assert Indexed(m, k);
    }
    forall p, e | 0 <= p < |m'.slots| && e in m'.slots[p] ensures Listed(m', e) {
      assert Listed(m, e);
    }
    assert Sound(m');
  }

  /** `drainAll` empties every list and leaves the index as it was. */
  ghost function Drained<K, V, E>(m: Layout<K, V, E>): (m': Layout<K, V, E>) {
    Layout(m.tickedPos, seq(|m.slots|, _ => []), m.index, m.fields)
  }

  /** So draining keeps the structure sound exactly when no timer was live. */
  lemma DrainSoundIff<K, V, E>(m: Layout<K, V, E>)
    requires Sound(m)
    ensures Sound(Drained(m)) <==> m.index == map[]
  {
    if m.index != map[] {
      var k :| k in m.index;
      if Sound(Drained(m)) {
        IndexedIn(Drained(m), k);
      }
    }
  }

  // ---- The scan of one slot ----

  /** The timers of `w`, of which those in `done` have been scanned. */
  ghost function TickSome<K, V>(w: Wheel<K, V>, done: set<K>): (r: map<K, Timer<V>>)
    requires WellFormed(w)
  {
    map k | k in w.timers && !(k in done && Fires(w.timers[k], w.tickedPos)) ::
      if k in done then TickTimer(w.timers[k], w.numSlots, w.tickedPos) else w.timers[k]
  }

  /** The list being scanned, from place `i` on. */
  ghost function Rest<K, V, E>(m: Layout<K, V, E>, i: nat): (r: seq<E>)
    requires 0 <= m.tickedPos < |m.slots| && i <= |m.slots[m.tickedPos]|
  {
    m.slots[m.tickedPos][i..]
  }

  /** `done` are the keys already dealt with; the other timers of this slot are still ahead. */
  ghost predicate Ahead<K, V, E>(
      rest: seq<E>, index: map<K, Place<E>>, fields: map<E, Entry<K, V>>, w: Wheel<K, V>, done: set<K>)
  {
    && (forall k | k in done :: k in w.timers && w.timers[k].pos == w.tickedPos)
    && (forall e | e in rest :: e in fields && (!fields[e].removed ==> fields[e].key !in done))
    && (forall k | k in w.timers && w.timers[k].pos == w.tickedPos && k !in done :: k in index && index[k].item in rest)
  }

  /** Mid-scan at place `i`. `w` is the wheel just before the scan. */
  ghost predicate Scanning<K, V, E>(m: Layout<K, V, E>, i: nat, w: Wheel<K, V>, done: set<K>) {
    && Sound(m) && WellFormed(w) && |m.slots| == w.numSlots && m.tickedPos == w.tickedPos
    && i <= |m.slots[m.tickedPos]|
    && ModelOf(m).timers == TickSome(w, done)
    && Ahead(Rest(m, i), m.index, m.fields, w, done)
  }

  /** A live entry ahead of the scan is still as it was before it. */
  lemma ScannedIsUntouched<K, V, E>(m: Layout<K, V, E>, i: nat, w: Wheel<K, V>, done: set<K>)
    requires Scanning(m, i, w, done) && i < |m.slots[m.tickedPos]|
    ensures m.slots[m.tickedPos][i] == Rest(m, i)[0] && Listed(m, m.slots[m.tickedPos][i])
    ensures var f := Scanned(m, i);
            !f.removed ==> && f.key in w.timers && f.key !in done && f.circle >= 0 && 0 <= f.diff < |m.slots|
                           && w.timers[f.key] == Timer(f.value, m.tickedPos, f.circle, f.diff)
                           && m.index[f.key] == Place(m.tickedPos, m.slots[m.tickedPos][i])
  {
    assert Unfold(m, true);
    var e := m.slots[m.tickedPos][i];
    assert e == Rest(m, i)[0] && e in Rest(m, i) && e in m.slots[m.tickedPos];
    var f := m.fields[e];
    if !f.removed {
      assert Indexed(m, f.key);
      assert At(m.slots, m.tickedPos, e) && At(m.slots, m.index[f.key].pos, e);
      assert f.key in ModelOf(m).timers;
    }
  }

  lemma TickFires<K, V>(w: Wheel<K, V>, done: set<K>, key: K)
    requires WellFormed(w) && key in w.timers && key !in done && Fires(w.timers[key], w.tickedPos)
    ensures TickSome(w, done + {key}) == TickSome(w, done) - {key}
  {
  }

  lemma TickKeeps<K, V>(w: Wheel<K, V>, done: set<K>, key: K, t: Timer<V>)
    requires WellFormed(w) && key in w.timers && key !in done && !Fires(w.timers[key], w.tickedPos)
    requires t == TickTimer(w.timers[key], w.numSlots, w.tickedPos)
    ensures TickSome(w, done + {key}) == TickSome(w, done)[key := t]
  {
  }

  /** Taking place `i` out of the scanned list leaves the rest of it ahead of the scan. */
  lemma RestAfterRemove<E>(slots: seq<seq<E>>, pos: nat, i: nat)
    requires pos < |slots| && i < |slots[pos]|
    ensures RemoveAt(slots, pos, i)[pos][i..] == slots[pos][i..][1..]
  {
  }

  lemma AheadAdvances<K, V, E>(
      rest: seq<E>, index: map<K, Place<E>>, fields: map<E, Entry<K, V>>, w: Wheel<K, V>, done: set<K>,
      key: K, index': map<K, Place<E>>, fields': map<E, Entry<K, V>>)
    requires Ahead(rest, index, fields, w, done) && NoDuplicates(rest) && |rest| > 0
    requires key in w.timers && w.timers[key].pos == w.tickedPos && key in index && index[key].item == rest[0]
    requires forall e | e in rest && !fields[e].removed :: fields[e].key in index && index[fields[e].key].item == e
    requires forall k | k in index && k != key :: k in index' && index'[k].item == index[k].item
    requires forall k | k in index && k != key :: index[k].item != rest[0]
    requires forall e | e in rest && e != rest[0] :: e in fields' && fields'[e] == fields[e]
    ensures Ahead(rest[1..], index', fields', w, done + {key})
  {
    var rest' := rest[1..];
    assert rest == [rest[0]] + rest';
    forall e | e in rest' ensures e in rest && e != rest[0] {
      var j :| 0 <= j < |rest'| && rest'[j] == e;
      assert rest[j + 1] == e;
    }
  }

  /** The facts that the three live cases share. */
  lemma ScanAdvances<K, V, E>(m: Layout<K, V, E>, i: nat, w: Wheel<K, V>, done: set<K>,
                                    index': map<K, Place<E>>, fields': map<E, Entry<K, V>>)
    requires Scanning(m, i, w, done) && i < |m.slots[m.tickedPos]|
    requires m.slots[m.tickedPos][i] in m.fields && !Scanned(m, i).removed
    requires forall k | k in m.index && k != Scanned(m, i).key :: k in index' && index'[k] == m.index[k]
    requires forall e | e in m.fields && e != m.slots[m.tickedPos][i] :: e in fields' && fields'[e] == m.fields[e]
    ensures Ahead(Rest(m, i)[1..], index', fields', w, done + {Scanned(m, i).key})
  {
    assert Unfold(m, true);
    ScannedIsUntouched(m, i, w, done);
    var rest := Rest(m, i);
    assert NoDuplicates(rest) by {
      assert NoDuplicates(m.slots[m.tickedPos]);
    }
    forall e | e in rest ensures Listed(m, e) {
      assert e in m.slots[m.tickedPos];
    }
    forall k | k in m.index && k != Scanned(m, i).key ensures m.index[k].item != rest[0] {
      assert Indexed(m, k);
    }
    AheadAdvances(rest, m.index, m.fields, w, done, Scanned(m, i).key, index', fields');
  }

  lemma CirclesModel<K, V, E>(m: Layout<K, V, E>, w: Wheel<K, V>, done: set<K>, key: K, value: V, circle: nat,
                              diff: nat)
    requires Sound(m) && WellFormed(w) && ModelOf(m).timers == TickSome(w, done) && w.numSlots == |m.slots|
    requires key in m.index && key in w.timers && key !in done && Indexed(m, key) && m.index[key].pos == w.tickedPos
    requires w.timers[key] == Timer(value, w.tickedPos, circle + 1, diff)
    ensures Sound(Rewrite(m, key, value, circle, diff))
    ensures ModelOf(Rewrite(m, key, value, circle, diff)).timers == TickSome(w, done + {key})
  {
    RewriteSound(m, key, value, circle, diff);
    TickKeeps(w, done, key, Timer(value, w.tickedPos, circle, diff));
  }

  lemma ScanCircles<K, V, E>(m: Layout<K, V, E>, i: nat, w: Wheel<K, V>, done: set<K>)
    requires Scanning(m, i, w, done) && i < |m.slots[m.tickedPos]|
    requires m.slots[m.tickedPos][i] in m.fields && !Scanned(m, i).removed && Scanned(m, i).circle > 0
    ensures var f := Scanned(m, i);
            && f.key in m.index && Indexed(m, f.key) && f.diff >= 0
            && Scanning(Rewrite(m, f.key, f.value, f.circle - 1, f.diff), i + 1, w, done + {f.key})
  {
    var f := Scanned(m, i);
    ScannedIsUntouched(m, i, w, done);
    assert Indexed(m, f.key);
    CirclesModel(m, w, done, f.key, f.value, f.circle - 1, f.diff);
    var m' := Rewrite(m, f.key, f.value, f.circle - 1, f.diff);
    ScanAdvances(m, i, w, done, m'.index, m'.fields);
    assert Rest(m', i + 1) == Rest(m, i)[1..];
  }

  lemma RelocatesModel<K, V, E>(m: Layout<K, V, E>, i: nat, w: Wheel<K, V>, done: set<K>, pos: nat)
    requires Scanning(m, i, w, done) && i < |m.slots[m.tickedPos]|
    requires m.slots[m.tickedPos][i] in m.fields && !Scanned(m, i).removed
    requires Scanned(m, i).circle == 0 && Scanned(m, i).diff > 0
    requires Scanned(m, i).diff < |m.slots| && pos == Further(m.tickedPos, Scanned(m, i).diff, |m.slots|)
    ensures pos != m.tickedPos && Sound(Relocate(m, i, pos))
    ensures ModelOf(Relocate(m, i, pos)).timers == TickSome(w, done + {Scanned(m, i).key})
  {
    var f := Scanned(m, i);
    ScannedIsUntouched(m, i, w, done);
    RelocateSound(m, i, pos);
    TickKeeps(w, done, f.key, Timer(f.value, pos, 0, 0));
  }

  // ---- The scan, as the loop sees it ----

  ghost predicate MidScan<K, V, E>(m: Layout<K, V, E>, i: nat, w: Wheel<K, V>, done: set<K>) {
    && 0 <= m.tickedPos < |m.slots| && i <= |m.slots[m.tickedPos]| && WellFormed(w)
    && m.tickedPos == w.tickedPos && |m.slots| == w.numSlots
    && forall u {:trigger Unfold(m, u)} | Unfold(m, u) :: Scanning(m, i, w, done)
  }

  lemma MidScanStarts<K, V, E>(m: Layout<K, V, E>, w: Wheel<K, V>)
    requires Represents(m, w)
    ensures MidScan(m, 0, w, {})
  {
    assert Unfold(m, true);
    forall k | k in m.index ensures m.index[k].pos == m.tickedPos ==> m.index[k].item in Rest(m, 0) {
      assert Indexed(m, k);
    }
    assert w == ModelOf(m);
  }

  lemma MidScanEnds<K, V, E>(m: Layout<K, V, E>, before: Wheel<K, V>, w: Wheel<K, V>, done: set<K>)
    requires WellFormed(before) && w == Wheel(before.numSlots, TickedPos(before), before.timers)
    requires 0 <= m.tickedPos < |m.slots| && MidScan(m, |m.slots[m.tickedPos]|, w, done)
    ensures Represents(m, TickIn(before))
    ensures forall k | k in w.timers && Fires(w.timers[k], w.tickedPos) :: k in done
  {
    assert Unfold(m, true);
    assert Rest(m, |m.slots[m.tickedPos]|) == [];
    assert ModelOf(m).timers == TickIn(before).timers;
  }

  /** The entry at place `i`: a tombstone, or the live timer that `w` knows by its key. */
  lemma MidScanEntry<K, V, E>(m: Layout<K, V, E>, i: nat, w: Wheel<K, V>, done: set<K>)
    requires MidScan(m, i, w, done) && i < |m.slots[m.tickedPos]|
    ensures m.slots[m.tickedPos][i] in m.fields
    ensures var f := Scanned(m, i);
            !f.removed ==> && f.key in w.timers && f.key !in done && f.circle >= 0 && 0 <= f.diff < |m.slots|
                           && w.timers[f.key] == Timer(f.value, m.tickedPos, f.circle, f.diff)
                           && f.key in m.index && m.index[f.key] == Place(m.tickedPos, m.slots[m.tickedPos][i])
                           && Indexed(m, f.key)
  {
    assert Unfold(m, true);
    ScannedIsUntouched(m, i, w, done);
  }

  lemma MidScanSweeps<K, V, E>(m: Layout<K, V, E>, i: nat, w: Wheel<K, V>, done: set<K>)
    requires MidScan(m, i, w, done) && i < |m.slots[m.tickedPos]|
    requires m.slots[m.tickedPos][i] in m.fields && Scanned(m, i).removed
    ensures MidScan(Sweep(m, i), i, w, done)
  {
    assert Unfold(m, true);
    ScannedIsUntouched(m, i, w, done);
    SweepSound(m, i);
    RestAfterRemove(m.slots, m.tickedPos, i);
    var rest := Rest(m, i);
    assert Ahead(rest[1..], m.index, m.fields, w, done) by {
      assert rest == [rest[0]] + rest[1..];
      forall k | k in m.index ensures m.index[k].item != rest[0] {
        assert Indexed(m, k);
      }
    }
  }

  lemma MidScanFires<K, V, E>(m: Layout<K, V, E>, i: nat, w: Wheel<K, V>, done: set<K>)
    requires MidScan(m, i, w, done) && i < |m.slots[m.tickedPos]|
    requires m.slots[m.tickedPos][i] in m.fields && !Scanned(m, i).removed
    requires Scanned(m, i).circle == 0 && Scanned(m, i).diff == 0
    ensures MidScan(Expire(m, i), i, w, done + {Scanned(m, i).key})
  {
    assert Unfold(m, true);
    var m', key := Expire(m, i), Scanned(m, i).key;
    ScannedIsUntouched(m, i, w, done);
    ExpireSound(m, i);
    TickFires(w, done, key);
    RestAfterRemove(m.slots, m.tickedPos, i);
    ScanAdvances(m, i, w, done, m'.index, m'.fields);
  }

  lemma MidScanCircles<K, V, E>(m: Layout<K, V, E>, i: nat, w: Wheel<K, V>, done: set<K>)
    requires MidScan(m, i, w, done) && i < |m.slots[m.tickedPos]|
    requires m.slots[m.tickedPos][i] in m.fields && !Scanned(m, i).removed && Scanned(m, i).circle > 0
    requires Scanned(m, i).key in m.index && Indexed(m, Scanned(m, i).key) && Scanned(m, i).diff >= 0
    ensures var f := Scanned(m, i);
            MidScan(Rewrite(m, f.key, f.value, f.circle - 1, f.diff), i + 1, w, done + {f.key})
  {
    assert Unfold(m, true);
    ScanCircles(m, i, w, done);
  }

  lemma MidScanRelocates<K, V, E>(m: Layout<K, V, E>, i: nat, w: Wheel<K, V>, done: set<K>, pos: nat)
    requires MidScan(m, i, w, done) && i < |m.slots[m.tickedPos]|
    requires m.slots[m.tickedPos][i] in m.fields && !Scanned(m, i).removed
    requires Scanned(m, i).circle == 0 && Scanned(m, i).diff > 0
    requires Scanned(m, i).diff < |m.slots| && pos == Further(m.tickedPos, Scanned(m, i).diff, |m.slots|)
    ensures pos != m.tickedPos && MidScan(Relocate(m, i, pos), i, w, done + {Scanned(m, i).key})
  {
    assert Unfold(m, true);
    var m' := Relocate(m, i, pos);
    RelocatesModel(m, i, w, done, pos);
    ScanAdvances(m, i, w, done, m'.index, m'.fields);
    RestAfterRemove(m.slots, m.tickedPos, i);
    assert m'.slots[m.tickedPos] == RemoveAt(m.slots, m.tickedPos, i)[m.tickedPos];
  }
}
