/** The read-through cache of `core/stores/cache/cachenode.go`, its retrying deletions from
    `core/stores/cache/cleaner.go`, and the queries and execs of `core/stores/sqlc/cachedsql.go`
    on top, one operation at a time.

    Redis is a map of strings. Any command may report an error, with or without having taken
    effect, and any entry may expire at any time: these choices are parameters. */
module CachedStores {
  import opened Options

  type Key = string

  const PLACEHOLDER := "*"

  const SECOND := 1
  const MINUTE := 60 * SECOND
  const HOUR := 60 * MINUTE

  /** What a query tells its caller. */
  datatype Answer<+V> = Found(value: V) | NotFound | Failed

  /** How a `Del` went: an error may come after some of the keys are gone. */
  datatype DelReply = Deleted | DelError(gone: set<Key>)

  /** How a `Setex` or `SetnxEx` went. */
  datatype SetReply = Stored | SetError(applied: bool)

  /** A `delayTask`; `tries` counts how often it has failed. */
  datatype CleanTask = CleanTask(keys: seq<Key>, delay: int, tries: nat)

  // ---- the retry schedule

  function NextDelay(delay: int): (r: Option<int>) {
    if delay == SECOND then Some(5 * SECOND)
    else if delay == 5 * SECOND then Some(MINUTE)
    else if delay == MINUTE then Some(5 * MINUTE)
    else if delay == 5 * MINUTE then Some(HOUR)
    else None
  }

  ghost const SCHEDULE: seq<int> := [SECOND, 5 * SECOND, MINUTE, 5 * MINUTE, HOUR]

  /** The delay after `tries` failures is the next entry of the schedule, which has five. */
  lemma ScheduleHasFive(tries: nat)
    requires tries < 5
    ensures NextDelay(SCHEDULE[tries]) == if tries < 4 then Some(SCHEDULE[tries + 1]) else None
  {
    assert tries == 0 || tries == 1 || tries == 2 || tries == 3 || tries == 4;
  }

  ghost predicate OnSchedule(t: CleanTask) {
    t.tries < 5 && t.delay == SCHEDULE[t.tries]
  }

  function KeySet(keys: seq<Key>): (s: set<Key>)
    ensures forall k :: k in s <==> k in keys
  {
    set k | k in keys
  }

  /** The effect on Redis of deleting `keys`. */
  function AfterDel(redis: map<Key, string>, keys: seq<Key>, reply: DelReply): (r: map<Key, string>)
    ensures forall k | k in redis && k !in keys :: k in r
    ensures forall k | k in r :: k in redis && r[k] == redis[k]
    ensures reply.Deleted? ==> forall k | k in keys :: k !in r
  {
    match reply
    case Deleted => redis - KeySet(keys)
    case DelError(gone) => redis - (gone * KeySet(keys))
  }

  /** Values go to Redis as text: `encode` never yields the placeholder or nothing. */
  ghost predicate IsCodec<V(!new)>(encode: V -> string, decode: string -> Option<V>) {
    forall v :: decode(encode(v)) == Some(v) && encode(v) != "" && encode(v) != PLACEHOLDER
  }

  ghost function Direct<V>(db: map<Key, V>, key: Key): (r: Answer<V>) {
    if key in db then Found(db[key]) else NotFound
  }

  /** What a reader of the cache alone would conclude, if anything. */
  ghost function CachedAnswer<V>(decode: string -> Option<V>, redis: map<Key, string>,
                                 key: Key): (r: Option<Answer<V>>) {
    if key !in redis || redis[key] == "" then None
    else if redis[key] == PLACEHOLDER then Some(NotFound)
    else if decode(redis[key]).Some? then Some(Found(decode(redis[key]).value))
    else None
  }

  /** The cache gives an answer, and it is not the database's. */
  ghost predicate Stale<V>(decode: string -> Option<V>, db: map<Key, V>, redis: map<Key, string>, key: Key) {
    var a := CachedAnswer(decode, redis, key);
    a.Some? && a.value != Direct(db, key)
  }

  /** The database after an exec: `None` stands for a row that was deleted. */
  function Apply<V>(db: map<Key, V>, change: map<Key, Option<V>>): (r: map<Key, V>)
    ensures forall k | k in change :: Direct(r, k) == if change[k].Some? then Found(change[k].value) else NotFound
    ensures forall k | k !in change :: Direct(r, k) == Direct(db, k)
  {
    map k | k in db.Keys + change.Keys && (k in change ==> change[k].Some?)
         :: if k in change then change[k].value else db[k]
  }

  // ---- who is answerable for a stale entry

  /** For each pending clean task, the keys whose entry has been there since the task was made. */
  type Standing = seq<set<Key>>

  ghost predicate Watched(standing: Standing, key: Key) {
    exists i :: 0 <= i < |standing| && key in standing[i]
  }

  /** Every stale entry was already there when a clean task for it was made that is still pending,
      or has outlived all five attempts of one. `abandoned` holds the latter, by key, with the task
      that was given up. */
  ghost predicate Coherent<V>(decode: string -> Option<V>, db: map<Key, V>, redis: map<Key, string>,
                              standing: Standing, abandoned: map<Key, CleanTask>)
  {
    forall key {:trigger Stale(decode, db, redis, key)} | Stale(decode, db, redis, key) ::
      Watched(standing, key) || key in abandoned
  }

  ghost predicate Submap(a: map<Key, string>, b: map<Key, string>) {
    forall k | k in a :: k in b && b[k] == a[k]
  }

  /** An entry that leaves Redis is forgotten. */
  ghost function Within(standing: Standing, keys: set<Key>): (r: Standing)
    ensures |r| == |standing|
  {
    seq(|standing|, i requires 0 <= i < |standing| => standing[i] * keys)
  }

  ghost function StillThere(abandoned: map<Key, CleanTask>, redis: map<Key, string>): (r: map<Key, CleanTask>) {
    map k | k in abandoned && k in redis :: abandoned[k]
  }

  /** And so is one that is replaced. */
  ghost function Without(standing: Standing, key: Key): (r: Standing)
    ensures |r| == |standing|
  {
    seq(|standing|, i requires 0 <= i < |standing| => standing[i] - {key})
  }

  ghost function Omit<T>(xs: seq<T>, i: nat): (r: seq<T>)
    requires i < |xs|
  {
    xs[..i] + xs[i + 1..]
  }

  /** The entries that a task leaves behind when it is given up. */
  ghost function GiveUp(abandoned: map<Key, CleanTask>, t: CleanTask, keys: set<Key>): (r: map<Key, CleanTask>) {
    abandoned + map k | k in keys :: t
  }

  lemma NothingGone(standing: Standing, abandoned: map<Key, CleanTask>, redis: map<Key, string>)
    requires forall i | 0 <= i < |standing| :: standing[i] <= redis.Keys
    requires forall k | k in abandoned :: k in redis
    ensures Within(standing, redis.Keys) == standing && StillThere(abandoned, redis) == abandoned
  {
    forall i | 0 <= i < |standing| ensures Within(standing, redis.Keys)[i] == standing[i] {
      assert standing[i] * redis.Keys == standing[i];
    }
  }

  lemma WatchedWithin(standing: Standing, keys: set<Key>, key: Key)
    requires Watched(standing, key) && key in keys
    ensures Watched(Within(standing, keys), key)
  {
    var i :| 0 <= i < |standing| && key in standing[i];
    assert key in Within(standing, keys)[i];
  }

  lemma WatchedMore(standing: Standing, more: Standing, key: Key)
    ensures Watched(standing, key) ==> Watched(standing + more, key)
  {
    if Watched(standing, key) {
      var i :| 0 <= i < |standing| && key in standing[i];
      assert key in (standing + more)[i];
    }
  }

  lemma WatchedElsewhere(standing: Standing, i: nat, key: Key)
    requires i < |standing| && Watched(standing, key)
    ensures key in standing[i] || Watched(Omit(standing, i), key)
  {
    var j :| 0 <= j < |standing| && key in standing[j];
    if j != i {
      assert key in Omit(standing, i)[if j < i then j else j - 1];
    }
  }

  /** What a deletion of `keys` leaves: each of them is gone, or its entry awaits a clean task. */
  ghost predicate Deletion(keys: seq<Key>, redis: map<Key, string>, standing: Standing,
                           redis': map<Key, string>, standing': Standing)
  {
    && Submap(redis', redis)
    && (forall k | k in redis && k !in keys :: k in redis')
    && (forall k | k in keys && k in redis' :: Watched(standing', k))
    && (forall k | Watched(standing, k) && k in redis' :: Watched(standing', k))
  }

  lemma OneDeletion(keys: seq<Key>, reply: DelReply, redis: map<Key, string>, standing: Standing,
                    redis': map<Key, string>, standing': Standing)
    requires redis' == AfterDel(redis, keys, reply)
    requires standing' == Within(standing, redis'.Keys) + if reply.Deleted? then [] else [KeySet(keys) * redis'.Keys]
    ensures Deletion(keys, redis, standing, redis', standing')
  {
    forall k | Watched(standing, k) && k in redis' ensures Watched(standing', k) {
      WatchedWithin(standing, redis'.Keys, k);
      WatchedMore(Within(standing, redis'.Keys), if reply.Deleted? then [] else [KeySet(keys) * redis'.Keys], k);
    }
    forall k | k in keys && k in redis' ensures Watched(standing', k) {
      assert k in standing'[|standing'| - 1];
    }
  }

  lemma DeletionsJoin(first: seq<Key>, second: seq<Key>, redis: map<Key, string>, standing: Standing,
                      redis': map<Key, string>, standing': Standing, redis'': map<Key, string>, standing'': Standing)
    requires Deletion(first, redis, standing, redis', standing')
    requires Deletion(second, redis', standing', redis'', standing'')
    ensures Deletion(first + second, redis, standing, redis'', standing'')
  {
  }

  ghost predicate NoErrors(reply: int -> DelReply) {
    forall i :: reply(i).Deleted?
  }

  /** Losing entries, by deletion or expiry, makes nothing stale. */
  lemma ShrinkKeeps<V>(decode: string -> Option<V>, db: map<Key, V>, redis: map<Key, string>,
                       standing: Standing, abandoned: map<Key, CleanTask>, redis': map<Key, string>)
    requires Coherent(decode, db, redis, standing, abandoned) && Submap(redis', redis)
    ensures Coherent(decode, db, redis', Within(standing, redis'.Keys), StillThere(abandoned, redis'))
  {
    forall k | Stale(decode, db, redis', k)
      ensures Watched(Within(standing, redis'.Keys), k) || k in StillThere(abandoned, redis')
    {
      assert Stale(decode, db, redis, k);
      if k !in abandoned {
        WatchedWithin(standing, redis'.Keys, k);
      }
    }
  }

  /** Caching what the database says makes nothing stale, and excuses nothing. */
  lemma FillKeeps<V>(decode: string -> Option<V>, db: map<Key, V>, redis: map<Key, string>,
                     standing: Standing, abandoned: map<Key, CleanTask>, key: Key, data: string)
    requires Coherent(decode, db, redis, standing, abandoned)
    requires CachedAnswer(decode, map[key := data], key) == Some(Direct(db, key))
    ensures Coherent(decode, db, redis[key := data], Without(standing, key), abandoned - {key})
  {
    var redis' := redis[key := data];
    forall k | Stale(decode, db, redis', k) ensures Watched(Without(standing, key), k) || k in abandoned - {key} {
      assert k != key;
      assert Stale(decode, db, redis, k);
      if k !in abandoned {
        var i :| 0 <= i < |standing| && k in standing[i];
        assert k in Without(standing, key)[i];
      }
    }
  }

  /** A change of the database is safe once each changed key is gone from the cache or its entry is
      watched. */
  lemma ChangeKeeps<V>(decode: string -> Option<V>, db: map<Key, V>, redis: map<Key, string>,
                       standing: Standing, abandoned: map<Key, CleanTask>,
                       change: map<Key, Option<V>>, redis': map<Key, string>, standing': Standing)
    requires Coherent(decode, db, redis, standing, abandoned) && Submap(redis', redis)
    requires forall k | Watched(standing, k) && k in redis' :: Watched(standing', k)
    requires forall k | k in change && k in redis' :: Watched(standing', k)
    ensures Coherent(decode, Apply(db, change), redis', standing', StillThere(abandoned, redis'))
  {
    forall k | Stale(decode, Apply(db, change), redis', k)
      ensures Watched(standing', k) || k in StillThere(abandoned, redis')
    {
      if k !in change {
        assert Stale(decode, db, redis, k);
      }
    }
  }

  /** The other tasks still watch what is left after one task has deleted its keys. */
  lemma CleanedKeeps<V>(decode: string -> Option<V>, db: map<Key, V>, redis: map<Key, string>,
                        standing: Standing, abandoned: map<Key, CleanTask>, i: nat, keys: set<Key>)
    requires Coherent(decode, db, redis, standing, abandoned) && i < |standing| && standing[i] <= keys
    ensures var redis' := redis - keys;
            Coherent(decode, db, redis', Omit(Within(standing, redis'.Keys), i), StillThere(abandoned, redis'))
  {
    var redis' := redis - keys;
    var left := Within(standing, redis'.Keys);
    ShrinkKeeps(decode, db, redis, standing, abandoned, redis');
    forall k | Stale(decode, db, redis', k) ensures Watched(Omit(left, i), k) || k in StillThere(abandoned, redis') {
      if Watched(left, k) {
        assert k !in left[i];
        WatchedElsewhere(left, i, k);
      }
    }
  }

  /** A task that failed and is tried again still watches its entries. */
  lemma RetriedKeeps<V>(decode: string -> Option<V>, db: map<Key, V>, redis: map<Key, string>,
                        standing: Standing, abandoned: map<Key, CleanTask>, i: nat)
    requires Coherent(decode, db, redis, standing, abandoned) && i < |standing|
    ensures Coherent(decode, db, redis, Omit(standing, i) + [standing[i]], abandoned)
  {
    var again := Omit(standing, i) + [standing[i]];
    forall k | Stale(decode, db, redis, k) ensures Watched(again, k) || k in abandoned {
      if Watched(standing, k) {
        WatchedElsewhere(standing, i, k);
        WatchedMore(Omit(standing, i), [standing[i]], k);
        assert again[|again| - 1] == standing[i];
      }
    }
  }

  /** A task that is given up excuses exactly the entries that were there at all its attempts. */
  lemma GivenUpKeeps<V>(decode: string -> Option<V>, db: map<Key, V>, redis: map<Key, string>,
                        standing: Standing, abandoned: map<Key, CleanTask>, i: nat, t: CleanTask)
    requires Coherent(decode, db, redis, standing, abandoned) && i < |standing|
    ensures Coherent(decode, db, redis, Omit(standing, i), GiveUp(abandoned, t, standing[i]))
  {
    forall k | Stale(decode, db, redis, k)
      ensures Watched(Omit(standing, i), k) || k in GiveUp(abandoned, t, standing[i])
    {
      if Watched(standing, k) {
        WatchedElsewhere(standing, i, k);
      }
    }
  }

  class CachedConn<V(==, !new)> {
    const encode: V -> string
    const decode: string -> Option<V>
    const cluster: bool
    var db: map<Key, V>
    var redis: map<Key, string>
    var pending: seq<CleanTask>

    /** For each pending task, the keys whose entry has been there since the task was made. */
    ghost var standing: Standing
    /** The entries that outlived the five attempts of a task, by key, with that task. */
    ghost var abandoned: map<Key, CleanTask>

    var total: nat
    var hits: nat
    var misses: nat
    var dbFails: nat

    ghost predicate Tied()
      reads this`redis, this`pending, this`standing
    {
      && |standing| == |pending|
      && forall i | 0 <= i < |pending| ::
           OnSchedule(pending[i]) && standing[i] <= KeySet(pending[i].keys) && standing[i] <= redis.Keys
    }

    ghost predicate Valid()
      reads this
    {
      && IsCodec(encode, decode) && Tied()
      && (forall k | k in abandoned :: k in redis && k in abandoned[k].keys && abandoned[k].tries == 5)
      && Coherent(decode, db, redis, standing, abandoned)
      && total == hits + misses
    }

    /** What the cache alone says about a key. */
    ghost function Cached(key: Key): (r: Option<Answer<V>>)
      reads this`redis
    {
      CachedAnswer(decode, redis, key)
    }

    ghost predicate IsStale(key: Key)
      reads this`db, this`redis
    {
      Stale(decode, db, redis, key)
    }

    constructor (encode: V -> string, decode: string -> Option<V>, cluster: bool, db: map<Key, V>)
      requires IsCodec(encode, decode)
      ensures Valid() && this.db == db && redis == map[] && pending == [] && abandoned == map[]
      ensures this.encode == encode && this.decode == decode && this.cluster == cluster
    {
      this.encode, this.decode, this.cluster, this.db := encode, decode, cluster, db;
      redis, pending, standing, abandoned := map[], [], [], map[];
      total, hits, misses, dbFails := 0, 0, 0, 0;
    }

    /** `doGetCache` with `processCache`: the error of a failing Redis, a miss, or an answer. Text
        that does not decode is deleted and counts as a hit, though the caller sees a miss. */
    method DoGetCache(key: Key, getFails: bool, reply: DelReply) returns (err: bool, r: Option<Answer<V>>)
      requires Valid()
      modifies this`redis, this`standing, this`abandoned, this`total, this`hits, this`misses
      ensures Valid() && err == getFails
      ensures !err ==> r == old(Cached(key))
      ensures redis == old(redis)
              || (!getFails && key in old(redis) && old(redis)[key] != "" && r == None && redis == old(redis) - {key})
      ensures reply.Deleted? && !getFails && r == None && key in redis ==> redis[key] == ""
      ensures standing == Within(old(standing), redis.Keys) && abandoned == StillThere(old(abandoned), redis)
      ensures total == old(total) + 1
      ensures hits == old(hits) + if !getFails && key in old(redis) && old(redis)[key] != "" then 1 else 0
    {
      NothingGone(standing, abandoned, redis);
      total := total + 1;
      if getFails {
        misses := misses + 1;
        return true, None;
      }
      var data := if key in redis then redis[key] else "";
      if |data| == 0 {
        misses := misses + 1;
        return false, None;
      }
      hits := hits + 1;
      if data == PLACEHOLDER {
        return false, Some(NotFound);
      }
      if decode(data).Some? {
        return false, Some(Found(decode(data).value));
      }
      DropEntry(key, reply);
      return false, None;
    }

    /** Redis without some of its entries, by deletion or expiry. */
    method Shrink(redis': map<Key, string>)
      requires Valid() && Submap(redis', redis)
      modifies this`redis, this`standing, this`abandoned
      ensures Valid() && redis == redis'
      ensures standing == Within(old(standing), redis.Keys) && abandoned == StillThere(old(abandoned), redis)
    {
      ShrinkKeeps(decode, db, redis, standing, abandoned, redis');
      redis := redis';
      standing := Within(standing, redis.Keys);
      abandoned := StillThere(abandoned, redis);
    }

    method DropEntry(key: Key, reply: DelReply)
      requires Valid() && key in redis
      modifies this`redis, this`standing, this`abandoned
      ensures Valid() && (redis == old(redis) || redis == old(redis) - {key})
      ensures reply.Deleted? ==> redis == old(redis) - {key}
      ensures standing == Within(old(standing), redis.Keys) && abandoned == StillThere(old(abandoned), redis)
    {
      assert AfterDel(redis, [key], reply) == redis || AfterDel(redis, [key], reply) == redis - {key};
      Shrink(AfterDel(redis, [key], reply));
    }

    /** `Setex` of what the database says; `SetnxEx` when `onlyNew`. */
    method Fill(key: Key, data: string, onlyNew: bool, reply: SetReply)
      requires Valid() && CachedAnswer(decode, map[key := data], key) == Some(Direct(db, key))
      modifies this`redis, this`standing, this`abandoned
      ensures Valid()
      ensures || (redis == old(redis) && standing == old(standing) && abandoned == old(abandoned))
              || (redis == old(redis)[key := data] && standing == Without(old(standing), key)
                  && abandoned == old(abandoned) - {key})
      ensures reply.Stored? && (onlyNew ==> key !in old(redis)) ==> redis == old(redis)[key := data]
    {
      if (reply.SetError? && !reply.applied) || (onlyNew && key in redis) {
        return;
      }
      FillKeeps(decode, db, redis, standing, abandoned, key, data);
      redis := redis[key := data];
      standing := Without(standing, key);
      abandoned := abandoned - {key};
    }

    /** The entry for `key` was already there when a clean task for it was made that is pending. */
    ghost predicate AwaitsCleaning(key: Key)
      reads this`standing
    {
      Watched(standing, key)
    }

    /** `QueryRowCtx` through `doTake`. The answer is the database's unless Redis or the database
        fails, or the entry is stale. A miss leaves the answer in the cache, except that an empty
        text keeps the placeholder out. */
    method QueryRow(key: Key, getFails: bool, delReply: DelReply, queryFails: bool, setReply: SetReply)
      returns (r: Answer<V>)
      requires Valid()
      modifies this`redis, this`standing, this`abandoned, this`total, this`hits, this`misses, this`dbFails
      ensures Valid()
      ensures r == (if getFails then Failed
                    else if old(Cached(key)).Some? then old(Cached(key)).value
                    else if queryFails then Failed
                    else Direct(db, key))
      ensures r == Direct(db, key) || (r == Failed && (getFails || queryFails))
              || (old(IsStale(key)) && redis == old(redis) && (AwaitsCleaning(key) || key in abandoned))
      ensures forall k | k in abandoned :: k in old(abandoned) && redis[k] == old(redis)[k]
      ensures redis - {key} == old(redis) - {key}
      ensures !getFails && !queryFails && delReply.Deleted? && setReply.Stored?
              && (key in db || (key in old(redis) ==> old(redis)[key] != ""))
              ==> Cached(key) == Some(r)
      ensures pending == [] && old(abandoned) == map[] && !getFails && !queryFails ==> r == Direct(db, key)
      ensures total == old(total) + 1
      ensures hits == old(hits) + if !getFails && key in old(redis) && old(redis)[key] != "" then 1 else 0
      ensures dbFails == old(dbFails) + if !getFails && old(Cached(key)).None? && queryFails then 1 else 0
    {
      assert IsStale(key) ==> AwaitsCleaning(key) || key in abandoned;
      var err, got := DoGetCache(key, getFails, delReply);
      if err {
        return Failed;
      }
      if got.Some? {
        assert IsStale(key) == old(IsStale(key)) && (IsStale(key) ==> AwaitsCleaning(key) || key in abandoned);
        return got.value;
      }
      r := Load(key, queryFails, setReply);
    }

    /** The part of `doTake` after a miss: ask the database and cache its answer. */
    method Load(key: Key, queryFails: bool, setReply: SetReply) returns (r: Answer<V>)
      requires Valid()
      modifies this`redis, this`standing, this`abandoned, this`dbFails
      ensures Valid() && r == if queryFails then Failed else Direct(db, key)
      ensures forall k | k in abandoned :: k in old(abandoned) && redis[k] == old(redis)[k]
      ensures redis - {key} == old(redis) - {key}
      ensures !queryFails && setReply.Stored? && (key in db || key !in old(redis)) ==> Cached(key) == Some(r)
      ensures dbFails == old(dbFails) + if queryFails then 1 else 0
    {
      if queryFails {
        dbFails := dbFails + 1;
        return Failed;
      }
      if key !in db {
        Fill(key, PLACEHOLDER, true, setReply);
        return NotFound;
      }
      Fill(key, encode(db[key]), false, setReply);
      return Found(db[key]);
    }

    /** One `Del` command on Redis and, if it reports an error, a clean task for the keys. */
    method DelOrRetry(keys: seq<Key>, reply: DelReply)
      requires Tied()
      modifies this`redis, this`pending, this`standing
      ensures Tied() && redis == AfterDel(old(redis), keys, reply)
      ensures pending == old(pending) + if reply.Deleted? then [] else [CleanTask(keys, SECOND, 0)]
      ensures Deletion(keys, old(redis), old(standing), redis, standing)
    {
      ghost var redis0, standing0 := redis, standing;
      redis := AfterDel(redis, keys, reply);
      standing := Within(standing, redis.Keys);
      if reply.DelError? {
        pending := pending + [CleanTask(keys, SECOND, 0)];
        standing := standing + [KeySet(keys) * redis.Keys];
      }
      OneDeletion(keys, reply, redis0, standing0, redis, standing);
    }

    /** `DelCtx`: on a cluster one command per key, otherwise one for all. */
    method Del(keys: seq<Key>, reply: int -> DelReply)
      requires Tied()
      modifies this`redis, this`pending, this`standing
      ensures Tied() && Deletion(keys, old(redis), old(standing), redis, standing)
      ensures NoErrors(reply) ==> pending == old(pending) && redis == old(redis) - KeySet(keys)
    {
      if |keys| == 0 {
        return;
      }
      if |keys| > 1 && cluster {
        DelEach(keys, reply);
      } else {
        DelOrRetry(keys, reply(0));
      }
    }

    method DelEach(keys: seq<Key>, reply: int -> DelReply)
      requires Tied()
      modifies this`redis, this`pending, this`standing
      ensures Tied() && Deletion(keys, old(redis), old(standing), redis, standing)
      ensures NoErrors(reply) ==> pending == old(pending) && redis == old(redis) - KeySet(keys)
    {
      var i := 0;
      while i < |keys|
        invariant 0 <= i <= |keys| && Tied()
        invariant Deletion(keys[..i], old(redis), old(standing), redis, standing)
        invariant NoErrors(reply) ==> pending == old(pending) && redis == old(redis) - KeySet(keys[..i])
      {
        ghost var redis1, standing1 := redis, standing;
        DelOrRetry([keys[i]], reply(i));
        DeletionsJoin(keys[..i], [keys[i]], old(redis), old(standing), redis1, standing1, redis, standing);
        assert keys[..i + 1] == keys[..i] + [keys[i]];
        i := i + 1;
      }
      assert keys[..i] == keys;
    }

    /** `ExecCtx`, for an exec that changes only rows cached under the keys it names. A failing
        deletion is not reported to the caller. */
    method Exec(change: map<Key, Option<V>>, keys: seq<Key>, execFails: bool, reply: int -> DelReply) returns (ok: bool)
      requires Valid() && forall k | k in change :: k in keys
      modifies this`db, this`redis, this`pending, this`standing, this`abandoned
      ensures Valid() && ok == !execFails
      ensures execFails ==> unchanged(this)
      ensures abandoned == StillThere(old(abandoned), redis)
      ensures !execFails ==>
                && db == Apply(old(db), change)
                && (forall k | k in keys && k in redis :: AwaitsCleaning(k))
                && (NoErrors(reply) ==> pending == old(pending))
    {
      NothingGone(standing, abandoned, redis);
      if execFails {
        return false;
      }
      ghost var db0, redis0, standing0 := db, redis, standing;
      db := Apply(db, change);
      Del(keys, reply);
      ChangeKeeps(decode, db0, redis0, standing0, abandoned, change, redis, standing);
      abandoned := StillThere(abandoned, redis);
      return true;
    }

    /** `clean`: a due task tries again. It is done, or waits for its next turn, or after its
        fifth failure is given up; then it leaves behind the entries that were there all along. */
    method Clean(i: nat, reply: DelReply)
      requires Valid() && i < |pending|
      modifies this`redis, this`pending, this`standing, this`abandoned
      ensures Valid()
      ensures redis == AfterDel(old(redis), old(pending)[i].keys, reply)
      ensures var t, left := old(pending)[i], Within(old(standing), redis.Keys);
              if reply.Deleted? then
                && pending == Omit(old(pending), i) && standing == Omit(left, i)
                && abandoned == StillThere(old(abandoned), redis)
              else if t.tries < 4 then
                && pending == Omit(old(pending), i) + [CleanTask(t.keys, SCHEDULE[t.tries + 1], t.tries + 1)]
                && standing == Omit(left, i) + [left[i]]
                && abandoned == StillThere(old(abandoned), redis)
              else
                && pending == Omit(old(pending), i) && standing == Omit(left, i)
                && abandoned == GiveUp(StillThere(old(abandoned), redis), CleanTask(t.keys, HOUR, 5), left[i])
    {
      var t := pending[i];
      if reply.Deleted? {
        CleanSucceeds(i);
        return;
      }
      Shrink(AfterDel(redis, t.keys, reply));
      ScheduleHasFive(t.tries);
      var next := NextDelay(t.delay);
      if next.Some? {
        CleanAgain(i, next.value);
      } else {
        CleanGivesUp(i);
      }
    }

    method CleanAgain(i: nat, next: int)
      requires Valid() && i < |pending| && pending[i].tries < 4 && next == SCHEDULE[pending[i].tries + 1]
      modifies this`pending, this`standing
      ensures Valid() && standing == Omit(old(standing), i) + [old(standing)[i]]
      ensures var t := old(pending)[i];
              pending == Omit(old(pending), i) + [CleanTask(t.keys, next, t.tries + 1)]
    {
      var t := pending[i];
      RetriedKeeps(decode, db, redis, standing, abandoned, i);
      pending := pending[..i] + pending[i + 1..] + [CleanTask(t.keys, next, t.tries + 1)];
      standing := Omit(standing, i) + [standing[i]];
    }

    method CleanGivesUp(i: nat)
      requires Valid() && i < |pending| && pending[i].tries == 4
      modifies this`pending, this`standing, this`abandoned
      ensures Valid() && pending == Omit(old(pending), i) && standing == Omit(old(standing), i)
      ensures abandoned == GiveUp(old(abandoned), CleanTask(old(pending)[i].keys, HOUR, 5), old(standing)[i])
    {
      ghost var last := CleanTask(pending[i].keys, HOUR, 5);
      GivenUpKeeps(decode, db, redis, standing, abandoned, i, last);
      abandoned := GiveUp(abandoned, last, standing[i]);
      pending := pending[..i] + pending[i + 1..];
      standing := Omit(standing, i);
    }

    method CleanSucceeds(i: nat)
      requires Valid() && i < |pending|
      modifies this`redis, this`pending, this`standing, this`abandoned
      ensures Valid() && redis == old(redis) - KeySet(old(pending)[i].keys)
      ensures pending == Omit(old(pending), i) && standing == Omit(Within(old(standing), redis.Keys), i)
      ensures abandoned == StillThere(old(abandoned), redis)
    {
      CleanedKeeps(decode, db, redis, standing, abandoned, i, KeySet(pending[i].keys));
      redis := redis - KeySet(pending[i].keys);
      pending := pending[..i] + pending[i + 1..];
      standing := Omit(Within(standing, redis.Keys), i);
      abandoned := StillThere(abandoned, redis);
    }

    /** Redis drops entries when their time is up. */
    method Expire(keys: set<Key>)
      requires Valid()
      modifies this`redis, this`standing, this`abandoned
      ensures Valid() && redis == old(redis) - keys
      ensures standing == Within(old(standing), redis.Keys) && abandoned == StillThere(old(abandoned), redis)
    {
      Shrink(redis - keys);
    }
  }
}
