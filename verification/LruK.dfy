/**
 * LruKCache: a key is only cached once it has been put K times. Until then
 * a history record keeps the timestamps of its most recent accesses (at most
 * K of them) and no value; the put that brings the window to K promotes the
 * key, with that put's value and the window, into the cache proper.
 *
 * The wall clock is replaced by a logical clock: `clock` is the timestamp the
 * next recorded access receives, and every recorded access advances it by one.
 *
 * The abstract state is `Contents()`, the values of the promoted keys. The
 * history is bookkeeping: `size`, `empty` and `contains` ignore it.
 */
module LruK {
  import opened CachePolicy

  /** A reading of the clock. */
  type Time = int

  /** TimeStamp::min(): earlier than every reading of the clock. */
  const TimeMin: Time := -1

  /** The K of LruKCache(capacity) when none is given. */
  const DefaultK: int := 2

  /** A key with fewer than K recorded accesses: no value, only the access times, oldest first. */
  datatype HistoryRecord<K> = HistoryRecord(key: K, accessTimes: seq<Time>)

  /** A promoted key: its value and the times of its last (at most K) accesses, oldest first. */
  datatype CacheRecord<K, V> = CacheRecord(key: K, value: V, accessTimes: seq<Time>)

  /**
   * The access times after one more access at `now`: it is appended, and
   * when that makes more than `k` the oldest is dropped.
   */
  function Window(times: seq<Time>, now: Time, k: int): seq<Time>
  {
    var t := times + [now];
    if |t| > k then t[1..] else t
  }

  /** Strictly increasing times, all before `clock`. */
  ghost predicate Recent(times: seq<Time>, clock: Time)
  {
    && (forall i, j :: 0 <= i < j < |times| ==> times[i] < times[j])
    && (forall i :: 0 <= i < |times| ==> 0 <= times[i] < clock)
  }

  /**
   * A window of at most `k` times stays one: it keeps the most recent
   * min(count + 1, k) accesses, ends with `now`, and stays increasing.
   */
  lemma WindowKeepsRecent(times: seq<Time>, now: Time, k: int)
    requires 0 < k && 0 <= now && |times| <= k && Recent(times, now)
    ensures var w := Window(times, now, k);
      && |w| == (if |times| < k then |times| + 1 else k)
      && w[|w| - 1] == now
      && Recent(w, now + 1)
      && w == (times + [now])[|times| + 1 - |w|..]
  {
    var t := times + [now];
    var w := Window(times, now, k);
    assert Recent(t, now + 1) by {
      forall i, j | 0 <= i < j < |t| ensures t[i] < t[j] {
        if j == |t| - 1 { assert t[i] == times[i]; }
      }
    }
    if |t| > k {
      assert w == t[1..];
    }
  }

  /** getCacheKthAccessTime: back() of the window, TimeMin for an empty one; the newest access, not the K-th oldest. */
  function CacheKthAccessTime<K, V>(record: CacheRecord<K, V>): (t: Time)
    ensures record.accessTimes == [] ==> t == TimeMin
    ensures record.accessTimes != [] ==> t in record.accessTimes
    ensures record.accessTimes != [] ==> t == record.accessTimes[|record.accessTimes| - 1]
  {
    if record.accessTimes == [] then TimeMin else record.accessTimes[|record.accessTimes| - 1]
  }

  /**
   * On an increasing window the value compared is the newest access, no
   * earlier than any other; on a full window of K >= 2 times it is strictly
   * later than the K-th most recent access (the oldest, front()).
   */
  lemma ComparedTimeIsNewest<K, V>(record: CacheRecord<K, V>, k: int)
    requires 0 < k && 0 < |record.accessTimes| <= k
    requires forall i, j :: 0 <= i < j < |record.accessTimes| ==> record.accessTimes[i] < record.accessTimes[j]
    ensures forall i :: 0 <= i < |record.accessTimes| ==> record.accessTimes[i] <= CacheKthAccessTime(record)
    ensures 2 <= k && |record.accessTimes| == k ==> CacheKthAccessTime(record) > record.accessTimes[0]
  {
    var n := |record.accessTimes|;
    assert CacheKthAccessTime(record) == record.accessTimes[n - 1];
  }

  /** Every history record has at least K accesses: none is a candidate victim. */
  ghost predicate NoHistoryCandidate<K>(history: map<K, HistoryRecord<K>>, k: int)
  {
    forall c :: c in history ==> |history[c].accessTimes| >= k
  }

  /** A history record with fewer than K accesses whose first access is the earliest among such records. */
  ghost predicate IsHistoryVictim<K>(history: map<K, HistoryRecord<K>>, k: int, v: K)
  {
    && v in history && 0 < |history[v].accessTimes| < k
    && (forall c :: c in history && 0 < |history[c].accessTimes| < k ==> history[v].accessTimes[0] <= history[c].accessTimes[0])
  }

  /** A promoted key whose newest access is the earliest. */
  ghost predicate IsCacheVictim<K, V>(cache: map<K, CacheRecord<K, V>>, v: K)
  {
    v in cache && forall c :: c in cache ==> CacheKthAccessTime(cache[v]) <= CacheKthAccessTime(cache[c])
  }

  /** The eviction rule: a history victim if there is a candidate, otherwise a cache victim. */
  ghost predicate IsVictim<K, V>(history: map<K, HistoryRecord<K>>, cache: map<K, CacheRecord<K, V>>, k: int, v: K)
  {
    if NoHistoryCandidate(history, k) then IsCacheVictim(cache, v) else IsHistoryVictim(history, k, v)
  }

  /** Between 1 and K increasing times, all before `clock`. */
  ghost predicate WindowOk(times: seq<Time>, k: int, clock: Time)
  {
    0 < |times| <= k && Recent(times, clock)
  }

  /** Every history record is filed under its own key and has fewer than K accesses. */
  ghost predicate HistoryOk<K>(history: map<K, HistoryRecord<K>>, k: int, clock: Time)
  {
    forall c :: c in history ==> history[c].key == c && |history[c].accessTimes| < k && WindowOk(history[c].accessTimes, k, clock)
  }

  /** Every cache record is filed under its own key. */
  ghost predicate CacheOk<K, V>(cache: map<K, CacheRecord<K, V>>, k: int, clock: Time)
  {
    forall c :: c in cache ==> cache[c].key == c && WindowOk(cache[c].accessTimes, k, clock)
  }

  /** No key is both in the history and promoted. */
  ghost predicate Disjoint<K, V>(history: map<K, HistoryRecord<K>>, cache: map<K, CacheRecord<K, V>>)
  {
    forall c :: c in history ==> c !in cache
  }

  /** Sliding a well formed window at the current clock reading gives a well formed window for the next reading. */
  lemma WindowOkStep(times: seq<Time>, now: Time, k: int)
    requires WindowOk(times, k, now) && 0 <= now
    ensures WindowOk(Window(times, now, k), k, now + 1)
  {
    WindowKeepsRecent(times, now, k);
  }

  /** Filing a well formed record under its own key keeps the cache well formed. */
  lemma CacheOkStore<K, V>(cache: map<K, CacheRecord<K, V>>, k: int, clock: Time, key: K, rec: CacheRecord<K, V>)
    requires CacheOk(cache, k, clock) && rec.key == key && WindowOk(rec.accessTimes, k, clock)
    ensures CacheOk(cache[key := rec], k, clock)
  {
  }

  /** Dropping records keeps both maps well formed and disjoint. */
  lemma RecordsRemove<K, V>(history: map<K, HistoryRecord<K>>, cache: map<K, CacheRecord<K, V>>, k: int, clock: Time, x: K)
    requires HistoryOk(history, k, clock) && CacheOk(cache, k, clock) && Disjoint(history, cache)
    ensures HistoryOk(history - {x}, k, clock) && CacheOk(cache - {x}, k, clock)
    ensures Disjoint(history - {x}, cache) && Disjoint(history, cache - {x})
  {
  }

  /** The records stay well formed as the clock advances. */
  lemma RecordsLater<K, V>(history: map<K, HistoryRecord<K>>, cache: map<K, CacheRecord<K, V>>, k: int, clock: Time, later: Time)
    requires HistoryOk(history, k, clock) && CacheOk(cache, k, clock) && clock <= later
    ensures HistoryOk(history, k, later) && CacheOk(cache, k, later)
  {
    forall c | c in history ensures Recent(history[c].accessTimes, later) {
      RecentLater(history[c].accessTimes, clock, later);
    }
    forall c | c in cache ensures Recent(cache[c].accessTimes, later) {
      RecentLater(cache[c].accessTimes, clock, later);
    }
  }

  /**
   * recordHistoryAccess on the records: the window of `key` gains `now` and
   * the clock moves past it; every other record stays well formed, and the
   * window of `key` is well formed, below K unless the key is due for promotion.
   */
  lemma RecordKeepsRecords<K, V>(history: map<K, HistoryRecord<K>>, cache: map<K, CacheRecord<K, V>>, k: int, now: Time, key: K)
    requires 0 < k && 0 <= now && key !in cache
    requires HistoryOk(history, k, now) && CacheOk(cache, k, now) && Disjoint(history, cache)
    ensures var w := HistoryWindow(history, key, now, k);
      var h := history[key := HistoryRecord(key, w)];
      && 0 < |w| <= k && w[|w| - 1] == now
      && (key in history ==> |w| == |history[key].accessTimes| + 1)
      && WindowOk(w, k, now + 1)
      && HistoryOk(h - {key}, k, now + 1) && CacheOk(cache, k, now + 1) && Disjoint(h, cache)
      && (|w| < k ==> HistoryOk(h, k, now + 1))
  {
    RecordsLater(history, cache, k, now, now + 1);
    if key in history {
      WindowKeepsRecent(history[key].accessTimes, now, k);
    }
    var h := history[key := HistoryRecord(key, HistoryWindow(history, key, now, k))];
    assert h - {key} == history - {key};
  }

  /** The access times of `key` after recordHistoryAccess at `now`. */
  function HistoryWindow<K>(history: map<K, HistoryRecord<K>>, key: K, now: Time, k: int): seq<Time>
  {
    if key in history then Window(history[key].accessTimes, now, k) else [now]
  }

  /** The values of the promoted keys. */
  ghost function Values<K, V>(cache: map<K, CacheRecord<K, V>>): (m: map<K, V>)
    ensures m.Keys == cache.Keys
  {
    map key | key in cache :: cache[key].value
  }

  /** Storing a record stores its value. */
  lemma ValuesStore<K, V>(cache: map<K, CacheRecord<K, V>>, key: K, rec: CacheRecord<K, V>)
    ensures Values(cache[key := rec]) == Values(cache)[key := rec.value]
  {
  }

  /** Removing a record removes its value. */
  lemma ValuesRemove<K, V>(cache: map<K, CacheRecord<K, V>>, v: K)
    ensures Values(cache - {v}) == Values(cache) - {v}
  {
  }

  /** Times before one clock reading are before every later reading. */
  lemma RecentLater(times: seq<Time>, clock: Time, later: Time)
    requires Recent(times, clock) && clock <= later
    ensures Recent(times, later)
  {
  }

  class LruKCache<K(==), V> {
    /** capacity_ and k_: fixed at construction. */
    const capacity: int
    const k: int
    /** history_: keys seen fewer than K times. */
    var history: map<K, HistoryRecord<K>>
    /** cache_: promoted keys. */
    var cache: map<K, CacheRecord<K, V>>
    /** The logical clock standing for steady_clock::now(). */
    var clock: Time

    /** What the cache answers for: the promoted keys and their values. */
    ghost function Contents(): map<K, V>
      reads this
    {
      Values(cache)
    }

    /** The records are well formed and no key is both in the history and promoted. */
    ghost predicate Valid()
      reads this
    {
      && capacity > 0 && k > 0 && clock >= 0
      && HistoryOk(history, k, clock) && CacheOk(cache, k, clock) && Disjoint(history, cache)
    }

    /** Construction: capacity <= 0 throws InvalidCapacityException, then k <= 0 throws invalid_argument. */
    static method Create(capacity: int, k: int) returns (r: Result<LruKCache<K, V>>)
      ensures r.Err? <==> capacity <= 0 || k <= 0
      ensures capacity <= 0 ==> r == Err(InvalidCapacity(capacity))
      ensures 0 < capacity && k <= 0 ==> r == Err(InvalidK(k))
      ensures r.Ok? ==> fresh(r.value) && r.value.Valid() && r.value.capacity == capacity && r.value.k == k
      ensures r.Ok? ==> r.value.Contents() == map[] && r.value.history == map[]
    {
      match CheckCapacity(capacity)
      case Some(e) =>
        r := Err(e);
      case None =>
        if k <= 0 {
          r := Err(InvalidK(k));
        } else {
          var c := new LruKCache(capacity, k);
          r := Ok(c);
        }
    }

    /** LruKCache(capacity): K takes its default value, so only the capacity can be rejected. */
    static method CreateDefault(capacity: int) returns (r: Result<LruKCache<K, V>>)
      ensures r.Err? <==> capacity <= 0
      ensures r.Err? ==> r.error == InvalidCapacity(capacity)
      ensures r.Ok? ==> fresh(r.value) && r.value.Valid() && r.value.capacity == capacity && r.value.k == DefaultK
      ensures r.Ok? ==> r.value.Contents() == map[] && r.value.history == map[]
    {
      r := Create(capacity, DefaultK);
    }

    constructor (capacity: int, k: int)
      requires capacity > 0 && k > 0
      ensures Valid() && this.capacity == capacity && this.k == k
      ensures history == map[] && cache == map[] && Contents() == map[]
    {
      this.capacity := capacity;
      this.k := k;
      history := map[];
      cache := map[];
      clock := 0;
    }

    /**
     * The state between recording the K-th access of `key` and promoting it:
     * valid, except that the history window of `key` has reached K.
     */
    ghost predicate PromotionDue(key: K)
      reads this
    {
      && capacity > 0 && k > 0 && clock >= 0
      && key in history && key !in cache
      && history[key].key == key && |history[key].accessTimes| == k && WindowOk(history[key].accessTimes, k, clock)
      && HistoryOk(history - {key}, k, clock) && CacheOk(cache, k, clock) && Disjoint(history, cache)
    }

    /** recordHistoryAccess: a first access starts a window, a later one slides it. */
    method RecordHistoryAccess(key: K)
      requires Valid() && key !in cache
      modifies this`history, this`clock
      ensures clock == old(clock) + 1
      ensures history == old(history)[key := HistoryRecord(key, HistoryWindow(old(history), key, old(clock), k))]
      ensures var w := HistoryWindow(old(history), key, old(clock), k);
        && 0 < |w| <= k && w[|w| - 1] == old(clock)
        && (key in old(history) ==> |w| == |old(history)[key].accessTimes| + 1)
        && (|w| < k ==> Valid())
        && (|w| >= k ==> PromotionDue(key))
    {
      var now := clock;
      RecordKeepsRecords(history, cache, k, now, key);
      if key !in history {
        history := history[key := HistoryRecord(key, [now])];
      } else {
        history := history[key := HistoryRecord(key, Window(history[key].accessTimes, now, k))];
      }
      clock := clock + 1;
    }

    /** recordCacheAccess: slides the window of a promoted key. */
    method RecordCacheAccess(key: K)
      requires Valid() && key in cache
      modifies this`cache, this`clock
      ensures Valid() && clock == old(clock) + 1
      ensures cache == old(cache)[key := old(cache)[key].(accessTimes := Window(old(cache)[key].accessTimes, old(clock), k))]
    {
      var now := clock;
      RecordsLater(history, cache, k, now, now + 1);
      WindowOkStep(cache[key].accessTimes, now, k);
      var rec := cache[key].(accessTimes := Window(cache[key].accessTimes, now, k));
      CacheOkStore(cache, k, now + 1, key, rec);
      cache := cache[key := rec];
      clock := clock + 1;
    }

    /** promoteToCache: moves the history of `key` into a new cache record with `value`; a key with no history is a bookkeeping error. */
    method PromoteToCache(key: K, value: V) returns (err: Option<CacheError>)
      modifies this`history, this`cache
      ensures err.Some? <==> key !in old(history)
      ensures err.Some? ==> err.value == InternalError("Key not found in history when promoting to cache")
      ensures err.Some? ==> history == old(history) && cache == old(cache)
      ensures err.None? ==> history == old(history) - {key}
      ensures err.None? ==> cache == old(cache)[key := CacheRecord(key, value, old(history)[key].accessTimes)]
    {
      if key !in history {
        return Some(InternalError("Key not found in history when promoting to cache"));
      }
      cache := cache[key := CacheRecord(key, value, history[key].accessTimes)];
      history := history - {key};
      err := None;
    }

    /**
     * findVictimKey: among the history records with fewer than K accesses,
     * one with the earliest first access; when there is none, a promoted key
     * with the earliest newest access; with neither, a bookkeeping error.
     * Ties go to whichever key the iteration meets first, left open here.
     */
    method FindVictimKey() returns (r: Result<K>)
      requires forall c :: c in history ==> history[c].accessTimes != []
      ensures r.Err? <==> NoHistoryCandidate(history, k) && cache == map[]
      ensures r.Err? ==> r.error == InternalError("Cannot find victim: both history and cache are empty or no suitable candidate found")
      ensures r.Ok? ==> IsVictim(history, cache, k, r.value)
    {
      var victim := FindHistoryVictim();
      if victim.Some? {
        return Ok(victim.value);
      }
      if cache == map[] {
        return Err(InternalError("Cannot find victim: both history and cache are empty or no suitable candidate found"));
      }
      var cacheVictim := FindCacheVictim();
      r := Ok(cacheVictim);
    }

    /** The first loop of findVictimKey: the candidate history record with the earliest first access, if any. */
    method FindHistoryVictim() returns (victim: Option<K>)
      requires forall c :: c in history ==> history[c].accessTimes != []
      ensures victim.None? <==> NoHistoryCandidate(history, k)
      ensures victim.Some? ==> IsHistoryVictim(history, k, victim.value)
    {
      victim := None;
      var earliest: Time := 0;
      var remaining := history.Keys;
      while remaining != {}
        invariant remaining <= history.Keys
        invariant victim.None? ==> forall c :: c in history && c !in remaining ==> |history[c].accessTimes| >= k
        invariant victim.Some? ==> victim.value in history && 0 < |history[victim.value].accessTimes| < k
        invariant victim.Some? ==> earliest == history[victim.value].accessTimes[0]
        invariant victim.Some? ==> forall c :: c in history && c !in remaining && |history[c].accessTimes| < k ==> earliest <= history[c].accessTimes[0]
        decreases remaining
      {
        var key :| key in remaining;
        if |history[key].accessTimes| < k {
          var first := history[key].accessTimes[0];
          if victim.None? || first < earliest {
            earliest := first;
            victim := Some(key);
          }
        }
        remaining := remaining - {key};
      }
    }

    /** The second loop of findVictimKey: a promoted key whose newest access is the earliest. */
    method FindCacheVictim() returns (victim: K)
      requires cache != map[]
      ensures IsCacheVictim(cache, victim)
    {
      victim :| victim in cache;
      var best: Option<Time> := None;
      var remaining := cache.Keys;
      while remaining != {}
        invariant remaining <= cache.Keys
        invariant best.None? <==> remaining == cache.Keys
        invariant best.Some? ==> victim in cache && best.value == CacheKthAccessTime(cache[victim])
        invariant best.Some? ==> forall c :: c in cache && c !in remaining ==> best.value <= CacheKthAccessTime(cache[c])
        decreases remaining
      {
        var key :| key in remaining;
        var kth := CacheKthAccessTime(cache[key]);
        if best.None? || kth < best.value {
          best := Some(kth);
          victim := key;
        }
        remaining := remaining - {key};
      }
    }

    /** get: a promoted key's value, recording the access; KeyNotFound for any other key, history untouched. */
    method Get(key: K) returns (r: Result<V>)
      requires Valid()
      modifies this`cache, this`clock
      ensures Valid() && history == old(history)
      ensures GetSpec(old(Contents()), Contents(), key, r)
      ensures r.Err? ==> r.error == KeyNotFound("LRU-K") && cache == old(cache) && clock == old(clock)
      ensures r.Ok? ==> cache == old(cache)[key := old(cache)[key].(accessTimes := Window(old(cache)[key].accessTimes, old(clock), k))]
    {
      if key !in cache {
        return Err(KeyNotFound("LRU-K"));
      }
      RecordCacheAccess(key);
      r := Ok(cache[key].value);
      assert Contents() == old(Contents());
    }

    /**
     * put: a promoted key gets the value and an access. Any other key has its
     * access recorded in the history; the put that brings its window to K
     * promotes it with this value, first evicting a victim when the cache
     * holds `capacity` keys. A history victim leaves only the history, so
     * the cache then grows past its capacity.
     */
    method Put(key: K, value: V) returns (ghost evicted: Option<K>)
      requires Valid()
      modifies this`history, this`cache, this`clock
      ensures Valid() && clock == old(clock) + 1
      ensures key in old(cache) ==>
        && evicted.None? && history == old(history)
        && cache == old(cache)[key := CacheRecord(key, value, Window(old(cache)[key].accessTimes, old(clock), k))]
        && Contents() == old(Contents())[key := value]
      ensures var w := HistoryWindow(old(history), key, old(clock), k);
        key !in old(cache) && |w| < k ==>
          && evicted.None? && history == old(history)[key := HistoryRecord(key, w)] && cache == old(cache)
          && Contents() == old(Contents())
      ensures var w := HistoryWindow(old(history), key, old(clock), k);
        key !in old(cache) && |w| >= k ==>
          && (evicted.Some? <==> |old(cache)| >= capacity)
          && (evicted.Some? ==> IsVictim(old(history)[key := HistoryRecord(key, w)], old(cache), k, evicted.value))
          && (evicted.Some? && evicted.value in old(cache) ==>
                && history == old(history) - {key} && cache == (old(cache) - {evicted.value})[key := CacheRecord(key, value, w)]
                && Contents() == (old(Contents()) - {evicted.value})[key := value])
          && (evicted.Some? && evicted.value !in old(cache) ==>
                && history == old(history) - {key} - {evicted.value} && cache == old(cache)[key := CacheRecord(key, value, w)]
                && Contents() == old(Contents())[key := value])
          && (evicted.None? ==>
                && history == old(history) - {key} && cache == old(cache)[key := CacheRecord(key, value, w)]
                && Contents() == old(Contents())[key := value])
    {
      evicted := None;
      if key in cache {
        PutCached(key, value);
        return;
      }
      RecordHistoryAccess(key);
      if key in history && |history[key].accessTimes| >= k {
        ghost var recorded := history;
        assert recorded - {key} == old(history) - {key};
        evicted := PutPromote(key, value);
        ghost var rec := CacheRecord(key, value, recorded[key].accessTimes);
        if evicted.Some? && evicted.value in old(cache) {
          ValuesRemove(old(cache), evicted.value);
          ValuesStore(old(cache) - {evicted.value}, key, rec);
        } else {
          ValuesStore(old(cache), key, rec);
        }
      }
    }

    /** put of a promoted key: cache_it->second->value = value; recordCacheAccess. */
    method PutCached(key: K, value: V)
      requires Valid() && key in cache
      modifies this`cache, this`clock
      ensures Valid() && clock == old(clock) + 1
      ensures cache == old(cache)[key := CacheRecord(key, value, Window(old(cache)[key].accessTimes, old(clock), k))]
      ensures Contents() == old(Contents())[key := value]
    {
      cache := cache[key := cache[key].(value := value)];
      RecordCacheAccess(key);
      ValuesStore(old(cache), key, cache[key]);
    }

    /**
     * The promoting branch of put: when the cache holds `capacity` keys,
     * findVictimKey's choice is erased from the cache if it is promoted and
     * from the history otherwise; then promoteToCache.
     */
    method PutPromote(key: K, value: V) returns (victim: Option<K>)
      requires PromotionDue(key)
      modifies this`history, this`cache
      ensures Valid()
      ensures victim.Some? <==> |old(cache)| >= capacity
      ensures victim.Some? ==> IsVictim(old(history), old(cache), k, victim.value) && victim.value != key
      ensures var rec := CacheRecord(key, value, old(history)[key].accessTimes);
        && (victim.Some? && victim.value in old(cache) ==> history == old(history) - {key} && cache == (old(cache) - {victim.value})[key := rec])
        && (victim.Some? && victim.value !in old(cache) ==> history == old(history) - {key} - {victim.value} && cache == old(cache)[key := rec])
        && (victim.None? ==> history == old(history) - {key} && cache == old(cache)[key := rec])
    {
      ghost var rest := history - {key};
      ghost var rec := CacheRecord(key, value, history[key].accessTimes);
      assert Disjoint(rest, cache);
      victim := None;
      if |cache| >= capacity {
        assert forall c :: c in history ==> history[c].accessTimes != [] by {
          forall c | c in history ensures history[c].accessTimes != [] {
            if c != key { assert c in rest; }
          }
        }
        var r := FindVictimKey();
        assert r.Ok?;
        victim := Some(r.value);
        RecordsRemove(rest, cache, k, clock, r.value);
        if r.value in cache {
          cache := cache - {r.value};
        } else {
          assert r.value != key;
          history := history - {r.value};
          assert history - {key} == rest - {r.value};
        }
      }
      ghost var remaining, kept := history - {key}, cache;
      assert HistoryOk(remaining, k, clock) && CacheOk(kept, k, clock) && Disjoint(remaining, kept);
      CacheOkStore(kept, k, clock, key, rec);
      var err := PromoteToCache(key, value);
      assert err.None? && history == remaining && cache == kept[key := rec];
    }

    /** contains: only promoted keys count. */
    function Contains(key: K): (b: bool)
      reads this
      ensures b <==> key in Contents()
    {
      key in cache
    }

    /** size: the number of promoted keys; history-only keys do not count, and it may exceed the capacity. */
    function Size(): (n: int)
      reads this
      ensures n == |Contents()|
    {
      assert Contents().Keys == cache.Keys;
      |cache|
    }

    /** capacity: positive, fixed at construction. */
    function Capacity(): (n: int)
      reads this
      requires Valid()
      ensures n > 0 && n == capacity
    {
      capacity
    }

    /** empty: no key is promoted, whatever the history holds. */
    function Empty(): (b: bool)
      reads this
      ensures b <==> Contents() == map[]
    {
      assert Contents().Keys == cache.Keys;
      cache == map[]
    }

    /** getK: positive, fixed at construction. */
    function GetK(): (n: int)
      reads this
      requires Valid()
      ensures n > 0 && n == k
    {
      k
    }

    /** clear: both the cache and the history are emptied. */
    method Clear()
      requires Valid()
      modifies this`history, this`cache
      ensures Valid() && history == map[] && cache == map[] && Contents() == map[]
    {
      history := map[];
      cache := map[];
    }

    /** getPolicyName: "LRU-" followed by K in decimal, from which K can be read back. */
    function PolicyName(): (name: string)
      reads this
      ensures |name| > 4 && name[..4] == "LRU-" && ParseInt(name[4..]) == Some(k)
    {
      IntToStringRoundTrip(k);
      var name := "LRU-" + IntToString(k);
      assert name[4..] == IntToString(k);
      name
    }

    /** getHistoryAccessCount: the length of the key's history window, 0 without one; always below K. */
    function HistoryAccessCount(key: K): (n: int)
      reads this
      requires Valid()
      ensures 0 <= n < k && (n > 0 <==> key in history)
      ensures key in history ==> n == |history[key].accessTimes|
    {
      if key in history then |history[key].accessTimes| else 0
    }

    /** getCacheAccessCount: the length of a promoted key's window, 0 for any other key; at most K. */
    function CacheAccessCount(key: K): (n: int)
      reads this
      requires Valid()
      ensures 0 <= n <= k && (n > 0 <==> key in Contents())
      ensures key in cache ==> n == |cache[key].accessTimes|
    {
      if key in cache then |cache[key].accessTimes| else 0
    }
  }
}
