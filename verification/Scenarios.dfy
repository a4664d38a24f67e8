/**
 * A run of LRU-K that shows the store outgrowing its capacity: with
 * capacity 1 and K = 2, the puts 1, 1, 2, 3, 3 leave both 1 and 3 promoted.
 * The second put of 3 finds the store full; the victim rule prefers the
 * history record of 2, whose window is still short of K, so only that
 * record is dropped and the promotion of 3 goes ahead.
 */
module Scenarios {
  import opened CachePolicy
  import LruK

  /** Capacity 1, K = 2, after put(1) twice: 1 is promoted, nothing else is recorded. */
  method OnePromoted() returns (c: LruK.LruKCache<int, string>)
    ensures fresh(c) && c.Valid() && c.capacity == 1 && c.k == 2
    ensures c.cache.Keys == {1} && c.history == map[]
  {
    var r := LruK.LruKCache<int, string>.Create(1, 2);
    c := r.value;
    var _ := c.Put(1, "one");
    var _ := c.Put(1, "one again");
  }

  /** Then put(2) and put(3) once each: both only start a history window. */
  method TwoPending() returns (c: LruK.LruKCache<int, string>)
    ensures fresh(c) && c.Valid() && c.capacity == 1 && c.k == 2
    ensures c.cache.Keys == {1} && c.history.Keys == {2, 3}
    ensures |c.history[2].accessTimes| == 1 && |c.history[3].accessTimes| == 1
  {
    c := OnePromoted();
    var _ := c.Put(2, "two");
    var _ := c.Put(3, "three");
  }

  /** With 3's window complete and 2's still short, the victim rule can only choose 2. */
  lemma HistoryVictimIsTwo<V>(history: map<int, LruK.HistoryRecord<int>>, cache: map<int, LruK.CacheRecord<int, V>>, v: int)
    requires history.Keys == {2, 3} && |history[2].accessTimes| == 1 && |history[3].accessTimes| == 2
    requires LruK.IsVictim(history, cache, 2, v)
    ensures v == 2
  {
    assert !LruK.NoHistoryCandidate(history, 2) by {
      assert 2 in history;
    }
  }

  /**
   * What the promoting put of 3 leaves behind, on the maps alone: the victim
   * is the history record of 2, so it leaves only the history and 3 joins 1
   * in the store.
   */
  lemma OnlyHistoryVictimLeaves<V>(history: map<int, LruK.HistoryRecord<int>>, cache: map<int, LruK.CacheRecord<int, V>>,
                                   window: seq<LruK.Time>, value: V, victim: int,
                                   history': map<int, LruK.HistoryRecord<int>>, cache': map<int, LruK.CacheRecord<int, V>>)
    requires history.Keys == {2, 3} && |history[2].accessTimes| == 1 && |window| == 2 && cache.Keys == {1}
    requires LruK.IsVictim(history[3 := LruK.HistoryRecord(3, window)], cache, 2, victim)
    requires victim !in cache ==> history' == history - {3} - {victim} && cache' == cache[3 := LruK.CacheRecord(3, value, window)]
    ensures victim == 2
    ensures cache'.Keys == {1, 3} && 2 !in history'
  {
    HistoryVictimIsTwo(history[3 := LruK.HistoryRecord(3, window)], cache, victim);
  }

  /** The second put(3): the store is full, the history victim 2 is dropped and 3 is promoted beside 1. */
  method SecondPutOfThree(c: LruK.LruKCache<int, string>)
    requires c.Valid() && c.capacity == 1 && c.k == 2
    requires c.cache.Keys == {1} && c.history.Keys == {2, 3}
    requires |c.history[2].accessTimes| == 1 && |c.history[3].accessTimes| == 1
    modifies c
    ensures c.Valid() && c.cache.Keys == {1, 3} && 2 !in c.history
  {
    ghost var window := LruK.HistoryWindow(c.history, 3, c.clock, 2);
    ghost var history := c.history;
    ghost var promoted := c.cache;
    assert |window| == 2 && |promoted| == 1;
    ghost var evicted := c.Put(3, "three again");
    OnlyHistoryVictimLeaves(history, promoted, window, "three again", evicted.value, c.history, c.cache);
  }

  /** The run as a whole: two keys are promoted although the capacity is 1. */
  method StoreOverflows() returns (size: int, capacity: int, has1: bool, has2: bool, has3: bool, count2: int)
    ensures size == 2 && capacity == 1 && size > capacity
    ensures has1 && !has2 && has3 && count2 == 0
  {
    var c := TwoPending();
    SecondPutOfThree(c);
    size, capacity := c.Size(), c.Capacity();
    has1, has2, has3 := c.Contains(1), c.Contains(2), c.Contains(3);
    count2 := c.HistoryAccessCount(2);
  }
}
