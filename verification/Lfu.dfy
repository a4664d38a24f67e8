/**
 * LfuCache: a hash index from keys to nodes that carry a value and an access
 * count, and one FrequencyBucket per access count that lists the nodes with
 * that count, most recently touched first. A hit moves the node from bucket
 * `f` to the head of bucket `f + 1`; a new key enters bucket 1. When a new key
 * arrives at a full cache, the tail of the bucket of `minFrequency` leaves:
 * of the keys with the fewest accesses, the one touched longest ago.
 *
 * Inside a bucket the nodes form a doubly linked list between two sentinels;
 * here a bucket's list is the sequence of the keys of its nodes, head first
 * (a key names its node, since the index maps each key to exactly one node).
 * The splicing of such a list is modelled and proved in LinkedArena for the
 * LRU engine, which links its nodes the same way. A bucket is owned by its
 * one entry of the bucket map and is never shared, so it is a value here,
 * which the cache's methods replace in the map.
 *
 * The central fact is that, whenever something is cached, `minFrequency` is
 * the least access count of a cached key and its bucket is not empty (MinOk),
 * so eviction always finds a victim and that victim is least frequently used.
 */
module Lfu {
  import opened Sequences
  import opened CachePolicy

  /** CacheNode: a key, its value and its access count (1 for a new key). */
  datatype CacheNode<K, V> = CacheNode(key: K, value: V, frequency: int)

  /**
   * FrequencyBucket: the nodes with one access count, head first, and the
   * `size` counter that addToHead and removeNode keep and `empty()` reads.
   */
  datatype FrequencyBucket<K(==)> = FrequencyBucket(list: seq<K>, size: int)
  {
    /** `size` counts the list, and no node is linked twice. */
    ghost predicate Valid()
    {
      size == |list| && Distinct(list)
    }

    /** addToHead: the node becomes the most recently touched of the bucket. */
    function AddToHead(key: K): (b: FrequencyBucket<K>)
      ensures b.list == [key] + list && b.size == size + 1
      ensures Valid() && key !in list ==> b.Valid()
    {
      var b := FrequencyBucket([key] + list, size + 1);
      assert Valid() && key !in list ==> b.Valid() by {
        if Valid() && key !in list {
          forall i, j | 0 <= i < j < |b.list| ensures b.list[i] != b.list[j] {
            if i == 0 { assert b.list[j] == list[j - 1]; }
          }
        }
      }
      b
    }

    /** removeNode: the node is unlinked; the other nodes keep their order. */
    function RemoveNode(key: K): (b: FrequencyBucket<K>)
      ensures b.list == Without(list, key) && b.size == size - 1
      ensures Valid() && key in list ==> b.Valid() && |b.list| == |list| - 1
    {
      var b := FrequencyBucket(Without(list, key), size - 1);
      assert Valid() && key in list ==> (b.Valid() && |b.list| == |list| - 1) by {
        if Valid() && key in list {
          var p :| 0 <= p < |list| && list[p] == key;
          WithoutAt(list, p);
          CutDistinct(list, p);
        }
      }
      b
    }

    /**
     * removeTail: the bucket afterwards and the node removed. Nothing is
     * removed when `size` is 0 or no node sits between the sentinels;
     * otherwise the tail node, the least recently touched, is unlinked.
     */
    function RemoveTail(): (r: (FrequencyBucket<K>, Option<K>))
      ensures size == 0 || list == [] ==> r == (this, None)
      ensures size != 0 && Valid() && list != [] ==>
        && r.1 == Some(Last(list))
        && r.0.Valid() && r.0.list == list[..|list| - 1]
    {
      if size == 0 then (this, None)
      else if list == [] then (this, None)
      else
        var last := Last(list);
        var b := RemoveNode(last);
        assert Valid() ==> b.list == list[..|list| - 1] by {
          if Valid() {
            WithoutAt(list, |list| - 1);
            assert list[|list|..] == [];
          }
        }
        (b, Some(last))
    }

    /** empty: reads `size`; in a valid bucket, true exactly when no node is linked. */
    predicate Empty()
      ensures Valid() ==> (Empty() <==> list == [])
    {
      size == 0
    }
  }

  /** A bucket with no nodes, as getOrCreateBucket makes it. */
  function NewBucket<K(==)>(): (b: FrequencyBucket<K>)
    ensures b.Valid() && b.list == []
  {
    FrequencyBucket([], 0)
  }

  /** Unlinking a node just linked at the head gives the bucket back. */
  lemma AddThenRemove<K>(b: FrequencyBucket<K>, key: K)
    requires b.Valid() && key !in b.list
    ensures b.AddToHead(key).RemoveNode(key) == b
  {
    WithoutAbsent(b.list, key);
    assert Without([key] + b.list, key) == Without(b.list, key) by {
      assert ([key] + b.list)[1..] == b.list;
    }
  }

  /** The bucket of frequency `f`, or a new one when there is none: what getOrCreateBucket hands back. */
  function Bucket<K(==)>(buckets: map<int, FrequencyBucket<K>>, f: int): (b: FrequencyBucket<K>)
    ensures f in buckets ==> b == buckets[f]
    ensures f !in buckets ==> b == NewBucket()
  {
    if f in buckets then buckets[f] else NewBucket()
  }

  /**
   * The buckets file the cached keys: every bucket is a positive access
   * count and valid, holds only cached keys with that count, and every
   * cached key sits in the bucket of its count.
   */
  ghost predicate Filed<K, V>(buckets: map<int, FrequencyBucket<K>>, cache: map<K, CacheNode<K, V>>)
  {
    && (forall f :: f in buckets ==> f >= 1 && buckets[f].Valid())
    && (forall f, i :: f in buckets && 0 <= i < |buckets[f].list| ==>
          buckets[f].list[i] in cache && cache[buckets[f].list[i]].frequency == f)
    && (forall key :: key in cache ==>
          cache[key].key == key && cache[key].frequency in buckets && key in buckets[cache[key].frequency].list)
  }

  /**
   * When something is cached, `minFrequency` is the least access count of a
   * cached key, and its bucket is not empty.
   */
  ghost predicate MinOk<K, V>(buckets: map<int, FrequencyBucket<K>>, cache: map<K, CacheNode<K, V>>, minFrequency: int)
  {
    cache != map[] ==>
      && minFrequency in buckets && buckets[minFrequency].list != []
      && forall key :: key in cache ==> minFrequency <= cache[key].frequency
  }

  // ---------------------------------------------------------------------------
  // The changes the engine makes to its buckets, on values.

  /** updateFrequency on the buckets: `key` leaves bucket `f` and becomes the head of bucket `f + 1`. */
  function Bump<K(==)>(buckets: map<int, FrequencyBucket<K>>, key: K, f: int): map<int, FrequencyBucket<K>>
    requires f in buckets
  {
    buckets[f := buckets[f].RemoveNode(key)][f + 1 := Bucket(buckets, f + 1).AddToHead(key)]
  }

  /** updateFrequency on minFrequency: it moves up exactly when bucket `f` was the minimum and is now empty. */
  function BumpedMin<K(==)>(buckets: map<int, FrequencyBucket<K>>, key: K, f: int, minFrequency: int): int
    requires f in buckets
  {
    if buckets[f].RemoveNode(key).Empty() && f == minFrequency then minFrequency + 1 else minFrequency
  }

  /** A hit keeps the buckets filed: the key now heads bucket `f + 1` with count `f + 1`. */
  lemma BumpFiled<K, V>(buckets: map<int, FrequencyBucket<K>>, cache: map<K, CacheNode<K, V>>, key: K)
    requires Filed(buckets, cache) && key in cache
    ensures cache[key].frequency in buckets
    ensures var f := cache[key].frequency;
      Filed(Bump(buckets, key, f), cache[key := cache[key].(frequency := f + 1)])
  {
    BumpHolds(buckets, cache, key);
    BumpKeysFiled(buckets, cache, key);
  }

  /** After a hit every bucket still holds only cached keys of its count. */
  lemma BumpHolds<K, V>(buckets: map<int, FrequencyBucket<K>>, cache: map<K, CacheNode<K, V>>, key: K)
    requires Filed(buckets, cache) && key in cache
    ensures cache[key].frequency in buckets
    ensures var f := cache[key].frequency;
      var buckets' := Bump(buckets, key, f);
      var cache' := cache[key := cache[key].(frequency := f + 1)];
      && (forall g :: g in buckets' ==> g >= 1 && buckets'[g].Valid())
      && (forall g, i :: g in buckets' && 0 <= i < |buckets'[g].list| ==>
            buckets'[g].list[i] in cache' && cache'[buckets'[g].list[i]].frequency == g)
  {
    var f := cache[key].frequency;
    var buckets' := Bump(buckets, key, f);
    var cache' := cache[key := cache[key].(frequency := f + 1)];
    var l := buckets[f].list;
    var p :| 0 <= p < |l| && l[p] == key;
    WithoutAt(l, p);
    var cut := buckets'[f].list;
    assert cut == l[..p] + l[p + 1..];
    var up := Bucket(buckets, f + 1);
    forall i | 0 <= i < |up.list| ensures up.list[i] != key {
      assert cache[buckets[f + 1].list[i]].frequency == f + 1;
    }
    assert buckets'[f + 1] == up.AddToHead(key);
    forall g, i | g in buckets' && 0 <= i < |buckets'[g].list|
      ensures buckets'[g].list[i] in cache' && cache'[buckets'[g].list[i]].frequency == g
    {
      if g == f + 1 {
        if i > 0 { assert buckets'[g].list[i] == up.list[i - 1]; }
      } else if g == f {
        assert cut[i] == l[if i < p then i else i + 1];
      } else {
        assert buckets'[g] == buckets[g];
      }
    }
  }

  /** After a hit every cached key still sits in the bucket of its count. */
  lemma BumpKeysFiled<K, V>(buckets: map<int, FrequencyBucket<K>>, cache: map<K, CacheNode<K, V>>, key: K)
    requires Filed(buckets, cache) && key in cache
    ensures cache[key].frequency in buckets
    ensures var f := cache[key].frequency;
      var buckets' := Bump(buckets, key, f);
      var cache' := cache[key := cache[key].(frequency := f + 1)];
      forall k :: k in cache' ==>
        cache'[k].key == k && cache'[k].frequency in buckets' && k in buckets'[cache'[k].frequency].list
  {
    var f := cache[key].frequency;
    var buckets' := Bump(buckets, key, f);
    var cache' := cache[key := cache[key].(frequency := f + 1)];
    var l := buckets[f].list;
    var p :| 0 <= p < |l| && l[p] == key;
    WithoutAt(l, p);
    var cut := buckets'[f].list;
    assert cut == l[..p] + l[p + 1..];
    var up := Bucket(buckets, f + 1);
    assert buckets'[f + 1] == up.AddToHead(key);
    forall k | k in cache'
      ensures cache'[k].key == k && cache'[k].frequency in buckets' && k in buckets'[cache'[k].frequency].list
    {
      if k != key {
        var g := cache[k].frequency;
        if g == f + 1 { assert k in [key] + up.list; }
        if g == f {
          var j :| 0 <= j < |l| && l[j] == k;
          assert k == cut[if j < p then j else j - 1];
        }
      }
    }
  }

  /**
   * A hit keeps minFrequency the least access count: when the hit key was
   * the last one of the least count, every other key has a larger count and
   * the hit key itself now has `f + 1`, whose bucket it heads.
   */
  lemma BumpMin<K, V>(buckets: map<int, FrequencyBucket<K>>, cache: map<K, CacheNode<K, V>>, minFrequency: int, key: K)
    requires Filed(buckets, cache) && MinOk(buckets, cache, minFrequency) && key in cache
    ensures cache[key].frequency in buckets
    ensures var f := cache[key].frequency;
      MinOk(Bump(buckets, key, f), cache[key := cache[key].(frequency := f + 1)], BumpedMin(buckets, key, f, minFrequency))
  {
    var f := cache[key].frequency;
    var buckets' := Bump(buckets, key, f);
    var cache' := cache[key := cache[key].(frequency := f + 1)];
    var min' := BumpedMin(buckets, key, f, minFrequency);
    var cut := buckets[f].RemoveNode(key);
    assert buckets'[f + 1].list != [] && buckets'[f] == cut;
    if cut.Empty() && f == minFrequency {
      forall k | k in cache' ensures min' <= cache'[k].frequency {
        if k != key {
          WithoutMembers(buckets[f].list, key);
          assert cache[k].frequency == f ==> k in cut.list;
        }
      }
    }
  }

  /** BumpFiled and BumpMin, stated of the state after the hit, reached in the two steps updateFrequency takes. */
  lemma BumpKeepsBooks<K, V>(buckets: map<int, FrequencyBucket<K>>, cache: map<K, CacheNode<K, V>>, minFrequency: int, key: K,
                             mid: map<int, FrequencyBucket<K>>, buckets': map<int, FrequencyBucket<K>>,
                             cache': map<K, CacheNode<K, V>>, min': int)
    requires Filed(buckets, cache) && MinOk(buckets, cache, minFrequency) && key in cache
    requires cache[key].frequency in buckets
    requires mid == buckets[cache[key].frequency := buckets[cache[key].frequency].RemoveNode(key)]
    requires buckets' == mid[cache[key].frequency + 1 := Bucket(mid, cache[key].frequency + 1).AddToHead(key)]
    requires cache' == cache[key := cache[key].(frequency := cache[key].frequency + 1)]
    requires min' == BumpedMin(buckets, key, cache[key].frequency, minFrequency)
    ensures buckets' == Bump(buckets, key, cache[key].frequency)
    ensures Filed(buckets', cache') && MinOk(buckets', cache', min')
  {
    assert Bucket(mid, cache[key].frequency + 1) == Bucket(buckets, cache[key].frequency + 1);
    BumpFiled(buckets, cache, key);
    BumpMin(buckets, cache, minFrequency, key);
  }

  /**
   * Eviction on a non-empty cache: the tail of the bucket of minFrequency is
   * cached; once it leaves both the cache and that bucket the buckets are
   * still filed.
   */
  lemma EvictKeepsFiled<K, V>(buckets: map<int, FrequencyBucket<K>>, cache: map<K, CacheNode<K, V>>, minFrequency: int)
    requires Filed(buckets, cache) && MinOk(buckets, cache, minFrequency) && cache != map[]
    ensures var b := buckets[minFrequency];
      && b.size != 0 && b.list != [] && Last(b.list) in cache
      && Filed(buckets[minFrequency := b.RemoveTail().0], cache - {Last(b.list)})
  {
    var b := buckets[minFrequency];
    var l := b.list;
    var v := Last(l);
    var buckets' := buckets[minFrequency := b.RemoveTail().0];
    var cache' := cache - {v};
    assert buckets'[minFrequency].list == l[..|l| - 1];
    forall g, i | g in buckets' && 0 <= i < |buckets'[g].list|
      ensures buckets'[g].list[i] in cache' && cache'[buckets'[g].list[i]].frequency == g
    {
      if g == minFrequency {
        assert buckets'[g].list[i] == l[i] && l[i] != l[|l| - 1];
      } else {
        assert buckets'[g] == buckets[g];
        assert cache[v].frequency == minFrequency;
      }
    }
    forall k | k in cache'
      ensures cache'[k].frequency in buckets' && k in buckets'[cache'[k].frequency].list
    {
      if cache[k].frequency == minFrequency {
        var i :| 0 <= i < |l| && l[i] == k;
        assert buckets'[minFrequency].list[i] == k;
      }
    }
  }

  /**
   * The victim is least frequently used: its count is the least of all
   * cached keys, every key with that count is in the same bucket, and it is
   * that bucket's tail, the one touched longest ago.
   */
  lemma VictimIsLeastFrequent<K, V>(buckets: map<int, FrequencyBucket<K>>, cache: map<K, CacheNode<K, V>>, minFrequency: int)
    requires Filed(buckets, cache) && MinOk(buckets, cache, minFrequency) && cache != map[]
    ensures var v := Last(buckets[minFrequency].list);
      && v in cache && cache[v].frequency == minFrequency
      && (forall key :: key in cache ==> cache[v].frequency <= cache[key].frequency)
      && (forall key :: key in cache && cache[key].frequency == minFrequency ==> key in buckets[minFrequency].list)
  {
    var l := buckets[minFrequency].list;
    assert l[|l| - 1] in cache;
  }

  /**
   * Inserting an absent key at the head of bucket 1, made first when there
   * is none (`mid`), keeps the buckets filed and makes 1 the least count.
   */
  lemma InsertKeepsBooks<K, V>(buckets: map<int, FrequencyBucket<K>>, cache: map<K, CacheNode<K, V>>, key: K, value: V,
                               mid: map<int, FrequencyBucket<K>>)
    requires Filed(buckets, cache) && key !in cache
    requires mid == buckets[1 := Bucket(buckets, 1)]
    ensures mid[1 := Bucket(buckets, 1).AddToHead(key)] == buckets[1 := Bucket(buckets, 1).AddToHead(key)]
    ensures var buckets' := buckets[1 := Bucket(buckets, 1).AddToHead(key)];
      var cache' := cache[key := CacheNode(key, value, 1)];
      Filed(buckets', cache') && MinOk(buckets', cache', 1)
  {
    var one := Bucket(buckets, 1);
    var buckets' := buckets[1 := one.AddToHead(key)];
    assert mid[1 := one.AddToHead(key)] == buckets';
    var cache' := cache[key := CacheNode(key, value, 1)];
    forall i | 0 <= i < |one.list| ensures one.list[i] != key {
      assert buckets[1].list[i] in cache;
    }
    forall g, i | g in buckets' && 0 <= i < |buckets'[g].list|
      ensures buckets'[g].list[i] in cache' && cache'[buckets'[g].list[i]].frequency == g
    {
      if g == 1 {
        if i > 0 { assert buckets'[g].list[i] == one.list[i - 1]; }
      } else {
        assert buckets'[g] == buckets[g];
      }
    }
    forall k | k in cache'
      ensures cache'[k].key == k && cache'[k].frequency in buckets' && k in buckets'[cache'[k].frequency].list
    {
      if k != key && cache[k].frequency == 1 { assert k in [key] + one.list; }
    }
  }

  /** Writing a new value into a cached node moves nothing. */
  lemma SetValueKeepsBooks<K, V>(buckets: map<int, FrequencyBucket<K>>, cache: map<K, CacheNode<K, V>>, minFrequency: int,
                                 key: K, value: V, cache': map<K, CacheNode<K, V>>)
    requires Filed(buckets, cache) && MinOk(buckets, cache, minFrequency) && key in cache
    requires cache' == cache[key := cache[key].(value := value)]
    ensures Filed(buckets, cache') && MinOk(buckets, cache', minFrequency)
  {
    assert forall k :: k in cache' ==> cache'[k].key == cache[k].key && cache'[k].frequency == cache[k].frequency;
  }

  /**
   * `after` is `before` with the node of `key` replaced by `node`, stated key
   * by key; ReplacedIsStore shows that this is the map update.
   */
  ghost predicate Replaced<K, V>(before: map<K, CacheNode<K, V>>, after: map<K, CacheNode<K, V>>, key: K, node: CacheNode<K, V>)
  {
    && key in after && after[key] == node
    && (forall k :: k in after ==> k in before)
    && (forall k :: k in before ==> k in after)
    && (forall k :: k in after && k != key ==> after[k] == before[k])
  }

  /** The key-by-key statement and the map update say the same thing. */
  lemma ReplacedIsStore<K, V>(before: map<K, CacheNode<K, V>>, after: map<K, CacheNode<K, V>>, key: K, node: CacheNode<K, V>)
    requires key in before
    ensures Replaced(before, after, key, node) <==> after == before[key := node]
  {
  }

  /** `contents` is what the index of nodes answers: the same keys, each with its node's value. */
  ghost predicate Answers<K, V>(cache: map<K, CacheNode<K, V>>, contents: map<K, V>)
  {
    && (forall key :: key in cache ==> key in contents && contents[key] == cache[key].value)
    && (forall key :: key in contents ==> key in cache)
  }

  lemma AnswersStore<K, V>(cache: map<K, CacheNode<K, V>>, contents: map<K, V>, key: K, node: CacheNode<K, V>)
    requires Answers(cache, contents)
    ensures Answers(cache[key := node], contents[key := node.value])
  {
  }

  lemma AnswersErase<K, V>(cache: map<K, CacheNode<K, V>>, contents: map<K, V>, key: K)
    requires Answers(cache, contents)
    ensures Answers(cache - {key}, contents - {key})
  {
  }

  lemma AnswersKeep<K, V>(cache: map<K, CacheNode<K, V>>, contents: map<K, V>, key: K, node: CacheNode<K, V>)
    requires Answers(cache, contents) && key in cache && node.value == cache[key].value
    ensures Answers(cache[key := node], contents)
  {
  }

  /** The cached keys and the answered keys are as many. */
  lemma AnswersCard<K, V>(cache: map<K, CacheNode<K, V>>, contents: map<K, V>)
    requires Answers(cache, contents)
    ensures |cache| == |contents|
  {
    assert cache.Keys == contents.Keys;
  }

  // ---------------------------------------------------------------------------

  class LfuCache<K(==), V> {
    const capacity: int
    var minFrequency: int
    var cache: map<K, CacheNode<K, V>>
    var buckets: map<int, FrequencyBucket<K>>

    /** What the cache answers for. */
    ghost var Contents: map<K, V>

    ghost predicate Valid()
      reads this
    {
      && capacity > 0 && minFrequency >= 1
      && Filed(buckets, cache) && MinOk(buckets, cache, minFrequency)
      && |cache| <= capacity
      && Answers(cache, Contents)
    }

    /** Construction: a capacity of at most 0 throws InvalidCapacityException. */
    static method Create(capacity: int) returns (r: Result<LfuCache<K, V>>)
      ensures r.Err? <==> capacity <= 0
      ensures r.Err? ==> r.error == InvalidCapacity(capacity)
      ensures r.Ok? ==> fresh(r.value) && r.value.Valid() && r.value.capacity == capacity
      ensures r.Ok? ==> r.value.Contents == map[] && r.value.cache == map[] && r.value.buckets == map[] && r.value.minFrequency == 1
    {
      match CheckCapacity(capacity)
      case Some(e) =>
        r := Err(e);
      case None =>
        var c := new LfuCache(capacity);
        r := Ok(c);
    }

    /** min_frequency_ starts at 1; nothing cached and no buckets. */
    constructor (capacity: int)
      requires capacity > 0
      ensures Valid() && this.capacity == capacity
      ensures cache == map[] && buckets == map[] && minFrequency == 1 && Contents == map[]
    {
      this.capacity := capacity;
      minFrequency := 1;
      cache := map[];
      buckets := map[];
      Contents := map[];
    }

    /** getOrCreateBucket: the bucket of `frequency`, made empty and new when there was none. */
    method GetOrCreateBucket(frequency: int) returns (b: FrequencyBucket<K>)
      modifies this`buckets
      ensures buckets == old(buckets)[frequency := Bucket(old(buckets), frequency)]
      ensures b == buckets[frequency]
    {
      if frequency !in buckets {
        buckets := buckets[frequency := NewBucket()];
      }
      b := buckets[frequency];
    }

    /**
     * updateFrequency: the node of `key` leaves the bucket of its count `f`
     * (minFrequency moves up when that was the least count and the bucket is
     * now empty) and becomes the head of the bucket of `f + 1`.
     */
    method UpdateFrequency(key: K)
      requires Valid() && key in cache
      modifies this`cache, this`minFrequency, this`buckets
      ensures Valid()
      ensures old(cache[key].frequency) in old(buckets)
      ensures cache == old(cache)[key := old(cache[key]).(frequency := old(cache[key].frequency) + 1)]
      ensures buckets == Bump(old(buckets), key, old(cache[key].frequency))
      ensures minFrequency == BumpedMin(old(buckets), key, old(cache[key].frequency), old(minFrequency))
    {
      var oldFreq := cache[key].frequency;
      var newFreq := oldFreq + 1;
      LeaveBucket(key, oldFreq);
      ghost var mid := buckets;
      cache := cache[key := cache[key].(frequency := newFreq)];
      assert cache == old(cache)[key := old(cache[key]).(frequency := old(cache[key].frequency) + 1)];
      JoinBucket(key, newFreq);
      BumpKeepsBooks(old(buckets), old(cache), old(minFrequency), key, mid, buckets, cache, minFrequency);
      AnswersKeep(old(cache), Contents, key, cache[key]);
    }

    /**
     * The first step of updateFrequency: the node leaves the bucket of its
     * old count, when there is one, and minFrequency moves up when that
     * bucket was the least and is now empty.
     */
    method LeaveBucket(key: K, frequency: int)
      modifies this`buckets, this`minFrequency
      ensures frequency !in old(buckets) ==> buckets == old(buckets) && minFrequency == old(minFrequency)
      ensures frequency in old(buckets) ==>
        && buckets == old(buckets)[frequency := old(buckets)[frequency].RemoveNode(key)]
        && minFrequency == BumpedMin(old(buckets), key, frequency, old(minFrequency))
    {
      if frequency in buckets {
        buckets := buckets[frequency := buckets[frequency].RemoveNode(key)];
        if buckets[frequency].Empty() && frequency == minFrequency {
          minFrequency := minFrequency + 1;
        }
      }
    }

    /** The last step of updateFrequency: the node becomes the head of the bucket of its new count. */
    method JoinBucket(key: K, frequency: int)
      modifies this`buckets
      ensures buckets == old(buckets)[frequency := Bucket(old(buckets), frequency).AddToHead(key)]
    {
      var bucket := GetOrCreateBucket(frequency);
      buckets := buckets[frequency := bucket.AddToHead(key)];
    }

    /**
     * evictLFU: none when the bucket of minFrequency is missing or empty
     * (which happens only on an empty cache); otherwise that bucket's tail
     * is unlinked and returned.
     */
    method EvictLfu() returns (evicted: Option<K>)
      requires Valid()
      modifies this`buckets
      ensures old(cache) == map[] ==> evicted.None? && buckets == old(buckets)
      ensures old(cache) != map[] ==>
        && evicted == Some(Last(old(buckets)[minFrequency].list))
        && buckets == old(buckets)[minFrequency := old(buckets)[minFrequency].RemoveTail().0]
    {
      if minFrequency !in buckets || buckets[minFrequency].Empty() {
        return None;
      }
      assert buckets[minFrequency].list[0] in cache;
      var r := buckets[minFrequency].RemoveTail();
      buckets := buckets[minFrequency := r.0];
      evicted := r.1;
    }

    /** get: a hit counts as an access; a miss throws "Key not found in LFU cache". */
    method Get(key: K) returns (r: Result<V>)
      requires Valid()
      modifies this`cache, this`minFrequency, this`buckets
      ensures Valid() && GetSpec(old(Contents), Contents, key, r)
      ensures r.Err? ==> r.error == KeyNotFound("LFU") && cache == old(cache) && buckets == old(buckets)
      ensures r.Ok? ==> cache == old(cache)[key := old(cache[key]).(frequency := old(cache[key].frequency) + 1)]
      ensures r.Ok? ==>
        && old(cache[key].frequency) in old(buckets)
        && buckets == Bump(old(buckets), key, old(cache[key].frequency))
        && minFrequency == BumpedMin(old(buckets), key, old(cache[key].frequency), old(minFrequency))
      ensures r.Err? ==> minFrequency == old(minFrequency)
    {
      if key !in cache {
        return Err(KeyNotFound("LFU"));
      }
      UpdateFrequency(key);
      r := Ok(cache[key].value);
    }

    /**
     * put: on a cached key the value is replaced and the write counts as an
     * access; on a new key at a full cache the least frequently used key
     * leaves first, and the new key enters with count 1, which becomes
     * minFrequency.
     */
    method Put(key: K, value: V)
      requires Valid()
      modifies this`cache, this`minFrequency, this`buckets, this`Contents
      ensures Valid() && PutSpec(old(Contents), Contents, key, value)
      ensures key in old(cache) ==>
        var f := old(cache[key].frequency);
        && Replaced(old(cache), cache, key, CacheNode(key, value, f + 1))
        && f in old(buckets) && buckets == Bump(old(buckets), key, f)
        && minFrequency == BumpedMin(old(buckets), key, f, old(minFrequency))
      ensures key !in old(cache) && |old(cache)| < capacity ==>
        && cache == old(cache)[key := CacheNode(key, value, 1)]
        && buckets == old(buckets)[1 := Bucket(old(buckets), 1).AddToHead(key)]
        && minFrequency == 1
      ensures key !in old(cache) && |old(cache)| >= capacity ==>
        var v := Last(old(buckets)[old(minFrequency)].list);
        var rest := old(buckets)[old(minFrequency) := old(buckets)[old(minFrequency)].RemoveTail().0];
        && v in old(cache)
        && (forall k :: k in old(cache) ==> old(cache[v].frequency) <= old(cache[k].frequency))
        && cache == (old(cache) - {v})[key := CacheNode(key, value, 1)]
        && buckets == rest[1 := Bucket(rest, 1).AddToHead(key)]
        && minFrequency == 1
        && EvictsOnly(old(Contents), Contents, v)
    {
      if key in cache {
        PutExisting(key, value);
      } else {
        PutNew(key, value);
      }
    }

    /** put on a cached key: the value is written in place, then updateFrequency. */
    method PutExisting(key: K, value: V)
      requires Valid() && key in cache
      modifies this`cache, this`minFrequency, this`buckets, this`Contents
      ensures Valid()
      ensures Replaced(old(cache), cache, key, CacheNode(key, value, old(cache[key].frequency) + 1))
      ensures old(cache[key].frequency) in old(buckets)
      ensures buckets == Bump(old(buckets), key, old(cache[key].frequency))
      ensures minFrequency == BumpedMin(old(buckets), key, old(cache[key].frequency), old(minFrequency))
      ensures Contents == old(Contents)[key := value]
      ensures PutSpec(old(Contents), Contents, key, value)
    {
      WriteValue(key, value);
      UpdateFrequency(key);
      PutUpdates(old(Contents), key, value);
    }

    /** The first step of put on a cached key: the node's value is overwritten; nothing moves. */
    method WriteValue(key: K, value: V)
      requires Valid() && key in cache
      modifies this`cache, this`Contents
      ensures Valid() && cache == old(cache)[key := old(cache[key]).(value := value)]
      ensures cache[key].frequency == old(cache[key].frequency)
      ensures Contents == old(Contents)[key := value]
    {
      SetValueKeepsBooks(buckets, cache, minFrequency, key, value, cache[key := cache[key].(value := value)]);
      AnswersStore(cache, Contents, key, cache[key].(value := value));
      cache := cache[key := cache[key].(value := value)];
      Contents := Contents[key := value];
    }

    /** put on a new key: evict when full, then link the new node at the head of bucket 1. */
    method PutNew(key: K, value: V)
      requires Valid() && key !in cache
      modifies this`cache, this`minFrequency, this`buckets, this`Contents
      ensures Valid() && minFrequency == 1
      ensures |old(cache)| < capacity ==> cache == old(cache)[key := CacheNode(key, value, 1)]
      ensures |old(cache)| < capacity ==> buckets == old(buckets)[1 := Bucket(old(buckets), 1).AddToHead(key)]
      ensures |old(cache)| >= capacity ==>
        var v := Last(old(buckets)[old(minFrequency)].list);
        var rest := old(buckets)[old(minFrequency) := old(buckets)[old(minFrequency)].RemoveTail().0];
        && v in old(cache)
        && (forall k :: k in old(cache) ==> old(cache[v].frequency) <= old(cache[k].frequency))
        && cache == (old(cache) - {v})[key := CacheNode(key, value, 1)]
        && buckets == rest[1 := Bucket(rest, 1).AddToHead(key)]
      ensures PutSpec(old(Contents), Contents, key, value)
      ensures |old(cache)| < capacity ==> Contents == old(Contents)[key := value]
      ensures |old(cache)| >= capacity ==> EvictsOnly(old(Contents), Contents, Last(old(buckets)[old(minFrequency)].list))
    {
      if |cache| >= capacity {
        var v := EvictVictim();
        Insert(key, value);
        PutEvicts(old(Contents), v, key, value);
      } else {
        Insert(key, value);
        PutInserts(old(Contents), key, value);
      }
    }

    /**
     * The eviction step of put on a full cache: evictLFU unlinks the tail of
     * the bucket of minFrequency, and that key leaves the index.
     */
    method EvictVictim() returns (victim: K)
      requires Valid() && |cache| >= capacity
      modifies this`cache, this`buckets, this`Contents
      ensures victim == Last(old(buckets)[minFrequency].list) && victim in old(cache)
      ensures forall k :: k in old(cache) ==> old(cache)[victim].frequency <= old(cache)[k].frequency
      ensures cache == old(cache) - {victim} && |cache| < capacity
      ensures buckets == old(buckets)[minFrequency := old(buckets)[minFrequency].RemoveTail().0]
      ensures Contents == old(Contents) - {victim}
      ensures Filed(buckets, cache) && Answers(cache, Contents)
    {
      VictimIsLeastFrequent(buckets, cache, minFrequency);
      EvictKeepsFiled(buckets, cache, minFrequency);
      var evicted := EvictLfu();
      victim := evicted.value;
      AnswersErase(cache, Contents, victim);
      cache := cache - {victim};
      Contents := Contents - {victim};
      assert cache.Keys == old(cache).Keys - {victim};
    }

    /** The insertion step of put: a node with count 1 heads bucket 1, and minFrequency becomes 1. */
    method Insert(key: K, value: V)
      requires capacity > 0 && Filed(buckets, cache) && Answers(cache, Contents)
      requires key !in cache && |cache| < capacity
      modifies this`cache, this`buckets, this`minFrequency, this`Contents
      ensures Valid() && minFrequency == 1
      ensures cache == old(cache)[key := CacheNode(key, value, 1)]
      ensures buckets == old(buckets)[1 := Bucket(old(buckets), 1).AddToHead(key)]
      ensures Contents == old(Contents)[key := value]
    {
      var bucket := GetOrCreateBucket(1);
      InsertKeepsBooks(old(buckets), cache, key, value, buckets);
      AnswersStore(cache, Contents, key, CacheNode(key, value, 1));
      buckets := buckets[1 := bucket.AddToHead(key)];
      minFrequency := 1;
      cache := cache[key := CacheNode(key, value, 1)];
      Contents := Contents[key := value];
    }

    /** contains: whether the key is cached; never counts as an access. */
    function Contains(key: K): (b: bool)
      reads this
      requires Valid()
      ensures b <==> key in Contents
    {
      key in cache
    }

    /** size: the number of cached keys, never above the capacity. */
    function Size(): (n: int)
      reads this
      requires Valid()
      ensures n == |Contents| && n <= capacity
    {
      AnswersCard(cache, Contents);
      |cache|
    }

    function Capacity(): (n: int)
      reads this
      requires Valid()
      ensures n > 0 && |Contents| <= n
    {
      AnswersCard(cache, Contents);
      capacity
    }

    function Empty(): (b: bool)
      reads this
      requires Valid()
      ensures b <==> Contents == map[]
    {
      AnswersCard(cache, Contents);
      |cache| == 0
    }

    /** getFrequency: 0 for an absent key; otherwise its access count, at least minFrequency. */
    function Frequency(key: K): (n: int)
      reads this
      requires Valid()
      ensures key !in Contents <==> n == 0
      ensures key in Contents ==> n == cache[key].frequency && minFrequency <= n
    {
      if key !in cache then 0 else cache[key].frequency
    }

    /** getMinFrequency: on a non-empty cache, the least access count of a cached key. */
    function MinFrequency(): (n: int)
      reads this
      requires Valid()
      ensures n >= 1
      ensures cache != map[] ==>
        && (forall key :: key in cache ==> n <= cache[key].frequency)
        && (exists key :: key in cache && cache[key].frequency == n)
    {
      if cache != map[] then
        assert buckets[minFrequency].list[0] in cache;
        minFrequency
      else
        minFrequency
    }

    /** clear: nothing cached, no buckets, minFrequency back to 1. */
    method Clear()
      requires Valid()
      modifies this`cache, this`buckets, this`minFrequency, this`Contents
      ensures Valid() && Contents == map[] && buckets == map[] && minFrequency == 1
    {
      Contents := map[];
      cache := map[];
      buckets := map[];
      minFrequency := 1;
    }

    function PolicyName(): string
    {
      "LFU"
    }
  }
}
