/**
 * FifoCache: a hash index from keys to the nodes of a singly linked queue.
 * `head` is the oldest node and `tail` the newest; both are Nil when the
 * queue is empty. Reads never reorder the queue and updating a cached key
 * keeps its place, so a key leaves only by being the oldest one when a new
 * key arrives at a full cache.
 *
 * The abstract state is `Contents` (the key/value map the cache answers for)
 * and `Queue` (its keys, oldest first). `Enqueue` says how `put` of a new
 * key changes the queue.
 */
module Fifo {
  import opened Sequences
  import opened CachePolicy

  /** The null pointer of the arena. */
  const Nil: int := -1

  /** FifoNode: a key, its value and the link to the next newer node. */
  datatype FifoNode<K, V> = FifoNode(key: K, value: V, next: int)

  /**
   * The queue after `put` of the absent `key`: it joins at the newest end,
   * and when the cache already holds `capacity` keys the oldest one leaves first.
   */
  function Enqueue<K>(queue: seq<K>, key: K, capacity: int): seq<K>
  {
    if 0 < |queue| && capacity <= |queue| then queue[1..] + [key] else queue + [key]
  }

  /**
   * A new key becomes the newest; below capacity every key stays, at
   * capacity exactly the oldest leaves; the queue never grows past the
   * capacity and the survivors keep their order.
   */
  lemma EnqueueBounded<K>(queue: seq<K>, key: K, capacity: int)
    requires Distinct(queue) && key !in queue && 0 < capacity && |queue| <= capacity
    ensures var r := Enqueue(queue, key, capacity);
      && 0 < |r| <= capacity && Last(r) == key && Distinct(r)
      && (|queue| < capacity ==> forall x :: x in r <==> x in queue || x == key)
      && (|queue| == capacity ==> queue[0] !in r && forall x :: x in r <==> (x in queue && x != queue[0]) || x == key)
      && (forall i, j :: 0 <= i < j < |queue| && queue[i] in r ==> queue[j] in r)
  {
    var r := Enqueue(queue, key, capacity);
    var kept := if |queue| == capacity then queue[1..] else queue;
    assert r == kept + [key];
    assert Distinct(r) by {
      forall i, j | 0 <= i < j < |r| ensures r[i] != r[j] {
        if j == |r| - 1 { assert r[i] in queue; }
        else if |queue| == capacity { assert r[i] == queue[i + 1] && r[j] == queue[j + 1]; }
      }
    }
    if |queue| == capacity {
      forall x ensures x in r <==> (x in queue && x != queue[0]) || x == key {
        if x in queue && x != queue[0] {
          var i :| 0 <= i < |queue| && queue[i] == x;
          assert r[i - 1] == x;
        }
      }
      forall i, j | 0 <= i < j < |queue| && queue[i] in r ensures queue[j] in r {
        assert r[j - 1] == queue[j];
      }
    }
  }

  /**
   * The queue state: `queue` lists the node handles oldest first, `head` and
   * `tail` are its ends (Nil when it is empty), each node links to the next
   * newer one and the newest links to Nil.
   */
  ghost predicate Chained<K, V>(nodes: seq<FifoNode<K, V>>, head: int, tail: int, queue: seq<int>)
  {
    && Distinct(queue)
    && (forall i :: 0 <= i < |queue| ==> 0 <= queue[i] < |nodes|)
    && (queue == [] ==> head == Nil && tail == Nil)
    && (queue != [] ==> head == queue[0] && tail == Last(queue) && nodes[Last(queue)].next == Nil)
    && (forall i, j :: 0 <= i && j == i + 1 && j < |queue| ==> nodes[queue[i]].next == queue[j])
  }

  /** Every node of `a` holds the same key and value in `b`; `b` may be longer. */
  ghost predicate KeepsEntries<K, V>(a: seq<FifoNode<K, V>>, b: seq<FifoNode<K, V>>)
  {
    |a| <= |b| && forall i :: 0 <= i < |a| ==> b[i].key == a[i].key && b[i].value == a[i].value
  }

  /**
   * The index, the queue and the abstract state describe the same entries,
   * position by position; the index and the contents hold no other keys,
   * since they have exactly as many keys as the queue has nodes.
   */
  ghost predicate Agree<K, V>(nodes: seq<FifoNode<K, V>>, queue: seq<int>, keys: seq<K>, index: map<K, int>, contents: map<K, V>)
  {
    && |keys| == |queue|
    && (forall i :: 0 <= i < |queue| ==>
          && 0 <= queue[i] < |nodes| && nodes[queue[i]].key == keys[i]
          && keys[i] in index && index[keys[i]] == queue[i]
          && keys[i] in contents && contents[keys[i]] == nodes[queue[i]].value)
    && |index| == |queue| && |contents| == |queue|
  }

  /** Distinct nodes hold distinct keys. */
  lemma AgreeDistinct<K, V>(nodes: seq<FifoNode<K, V>>, queue: seq<int>, keys: seq<K>, index: map<K, int>, contents: map<K, V>)
    requires Agree(nodes, queue, keys, index, contents) && Distinct(queue)
    ensures Distinct(keys)
  {
    forall i, j | 0 <= i < j < |keys| ensures keys[i] != keys[j] {
      assert index[keys[i]] == queue[i] && index[keys[j]] == queue[j];
    }
  }

  /** Every indexed key, and every key of the contents, is queued. */
  lemma AgreeCovers<K, V>(nodes: seq<FifoNode<K, V>>, queue: seq<int>, keys: seq<K>, index: map<K, int>, contents: map<K, V>)
    requires Agree(nodes, queue, keys, index, contents) && Distinct(queue)
    ensures forall k :: k in index <==> k in keys
    ensures forall k :: k in contents <==> k in keys
  {
    AgreeDistinct(nodes, queue, keys, index, contents);
    DistinctCard(keys);
    var queued := set x | x in keys;
    SubsetFull(queued, index.Keys);
    SubsetFull(queued, contents.Keys);
  }

  /** Relinking nodes or allocating new ones keeps the agreement while the queued entries stay. */
  lemma AgreeFrame<K, V>(nodes: seq<FifoNode<K, V>>, nodes': seq<FifoNode<K, V>>, queue: seq<int>, keys: seq<K>, index: map<K, int>, contents: map<K, V>)
    requires Agree(nodes, queue, keys, index, contents) && KeepsEntries(nodes, nodes')
    ensures Agree(nodes', queue, keys, index, contents)
  {
  }

  /** A cached key's node is queued and holds the key and its value. */
  lemma AgreeLookup<K, V>(nodes: seq<FifoNode<K, V>>, queue: seq<int>, keys: seq<K>, index: map<K, int>, contents: map<K, V>, key: K)
    requires Agree(nodes, queue, keys, index, contents) && Distinct(queue) && key in index
    ensures index[key] in queue && 0 <= index[key] < |nodes|
    ensures key in contents && nodes[index[key]].key == key && nodes[index[key]].value == contents[key]
  {
    AgreeCovers(nodes, queue, keys, index, contents);
    var p :| 0 <= p < |keys| && keys[p] == key;
    assert queue[p] == index[key];
  }

  /** Writing a new value into the node of a cached key agrees with updating the key's value. */
  lemma AgreeSetValue<K, V>(nodes: seq<FifoNode<K, V>>, queue: seq<int>, keys: seq<K>, index: map<K, int>, contents: map<K, V>, key: K, value: V)
    requires Agree(nodes, queue, keys, index, contents) && Distinct(queue) && key in index
    ensures 0 <= index[key] < |nodes|
    ensures Agree(nodes[index[key] := nodes[index[key]].(value := value)], queue, keys, index, contents[key := value])
  {
    AgreeCovers(nodes, queue, keys, index, contents);
    var p :| 0 <= p < |keys| && keys[p] == key;
    assert queue[p] == index[key];
    forall i | 0 <= i < |queue| && i != p ensures queue[i] != queue[p] && keys[i] != key {
      assert index[keys[i]] == queue[i];
    }
  }

  /** Dropping the oldest node agrees with forgetting the oldest key. */
  lemma AgreeDropFirst<K, V>(nodes: seq<FifoNode<K, V>>, queue: seq<int>, keys: seq<K>, index: map<K, int>, contents: map<K, V>)
    requires Agree(nodes, queue, keys, index, contents) && Distinct(queue) && queue != []
    ensures Agree(nodes, queue[1..], keys[1..], index - {keys[0]}, contents - {keys[0]})
  {
    AgreeDistinct(nodes, queue, keys, index, contents);
    var victim := keys[0];
    assert (index - {victim}).Keys == index.Keys - {victim};
    assert (contents - {victim}).Keys == contents.Keys - {victim};
  }

  /** Queuing a new node holding (key, value) at the newest end agrees with adding the key. */
  lemma AgreeAppend<K, V>(nodes: seq<FifoNode<K, V>>, queue: seq<int>, keys: seq<K>, index: map<K, int>, contents: map<K, V>, m: int, key: K, value: V)
    requires Agree(nodes, queue, keys, index, contents)
    requires 0 <= m < |nodes| && nodes[m].key == key && nodes[m].value == value
    requires key !in index && key !in contents
    ensures m !in queue
    ensures Agree(nodes, queue + [m], keys + [key], index[key := m], contents[key := value])
  {
    assert m !in queue by {
      forall i | 0 <= i < |queue| ensures queue[i] != m {
        assert keys[i] in index;
      }
    }
    assert index[key := m].Keys == index.Keys + {key};
    assert contents[key := value].Keys == contents.Keys + {key};
  }

  /** Writes to nodes off the queue, and growth of the arena, leave the queue intact. */
  lemma ChainedFrame<K, V>(a: seq<FifoNode<K, V>>, b: seq<FifoNode<K, V>>, head: int, tail: int, queue: seq<int>)
    requires Chained(a, head, tail, queue) && |a| <= |b|
    requires forall i :: 0 <= i < |queue| ==> b[queue[i]].next == a[queue[i]].next
    ensures Chained(b, head, tail, queue)
  {
  }

  /** Linking the detached node `n` after the tail (or making it the only node) queues it last. */
  lemma ChainedAppend<K, V>(a: seq<FifoNode<K, V>>, head: int, tail: int, queue: seq<int>, n: int)
    requires Chained(a, head, tail, queue) && 0 <= n < |a| && n !in queue && a[n].next == Nil
    ensures queue == [] ==> Chained(a, n, n, [n])
    ensures queue != [] ==> 0 <= tail < |a| && Chained(a[tail := a[tail].(next := n)], head, n, queue + [n])
  {
    if queue != [] {
      var b := a[tail := a[tail].(next := n)];
      var r := queue + [n];
      assert Distinct(r) by {
        forall i, j | 0 <= i < j < |r| ensures r[i] != r[j] {
          if j == |r| - 1 { assert r[i] in queue; }
        }
      }
      assert forall i :: 0 <= i < |queue| - 1 ==> queue[i] != tail;
      forall i, j | 0 <= i && j == i + 1 && j < |r| ensures b[r[i]].next == r[j] {
        if j < |queue| { assert r[i] == queue[i] && r[j] == queue[j]; }
      }
    }
  }

  /** Advancing `head` past the oldest node dequeues it; the queue becomes empty exactly when it was the only node. */
  lemma ChainedPop<K, V>(a: seq<FifoNode<K, V>>, head: int, tail: int, queue: seq<int>)
    requires Chained(a, head, tail, queue) && queue != []
    ensures 0 <= head < |a| && (a[head].next == Nil <==> |queue| == 1)
    ensures Chained(a, a[head].next, if a[head].next == Nil then Nil else tail, queue[1..])
  {
    if |queue| > 1 {
      assert a[queue[0]].next == queue[1];
      var r := queue[1..];
      forall i, j | 0 <= i && j == i + 1 && j < |r| ensures a[r[i]].next == r[j] {
        assert r[i] == queue[i + 1] && r[j] == queue[j + 1];
      }
    }
  }

  class FifoCache<K(==), V> {
    /** capacity_: fixed at construction. */
    const capacity: int
    /** size_: the number of cached entries. */
    var size: int
    /** cache_: key to the node that holds it. */
    var index: map<K, int>
    /** Every FifoNode ever allocated; handles into it stand for the node pointers. */
    var nodes: seq<FifoNode<K, V>>
    /** head_ (oldest) and tail_ (newest); Nil for nullptr. */
    var head: int
    var tail: int

    /** The queued nodes, oldest first. */
    ghost var queue: seq<int>
    /** The cached keys, oldest first. */
    ghost var Queue: seq<K>
    /** What the cache answers for. */
    ghost var Contents: map<K, V>

    ghost predicate Valid()
      reads this
    {
      && capacity > 0
      && Chained(nodes, head, tail, queue)
      && Agree(nodes, queue, Queue, index, Contents)
      && size == |queue| <= capacity
    }

    /** Construction: a capacity of at most 0 throws InvalidCapacityException. */
    static method Create(capacity: int) returns (r: Result<FifoCache<K, V>>)
      ensures r.Err? <==> capacity <= 0
      ensures r.Err? ==> r.error == InvalidCapacity(capacity)
      ensures r.Ok? ==> fresh(r.value) && r.value.Valid() && r.value.capacity == capacity
      ensures r.Ok? ==> r.value.Contents == map[] && r.value.Queue == []
    {
      match CheckCapacity(capacity)
      case Some(e) =>
        r := Err(e);
      case None =>
        var c := new FifoCache(capacity);
        r := Ok(c);
    }

    /** head_ = tail_ = nullptr, nothing cached. */
    constructor (capacity: int)
      requires capacity > 0
      ensures Valid() && this.capacity == capacity
      ensures Contents == map[] && Queue == [] && size == 0 && head == Nil && tail == Nil
    {
      this.capacity := capacity;
      size := 0;
      index := map[];
      nodes := [];
      head := Nil;
      tail := Nil;
      queue := [];
      Queue := [];
      Contents := map[];
    }

    /** addToTail: the detached node `n` becomes the newest; on an empty queue it is also the oldest. */
    method AddToTail(n: int)
      requires Chained(nodes, head, tail, queue) && 0 <= n < |nodes| && n !in queue && nodes[n].next == Nil
      modifies this`nodes, this`head, this`tail, this`queue
      ensures Chained(nodes, head, tail, queue) && queue == old(queue) + [n] && tail == n
      ensures old(queue) == [] ==> head == n
      ensures |nodes| == |old(nodes)| && KeepsEntries(old(nodes), nodes)
    {
      ChainedAppend(nodes, head, tail, queue, n);
      if tail == Nil {
        head := n;
        tail := n;
      } else {
        nodes := nodes[tail := nodes[tail].(next := n)];
        tail := n;
      }
      queue := queue + [n];
    }

    /** removeHead: Nil on an empty queue; otherwise dequeues and returns the oldest node, resetting tail_ when it was the last. */
    method RemoveHead() returns (n: int)
      requires Chained(nodes, head, tail, queue)
      modifies this`head, this`tail, this`queue
      ensures Chained(nodes, head, tail, queue)
      ensures old(queue) == [] ==> n == Nil && queue == [] && head == old(head) && tail == old(tail)
      ensures old(queue) != [] ==> n == old(queue)[0] && queue == old(queue)[1..]
      ensures queue == [] ==> head == Nil && tail == Nil
    {
      if head == Nil {
        return Nil;
      }
      ChainedPop(nodes, head, tail, queue);
      n := head;
      head := nodes[head].next;
      if head == Nil {
        tail := Nil;
      }
      queue := queue[1..];
    }

    /** get: the value of a cached key, KeyNotFound otherwise; the queue is never reordered. */
    function Get(key: K): (r: Result<V>)
      reads this
      requires Valid()
      ensures GetSpec(Contents, Contents, key, r)
      ensures r.Err? ==> r.error == KeyNotFound("FIFO")
    {
      AgreeCovers(nodes, queue, Queue, index, Contents);
      if key !in index then Err(KeyNotFound("FIFO"))
      else
        AgreeLookup(nodes, queue, Queue, index, Contents, key);
        Ok(nodes[index[key]].value)
    }

    /**
     * put: a cached key gets the new value in place and keeps its position;
     * a new key joins at the newest end, the oldest key leaving first when
     * the cache is full.
     */
    method Put(key: K, value: V)
      requires Valid()
      modifies this`nodes, this`head, this`tail, this`queue, this`Queue, this`Contents, this`index, this`size
      ensures Valid()
      ensures PutSpec(old(Contents), Contents, key, value)
      ensures key in old(Contents) ==> Queue == old(Queue) && Contents == old(Contents)[key := value] && size == old(size)
      ensures key !in old(Contents) ==> Queue == Enqueue(old(Queue), key, capacity)
      ensures key !in old(Contents) && |old(Queue)| < capacity ==> Contents == old(Contents)[key := value]
      ensures key !in old(Contents) && |old(Queue)| == capacity ==>
        && Contents == (old(Contents) - {old(Queue)[0]})[key := value]
        && EvictsOnly(old(Contents), Contents, old(Queue)[0])
    {
      AgreeCovers(nodes, queue, Queue, index, Contents);
      if key in index {
        PutExisting(key, value);
        PutUpdates(old(Contents), key, value);
      } else {
        PutNew(key, value);
        if capacity <= |old(Queue)| {
          PutEvicts(old(Contents), old(Queue)[0], key, value);
        } else {
          PutInserts(old(Contents), key, value);
        }
      }
    }

    /** put of a cached key: it->second->value = value, nothing else changes. */
    method PutExisting(key: K, value: V)
      requires Valid() && key in index
      modifies this`nodes, this`Contents
      ensures Valid() && Contents == old(Contents)[key := value]
    {
      var n := index[key];
      AgreeSetValue(nodes, queue, Queue, index, Contents, key, value);
      ChainedFrame(nodes, nodes[n := nodes[n].(value := value)], head, tail, queue);
      nodes := nodes[n := nodes[n].(value := value)];
      Contents := Contents[key := value];
    }

    /** put of a new key: allocate its node, evict the head when full, append the node at the tail. */
    method PutNew(key: K, value: V)
      requires Valid() && key !in index
      modifies this`nodes, this`head, this`tail, this`queue, this`Queue, this`Contents, this`index, this`size
      ensures Valid()
      ensures Queue == Enqueue(old(Queue), key, capacity)
      ensures Contents == if capacity <= |old(Queue)| then (old(Contents) - {old(Queue)[0]})[key := value] else old(Contents)[key := value]
    {
      var m := |nodes|;
      ChainedFrame(nodes, nodes + [FifoNode(key, value, Nil)], head, tail, queue);
      AgreeFrame(nodes, nodes + [FifoNode(key, value, Nil)], queue, Queue, index, Contents);
      nodes := nodes + [FifoNode(key, value, Nil)];
      if size >= capacity {
        EvictOldest();
      }
      LinkNew(m, key, value);
    }

    /** The eviction branch of put: removeHead, then erase its key from the index and size_--. */
    method EvictOldest()
      requires Valid() && size >= capacity
      modifies this`head, this`tail, this`queue, this`Queue, this`Contents, this`index, this`size
      ensures Valid() && size == old(size) - 1
      ensures Queue == old(Queue)[1..] && index == old(index) - {old(Queue)[0]}
      ensures Contents == old(Contents) - {old(Queue)[0]}
    {
      AgreeDropFirst(nodes, queue, Queue, index, Contents);
      var oldest := RemoveHead();
      if oldest != Nil {
        index := index - {nodes[oldest].key};
        size := size - 1;
      }
      Contents := Contents - {Queue[0]};
      Queue := Queue[1..];
    }

    /** The insertion branch of put: addToTail(new_node), cache_[key] = new_node, size_++. */
    method LinkNew(m: int, key: K, value: V)
      requires Valid() && size < capacity && key !in index
      requires 0 <= m < |nodes| && nodes[m] == FifoNode(key, value, Nil)
      modifies this`nodes, this`head, this`tail, this`queue, this`Queue, this`Contents, this`index, this`size
      ensures Valid() && size == old(size) + 1
      ensures Queue == old(Queue) + [key] && Contents == old(Contents)[key := value]
    {
      AgreeCovers(nodes, queue, Queue, index, Contents);
      AgreeAppend(nodes, queue, Queue, index, Contents, m, key, value);
      AddToTail(m);
      AgreeFrame(old(nodes), nodes, queue, Queue + [key], index[key := m], Contents[key := value]);
      index := index[key := m];
      size := size + 1;
      Contents := Contents[key := value];
      Queue := Queue + [key];
    }

    /** contains: whether the key is cached; nothing changes. */
    function Contains(key: K): (b: bool)
      reads this
      requires Valid()
      ensures b <==> key in Contents
    {
      AgreeCovers(nodes, queue, Queue, index, Contents);
      key in index
    }

    /** size: the number of cached entries, never more than the capacity. */
    function Size(): (n: int)
      reads this
      requires Valid()
      ensures n == |Contents| && n <= capacity
    {
      size
    }

    /** capacity: positive, and bounds the number of entries. */
    function Capacity(): (n: int)
      reads this
      requires Valid()
      ensures n > 0 && |Contents| <= n
    {
      capacity
    }

    /** empty: nothing is cached. */
    function Empty(): (b: bool)
      reads this
      requires Valid()
      ensures b <==> Contents == map[]
    {
      size == 0
    }

    /** clear: every entry leaves and the queue pointers are reset. */
    method Clear()
      requires Valid()
      modifies this`head, this`tail, this`queue, this`Queue, this`Contents, this`index, this`size
      ensures Valid() && Contents == map[] && Queue == [] && head == Nil && tail == Nil
    {
      index := map[];
      size := 0;
      head := Nil;
      tail := Nil;
      queue := [];
      Queue := [];
      Contents := map[];
    }

    function PolicyName(): string
    {
      "FIFO"
    }
  }
}
