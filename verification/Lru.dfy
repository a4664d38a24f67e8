/**
 * LruCache: a hash index from keys to nodes of a doubly linked list bounded
 * by two sentinels. The node after the head sentinel is the most recently
 * used, the node before the tail sentinel the least recently used.
 *
 * The abstract state is `Contents` (the key/value map the cache answers for)
 * and `Order` (its keys, most recently used first). `Touch` and `Admit`
 * say how `get`/`put` reorder the keys; the lemmas about them are the
 * policy's promises: the touched key goes first, the others keep their
 * relative order, and a full cache drops exactly its last key.
 */
module Lru {
  import opened Sequences
  import opened LinkedArena
  import opened CachePolicy

  /** The key and value an LruNode carries. */
  datatype Entry<K, V> = Entry(key: K, value: V)

  /** The recency order after a hit on `key`: it moves to the front. */
  function Touch<K(==)>(order: seq<K>, key: K): seq<K>
  {
    [key] + Without(order, key)
  }

  /**
   * The recency order after admitting the absent `key`: it goes to the
   * front, and when the cache already holds `capacity` keys the last (least
   * recently used) one leaves first.
   */
  function Admit<K>(order: seq<K>, key: K, capacity: int): seq<K>
  {
    if 0 < |order| && capacity <= |order| then [key] + order[..|order| - 1] else [key] + order
  }

  /** A hit moves the key to the front and leaves every other key where it was relative to the rest. */
  lemma TouchReorders<K>(order: seq<K>, key: K)
    requires Distinct(order) && key in order
    ensures |Touch(order, key)| == |order| && Touch(order, key)[0] == key
    ensures Distinct(Touch(order, key))
    ensures forall x :: x in Touch(order, key) <==> x in order
    ensures Without(Touch(order, key), key) == Without(order, key)
  {
    var p :| 0 <= p < |order| && order[p] == key;
    WithoutAt(order, p);
    CutDistinct(order, p);
    var rest := Without(order, key);
    assert key !in rest;
    WithoutAbsent(rest, key);
    var r := Touch(order, key);
    assert Distinct(r) by {
      forall i, j | 0 <= i < j < |r| ensures r[i] != r[j] {
        if i == 0 { assert r[j] == rest[j - 1]; }
        else { assert r[i] == rest[i - 1] && r[j] == rest[j - 1]; }
      }
    }
    assert Without(r, key) == Without(rest, key);
  }

  /**
   * Admitting a new key puts it first; below capacity nothing leaves, at
   * capacity exactly the least recently used key leaves; the others keep
   * their relative order, and the order never grows past the capacity.
   */
  lemma AdmitBounded<K>(order: seq<K>, key: K, capacity: int)
    requires Distinct(order) && key !in order && 0 < capacity && |order| <= capacity
    ensures |Admit(order, key, capacity)| <= capacity && Admit(order, key, capacity)[0] == key
    ensures Distinct(Admit(order, key, capacity))
    ensures |order| < capacity ==> Without(Admit(order, key, capacity), key) == order
    ensures |order| == capacity ==> Without(Admit(order, key, capacity), key) == order[..|order| - 1]
    ensures |order| == capacity ==> Last(order) !in Admit(order, key, capacity)
    ensures forall x :: x in order && x != Last(order) ==> x in Admit(order, key, capacity)
  {
    var full := |order| == capacity;
    var kept := if full then order[..|order| - 1] else order;
    assert Admit(order, key, capacity) == [key] + kept;
    assert key !in kept;
    WithoutAbsent(kept, key);
    assert Without([key] + kept, key) == Without(kept, key);
    if full {
      CutDistinct(order, |order| - 1);
      assert order[..|order| - 1] + order[|order|..] == kept;
    }
    assert Distinct([key] + kept) by {
      var r := [key] + kept;
      forall i, j | 0 <= i < j < |r| ensures r[i] != r[j] {
        if i == 0 { assert r[j] == kept[j - 1]; }
        else { assert r[i] == order[i - 1] && r[j] == order[j - 1]; }
      }
    }
    forall x | x in order && x != Last(order) ensures x in [key] + kept {
      var i :| 0 <= i < |order| && order[i] == x;
      assert i < |order| - 1;
      assert kept[i] == x;
    }
  }

  /**
   * The index, the list and the abstract state describe the same entries,
   * position by position; the index and the contents hold no other keys,
   * since they have exactly as many keys as the list has nodes.
   */
  ghost predicate Agree<K, V>(nodes: seq<Slot<Entry<K, V>>>, list: seq<int>, order: seq<K>, index: map<K, int>, contents: map<K, V>)
  {
    && |order| == |list|
    && (forall i :: 0 <= i < |list| ==>
          && 0 <= list[i] < |nodes| && nodes[list[i]].Node?
          && nodes[list[i]].item.key == order[i]
          && order[i] in index && index[order[i]] == list[i]
          && order[i] in contents && contents[order[i]] == nodes[list[i]].item.value)
    && |index| == |list| && |contents| == |list|
  }

  /** Distinct nodes hold distinct keys. */
  lemma AgreeDistinct<K, V>(nodes: seq<Slot<Entry<K, V>>>, list: seq<int>, order: seq<K>, index: map<K, int>, contents: map<K, V>)
    requires Agree(nodes, list, order, index, contents) && Distinct(list)
    ensures Distinct(order)
  {
    forall i, j | 0 <= i < j < |order| ensures order[i] != order[j] {
      assert index[order[i]] == list[i] && index[order[j]] == list[j];
    }
  }

  /** Relinking nodes or allocating new ones keeps the agreement while the listed items stay. */
  lemma AgreeFrame<K, V>(nodes: seq<Slot<Entry<K, V>>>, nodes': seq<Slot<Entry<K, V>>>, list: seq<int>, order: seq<K>, index: map<K, int>, contents: map<K, V>)
    requires Agree(nodes, list, order, index, contents) && KeepsItems(nodes, nodes')
    ensures Agree(nodes', list, order, index, contents)
  {
  }

  /** Every indexed key, and every key of the contents, is listed: the positions cover them. */
  lemma AgreeCovers<K, V>(nodes: seq<Slot<Entry<K, V>>>, list: seq<int>, order: seq<K>, index: map<K, int>, contents: map<K, V>)
    requires Agree(nodes, list, order, index, contents) && Distinct(list)
    ensures forall k :: k in index <==> k in order
    ensures forall k :: k in contents <==> k in order
  {
    AgreeDistinct(nodes, list, order, index, contents);
    DistinctCard(order);
    var listed := set x | x in order;
    SubsetFull(listed, index.Keys);
    SubsetFull(listed, contents.Keys);
  }

  /** In a sequence without duplicates, touching the element at `p` moves just that position to the front. */
  lemma TouchAt<T>(s: seq<T>, p: int)
    requires Distinct(s) && 0 <= p < |s|
    ensures Touch(s, s[p]) == [s[p]] + (s[..p] + s[p + 1..])
  {
    WithoutAt(s, p);
  }

  /** Where each element lands when the element at `p` is touched. */
  lemma TouchIndex<T>(s: seq<T>, p: int, i: int)
    requires Distinct(s) && 0 <= p < |s| && 0 <= i < |s|
    ensures |Touch(s, s[p])| == |s|
    ensures Touch(s, s[p])[i] == s[if i == 0 then p else if i <= p then i - 1 else i]
  {
    TouchAt(s, p);
  }

  /** Listing the same entries in another order, consistently in list and order, keeps the agreement. */
  lemma AgreeReorder<K, V>(nodes: seq<Slot<Entry<K, V>>>, list: seq<int>, order: seq<K>, index: map<K, int>, contents: map<K, V>, list': seq<int>, order': seq<K>)
    requires Agree(nodes, list, order, index, contents)
    requires |list'| == |order'| == |list|
    requires forall i :: 0 <= i < |list'| ==> exists j :: 0 <= j < |list| && list'[i] == list[j] && order'[i] == order[j]
    ensures Agree(nodes, list', order', index, contents)
  {
  }

  /** Moving the node at position `p` to the front agrees with touching its key. */
  lemma AgreeTouch<K, V>(nodes: seq<Slot<Entry<K, V>>>, list: seq<int>, order: seq<K>, index: map<K, int>, contents: map<K, V>, p: int)
    requires Agree(nodes, list, order, index, contents) && Distinct(list) && 0 <= p < |list|
    ensures |Touch(list, list[p])| == |list|
    ensures Agree(nodes, Touch(list, list[p]), Touch(order, order[p]), index, contents)
  {
    var list', order' := Touch(list, list[p]), Touch(order, order[p]);
    TouchIndex(list, p, 0);
    TouchIndex(order, p, 0);
    forall i | 0 <= i < |list'|
      ensures exists j :: 0 <= j < |list| && list'[i] == list[j] && order'[i] == order[j]
    {
      TouchIndex(list, p, i);
      TouchIndex(order, p, i);
      var j := if i == 0 then p else if i <= p then i - 1 else i;
      assert list'[i] == list[j] && order'[i] == order[j];
    }
    AgreeReorder(nodes, list, order, index, contents, list', order');
  }

  /** A cached key's node is listed, and holds the key and its value. */
  lemma AgreeLookup<K, V>(nodes: seq<Slot<Entry<K, V>>>, list: seq<int>, order: seq<K>, index: map<K, int>, contents: map<K, V>, key: K)
    requires Agree(nodes, list, order, index, contents) && Distinct(list) && key in index
    ensures index[key] in list && 0 <= index[key] < |nodes| && nodes[index[key]].Node?
    ensures key in contents && nodes[index[key]].item == Entry(key, contents[key])
  {
    AgreeCovers(nodes, list, order, index, contents);
    var p :| 0 <= p < |order| && order[p] == key;
    assert list[p] == index[key];
  }

  /** After the node of `key` moved to the front (items kept), the list agrees with touching `key`. */
  lemma AgreeMoved<K, V>(nodes: seq<Slot<Entry<K, V>>>, nodes': seq<Slot<Entry<K, V>>>, list: seq<int>, order: seq<K>, index: map<K, int>, contents: map<K, V>, key: K)
    requires Agree(nodes, list, order, index, contents) && Distinct(list) && key in index
    requires KeepsItems(nodes, nodes')
    ensures |Touch(list, index[key])| == |list|
    ensures Agree(nodes', Touch(list, index[key]), Touch(order, key), index, contents)
  {
    AgreeCovers(nodes, list, order, index, contents);
    var p :| 0 <= p < |order| && order[p] == key;
    AgreeTouch(nodes, list, order, index, contents, p);
    AgreeFrame(nodes, nodes', Touch(list, index[key]), Touch(order, key), index, contents);
  }

  /** After the node of `key` got `value` and moved to the front (items otherwise kept), the list agrees with the update. */
  lemma AgreeUpdated<K, V>(nodes: seq<Slot<Entry<K, V>>>, nodes': seq<Slot<Entry<K, V>>>, list: seq<int>, order: seq<K>, index: map<K, int>, contents: map<K, V>, key: K, value: V)
    requires Agree(nodes, list, order, index, contents) && Distinct(list) && key in index
    requires 0 <= index[key] < |nodes| && nodes[index[key]].Node?
    requires KeepsItems(nodes[index[key] := WithItem(nodes[index[key]], Entry(key, value))], nodes')
    ensures |Touch(list, index[key])| == |list|
    ensures Agree(nodes', Touch(list, index[key]), Touch(order, key), index, contents[key := value])
  {
    AgreeCovers(nodes, list, order, index, contents);
    var p :| 0 <= p < |order| && order[p] == key;
    AgreeSetValue(nodes, list, order, index, contents, p, value);
    AgreeMoved(nodes[index[key] := WithItem(nodes[index[key]], Entry(key, value))], nodes', list, order, index, contents[key := value], key);
  }

  /** The last listed node holds the least recently used key. */
  lemma AgreeLast<K, V>(nodes: seq<Slot<Entry<K, V>>>, nodes': seq<Slot<Entry<K, V>>>, list: seq<int>, order: seq<K>, index: map<K, int>, contents: map<K, V>)
    requires Agree(nodes, list, order, index, contents) && KeepsItems(nodes, nodes') && list != []
    ensures 0 <= Last(list) < |nodes'| && nodes'[Last(list)].Node? && nodes'[Last(list)].item.key == Last(order)
  {
  }

  /** Dropping the last node of the list agrees with forgetting the least recently used key. */
  lemma AgreeDropLast<K, V>(nodes: seq<Slot<Entry<K, V>>>, list: seq<int>, order: seq<K>, index: map<K, int>, contents: map<K, V>)
    requires Agree(nodes, list, order, index, contents) && Distinct(list) && list != []
    ensures Agree(nodes, list[..|list| - 1], order[..|order| - 1], index - {Last(order)}, contents - {Last(order)})
  {
    AgreeDistinct(nodes, list, order, index, contents);
    var victim := Last(order);
    assert (index - {victim}).Keys == index.Keys - {victim};
    assert (contents - {victim}).Keys == contents.Keys - {victim};
  }

  /** Linking a new node holding (key, value) in front agrees with admitting the key. */
  lemma AgreeAdmit<K, V>(nodes: seq<Slot<Entry<K, V>>>, list: seq<int>, order: seq<K>, index: map<K, int>, contents: map<K, V>, m: int, key: K, value: V)
    requires Agree(nodes, list, order, index, contents)
    requires 0 <= m < |nodes| && nodes[m].Node? && nodes[m].item == Entry(key, value)
    requires key !in index && key !in contents
    ensures m !in list
    ensures Agree(nodes, [m] + list, [key] + order, index[key := m], contents[key := value])
  {
    assert m !in list by {
      forall i | 0 <= i < |list| ensures list[i] != m {
        assert order[i] in index;
      }
    }
    var order' := [key] + order;
    assert index[key := m].Keys == index.Keys + {key};
    assert contents[key := value].Keys == contents.Keys + {key};
    forall i | 0 < i < |order'| ensures order'[i] == order[i - 1] && order[i - 1] != key && ([m] + list)[i] == list[i - 1] && list[i - 1] != m {
    }
  }

  /** Writing a new value into the node at position `p` agrees with updating its key's value. */
  lemma AgreeSetValue<K, V>(nodes: seq<Slot<Entry<K, V>>>, list: seq<int>, order: seq<K>, index: map<K, int>, contents: map<K, V>, p: int, value: V)
    requires Agree(nodes, list, order, index, contents) && Distinct(list) && 0 <= p < |list|
    ensures Agree(nodes[list[p] := WithItem(nodes[list[p]], Entry(order[p], value))], list, order, index, contents[order[p] := value])
  {
    forall i | 0 <= i < |list| && i != p ensures list[i] != list[p] && order[i] != order[p] {
      assert index[order[i]] == list[i];
    }
  }

  class LruCache<K(==), V> {
    /** capacity_: fixed at construction. */
    const capacity: int
    /** size_: the number of cached entries. */
    var size: int
    /** cache_: key to the node that holds it. */
    var index: map<K, int>
    /** Every LruNode ever allocated; handles into it stand for the node pointers. */
    var nodes: seq<Slot<Entry<K, V>>>
    /** head_ and tail_: the sentinel handles. */
    const head: int
    const tail: int

    /** The listed nodes, from head to tail. */
    ghost var list: seq<int>
    /** The cached keys, most recently used first. */
    ghost var Order: seq<K>
    /** What the cache answers for. */
    ghost var Contents: map<K, V>

    ghost predicate Valid()
      reads this
    {
      && capacity > 0
      && Linked(nodes, head, tail, list)
      && Agree(nodes, list, Order, index, Contents)
      && size == |list| <= capacity
    }

    /** Construction: a capacity of at most 0 throws InvalidCapacityException. */
    static method Create(capacity: int) returns (r: Result<LruCache<K, V>>)
      ensures r.Err? <==> capacity <= 0
      ensures r.Err? ==> r.error == InvalidCapacity(capacity)
      ensures r.Ok? ==> fresh(r.value) && r.value.Valid() && r.value.capacity == capacity
      ensures r.Ok? ==> r.value.Contents == map[] && r.value.Order == []
    {
      match CheckCapacity(capacity)
      case Some(e) =>
        r := Err(e);
      case None =>
        var c := new LruCache(capacity);
        r := Ok(c);
    }

    /** The sentinels are linked to each other, and nothing is cached. */
    constructor (capacity: int)
      requires capacity > 0
      ensures Valid() && this.capacity == capacity
      ensures Contents == map[] && Order == [] && size == 0
    {
      this.capacity := capacity;
      size := 0;
      index := map[];
      head := 0;
      tail := 1;
      nodes := [Sentinel(Nil, Nil), Sentinel(Nil, Nil)];
      list := [];
      Order := [];
      Contents := map[];
      new;
      nodes := nodes[head := WithNext(nodes[head], tail)];
      nodes := nodes[tail := WithPrev(nodes[tail], head)];
      RelinkEmpty<Entry<K, V>>([Sentinel(Nil, Nil), Sentinel(Nil, Nil)], 0, 1);
    }

    /** addToHead: links the detached node `n` in right after the head sentinel. */
    method AddToHead(n: int)
      requires Linked(nodes, head, tail, list) && 0 <= n < |nodes| && nodes[n].Node? && n !in list
      modifies this`nodes, this`list
      ensures Linked(nodes, head, tail, list) && list == [n] + old(list)
      ensures |nodes| == |old(nodes)| && KeepsItems(old(nodes), nodes)
    {
      LinkFrontPrepends(nodes, head, tail, list, n);
      ghost var want := LinkFront(nodes, head, n);
      nodes := nodes[n := WithPrev(nodes[n], head)];
      nodes := nodes[n := WithNext(nodes[n], nodes[head].next)];
      var first := nodes[head].next;
      nodes := nodes[first := WithPrev(nodes[first], n)];
      nodes := nodes[head := WithNext(nodes[head], n)];
      assert nodes == want;
      list := [n] + list;
    }

    /** removeNode: bypasses the listed node `n`; `n` keeps its own links and item. */
    method RemoveNode(n: int)
      requires Linked(nodes, head, tail, list) && n in list
      modifies this`nodes, this`list
      ensures Linked(nodes, head, tail, list) && list == Without(old(list), n)
      ensures |nodes| == |old(nodes)| && KeepsItems(old(nodes), nodes) && 0 <= n < |nodes| && nodes[n] == old(nodes[n])
    {
      ghost var p :| 0 <= p < |list| && list[p] == n;
      UnlinkCuts(nodes, head, tail, list, p);
      WithoutAt(list, p);
      ghost var want := Unlink(nodes, n);
      var pr, nx := nodes[n].prev, nodes[n].next;
      nodes := nodes[pr := WithNext(nodes[pr], nx)];
      nodes := nodes[nx := WithPrev(nodes[nx], pr)];
      assert nodes == want;
      list := list[..p] + list[p + 1..];
    }

    /** moveToHead: removeNode, then addToHead. */
    method MoveToHead(n: int)
      requires Linked(nodes, head, tail, list) && n in list
      modifies this`nodes, this`list
      ensures Linked(nodes, head, tail, list) && list == Touch(old(list), n)
      ensures |nodes| == |old(nodes)| && KeepsItems(old(nodes), nodes)
    {
      RemoveNode(n);
      WithoutMembers(old(list), n);
      AddToHead(n);
    }

    /** removeTail: unlinks and returns the last real node (the cache is not empty). */
    method RemoveTail() returns (last: int)
      requires Linked(nodes, head, tail, list) && list != []
      modifies this`nodes, this`list
      ensures last == Last(old(list)) && list == old(list)[..|old(list)| - 1]
      ensures Linked(nodes, head, tail, list) && |nodes| == |old(nodes)| && KeepsItems(old(nodes), nodes)
    {
      last := nodes[tail].prev;
      WithoutAt(list, |list| - 1);
      RemoveNode(last);
    }

    /** get: the value of a cached key, which becomes the most recently used; KeyNotFound otherwise. */
    method Get(key: K) returns (r: Result<V>)
      requires Valid()
      modifies this`nodes, this`list, this`Order
      ensures Valid()
      ensures GetSpec(old(Contents), Contents, key, r)
      ensures r.Err? ==> r.error == KeyNotFound("LRU")
      ensures Order == if key in old(Contents) then Touch(old(Order), key) else old(Order)
      ensures index == old(index) && size == old(size)
    {
      AgreeCovers(nodes, list, Order, index, Contents);
      if key !in index {
        return Err(KeyNotFound("LRU"));
      }
      var n := index[key];
      AgreeLookup(nodes, list, Order, index, Contents, key);
      MoveToHead(n);
      AgreeMoved(old(nodes), nodes, old(list), Order, index, Contents, key);
      Order := Touch(Order, key);
      r := Ok(nodes[n].item.value);
    }

    /**
     * put: a cached key gets the new value and becomes the most recently
     * used; a new key is admitted at the front, evicting the least recently
     * used key first when the cache is full.
     */
    method Put(key: K, value: V)
      requires Valid()
      modifies this`nodes, this`list, this`Order, this`Contents, this`index, this`size
      ensures Valid()
      ensures PutSpec(old(Contents), Contents, key, value)
      ensures key in old(Contents) ==> Order == Touch(old(Order), key) && Contents == old(Contents)[key := value]
      ensures key !in old(Contents) ==> Order == Admit(old(Order), key, capacity)
      ensures key !in old(Contents) && |old(Order)| < capacity ==> Contents == old(Contents)[key := value]
      ensures key !in old(Contents) && |old(Order)| == capacity ==>
        && Contents == (old(Contents) - {Last(old(Order))})[key := value]
        && EvictsOnly(old(Contents), Contents, Last(old(Order)))
    {
      if key in index {
        PutExisting(key, value);
        PutUpdates(old(Contents), key, value);
      } else {
        PutNew(key, value);
        if capacity <= |old(Order)| {
          PutEvicts(old(Contents), Last(old(Order)), key, value);
        } else {
          PutInserts(old(Contents), key, value);
        }
      }
    }

    /** put of a cached key: node->value = value; moveToHead(node). */
    method PutExisting(key: K, value: V)
      requires Valid() && key in index
      modifies this`nodes, this`list, this`Order, this`Contents
      ensures Valid()
      ensures Order == Touch(old(Order), key) && Contents == old(Contents)[key := value]
    {
      var n := index[key];
      AgreeLookup(nodes, list, Order, index, Contents, key);
      LinkedWithItem(nodes, head, tail, list, n, Entry(key, value));
      nodes := nodes[n := WithItem(nodes[n], Entry(key, value))];
      ghost var updated := nodes;
      MoveToHead(n);
      AgreeUpdated(old(nodes), nodes, old(list), Order, index, Contents, key, value);
      Order := Touch(Order, key);
      Contents := Contents[key := value];
    }

    /** put of a new key: allocate its node, evict the tail when full, link the node in front. */
    method PutNew(key: K, value: V)
      requires Valid() && key !in index
      modifies this`nodes, this`list, this`Order, this`Contents, this`index, this`size
      ensures Valid()
      ensures Order == Admit(old(Order), key, capacity)
      ensures Contents == if capacity <= |old(Order)| then (old(Contents) - {Last(old(Order))})[key := value] else old(Contents)[key := value]
    {
      var m := |nodes|;
      LinkedFrame(nodes, nodes + [Node(Entry(key, value), Nil, Nil)], head, tail, list);
      AgreeFrame(nodes, nodes + [Node(Entry(key, value), Nil, Nil)], list, Order, index, Contents);
      nodes := nodes + [Node(Entry(key, value), Nil, Nil)];
      if size >= capacity {
        EvictLru();
      }
      LinkNew(m, key, value);
    }

    /** The eviction branch of put: removeTail, erase its key from the index, size_--. */
    method EvictLru()
      requires Valid() && size >= capacity
      modifies this`nodes, this`list, this`Order, this`Contents, this`index, this`size
      ensures Valid() && size == old(size) - 1 && |nodes| == |old(nodes)| && KeepsItems(old(nodes), nodes)
      ensures Order == old(Order)[..|old(Order)| - 1] && index == old(index) - {Last(old(Order))}
      ensures Contents == old(Contents) - {Last(old(Order))}
    {
      var last := RemoveTail();
      AgreeLast(old(nodes), nodes, old(list), Order, index, Contents);
      AgreeDropLast(old(nodes), old(list), Order, index, Contents);
      AgreeFrame(old(nodes), nodes, list, Order[..|Order| - 1], index - {Last(Order)}, Contents - {Last(Order)});
      index := index - {nodes[last].item.key};
      size := size - 1;
      Contents := Contents - {Last(Order)};
      Order := Order[..|Order| - 1];
    }

    /** The insertion branch of put: addToHead(new_node), cache_[key] = new_node, size_++. */
    method LinkNew(m: int, key: K, value: V)
      requires Valid() && size < capacity && key !in index
      requires 0 <= m < |nodes| && nodes[m].Node? && nodes[m].item == Entry(key, value)
      modifies this`nodes, this`list, this`Order, this`Contents, this`index, this`size
      ensures Valid() && size == old(size) + 1 && |nodes| == |old(nodes)|
      ensures Order == [key] + old(Order) && Contents == old(Contents)[key := value]
    {
      AgreeCovers(nodes, list, Order, index, Contents);
      AgreeAdmit(nodes, list, Order, index, Contents, m, key, value);
      AddToHead(m);
      AgreeFrame(old(nodes), nodes, list, [key] + Order, index[key := m], Contents[key := value]);
      index := index[key := m];
      size := size + 1;
      Contents := Contents[key := value];
      Order := [key] + Order;
    }

    /** contains: whether the key is cached; nothing changes. */
    function Contains(key: K): (b: bool)
      reads this
      requires Valid()
      ensures b <==> key in Contents
    {
      AgreeCovers(nodes, list, Order, index, Contents);
      key in index
    }

    /** size: the number of cached entries, never more than the capacity. */
    function Size(): (n: int)
      reads this
      requires Valid()
      ensures n == |Contents| && n <= capacity
    {
      size
    }

    /** capacity: positive, and bounds the number of entries. */
    function Capacity(): (n: int)
      reads this
      requires Valid()
      ensures n > 0 && |Contents| <= n
    {
      capacity
    }

    /** empty: nothing is cached. */
    function Empty(): (b: bool)
      reads this
      requires Valid()
      ensures b <==> Contents == map[]
    {
      size == 0
    }

    /** clear: every entry leaves, the sentinels are linked to each other again. */
    method Clear()
      requires Valid()
      modifies this`nodes, this`list, this`Order, this`Contents, this`index, this`size
      ensures Valid() && Contents == map[] && Order == []
    {
      RelinkEmpty(nodes, head, tail);
      index := map[];
      size := 0;
      nodes := nodes[head := WithNext(nodes[head], tail)];
      nodes := nodes[tail := WithPrev(nodes[tail], head)];
      list := [];
      Order := [];
      Contents := map[];
    }

    function PolicyName(): string
    {
      "LRU"
    }
  }
}
