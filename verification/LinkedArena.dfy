/**
 * Doubly linked lists with head and tail sentinels, kept in an arena: a
 * sequence of slots addressed by integer handles that stand for the node
 * pointers of the C++ code (`Nil` for nullptr). LruCache keeps one such
 * list. (The FrequencyBucket lists of LfuCache are linked the same way; the
 * Lfu module keeps them as sequences of keys.)
 *
 * The ghost `list` names the real nodes between the two sentinels, from the
 * head (most recently used) to the tail (least recently used). `Unlink` and
 * `LinkFront` perform exactly the pointer writes of removeNode and addToHead.
 */
module LinkedArena {
  import opened Sequences

  /** The null pointer. */
  const Nil: int := -1

  /** A list-end sentinel, or a node carrying an item; both have prev/next links. */
  datatype Slot<T> = Sentinel(prev: int, next: int) | Node(item: T, prev: int, next: int)

  /** `list` is the chain of nodes linked from sentinel `head` to sentinel `tail` in arena `a`. */
  ghost predicate Linked<T>(a: seq<Slot<T>>, head: int, tail: int, list: seq<int>)
  {
    && 0 <= head < |a| && 0 <= tail < |a| && head != tail
    && a[head].Sentinel? && a[tail].Sentinel?
    && Distinct(list)
    && (forall i :: 0 <= i < |list| ==> 0 <= list[i] < |a| && a[list[i]].Node?)
    && (list == [] ==> a[head].next == tail && a[tail].prev == head)
    && (list != [] ==> a[head].next == list[0] && a[list[0]].prev == head)
    && (list != [] ==> a[tail].prev == Last(list) && a[Last(list)].next == tail)
    && (forall i, j :: 0 <= i && j == i + 1 && j < |list| ==> a[list[i]].next == list[j] && a[list[j]].prev == list[i])
  }

  /** Every node of `a` is a node of `b` with the same item; `b` may be longer. */
  ghost predicate KeepsItems<T>(a: seq<Slot<T>>, b: seq<Slot<T>>)
  {
    && |a| <= |b|
    && (forall i :: 0 <= i < |a| && a[i].Node? ==> b[i].Node? && b[i].item == a[i].item)
  }

  /** The slot with its prev link rewritten: `node->prev = p`. */
  function WithPrev<T>(s: Slot<T>, p: int): (r: Slot<T>)
    ensures r.prev == p && r.next == s.next && r.Node? == s.Node?
    ensures s.Node? ==> r.item == s.item
  {
    match s
    case Sentinel(_, next) => Sentinel(p, next)
    case Node(item, _, next) => Node(item, p, next)
  }

  /** The slot with its next link rewritten: `node->next = n`. */
  function WithNext<T>(s: Slot<T>, n: int): (r: Slot<T>)
    ensures r.next == n && r.prev == s.prev && r.Node? == s.Node?
    ensures s.Node? ==> r.item == s.item
  {
    match s
    case Sentinel(prev, _) => Sentinel(prev, n)
    case Node(item, prev, _) => Node(item, prev, n)
  }

  /** The node with its item replaced and its links kept: `node->value = value`. */
  function WithItem<T>(s: Slot<T>, x: T): (r: Slot<T>)
    requires s.Node?
    ensures r.Node? && r.item == x && r.prev == s.prev && r.next == s.next
  {
    Node(x, s.prev, s.next)
  }

  /** removeNode: node->prev->next = node->next; node->next->prev = node->prev. */
  function Unlink<T>(a: seq<Slot<T>>, n: int): seq<Slot<T>>
    requires 0 <= n < |a| && 0 <= a[n].prev < |a| && 0 <= a[n].next < |a|
  {
    var pr, nx := a[n].prev, a[n].next;
    var a1 := a[pr := WithNext(a[pr], nx)];
    a1[nx := WithPrev(a1[nx], pr)]
  }

  /**
   * addToHead: node->prev = head; node->next = head->next;
   * head->next->prev = node; head->next = node.
   */
  function LinkFront<T>(a: seq<Slot<T>>, head: int, n: int): seq<Slot<T>>
    requires 0 <= head < |a| && 0 <= n < |a| && n != head && 0 <= a[head].next < |a|
  {
    var a1 := a[n := WithPrev(a[n], head)];
    var a2 := a1[n := WithNext(a1[n], a1[head].next)];
    var first := a2[head].next;
    var a3 := a2[first := WithPrev(a2[first], n)];
    a3[head := WithNext(a3[head], n)]
  }

  /** head->next = tail; tail->prev = head: the list of a fresh bucket, or of a cleared cache. */
  function Relink<T>(a: seq<Slot<T>>, head: int, tail: int): seq<Slot<T>>
    requires 0 <= head < |a| && 0 <= tail < |a|
  {
    var a1 := a[head := WithNext(a[head], tail)];
    a1[tail := WithPrev(a1[tail], head)]
  }

  /** Relinking two sentinels leaves an empty list between them. */
  lemma RelinkEmpty<T>(a: seq<Slot<T>>, head: int, tail: int)
    requires 0 <= head < |a| && 0 <= tail < |a| && head != tail
    requires a[head].Sentinel? && a[tail].Sentinel?
    ensures Linked(Relink(a, head, tail), head, tail, [])
    ensures |Relink(a, head, tail)| == |a| && KeepsItems(a, Relink(a, head, tail))
  {
  }

  /** Unlinking the node at position `p` cuts it out of the list; all items stay put. */
  lemma UnlinkCuts<T>(a: seq<Slot<T>>, head: int, tail: int, list: seq<int>, p: int)
    requires Linked(a, head, tail, list) && 0 <= p < |list|
    ensures 0 <= a[list[p]].prev < |a| && 0 <= a[list[p]].next < |a|
    ensures Linked(Unlink(a, list[p]), head, tail, list[..p] + list[p + 1..])
    ensures |Unlink(a, list[p])| == |a| && KeepsItems(a, Unlink(a, list[p]))
    ensures Unlink(a, list[p])[list[p]] == a[list[p]]
  {
    var n := list[p];
    var pr := if p == 0 then head else list[p - 1];
    var nx := if p == |list| - 1 then tail else list[p + 1];
    assert a[n].prev == pr;
    assert a[n].next == nx;
    assert pr != n && nx != n && pr != nx by {
      if 0 < p < |list| - 1 { assert list[p - 1] != list[p + 1]; }
    }
    var b := Unlink(a, n);
    UnlinkPointwise(a, n);
    UnlinkRelinks(a, b, head, tail, list, p, pr, nx);
  }

  /** Redirecting the neighbours of position `p` past it leaves a list without that position. */
  lemma UnlinkRelinks<T>(a: seq<Slot<T>>, b: seq<Slot<T>>, head: int, tail: int, list: seq<int>, p: int, pr: int, nx: int)
    requires Linked(a, head, tail, list) && 0 <= p < |list|
    requires pr == (if p == 0 then head else list[p - 1]) && nx == (if p == |list| - 1 then tail else list[p + 1])
    requires |b| == |a| && pr != nx
    requires b[pr].next == nx && b[pr].prev == a[pr].prev && b[nx].prev == pr && b[nx].next == a[nx].next
    requires b[pr].Node? == a[pr].Node? && b[nx].Node? == a[nx].Node?
    requires forall x :: 0 <= x < |a| && x != pr && x != nx ==> b[x] == a[x]
    ensures Linked(b, head, tail, list[..p] + list[p + 1..])
  {
    var r := list[..p] + list[p + 1..];
    assert Distinct(r) && |r| == |list| - 1 by { CutDistinct(list, p); }
    assert forall i :: 0 <= i < |r| ==> 0 <= r[i] < |b| && b[r[i]].Node? by {
      assert forall i :: 0 <= i < |r| ==> r[i] == list[if i < p then i else i + 1];
    }
    UnlinkCutsEnds(a, b, head, tail, list, p, pr, nx);
    UnlinkCutsPairs(a, b, head, tail, list, p, pr, nx);
  }

  /** The sentinels' links after unlinking position `p`. */
  lemma UnlinkCutsEnds<T>(a: seq<Slot<T>>, b: seq<Slot<T>>, head: int, tail: int, list: seq<int>, p: int, pr: int, nx: int)
    requires Linked(a, head, tail, list) && 0 <= p < |list|
    requires pr == (if p == 0 then head else list[p - 1]) && nx == (if p == |list| - 1 then tail else list[p + 1])
    requires |b| == |a| && pr != nx
    requires b[pr].next == nx && b[pr].prev == a[pr].prev && b[nx].prev == pr && b[nx].next == a[nx].next
    requires forall x :: 0 <= x < |a| && x != pr && x != nx ==> b[x] == a[x]
    ensures var r := list[..p] + list[p + 1..];
      && (r == [] ==> b[head].next == tail && b[tail].prev == head)
      && (r != [] ==> b[head].next == r[0] && b[r[0]].prev == head)
      && (r != [] ==> b[tail].prev == Last(r) && b[Last(r)].next == tail)
  {
    var r := list[..p] + list[p + 1..];
    if r != [] {
      if p == 0 {
        assert r[0] == nx;
      } else {
        assert r[0] == list[0] && list[0] != nx && head != nx && head != pr;
      }
      if p == |list| - 1 {
        assert Last(r) == pr;
      } else {
        assert Last(r) == Last(list) && Last(list) != pr && tail != pr && tail != nx;
      }
    }
  }

  /** The links between consecutive nodes after unlinking position `p`. */
  lemma UnlinkCutsPairs<T>(a: seq<Slot<T>>, b: seq<Slot<T>>, head: int, tail: int, list: seq<int>, p: int, pr: int, nx: int)
    requires Linked(a, head, tail, list) && 0 <= p < |list|
    requires pr == (if p == 0 then head else list[p - 1]) && nx == (if p == |list| - 1 then tail else list[p + 1])
    requires |b| == |a| && pr != nx
    requires b[pr].next == nx && b[pr].prev == a[pr].prev && b[nx].prev == pr && b[nx].next == a[nx].next
    requires forall x :: 0 <= x < |a| && x != pr && x != nx ==> b[x] == a[x]
    ensures var r := list[..p] + list[p + 1..];
      forall i :: 0 < i < |r| ==> b[r[i - 1]].next == r[i] && b[r[i]].prev == r[i - 1]
  {
    var r := list[..p] + list[p + 1..];
    forall i | 0 < i < |r|
      ensures b[r[i - 1]].next == r[i] && b[r[i]].prev == r[i - 1]
    {
      if i < p {
        assert r[i - 1] == list[i - 1] && r[i] == list[i];
        assert list[i - 1] != pr && list[i - 1] != nx && list[i] != nx;
      } else if i == p {
        assert r[i - 1] == pr && r[i] == nx;
      } else {
        assert r[i - 1] == list[i] && r[i] == list[i + 1];
        assert list[i] != pr && list[i + 1] != pr && list[i + 1] != nx;
      }
    }
  }

  /** What Unlink changes: the predecessor's next link and the successor's prev link. */
  lemma UnlinkPointwise<T>(a: seq<Slot<T>>, n: int)
    requires 0 <= n < |a| && 0 <= a[n].prev < |a| && 0 <= a[n].next < |a| && a[n].prev != a[n].next
    ensures |Unlink(a, n)| == |a|
    ensures Unlink(a, n)[a[n].prev] == WithNext(a[a[n].prev], a[n].next)
    ensures Unlink(a, n)[a[n].next] == WithPrev(a[a[n].next], a[n].prev)
    ensures forall x :: 0 <= x < |a| && x != a[n].prev && x != a[n].next ==> Unlink(a, n)[x] == a[x]
  {
  }

  /** Linking a detached node in after the head sentinel puts it first; all items stay put. */
  lemma LinkFrontPrepends<T>(a: seq<Slot<T>>, head: int, tail: int, list: seq<int>, n: int)
    requires Linked(a, head, tail, list)
    requires 0 <= n < |a| && a[n].Node? && n !in list
    ensures n != head && 0 <= a[head].next < |a|
    ensures Linked(LinkFront(a, head, n), head, tail, [n] + list)
    ensures |LinkFront(a, head, n)| == |a| && KeepsItems(a, LinkFront(a, head, n))
  {
    var first := a[head].next;
    assert first == if list == [] then tail else list[0];
    assert first != n && first != head;
    var b := LinkFront(a, head, n);
    assert |b| == |a|;
    assert b[head].Sentinel? && b[head].next == n && b[head].prev == a[head].prev;
    assert b[n].Node? && b[n].item == a[n].item && b[n].prev == head && b[n].next == first;
    assert b[first].Node? == a[first].Node? && b[first].prev == n && b[first].next == a[first].next;
    assert a[first].Node? ==> b[first].item == a[first].item;
    assert forall x :: 0 <= x < |a| && x != head && x != n && x != first ==> b[x] == a[x];
    FrontRelinks(a, b, head, tail, list, n, first);
  }

  /** Splicing the detached node `n` between the head sentinel and the first node `first` puts it first. */
  lemma FrontRelinks<T>(a: seq<Slot<T>>, b: seq<Slot<T>>, head: int, tail: int, list: seq<int>, n: int, first: int)
    requires Linked(a, head, tail, list)
    requires 0 <= n < |a| && a[n].Node? && n !in list && n != head && n != tail
    requires first == (if list == [] then tail else list[0]) && first != head && first != n
    requires |b| == |a|
    requires b[head].Sentinel? && b[head].next == n
    requires b[n].Node? && b[n].prev == head && b[n].next == first
    requires b[first].Node? == a[first].Node? && b[first].prev == n && b[first].next == a[first].next
    requires forall x :: 0 <= x < |a| && x != head && x != n && x != first ==> b[x] == a[x]
    ensures Linked(b, head, tail, [n] + list)
  {
    var r := [n] + list;
    assert Distinct(r) by {
      forall i, j | 0 <= i < j < |r| ensures r[i] != r[j] {
        if i == 0 { assert r[j] == list[j - 1]; }
      }
    }
    assert forall i :: 0 < i < |r| ==> r[i] == list[i - 1];
    if list == [] {
      assert first == tail;
    } else {
      assert Last(r) == Last(list);
      assert Last(list) != first ==> b[Last(list)] == a[Last(list)];
    }
    forall i | 0 < i < |r|
      ensures b[r[i - 1]].next == r[i] && b[r[i]].prev == r[i - 1]
    {
      if i > 1 {
        assert list[i - 1] != first && list[i - 2] != n && list[i - 2] != head;
      }
    }
  }

  lemma KeepsItemsTrans<T>(a: seq<Slot<T>>, b: seq<Slot<T>>, c: seq<Slot<T>>)
    requires KeepsItems(a, b) && KeepsItems(b, c)
    ensures KeepsItems(a, c)
  {
  }

  /** Replacing the item of a listed node keeps the list linked. */
  lemma LinkedWithItem<T>(a: seq<Slot<T>>, head: int, tail: int, list: seq<int>, n: int, x: T)
    requires Linked(a, head, tail, list) && 0 <= n < |a| && a[n].Node?
    ensures Linked(a[n := WithItem(a[n], x)], head, tail, list)
  {
    var b := a[n := WithItem(a[n], x)];
    assert forall i :: 0 <= i < |a| ==> b[i].prev == a[i].prev && b[i].next == a[i].next && b[i].Node? == a[i].Node?;
  }

  /** A list is undisturbed by changes to slots outside it and its sentinels, and by growth of the arena. */
  lemma LinkedFrame<T>(a: seq<Slot<T>>, b: seq<Slot<T>>, head: int, tail: int, list: seq<int>)
    requires Linked(a, head, tail, list)
    requires |a| <= |b| && b[head] == a[head] && b[tail] == a[tail]
    requires forall i :: 0 <= i < |list| ==> b[list[i]] == a[list[i]]
    ensures Linked(b, head, tail, list)
  {
  }
}
