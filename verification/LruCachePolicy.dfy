/**
 The least-recently-used policy: a recency list, most recently used node at the front, and its index.
 */
module LruCachePolicy {
  import opened NodeList
  import opened LruSpec

  lemma ErasedKeys<K>(queue: seq<(nat, K)>, finder: map<K, nat>, nextId: nat, p: nat)
    requires Linked(queue, finder, nextId) && p < |queue|
    ensures Keys(RemoveAt(queue, p)) == Without(Keys(queue), queue[p].1)
  {
    hide RemoveAt, Without;
    DistinctListed(queue, finder, nextId);
    WithoutOne(Keys(queue), p);
    KeysRemoveAt(queue, p);
  }

  lemma KeysInsertFront<K>(queue: seq<(nat, K)>, node: (nat, K))
    ensures Keys(InsertAt(queue, 0, node)) == [node.1] + Keys(queue)
  {
  }

  lemma LinkedSplice<K(!new)>(queue: seq<(nat, K)>, finder: map<K, nat>, nextId: nat, p: nat)
    requires Linked(queue, finder, nextId) && p < |queue|
    ensures Linked(InsertAt(RemoveAt(queue, p), 0, queue[p]), finder, nextId)
    ensures Keys(InsertAt(RemoveAt(queue, p), 0, queue[p])) == Front(Keys(queue), queue[p].1)
  {
    hide Without, RemoveAt, InsertAt, Linked, Keys;
    var rest := RemoveAt(queue, p);
    var k := queue[p].1;
    LinkedErase(queue, finder, nextId, p);
    ErasedKeys(queue, finder, nextId, p);
    KeysInsertFront(rest, queue[p]);
    NodeGone(queue, finder, nextId, p);
    LinkedInsert(rest, finder - {k}, nextId, 0, queue[p].0, k);
    assert (finder - {k})[k := queue[p].0] == finder;
  }

  class LruPolicy<K(==, !new)> {
    var lruQueue: seq<(nat, K)>
    var keyFinder: map<K, nat>
    var nextId: nat

    ghost predicate Valid()
      reads this
    {
      Linked(lruQueue, keyFinder, nextId)
    }

    // The keys, most recently used first.
    ghost function Order(): (r: seq<K>)
      reads this
    {
      Keys(lruQueue)
    }

    constructor ()
      ensures Valid() && Order() == []
    {
      lruQueue, keyFinder, nextId := [], map[], 0;
    }

    method Insert(key: K)
      requires Valid() && key !in Order()
      modifies this
      ensures Valid() && Order() == [key] + old(Order())
    {
      ListedKey(lruQueue, keyFinder, nextId, key);
      LinkedInsert(lruQueue, keyFinder, nextId, 0, nextId, key);
      lruQueue := InsertAt(lruQueue, 0, (nextId, key));
      keyFinder := keyFinder[key := nextId];
      nextId := nextId + 1;
    }

    // Splices the node to the front of the list; its id, and so the index, stays as it is.
    method Touch(key: K)
      requires Valid() && key in Order()
      modifies this
      ensures Valid() && Order() == Front(old(Order()), key)
    {
      hide Linked, Keys, Front, RemoveAt, InsertAt;
      ListedKey(lruQueue, keyFinder, nextId, key);
      var p := PositionOf(lruQueue, keyFinder[key]);
      KeyOfNode(lruQueue, keyFinder, nextId, p, key);
      LinkedSplice(lruQueue, keyFinder, nextId, p);
      lruQueue := InsertAt(RemoveAt(lruQueue, p), 0, lruQueue[p]);
    }

    method Erase(key: K)
      requires Valid() && key in Order()
      modifies this
      ensures Valid() && Order() == Without(old(Order()), key)
    {
      hide Linked, Keys, Without, RemoveAt;
      ListedKey(lruQueue, keyFinder, nextId, key);
      var p := PositionOf(lruQueue, keyFinder[key]);
      KeyOfNode(lruQueue, keyFinder, nextId, p, key);
      LinkedErase(lruQueue, keyFinder, nextId, p);
      ErasedKeys(lruQueue, keyFinder, nextId, p);
      lruQueue := RemoveAt(lruQueue, p);
      keyFinder := keyFinder - {key};
    }

    // The key at the back of the list.
    method ReplCandidate() returns (key: K)
      requires Valid() && Order() != []
      ensures key == Order()[|Order()| - 1]
    {
      key := lruQueue[|lruQueue| - 1].1;
    }
  }

  lemma PopOfAbsent<K, V>(s: Lru<K, V>, cap: nat, k: K)
    requires Coherent(s, cap) && cap > 0
    ensures k !in s.items ==> Step(s, cap, DoPop(k)) == s
  {
    hide Without;
    if k !in s.items {
      assert k !in s.order;
      WithoutAbsent(s.order, k);
      assert s.items - {k} == s.items;
    }
  }
}
