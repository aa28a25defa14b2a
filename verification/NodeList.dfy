/**
 Lists whose nodes are found through an index. A node is a (node id, key) pair; the id plays the part of
 the list iterator that the index stores, and stays with the node when it moves.
 */
module NodeList {

  // A list without one of its nodes.
  function RemoveAt<T>(s: seq<T>, p: nat): (r: seq<T>)
    requires p < |s|
    ensures |r| == |s| - 1
    ensures forall i {:trigger r[i]} :: 0 <= i < |r| ==> r[i] == if i < p then s[i] else s[i + 1]
  {
    s[..p] + s[p + 1..]
  }

  // A list with a new node before position p.
  function InsertAt<T>(s: seq<T>, p: nat, x: T): (r: seq<T>)
    requires p <= |s|
    ensures |r| == |s| + 1
    ensures forall i {:trigger r[i]} :: 0 <= i < |r| ==> r[i] == if i < p then s[i] else if i == p then x else s[i - 1]
  {
    s[..p] + [x] + s[p..]
  }

  function Keys<K>(queue: seq<(nat, K)>): (r: seq<K>)
    ensures |r| == |queue|
    ensures forall i :: 0 <= i < |r| ==> r[i] == queue[i].1
  {
    seq(|queue|, i requires 0 <= i < |queue| => queue[i].1)
  }

  // Where a node is in the list.
  function PositionOf<K>(queue: seq<(nat, K)>, id: nat): (p: nat)
    requires exists i :: 0 <= i < |queue| && queue[i].0 == id
    ensures p < |queue| && queue[p].0 == id
  {
    if queue[0].0 == id then 0
    else
      assert exists i :: 0 <= i < |queue[1..]| && queue[1..][i].0 == id by {
        var i :| 0 <= i < |queue| && queue[i].0 == id;
        assert queue[1..][i - 1].0 == id;
      }
      1 + PositionOf(queue[1..], id)
  }

  // The list and its index agree: node ids are unique, and the index maps exactly the listed keys to their nodes.
  ghost predicate Linked<K>(queue: seq<(nat, K)>, finder: map<K, nat>, nextId: nat)
  {
    && (forall i, j :: 0 <= i < j < |queue| ==> queue[i].0 != queue[j].0)
    && (forall i :: 0 <= i < |queue| ==> queue[i].0 < nextId)
    && (forall i :: 0 <= i < |queue| ==> queue[i].1 in finder && finder[queue[i].1] == queue[i].0)
    && (forall k :: k in finder ==> (finder[k], k) in queue)
  }

  lemma DistinctListed<K>(queue: seq<(nat, K)>, finder: map<K, nat>, nextId: nat)
    requires Linked(queue, finder, nextId)
    ensures forall i, j :: 0 <= i < j < |queue| ==> Keys(queue)[i] != Keys(queue)[j]
  {
  }

  lemma ListedKey<K>(queue: seq<(nat, K)>, finder: map<K, nat>, nextId: nat, k: K)
    requires Linked(queue, finder, nextId)
    ensures k in Keys(queue) <==> k in finder
    ensures k in finder ==> exists i :: 0 <= i < |queue| && queue[i].0 == finder[k]
  {
  }

  lemma LinkedInsert<K(!new)>(queue: seq<(nat, K)>, finder: map<K, nat>, nextId: nat, p: nat, id: nat, key: K)
    requires Linked(queue, finder, nextId) && key !in finder && p <= |queue|
    requires forall i :: 0 <= i < |queue| ==> queue[i].0 != id
    ensures Linked(InsertAt(queue, p, (id, key)), finder[key := id], if id < nextId then nextId else id + 1)
  {
  }

  lemma StillIndexed<K>(queue: seq<(nat, K)>, finder: map<K, nat>, nextId: nat, p: nat, k: K)
    requires Linked(queue, finder, nextId) && p < |queue| && k in finder && k != queue[p].1
    ensures (finder[k], k) in RemoveAt(queue, p)
  {
  }

  lemma KeysRemoveAt<K>(queue: seq<(nat, K)>, p: nat)
    requires p < |queue|
    ensures Keys(RemoveAt(queue, p)) == RemoveAt(Keys(queue), p)
  {
  }

  lemma LinkedErase<K(!new)>(queue: seq<(nat, K)>, finder: map<K, nat>, nextId: nat, p: nat)
    requires Linked(queue, finder, nextId) && p < |queue|
    ensures Linked(RemoveAt(queue, p), finder - {queue[p].1}, nextId)
  {
    hide RemoveAt;
    forall k | k in finder - {queue[p].1}
      ensures (finder[k], k) in RemoveAt(queue, p)
    {
      StillIndexed(queue, finder, nextId, p, k);
    }
  }

  lemma KeyOfNode<K>(queue: seq<(nat, K)>, finder: map<K, nat>, nextId: nat, p: nat, key: K)
    requires Linked(queue, finder, nextId) && p < |queue| && key in finder && queue[p].0 == finder[key]
    ensures queue[p].1 == key
  {
  }

  lemma NodeGone<K>(queue: seq<(nat, K)>, finder: map<K, nat>, nextId: nat, p: nat)
    requires Linked(queue, finder, nextId) && p < |queue|
    ensures forall i :: 0 <= i < |queue| - 1 ==> RemoveAt(queue, p)[i].0 != queue[p].0
    ensures queue[p].0 < nextId && queue[p].1 in finder && finder[queue[p].1] == queue[p].0
  {
  }
}
