/**
 The least-frequently-used policy: a multimap from frequency to key, kept sorted, and an index into it.
 The multimap is a list of frequencies beside a list of nodes, position by position.
 */
module LfuCachePolicy {
  import opened NodeList

  ghost predicate Sorted(s: seq<nat>)
  {
    forall i, j :: 0 <= i < j < |s| ==> s[i] <= s[j]
  }

  // Where a multimap inserts an element hinted at the end: after the last one that is not greater.
  function UpperBound(s: seq<nat>, f: nat): (p: nat)
    ensures p <= |s|
    ensures p > 0 ==> s[p - 1] <= f
    ensures forall i :: p <= i < |s| ==> s[i] > f
  {
    if s == [] then 0
    else if s[|s| - 1] <= f then |s|
    else UpperBound(s[..|s| - 1], f)
  }

  lemma SortedInsert(s: seq<nat>, p: nat, f: nat)
    requires Sorted(s) && p <= |s|
    requires p > 0 ==> s[p - 1] <= f
    requires p < |s| ==> f <= s[p]
    ensures Sorted(InsertAt(s, p, f))
  {
  }

  lemma SortedRemove(s: seq<nat>, p: nat)
    requires Sorted(s) && p < |s|
    ensures Sorted(RemoveAt(s, p))
  {
  }

  // Position by position, the lists hold each live key with the frequency on record for it.
  ghost predicate Recorded<K>(frequencies: seq<nat>, nodes: seq<(nat, K)>, freqs: map<K, nat>)
  {
    && |frequencies| == |nodes|
    && forall i :: 0 <= i < |nodes| ==>
         nodes[i].1 in freqs && freqs[nodes[i].1] == frequencies[i] && frequencies[i] >= 1
  }

  lemma RecordedInsert<K>(frequencies: seq<nat>, nodes: seq<(nat, K)>, freqs: map<K, nat>, p: nat, f: nat,
                          node: (nat, K))
    requires Recorded(frequencies, nodes, freqs) && p <= |nodes| && node.1 !in freqs && f >= 1
    ensures Recorded(InsertAt(frequencies, p, f), InsertAt(nodes, p, node), freqs[node.1 := f])
  {
  }

  lemma KeysGrow<K>(m: map<K, nat>, m': map<K, nat>, k: K, v: nat, v': nat)
    requires m.Keys == m'.Keys
    ensures m[k := v].Keys == m'[k := v'].Keys
  {
  }

  lemma RecordedErase<K>(frequencies: seq<nat>, nodes: seq<(nat, K)>, freqs: map<K, nat>, p: nat)
    requires Recorded(frequencies, nodes, freqs) && p < |nodes|
    requires forall i, j :: 0 <= i < j < |nodes| ==> Keys(nodes)[i] != Keys(nodes)[j]
    ensures Recorded(RemoveAt(frequencies, p), RemoveAt(nodes, p), freqs - {nodes[p].1})
  {
    hide RemoveAt;
    forall i | 0 <= i < |nodes| && i != p
      ensures nodes[i].1 != nodes[p].1
    {
      assert Keys(nodes)[i] != Keys(nodes)[p];
    }
  }

  lemma InFront<T>(s: seq<T>, x: T)
    ensures InsertAt(s, 0, x) == [x] + s
  {
  }

  // The node of the key has been taken from p and put at q: behind every key that is not used more often.
  ghost predicate ReinsertedAt<K>(nodes: seq<(nat, K)>, key: K, freqs: map<K, nat>, nodes': seq<(nat, K)>,
                                  p: nat, q: nat)
    requires key in freqs && forall i :: 0 <= i < |nodes'| ==> nodes'[i].1 in freqs
  {
    && p < |nodes| && nodes[p].1 == key && q < |nodes| && nodes' == InsertAt(RemoveAt(nodes, p), q, nodes[p])
    && (forall i :: 0 <= i < q ==> freqs[nodes'[i].1] <= freqs[key])
    && forall i :: q < i < |nodes'| ==> freqs[nodes'[i].1] > freqs[key]
  }

  ghost predicate Reinserted<K>(nodes: seq<(nat, K)>, key: K, freqs: map<K, nat>, nodes': seq<(nat, K)>)
  {
    && key in freqs && (forall i :: 0 <= i < |nodes'| ==> nodes'[i].1 in freqs)
    && exists p, q :: ReinsertedAt(nodes, key, freqs, nodes', p, q)
  }

  lemma PlacedBehind<K>(rest: seq<nat>, others: seq<(nat, K)>, freqs: map<K, nat>, q: nat, f: nat, node: (nat, K))
    requires Sorted(rest) && Recorded(rest, others, freqs) && q == UpperBound(rest, f) && node.1 !in freqs
    ensures var nodes, now := InsertAt(others, q, node), freqs[node.1 := f];
            && (forall i :: 0 <= i < |nodes| ==> nodes[i].1 in now)
            && (forall i :: 0 <= i < q ==> now[nodes[i].1] <= f)
            && forall i :: q < i < |nodes| ==> now[nodes[i].1] > f
  {
    hide UpperBound;
  }

  class LfuPolicy<K(==, !new)> {
    var frequencies: seq<nat>
    var nodes: seq<(nat, K)>
    var lfuStorage: map<K, nat>
    var nextId: nat
    // The frequency of each live key.
    ghost var freqs: map<K, nat>

    ghost predicate Valid()
      reads this
    {
      && Sorted(frequencies)
      && Linked(nodes, lfuStorage, nextId)
      && Recorded(frequencies, nodes, freqs)
      && freqs.Keys == lfuStorage.Keys
    }

    constructor ()
      ensures Valid() && freqs == map[] && nodes == []
    {
      frequencies, nodes, lfuStorage, nextId, freqs := [], [], map[], 0, map[];
    }

    // Goes in front of everything, as frequency 1 is the least there is.
    method Insert(key: K)
      requires Valid() && key !in freqs
      modifies this
      ensures Valid() && freqs == old(freqs)[key := 1]
      ensures nodes == [(old(nextId), key)] + old(nodes)
    {
      FrontFits(key);
      InFront(nodes, (nextId, key));
      hide Linked, Recorded, Sorted, InsertAt;
      KeysGrow(freqs, lfuStorage, key, 1, nextId);
      LinkedInsert(nodes, lfuStorage, nextId, 0, nextId, key);
      SortedInsert(frequencies, 0, 1);
      RecordedInsert(frequencies, nodes, freqs, 0, 1, (nextId, key));
      frequencies := InsertAt(frequencies, 0, 1);
      nodes := InsertAt(nodes, 0, (nextId, key));
      lfuStorage := lfuStorage[key := nextId];
      nextId := nextId + 1;
      freqs := freqs[key := 1];
    }

    lemma FrontFits(key: K)
      requires Valid() && key !in freqs
      ensures key !in lfuStorage
      ensures forall i :: 0 <= i < |nodes| ==> nodes[i].0 != nextId
      ensures frequencies != [] ==> frequencies[0] >= 1
    {
    }

    // The position of a key's entry, and what follows for taking it out.
    method Locate(key: K) returns (p: nat)
      requires Valid() && key in freqs
      ensures p < |nodes| == |frequencies| && nodes[p] == (lfuStorage[key], key) && frequencies[p] == freqs[key]
    {
      ListedKey(nodes, lfuStorage, nextId, key);
      p := PositionOf(nodes, lfuStorage[key]);
      KeyOfNode(nodes, lfuStorage, nextId, p, key);
    }

    lemma TakenOut(p: nat)
      requires Valid() && p < |nodes|
      ensures Linked(RemoveAt(nodes, p), lfuStorage - {nodes[p].1}, nextId)
      ensures p < |frequencies| && Sorted(RemoveAt(frequencies, p))
      ensures Recorded(RemoveAt(frequencies, p), RemoveAt(nodes, p), freqs - {nodes[p].1})
      ensures forall i :: 0 <= i < |nodes| - 1 ==> RemoveAt(nodes, p)[i].0 != nodes[p].0
      ensures nodes[p].0 < nextId
    {
      hide RemoveAt;
      LinkedErase(nodes, lfuStorage, nextId, p);
      SortedRemove(frequencies, p);
      DistinctListed(nodes, lfuStorage, nextId);
      RecordedErase(frequencies, nodes, freqs, p);
    }

    // Takes the entry out and puts it back one higher, behind all entries that are not greater.
    method Touch(key: K)
      requires Valid() && key in freqs
      modifies this
      ensures Valid() && freqs == old(freqs)[key := old(freqs)[key] + 1]
      ensures Reinserted(old(nodes), key, freqs, nodes)
    {
      hide Linked, InsertAt, RemoveAt, Sorted, Recorded, UpperBound;
      var p := Locate(key);
      var f, node := frequencies[p] + 1, nodes[p];
      TakenOut(p);
      var rest, others := RemoveAt(frequencies, p), RemoveAt(nodes, p);
      var q := UpperBound(rest, f);
      PlacedBehind(rest, others, freqs - {key}, q, f, node);
      SortedInsert(rest, q, f);
      LinkedInsert(others, lfuStorage - {key}, nextId, q, node.0, key);
      RecordedInsert(rest, others, freqs - {key}, q, f, node);
      assert (lfuStorage - {key})[key := node.0] == lfuStorage;
      frequencies := InsertAt(rest, q, f);
      nodes := InsertAt(others, q, node);
      assert (freqs - {key})[key := f] == freqs[key := f];
      freqs := freqs[key := f];
      assert ReinsertedAt(old(nodes), key, freqs, nodes, p, q);
    }

    method Erase(key: K)
      requires Valid() && key in freqs
      modifies this
      ensures Valid() && freqs == old(freqs) - {key}
      ensures exists p :: 0 <= p < |old(nodes)| && old(nodes)[p].1 == key && nodes == RemoveAt(old(nodes), p)
    {
      hide Linked, RemoveAt, Sorted, Recorded;
      var p := Locate(key);
      TakenOut(p);
      frequencies := RemoveAt(frequencies, p);
      nodes := RemoveAt(nodes, p);
      lfuStorage := lfuStorage - {key};
      freqs := freqs - {key};
    }

    lemma Listed()
      requires Valid()
      ensures OncePerKey(nodes) && forall k :: k in freqs ==> freqs[k] >= 1
    {
      forall k | k in freqs
        ensures freqs[k] >= 1
      {
        ListedKey(nodes, lfuStorage, nextId, k);
      }
    }

    // The key at the front: live, and of minimal frequency.
    method ReplCandidate() returns (key: K)
      requires Valid() && freqs != map[]
      ensures key in freqs && forall k :: k in freqs ==> freqs[key] <= freqs[k]
      ensures nodes != [] && key == nodes[0].1
    {
      ghost var any :| any in freqs;
      ListedKey(nodes, lfuStorage, nextId, any);
      key := nodes[0].1;
      forall k | k in freqs
        ensures freqs[key] <= freqs[k]
      {
        var i :| 0 <= i < |nodes| && nodes[i] == (lfuStorage[k], k);
      }
    }
  }

  // ---- whole histories ----

  datatype Event<K> = Inserted(key: K) | Touched(key: K) | Erased(key: K)

  // The cache inserts absent keys only, and touches and erases live keys only.
  ghost predicate Proper<K(!new)>(h: seq<Event<K>>)
  {
    forall i :: 0 <= i < |h| ==> (h[i].Inserted? <==> !Live(h[..i], h[i].key))
  }

  predicate Live<K(==)>(h: seq<Event<K>>, k: K)
  {
    h != [] &&
    var e := h[|h| - 1];
    if e.key == k then !e.Erased? else Live(h[..|h| - 1], k)
  }

  // Touches of the key since it was last inserted.
  function TouchesSinceInsert<K(==)>(h: seq<Event<K>>, k: K): (n: nat)
  {
    if h == [] then 0
    else
      var e := h[|h| - 1];
      if e.key != k then TouchesSinceInsert(h[..|h| - 1], k)
      else if e.Touched? then TouchesSinceInsert(h[..|h| - 1], k) + 1
      else 0
  }

  // The position of the last event of the key; -1 if there is none.
  function LastEvent<K(==)>(h: seq<Event<K>>, k: K): (r: int)
    ensures -1 <= r < |h|
  {
    if h == [] then -1 else if h[|h| - 1].key == k then |h| - 1 else LastEvent(h[..|h| - 1], k)
  }

  // k comes before k' in the list: it is used less often, or as often. Keys never touched are listed with the one
  // inserted last in front, others with the one touched last behind.
  ghost predicate Before<K>(h: seq<Event<K>>, freqs: map<K, nat>, k: K, k': K)
    requires k in freqs && k' in freqs
  {
    freqs[k] < freqs[k'] ||
    (freqs[k] == freqs[k'] &&
     if freqs[k] == 1 then LastEvent(h, k) > LastEvent(h, k') else LastEvent(h, k) < LastEvent(h, k'))
  }

  ghost predicate Ranked<K>(h: seq<Event<K>>, nodes: seq<(nat, K)>, freqs: map<K, nat>)
  {
    && (forall i :: 0 <= i < |nodes| ==> nodes[i].1 in freqs)
    && forall i, j :: 0 <= i < j < |nodes| ==> Before(h, freqs, nodes[i].1, nodes[j].1)
  }

  lemma LastEventOne<K>(h: seq<Event<K>>, e: Event<K>, k: K)
    ensures LastEvent(h + [e], k) == if e.key == k then |h| else LastEvent(h, k)
  {
    assert (h + [e])[..|h|] == h;
  }

  lemma RankedInsert<K>(h: seq<Event<K>>, nodes: seq<(nat, K)>, freqs: map<K, nat>, node: (nat, K))
    requires Ranked(h, nodes, freqs) && node.1 !in freqs && forall k :: k in freqs ==> freqs[k] >= 1
    ensures Ranked(h + [Inserted(node.1)], [node] + nodes, freqs[node.1 := 1])
  {
    hide LastEvent;
    var h', nodes', freqs' := h + [Inserted(node.1)], [node] + nodes, freqs[node.1 := 1];
    forall i | 0 <= i < |nodes'|
      ensures LastEvent(h', nodes'[i].1) == if i == 0 then |h| else LastEvent(h, nodes'[i].1)
    {
      LastEventOne(h, Inserted(node.1), nodes'[i].1);
    }
    forall i, j | 0 <= i < j < |nodes'|
      ensures Before(h', freqs', nodes'[i].1, nodes'[j].1)
    {
      if i > 0 {
        assert Before(h, freqs, nodes[i - 1].1, nodes[j - 1].1);
      }
    }
  }

  lemma RankedErase<K>(h: seq<Event<K>>, nodes: seq<(nat, K)>, freqs: map<K, nat>, p: nat, key: K)
    requires Ranked(h, nodes, freqs) && p < |nodes| && nodes[p].1 == key
    requires forall i :: 0 <= i < |nodes| && i != p ==> nodes[i].1 != key
    ensures Ranked(h + [Erased(key)], RemoveAt(nodes, p), freqs - {key})
  {
    hide LastEvent, RemoveAt;
    var h', nodes', freqs' := h + [Erased(key)], RemoveAt(nodes, p), freqs - {key};
    forall i | 0 <= i < |nodes'|
      ensures LastEvent(h', nodes'[i].1) == LastEvent(h, nodes'[i].1)
    {
      LastEventOne(h, Erased(key), nodes'[i].1);
    }
    forall i, j | 0 <= i < j < |nodes'|
      ensures Before(h', freqs', nodes'[i].1, nodes'[j].1)
    {
      assert Before(h, freqs, nodes[if i < p then i else i + 1].1, nodes[if j < p then j else j + 1].1);
    }
  }

  lemma RankedTouch<K>(h: seq<Event<K>>, nodes: seq<(nat, K)>, freqs: map<K, nat>, key: K, nodes': seq<(nat, K)>,
                       p: nat, q: nat)
    requires Ranked(h, nodes, freqs) && key in freqs && freqs[key] >= 1
    requires forall i :: 0 <= i < |nodes'| ==> nodes'[i].1 in freqs
    requires ReinsertedAt(nodes, key, freqs[key := freqs[key] + 1], nodes', p, q)
    requires forall i :: 0 <= i < |nodes| && i != p ==> nodes[i].1 != key
    ensures Ranked(h + [Touched(key)], nodes', freqs[key := freqs[key] + 1])
  {
    hide LastEvent, RemoveAt, InsertAt;
    var h', freqs' := h + [Touched(key)], freqs[key := freqs[key] + 1];
    var rest := RemoveAt(nodes, p);
    forall i | 0 <= i < |nodes'|
      ensures LastEvent(h', nodes'[i].1) == if i == q then |h| else LastEvent(h, nodes'[i].1)
      ensures i != q ==> nodes'[i].1 != key
    {
      LastEventOne(h, Touched(key), nodes'[i].1);
    }
    forall i, j | 0 <= i < j < |nodes'|
      ensures Before(h', freqs', nodes'[i].1, nodes'[j].1)
    {
      if i != q && j != q {
        var i', j' := if i < q then i else i - 1, if j < q then j else j - 1;
        assert nodes'[i] == rest[i'] && nodes'[j] == rest[j'];
        assert Before(h, freqs, nodes[if i' < p then i' else i' + 1].1, nodes[if j' < p then j' else j' + 1].1);
      }
    }
  }

  lemma RankedAfterTouch<K>(h: seq<Event<K>>, nodes: seq<(nat, K)>, freqs: map<K, nat>, key: K, nodes': seq<(nat, K)>)
    requires Ranked(h, nodes, freqs) && key in freqs && freqs[key] >= 1 && OncePerKey(nodes)
    requires Reinserted(nodes, key, freqs[key := freqs[key] + 1], nodes')
    ensures Ranked(h + [Touched(key)], nodes', freqs[key := freqs[key] + 1])
  {
    hide Ranked, ReinsertedAt;
    var p, q :| ReinsertedAt(nodes, key, freqs[key := freqs[key] + 1], nodes', p, q);
    AtMostOnce(nodes, key, freqs[key := freqs[key] + 1], nodes', p, q);
    RankedTouch(h, nodes, freqs, key, nodes', p, q);
  }

  ghost predicate OncePerKey<K>(nodes: seq<(nat, K)>)
  {
    forall i, j :: 0 <= i < |nodes| && 0 <= j < |nodes| && i != j ==> nodes[i].1 != nodes[j].1
  }

  lemma AtMostOnce<K>(nodes: seq<(nat, K)>, key: K, freqs: map<K, nat>, nodes': seq<(nat, K)>, p: nat, q: nat)
    requires OncePerKey(nodes) && key in freqs && forall i :: 0 <= i < |nodes'| ==> nodes'[i].1 in freqs
    requires ReinsertedAt(nodes, key, freqs, nodes', p, q)
    ensures forall i :: 0 <= i < |nodes| && i != p ==> nodes[i].1 != key
  {
  }

  lemma RankedAfterErase<K>(h: seq<Event<K>>, nodes: seq<(nat, K)>, freqs: map<K, nat>, key: K, nodes': seq<(nat, K)>)
    requires Ranked(h, nodes, freqs) && OncePerKey(nodes)
    requires exists p :: 0 <= p < |nodes| && nodes[p].1 == key && nodes' == RemoveAt(nodes, p)
    ensures Ranked(h + [Erased(key)], nodes', freqs - {key})
  {
    hide Ranked, RemoveAt;
    var p :| 0 <= p < |nodes| && nodes[p].1 == key && nodes' == RemoveAt(nodes, p);
    RankedErase(h, nodes, freqs, p, key);
  }

  lemma NothingRanked<K>(h: seq<Event<K>>, freqs: map<K, nat>)
    ensures Ranked(h[..0], [], freqs)
  {
  }

  // The key ReplCandidate gives comes before every other live key.
  lemma CandidateIsFirst<K>(h: seq<Event<K>>, nodes: seq<(nat, K)>, freqs: map<K, nat>, k: K)
    requires Ranked(h, nodes, freqs) && nodes != [] && k in freqs && k != nodes[0].1
    requires exists i :: 0 <= i < |nodes| && nodes[i].1 == k
    ensures Before(h, freqs, nodes[0].1, k)
  {
  }

  method Replay<K(==, !new)>(h: seq<Event<K>>) returns (policy: LfuPolicy<K>)
    requires Proper(h)
    ensures policy.Valid()
    ensures forall k :: k in policy.freqs <==> Live(h, k)
    ensures forall k :: k in policy.freqs ==> policy.freqs[k] == 1 + TouchesSinceInsert(h, k)
    ensures Ranked(h, policy.nodes, policy.freqs)
  {
    hide Linked, Recorded, Sorted, Ranked, Reinserted, ReinsertedAt;
    policy := new LfuPolicy();
    NothingRanked(h, policy.freqs);
    for i := 0 to |h|
      invariant fresh(policy) && policy.Valid()
      invariant forall k :: k in policy.freqs <==> Live(h[..i], k)
      invariant forall k :: k in policy.freqs ==> policy.freqs[k] == 1 + TouchesSinceInsert(h[..i], k)
      invariant Ranked(h[..i], policy.nodes, policy.freqs)
    {
      assert h[..i + 1] == h[..i] + [h[i]];
      ghost var nodes, freqs := policy.nodes, policy.freqs;
      policy.Listed();
      assert h[..i + 1][..i] == h[..i];
      match h[i] {
        case Inserted(k) =>
          RankedInsert(h[..i], nodes, freqs, (policy.nextId, k));
          policy.Insert(k);
        case Touched(k) =>
          policy.Touch(k);
          RankedAfterTouch(h[..i], nodes, freqs, k, policy.nodes);
        case Erased(k) =>
          policy.Erase(k);
          RankedAfterErase(h[..i], nodes, freqs, k, policy.nodes);
      }
    }
    assert h[..|h|] == h;
  }
}
