/**
 What a bounded cache with least-recently-used replacement means, as a fold over the operations on it:
 a recency list (most recent first), the items, and the pairs handed to the erase callback, in order.
 */
module LruSpec {
  import opened NodeList

  datatype Lru<K, V> = Lru(order: seq<K>, items: map<K, V>, erased: seq<(K, V)>)

  function Without<K(==)>(s: seq<K>, k: K): (r: seq<K>)
    ensures |r| <= |s|
    ensures forall x :: x in r ==> x in s && x != k
    ensures forall x :: x in s && x != k ==> x in r
  {
    if s == [] then [] else (if s[0] == k then [] else [s[0]]) + Without(s[1..], k)
  }

  function Front<K(==)>(order: seq<K>, k: K): (r: seq<K>)
  {
    [k] + Without(order, k)
  }

  ghost predicate Coherent<K, V>(s: Lru<K, V>, cap: nat)
  {
    && (forall i, j :: 0 <= i < j < |s.order| ==> s.order[i] != s.order[j])
    && (forall k :: k in s.order ==> k in s.items)
    && (forall k :: k in s.items ==> k in s.order)
    && |s.order| == |s.items| <= cap
  }

  function Evict<K(==), V>(s: Lru<K, V>): (r: Lru<K, V>)
    requires s.order != [] && s.order[|s.order| - 1] in s.items
  {
    var victim := s.order[|s.order| - 1];
    Lru(s.order[..|s.order| - 1], s.items - {victim}, s.erased + [(victim, s.items[victim])])
  }

  datatype Op<K, V> = DoPut(key: K, value: V) | DoGet(key: K) | DoPop(key: K) | DoRemove(key: K)

  function Step<K(==), V>(s: Lru<K, V>, cap: nat, op: Op<K, V>): (r: Lru<K, V>)
    requires Coherent(s, cap) && cap > 0
  {
    match op
    case DoPut(k, v) =>
      if k in s.items then Lru(Front(s.order, k), s.items[k := v], s.erased)
      else
        var room := if |s.items| + 1 > cap then Evict(s) else s;
        Lru([k] + room.order, room.items[k := v], room.erased)
    case DoGet(k) => if k in s.items then s.(order := Front(s.order, k)) else s
    case DoPop(k) => Lru(Without(s.order, k), s.items - {k}, s.erased)
    case DoRemove(k) =>
      if k in s.items then Lru(Without(s.order, k), s.items - {k}, s.erased + [(k, s.items[k])]) else s
  }

  // What an operation does to the items alone; a Put may drop one other item.
  ghost predicate ItemsChange<K, V>(m: map<K, V>, op: Op<K, V>, m': map<K, V>)
  {
    match op
    case DoPut(k, v) => k in m' && m'[k] == v && forall x :: x in m' && x != k ==> x in m && m'[x] == m[x]
    case DoGet(_) => m' == m
    case DoPop(k) => m' == m - {k}
    case DoRemove(k) => m' == m - {k}
  }

  lemma StepItems<K, V>(s: Lru<K, V>, cap: nat, op: Op<K, V>)
    requires Coherent(s, cap) && cap > 0
    ensures ItemsChange(s.items, op, Step(s, cap, op).items)
  {
    if op.DoRemove? && op.key !in s.items {
      assert s.items - {op.key} == s.items;
    }
  }

  lemma GetOfAbsent<K, V>(s: Lru<K, V>, cap: nat, k: K)
    requires Coherent(s, cap) && cap > 0
    ensures k !in s.items ==> Step(s, cap, DoGet(k)) == s
  {
  }

  // ---- the list after one step ----

  lemma {:induction false} WithoutOne<K>(s: seq<K>, p: nat)
    requires p < |s| && forall i, j :: 0 <= i < j < |s| ==> s[i] != s[j]
    ensures Without(s, s[p]) == RemoveAt(s, p)
  {
    if p == 0 {
      WithoutAbsent(s[1..], s[0]);
    } else {
      assert s[1..][p - 1] == s[p];
      WithoutOne(s[1..], p - 1);
    }
  }

  lemma {:induction false} WithoutAbsent<K>(s: seq<K>, k: K)
    requires forall i :: 0 <= i < |s| ==> s[i] != k
    ensures Without(s, k) == s
  {
    if s == [] {
    } else {
      WithoutAbsent(s[1..], k);
    }
  }

  lemma {:induction false} WithoutDistinct<K>(s: seq<K>, k: K)
    requires forall i, j :: 0 <= i < j < |s| ==> s[i] != s[j]
    ensures forall i, j :: 0 <= i < j < |Without(s, k)| ==> Without(s, k)[i] != Without(s, k)[j]
    ensures |Without(s, k)| == |s| - if k in s then 1 else 0
  {
    if s == [] {
    } else {
      var rest := s[1..];
      WithoutDistinct(rest, k);
      assert forall x :: x in rest ==> x != s[0];
      assert k in s <==> k == s[0] || k in rest;
      var w := Without(rest, k);
      assert forall i :: 0 <= i < |w| ==> w[i] in rest;
    }
  }

  lemma MapMinusOne<K, V>(m: map<K, V>, k: K)
    ensures |m - {k}| == |m| - if k in m then 1 else 0
  {
  }

  lemma FrontDistinct<K>(s: seq<K>, k: K)
    requires forall i, j :: 0 <= i < j < |s| ==> s[i] != s[j]
    ensures forall i, j :: 0 <= i < j < |Front(s, k)| ==> Front(s, k)[i] != Front(s, k)[j]
    ensures |Front(s, k)| == |s| + if k in s then 0 else 1
  {
    WithoutDistinct(s, k);
    assert forall x :: x in Without(s, k) ==> x != k;
  }

  lemma FrontMembers<K>(s: seq<K>, k: K)
    ensures forall x :: x in Front(s, k) <==> x == k || x in s
  {
  }

  lemma FrontCoherent<K, V>(s: Lru<K, V>, cap: nat, k: K, v: V)
    requires Coherent(s, cap) && k in s.items
    ensures Coherent(Lru(Front(s.order, k), s.items[k := v], s.erased), cap)
  {
    FrontDistinct(s.order, k);
    FrontMembers(s.order, k);
    var t := Lru(Front(s.order, k), s.items[k := v], s.erased);
    assert forall x :: x in t.order <==> x in s.order;
    assert forall i, j :: 0 <= i < j < |t.order| ==> t.order[i] != t.order[j];
    assert s.items[k := v].Keys == s.items.Keys;
    assert |t.order| == |s.order|;
    assert |t.items| == |s.items|;
  }

  lemma WithoutCoherent<K, V>(s: Lru<K, V>, cap: nat, k: K, erased: seq<(K, V)>)
    requires Coherent(s, cap)
    ensures Coherent(Lru(Without(s.order, k), s.items - {k}, erased), cap)
  {
    WithoutDistinct(s.order, k);
    MapMinusOne(s.items, k);
  }

  lemma InsertCoherent<K, V>(s: Lru<K, V>, cap: nat, k: K, v: V)
    requires Coherent(s, cap) && k !in s.items && |s.items| + 1 <= cap
    ensures Coherent(Lru([k] + s.order, s.items[k := v], s.erased), cap)
  {
  }

  lemma WithoutLast<K>(s: seq<K>)
    requires s != [] && forall i, j :: 0 <= i < j < |s| ==> s[i] != s[j]
    ensures Without(s, s[|s| - 1]) == s[..|s| - 1]
  {
    WithoutOne(s, |s| - 1);
    assert RemoveAt(s, |s| - 1) == s[..|s| - 1];
  }

  // Evicting is removing the key at the back.
  lemma EvictIsRemove<K, V>(s: Lru<K, V>, cap: nat)
    requires Coherent(s, cap) && s.order != [] && cap > 0
    ensures s.order[|s.order| - 1] in s.items
    ensures Evict(s) == Step(s, cap, DoRemove(s.order[|s.order| - 1]))
  {
    hide Without;
    var n := |s.order| - 1;
    assert s.order[n] in s.order;
    WithoutLast(s.order);
  }

  lemma EvictCoherent<K, V>(s: Lru<K, V>, cap: nat)
    requires Coherent(s, cap) && s.order != [] && cap > 0
    ensures Coherent(Evict(s), cap) && |Evict(s).items| == |s.items| - 1 < cap
  {
    hide Without;
    var n := |s.order| - 1;
    var victim := s.order[n];
    EvictIsRemove(s, cap);
    WithoutCoherent(s, cap, victim, Evict(s).erased);
    MapMinusOne(s.items, victim);
  }

  lemma EvictedStill<K, V>(s: Lru<K, V>, cap: nat, k: K)
    requires Coherent(s, cap) && s.items != map[] && k !in s.items
    ensures s.order != [] && s.order[|s.order| - 1] in s.items && k !in Evict(s).items
  {
  }

  lemma StepCoherent<K, V>(s: Lru<K, V>, cap: nat, op: Op<K, V>)
    requires Coherent(s, cap) && cap > 0
    ensures Coherent(Step(s, cap, op), cap)
  {
    hide Coherent, Front, Without;
    match op {
      case DoPut(k, v) =>
        if k in s.items {
          FrontCoherent(s, cap, k, v);
        } else if |s.items| + 1 > cap {
          EvictedStill(s, cap, k);
          EvictCoherent(s, cap);
          InsertCoherent(Evict(s), cap, k, v);
        } else {
          InsertCoherent(s, cap, k, v);
        }
      case DoGet(k) =>
        if k in s.items {
          FrontCoherent(s, cap, k, s.items[k]);
          assert s.items[k := s.items[k]] == s.items;
        }
      case DoPop(k) => WithoutCoherent(s, cap, k, s.erased);
      case DoRemove(k) =>
        if k in s.items {
          WithoutCoherent(s, cap, k, s.erased + [(k, s.items[k])]);
        }
    }
  }

  // ---- runs ----

  function After<K(==), V>(cap: nat, h: seq<Op<K, V>>): (r: Lru<K, V>)
    requires cap > 0
    ensures Coherent(r, cap)
  {
    if h == [] then Lru([], map[], [])
    else
      var s := After(cap, h[..|h| - 1]);
      StepCoherent(s, cap, h[|h| - 1]);
      Step(s, cap, h[|h| - 1])
  }

  lemma AfterNothing<K, V>(cap: nat, h: seq<Op<K, V>>)
    requires cap > 0
    ensures After(cap, h[..0]) == Lru([], map[], [])
  {
  }

  lemma AfterStep<K, V>(cap: nat, h: seq<Op<K, V>>, i: nat)
    requires cap > 0 && i < |h|
    ensures After(cap, h[..i + 1]) == Step(After(cap, h[..i]), cap, h[i])
  {
    assert h[..i + 1][..i] == h[..i];
  }

  // Several operations one after the other.
  function Steps<K(==), V>(s: Lru<K, V>, cap: nat, ops: seq<Op<K, V>>): (r: Lru<K, V>)
    requires Coherent(s, cap) && cap > 0
    ensures Coherent(r, cap)
  {
    if ops == [] then s
    else
      var t := Steps(s, cap, ops[..|ops| - 1]);
      StepCoherent(t, cap, ops[|ops| - 1]);
      Step(t, cap, ops[|ops| - 1])
  }

  lemma NoSteps<K, V>(s: Lru<K, V>, cap: nat)
    requires Coherent(s, cap) && cap > 0
    ensures Steps(s, cap, []) == s
  {
  }

  lemma StepsMore<K, V>(s: Lru<K, V>, cap: nat, ops: seq<Op<K, V>>, op: Op<K, V>)
    requires Coherent(s, cap) && cap > 0
    ensures Steps(s, cap, ops + [op]) == Step(Steps(s, cap, ops), cap, op)
  {
    assert (ops + [op])[..|ops|] == ops;
  }

  // They continue any history that leads to where they start.
  lemma {:induction false} StepsContinue<K, V>(cap: nat, h: seq<Op<K, V>>, ops: seq<Op<K, V>>)
    requires cap > 0
    ensures After(cap, h + ops) == Steps(After(cap, h), cap, ops)
  {
    hide Step, Coherent;
    if ops == [] {
      assert h + ops == h;
    } else {
      var front := ops[..|ops| - 1];
      StepsContinue(cap, h, front);
      assert (h + ops)[..|h + ops| - 1] == h + front;
    }
  }

  predicate Uses<K(==), V>(op: Op<K, V>, k: K)
  {
    (op.DoPut? || op.DoGet?) && op.key == k
  }

  // The position of the last Put or Get that names the key; -1 if there is none.
  function LastUse<K(==), V>(h: seq<Op<K, V>>, k: K): (r: int)
    ensures -1 <= r < |h|
  {
    if h == [] then -1
    else if Uses(h[|h| - 1], k) then |h| - 1
    else LastUse(h[..|h| - 1], k)
  }

  ghost predicate SortedByUse<K, V>(h: seq<Op<K, V>>, order: seq<K>)
  {
    forall i, j :: 0 <= i < j < |order| ==> LastUse(h, order[i]) > LastUse(h, order[j])
  }

  lemma {:induction false} WithoutKeepsSorted<K, V>(h: seq<Op<K, V>>, order: seq<K>, k: K)
    requires SortedByUse(h, order)
    ensures SortedByUse(h, Without(order, k))
  {
    if order == [] {
    } else {
      var rest := order[1..];
      WithoutKeepsSorted(h, rest, k);
      forall x | x in rest
        ensures LastUse(h, order[0]) > LastUse(h, x)
      {
        var j :| 0 <= j < |rest| && rest[j] == x;
        assert order[j + 1] == x;
      }
    }
  }

  lemma FrontSorted<K, V>(h: seq<Op<K, V>>, k: K, rest: seq<K>)
    requires h != [] && Uses(h[|h| - 1], k) && k !in rest
    requires SortedByUse(h[..|h| - 1], rest)
    ensures SortedByUse(h, [k] + rest)
  {
  }

  lemma StillSorted<K, V>(h: seq<Op<K, V>>, order: seq<K>)
    requires h != [] && forall x :: x in order ==> !Uses(h[|h| - 1], x)
    requires SortedByUse(h[..|h| - 1], order)
    ensures SortedByUse(h, order)
  {
    forall i, j | 0 <= i < j < |order|
      ensures LastUse(h, order[i]) > LastUse(h, order[j])
    {
      assert order[i] in order && order[j] in order;
    }
  }

  lemma PrefixSorted<K, V>(h: seq<Op<K, V>>, order: seq<K>, n: nat)
    requires n <= |order| && SortedByUse(h, order)
    ensures SortedByUse(h, order[..n])
  {
  }

  lemma StepSorted<K, V>(cap: nat, h: seq<Op<K, V>>, s: Lru<K, V>)
    requires h != [] && cap > 0 && Coherent(s, cap) && SortedByUse(h[..|h| - 1], s.order)
    ensures SortedByUse(h, Step(s, cap, h[|h| - 1]).order)
  {
    hide SortedByUse, LastUse, Without;
    var before, op := h[..|h| - 1], h[|h| - 1];
    WithoutKeepsSorted(before, s.order, op.key);
    PrefixSorted(before, s.order, if s.order == [] then 0 else |s.order| - 1);
    match op {
      case DoPut(k, v) =>
        var rest := if k in s.items then Without(s.order, k)
                    else if |s.items| + 1 > cap then Evict(s).order else s.order;
        FrontSorted(h, k, rest);
      case DoGet(k) =>
        if k in s.items {
          FrontSorted(h, k, Without(s.order, k));
        } else {
          StillSorted(h, s.order);
        }
      case DoPop(k) => StillSorted(h, Without(s.order, k));
      case DoRemove(k) => StillSorted(h, if k in s.items then Without(s.order, k) else s.order);
    }
  }

  // After every history the list is sorted by last use, the most recent first.
  lemma {:induction false} OrderIsRecency<K, V>(cap: nat, h: seq<Op<K, V>>)
    requires cap > 0
    ensures SortedByUse(h, After(cap, h).order)
  {
    if h == [] {
    } else {
      var before := h[..|h| - 1];
      OrderIsRecency(cap, before);
      StepSorted(cap, h, After(cap, before));
    }
  }

  lemma BackIsOldest<K, V>(h: seq<Op<K, V>>, order: seq<K>, x: K)
    requires SortedByUse(h, order) && x in order && x != order[|order| - 1]
    ensures LastUse(h, order[|order| - 1]) < LastUse(h, x)
  {
    hide LastUse;
    var i :| 0 <= i < |order| && order[i] == x;
  }

  // When a Put of a new key finds the cache full, the key that goes is the live key whose last use is oldest.
  lemma VictimIsOldest<K, V>(cap: nat, h: seq<Op<K, V>>, k: K, v: V)
    requires cap > 0
    requires k !in After(cap, h).items && |After(cap, h).items| + 1 > cap
    ensures exists victim ::
              && Oldest(h, After(cap, h), victim)
              && Replaced(After(cap, h), Step(After(cap, h), cap, DoPut(k, v)), victim, k, v)
  {
    hide SortedByUse, LastUse, After, Step, Coherent, Oldest, Replaced;
    OrderIsRecency(cap, h);
    var s := After(cap, h);
    FullPutReplaces(s, cap, k, v);
    BackIsOldestLive(h, s, cap);
    assert Oldest(h, s, s.order[|s.order| - 1]);
  }

  // The live key whose last use is before that of every other live key.
  ghost predicate Oldest<K, V>(h: seq<Op<K, V>>, s: Lru<K, V>, victim: K)
  {
    victim in s.items && forall x :: x in s.items && x != victim ==> LastUse(h, victim) < LastUse(h, x)
  }

  // One item has made room for another and was handed to the callback.
  ghost predicate Replaced<K, V>(s: Lru<K, V>, s': Lru<K, V>, victim: K, k: K, v: V)
  {
    && victim in s.items
    && s'.items == (s.items - {victim})[k := v]
    && s'.erased == s.erased + [(victim, s.items[victim])]
  }

  lemma FullPutReplaces<K, V>(s: Lru<K, V>, cap: nat, k: K, v: V)
    requires cap > 0 && Coherent(s, cap) && k !in s.items && |s.items| + 1 > cap
    ensures s.order != [] && Replaced(s, Step(s, cap, DoPut(k, v)), s.order[|s.order| - 1], k, v)
  {
    assert s.order[|s.order| - 1] in s.order;
  }

  lemma BackIsOldestLive<K, V>(h: seq<Op<K, V>>, s: Lru<K, V>, cap: nat)
    requires Coherent(s, cap) && SortedByUse(h, s.order) && s.order != []
    ensures Oldest(h, s, s.order[|s.order| - 1])
  {
    hide SortedByUse, LastUse;
    var victim := s.order[|s.order| - 1];
    assert victim in s.order;
    forall x | x in s.items && x != victim
      ensures LastUse(h, victim) < LastUse(h, x)
    {
      BackIsOldest(h, s.order, x);
    }
  }

  // A Put of a known key, or into a cache with room, drops nothing.
  lemma PutKeepsRest<K, V>(s: Lru<K, V>, cap: nat, k: K, v: V)
    requires cap > 0 && Coherent(s, cap) && (k in s.items || |s.items| < cap)
    ensures var r := Step(s, cap, DoPut(k, v)); r.items == s.items[k := v] && r.erased == s.erased
  {
  }

  // What a Put drops: nothing, or on a full cache the item at the back.
  lemma PutDrops<K, V>(s: Lru<K, V>, cap: nat, k: K, v: V)
    requires cap > 0 && Coherent(s, cap)
    ensures var r := Step(s, cap, DoPut(k, v));
            && (k in s.items || |s.items| < cap ==> r.items == s.items[k := v] && r.erased == s.erased)
            && (k !in s.items && |s.items| == cap ==> s.order != [] && Replaced(s, r, s.order[|s.order| - 1], k, v))
  {
    hide Coherent, Step;
    if k in s.items || |s.items| < cap {
      PutKeepsRest(s, cap, k, v);
    } else if |s.items| == cap {
      FullPutReplaces(s, cap, k, v);
    }
  }

  // ---- values ----

  // The position of the last Put of the key, and of the last Pop or Remove of it; -1 if there is none.
  function LastPut<K(==), V>(h: seq<Op<K, V>>, k: K): (r: int)
    ensures -1 <= r < |h| && (r >= 0 ==> h[r].DoPut? && h[r].key == k)
  {
    if h == [] then -1
    else if h[|h| - 1].DoPut? && h[|h| - 1].key == k then |h| - 1
    else LastPut(h[..|h| - 1], k)
  }

  function LastDrop<K(==), V>(h: seq<Op<K, V>>, k: K): (r: int)
    ensures -1 <= r < |h| && (r >= 0 ==> (h[r].DoPop? || h[r].DoRemove?) && h[r].key == k)
  {
    if h == [] then -1
    else if (h[|h| - 1].DoPop? || h[|h| - 1].DoRemove?) && h[|h| - 1].key == k then |h| - 1
    else LastDrop(h[..|h| - 1], k)
  }

  // After every history a cached key was put and not dropped since, and has the value of its last Put.
  lemma {:induction false} ValuesAreLastPut<K, V>(cap: nat, h: seq<Op<K, V>>, k: K)
    requires cap > 0 && k in After(cap, h).items
    ensures LastPut(h, k) > LastDrop(h, k) && After(cap, h).items[k] == h[LastPut(h, k)].value
  {
    hide Step, Coherent;
    if h != [] {
      var n := |h| - 1;
      StepItems(After(cap, h[..n]), cap, h[n]);
      if k in After(cap, h[..n]).items {
        ValuesAreLastPut(cap, h[..n], k);
      }
    }
  }

  function PutKeys<K(==), V>(h: seq<Op<K, V>>): (s: set<K>)
  {
    set i | 0 <= i < |h| && h[i].DoPut? :: h[i].key
  }

  // As long as the Puts name no more keys than there is room for, a cache is an unbounded map: what was put and
  // not dropped since is there, and only Removes call the callback.
  lemma {:induction false} RoomForAll<K, V>(cap: nat, h: seq<Op<K, V>>)
    requires cap > 0 && |PutKeys(h)| <= cap
    ensures forall k :: k in After(cap, h).items <==> LastPut(h, k) > LastDrop(h, k)
    ensures (forall i :: 0 <= i < |h| ==> !h[i].DoRemove?) ==> After(cap, h).erased == []
  {
    if h != [] {
      var n := |h| - 1;
      var s, op := After(cap, h[..n]), h[n];
      FewerKeys(h);
      RoomForAll(cap, h[..n]);
      if op.DoPut? && op.key !in s.items {
        LiveWerePut(cap, h[..n]);
        assert h[n].key in PutKeys(h);
        RoomLeft(s.items.Keys, PutKeys(h), op.key);
      }
      RoomyStep(s, cap, op);
    }
  }

  lemma FewerKeys<K, V>(h: seq<Op<K, V>>)
    requires h != []
    ensures PutKeys(h[..|h| - 1]) <= PutKeys(h) && |PutKeys(h[..|h| - 1])| <= |PutKeys(h)|
  {
    SmallerSet(PutKeys(h[..|h| - 1]), PutKeys(h));
  }

  lemma SmallerSet<T>(a: set<T>, b: set<T>)
    requires a <= b
    ensures |a| <= |b|
  {
    assert b == a + (b - a);
  }

  lemma RoomLeft<T>(a: set<T>, b: set<T>, x: T)
    requires a <= b && x in b && x !in a
    ensures |a| < |b|
  {
    SmallerSet(a + {x}, b);
  }

  lemma LiveWerePut<K, V>(cap: nat, h: seq<Op<K, V>>)
    requires cap > 0
    ensures After(cap, h).items.Keys <= PutKeys(h)
  {
    forall k | k in After(cap, h).items
      ensures k in PutKeys(h)
    {
      ValuesAreLastPut(cap, h, k);
      assert h[LastPut(h, k)].key in PutKeys(h);
    }
  }

  lemma RoomyStep<K, V>(s: Lru<K, V>, cap: nat, op: Op<K, V>)
    requires cap > 0 && Coherent(s, cap) && (op.DoPut? ==> op.key in s.items || |s.items| < cap)
    ensures forall k :: k in Step(s, cap, op).items <==>
                        (op.DoPut? && op.key == k)
                        || (k in s.items && ((op.DoPop? || op.DoRemove?) ==> op.key != k))
    ensures !op.DoRemove? ==> Step(s, cap, op).erased == s.erased
  {
  }

  // ---- conservation ----

  // Puts that found their key absent.
  function Insertions<K(==), V>(cap: nat, h: seq<Op<K, V>>): (n: nat)
    requires cap > 0
  {
    if h == [] then 0
    else
      var op := h[|h| - 1];
      Insertions(cap, h[..|h| - 1]) + if op.DoPut? && op.key !in After(cap, h[..|h| - 1]).items then 1 else 0
  }

  // Pops that found their key; they hand the value out without calling the callback.
  function Pops<K(==), V>(cap: nat, h: seq<Op<K, V>>): (n: nat)
    requires cap > 0
  {
    if h == [] then 0
    else
      var op := h[|h| - 1];
      Pops(cap, h[..|h| - 1]) + if op.DoPop? && op.key in After(cap, h[..|h| - 1]).items then 1 else 0
  }

  lemma StepConserves<K, V>(s: Lru<K, V>, cap: nat, op: Op<K, V>)
    requires Coherent(s, cap) && cap > 0
    ensures var r := Step(s, cap, op);
            |r.items| + |r.erased| + (if op.DoPop? && op.key in s.items then 1 else 0)
            == |s.items| + |s.erased| + (if op.DoPut? && op.key !in s.items then 1 else 0)
  {
    MapMinusOne(s.items, op.key);
    if op.DoPut? {
      if op.key in s.items {
        assert s.items[op.key := op.value].Keys == s.items.Keys;
        assert |s.items[op.key := op.value].Keys| == |s.items.Keys|;
      } else if |s.items| + 1 > cap {
        EvictCoherent(s, cap);
      }
    }
  }

  // Nothing gets lost: every insertion is still there, was handed to the callback, or was popped.
  lemma {:induction false} Conservation<K, V>(cap: nat, h: seq<Op<K, V>>)
    requires cap > 0
    ensures Insertions(cap, h) == |After(cap, h).items| + |After(cap, h).erased| + Pops(cap, h)
  {
    if h == [] {
    } else {
      var before := h[..|h| - 1];
      Conservation(cap, before);
      StepConserves(After(cap, before), cap, h[|h| - 1]);
    }
  }
}
