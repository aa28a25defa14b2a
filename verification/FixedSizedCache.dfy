/**
 The bounded cache with the least-recently-used policy, its items kept in the dense table. The calls of
 the erase callback are recorded in `erased`. Locking is not modelled: every call holds the mutex throughout.
 */
module FixedSizedCache {
  import opened Options
  import opened HashLayout
  import opened DenseValues
  import opened RobinHood
  import opened DenseTable
  import opened NodeList
  import opened LruSpec
  import opened LruCachePolicy

  class Cache<K(==, !new), V> {
    const maxCacheSize: nat
    // The value-initialised value handed out on a miss.
    const absent: V
    const items: Table<K, V>
    const policy: LruPolicy<K>
    var erased: seq<(K, V)>

    ghost predicate Valid()
      reads this, items, items.buckets, policy
    {
      && items.Valid() && policy.Valid()
      && 0 < maxCacheSize < MAX_VALUES
      && Coherent(Lru(policy.Order(), items.Map(), erased), maxCacheSize)
    }

    ghost function State(): (s: Lru<K, V>)
      requires Valid()
      reads this, items, items.buckets, policy
    {
      Lru(policy.Order(), items.Map(), erased)
    }

    ghost function Repr(): (r: set<object>)
      reads this, items
    {
      {this, items, items.buckets, policy}
    }

    constructor (maxSize: nat, hash: K -> Hash64, absent: V)
      requires maxSize < MAX_VALUES
      ensures Valid() && fresh(Repr())
      ensures State() == Lru([], map[], [])
      ensures maxCacheSize == if maxSize == 0 then 1 else maxSize
      ensures this.absent == absent
    {
      maxCacheSize := if maxSize == 0 then 1 else maxSize;
      this.absent := absent;
      items := new Table(hash, 0);
      policy := new LruPolicy();
      erased := [];
      new;
    }

    lemma SizeIsCount()
      requires Valid()
      ensures |items.values| == |State().items| == |policy.Order()| && State().order == policy.Order()
      ensures forall k :: k in policy.Order() <==> k in State().items
    {
      ContentsSize(items.values);
    }

    lemma StateCoherent()
      requires Valid()
      ensures Coherent(State(), maxCacheSize) && maxCacheSize > 0
    {
    }

    // What each operation does to the items alone.
    lemma ItemsAfter(op: Op<K, V>)
      requires Valid()
      ensures ItemsChange(State().items, op, Step(State(), maxCacheSize, op).items)
    {
      hide Coherent, Linked, Sound, DistinctKeys, HasKey, Contents, Step, ItemsChange;
      StepItems(State(), maxCacheSize, op);
    }

    // Calls the policy, then the callback, then drops the item.
    method EraseAtIndex(idx: nat)
      requires Valid() && idx < |items.values|
      modifies policy, this`erased, items`values, items`pos, items.buckets
      ensures Valid()
      ensures items.values == SwapRemove(old(items.values), idx)
      ensures old(items.values[idx].0) in old(State()).items
      ensures State() == Step(old(State()), maxCacheSize, DoRemove(old(items.values[idx].0)))
      ensures erased == old(erased) + [old(items.values[idx])]
    {
      hide Coherent, Linked, Sound, DistinctKeys, HasKey, Contents, SwapRemove, Without;
      var elem := items.values[idx];
      ghost var before := State();
      HasKeyAt(items.values, idx);
      assert elem.0 in items.Map() && items.Map()[elem.0] == elem.1;
      SizeIsCount();
      StepCoherent(before, maxCacheSize, DoRemove(elem.0));
      policy.Erase(elem.0);
      erased := erased + [elem];
      items.EraseAt(idx);
    }

    // Erase by key; nothing happens when the key is absent.
    method EraseKey(key: K)
      requires Valid()
      modifies policy, this`erased, items`values, items`pos, items.buckets
      ensures Valid()
      ensures State() == Step(old(State()), maxCacheSize, DoRemove(key))
      ensures |items.values| == |old(items.values)| - if key in old(State()).items then 1 else 0
    {
      hide Coherent, Linked, Sound, DistinctKeys, HasKey, Contents, SwapRemove, Without;
      var at := items.DoFind(key);
      if at.Some? {
        EraseAtIndex(at.value);
      }
    }

    // Makes room by dropping the policy's candidate.
    method EvictOne()
      requires Valid() && items.values != []
      modifies policy, this`erased, items`values, items`pos, items.buckets
      ensures Valid()
      ensures old(State()).order != [] && old(State()).order[|old(State()).order| - 1] in old(State()).items
      ensures State() == Evict(old(State())) && |items.values| == |old(items.values)| - 1
    {
      hide Linked, Sound, DistinctKeys, HasKey, Contents, Without;
      SizeIsCount();
      var candidate := policy.ReplCandidate();
      assert candidate in policy.Order();
      EvictIsRemove(State(), maxCacheSize);
      EraseKey(candidate);
    }

    method Insert(key: K, value: V)
      requires Valid() && key !in State().items && |items.values| < maxCacheSize
      modifies policy, items, items.buckets
      ensures Valid() && (items.buckets == old(items.buckets) || fresh(items.buckets))
      ensures var s := old(State()); State() == Lru([key] + s.order, s.items[key := value], s.erased)
    {
      hide Coherent, Linked, Sound, DistinctKeys, HasKey, Contents;
      SizeIsCount();
      InsertCoherent(State(), maxCacheSize, key, value);
      policy.Insert(key);
      var _, _ := items.Emplace(key, value);
    }

    method Update(key: K, value: V)
      requires Valid() && key in State().items
      modifies policy, items, items.buckets
      ensures Valid() && (items.buckets == old(items.buckets) || fresh(items.buckets))
      ensures var s := old(State()); State() == Lru(Front(s.order, key), s.items[key := value], s.erased)
    {
      hide Coherent, Linked, Sound, DistinctKeys, HasKey, Contents, Front;
      SizeIsCount();
      FrontCoherent(State(), maxCacheSize, key, value);
      assert |items.values| <= maxCacheSize by {
        StateFits();
      }
      policy.Touch(key);
      var _, _ := items.InsertOrAssign(key, value);
    }

    lemma StateFits()
      requires Valid()
      ensures |items.values| <= maxCacheSize
    {
      SizeIsCount();
    }

    method Put(key: K, value: V)
      requires Valid()
      modifies policy, this`erased, items, items.buckets
      ensures Valid() && (items.buckets == old(items.buckets) || fresh(items.buckets))
      ensures State() == Step(old(State()), maxCacheSize, DoPut(key, value))
      ensures var s := old(State());
              key in s.items || |s.items| < maxCacheSize ==>
                State().items == s.items[key := value] && erased == s.erased
      ensures var s := old(State());
              key !in s.items && |s.items| == maxCacheSize ==>
                s.order != [] && Replaced(s, State(), s.order[|s.order| - 1], key, value)
    {
      hide Coherent, Linked, Sound, DistinctKeys, HasKey, Contents, Front, Evict;
      SizeIsCount();
      StateFits();
      PutDrops(State(), maxCacheSize, key, value);
      var at := items.DoFind(key);
      if at.None? {
        if |items.values| + 1 > maxCacheSize {
          EvictedStill(State(), maxCacheSize, key);
          EvictOne();
        }
        Insert(key, value);
      } else {
        Update(key, value);
      }
    }

    // A hit moves the key to the front; a miss changes nothing.
    method TryGet(key: K) returns (value: V, found: bool)
      requires Valid()
      modifies policy
      ensures Valid() && State() == Step(old(State()), maxCacheSize, DoGet(key))
      ensures found <==> key in old(State()).items
      ensures value == if found then old(State()).items[key] else absent
    {
      hide Coherent, Linked, Sound, DistinctKeys, HasKey, Contents, Without;
      StepCoherent(State(), maxCacheSize, DoGet(key));
      SizeIsCount();
      var at := items.DoFind(key);
      if at.Some? {
        policy.Touch(key);
        value, found := items.values[at.value].1, true;
      } else {
        value, found := absent, false;
      }
    }

    method Get(key: K) returns (value: V)
      requires Valid()
      modifies policy
      ensures Valid() && State() == Step(old(State()), maxCacheSize, DoGet(key))
      ensures value == if key in old(State()).items then old(State()).items[key] else absent
    {
      var found;
      value, found := TryGet(key);
    }

    // Looking whether a key is cached does not count as a use.
    method Cached(key: K) returns (b: bool)
      requires Valid()
      ensures b <==> key in State().items
    {
      var at := items.DoFind(key);
      b := at.Some?;
    }

    method Size() returns (n: nat)
      requires Valid()
      ensures n == |State().items| <= maxCacheSize
    {
      SizeIsCount();
      n := |items.values|;
    }

    // Hands the value out and forgets the key, without the callback.
    method Pop(key: K) returns (value: V, found: bool)
      requires Valid()
      modifies policy, items`values, items`pos, items.buckets
      ensures Valid() && State() == Step(old(State()), maxCacheSize, DoPop(key))
      ensures found <==> key in old(State()).items
      ensures value == if found then old(State()).items[key] else absent
    {
      hide Coherent, Linked, Sound, DistinctKeys, HasKey, Contents, SwapRemove;
      PopOfAbsent(State(), maxCacheSize, key);
      StepCoherent(State(), maxCacheSize, DoPop(key));
      SizeIsCount();
      var at := items.DoFind(key);
      if at.None? {
        return absent, false;
      }
      value, found := items.values[at.value].1, true;
      policy.Erase(key);
      items.EraseAt(at.value);
    }

    method Remove(key: K) returns (removed: bool)
      requires Valid()
      modifies policy, this`erased, items`values, items`pos, items.buckets
      ensures Valid() && State() == Step(old(State()), maxCacheSize, DoRemove(key))
      ensures removed <==> key in old(State()).items
    {
      hide Coherent, Linked, Sound, DistinctKeys, HasKey, Contents, SwapRemove;
      var at := items.DoFind(key);
      if at.None? {
        return false;
      }
      EraseAtIndex(at.value);
      removed := true;
    }

    method EraseFront() returns (ghost elem: (K, V))
      requires Valid() && items.values != []
      modifies policy, this`erased, items`values, items`pos, items.buckets
      ensures Valid() && State() == Step(old(State()), maxCacheSize, DoRemove(elem.0))
      ensures erased == old(erased) + [elem] && |items.values| == |old(items.values)| - 1
      ensures multiset([elem]) + multiset(items.values) == multiset(old(items.values))
    {
      hide Coherent, Linked, Sound, DistinctKeys, HasKey, Contents, SwapRemove, Without, Step;
      elem := items.values[0];
      SwapRemoveMultiset(items.values, 0);
      EraseAtIndex(0);
    }

    // Drops the item at the front of the values until none is left; the callback sees every item once. It is a
    // run of Removes.
    method ClearWithCallback() returns (ghost removes: seq<Op<K, V>>)
      requires Valid()
      modifies policy, this`erased, items`values, items`pos, items.buckets
      ensures Valid() && State().order == [] && State().items == map[]
      ensures exists batch :: erased == old(erased) + batch && multiset(batch) == multiset(old(items.values))
      ensures |removes| == old(|State().items|) && forall i :: 0 <= i < |removes| ==> removes[i].DoRemove?
      ensures State() == Steps(old(State()), maxCacheSize, removes)
    {
      hide *;
      ghost var batch := [];
      removes := [];
      StateCoherent();
      SizeIsCount();
      NoSteps(State(), maxCacheSize);
      while items.values != []
        invariant Valid() && erased == old(erased) + batch
        invariant multiset(batch) + multiset(items.values) == multiset(old(items.values))
        invariant |removes| + |items.values| == old(|State().items|)
        invariant forall i :: 0 <= i < |removes| ==> removes[i].DoRemove?
        invariant State() == Steps(old(State()), maxCacheSize, removes)
        decreases |items.values|
      {
        ghost var elem := EraseFront();
        assert erased == old(erased) + (batch + [elem]);
        batch := batch + [elem];
        StepsMore(old(State()), maxCacheSize, removes, DoRemove(elem.0));
        removes := removes + [DoRemove(elem.0)];
      }
      SizeIsCount();
    }
  }

  datatype Answer<V> = Stored | Got(value: V, found: bool) | Erased(done: bool)

  // What an operation hands back.
  function Says<K, V>(s: Lru<K, V>, absent: V, op: Op<K, V>): (a: Answer<V>)
  {
    match op
    case DoPut(_, _) => Stored
    case DoGet(k) => if k in s.items then Got(s.items[k], true) else Got(absent, false)
    case DoPop(k) => if k in s.items then Got(s.items[k], true) else Got(absent, false)
    case DoRemove(k) => Erased(k in s.items)
  }

  // The answers over a history.
  function AnswersOf<K(==), V>(cap: nat, absent: V, h: seq<Op<K, V>>): (r: seq<Answer<V>>)
    requires cap > 0
    ensures |r| == |h|
  {
    if h == [] then []
    else AnswersOf(cap, absent, h[..|h| - 1]) + [Says(After(cap, h[..|h| - 1]), absent, h[|h| - 1])]
  }

  lemma AnswersStep<K, V>(cap: nat, absent: V, h: seq<Op<K, V>>, i: nat)
    requires cap > 0 && i < |h|
    ensures AnswersOf(cap, absent, h[..i + 1]) ==
            AnswersOf(cap, absent, h[..i]) + [Says(After(cap, h[..i]), absent, h[i])]
  {
    hide After, Says;
    assert h[..i + 1][..i] == h[..i];
  }

  // Every run of operations answers as the fold over the history does and leaves the cache in its state.
  method Run<K(==, !new), V>(maxSize: nat, hash: K -> Hash64, absent: V, ops: seq<Op<K, V>>)
    returns (c: Cache<K, V>, answers: seq<Answer<V>>)
    requires maxSize < MAX_VALUES
    ensures c.Valid() && c.maxCacheSize == (if maxSize == 0 then 1 else maxSize)
    ensures c.State() == After(c.maxCacheSize, ops)
    ensures answers == AnswersOf(c.maxCacheSize, absent, ops)
  {
    hide After, Step, Coherent, Linked, DistinctKeys, Contents, HasKey, Says, AnswersOf;
    c := new Cache(maxSize, hash, absent);
    AfterNothing(c.maxCacheSize, ops);
    NoAnswers(c.maxCacheSize, absent, ops);
    answers := [];
    for i := 0 to |ops|
      invariant fresh(c.Repr()) && c.Valid()
      invariant c.State() == After(c.maxCacheSize, ops[..i])
      invariant answers == AnswersOf(c.maxCacheSize, absent, ops[..i])
    {
      AfterStep(c.maxCacheSize, ops, i);
      AnswersStep(c.maxCacheSize, absent, ops, i);
      var answer := ApplyTo(c, ops[i]);
      answers := answers + [answer];
    }
    assert ops[..|ops|] == ops;
  }

  lemma NoAnswers<K, V>(cap: nat, absent: V, h: seq<Op<K, V>>)
    requires cap > 0
    ensures AnswersOf(cap, absent, h[..0]) == []
  {
  }

  method ApplyTo<K(==, !new), V>(c: Cache<K, V>, op: Op<K, V>) returns (answer: Answer<V>)
    requires c.Valid()
    modifies c.policy, c`erased, c.items, c.items.buckets
    ensures c.Valid() && (c.items.buckets == old(c.items.buckets) || fresh(c.items.buckets))
    ensures c.State() == Step(old(c.State()), c.maxCacheSize, op)
    ensures answer == Says(old(c.State()), c.absent, op)
  {
    hide Step, Coherent, Linked, DistinctKeys, Contents, HasKey;
    match op
    case DoPut(k, v) =>
      c.Put(k, v);
      answer := Stored;
    case DoGet(k) =>
      var value, found := c.TryGet(k);
      answer := Got(value, found);
    case DoPop(k) =>
      var value, found := c.Pop(k);
      answer := Got(value, found);
    case DoRemove(k) =>
      var done := c.Remove(k);
      answer := Erased(done);
  }
}
