/**
 Whole runs of table operations against a finite map: whatever the hash function, the answers and the
 final contents are those of the map.
 */
module TableRuns {
  import opened Options
  import opened RobinHood
  import opened HashLayout
  import opened DenseTable
  import opened DenseValues

  datatype Op<K, V> =
    | TryEmplace(key: K, mapped: V)
    | Emplace(key: K, mapped: V)
    | InsertOrAssign(key: K, mapped: V)
    | Erase(key: K)
    | Extract(key: K)
    | ReplaceKey(key: K, newKey: K)
    | Find(key: K)
    | Clear
    | Rehash(count: nat)
    | Reserve(count: nat)

  datatype Answer<V> = Done(did: bool) | Value(value: Option<V>)

  function Lookup<K, V>(m: map<K, V>, k: K): (r: Option<V>)
  {
    if k in m then Some(m[k]) else None
  }

  // What each operation means for a map.
  function After<K, V>(m: map<K, V>, op: Op<K, V>): (r: map<K, V>)
  {
    match op
    case TryEmplace(k, v) => if k in m then m else m[k := v]
    case Emplace(k, v) => if k in m then m else m[k := v]
    case InsertOrAssign(k, v) => m[k := v]
    case Erase(k) => m - {k}
    case Extract(k) => m - {k}
    case ReplaceKey(k, k') => if k in m && k' !in m then (m - {k})[k' := m[k]] else m
    case Find(_) => m
    case Clear => map[]
    case Rehash(_) => m
    case Reserve(_) => m
  }

  function Says<K, V>(m: map<K, V>, op: Op<K, V>): (r: Answer<V>)
  {
    match op
    case TryEmplace(k, _) => Done(k !in m)
    case Emplace(k, _) => Done(k !in m)
    case InsertOrAssign(k, _) => Done(k !in m)
    case Erase(k) => Done(k in m)
    case Extract(k) => Value(Lookup(m, k))
    case ReplaceKey(k, k') => Done(k in m && k' !in m)
    case Find(k) => Value(Lookup(m, k))
    case Clear => Done(true)
    case Rehash(_) => Done(true)
    case Reserve(_) => Done(true)
  }

  function MapAfter<K, V>(m: map<K, V>, ops: seq<Op<K, V>>): (r: map<K, V>)
  {
    if ops == [] then m else After(MapAfter(m, ops[..|ops| - 1]), ops[|ops| - 1])
  }

  function AnswersOf<K, V>(m: map<K, V>, ops: seq<Op<K, V>>): (r: seq<Answer<V>>)
  {
    if ops == [] then []
    else AnswersOf(m, ops[..|ops| - 1]) + [Says(MapAfter(m, ops[..|ops| - 1]), ops[|ops| - 1])]
  }

  method Apply<K(==, !new), V>(t: Table<K, V>, op: Op<K, V>) returns (answer: Answer<V>)
    requires t.Valid() && |t.values| < MAX_VALUES
    requires op.Rehash? || op.Reserve? ==> op.count <= Capacity(MAX_BUCKETS)
    modifies t, t.buckets
    ensures t.Valid() && (t.buckets == old(t.buckets) || fresh(t.buckets))
    ensures |t.values| <= |old(t.values)| + 1
    ensures t.Map() == After(old(t.Map()), op)
    ensures answer == Says(old(t.Map()), op)
  {
    hide t.Valid;
    match op {
      case TryEmplace(k, v) =>
        var _, inserted := t.TryEmplace(k, v);
        answer := Done(inserted);
      case Emplace(k, v) =>
        var _, inserted := t.Emplace(k, v);
        answer := Done(inserted);
      case InsertOrAssign(k, v) =>
        var _, inserted := t.InsertOrAssign(k, v);
        answer := Done(inserted);
      case Erase(k) =>
        var count := t.Erase(k);
        answer := Done(count == 1);
      case Extract(k) =>
        var pair := t.ExtractKey(k);
        answer := Value(if pair.Some? then Some(pair.value.1) else None);
      case ReplaceKey(k, k') =>
        var at := t.DoFind(k);
        if at.Some? {
          var _, replaced := t.ReplaceKey(at.value, k');
          answer := Done(replaced);
        } else {
          answer := Done(false);
        }
      case Find(k) =>
        var at := t.DoFind(k);
        answer := Value(if at.Some? then Some(t.values[at.value].1) else None);
      case Clear =>
        t.Clear();
        answer := Done(true);
      case Rehash(n) =>
        t.Rehash(n);
        answer := Done(true);
      case Reserve(n) =>
        t.Reserve(n);
        answer := Done(true);
    }
  }

  lemma RunStart<K, V>(ops: seq<Op<K, V>>)
    ensures MapAfter(map[], ops[..0]) == map[] && AnswersOf(map[], ops[..0]) == []
  {
  }

  lemma RunStep<K, V>(ops: seq<Op<K, V>>, i: nat)
    requires i < |ops|
    ensures MapAfter(map[], ops[..i + 1]) == After(MapAfter(map[], ops[..i]), ops[i])
    ensures AnswersOf(map[], ops[..i + 1]) == AnswersOf(map[], ops[..i]) + [Says(MapAfter(map[], ops[..i]), ops[i])]
  {
    assert ops[..i + 1][..i] == ops[..i];
  }

  // Every run of operations on a fresh table, however long, answers as the map does and ends with the map's
  // contents, as long as the distances of that many values fit their words.
  method Run<K(==, !new), V>(hash: K -> Hash64, ops: seq<Op<K, V>>) returns (t: Table<K, V>, answers: seq<Answer<V>>)
    requires forall i :: 0 <= i < |ops| ==>
               && |MapAfter(map[], ops[..i])| < MAX_VALUES
               && (ops[i].Rehash? || ops[i].Reserve? ==> ops[i].count <= Capacity(MAX_BUCKETS))
    ensures t.Valid() && t.Map() == MapAfter(map[], ops)
    ensures answers == AnswersOf(map[], ops)
  {
    hide MapAfter, AnswersOf, After, Says;
    RunStart(ops);
    t := new Table(hash, 0);
    answers := [];
    for i := 0 to |ops|
      invariant fresh(t) && fresh(t.buckets) && t.Valid()
      invariant t.Map() == MapAfter(map[], ops[..i])
      invariant answers == AnswersOf(map[], ops[..i])
    {
      RunStep(ops, i);
      ContentsSize(t.values);
      var answer := Apply(t, ops[i]);
      answers := answers + [answer];
    }
    assert ops[..|ops|] == ops;
  }
}
