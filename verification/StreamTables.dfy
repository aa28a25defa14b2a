/**
 The stored objects and grid cells as tables: rows keyed by identifier, and the meaning of the statements
 that read and change them. A statement that breaks a foreign key changes nothing.
 */
module StreamTables {
  import opened Options
  import opened Reach
  import opened Aabb
  import opened Chunk

  // ---- boxes in integer columns ----

  datatype Corners = Corners(minX: int, maxX: int, minY: int, maxY: int, minZ: int, maxZ: int)

  function CornersOf(b: Box): (c: Corners)
  {
    var e := b.End();
    Corners(Trunc(b.position.x), Trunc(e.x), Trunc(b.position.y), Trunc(e.y), Trunc(b.position.z), Trunc(e.z))
  }

  function BoxOf(c: Corners): (b: Box)
  {
    Box(Vector3(c.minX as real, c.minY as real, c.minZ as real),
        Vector3((c.maxX - c.minX) as real, (c.maxY - c.minY) as real, (c.maxZ - c.minZ) as real))
  }

  predicate Whole(r: real)
  {
    Trunc(r) as real == r
  }

  // Both corners are at whole coordinates.
  predicate Integral(b: Box)
  {
    && Whole(b.position.x) && Whole(b.position.y) && Whole(b.position.z)
    && Whole(b.End().x) && Whole(b.End().y) && Whole(b.End().z)
  }

  // Storing a box and reading it back gives the same box exactly when its corners are whole.
  lemma StoreLoadExact(b: Box)
    ensures BoxOf(CornersOf(b)) == b <==> Integral(b)
  {
  }

  lemma LoadedIsIntegral(c: Corners)
    ensures CornersOf(BoxOf(c)) == c && Integral(BoxOf(c))
  {
  }

  // ---- object rows ----

  datatype Row = Row(chunkId: Option<int>, parent: Id, aabb: Option<Corners>)

  type Rows = map<Id, Row>

  const DEFAULT_BOX := Box(ZERO, ZERO)

  // What reading an object's box gives; the default box when there is no row or no box yet.
  function StoredBox(rows: Rows, u: Id): (b: Box)
  {
    if u in rows && rows[u].aabb.Some? then BoxOf(rows[u].aabb.value) else DEFAULT_BOX
  }

  // Without a stored box an object's box is the single point at the origin.
  lemma UnstoredIsOrigin(rows: Rows, u: Id)
    requires u in rows ==> rows[u].aabb.None?
    ensures var b := StoredBox(rows, u);
            && b.position.x == 0.0 && b.position.y == 0.0 && b.position.z == 0.0
            && b.End() == b.position
  {
  }

  function Parents(rows: Rows): (s: set<Id>)
  {
    set c | c in rows :: rows[c].parent
  }

  // Parent to stored children.
  function StoredChildren(rows: Rows): (g: Children)
    ensures forall p: Id, c: Id :: Edge(g, p, c) <==> c in rows && rows[c].parent == p && p != NIL
  {
    map p | p in Parents(rows) && p != NIL :: set c | c in rows && rows[c].parent == p
  }

  // Every parent is nil or stored.
  ghost predicate ParentsStored(rows: Rows)
  {
    forall u :: u in rows ==> rows[u].parent == NIL || rows[u].parent in rows
  }

  // An object and everything stored below it.
  ghost function Subtree(rows: Rows, u: Id): (s: set<Id>)
  {
    set v | v in rows && Reaches(StoredChildren(rows), u, v)
  }

  // Deleting a row deletes everything below it.
  ghost function Removed(rows: Rows, u: Id): (r: Rows)
  {
    if u in rows then rows - Subtree(rows, u) else rows
  }

  lemma RemovedKeepsParents(rows: Rows, u: Id)
    requires ParentsStored(rows)
    ensures ParentsStored(Removed(rows, u))
  {
    var r := Removed(rows, u);
    forall v | v in r && r[v].parent != NIL
      ensures r[v].parent in r
    {
      var p := rows[v].parent;
      if Reaches(StoredChildren(rows), u, p) {
        assert Edge(StoredChildren(rows), p, v);
        ReachesStep(StoredChildren(rows), u, p, v);
      }
    }
  }

  // Insert, or take over the parent of an existing row. The parent must be nil, stored, or the object itself.
  function Upserted(rows: Rows, u: Id, parent: Id): (r: Rows)
  {
    if parent == NIL || parent in rows || parent == u then
      rows[u := if u in rows then rows[u].(parent := parent) else Row(None, parent, None)]
    else rows
  }

  lemma UpsertedKeepsParents(rows: Rows, u: Id, parent: Id)
    requires ParentsStored(rows)
    ensures ParentsStored(Upserted(rows, u, parent))
  {
  }

  function WithBox(rows: Rows, u: Id, b: Box): (r: Rows)
  {
    if u in rows then rows[u := rows[u].(aabb := Some(CornersOf(b)))] else rows
  }

  // After storing a box the table holds it exactly when there is a row and the corners are whole
  // (or there is no row and the box is the default one).
  lemma BoxKeptIff(rows: Rows, u: Id, b: Box)
    ensures StoredBox(WithBox(rows, u, b), u) == b <==> if u in rows then Integral(b) else b == DEFAULT_BOX
  {
  }

  function WithChunk(rows: Rows, u: Id, id: int): (r: Rows)
  {
    if u in rows then rows[u := rows[u].(chunkId := Some(id))] else rows
  }

  // The tables agree on everything but the cells objects are filed under.
  ghost predicate SameShape(rows: Rows, rows': Rows)
  {
    && rows.Keys == rows'.Keys
    && forall u :: u in rows ==> rows[u].parent == rows'[u].parent && rows[u].aabb == rows'[u].aabb
  }

  // ---- a batch of upserts ----

  function UpsertAll(rows: Rows, batch: seq<(Id, Id)>): (r: Rows)
  {
    if batch == [] then rows
    else Upserted(UpsertAll(rows, batch[..|batch| - 1]), batch[|batch| - 1].0, batch[|batch| - 1].1)
  }

  // Each parent is nil, the object itself, stored before the batch, or stored earlier in the batch.
  ghost predicate ParentsFirst(rows: Rows, batch: seq<(Id, Id)>)
  {
    forall i :: 0 <= i < |batch| ==> ParentReady(rows, batch, i)
  }

  ghost predicate ParentReady(rows: Rows, batch: seq<(Id, Id)>, i: nat)
    requires i < |batch|
  {
    var (u, p) := batch[i];
    p == NIL || p == u || p in rows || exists j :: 0 <= j < i && batch[j].0 == p
  }

  ghost predicate DistinctIds(batch: seq<(Id, Id)>)
  {
    forall i, j :: 0 <= i < j < |batch| ==> batch[i].0 != batch[j].0
  }

  ghost predicate AllStored(rows: Rows, batch: seq<(Id, Id)>)
  {
    forall i :: 0 <= i < |batch| ==> batch[i].0 in rows && rows[batch[i].0].parent == batch[i].1
  }

  lemma {:induction false} UpsertAllKeys(rows: Rows, batch: seq<(Id, Id)>, x: Id)
    ensures x in UpsertAll(rows, batch) ==> x in rows || exists j :: 0 <= j < |batch| && batch[j].0 == x
    ensures x in rows ==> x in UpsertAll(rows, batch)
  {
    if batch != [] {
      var front := batch[..|batch| - 1];
      UpsertAllKeys(rows, front, x);
      if x in UpsertAll(rows, front) && x !in rows {
        var j :| 0 <= j < |front| && front[j].0 == x;
        assert batch[j].0 == x;
      }
    }
  }

  // A batch in hash order stores every new object with its parent if its parents come first.
  lemma {:induction false} UpsertAllStores(rows: Rows, batch: seq<(Id, Id)>)
    requires DistinctIds(batch) && ParentsFirst(rows, batch)
    ensures AllStored(UpsertAll(rows, batch), batch)
  {
    if batch != [] {
      var n := |batch| - 1;
      var front := batch[..n];
      assert forall i :: 0 <= i < n ==> front[i] == batch[i];
      assert ParentsFirst(rows, front) by {
        forall i | 0 <= i < n
          ensures ParentReady(rows, front, i)
        {
          assert ParentReady(rows, batch, i);
          if j :| 0 <= j < i && batch[j].0 == batch[i].1 {
            assert front[j].0 == front[i].1;
          }
        }
      }
      UpsertAllStores(rows, front);
      var mid := UpsertAll(rows, front);
      var (u, p) := batch[n];
      assert ParentReady(rows, batch, n);
      UpsertAllKeys(rows, front, p);
      forall i | 0 <= i < |batch|
        ensures batch[i].0 in Upserted(mid, u, p) && Upserted(mid, u, p)[batch[i].0].parent == batch[i].1
      {
        if i < n {
          assert front[i].0 != u;
        }
      }
    }
  }

  // Otherwise it is rejected: the object stays unknown, or keeps the parent it had before the batch.
  lemma {:induction false} UpsertRejected(rows: Rows, batch: seq<(Id, Id)>, i: nat)
    requires DistinctIds(batch) && i < |batch| && !ParentReady(rows, batch, i)
    ensures var u, r := batch[i].0, UpsertAll(rows, batch);
            (u in r <==> u in rows) && (u in rows ==> r[u].parent == rows[u].parent)
  {
    var n := |batch| - 1;
    var front := batch[..n];
    assert forall k :: 0 <= k < n ==> front[k] == batch[k];
    if i < n {
      assert !ParentReady(rows, front, i);
      UpsertRejected(rows, front, i);
    } else {
      UpsertAllKeys(rows, front, batch[i].1);
      UntouchedByOthers(rows, front, batch[i].0);
      assert forall j :: 0 <= j < |front| ==> front[j].0 != batch[i].1;
    }
  }

  lemma {:induction false} UntouchedByOthers(rows: Rows, batch: seq<(Id, Id)>, u: Id)
    requires forall j :: 0 <= j < |batch| ==> batch[j].0 != u
    ensures var r := UpsertAll(rows, batch); (u in r <==> u in rows) && (u in rows ==> r[u] == rows[u])
  {
    if batch != [] {
      UntouchedByOthers(rows, batch[..|batch| - 1], u);
    }
  }

  // A batch, in the order the hash set yields it, is stored completely if and only if parents come first.
  lemma BatchStoredIff(rows: Rows, batch: seq<(Id, Id)>)
    requires ParentsStored(rows) && DistinctIds(batch)
    ensures AllStored(UpsertAll(rows, batch), batch) <==> ParentsFirst(rows, batch)
  {
    if ParentsFirst(rows, batch) {
      UpsertAllStores(rows, batch);
    } else {
      var i :| 0 <= i < |batch| && !ParentReady(rows, batch, i);
      UpsertRejected(rows, batch, i);
    }
  }

  // ---- the order of a batch ----

  // An upsert touches nothing but the parent, and makes a bare row where there was none.
  lemma {:induction false} UpsertAllKeepsRest(rows: Rows, batch: seq<(Id, Id)>, x: Id)
    requires x in UpsertAll(rows, batch)
    ensures var row := UpsertAll(rows, batch)[x];
            if x in rows then row.chunkId == rows[x].chunkId && row.aabb == rows[x].aabb
            else row.chunkId == None && row.aabb == None
  {
    if batch != [] {
      var front := batch[..|batch| - 1];
      if x in UpsertAll(rows, front) {
        UpsertAllKeepsRest(rows, front, x);
      } else {
        UpsertAllKeys(rows, front, x);
      }
    }
  }

  ghost predicate SameEntries<T(!new)>(s: seq<T>, t: seq<T>)
  {
    forall x :: x in s <==> x in t
  }

  lemma EntriesFlip<T(!new)>(s: seq<T>, t: seq<T>)
    requires SameEntries(s, t)
    ensures SameEntries(t, s)
  {
  }

  lemma EntryInBoth<T(!new)>(s: seq<T>, t: seq<T>, x: T)
    requires SameEntries(s, t) && x in s
    ensures x in t
  {
  }

  lemma SameRow(rows: Rows, batch: seq<(Id, Id)>, batch': seq<(Id, Id)>, x: Id)
    requires SameEntries(batch, batch')
    requires AllStored(UpsertAll(rows, batch), batch) && AllStored(UpsertAll(rows, batch'), batch')
    requires x in UpsertAll(rows, batch)
    ensures x in UpsertAll(rows, batch') && UpsertAll(rows, batch')[x] == UpsertAll(rows, batch)[x]
  {
    hide UpsertAll;
    if i :| 0 <= i < |batch| && batch[i].0 == x {
      assert batch[i] in batch;
      var j :| 0 <= j < |batch'| && batch'[j] == batch[i];
      assert batch'[j].0 == x;
    } else {
      assert forall j :: 0 <= j < |batch'| ==> batch'[j] in batch' && batch'[j] in batch;
      UntouchedByOthers(rows, batch, x);
      UntouchedByOthers(rows, batch', x);
    }
    UpsertAllKeepsRest(rows, batch, x);
    UpsertAllKeepsRest(rows, batch', x);
  }

  // Two orders in which parents come first give the same tables; and an order in which some do not gives others.
  lemma UpsertOrderIff(rows: Rows, batch: seq<(Id, Id)>, batch': seq<(Id, Id)>)
    requires ParentsStored(rows) && DistinctIds(batch) && DistinctIds(batch') && SameEntries(batch, batch')
    requires ParentsFirst(rows, batch)
    ensures UpsertAll(rows, batch') == UpsertAll(rows, batch) <==> ParentsFirst(rows, batch')
  {
    BatchStoredIff(rows, batch);
    BatchStoredIff(rows, batch');
    if ParentsFirst(rows, batch') {
      UpsertOrderIrrelevant(rows, batch, batch');
    }
    if UpsertAll(rows, batch') == UpsertAll(rows, batch) {
      StoredSamePairs(UpsertAll(rows, batch), batch, batch');
    }
  }

  lemma StoredSamePairs(rows: Rows, batch: seq<(Id, Id)>, batch': seq<(Id, Id)>)
    requires SameEntries(batch, batch') && AllStored(rows, batch)
    ensures AllStored(rows, batch')
  {
    forall j | 0 <= j < |batch'|
      ensures batch'[j].0 in rows && rows[batch'[j].0].parent == batch'[j].1
    {
      assert batch'[j] in batch;
    }
  }

  lemma UpsertOrderIrrelevant(rows: Rows, batch: seq<(Id, Id)>, batch': seq<(Id, Id)>)
    requires DistinctIds(batch) && DistinctIds(batch') && SameEntries(batch, batch')
    requires ParentsFirst(rows, batch) && ParentsFirst(rows, batch')
    ensures UpsertAll(rows, batch) == UpsertAll(rows, batch')
  {
    hide UpsertAll, ParentsFirst, DistinctIds, AllStored;
    UpsertAllStores(rows, batch);
    UpsertAllStores(rows, batch');
    EntriesFlip(batch, batch');
    forall x: Id
      ensures x in UpsertAll(rows, batch) ==>
                x in UpsertAll(rows, batch') && UpsertAll(rows, batch')[x] == UpsertAll(rows, batch)[x]
      ensures x in UpsertAll(rows, batch') ==> x in UpsertAll(rows, batch)
    {
      if x in UpsertAll(rows, batch) {
        SameRow(rows, batch, batch', x);
      }
      if x in UpsertAll(rows, batch') {
        SameRow(rows, batch', batch, x);
      }
    }
  }
}
