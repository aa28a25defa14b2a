/**
 One flushed batch on the store: removals, upserts, changed boxes, and then the cells of every changed
 object and of every object above it.
 */
module FlushBatch {
  import opened Options
  import opened Reach
  import opened Aabb
  import opened Chunk
  import opened StreamTables
  import opened LruSpec
  import opened StreamDb
  import opened ObjectFiling
  import StreamManager

  // ---- removals ----

  function IdsOf(ids: seq<Id>): (s: set<Id>)
  {
    set u | u in ids
  }

  // Whatever is stored below a removed object is removed as well.
  ghost predicate RemovalClosed(rows: Rows, ids: set<Id>)
  {
    forall u :: u in rows && rows[u].parent != NIL && rows[u].parent in ids ==> u in ids
  }

  // The manager queues what is registered below the objects asked for. If the parents it has registered are the
  // stored ones, the queue stays closed exactly when no stored object that is not registered hangs below it.
  lemma QueueStaysClosedIff(registry: StreamManager.Registry, children: Children, roots: set<Id>, gone: set<Id>,
                            queued: set<Id>, rows: Rows)
    requires StreamManager.InverseOf(registry, children)
    requires forall u :: u in gone <==> StreamManager.Below(children, roots, u)
    requires forall u :: u in registry && u in rows ==> registry[u].parent == rows[u].parent
    requires RemovalClosed(rows, queued)
    ensures var more := gone * registry.Keys;
            RemovalClosed(rows, queued + more)
            <==> forall u :: u in rows && u !in registry && u !in queued && rows[u].parent != NIL ==>
                   rows[u].parent !in more
  {
    hide StreamManager.Below;
    StreamManager.BelowClosed(children, roots, gone);
    forall u | u in rows && u in registry && rows[u].parent != NIL && rows[u].parent in gone
      ensures u in gone
    {
      assert Edge(children, rows[u].parent, u);
    }
  }

  lemma SubtreeRemoved(rows: Rows, gone: set<Id>, u: Id, ids: set<Id>)
    requires RemovalClosed(rows, ids) && u in ids
    ensures Subtree(rows - gone, u) <= ids
  {
    var left := rows - gone;
    assert Closed(StoredChildren(left), ids);
    forall v | v in Subtree(left, u)
      ensures v in ids
    {
      ClosedHoldsReachable(StoredChildren(left), ids, u, v);
    }
  }

  // Removing one more object: gone are at least the objects removed so far and at most all to be removed.
  lemma RemoveOneMore(rows: Rows, gone: set<Id>, ids: seq<Id>, i: nat) returns (gone': set<Id>)
    requires i < |ids| && RemovalClosed(rows, IdsOf(ids)) && IdsOf(ids[..i]) <= gone <= IdsOf(ids)
    ensures Removed(rows - gone, ids[i]) == rows - gone'
    ensures IdsOf(ids[..i + 1]) <= gone' <= IdsOf(ids)
  {
    hide Reaches, StoredChildren, RemovalClosed;
    var u := ids[i];
    SubtreeRemoved(rows, gone, u, IdsOf(ids));
    var cut := if u in rows - gone then Subtree(rows - gone, u) else {};
    gone' := gone + cut + {u};
    assert forall v :: v in ids[..i + 1] ==> v in ids[..i] || v == u;
    if u in rows - gone {
      SubtreeHasSelf(rows - gone, u);
    }
    assert Removed(rows - gone, u) == rows - gone';
  }

  lemma SubtreeHasSelf(rows: Rows, u: Id)
    requires u in rows
    ensures u in Subtree(rows, u)
  {
    ReachesSelf(StoredChildren(rows), u);
  }

  // Removes every object named, and nothing else from the tables or the cache. Each cascade leaves stale boxes
  // behind, but only of objects still to come.
  method RemoveAll(db: Db, ids: seq<Id>)
    requires db.Valid() && !db.readOnly && RemovalClosed(db.rows, IdsOf(ids))
    modifies db`rows, db.aabbCache.Repr()
    ensures db.Valid()
    ensures forall o: object :: o in db.aabbCache.Repr() ==> o in old(db.aabbCache.Repr()) || fresh(o)
    ensures db.rows == old(db.rows) - IdsOf(ids) && db.Boxes().items == old(db.Boxes()).items - IdsOf(ids)
    ensures old(db.BoxesCoherentExcept({})) ==> db.BoxesCoherentExcept({})
  {
    hide db.Valid, db.CachesValid, db.Boxes, Step, db.aabbCache.Repr, Coherent;
    hide NothingStale, RemovalClosed, Removed, Subtree, IdsOf, Agree;
    ghost var rows0, items0, gone: set<Id> := db.rows, db.Boxes().items, {};
    NothingGone(ids, items0);
    for i := 0 to |ids|
      invariant db.Valid()
      invariant forall o: object :: o in db.aabbCache.Repr() ==> o in old(db.aabbCache.Repr()) || fresh(o)
      invariant db.rows == rows0 - gone && IdsOf(ids[..i]) <= gone <= IdsOf(ids)
      invariant db.Boxes().items == items0 - IdsOf(ids[..i])
    {
      gone := RemoveOneMore(rows0, gone, ids, i);
      DropOneMore(db.Boxes(), items0, ids, i);
      label Before:
      db.RemoveObject(ids[i]);
      assert forall o: object :: o in db.aabbCache.Repr() ==> o in old@Before(db.aabbCache.Repr()) || fresh@Before(o);
    }
    AllGone(ids, gone);
    RemovedAgree(items0, rows0, IdsOf(ids));
  }

  lemma DropOneMore(boxes: Lru<Id, Box>, items: map<Id, Box>, ids: seq<Id>, i: nat)
    requires Coherent(boxes, AABB_CACHE_SIZE) && i < |ids| && boxes.items == items - IdsOf(ids[..i])
    ensures Step(boxes, AABB_CACHE_SIZE, DoRemove(ids[i])).items == items - IdsOf(ids[..i + 1])
  {
    hide Step, Coherent;
    StepItems(boxes, AABB_CACHE_SIZE, DoRemove(ids[i]));
    assert IdsOf(ids[..i + 1]) == IdsOf(ids[..i]) + {ids[i]} by {
      assert ids[..i + 1] == ids[..i] + [ids[i]];
    }
  }

  lemma RemovedAgree(cached: map<Id, Box>, rows: Rows, ids: set<Id>)
    ensures Agree(cached, rows, {}) ==> Agree(cached - ids, rows - ids, {})
  {
  }

  lemma NothingGone(ids: seq<Id>, items: map<Id, Box>)
    ensures IdsOf(ids[..0]) == {} && items - {} == items
  {
  }

  lemma AllGone(ids: seq<Id>, gone: set<Id>)
    requires IdsOf(ids[..|ids|]) <= gone <= IdsOf(ids)
    ensures gone == IdsOf(ids) == IdsOf(ids[..|ids|])
  {
    assert ids[..|ids|] == ids;
  }

  // ---- upserts and boxes ----

  method UpsertBatch(db: Db, batch: seq<(Id, Id)>)
    requires db.Valid() && !db.readOnly
    modifies db`rows
    ensures db.Valid() && db.Boxes() == old(db.Boxes())
    ensures db.rows == UpsertAll(old(db.rows), batch)
    ensures forall u :: StoredBox(db.rows, u) == old(StoredBox(db.rows, u))
    ensures old(db.BoxesCoherentExcept({})) ==> db.BoxesCoherentExcept({})
  {
    hide db.Valid, db.CachesValid, db.Boxes, Upserted, StoredBox;
    for i := 0 to |batch|
      invariant db.Valid() && db.Boxes() == old(db.Boxes())
      invariant db.rows == UpsertAll(old(db.rows), batch[..i])
      invariant forall u :: StoredBox(db.rows, u) == old(StoredBox(db.rows, u))
    {
      assert batch[..i + 1][..i] == batch[..i];
      db.UpsertObject(batch[i].0, batch[i].1);
    }
    assert batch[..|batch|] == batch;
  }

  // Boxes to be written: one for each of some stored objects, with its corner on the grid.
  ghost predicate Writable(rows: Rows, dirty: seq<(Id, Box)>)
  {
    && (forall i :: 0 <= i < |dirty| ==> dirty[i].0 != NIL && dirty[i].0 in rows && InGrid(dirty[i].1))
    && forall i, j :: 0 <= i < j < |dirty| ==> dirty[i].0 != dirty[j].0
  }

  lemma WritableMore(rows: Rows, dirty: seq<(Id, Box)>, u: Id, box: Box)
    ensures Writable(rows, [])
    ensures Writable(rows, dirty + [(u, box)])
            <==> Writable(rows, dirty) && !Mentions(dirty, u) && u != NIL && u in rows && InGrid(box)
  {
    hide InGrid;
    var more := dirty + [(u, box)];
    assert more[|dirty|] == (u, box) && forall i :: 0 <= i < |dirty| ==> more[i] == dirty[i];
  }

  // The boxes are in the table and nothing else has changed.
  ghost predicate BoxesWritten(rows: Rows, dirty: seq<(Id, Box)>, rows': Rows)
  {
    && rows'.Keys == rows.Keys
    && (forall u :: u in rows ==> rows'[u].parent == rows[u].parent && rows'[u].chunkId == rows[u].chunkId)
    && (forall i :: 0 <= i < |dirty| ==> dirty[i].0 in rows && rows'[dirty[i].0].aabb == Some(CornersOf(dirty[i].1)))
    && forall u :: u in rows && !Mentions(dirty, u) ==> rows'[u].aabb == rows[u].aabb
  }

  lemma WriteOneMore(rows: Rows, dirty: seq<(Id, Box)>, rows': Rows, i: nat)
    requires i < |dirty| && Writable(rows, dirty) && BoxesWritten(rows, dirty[..i], rows')
    ensures BoxesWritten(rows, dirty[..i + 1], WithBox(rows', dirty[i].0, dirty[i].1))
  {
    hide Integral, InGrid, CornersOf, Mentions;
    var next, now := dirty[..i + 1], WithBox(rows', dirty[i].0, dirty[i].1);
    forall j | 0 <= j < |next|
      ensures next[j].0 in rows && now[next[j].0].aabb == Some(CornersOf(next[j].1))
    {
      if j < i {
        assert next[j] == dirty[..i][j] && dirty[j].0 != dirty[i].0;
      }
    }
    forall u | u in rows && !Mentions(next, u)
      ensures now[u].aabb == rows[u].aabb
    {
      MentionsFewer(dirty, i, u);
    }
  }

  lemma MentionsFewer(dirty: seq<(Id, Box)>, i: nat, u: Id)
    requires i < |dirty| && !Mentions(dirty[..i + 1], u)
    ensures !Mentions(dirty[..i], u) && u != dirty[i].0
  {
  }

  method StoreBoxes(db: Db, dirty: seq<(Id, Box)>)
    requires db.Valid() && !db.readOnly && Writable(db.rows, dirty)
    modifies db`rows, db.aabbCache.Repr()
    ensures db.Valid() && Holds(db.Boxes().items, db.rows, Given(old(db.Boxes()).items, dirty))
    ensures forall o: object :: o in db.aabbCache.Repr() ==> o in old(db.aabbCache.Repr()) || fresh(o)
    ensures BoxesWritten(old(db.rows), dirty, db.rows)
  {
    hide db.Valid, db.CachesValid, db.Boxes, db.aabbCache.Repr, WithBox, Writable, BoxesWritten, Holds, Agree, Step;
    hide Coherent, StoredBox, Given;
    ghost var rows0, cached := db.rows, db.Boxes().items;
    NothingWritten(rows0, dirty);
    CachedIsKnown(cached, db.rows, dirty);
    for i := 0 to |dirty|
      invariant db.Valid() && Holds(db.Boxes().items, db.rows, Given(cached, dirty[..i]))
      invariant forall o: object :: o in db.aabbCache.Repr() ==> o in old(db.aabbCache.Repr()) || fresh(o)
      invariant BoxesWritten(rows0, dirty[..i], db.rows)
    {
      WriteOneMore(rows0, dirty, db.rows, i);
      PutHolds(db.Boxes(), db.rows, cached, dirty, i);
      label Before:
      db.SetObjectAabb(dirty[i].0, dirty[i].1);
      assert forall o: object :: o in db.aabbCache.Repr() ==> o in old@Before(db.aabbCache.Repr()) || fresh@Before(o);
    }
    assert dirty[..|dirty|] == dirty;
  }

  lemma NothingWritten(rows: Rows, dirty: seq<(Id, Box)>)
    ensures BoxesWritten(rows, dirty[..0], rows)
  {
  }

  // Given boxes with whole corners are what the table holds.
  lemma GivenIsStored(rows: Rows, dirty: seq<(Id, Box)>, x: (Id, Box))
    requires x in dirty && x.0 in rows && rows[x.0].aabb == Some(CornersOf(x.1)) && Integral(x.1)
    ensures StoredBox(rows, x.0) == x.1
  {
    hide Integral, CornersOf;
    StoreLoadExact(x.1);
  }

  lemma StoredCornerInGrid(rows: Rows, u: Id, box: Box)
    requires u in rows && rows[u].aabb == Some(CornersOf(box)) && InGrid(box)
    ensures InGrid(StoredBox(rows, u))
  {
    LoadedIsIntegral(CornersOf(box));
  }

  ghost predicate CachedOnGrid(cached: map<Id, Box>)
  {
    forall u :: u in cached ==> InGrid(cached[u])
  }

  lemma WrittenBoxes(rows: Rows, dirty: seq<(Id, Box)>, rows': Rows, cached: map<Id, Box>)
    requires OnGridRows(rows) && CachedOnGrid(cached) && Writable(rows, dirty) && BoxesWritten(rows, dirty, rows')
    ensures OnGridRows(rows') && GivenOnGrid(Given(cached, dirty))
  {
    hide InGrid, CornersOf;
    forall u | u in rows'
      ensures InGrid(StoredBox(rows', u))
    {
      if Mentions(dirty, u) {
        var i :| 0 <= i < |dirty| && dirty[i].0 == u;
        StoredCornerInGrid(rows', u, dirty[i].1);
      } else {
        assert StoredBox(rows', u) == StoredBox(rows, u);
      }
    }
  }

  // ---- filing everything that changed ----

  // No object that comes later in the list is below the i-th one.
  ghost predicate NoneLaterBelow(rows: Rows, dirty: seq<(Id, Box)>, i: nat)
    requires i < |dirty|
  {
    forall j :: i < j < |dirty| ==> !Above(rows, dirty[i].0, dirty[j].0)
  }

  // Every object from which a changed one can be reached has been filed, a changed one below which no later one
  // is by the box given for it; the others are where they were.
  ghost predicate DirtyFiled(shape: Rows, rows: Rows, cells: map<int, Chunk>, f: Filing, dirty: seq<(Id, Box)>)
  {
    && SameShape(shape, rows)
    && (forall a, i :: 0 <= i < |dirty| && Above(shape, a, dirty[i].0) ==> Filed(rows, cells, f, a))
    && (forall i :: 0 <= i < |dirty| && NoneLaterBelow(shape, dirty, i) ==>
          FiledBy(rows, cells, f, dirty[i].0, dirty[i].1))
    && forall v :: v in rows && (forall i :: 0 <= i < |dirty| ==> !Above(shape, v, dirty[i].0)) ==> rows[v] == shape[v]
  }

  method FileDirty(db: Db, dirty: seq<(Id, Box)>, estimate: real -> nat, ghost f: Filing)
    requires Ready(db, f.given) && f.estimate == estimate && ParentsStored(db.rows)
    requires forall i :: 0 <= i < |dirty| ==>
               dirty[i] in f.given && dirty[i].0 != NIL && dirty[i].0 in db.rows && ChainAcyclic(db.rows, dirty[i].0)
    modifies db`rows, db`idOf, db`cellOf, db`nextId, db.chunkCache.Repr(), db.aabbCache.Repr()
    ensures Ready(db, f.given)
    ensures forall o: object :: o in db.chunkCache.Repr() ==> o in old(db.chunkCache.Repr()) || fresh(o)
    ensures forall o: object :: o in db.aabbCache.Repr() ==> o in old(db.aabbCache.Repr()) || fresh(o)
    ensures DirtyFiled(old(db.rows), db.rows, db.cellOf, f, dirty)
  {
    hide Ready, db.chunkCache.Repr, db.aabbCache.Repr;
    hide DirtyFiled, Filed, FiledBy, Above, SameShape, ParentsStored, ChainAcyclic, CellsGrow, FiledUpFrom;
    ghost var shape := db.rows;
    NothingFiled(shape, db.cellOf, f, dirty);
    for i := 0 to |dirty|
      invariant Ready(db, f.given)
      invariant forall o: object :: o in db.chunkCache.Repr() ==> o in old(db.chunkCache.Repr()) || fresh(o)
      invariant forall o: object :: o in db.aabbCache.Repr() ==> o in old(db.aabbCache.Repr()) || fresh(o)
      invariant DirtyFiled(shape, db.rows, db.cellOf, f, dirty[..i])
    {
      ghost var rows1, cells1 := db.rows, db.cellOf;
      FiledShape(shape, rows1, cells1, f, dirty[..i]);
      FileWithAncestors(db, dirty[i].0, dirty[i].1, estimate, f, shape);
      FiledOneMore(shape, rows1, cells1, db.rows, db.cellOf, f, dirty, i);
    }
    assert dirty[..|dirty|] == dirty;
  }

  lemma NothingFiled(shape: Rows, cells: map<int, Chunk>, f: Filing, dirty: seq<(Id, Box)>)
    ensures DirtyFiled(shape, shape, cells, f, dirty[..0])
  {
  }

  lemma FiledShape(shape: Rows, rows: Rows, cells: map<int, Chunk>, f: Filing, done: seq<(Id, Box)>)
    requires DirtyFiled(shape, rows, cells, f, done)
    ensures SameShape(shape, rows)
  {
  }

  lemma FiledOneMore(shape: Rows, rows: Rows, cells: map<int, Chunk>, rows': Rows, cells': map<int, Chunk>,
                     f: Filing, dirty: seq<(Id, Box)>, i: nat)
    requires i < |dirty| && DirtyFiled(shape, rows, cells, f, dirty[..i])
    requires FiledUpFrom(shape, rows, cells, rows', cells', f, dirty[i].0, dirty[i].1)
    ensures DirtyFiled(shape, rows', cells', f, dirty[..i + 1])
  {
    hide FiledUpFrom, Filed, FiledBy, Above, CellsGrow, NoneLaterBelow, SameShape;
    var next := dirty[..i + 1];
    forall k | 0 <= k < |next| && NoneLaterBelow(shape, next, k)
      ensures FiledBy(rows', cells', f, next[k].0, next[k].1)
    {
      OwnOneMore(shape, rows, cells, rows', cells', f, dirty, i, k);
    }
    forall a, j | 0 <= j < |next| && Above(shape, a, next[j].0)
      ensures Filed(rows', cells', f, a)
    {
      AboveOneMore(shape, rows, cells, rows', cells', f, dirty, i, a, j);
    }
    forall v | v in rows' && forall j :: 0 <= j < |next| ==> !Above(shape, v, next[j].0)
      ensures v in shape && rows'[v] == shape[v]
    {
      assert forall j :: 0 <= j <= i ==> next[j].0 == dirty[j].0;
      RestOneMore(shape, rows, cells, rows', cells', f, dirty, i, v);
    }
    UpFromShape(shape, rows, cells, rows', cells', f, dirty[i].0, dirty[i].1);
  }

  lemma UpFromShape(shape: Rows, rows: Rows, cells: map<int, Chunk>, rows': Rows, cells': map<int, Chunk>,
                    f: Filing, u: Id, own: Box)
    requires FiledUpFrom(shape, rows, cells, rows', cells', f, u, own)
    ensures SameShape(shape, rows')
  {
  }

  // Three parts of that, one for each thing that is said of who has been filed.
  lemma OwnOneMore(shape: Rows, rows: Rows, cells: map<int, Chunk>, rows': Rows, cells': map<int, Chunk>,
                   f: Filing, dirty: seq<(Id, Box)>, i: nat, k: nat)
    requires k <= i < |dirty| && DirtyFiled(shape, rows, cells, f, dirty[..i])
    requires FiledUpFrom(shape, rows, cells, rows', cells', f, dirty[i].0, dirty[i].1)
    requires NoneLaterBelow(shape, dirty[..i + 1], k)
    ensures FiledBy(rows', cells', f, dirty[k].0, dirty[k].1)
  {
    hide Filed, FiledBy, Above, CellsGrow, NoneLaterBelow;
    if k < i {
      FewerLater(shape, dirty, i, k);
      assert rows'[dirty[k].0] == rows[dirty[k].0] by {
        FiledByRow(rows, cells, f, dirty[k].0, dirty[k].1);
      }
      StillFiledBy(rows, cells, rows', cells', f, dirty[k].0, dirty[k].1);
    }
  }

  lemma AboveOneMore(shape: Rows, rows: Rows, cells: map<int, Chunk>, rows': Rows, cells': map<int, Chunk>,
                     f: Filing, dirty: seq<(Id, Box)>, i: nat, a: Id, j: nat)
    requires j <= i < |dirty| && DirtyFiled(shape, rows, cells, f, dirty[..i]) && Above(shape, a, dirty[j].0)
    requires FiledUpFrom(shape, rows, cells, rows', cells', f, dirty[i].0, dirty[i].1)
    ensures Filed(rows', cells', f, a)
  {
    hide Filed, FiledBy, Above, CellsGrow, NoneLaterBelow, SameShape;
    if j < i {
      assert dirty[..i][j].0 == dirty[j].0;
      FiledHasRow(rows, cells, f, a);
    }
  }

  lemma RestOneMore(shape: Rows, rows: Rows, cells: map<int, Chunk>, rows': Rows, cells': map<int, Chunk>,
                    f: Filing, dirty: seq<(Id, Box)>, i: nat, v: Id)
    requires i < |dirty| && DirtyFiled(shape, rows, cells, f, dirty[..i]) && v in rows'
    requires FiledUpFrom(shape, rows, cells, rows', cells', f, dirty[i].0, dirty[i].1)
    requires forall j :: 0 <= j <= i ==> !Above(shape, v, dirty[j].0)
    ensures v in shape && rows'[v] == shape[v]
  {
    hide Filed, FiledBy, Above, CellsGrow, NoneLaterBelow;
    assert forall j :: 0 <= j < i ==> dirty[..i][j].0 == dirty[j].0;
  }

  lemma FewerLater(shape: Rows, dirty: seq<(Id, Box)>, i: nat, k: nat)
    requires k < i < |dirty| && NoneLaterBelow(shape, dirty[..i + 1], k)
    ensures dirty[..i][k] == dirty[..i + 1][k] == dirty[k]
    ensures NoneLaterBelow(shape, dirty[..i], k) && !Above(shape, dirty[k].0, dirty[i].0)
  {
    hide Above;
    var next := dirty[..i + 1];
    assert next[i] == dirty[i] && next[k] == dirty[k];
    assert forall j :: k < j < i ==> dirty[..i][j] == next[j];
  }

  // ---- the whole batch ----

  // What a batch leaves behind, given the rows and cached boxes after its removals and upserts: the parents are
  // theirs, the changed boxes are in the table, and in the final tables each changed object and everything above
  // it is filed under the cell of its aggregate. A changed object with no later one below it goes by the box
  // given for it.
  ghost predicate Flushed(tables: Rows, kept: map<Id, Box>, dirty: seq<(Id, Box)>, rows: Rows, cells: map<int, Chunk>,
                          estimate: real -> nat)
  {
    var f := Filing(estimate, Given(kept, dirty));
    && rows.Keys == tables.Keys
    && (forall u :: u in rows ==> rows[u].parent == tables[u].parent)
    && (forall i :: 0 <= i < |dirty| ==> dirty[i].0 in rows && rows[dirty[i].0].aabb == Some(CornersOf(dirty[i].1)))
    && (forall u :: u in rows && !Mentions(dirty, u) ==> rows[u].aabb == tables[u].aabb)
    && (forall a, i :: 0 <= i < |dirty| && Above(rows, a, dirty[i].0) ==> Filed(rows, cells, f, a))
    && (forall i :: 0 <= i < |dirty| && NoneLaterBelow(rows, dirty, i) ==>
          FiledBy(rows, cells, f, dirty[i].0, dirty[i].1))
    && forall v :: v in rows && NotAboveDirty(rows, dirty, v) ==> rows[v].chunkId == tables[v].chunkId
  }

  ghost predicate NotAboveDirty(rows: Rows, dirty: seq<(Id, Box)>, v: Id)
  {
    forall i :: 0 <= i < |dirty| ==> !Above(rows, v, dirty[i].0)
  }

  lemma ParentsDecideAbove(rows: Rows, rows': Rows, a: Id, u: Id)
    requires rows.Keys == rows'.Keys && forall v :: v in rows ==> rows[v].parent == rows'[v].parent
    ensures Above(rows, a, u) <==> Above(rows', a, u)
  {
    hide Reaches;
    if Above(rows, a, u) {
      ReachesMonotone(StoredChildren(rows), StoredChildren(rows'), a, u);
    }
    if Above(rows', a, u) {
      ReachesMonotone(StoredChildren(rows'), StoredChildren(rows), a, u);
    }
  }

  lemma BoxesKeepChain(tables: Rows, dirty: seq<(Id, Box)>, shape: Rows, u: Id)
    requires BoxesWritten(tables, dirty, shape) && ChainAcyclic(tables, u)
    ensures ChainAcyclic(shape, u)
  {
    hide Above, CornersOf, Mentions;
    forall a | a in shape && Above(shape, a, u) && shape[a].parent != NIL
      ensures !Above(shape, a, shape[a].parent)
    {
      ParentsDecideAbove(tables, shape, a, u);
      ParentsDecideAbove(tables, shape, a, shape[a].parent);
    }
  }

  lemma BoxesKeepParents(tables: Rows, kept: map<Id, Box>, dirty: seq<(Id, Box)>, shape: Rows)
    requires BoxesWritten(tables, dirty, shape) && ParentsStored(tables) && Writable(tables, dirty)
    requires forall i :: 0 <= i < |dirty| ==> ChainAcyclic(tables, dirty[i].0)
    ensures ParentsStored(shape)
    ensures forall i :: 0 <= i < |dirty| ==>
              && dirty[i] in Given(kept, dirty)
              && dirty[i].0 != NIL && dirty[i].0 in shape && ChainAcyclic(shape, dirty[i].0)
  {
    hide ChainAcyclic, CornersOf, Mentions, InGrid;
    forall i | 0 <= i < |dirty|
      ensures ChainAcyclic(shape, dirty[i].0)
    {
      BoxesKeepChain(tables, dirty, shape, dirty[i].0);
    }
  }

  lemma FlushedOf(tables: Rows, kept: map<Id, Box>, dirty: seq<(Id, Box)>, shape: Rows, rows: Rows,
                  cells: map<int, Chunk>, estimate: real -> nat)
    requires BoxesWritten(tables, dirty, shape)
    requires DirtyFiled(shape, rows, cells, Filing(estimate, Given(kept, dirty)), dirty)
    ensures Flushed(tables, kept, dirty, rows, cells, estimate)
  {
    hide Filed, FiledBy, Above, CornersOf, Mentions, Given, NoneLaterBelow;
    forall a, u: Id
      ensures Above(rows, a, u) <==> Above(shape, a, u)
    {
      ParentsDecideAbove(shape, rows, a, u);
    }
    forall i | 0 <= i < |dirty| && NoneLaterBelow(rows, dirty, i)
      ensures NoneLaterBelow(shape, dirty, i)
    {
      ShapeKeepsNoneLater(rows, shape, dirty, i);
    }
  }

  lemma ShapeKeepsNoneLater(rows: Rows, rows': Rows, dirty: seq<(Id, Box)>, i: nat)
    requires SameShape(rows', rows) && i < |dirty| && NoneLaterBelow(rows, dirty, i)
    ensures NoneLaterBelow(rows', dirty, i)
  {
    hide Above;
    forall j | i < j < |dirty|
      ensures !Above(rows', dirty[i].0, dirty[j].0)
    {
      ParentsDecideAbove(rows', rows, dirty[i].0, dirty[j].0);
    }
  }

  // Removing and re-parenting keep every stored box on the grid.
  lemma StillOnGrid(rows: Rows, ids: set<Id>, rows': Rows)
    requires OnGridRows(rows) && forall u :: StoredBox(rows', u) == StoredBox(rows - ids, u)
    ensures OnGridRows(rows')
  {
    DefaultInGrid();
    forall u | u in rows'
      ensures InGrid(StoredBox(rows', u))
    {
      assert StoredBox(rows - ids, u) == if u in ids then DEFAULT_BOX else StoredBox(rows, u);
    }
  }

  ghost predicate AllIntegral(dirty: seq<(Id, Box)>)
  {
    forall x: (Id, Box) :: x in dirty ==> Integral(x.1)
  }

  // One batch: removals, upserts, boxes, and then the cells. Whatever is cached at the start must be on the grid,
  // and so it is at the end.
  method Flush(db: Db, removes: seq<Id>, upserts: seq<(Id, Id)>, dirty: seq<(Id, Box)>, estimate: real -> nat)
    requires db.Valid() && !db.readOnly && OnGridRows(db.rows) && CachedOnGrid(db.Boxes().items)
    requires RemovalClosed(db.rows, IdsOf(removes))
    requires var tables := UpsertAll(db.rows - IdsOf(removes), upserts);
             Writable(tables, dirty) && forall i :: 0 <= i < |dirty| ==> ChainAcyclic(tables, dirty[i].0)
    modifies db`rows, db`idOf, db`cellOf, db`nextId, db.chunkCache.Repr(), db.aabbCache.Repr()
    ensures db.Valid() && !db.readOnly && OnGridRows(db.rows) && CachedOnGrid(db.Boxes().items)
    ensures forall o: object :: o in db.chunkCache.Repr() ==> o in old(db.chunkCache.Repr()) || fresh(o)
    ensures forall o: object :: o in db.aabbCache.Repr() ==> o in old(db.aabbCache.Repr()) || fresh(o)
    ensures Flushed(UpsertAll(old(db.rows) - IdsOf(removes), upserts), old(db.Boxes()).items - IdsOf(removes), dirty,
                    db.rows, db.cellOf, estimate)
    ensures old(db.BoxesCoherentExcept({})) && AllIntegral(dirty) ==> db.BoxesCoherentExcept({})
  {
    hide db.Valid, db.CachesValid, db.BoxesCoherentExcept, db.Boxes, Holds, CachedOnGrid, GivenOnGrid, AllIntegral;
    hide Filed, FiledBy, Flushed, DirtyFiled, BoxesWritten, UpsertAll, IdsOf, RemovalClosed, ParentsStored;
    hide OnGridRows, StoredBox, Given, Above, ChainAcyclic, Writable;
    ReprsApart(db);
    RemoveAndUpsert(db, removes, upserts);
    ghost var tables, kept := db.rows, db.Boxes().items;
    TablesHaveParents(db);
    ghost var exact := old(db.BoxesCoherentExcept({})) && AllIntegral(dirty);
    CoherentAgree(db);
    StoreBoxes(db, dirty);
    ghost var shape := db.rows;
    WrittenBoxes(tables, dirty, shape, kept);
    BoxesKeepParents(tables, kept, dirty, shape);
    FileDirty(db, dirty, estimate, Filing(estimate, Given(kept, dirty)));
    FlushedOf(tables, kept, dirty, shape, db.rows, db.cellOf, estimate);
    ReadyOnGrid(db, Given(kept, dirty));
    if exact {
      HeldIsStored(db, tables, kept, dirty, estimate);
    }
  }

  // The first two parts of a batch.
  method RemoveAndUpsert(db: Db, removes: seq<Id>, upserts: seq<(Id, Id)>)
    requires db.Valid() && !db.readOnly && OnGridRows(db.rows) && CachedOnGrid(db.Boxes().items)
    requires RemovalClosed(db.rows, IdsOf(removes))
    modifies db`rows, db.aabbCache.Repr()
    ensures db.Valid() && OnGridRows(db.rows) && CachedOnGrid(db.Boxes().items)
    ensures forall o: object :: o in db.aabbCache.Repr() ==> o in old(db.aabbCache.Repr()) || fresh(o)
    ensures db.rows == UpsertAll(old(db.rows) - IdsOf(removes), upserts)
    ensures db.Boxes().items == old(db.Boxes()).items - IdsOf(removes)
    ensures old(db.BoxesCoherentExcept({})) ==> db.BoxesCoherentExcept({})
  {
    hide db.Valid, db.CachesValid, db.BoxesCoherentExcept, db.Boxes, CachedOnGrid, UpsertAll, IdsOf, RemovalClosed;
    hide OnGridRows, StoredBox;
    ghost var rows0, cached := db.rows, db.Boxes().items;
    RemoveAll(db, removes);
    UpsertBatch(db, upserts);
    StillOnGrid(rows0, IdsOf(removes), db.rows);
    FewerOnGrid(cached, IdsOf(removes));
  }

  lemma FewerOnGrid(cached: map<Id, Box>, ids: set<Id>)
    requires CachedOnGrid(cached)
    ensures CachedOnGrid(cached - ids)
  {
  }

  lemma CoherentAgree(db: Db)
    requires db.Valid()
    ensures db.BoxesCoherentExcept({}) <==> Agree(db.Boxes().items, db.rows, {})
  {
  }

  lemma ReadyOnGrid(db: Db, given: set<(Id, Box)>)
    requires Ready(db, given)
    ensures db.Valid() && !db.readOnly && OnGridRows(db.rows) && CachedOnGrid(db.Boxes().items)
  {
    hide db.Valid, db.CachesValid, db.Boxes, InGrid, StoredBox;
    var cached := db.Boxes().items;
    forall u | u in cached
      ensures InGrid(cached[u])
    {
      if u in db.rows {
        OwnInGrid(db.rows, given, u, cached[u]);
      } else {
        DefaultInGrid();
        UnstoredBox(db.rows, u);
      }
    }
  }

  lemma UnstoredBox(rows: Rows, u: Id)
    requires u !in rows
    ensures StoredBox(rows, u) == DEFAULT_BOX
  {
  }

  lemma TablesHaveParents(db: Db)
    requires db.Valid()
    ensures ParentsStored(db.rows)
  {
  }

  lemma SameParents(tables: Rows, kept: map<Id, Box>, dirty: seq<(Id, Box)>, rows: Rows, cells: map<int, Chunk>,
                    estimate: real -> nat)
    requires Flushed(tables, kept, dirty, rows, cells, estimate)
    ensures rows.Keys == tables.Keys && forall u :: u in rows ==> rows[u].parent == tables[u].parent
  {
    hide Filed, FiledBy, Given, Above, Mentions, CornersOf;
  }

  lemma WrittenBox(tables: Rows, kept: map<Id, Box>, dirty: seq<(Id, Box)>, rows: Rows, cells: map<int, Chunk>,
                   estimate: real -> nat, x: (Id, Box))
    requires Flushed(tables, kept, dirty, rows, cells, estimate) && x in dirty
    ensures x.0 in rows && rows[x.0].aabb == Some(CornersOf(x.1))
  {
    hide Filed, FiledBy, Given, Above, Mentions, CornersOf;
  }

  lemma UnwrittenBox(tables: Rows, kept: map<Id, Box>, dirty: seq<(Id, Box)>, rows: Rows, cells: map<int, Chunk>,
                     estimate: real -> nat, u: Id)
    requires Flushed(tables, kept, dirty, rows, cells, estimate) && u in rows && !Mentions(dirty, u)
    ensures u in tables && rows[u].aabb == tables[u].aabb
  {
    hide Filed, FiledBy, Given, Above, Mentions, CornersOf;
  }

  // With whole corners, and none but stored boxes kept in the cache, nothing but what the table holds is an own box.
  lemma OwnIsStored(tables: Rows, kept: map<Id, Box>, dirty: seq<(Id, Box)>, rows: Rows, cells: map<int, Chunk>,
                    estimate: real -> nat, u: Id, own: Box)
    requires Flushed(tables, kept, dirty, rows, cells, estimate) && AllIntegral(dirty) && Agree(kept, tables, {})
    requires OwnBox(rows, Given(kept, dirty), u, own)
    ensures own == StoredBox(rows, u)
  {
    hide Flushed, AllIntegral, Integral, CornersOf, StoredBox, Mentions, Agree;
    if (u, own) in dirty {
      WrittenBox(tables, kept, dirty, rows, cells, estimate, (u, own));
      assert Integral(own) by {
        GivenIntegral(dirty, (u, own));
      }
      GivenIsStored(rows, dirty, (u, own));
    } else if own != StoredBox(rows, u) {
      KeptBox(tables, kept, dirty, u, own);
      SameParents(tables, kept, dirty, rows, cells, estimate);
      if u in rows {
        UnwrittenBox(tables, kept, dirty, rows, cells, estimate, u);
        SameBoxStored(tables, rows, u);
      } else {
        UnstoredBox(tables, u);
        UnstoredBox(rows, u);
      }
    }
  }

  lemma KeptBox(tables: Rows, kept: map<Id, Box>, dirty: seq<(Id, Box)>, u: Id, own: Box)
    requires Agree(kept, tables, {}) && (u, own) in Given(kept, dirty) && (u, own) !in dirty
    ensures own == StoredBox(tables, u) && !Mentions(dirty, u)
  {
    hide StoredBox, Mentions;
  }

  lemma SameBoxStored(rows: Rows, rows': Rows, u: Id)
    requires u in rows && u in rows' && rows[u].aabb == rows'[u].aabb
    ensures StoredBox(rows, u) == StoredBox(rows', u)
  {
  }

  lemma GivenIntegral(dirty: seq<(Id, Box)>, x: (Id, Box))
    requires AllIntegral(dirty) && x in dirty
    ensures Integral(x.1)
  {
  }

  lemma HeldIsStored(db: Db, tables: Rows, kept: map<Id, Box>, dirty: seq<(Id, Box)>, estimate: real -> nat)
    requires Ready(db, Given(kept, dirty)) && AllIntegral(dirty) && Agree(kept, tables, {})
    requires Flushed(tables, kept, dirty, db.rows, db.cellOf, estimate)
    ensures db.BoxesCoherentExcept({})
  {
    hide db.Valid, db.CachesValid, db.Boxes, AllIntegral, Flushed, OwnBox, StoredBox, OnGridRows, GivenOnGrid, Given;
    var cached := db.Boxes().items;
    forall u | u in cached
      ensures cached[u] == StoredBox(db.rows, u)
    {
      OwnIsStored(tables, kept, dirty, db.rows, db.cellOf, estimate, u, cached[u]);
    }
  }

  // For boxes with whole corners and a cache of stored ones: the cell is that of the stored box merged with the
  // children's, and a changed object's stored box is the one given.
  lemma FlushedExactly(tables: Rows, kept: map<Id, Box>, dirty: seq<(Id, Box)>, rows: Rows, cells: map<int, Chunk>,
                       estimate: real -> nat, u: Id)
    requires Flushed(tables, kept, dirty, rows, cells, estimate) && AllIntegral(dirty) && Agree(kept, tables, {})
    ensures forall i :: 0 <= i < |dirty| ==> StoredBox(rows, dirty[i].0) == dirty[i].1
    ensures !NotAboveDirty(rows, dirty, u) ==> FiledBy(rows, cells, Filing(estimate, {}), u, StoredBox(rows, u))
  {
    hide Flushed, Agree, CellFits, OwnBox, CornersOf, AllIntegral, Integral, StoredBox, NotAboveDirty, Given;
    forall i | 0 <= i < |dirty|
      ensures StoredBox(rows, dirty[i].0) == dirty[i].1
    {
      WrittenBox(tables, kept, dirty, rows, cells, estimate, dirty[i]);
      GivenIntegral(dirty, dirty[i]);
      GivenIsStored(rows, dirty, dirty[i]);
    }
    if !NotAboveDirty(rows, dirty, u) {
      FlushedAbove(tables, kept, dirty, rows, cells, estimate, u);
      var f := Filing(estimate, Given(kept, dirty));
      var own :| OwnBox(rows, f.given, u, own) && FiledBy(rows, cells, f, u, own);
      OwnIsStored(tables, kept, dirty, rows, cells, estimate, u, own);
    }
  }

  lemma FlushedAbove(tables: Rows, kept: map<Id, Box>, dirty: seq<(Id, Box)>, rows: Rows, cells: map<int, Chunk>,
                     estimate: real -> nat, u: Id)
    requires Flushed(tables, kept, dirty, rows, cells, estimate) && !NotAboveDirty(rows, dirty, u)
    ensures Filed(rows, cells, Filing(estimate, Given(kept, dirty)), u)
  {
    hide Filed, FiledBy, Given, Above, Mentions;
  }
}
