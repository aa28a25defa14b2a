/**
 Several batches one after the other, and the order in which the containers of a batch are iterated.
 */
module FlushRuns {
  import opened Options
  import opened Reach
  import opened Aabb
  import opened Chunk
  import opened StreamTables
  import opened LruSpec
  import opened StreamDb
  import opened ObjectFiling
  import opened FlushBatch

  // ---- a run of batches ----

  datatype Batch = Batch(removes: seq<Id>, upserts: seq<(Id, Id)>, dirty: seq<(Id, Box)>)

  // The rows once a batch has removed and upserted, and once it has stored its boxes.
  function Tables(rows: Rows, b: Batch): (r: Rows)
  {
    UpsertAll(rows - IdsOf(b.removes), b.upserts)
  }

  function WithBoxes(rows: Rows, dirty: seq<(Id, Box)>): (r: Rows)
  {
    if dirty == [] then rows
    else WithBox(WithBoxes(rows, dirty[..|dirty| - 1]), dirty[|dirty| - 1].0, dirty[|dirty| - 1].1)
  }

  // What Flush asks for.
  ghost predicate BatchFits(rows: Rows, b: Batch)
  {
    && RemovalClosed(rows, IdsOf(b.removes)) && Writable(Tables(rows, b), b.dirty)
    && forall i :: 0 <= i < |b.dirty| ==> ChainAcyclic(Tables(rows, b), b.dirty[i].0)
  }

  // The parents and boxes of a run, and what it asks for: each batch has to fit what the ones before it left.
  function RunShape(rows: Rows, batches: seq<Batch>): (r: Rows)
    decreases |batches|
  {
    if batches == [] then rows
    else RunShape(WithBoxes(Tables(rows, batches[0]), batches[0].dirty), batches[1..])
  }

  ghost predicate RunFits(rows: Rows, batches: seq<Batch>)
    decreases |batches|
  {
    batches == [] ||
    (BatchFits(rows, batches[0]) && RunFits(WithBoxes(Tables(rows, batches[0]), batches[0].dirty), batches[1..]))
  }

  // The store between two batches.
  datatype Moment = Moment(rows: Rows, cells: map<int, Chunk>, cached: map<Id, Box>)

  // One batch has led from the first moment to the second.
  ghost predicate FlushedFrom(m: Moment, b: Batch, m': Moment, estimate: real -> nat)
  {
    Flushed(Tables(m.rows, b), m.cached - IdsOf(b.removes), b.dirty, m'.rows, m'.cells, estimate)
  }

  // Whatever the batches, fractional boxes included: each finds the store in order, and leaves it so.
  method FlushAll(db: Db, batches: seq<Batch>, estimate: real -> nat) returns (ghost moments: seq<Moment>)
    requires db.Valid() && !db.readOnly && OnGridRows(db.rows) && CachedOnGrid(db.Boxes().items)
    requires RunFits(db.rows, batches)
    modifies db`rows, db`idOf, db`cellOf, db`nextId, db.chunkCache.Repr(), db.aabbCache.Repr()
    ensures db.Valid() && !db.readOnly && OnGridRows(db.rows) && CachedOnGrid(db.Boxes().items)
    ensures |moments| == |batches| + 1 && moments[0] == old(Moment(db.rows, db.cellOf, db.Boxes().items))
    ensures moments[|batches|] == Moment(db.rows, db.cellOf, db.Boxes().items)
    ensures forall i :: 0 <= i < |batches| ==> FlushedFrom(moments[i], batches[i], moments[i + 1], estimate)
    ensures SameShape(RunShape(old(db.rows), batches), db.rows)
    ensures old(db.BoxesCoherentExcept({})) && (forall b :: b in batches ==> AllIntegral(b.dirty)) ==>
              db.BoxesCoherentExcept({})
  {
    hide db.Valid, db.CachesValid, db.BoxesCoherentExcept, db.Boxes, CachedOnGrid, AllIntegral, OnGridRows;
    hide FlushedFrom, SameShape, BatchFits, Tables, WithBoxes, IdsOf;
    ghost var start := Moment(db.rows, db.cellOf, db.Boxes().items);
    moments := [start];
    ghost var shape := db.rows;
    OwnShape(db.rows);
    for i := 0 to |batches|
      invariant db.Valid() && !db.readOnly && OnGridRows(db.rows) && CachedOnGrid(db.Boxes().items)
      invariant forall o: object :: o in db.chunkCache.Repr() ==> o in old(db.chunkCache.Repr()) || fresh(o)
      invariant forall o: object :: o in db.aabbCache.Repr() ==> o in old(db.aabbCache.Repr()) || fresh(o)
      invariant |moments| == i + 1 && moments[0] == start
      invariant moments[i] == Moment(db.rows, db.cellOf, db.Boxes().items)
      invariant forall j :: 0 <= j < i ==> FlushedFrom(moments[j], batches[j], moments[j + 1], estimate)
      invariant SameShape(shape, db.rows) && RunFits(shape, batches[i..])
      invariant RunShape(shape, batches[i..]) == RunShape(old(db.rows), batches)
      invariant old(db.BoxesCoherentExcept({})) && (forall j :: 0 <= j < i ==> AllIntegral(batches[j].dirty)) ==>
                  db.BoxesCoherentExcept({})
    {
      assert batches[i..][0] == batches[i] && batches[i..][1..] == batches[i + 1..];
      FlushOne(db, shape, batches[i], estimate);
      shape := WithBoxes(Tables(shape, batches[i]), batches[i].dirty);
      moments := moments + [Moment(db.rows, db.cellOf, db.Boxes().items)];
    }
  }

  lemma OwnShape(rows: Rows)
    ensures SameShape(rows, rows)
  {
  }

  method FlushOne(db: Db, ghost shape: Rows, b: Batch, estimate: real -> nat)
    requires db.Valid() && !db.readOnly && OnGridRows(db.rows) && CachedOnGrid(db.Boxes().items)
    requires SameShape(shape, db.rows) && BatchFits(shape, b)
    modifies db`rows, db`idOf, db`cellOf, db`nextId, db.chunkCache.Repr(), db.aabbCache.Repr()
    ensures db.Valid() && !db.readOnly && OnGridRows(db.rows) && CachedOnGrid(db.Boxes().items)
    ensures forall o: object :: o in db.chunkCache.Repr() ==> o in old(db.chunkCache.Repr()) || fresh(o)
    ensures forall o: object :: o in db.aabbCache.Repr() ==> o in old(db.aabbCache.Repr()) || fresh(o)
    ensures FlushedFrom(old(Moment(db.rows, db.cellOf, db.Boxes().items)), b,
                        Moment(db.rows, db.cellOf, db.Boxes().items), estimate)
    ensures SameShape(WithBoxes(Tables(shape, b), b.dirty), db.rows)
    ensures old(db.BoxesCoherentExcept({})) && AllIntegral(b.dirty) ==> db.BoxesCoherentExcept({})
  {
    hide db.Valid, db.CachesValid, db.BoxesCoherentExcept, db.Boxes, CachedOnGrid, AllIntegral, OnGridRows;
    hide SameShape, RemovalClosed, Writable, ChainAcyclic, UpsertAll, IdsOf, Flushed;
    ghost var rows0, kept := db.rows, db.Boxes().items - IdsOf(b.removes);
    FitsShape(shape, rows0, b);
    Flush(db, b.removes, b.upserts, b.dirty, estimate);
    FlushedShape(Tables(shape, b), Tables(rows0, b), kept, b.dirty, db.rows, db.cellOf, estimate);
  }

  // What a batch asks for, and the rows it leaves, depend on parents and boxes alone.
  lemma FitsShape(rows: Rows, rows': Rows, b: Batch)
    requires SameShape(rows, rows') && BatchFits(rows, b)
    ensures BatchFits(rows', b) && SameShape(Tables(rows, b), Tables(rows', b))
  {
    hide UpsertAll, ChainAcyclic, InGrid;
    var ids := IdsOf(b.removes);
    UpsertsKeepShape(rows - ids, rows' - ids, b.upserts);
    forall i | 0 <= i < |b.dirty|
      ensures ChainAcyclic(Tables(rows', b), b.dirty[i].0)
    {
      ShapeKeepsChain(Tables(rows, b), Tables(rows', b), b.dirty[i].0);
    }
  }

  lemma ShapeKeepsChain(rows: Rows, rows': Rows, u: Id)
    requires SameShape(rows, rows') && ChainAcyclic(rows, u)
    ensures ChainAcyclic(rows', u)
  {
    hide Above;
    forall a, v: Id
      ensures Above(rows, a, v) <==> Above(rows', a, v)
    {
      ParentsDecideAbove(rows, rows', a, v);
    }
  }

  lemma {:induction false} UpsertsKeepShape(rows: Rows, rows': Rows, batch: seq<(Id, Id)>)
    requires SameShape(rows, rows')
    ensures SameShape(UpsertAll(rows, batch), UpsertAll(rows', batch))
  {
    if batch != [] {
      UpsertsKeepShape(rows, rows', batch[..|batch| - 1]);
    }
  }

  lemma {:induction false} FoldWritten(rows: Rows, dirty: seq<(Id, Box)>)
    requires Writable(rows, dirty)
    ensures BoxesWritten(rows, dirty, WithBoxes(rows, dirty))
  {
    hide WithBox, InGrid, CornersOf;
    if dirty == [] {
      NothingWritten(rows, dirty);
    } else {
      var n := |dirty| - 1;
      FoldWritten(rows, dirty[..n]);
      WriteOneMore(rows, dirty, WithBoxes(rows, dirty[..n]), n);
      assert dirty[..n + 1] == dirty;
    }
  }

  lemma FlushedShape(tables: Rows, tables': Rows, kept: map<Id, Box>, dirty: seq<(Id, Box)>, rows: Rows,
                     cells: map<int, Chunk>, estimate: real -> nat)
    requires SameShape(tables, tables') && Writable(tables, dirty)
    requires Flushed(tables', kept, dirty, rows, cells, estimate)
    ensures SameShape(WithBoxes(tables, dirty), rows)
  {
    hide Filed, FiledBy, Given, Above, InGrid, CornersOf, Mentions;
    FoldWritten(tables, dirty);
    var shape := WithBoxes(tables, dirty);
    forall u | u in rows
      ensures rows[u].aabb == shape[u].aabb
    {
      if Mentions(dirty, u) {
        MentionedAt(dirty, u);
      }
    }
  }

  lemma MentionedAt(dirty: seq<(Id, Box)>, u: Id)
    requires Mentions(dirty, u)
    ensures exists i :: 0 <= i < |dirty| && dirty[i].0 == u
  {
  }

  // ---- order ----

  // The containers are iterated in the order of a hash; it makes no difference. Two batches with the same
  // removals, the same upserts, each with its parents first, and the same boxes with whole corners, on the same
  // tables with any stored boxes cached, leave the same parents and boxes, and the same cell for every object
  // above a changed one.
  lemma FlushOrderIrrelevant(rows0: Rows, cached: map<Id, Box>, cached': map<Id, Box>, removes: seq<Id>,
                             removes': seq<Id>, upserts: seq<(Id, Id)>, upserts': seq<(Id, Id)>,
                             dirty: seq<(Id, Box)>, dirty': seq<(Id, Box)>, rows: Rows, rows': Rows,
                             cells: map<int, Chunk>, cells': map<int, Chunk>, estimate: real -> nat, u: Id)
    requires SameEntries(removes, removes') && SameEntries(upserts, upserts') && SameEntries(dirty, dirty')
    requires DistinctIds(upserts) && DistinctIds(upserts') && AllIntegral(dirty)
    requires Agree(cached, rows0, {}) && Agree(cached', rows0, {})
    requires ParentsFirst(rows0 - IdsOf(removes), upserts) && ParentsFirst(rows0 - IdsOf(removes'), upserts')
    requires Flushed(UpsertAll(rows0 - IdsOf(removes), upserts), cached - IdsOf(removes), dirty, rows, cells, estimate)
    requires Flushed(UpsertAll(rows0 - IdsOf(removes'), upserts'), cached' - IdsOf(removes'), dirty', rows', cells',
                     estimate)
    ensures SameShape(rows, rows')
    ensures !NotAboveDirty(rows, dirty, u) ==>
              && u in rows && rows[u].chunkId.Some? && rows[u].chunkId.value in cells
              && u in rows' && rows'[u].chunkId.Some? && rows'[u].chunkId.value in cells'
              && cells[rows[u].chunkId.value] == cells'[rows'[u].chunkId.value]
    ensures u in rows && NotAboveDirty(rows, dirty, u) ==> rows'[u].chunkId == rows[u].chunkId
  {
    hide Flushed, Above, SameShape, UpsertAll, ParentsFirst, DistinctIds, AllIntegral, NotAboveDirty, Agree, CellFits;
    var ids := IdsOf(removes);
    assert IdsOf(removes') == ids;
    var tables, kept, kept' := UpsertAll(rows0 - ids, upserts), cached - ids, cached' - ids;
    UpsertOrderIrrelevant(rows0 - ids, upserts, upserts');
    SameBoxes(tables, kept, kept', dirty, dirty', rows, rows', cells, cells', estimate);
    ShapeFlips(rows, rows');
    EntriesFlip(dirty, dirty');
    SameIntegral(dirty, dirty');
    if NotAboveDirty(rows, dirty, u) {
      if !NotAboveDirty(rows', dirty', u) {
        AboveSameDirty(dirty', dirty, rows', rows, u);
      }
      Unfiled(tables, kept, dirty, rows, cells, estimate, u);
      Unfiled(tables, kept', dirty', rows', cells', estimate, u);
    } else {
      KeptAgree(rows0, cached, ids, upserts);
      KeptAgree(rows0, cached', ids, upserts);
      AboveSameDirty(dirty, dirty', rows, rows', u);
      FlushedExactly(tables, kept, dirty, rows, cells, estimate, u);
      FlushedExactly(tables, kept', dirty', rows', cells', estimate, u);
      SameCell(rows, rows', cells, cells', estimate, u);
    }
  }

  lemma KeptAgree(rows: Rows, cached: map<Id, Box>, ids: set<Id>, upserts: seq<(Id, Id)>)
    requires Agree(cached, rows, {})
    ensures Agree(cached - ids, UpsertAll(rows - ids, upserts), {})
  {
    hide UpsertAll, StoredBox;
    RemovedAgree(cached, rows, ids);
    forall u | u in cached - ids
      ensures (cached - ids)[u] == StoredBox(UpsertAll(rows - ids, upserts), u)
    {
      UpsertsKeepBox(rows - ids, upserts, u);
    }
  }

  lemma {:induction false} UpsertsKeepBox(rows: Rows, batch: seq<(Id, Id)>, u: Id)
    ensures StoredBox(UpsertAll(rows, batch), u) == StoredBox(rows, u)
  {
    hide Upserted, StoredBox;
    if batch != [] {
      var front, last := UpsertAll(rows, batch[..|batch| - 1]), batch[|batch| - 1];
      UpsertsKeepBox(rows, batch[..|batch| - 1], u);
      UpsertKeepsBox(front, last.0, last.1, u);
    }
  }

  lemma UpsertKeepsBox(rows: Rows, v: Id, parent: Id, u: Id)
    ensures StoredBox(Upserted(rows, v, parent), u) == StoredBox(rows, u)
  {
  }

  lemma ShapeFlips(rows: Rows, rows': Rows)
    requires SameShape(rows, rows')
    ensures SameShape(rows', rows) && rows.Keys == rows'.Keys
  {
  }

  lemma SameIntegral(dirty: seq<(Id, Box)>, dirty': seq<(Id, Box)>)
    requires SameEntries(dirty, dirty') && AllIntegral(dirty)
    ensures AllIntegral(dirty')
  {
    hide Integral;
  }

  lemma Unfiled(tables: Rows, kept: map<Id, Box>, dirty: seq<(Id, Box)>, rows: Rows, cells: map<int, Chunk>,
                estimate: real -> nat, u: Id)
    requires Flushed(tables, kept, dirty, rows, cells, estimate) && NotAboveDirty(rows, dirty, u)
    ensures u in rows ==> u in tables && rows[u].chunkId == tables[u].chunkId
  {
    hide Filed, FiledBy, Given, Above, Mentions, CornersOf, NotAboveDirty;
  }

  lemma AboveSameDirty(dirty: seq<(Id, Box)>, dirty': seq<(Id, Box)>, rows: Rows, rows': Rows, u: Id)
    requires SameEntries(dirty, dirty') && SameShape(rows, rows') && !NotAboveDirty(rows, dirty, u)
    ensures !NotAboveDirty(rows', dirty', u)
  {
    hide Above;
    var i :| 0 <= i < |dirty| && Above(rows, u, dirty[i].0);
    assert dirty[i] in dirty';
    var j :| 0 <= j < |dirty'| && dirty'[j] == dirty[i];
    ParentsDecideAbove(rows, rows', u, dirty'[j].0);
  }

  lemma MentionsSame(dirty: seq<(Id, Box)>, dirty': seq<(Id, Box)>, u: Id)
    requires SameEntries(dirty, dirty') && Mentions(dirty, u)
    ensures Mentions(dirty', u)
  {
    var i :| 0 <= i < |dirty| && dirty[i].0 == u;
    assert dirty[i] in dirty';
  }

  lemma SameBoxes(tables: Rows, kept: map<Id, Box>, kept': map<Id, Box>, dirty: seq<(Id, Box)>, dirty': seq<(Id, Box)>,
                  rows: Rows, rows': Rows, cells: map<int, Chunk>, cells': map<int, Chunk>, estimate: real -> nat)
    requires SameEntries(dirty, dirty')
    requires Flushed(tables, kept, dirty, rows, cells, estimate)
    requires Flushed(tables, kept', dirty', rows', cells', estimate)
    ensures SameShape(rows, rows')
  {
    hide Flushed, SameEntries;
    SameParents(tables, kept, dirty, rows, cells, estimate);
    SameParents(tables, kept', dirty', rows', cells', estimate);
    forall u | u in rows
      ensures rows[u].aabb == rows'[u].aabb
    {
      if Mentions(dirty, u) {
        var i :| 0 <= i < |dirty| && dirty[i].0 == u;
        WrittenBox(tables, kept, dirty, rows, cells, estimate, dirty[i]);
        assert dirty[i] in dirty;
        assert dirty[i] in dirty' by {
          EntryInBoth(dirty, dirty', dirty[i]);
        }
        WrittenBox(tables, kept', dirty', rows', cells', estimate, dirty[i]);
      } else {
        if Mentions(dirty', u) {
          EntriesFlip(dirty, dirty');
          MentionsSame(dirty', dirty, u);
        }
        UnwrittenBox(tables, kept, dirty, rows, cells, estimate, u);
        UnwrittenBox(tables, kept', dirty', rows', cells', estimate, u);
      }
    }
  }

  lemma SameCell(rows: Rows, rows': Rows, cells: map<int, Chunk>, cells': map<int, Chunk>, estimate: real -> nat, u: Id)
    requires SameShape(rows, rows') && u in rows && rows[u].chunkId.Some? && rows[u].chunkId.value in cells
    requires u in rows' && rows'[u].chunkId.Some? && rows'[u].chunkId.value in cells'
    requires CellFits(rows, cells[rows[u].chunkId.value], estimate, u, StoredBox(rows, u))
    requires CellFits(rows', cells'[rows'[u].chunkId.value], estimate, u, StoredBox(rows', u))
    ensures cells[rows[u].chunkId.value] == cells'[rows'[u].chunkId.value]
  {
    hide IsAggregate, InGrid, ComputeChunk;
    var own := StoredBox(rows, u);
    assert StoredBox(rows', u) == own;
    var b :| IsAggregate(rows, u, own, b) && InGrid(b) && cells[rows[u].chunkId.value] == CellOf(b, estimate);
    var b' :| IsAggregate(rows', u, own, b') && InGrid(b') && cells'[rows'[u].chunkId.value] == CellOf(b', estimate);
    ShapeKeepsAggregate(rows, rows', u, own, b);
    AggregateUnique(rows', u, own, b, b');
  }
}
