/**
 Which cell an object is filed under, and the walk that files a changed object and everything above it.
 */
module ObjectFiling {
  import opened Options
  import opened Reach
  import opened Aabb
  import opened Chunk
  import opened StreamTables
  import opened SpatialIndex
  import opened LruSpec
  import opened StreamDb

  // ---- what an object is filed under ----

  // How boxes are turned into cells: the estimate of the level, and the boxes other than the stored ones that
  // objects may be filed by.
  datatype Filing = Filing(estimate: real -> nat, given: set<(Id, Box)>)

  // Those boxes are the ones the batch was given and, for other objects, the ones that were cached before.
  ghost function Given(cached: map<Id, Box>, dirty: seq<(Id, Box)>): (given: set<(Id, Box)>)
  {
    (set x | x in cached.Items && !Mentions(dirty, x.0)) + set x | x in dirty
  }

  // An object's own box: the stored one, or another one known for it. Storing cuts fractions off, so a given box
  // is the stored one exactly if its corners are whole.
  predicate OwnBox(rows: Rows, given: set<(Id, Box)>, u: Id, own: Box)
  {
    own == StoredBox(rows, u) || (u, own) in given
  }

  // The least box around the object's own box and the boxes of its direct children.
  ghost predicate IsAggregate(rows: Rows, u: Id, own: Box, b: Box)
  {
    forall c: Box :: c.Encloses(b) <==> c.Encloses(own) && EnclosesChildren(c, rows, u)
  }

  // There is only one, whatever the order in which boxes are merged.
  lemma AggregateUnique(rows: Rows, u: Id, own: Box, b: Box, b': Box)
    requires IsAggregate(rows, u, own, b) && IsAggregate(rows, u, own, b')
    ensures b == b'
  {
    assert b.Encloses(b) && b'.Encloses(b');
    assert b.Encloses(b') && b'.Encloses(b);
    EnclosesAntisymmetric(b, b');
  }

  function CellOf(b: Box, estimate: real -> nat): (c: Chunk)
    requires InGrid(b)
  {
    ComputeChunk(b, estimate(LongestSide(b)))
  }

  // What that cell is: of the level that is right for the box and the estimate for its longest side, on the grid of
  // this level, and holding the truncated corner, except for negative coordinates from level 16 on.
  ghost predicate RightCell(c: Chunk, b: Box, estimate: real -> nat)
  {
    && (exists m :: IsLongest(m, b.size) && RightLevel(c.level, b.size, estimate(m)))
    && OnGrid(c)
    && (c.level <= 15 || (b.position.x >= 0.0 && b.position.y >= 0.0 && b.position.z >= 0.0) ==>
          CellHolds(c, Trunc(b.position.x), Trunc(b.position.y), Trunc(b.position.z)))
    && (c.level >= 16 ==> c.x == 0 && c.y == 0 && c.z == 0)
  }

  lemma CellIsRight(b: Box, estimate: real -> nat)
    requires InGrid(b)
    ensures RightCell(CellOf(b, estimate), b, estimate)
  {
    hide ComputeChunk, RightLevel, OnGrid, CellHolds, LongestSide, Trunc;
    var m := LongestSide(b);
    OneLongest(b, m);
    LevelOfBox(b, estimate(m));
    ChunkHoldsCorner(b, estimate(m));
    CellOfBox(b, estimate(m));
    TruncTowardsZero(b.position.x);
    TruncTowardsZero(b.position.y);
    TruncTowardsZero(b.position.z);
  }

  // The cell is the one computed from the object's aggregate.
  ghost predicate CellFits(rows: Rows, c: Chunk, estimate: real -> nat, u: Id, own: Box)
  {
    exists b :: IsAggregate(rows, u, own, b) && InGrid(b) && c == CellOf(b, estimate)
  }

  // The object is filed under such a cell, by this box of its own.
  ghost predicate FiledBy(rows: Rows, cellOf: map<int, Chunk>, f: Filing, u: Id, own: Box)
  {
    && u in rows && rows[u].chunkId.Some? && rows[u].chunkId.value in cellOf
    && CellFits(rows, cellOf[rows[u].chunkId.value], f.estimate, u, own)
  }

  ghost predicate Filed(rows: Rows, cellOf: map<int, Chunk>, f: Filing, u: Id)
  {
    exists own :: OwnBox(rows, f.given, u, own) && FiledBy(rows, cellOf, f, u, own)
  }

  lemma FiledByRow(rows: Rows, cells: map<int, Chunk>, f: Filing, u: Id, own: Box)
    requires FiledBy(rows, cells, f, u, own)
    ensures u in rows
  {
  }

  lemma FiledHasRow(rows: Rows, cells: map<int, Chunk>, f: Filing, u: Id)
    requires Filed(rows, cells, f, u)
    ensures u in rows
  {
  }

  // The cell an object is filed under is the right one for its aggregate.
  ghost predicate FiledRight(rows: Rows, cells: map<int, Chunk>, estimate: real -> nat, u: Id, own: Box)
  {
    && u in rows && rows[u].chunkId.Some? && rows[u].chunkId.value in cells
    && exists b :: IsAggregate(rows, u, own, b) && RightCell(cells[rows[u].chunkId.value], b, estimate)
  }

  // So it is for whoever is filed.
  lemma FiledRightly(rows: Rows, cells: map<int, Chunk>, f: Filing, u: Id, own: Box)
    requires FiledBy(rows, cells, f, u, own)
    ensures FiledRight(rows, cells, f.estimate, u, own)
  {
    hide IsAggregate, InGrid, CellOf, RightCell;
    var c := cells[rows[u].chunkId.value];
    var b :| IsAggregate(rows, u, own, b) && InGrid(b) && c == CellOf(b, f.estimate);
    CellIsRight(b, f.estimate);
  }

  ghost predicate CellsGrow(cells: map<int, Chunk>, cells': map<int, Chunk>)
  {
    forall i :: i in cells ==> i in cells' && cells'[i] == cells[i]
  }

  lemma ShapeKeepsAggregate(rows: Rows, rows': Rows, u: Id, own: Box, b: Box)
    requires SameShape(rows, rows') && IsAggregate(rows, u, own, b)
    ensures IsAggregate(rows', u, own, b)
  {
    forall c: Box
      ensures EnclosesChildren(c, rows', u) <==> EnclosesChildren(c, rows, u)
    {
      SameChildren(rows, rows', u, c);
    }
  }

  lemma SameChildren(rows: Rows, rows': Rows, u: Id, c: Box)
    requires SameShape(rows, rows')
    ensures EnclosesChildren(c, rows', u) <==> EnclosesChildren(c, rows, u)
  {
    assert forall v :: StoredBox(rows', v) == StoredBox(rows, v);
  }

  lemma ShapeKeepsFit(rows: Rows, rows': Rows, c: Chunk, estimate: real -> nat, u: Id, own: Box)
    requires SameShape(rows, rows') && CellFits(rows, c, estimate, u, own)
    ensures CellFits(rows', c, estimate, u, own)
  {
    hide IsAggregate, InGrid, ComputeChunk, SameShape;
    var b :| IsAggregate(rows, u, own, b) && InGrid(b) && c == CellOf(b, estimate);
    ShapeKeepsAggregate(rows, rows', u, own, b);
  }

  lemma ShapeKeepsOwn(rows: Rows, rows': Rows, given: set<(Id, Box)>, u: Id, own: Box)
    requires SameShape(rows, rows') && OwnBox(rows, given, u, own)
    ensures OwnBox(rows', given, u, own)
  {
  }

  // Filing another object, or adding cells, leaves an object filed.
  lemma StillFiledBy(rows: Rows, cells: map<int, Chunk>, rows': Rows, cells': map<int, Chunk>, f: Filing, u: Id,
                     own: Box)
    requires SameShape(rows, rows') && CellsGrow(cells, cells')
    requires FiledBy(rows, cells, f, u, own) && rows'[u] == rows[u]
    ensures FiledBy(rows', cells', f, u, own)
  {
    hide CellFits;
    var id := rows[u].chunkId.value;
    ShapeKeepsFit(rows, rows', cells[id], f.estimate, u, own);
    assert id in cells' && cells'[id] == cells[id];
  }

  lemma StillFiled(rows: Rows, cells: map<int, Chunk>, rows': Rows, cells': map<int, Chunk>, f: Filing, u: Id)
    requires SameShape(rows, rows') && u in rows && Filed(rows, cells, f, u) && rows'[u] == rows[u]
    requires CellsGrow(cells, cells')
    ensures Filed(rows', cells', f, u)
  {
    hide FiledBy, OwnBox, CellsGrow;
    var own :| OwnBox(rows, f.given, u, own) && FiledBy(rows, cells, f, u, own);
    ShapeKeepsOwn(rows, rows', f.given, u, own);
    StillFiledBy(rows, cells, rows', cells', f, u, own);
  }

  // ---- what the cache may hold meanwhile ----

  // Every cached box is an own box of its object.
  ghost predicate Holds(cached: map<Id, Box>, rows: Rows, given: set<(Id, Box)>)
  {
    forall u :: u in cached ==> OwnBox(rows, given, u, cached[u])
  }

  // Before any box is stored, whatever is cached is a known box.
  lemma CachedIsKnown(cached: map<Id, Box>, rows: Rows, dirty: seq<(Id, Box)>)
    ensures Holds(cached, rows, Given(cached, dirty[..0]))
  {
    forall u | u in cached
      ensures (u, cached[u]) in Given(cached, dirty[..0])
    {
      assert (u, cached[u]) in cached.Items;
    }
  }

  lemma ShapeKeepsHolds(cached: map<Id, Box>, rows: Rows, rows': Rows, given: set<(Id, Box)>)
    requires SameShape(rows, rows') && Holds(cached, rows, given)
    ensures Holds(cached, rows', given)
  {
    hide SameShape, OwnBox;
    forall u | u in cached
      ensures OwnBox(rows', given, u, cached[u])
    {
      ShapeKeepsOwn(rows, rows', given, u, cached[u]);
    }
  }

  lemma AskHolds(boxes: Lru<Id, Box>, rows: Rows, given: set<(Id, Box)>, u: Id)
    requires Coherent(boxes, AABB_CACHE_SIZE) && Holds(boxes.items, rows, given)
    ensures OwnBox(rows, given, u, Seen(boxes, rows, u))
    ensures Holds(Step(boxes, AABB_CACHE_SIZE, AskOp(boxes, rows, u)).items, rows, given)
  {
    hide Step, StoredBox;
    StepItems(boxes, AABB_CACHE_SIZE, AskOp(boxes, rows, u));
  }

  // Storing one more given box.
  lemma PutHolds(boxes: Lru<Id, Box>, rows: Rows, cached: map<Id, Box>, dirty: seq<(Id, Box)>, i: nat)
    requires Coherent(boxes, AABB_CACHE_SIZE) && i < |dirty| && Holds(boxes.items, rows, Given(cached, dirty[..i]))
    ensures var (u, box) := dirty[i];
            var after := Step(boxes, AABB_CACHE_SIZE, DoPut(u, box));
            Holds(after.items, WithBox(rows, u, box), Given(cached, dirty[..i + 1]))
  {
    hide Step, StoredBox, Mentions, WithBox;
    var (u, box) := dirty[i];
    var rows', after := WithBox(rows, u, box), Step(boxes, AABB_CACHE_SIZE, DoPut(u, box)).items;
    StepItems(boxes, AABB_CACHE_SIZE, DoPut(u, box));
    forall v | v in after
      ensures OwnBox(rows', Given(cached, dirty[..i + 1]), v, after[v])
    {
      if v == u {
        assert dirty[..i + 1][i] == (u, box);
      } else {
        OtherStored(rows, u, box, v);
        if after[v] != StoredBox(rows, v) {
          GivenStays(cached, dirty, i, v, after[v]);
        }
      }
    }
  }

  lemma OtherStored(rows: Rows, u: Id, box: Box, v: Id)
    requires v != u
    ensures StoredBox(WithBox(rows, u, box), v) == StoredBox(rows, v)
  {
  }

  lemma GivenStays(cached: map<Id, Box>, dirty: seq<(Id, Box)>, i: nat, v: Id, own: Box)
    requires i < |dirty| && v != dirty[i].0 && (v, own) in Given(cached, dirty[..i])
    ensures (v, own) in Given(cached, dirty[..i + 1])
  {
    var less, more := dirty[..i], dirty[..i + 1];
    assert more == less + [dirty[i]];
    if Mentions(more, v) {
      var j :| 0 <= j < |more| && more[j].0 == v;
      assert less[j].0 == v;
    }
  }

  ghost predicate Mentions(dirty: seq<(Id, Box)>, u: Id)
  {
    exists i :: 0 <= i < |dirty| && dirty[i].0 == u
  }

  // ---- boxes stay on the 32-bit grid ----

  ghost predicate OnGridRows(rows: Rows)
  {
    forall u :: u in rows ==> InGrid(StoredBox(rows, u))
  }

  ghost predicate GivenOnGrid(given: set<(Id, Box)>)
  {
    forall x: (Id, Box) :: x in given ==> InGrid(x.1)
  }

  lemma OwnInGrid(rows: Rows, given: set<(Id, Box)>, u: Id, own: Box)
    requires OnGridRows(rows) && GivenOnGrid(given) && u in rows && OwnBox(rows, given, u, own)
    ensures InGrid(own)
  {
    hide InGrid, StoredBox;
  }

  lemma MergeInGrid(a: Box, b: Box)
    requires InGrid(a) && InGrid(b)
    ensures InGrid(a.Merge(b))
  {
  }

  lemma DefaultInGrid()
    ensures InGrid(DEFAULT_BOX)
  {
  }

  // ---- filing one object ----

  method AggregateOf(db: Db, u: Id, own: Box) returns (agg: Box)
    requires u != NIL && InGrid(own) && OnGridRows(db.rows)
    ensures InGrid(agg) && IsAggregate(db.rows, u, own, agg)
  {
    hide MergeAll, own.Merge, ListsChildren, IsAggregate, InGrid, OnGridRows, StoredBox;
    var children := db.QueryChildrenAabb(u);
    ListedInGrid(db.rows, u, children);
    MergeAllNothing(own);
    agg := own;
    ghost var boxes := [];
    for i := 0 to |children|
      invariant |boxes| == i && forall j :: 0 <= j < i ==> boxes[j] == children[j].1
      invariant agg == MergeAll(own, boxes) && InGrid(agg)
    {
      MergeInGrid(agg, children[i].1);
      MergeAllMore(own, boxes, children[i].1);
      boxes := boxes + [children[i].1];
      agg := agg.Merge(children[i].1);
    }
    MergedIsAggregate(db.rows, u, own, children, boxes);
  }

  lemma ListedInGrid(rows: Rows, u: Id, children: seq<(Id, Box)>)
    requires ListsChildren(rows, u, children) && OnGridRows(rows)
    ensures forall i :: 0 <= i < |children| ==> InGrid(children[i].1)
  {
  }

  ghost predicate EnclosesChildren(c: Box, rows: Rows, u: Id)
  {
    forall v :: v in rows && rows[v].parent == u ==> c.Encloses(StoredBox(rows, v))
  }

  lemma ListedBox(rows: Rows, u: Id, children: seq<(Id, Box)>, boxes: seq<Box>, v: Id)
    requires ListsChildren(rows, u, children) && ChildOf(rows, u, v)
    requires |boxes| == |children| && forall j :: 0 <= j < |boxes| ==> boxes[j] == children[j].1
    ensures StoredBox(rows, v) in boxes
  {
    var i :| 0 <= i < |children| && children[i] == (v, StoredBox(rows, v));
    assert boxes[i] in boxes;
  }

  lemma BoxListed(rows: Rows, u: Id, children: seq<(Id, Box)>, boxes: seq<Box>, x: Box)
    requires ListsChildren(rows, u, children) && x in boxes
    requires |boxes| == |children| && forall j :: 0 <= j < |boxes| ==> boxes[j] == children[j].1
    ensures exists v :: ChildOf(rows, u, v) && x == StoredBox(rows, v)
  {
    var i :| 0 <= i < |boxes| && boxes[i] == x;
    assert children[i] in children;
  }

  lemma EnclosesListing(c: Box, rows: Rows, u: Id, children: seq<(Id, Box)>, boxes: seq<Box>)
    requires u != NIL && ListsChildren(rows, u, children)
    requires |boxes| == |children| && forall j :: 0 <= j < |boxes| ==> boxes[j] == children[j].1
    ensures EnclosesChildren(c, rows, u) <==> forall x :: x in boxes ==> c.Encloses(x)
  {
    hide ListsChildren;
    if EnclosesChildren(c, rows, u) {
      forall x | x in boxes
        ensures c.Encloses(x)
      {
        BoxListed(rows, u, children, boxes, x);
      }
    }
    if forall x :: x in boxes ==> c.Encloses(x) {
      forall v | v in rows && rows[v].parent == u
        ensures c.Encloses(StoredBox(rows, v))
      {
        ListedBox(rows, u, children, boxes, v);
      }
    }
  }

  lemma MergedIsAggregate(rows: Rows, u: Id, own: Box, children: seq<(Id, Box)>, boxes: seq<Box>)
    requires u != NIL && ListsChildren(rows, u, children)
    requires |boxes| == |children| && forall j :: 0 <= j < |boxes| ==> boxes[j] == children[j].1
    ensures IsAggregate(rows, u, own, MergeAll(own, boxes))
  {
    hide ListsChildren, EnclosesChildren, MergeAll;
    forall c: Box
      ensures c.Encloses(MergeAll(own, boxes)) <==> c.Encloses(own) && EnclosesChildren(c, rows, u)
    {
      MergeAllLeast(own, boxes, c);
      EnclosesListing(c, rows, u, children, boxes);
    }
  }

  // Nothing but the cell of one object changes, and the table of cells may grow.
  ghost predicate Refiled(rows: Rows, cells: map<int, Chunk>, rows': Rows, cells': map<int, Chunk>, u: Id)
  {
    && SameShape(rows, rows')
    && (forall v :: v in rows' && v != u ==> rows'[v] == rows[v])
    && CellsGrow(cells, cells')
  }

  // A writable store whose boxes are on the grid and whose cached boxes are own boxes of their objects.
  ghost predicate Ready(db: Db, given: set<(Id, Box)>)
    reads db, db.chunkCache, db.chunkCache.items, db.chunkCache.items.buckets, db.chunkCache.policy,
          db.aabbCache, db.aabbCache.items, db.aabbCache.items.buckets, db.aabbCache.policy
  {
    db.Valid() && Holds(db.Boxes().items, db.rows, given) && !db.readOnly && OnGridRows(db.rows) && GivenOnGrid(given)
  }

  method FileUnder(db: Db, u: Id, own: Box, estimate: real -> nat, ghost f: Filing)
    requires Ready(db, f.given) && f.estimate == estimate
    requires u != NIL && u in db.rows && InGrid(own) && OwnBox(db.rows, f.given, u, own)
    modifies db`rows, db`idOf, db`cellOf, db`nextId, db.chunkCache.Repr()
    ensures Ready(db, f.given) && db.Boxes() == old(db.Boxes())
    ensures forall o: object :: o in db.chunkCache.Repr() ==> o in old(db.chunkCache.Repr()) || fresh(o)
    ensures forall o: object :: o in db.aabbCache.Repr() ==> o in old(db.aabbCache.Repr()) || fresh(o)
    ensures Refiled(old(db.rows), old(db.cellOf), db.rows, db.cellOf, u)
    ensures Filed(db.rows, db.cellOf, f, u) && FiledBy(db.rows, db.cellOf, f, u, own)
    ensures FiledRight(db.rows, db.cellOf, estimate, u, own)
  {
    hide db.Valid, db.CachesValid, db.BoxesCoherentExcept, db.Boxes, IsAggregate, InGrid, ComputeChunk, OwnBox, Holds;
    hide FiledBy, Filed, FiledRight, OnGridRows, StoredBox, GivenOnGrid, RightCell;
    ReprsApart(db);
    var agg := AggregateOf(db, u, own);
    ghost var rows0 := db.rows;
    var id := FileCell(db, u, CellOf(agg, estimate));
    FiledUnder(rows0, db.rows, db.cellOf, f, u, own, agg, id);
    FiledRightly(db.rows, db.cellOf, f, u, own);
    ShapeKeepsGrid(rows0, db.rows);
    ShapeKeepsHolds(db.Boxes().items, rows0, db.rows, f.given);
  }

  // Finds the identifier of the cell and files the object under it.
  method FileCell(db: Db, u: Id, c: Chunk) returns (id: int)
    requires db.Valid() && !db.readOnly && u in db.rows
    modifies db`rows, db`idOf, db`cellOf, db`nextId, db.chunkCache.Repr()
    ensures db.Valid() && db.Boxes() == old(db.Boxes())
    ensures forall o: object :: o in db.chunkCache.Repr() ==> o in old(db.chunkCache.Repr()) || fresh(o)
    ensures forall o: object :: o in db.aabbCache.Repr() ==> o in old(db.aabbCache.Repr()) || fresh(o)
    ensures Refiled(old(db.rows), old(db.cellOf), db.rows, db.cellOf, u)
    ensures u in db.rows && db.rows[u].chunkId == Some(id) && id in db.cellOf && db.cellOf[id] == c
  {
    hide db.Valid, db.CachesValid, db.BoxesCoherentExcept, db.Boxes, db.chunkCache.State, StoredBox;
    ReprsApart(db);
    id := db.QueryChunk(c);
    db.SetObjectChunk(u, id);
  }

  lemma FiledUnder(rows0: Rows, rows: Rows, cells: map<int, Chunk>, f: Filing, u: Id, own: Box, agg: Box, id: int)
    requires SameShape(rows0, rows) && IsAggregate(rows0, u, own, agg) && InGrid(agg) && OwnBox(rows0, f.given, u, own)
    requires u in rows && rows[u].chunkId == Some(id) && id in cells && cells[id] == CellOf(agg, f.estimate)
    ensures Filed(rows, cells, f, u) && FiledBy(rows, cells, f, u, own)
  {
    hide SameShape, IsAggregate, InGrid, OwnBox, ComputeChunk;
    ShapeKeepsAggregate(rows0, rows, u, own, agg);
    ShapeKeepsOwn(rows0, rows, f.given, u, own);
  }

  lemma ShapeKeepsGrid(rows: Rows, rows': Rows)
    requires SameShape(rows, rows') && OnGridRows(rows)
    ensures OnGridRows(rows')
  {
    hide InGrid;
    assert forall u :: StoredBox(rows', u) == StoredBox(rows, u);
  }

  // The same for an object whose own box has to be looked up.
  method FileStored(db: Db, u: Id, estimate: real -> nat, ghost f: Filing)
    requires Ready(db, f.given) && f.estimate == estimate && u != NIL && u in db.rows
    modifies db`rows, db`idOf, db`cellOf, db`nextId, db.chunkCache.Repr(), db.aabbCache.Repr()
    ensures Ready(db, f.given)
    ensures forall o: object :: o in db.chunkCache.Repr() ==> o in old(db.chunkCache.Repr()) || fresh(o)
    ensures forall o: object :: o in db.aabbCache.Repr() ==> o in old(db.aabbCache.Repr()) || fresh(o)
    ensures Refiled(old(db.rows), old(db.cellOf), db.rows, db.cellOf, u) && Filed(db.rows, db.cellOf, f, u)
  {
    hide db.Valid, db.CachesValid, db.BoxesCoherentExcept, db.Boxes, Holds, Filed, StoredBox, OnGridRows, OwnBox, Step;
    hide InGrid, GivenOnGrid, Coherent;
    ReprsApart(db);
    AskHolds(db.Boxes(), db.rows, f.given, u);
    var own := db.GetObjectAabb(u);
    OwnInGrid(db.rows, f.given, u, own);
    FileUnder(db, u, own, estimate, f);
  }

  // ---- the walk to the root ----

  // a is u or one of the objects on u's parent chain.
  ghost predicate Above(rows: Rows, a: Id, u: Id)
  {
    Reaches(StoredChildren(rows), a, u)
  }

  lemma AboveSelf(rows: Rows, u: Id)
    ensures Above(rows, u, u)
  {
    ReachesSelf(StoredChildren(rows), u);
  }

  // Whoever is above u is u itself or above u's parent.
  lemma AboveStep(rows: Rows, u: Id, a: Id)
    requires Above(rows, a, u) && a != u
    ensures u in rows && rows[u].parent != NIL && Above(rows, a, rows[u].parent)
  {
    LastStep(StoredChildren(rows), a, u);
  }

  lemma ParentAbove(rows: Rows, u: Id, v: Id)
    requires u in rows && rows[u].parent != NIL && Above(rows, u, v)
    ensures Above(rows, rows[u].parent, v)
  {
    ReachesFromParent(StoredChildren(rows), rows[u].parent, u, v);
  }

  // Nobody on the chain is above his own parent.
  ghost predicate ChainAcyclic(rows: Rows, u: Id)
  {
    forall a :: a in rows && Above(rows, a, u) && rows[a].parent != NIL ==> !Above(rows, a, rows[a].parent)
  }

  // The start of the walk: files the changed object by the box given for it and reads its parent.
  method FileFirst(db: Db, u: Id, own: Box, estimate: real -> nat, ghost f: Filing, ghost shape: Rows)
    returns (next: Id)
    requires Ready(db, f.given) && f.estimate == estimate && SameShape(shape, db.rows)
    requires u != NIL && u in shape && (u, own) in f.given
    modifies db`rows, db`idOf, db`cellOf, db`nextId, db.chunkCache.Repr()
    ensures Ready(db, f.given)
    ensures forall o: object :: o in db.chunkCache.Repr() ==> o in old(db.chunkCache.Repr()) || fresh(o)
    ensures forall o: object :: o in db.aabbCache.Repr() ==> o in old(db.aabbCache.Repr()) || fresh(o)
    ensures FiledSoFar(shape, old(db.rows), old(db.cellOf), db.rows, db.cellOf, f, {u})
    ensures FiledBy(db.rows, db.cellOf, f, u, own)
    ensures next == shape[u].parent
  {
    hide Ready, FiledSoFar, Refiled, Filed, FiledBy, SameShape, OwnBox, InGrid;
    ghost var rows0, cells0 := db.rows, db.cellOf;
    FiledAtFirst(shape, rows0, cells0, f);
    ShapeParent(shape, rows0, cells0, rows0, cells0, f, {}, u);
    GivenOwn(db, f.given, u, own);
    FileUnder(db, u, own, estimate, f);
    NextFiled(shape, rows0, cells0, rows0, cells0, db.rows, db.cellOf, f, {}, u);
    assert {} + {u} == {u};
    ShapeParent(shape, rows0, cells0, db.rows, db.cellOf, f, {u}, u);
    next := db.QueryObject(u);
  }

  // One step of the walk: files the object and reads its parent.
  method FileNext(db: Db, u: Id, estimate: real -> nat, ghost f: Filing, ghost shape: Rows, ghost rows0: Rows,
                  ghost cells0: map<int, Chunk>, ghost visited: set<Id>)
    returns (next: Id)
    requires Ready(db, f.given) && f.estimate == estimate && u != NIL && u in shape
    requires FiledSoFar(shape, rows0, cells0, db.rows, db.cellOf, f, visited)
    modifies db`rows, db`idOf, db`cellOf, db`nextId, db.chunkCache.Repr(), db.aabbCache.Repr()
    ensures Ready(db, f.given)
    ensures forall o: object :: o in db.chunkCache.Repr() ==> o in old(db.chunkCache.Repr()) || fresh(o)
    ensures forall o: object :: o in db.aabbCache.Repr() ==> o in old(db.aabbCache.Repr()) || fresh(o)
    ensures FiledSoFar(shape, rows0, cells0, db.rows, db.cellOf, f, visited + {u})
    ensures Refiled(old(db.rows), old(db.cellOf), db.rows, db.cellOf, u)
    ensures next == shape[u].parent
  {
    hide Ready, FiledSoFar, Refiled, Filed;
    ghost var rows1, cells1 := db.rows, db.cellOf;
    ShapeParent(shape, rows0, cells0, rows1, cells1, f, visited, u);
    next := db.QueryObject(u);
    FileStored(db, u, estimate, f);
    NextFiled(shape, rows0, cells0, rows1, cells1, db.rows, db.cellOf, f, visited, u);
  }

  // One object and everything above it have been filed anew.
  ghost predicate FiledUpFrom(shape: Rows, rows: Rows, cells: map<int, Chunk>, rows': Rows, cells': map<int, Chunk>,
                              f: Filing, u: Id, own: Box)
  {
    && SameShape(shape, rows') && CellsGrow(cells, cells') && FiledBy(rows', cells', f, u, own)
    && (forall a :: Above(shape, a, u) ==> Filed(rows', cells', f, a))
    && (forall v :: v in rows && Filed(rows, cells, f, v) ==> Filed(rows', cells', f, v))
    && forall v :: v in rows' && !Above(shape, v, u) ==> v in rows && rows'[v] == rows[v]
  }

  // Files an object and then each object on its parent chain, up to the root.
  method FileWithAncestors(db: Db, u: Id, own: Box, estimate: real -> nat, ghost f: Filing, ghost shape: Rows)
    requires Ready(db, f.given) && f.estimate == estimate
    requires SameShape(shape, db.rows) && ParentsStored(shape) && ChainAcyclic(shape, u)
    requires u != NIL && u in shape && (u, own) in f.given
    modifies db`rows, db`idOf, db`cellOf, db`nextId, db.chunkCache.Repr(), db.aabbCache.Repr()
    ensures Ready(db, f.given)
    ensures forall o: object :: o in db.chunkCache.Repr() ==> o in old(db.chunkCache.Repr()) || fresh(o)
    ensures forall o: object :: o in db.aabbCache.Repr() ==> o in old(db.aabbCache.Repr()) || fresh(o)
    ensures FiledUpFrom(shape, old(db.rows), old(db.cellOf), db.rows, db.cellOf, f, u, own)
  {
    hide Ready, db.chunkCache.Repr, db.aabbCache.Repr;
    hide Climbed, FiledSoFar, Refiled, Filed, FiledBy, Above, SameShape, ParentsStored, ChainAcyclic, OwnBox;
    hide CellsGrow, FiledUpFrom;
    ghost var rows0, cells0 := db.rows, db.cellOf;
    var parent := FileFirst(db, u, own, estimate, f, shape);
    ghost var current, visited := u, {u};
    StartClimb(shape, u);
    while parent != NIL
      invariant Ready(db, f.given)
      invariant forall o: object :: o in db.chunkCache.Repr() ==> o in old(db.chunkCache.Repr()) || fresh(o)
      invariant forall o: object :: o in db.aabbCache.Repr() ==> o in old(db.aabbCache.Repr()) || fresh(o)
      invariant Climbed(shape, u, current, parent, visited)
      invariant FiledSoFar(shape, rows0, cells0, db.rows, db.cellOf, f, visited)
      invariant FiledBy(db.rows, db.cellOf, f, u, own)
      decreases |shape.Keys - visited|
    {
      NotVisited(shape, u, current, parent, visited);
      Climb(shape, u, current, parent, visited);
      SmallerRest(shape.Keys, visited, parent);
      ghost var rows1, cells1 := db.rows, db.cellOf;
      var next := FileNext(db, parent, estimate, f, shape, rows0, cells0, visited);
      OtherRefiled(rows1, cells1, db.rows, db.cellOf, f, u, own, parent);
      visited := visited + {parent};
      current, parent := parent, next;
    }
    AllClimbed(shape, rows0, cells0, db.rows, db.cellOf, f, u, own, current, visited);
  }

  lemma OtherRefiled(rows: Rows, cells: map<int, Chunk>, rows': Rows, cells': map<int, Chunk>, f: Filing, u: Id,
                     own: Box, other: Id)
    requires Refiled(rows, cells, rows', cells', other) && u != other && FiledBy(rows, cells, f, u, own)
    ensures FiledBy(rows', cells', f, u, own)
  {
    hide CellFits, CellsGrow;
    StillFiledBy(rows, cells, rows', cells', f, u, own);
  }

  lemma GivenOwn(db: Db, given: set<(Id, Box)>, u: Id, own: Box)
    requires (u, own) in given && Ready(db, given)
    ensures OwnBox(db.rows, given, u, own) && InGrid(own)
  {
  }

  // current is the last object filed, visited are all of them, parent comes next.
  ghost predicate Climbed(shape: Rows, u: Id, current: Id, parent: Id, visited: set<Id>)
  {
    && current in shape && parent == shape[current].parent && visited <= shape.Keys
    && (forall v :: v in visited ==> Above(shape, current, v) && Above(shape, v, u))
    && Above(shape, current, u) && u in visited
    && forall a :: Above(shape, a, u) ==> a in visited || (parent != NIL && Above(shape, a, parent))
  }

  // Exactly the visited objects have been refiled; who was filed before still is.
  ghost predicate FiledSoFar(shape: Rows, rows0: Rows, cells0: map<int, Chunk>, rows: Rows, cells: map<int, Chunk>,
                             f: Filing, visited: set<Id>)
  {
    && SameShape(shape, rows0) && SameShape(shape, rows)
    && (forall a :: a in visited ==> Filed(rows, cells, f, a))
    && CellsGrow(cells0, cells)
    && (forall v :: v in rows0 && Filed(rows0, cells0, f, v) ==> Filed(rows, cells, f, v))
    && forall v :: v in rows && v !in visited ==> rows[v] == rows0[v]
  }

  lemma SmallerRest(all: set<Id>, visited: set<Id>, x: Id)
    requires x in all && x !in visited
    ensures |all - (visited + {x})| < |all - visited|
  {
    assert all - visited == all - (visited + {x}) + {x};
  }

  // On an acyclic chain the parent has not been visited.
  lemma NotVisited(shape: Rows, u: Id, current: Id, parent: Id, visited: set<Id>)
    requires ParentsStored(shape) && ChainAcyclic(shape, u)
    requires Climbed(shape, u, current, parent, visited) && parent != NIL
    ensures parent in shape && parent !in visited && parent != u
  {
  }

  lemma StartClimb(shape: Rows, u: Id)
    requires u in shape
    ensures Climbed(shape, u, u, shape[u].parent, {u})
  {
    hide Above;
    AboveSelf(shape, u);
    forall a | Above(shape, a, u) && a != u
      ensures shape[u].parent != NIL && Above(shape, a, shape[u].parent)
    {
      AboveStep(shape, u, a);
    }
  }

  lemma Climb(shape: Rows, u: Id, current: Id, parent: Id, visited: set<Id>)
    requires Climbed(shape, u, current, parent, visited) && parent != NIL && parent in shape
    ensures Climbed(shape, u, parent, shape[parent].parent, visited + {parent})
  {
    hide Above;
    ParentAbove(shape, current, u);
    AboveSelf(shape, parent);
    forall v | v in visited
      ensures Above(shape, parent, v)
    {
      ParentAbove(shape, current, v);
    }
    forall a | Above(shape, a, parent) && a != parent
      ensures shape[parent].parent != NIL && Above(shape, a, shape[parent].parent)
    {
      AboveStep(shape, parent, a);
    }
  }

  lemma ShapeParent(shape: Rows, rows0: Rows, cells0: map<int, Chunk>, rows: Rows, cells: map<int, Chunk>,
                    f: Filing, visited: set<Id>, u: Id)
    requires FiledSoFar(shape, rows0, cells0, rows, cells, f, visited) && u in shape
    ensures u in rows && rows[u].parent == shape[u].parent
  {
  }

  lemma FiledAtFirst(shape: Rows, rows: Rows, cells: map<int, Chunk>, f: Filing)
    requires SameShape(shape, rows)
    ensures FiledSoFar(shape, rows, cells, rows, cells, f, {})
  {
  }

  lemma GrowTwice(cells0: map<int, Chunk>, cells: map<int, Chunk>, cells': map<int, Chunk>)
    requires CellsGrow(cells0, cells) && CellsGrow(cells, cells')
    ensures CellsGrow(cells0, cells')
  {
  }

  // Filing u keeps everybody else filed who was.
  lemma NextFiled(shape: Rows, rows0: Rows, cells0: map<int, Chunk>, rows: Rows, cells: map<int, Chunk>,
                  rows': Rows, cells': map<int, Chunk>, f: Filing, visited: set<Id>, u: Id)
    requires FiledSoFar(shape, rows0, cells0, rows, cells, f, visited)
    requires Refiled(rows, cells, rows', cells', u) && Filed(rows', cells', f, u)
    ensures FiledSoFar(shape, rows0, cells0, rows', cells', f, visited + {u})
  {
    hide Filed, CellsGrow;
    GrowTwice(cells0, cells, cells');
    assert SameShape(shape, rows');
    forall v | v in rows && Filed(rows, cells, f, v)
      ensures Filed(rows', cells', f, v)
    {
      if v != u {
        StillFiled(rows, cells, rows', cells', f, v);
      }
    }
    forall v | v in visited
      ensures Filed(rows', cells', f, v)
    {
      FiledHasRow(rows, cells, f, v);
    }
    forall v | v in rows0 && Filed(rows0, cells0, f, v)
      ensures Filed(rows', cells', f, v)
    {
      FiledHasRow(rows, cells, f, v);
    }
  }

  // At the root the whole chain has been filed.
  lemma AllClimbed(shape: Rows, rows0: Rows, cells0: map<int, Chunk>, rows: Rows, cells: map<int, Chunk>,
                   f: Filing, u: Id, own: Box, current: Id, visited: set<Id>)
    requires FiledBy(rows, cells, f, u, own) && Climbed(shape, u, current, NIL, visited)
    requires FiledSoFar(shape, rows0, cells0, rows, cells, f, visited)
    ensures FiledUpFrom(shape, rows0, cells0, rows, cells, f, u, own)
  {
  }

  // The n-th object on the way up; nil behind the root.
  function Up(rows: Rows, u: Id, n: nat): (a: Id)
  {
    if n == 0 then u else
    var below := Up(rows, u, n - 1);
    if below in rows then rows[below].parent else NIL
  }

  // The walk comes to an end exactly when the chain has no cycle.
  lemma WalkEndsIff(rows: Rows, u: Id)
    requires ParentsStored(rows) && u in rows && u != NIL
    ensures (exists n: nat :: Up(rows, u, n) == NIL) <==> ChainAcyclic(rows, u)
  {
    hide Above;
    if ChainAcyclic(rows, u) {
      StartClimb(rows, u);
      var n := WalkEnds(rows, u, u, rows[u].parent, {u}, 1);
    } else {
      var a :| a in rows && Above(rows, a, u) && rows[a].parent != NIL && Above(rows, a, rows[a].parent);
      forall n: nat
        ensures Up(rows, u, n) != NIL
      {
        CycleKeepsGoing(rows, u, a, n);
      }
    }
  }

  lemma {:induction false} CycleKeepsGoing(rows: Rows, u: Id, a: Id, n: nat)
    requires u != NIL && a in rows && Above(rows, a, u) && rows[a].parent != NIL && Above(rows, a, rows[a].parent)
    ensures Up(rows, u, n) != NIL && Above(rows, a, Up(rows, u, n))
  {
    hide Above;
    if n > 0 {
      CycleKeepsGoing(rows, u, a, n - 1);
      if Up(rows, u, n - 1) != a {
        AboveStep(rows, Up(rows, u, n - 1), a);
      }
    }
  }

  lemma {:induction false} WalkEnds(rows: Rows, u: Id, current: Id, parent: Id, visited: set<Id>, n: nat)
    returns (end: nat)
    requires ParentsStored(rows) && ChainAcyclic(rows, u) && Climbed(rows, u, current, parent, visited)
    requires parent == Up(rows, u, n)
    ensures Up(rows, u, end) == NIL
    decreases |rows.Keys - visited|
  {
    hide ChainAcyclic, Climbed, ParentsStored;
    if parent == NIL {
      return n;
    }
    NotVisited(rows, u, current, parent, visited);
    Climb(rows, u, current, parent, visited);
    SmallerRest(rows.Keys, visited, parent);
    end := WalkEnds(rows, u, parent, rows[parent].parent, visited + {parent}, n + 1);
  }
}
