/**
 The store: object rows, grid cells, and two bounded caches in front of them. Statements are pure updates of
 the tables; on a read-only store every write is rejected and leaves the tables as they are.
 */
module StreamDb {
  import opened Options
  import opened HashLayout
  import opened Reach
  import opened Aabb
  import opened Chunk
  import opened SpatialIndex
  import opened StreamTables
  import opened LruSpec
  import opened FixedSizedCache

  const CHUNK_CACHE_SIZE := 500
  const AABB_CACHE_SIZE := 1000

  class Db {
    const readOnly: bool
    const chunkCache: Cache<Chunk, int>
    const aabbCache: Cache<Id, Box>
    var rows: Rows
    // chunk_metadata, by cell and by id.
    var idOf: map<Chunk, int>
    var cellOf: map<int, Chunk>
    var nextId: int

    ghost predicate CachesValid()
      reads this, chunkCache, chunkCache.items, chunkCache.items.buckets, chunkCache.policy,
            aabbCache, aabbCache.items, aabbCache.items.buckets, aabbCache.policy
    {
      && chunkCache.Valid() && aabbCache.Valid()
      && chunkCache.Repr() !! aabbCache.Repr()
      && this !in chunkCache.Repr() && this !in aabbCache.Repr()
      && aabbCache.absent == DEFAULT_BOX && aabbCache.maxCacheSize == AABB_CACHE_SIZE
    }

    // Cells and ids determine each other, and rows refer to existing cells and parents.
    ghost predicate TablesValid()
      reads this
    {
      && (forall c :: c in idOf ==> 0 < idOf[c] < nextId && idOf[c] in cellOf && cellOf[idOf[c]] == c)
      && (forall i :: i in cellOf ==> cellOf[i] in idOf && idOf[cellOf[i]] == i)
      && nextId > 0
      && ParentsStored(rows)
      && forall u :: u in rows && rows[u].chunkId.Some? ==> rows[u].chunkId.value in cellOf
    }

    // What a lookup of a cell without the cache gives; -1 when there is none.
    function StoredId(c: Chunk): (id: int)
      reads this
    {
      if c in idOf then idOf[c] else -1
    }

    ghost predicate ChunksCoherent()
      requires CachesValid()
      reads this, chunkCache, chunkCache.items, chunkCache.items.buckets, chunkCache.policy,
            aabbCache, aabbCache.items, aabbCache.items.buckets, aabbCache.policy
    {
      forall c :: c in chunkCache.State().items ==>
        chunkCache.State().items[c] == StoredId(c) && (readOnly || c in idOf)
    }

    ghost predicate Valid(): (ok: bool)
      reads this, chunkCache, chunkCache.items, chunkCache.items.buckets, chunkCache.policy,
            aabbCache, aabbCache.items, aabbCache.items.buckets, aabbCache.policy
      ensures ok ==> CachesValid()
    {
      CachesValid() && TablesValid() && ChunksCoherent()
    }

    // The cached boxes with their order of use.
    ghost function Boxes(): (s: Lru<Id, Box>)
      requires CachesValid()
      reads this, chunkCache, chunkCache.items, chunkCache.items.buckets, chunkCache.policy,
            aabbCache, aabbCache.items, aabbCache.items.buckets, aabbCache.policy
      ensures Coherent(s, AABB_CACHE_SIZE)
    {
      aabbCache.State()
    }

    // Every cached box, except for the objects named, is what the table holds.
    ghost predicate BoxesCoherentExcept(except: set<Id>)
      requires CachesValid()
      reads this, chunkCache, chunkCache.items, chunkCache.items.buckets, chunkCache.policy,
            aabbCache, aabbCache.items, aabbCache.items.buckets, aabbCache.policy
    {
      Agree(Boxes().items, rows, except)
    }

    constructor (readOnly: bool, chunkHash: Chunk -> Hash64, idHash: Id -> Hash64)
      ensures Valid() && Boxes() == Lru([], map[], []) && this.readOnly == readOnly
      ensures rows == map[] && idOf == map[] && cellOf == map[] && nextId == 1
      ensures BoxesCoherentExcept({}) && fresh(chunkCache.Repr()) && fresh(aabbCache.Repr())
    {
      hide Cache<Chunk, int>.Valid, Cache<Chunk, int>.State, ParentsStored;
      this.readOnly := readOnly;
      chunkCache := new Cache(CHUNK_CACHE_SIZE, chunkHash, 0);
      aabbCache := new Cache(AABB_CACHE_SIZE, idHash, DEFAULT_BOX);
      rows, idOf, cellOf, nextId := map[], map[], map[], 1;
      new;
      NoRows();
    }

    // ---- cells ----

    // Finds the id of a cell, making the cell on a writable store; the answer is cached either way.
    method QueryChunk(c: Chunk) returns (id: int)
      requires Valid()
      modifies this`idOf, this`cellOf, this`nextId, chunkCache.Repr()
      ensures Valid()
      ensures chunkCache.Repr() !! aabbCache.Repr() && fresh(chunkCache.Repr() - old(chunkCache.Repr()))
      ensures id == StoredId(c) && (!readOnly ==> id in cellOf && cellOf[id] == c)
      ensures c in chunkCache.State().items && chunkCache.State().items[c] == id
      ensures if readOnly || c in old(idOf) then idOf == old(idOf) && cellOf == old(cellOf)
              else id !in old(cellOf) && idOf == old(idOf)[c := id] && cellOf == old(cellOf)[id := c]
      ensures if readOnly || c in old(idOf) then nextId == old(nextId) else id == old(nextId) && nextId == id + 1
      ensures Boxes() == old(Boxes())
    {
      hide chunkCache.Valid, chunkCache.State, Step, TablesValid;
      var cached, hit := AskCell(c);
      if hit {
        IdsMatch(c);
        return cached;
      }
      id := FindOrCreate(c);
      IdsMatch(c);
      PutCell(c, id);
    }

    // The cache of cells alone: what is cached for objects stays.
    method AskCell(c: Chunk) returns (id: int, found: bool)
      requires CachesValid()
      modifies chunkCache.Repr()
      ensures CachesValid() && fresh(chunkCache.Repr() - old(chunkCache.Repr()))
      ensures chunkCache.State().items == old(chunkCache.State()).items && Boxes() == old(Boxes())
      ensures found <==> c in chunkCache.State().items
      ensures found ==> id == chunkCache.State().items[c]
    {
      hide chunkCache.Valid, chunkCache.State, Step;
      chunkCache.ItemsAfter(DoGet(c));
      id, found := chunkCache.TryGet(c);
    }

    method PutCell(c: Chunk, id: int)
      requires CachesValid()
      modifies chunkCache.Repr()
      ensures CachesValid() && fresh(chunkCache.Repr() - old(chunkCache.Repr()))
      ensures ItemsChange(old(chunkCache.State()).items, DoPut(c, id), chunkCache.State().items)
      ensures Boxes() == old(Boxes())
    {
      hide chunkCache.Valid, chunkCache.State, Step;
      chunkCache.ItemsAfter(DoPut(c, id));
      chunkCache.Put(c, id);
    }

    lemma IdsMatch(c: Chunk)
      requires TablesValid()
      ensures c in idOf ==> idOf[c] in cellOf && cellOf[idOf[c]] == c
    {
    }

    // The statements behind QueryChunk: select, and insert when there is nothing to select.
    method FindOrCreate(c: Chunk) returns (id: int)
      requires TablesValid()
      modifies this`idOf, this`cellOf, this`nextId
      ensures TablesValid()
      ensures id == StoredId(c) && (readOnly || c in idOf)
      ensures if readOnly || c in old(idOf) then idOf == old(idOf) && cellOf == old(cellOf)
              else id !in old(cellOf) && idOf == old(idOf)[c := id] && cellOf == old(cellOf)[id := c]
      ensures if readOnly || c in old(idOf) then nextId == old(nextId) else id == old(nextId) && nextId == id + 1
    {
      id := -1;
      if c in idOf {
        id := idOf[c];
      } else if !readOnly {
        id := nextId;
        nextId := nextId + 1;
        idOf := idOf[c := id];
        cellOf := cellOf[id := c];
      }
    }

    // ---- object rows ----

    method UpsertObject(uuid: Id, parent: Id)
      requires Valid()
      modifies this`rows
      ensures Valid()
      ensures rows == if readOnly then old(rows) else Upserted(old(rows), uuid, parent)
      ensures forall u :: u != uuid ==>
                (u in rows <==> u in old(rows)) && (u in rows ==> rows[u] == old(rows)[u])
      ensures var accepted := !readOnly && (parent == NIL || parent == uuid || parent in old(rows));
              && (uuid in rows <==> uuid in old(rows) || accepted)
              && (uuid in rows ==>
                    && rows[uuid].parent == (if accepted then parent else old(rows)[uuid].parent)
                    && rows[uuid].chunkId == (if uuid in old(rows) then old(rows)[uuid].chunkId else None)
                    && rows[uuid].aabb == (if uuid in old(rows) then old(rows)[uuid].aabb else None))
      ensures forall u :: StoredBox(rows, u) == old(StoredBox(rows, u))
      ensures Boxes() == old(Boxes())
    {
      hide chunkCache.Valid, chunkCache.State, Step;
      if !readOnly {
        UpsertedKeepsParents(rows, uuid, parent);
        rows := Upserted(rows, uuid, parent);
      }
    }

    // The delete cascades to everything stored below, but only the object's own box is dropped from the cache.
    method RemoveObject(uuid: Id)
      requires Valid()
      modifies this`rows, aabbCache.Repr()
      ensures Valid() && fresh(aabbCache.Repr() - old(aabbCache.Repr()))
      ensures rows == if readOnly then old(rows) else Removed(old(rows), uuid)
      ensures Boxes() == Step(old(Boxes()), AABB_CACHE_SIZE, DoRemove(uuid)) && uuid !in Boxes().items
      ensures forall e: set<Id> :: old(BoxesCoherentExcept(e)) ==>
                var cut := if readOnly || uuid !in old(rows) then {} else Subtree(old(rows), uuid);
                BoxesCoherentExcept((e + cut) - {uuid})
      ensures old(BoxesCoherentExcept({})) ==>
                (BoxesCoherentExcept({}) <==>
                 readOnly || uuid !in old(rows) || NothingStale(old(rows), uuid, old(Boxes()).items))
    {
      hide Valid, CachesValid, Boxes, Step, Removed, Subtree, StoredBox, Agree, NothingStale, Coherent;
      ghost var rows0, boxes0 := rows, Boxes();
      StepItems(boxes0, AABB_CACHE_SIZE, DoRemove(uuid));
      DeleteRow(uuid);
      DropBox(uuid);
      if readOnly {
        RemoveOnlyAgrees(boxes0, rows, uuid);
      } else {
        RemoveAgrees(boxes0, rows0, uuid);
      }
    }

    method DeleteRow(uuid: Id)
      requires Valid()
      modifies this`rows
      ensures Valid() && Boxes() == old(Boxes())
      ensures rows == if readOnly then old(rows) else Removed(old(rows), uuid)
    {
      hide chunkCache.Valid, chunkCache.State, aabbCache.Valid, aabbCache.State, Subtree, Coherent;
      if !readOnly && uuid in rows {
        RemovedKeepsParents(rows, uuid);
        var gone := CollectDescendants(StoredChildren(rows), uuid);
        RemovedRows(rows, uuid, gone);
        rows := rows - gone;
      }
    }

    method SetObjectAabb(uuid: Id, box: Box)
      requires Valid()
      modifies this`rows, aabbCache.Repr()
      ensures Valid() && fresh(aabbCache.Repr() - old(aabbCache.Repr()))
      ensures rows == if readOnly then old(rows) else WithBox(old(rows), uuid, box)
      ensures Boxes() == Step(old(Boxes()), AABB_CACHE_SIZE, DoPut(uuid, box)) && CachedFirst(Boxes(), uuid, box)
      ensures forall e: set<Id> :: old(BoxesCoherentExcept(e)) ==>
                BoxesCoherentExcept(e + {uuid}) && (BoxesCoherentExcept(e - {uuid}) <==> StoredBox(rows, uuid) == box)
    {
      hide Valid, CachesValid, Boxes, Step, Agree, WithBox, StoredBox, CachedFirst, Coherent;
      ghost var rows0, boxes0 := rows, Boxes();
      WriteBox(uuid, box);
      PutBox(uuid, box);
      PutAgrees(boxes0, rows0, rows, uuid, box);
      PutCaches(boxes0, uuid, box);
    }

    method WriteBox(uuid: Id, box: Box)
      requires Valid()
      modifies this`rows
      ensures Valid() && Boxes() == old(Boxes())
      ensures rows == if readOnly then old(rows) else WithBox(old(rows), uuid, box)
      ensures forall u :: u != uuid ==> StoredBox(rows, u) == old(StoredBox(rows, u))
    {
      hide chunkCache.Valid, chunkCache.State, aabbCache.Valid, aabbCache.State, Coherent;
      if !readOnly {
        rows := WithBox(rows, uuid, box);
      }
    }

    // The cached box, or else the stored one, which is then cached; the default box is cached as well.
    method GetObjectAabb(uuid: Id) returns (box: Box)
      requires Valid()
      modifies aabbCache.Repr()
      ensures Valid() && fresh(aabbCache.Repr() - old(aabbCache.Repr()))
      ensures box == Seen(old(Boxes()), rows, uuid)
      ensures Boxes() == Step(old(Boxes()), AABB_CACHE_SIZE, AskOp(old(Boxes()), rows, uuid))
      ensures CachedFirst(Boxes(), uuid, box)
      ensures forall e: set<Id> :: old(BoxesCoherentExcept(e)) ==>
                BoxesCoherentExcept(e) && (uuid !in e ==> box == StoredBox(rows, uuid))
    {
      hide chunkCache.Valid, chunkCache.State, Step;
      ghost var boxes0 := Boxes();
      AskAgrees(boxes0, rows, uuid);
      AskCaches(boxes0, rows, uuid);
      GetOfAbsent(boxes0, AABB_CACHE_SIZE, uuid);
      var cached, hit := aabbCache.TryGet(uuid);
      if hit {
        return cached;
      }
      box := DEFAULT_BOX;
      if uuid in rows && rows[uuid].aabb.Some? {
        box := BoxOf(rows[uuid].aabb.value);
      }
      PutBox(uuid, box);
    }

    // The cache of boxes alone: what is cached for cells stays.
    method PutBox(uuid: Id, box: Box)
      requires Valid()
      modifies aabbCache.Repr()
      ensures Valid() && fresh(aabbCache.Repr() - old(aabbCache.Repr()))
      ensures Boxes() == Step(old(Boxes()), AABB_CACHE_SIZE, DoPut(uuid, box))
    {
      hide chunkCache.Valid, chunkCache.State, Step, TablesValid;
      aabbCache.Put(uuid, box);
    }

    method DropBox(uuid: Id)
      requires Valid()
      modifies aabbCache.Repr()
      ensures Valid() && fresh(aabbCache.Repr() - old(aabbCache.Repr()))
      ensures Boxes() == Step(old(Boxes()), AABB_CACHE_SIZE, DoRemove(uuid))
    {
      hide chunkCache.Valid, chunkCache.State, Step, TablesValid;
      var _ := aabbCache.Remove(uuid);
    }

    // Files an object under a cell; rejected when there is no such cell.
    method SetObjectChunk(uuid: Id, chunkId: int)
      requires Valid()
      modifies this`rows
      ensures Valid()
      ensures rows == if readOnly || chunkId !in cellOf then old(rows) else WithChunk(old(rows), uuid, chunkId)
      ensures SameShape(old(rows), rows)
      ensures forall u :: StoredBox(rows, u) == old(StoredBox(rows, u))
      ensures Boxes() == old(Boxes())
    {
      hide chunkCache.Valid, chunkCache.State, Step;
      if !readOnly && chunkId in cellOf {
        rows := WithChunk(rows, uuid, chunkId);
      }
    }

    // The stored parent, nil when there is no row.
    method QueryObject(uuid: Id) returns (parent: Id)
      ensures parent == if uuid in rows then rows[uuid].parent else NIL
    {
      parent := if uuid in rows then rows[uuid].parent else NIL;
    }

    // The boxes of the direct children, one entry each, in some order. The nil identifier has no children: a
    // missing parent is stored as no value, which equals nothing.
    method QueryChildrenAabb(parent: Id) returns (result: seq<(Id, Box)>)
      ensures ListsChildren(rows, parent, result)
      ensures forall i, j :: 0 <= i < j < |result| ==> result[i].0 != result[j].0
    {
      result := [];
      var rest := rows.Keys;
      while rest != {}
        invariant rest <= rows.Keys
        invariant forall c :: c in rows && c !in rest && ChildOf(rows, parent, c) ==> (c, StoredBox(rows, c)) in result
        invariant forall i :: 0 <= i < |result| ==> result[i].0 in rows && result[i].0 !in rest
        invariant forall i :: 0 <= i < |result| ==>
                    ChildOf(rows, parent, result[i].0) && result[i].1 == StoredBox(rows, result[i].0)
        invariant forall i, j :: 0 <= i < j < |result| ==> result[i].0 != result[j].0
        decreases rest
      {
        var c :| c in rest;
        rest := rest - {c};
        if ChildOf(rows, parent, c) {
          result := result + [(c, StoredBox(rows, c))];
        }
      }
    }

    // ---- region queries ----

    predicate HasCell(u: Id)
      reads this
    {
      u in rows && rows[u].chunkId.Some? && rows[u].chunkId.value in cellOf
    }

    function Cell(u: Id): (c: Chunk)
      requires HasCell(u)
      reads this
    {
      cellOf[rows[u].chunkId.value]
    }

    // The object is filed under a cell whose region meets the box with truncated corners.
    predicate Hit(u: Id, box: Box)
      reads this
    {
      HasCell(u) && RegionMeets(Cell(u), CornersOf(box))
    }

    lemma HitIffInReach(u: Id, box: Box)
      ensures Hit(u, box) <==> HasCell(u) && ReachBothEnds(Cell(u), box)
      ensures box.NonNegative() ==> (Hit(u, box) <==> HasCell(u) && SharePoint(Cell(u), box))
    {
      hide RegionMeets, SharePoint, ReachBothEnds, CornersOf;
      if HasCell(u) {
        MeetsIffSharesPoint(Cell(u), box);
      }
    }

    // Everything filed under a cell that shares an integer point with the truncated box, and nothing else.
    method QueryObjects(box: Box) returns (result: map<Id, Id>)
      ensures forall u :: u in result <==> HasCell(u) && ReachBothEnds(Cell(u), box)
      ensures box.NonNegative() ==>
                forall u :: u in result <==> HasCell(u) && SharePoint(Cell(u), box)
      ensures forall u :: u in result <==> Hit(u, box)
      ensures forall u :: u in result ==> u in rows && result[u] == rows[u].parent
    {
      hide RegionMeets, SharePoint, ReachBothEnds, CornersOf;
      result := map[];
      var rest := rows.Keys;
      while rest != {}
        invariant rest <= rows.Keys
        invariant forall u :: u in result <==> u !in rest && Hit(u, box)
        invariant forall u :: u in result ==> result[u] == rows[u].parent
        decreases rest
      {
        var u :| u in rest;
        rest := rest - {u};
        if Hit(u, box) {
          result := result[u := rows[u].parent];
        }
      }
      forall u: Id {
        HitIffInReach(u, box);
      }
    }

    // The same for the points of several boxes.
    method QueryObjectsInAny(boxes: seq<Box>) returns (result: map<Id, Id>)
      ensures forall u :: u in result <==>
                HasCell(u) && exists i :: 0 <= i < |boxes| && ReachBothEnds(Cell(u), boxes[i])
      ensures (forall i :: 0 <= i < |boxes| ==> boxes[i].NonNegative()) ==>
                forall u :: u in result <==>
                  HasCell(u) && exists i :: 0 <= i < |boxes| && SharePoint(Cell(u), boxes[i])
      ensures forall u :: u in result <==> exists i :: 0 <= i < |boxes| && Hit(u, boxes[i])
      ensures forall u :: u in result ==> u in rows && result[u] == rows[u].parent
    {
      hide RegionMeets, SharePoint, ReachBothEnds, CornersOf;
      result := map[];
      if boxes == [] {
        return;
      }
      var rest := rows.Keys;
      while rest != {}
        invariant rest <= rows.Keys
        invariant forall u :: u in result <==> u !in rest && exists i :: 0 <= i < |boxes| && Hit(u, boxes[i])
        invariant forall u :: u in result ==> result[u] == rows[u].parent
        decreases rest
      {
        var u :| u in rest;
        rest := rest - {u};
        if exists i :: 0 <= i < |boxes| && Hit(u, boxes[i]) {
          result := result[u := rows[u].parent];
        }
      }
      forall u: Id, i | 0 <= i < |boxes|
        ensures Hit(u, boxes[i]) <==> HasCell(u) && ReachBothEnds(Cell(u), boxes[i])
        ensures boxes[i].NonNegative() ==>
                  (Hit(u, boxes[i]) <==> HasCell(u) && SharePoint(Cell(u), boxes[i]))
      {
        HitIffInReach(u, boxes[i]);
      }
    }

    // An object filed under the cell of its box is found by every query box that holds its truncated corner,
    // exactly when the cell ends within 32 bits, or, from level 16 on, when the corner is the origin.
    lemma StoredObjectIsFound(u: Id, own: Box, estimate: nat)
      requires InGrid(own) && u in rows && rows[u].chunkId.Some? && rows[u].chunkId.value in cellOf
      requires cellOf[rows[u].chunkId.value] == ComputeChunk(own, estimate)
      ensures (forall query: Box :: CornerWithin(own, CornersOf(query)) ==> Hit(u, query))
              <==> Findable(own, ComputeChunk(own, estimate))
    {
      hide ComputeChunk, RegionMeets, CornersOf, Findable, CornerWithin;
      FoundIff(own, estimate);
      forall query: Box
        ensures Hit(u, query) <==> RegionMeets(ComputeChunk(own, estimate), CornersOf(query))
      {
      }
    }
  }

  lemma ReprsApart(db: Db)
    requires db.Valid()
    ensures db.chunkCache.Repr() !! db.aabbCache.Repr()
  {
  }

  predicate ChildOf(rows: Rows, u: Id, v: Id)
  {
    u != NIL && v in rows && rows[v].parent == u
  }

  // The boxes of a listing of the children.
  ghost predicate ListsChildren(rows: Rows, u: Id, children: seq<(Id, Box)>)
  {
    && (forall v: Id :: ChildOf(rows, u, v) ==> (v, StoredBox(rows, v)) in children)
    && (forall x: (Id, Box) :: x in children ==> ChildOf(rows, u, x.0) && x.1 == StoredBox(rows, x.0))
  }

  // ---- cached boxes and stored boxes ----

  ghost predicate Agree(cached: map<Id, Box>, rows: Rows, except: set<Id>)
  {
    forall u :: u in cached && u !in except ==> cached[u] == StoredBox(rows, u)
  }

  // What asking for a box gives.
  function Seen(boxes: Lru<Id, Box>, rows: Rows, u: Id): (b: Box)
  {
    if u in boxes.items then boxes.items[u] else StoredBox(rows, u)
  }

  // What asking for a box does to the cache.
  function AskOp(boxes: Lru<Id, Box>, rows: Rows, u: Id): (op: Op<Id, Box>)
  {
    if u in boxes.items then DoGet(u) else DoPut(u, StoredBox(rows, u))
  }

  // The box is cached, as the one used last.
  ghost predicate CachedFirst(boxes: Lru<Id, Box>, u: Id, box: Box)
  {
    u in boxes.items && boxes.items[u] == box && boxes.order != [] && boxes.order[0] == u
  }

  lemma PutCaches(boxes: Lru<Id, Box>, u: Id, box: Box)
    requires Coherent(boxes, AABB_CACHE_SIZE)
    ensures CachedFirst(Step(boxes, AABB_CACHE_SIZE, DoPut(u, box)), u, box)
  {
  }

  lemma AskCaches(boxes: Lru<Id, Box>, rows: Rows, u: Id)
    requires Coherent(boxes, AABB_CACHE_SIZE)
    ensures CachedFirst(Step(boxes, AABB_CACHE_SIZE, AskOp(boxes, rows, u)), u, Seen(boxes, rows, u))
  {
    hide StoredBox;
  }

  lemma PutAgrees(boxes: Lru<Id, Box>, rows: Rows, rows': Rows, u: Id, box: Box)
    requires Coherent(boxes, AABB_CACHE_SIZE) && forall v :: v != u ==> StoredBox(rows', v) == StoredBox(rows, v)
    ensures var after := Step(boxes, AABB_CACHE_SIZE, DoPut(u, box)).items;
            forall e: set<Id> :: Agree(boxes.items, rows, e) ==>
              Agree(after, rows', e + {u}) && (Agree(after, rows', e - {u}) <==> StoredBox(rows', u) == box)
  {
    hide Step, StoredBox;
    StepItems(boxes, AABB_CACHE_SIZE, DoPut(u, box));
  }

  lemma AskAgrees(boxes: Lru<Id, Box>, rows: Rows, u: Id)
    requires Coherent(boxes, AABB_CACHE_SIZE)
    ensures var after := Step(boxes, AABB_CACHE_SIZE, AskOp(boxes, rows, u)).items;
            forall e: set<Id> :: Agree(boxes.items, rows, e) ==>
              Agree(after, rows, e) && (u !in e ==> Seen(boxes, rows, u) == StoredBox(rows, u))
  {
    hide Step, StoredBox;
    StepItems(boxes, AABB_CACHE_SIZE, AskOp(boxes, rows, u));
  }

  lemma RemoveOnlyAgrees(boxes: Lru<Id, Box>, rows: Rows, u: Id)
    requires Coherent(boxes, AABB_CACHE_SIZE)
    ensures var after := Step(boxes, AABB_CACHE_SIZE, DoRemove(u)).items;
            && (forall e: set<Id> :: Agree(boxes.items, rows, e) ==> Agree(after, rows, (e + {}) - {u}))
            && (Agree(boxes.items, rows, {}) ==> Agree(after, rows, {}))
  {
    hide Step, StoredBox;
    StepItems(boxes, AABB_CACHE_SIZE, DoRemove(u));
  }

  // After a delete, exactly the cached descendants with a box to lose are stale.
  lemma RemoveAgrees(boxes: Lru<Id, Box>, rows: Rows, u: Id)
    requires Coherent(boxes, AABB_CACHE_SIZE)
    ensures var after := Step(boxes, AABB_CACHE_SIZE, DoRemove(u)).items;
            && (forall e: set<Id> :: Agree(boxes.items, rows, e) ==>
                  Agree(after, Removed(rows, u), (e + (if u !in rows then {} else Subtree(rows, u))) - {u}))
            && (Agree(boxes.items, rows, {}) ==>
                  (Agree(after, Removed(rows, u), {}) <==> u !in rows || NothingStale(rows, u, boxes.items)))
  {
    hide Step, StoredBox, Removed, Subtree;
    StepItems(boxes, AABB_CACHE_SIZE, DoRemove(u));
    RemovedBoxes(rows, u);
  }

  // No strict descendant has a cached box that the cascade makes wrong.
  ghost predicate NothingStale(rows: Rows, u: Id, cached: map<Id, Box>)
  {
    forall v :: v in Subtree(rows, u) && v != u && v in cached ==> StoredBox(rows, v) == DEFAULT_BOX
  }

  lemma NoRows()
    ensures ParentsStored(map[])
  {
  }

  lemma RemovedBoxes(rows: Rows, u: Id)
    ensures forall v :: StoredBox(Removed(rows, u), v) ==
              if u in rows && v in Subtree(rows, u) then DEFAULT_BOX else StoredBox(rows, v)
  {
  }

  lemma RemovedRows(rows: Rows, u: Id, gone: set<Id>)
    requires u in rows && IsReachable(StoredChildren(rows), u, gone)
    ensures rows - gone == Removed(rows, u)
    ensures forall v :: v in gone && v in rows <==> v in Subtree(rows, u)
  {
  }
}
