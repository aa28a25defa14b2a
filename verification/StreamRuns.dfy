/**
 Whole runs of requests to the store: what every request answers and what the tables and the cached boxes are
 afterwards, when the answers are those of the tables alone, and exactly which runs never let a box go stale.
 */
module StreamRuns {
  import opened Reach
  import opened Aabb
  import opened Chunk
  import opened Options
  import opened StreamTables
  import opened LruSpec
  import opened HashLayout
  import opened StreamDb

  datatype Request =
    | AskChunk(c: Chunk)
    | AskBox(u: Id)
    | SetBox(u: Id, box: Box)
    | Remove(u: Id)
    | Upsert(u: Id, parent: Id)
    | SetChunk(u: Id, id: int)

  datatype Answer = Nothing | TheId(id: int) | TheBox(box: Box)

  datatype Tables = Tables(rows: Rows, idOf: map<Chunk, int>, cellOf: map<int, Chunk>, nextId: int)

  // The tables and the bounded cache of boxes in front of them.
  datatype Store = Store(t: Tables, boxes: Lru<Id, Box>)

  ghost predicate Bounded(s: Store)
  {
    Coherent(s.boxes, AABB_CACHE_SIZE)
  }

  ghost function NextTables(t: Tables, readOnly: bool, r: Request): (t': Tables)
  {
    if readOnly then t
    else match r
      case AskChunk(c) =>
        if c in t.idOf then t
        else Tables(t.rows, t.idOf[c := t.nextId], t.cellOf[t.nextId := c], t.nextId + 1)
      case AskBox(_) => t
      case SetBox(u, box) => t.(rows := WithBox(t.rows, u, box))
      case Remove(u) => t.(rows := Removed(t.rows, u))
      case Upsert(u, parent) => t.(rows := Upserted(t.rows, u, parent))
      case SetChunk(u, id) => if id in t.cellOf then t.(rows := WithChunk(t.rows, u, id)) else t
  }

  ghost function NextBoxes(s: Store, r: Request): (boxes: Lru<Id, Box>)
    requires Bounded(s)
    ensures Coherent(boxes, AABB_CACHE_SIZE)
  {
    match r
    case AskBox(u) =>
      StepCoherent(s.boxes, AABB_CACHE_SIZE, AskOp(s.boxes, s.t.rows, u));
      Step(s.boxes, AABB_CACHE_SIZE, AskOp(s.boxes, s.t.rows, u))
    case SetBox(u, box) =>
      StepCoherent(s.boxes, AABB_CACHE_SIZE, DoPut(u, box));
      Step(s.boxes, AABB_CACHE_SIZE, DoPut(u, box))
    case Remove(u) =>
      StepCoherent(s.boxes, AABB_CACHE_SIZE, DoRemove(u));
      Step(s.boxes, AABB_CACHE_SIZE, DoRemove(u))
    case _ => s.boxes
  }

  ghost function Next(s: Store, readOnly: bool, r: Request): (s': Store)
    requires Bounded(s)
    ensures Bounded(s')
  {
    Store(NextTables(s.t, readOnly, r), NextBoxes(s, r))
  }

  // The answer the store gives.
  ghost function Reply(s: Store, readOnly: bool, r: Request): (a: Answer)
  {
    if r.AskBox? then TheBox(Seen(s.boxes, s.t.rows, r.u)) else Uncached(s.t, readOnly, r)
  }

  // The answer of the tables alone.
  ghost function Uncached(t: Tables, readOnly: bool, r: Request): (a: Answer)
  {
    match r
    case AskChunk(c) => TheId(if c in t.idOf then t.idOf[c] else if readOnly then -1 else t.nextId)
    case AskBox(u) => TheBox(StoredBox(t.rows, u))
    case _ => Nothing
  }

  ghost function After(s: Store, readOnly: bool, rs: seq<Request>): (s': Store)
    requires Bounded(s)
    ensures Bounded(s')
  {
    if rs == [] then s else Next(After(s, readOnly, rs[..|rs| - 1]), readOnly, rs[|rs| - 1])
  }

  ghost function StoreOf(db: Db): (s: Store)
    requires db.CachesValid()
    reads db, db.chunkCache, db.chunkCache.items, db.chunkCache.items.buckets, db.chunkCache.policy,
          db.aabbCache, db.aabbCache.items, db.aabbCache.items.buckets, db.aabbCache.policy
    ensures Bounded(s)
  {
    Store(Tables(db.rows, db.idOf, db.cellOf, db.nextId), db.Boxes())
  }

  method Serve(db: Db, r: Request) returns (a: Answer)
    requires db.Valid()
    modifies db`rows, db`idOf, db`cellOf, db`nextId, db.chunkCache.Repr(), db.aabbCache.Repr()
    ensures db.Valid()
    ensures forall o: object :: o in db.chunkCache.Repr() ==> o in old(db.chunkCache.Repr()) || fresh(o)
    ensures forall o: object :: o in db.aabbCache.Repr() ==> o in old(db.aabbCache.Repr()) || fresh(o)
    ensures StoreOf(db) == Next(old(StoreOf(db)), db.readOnly, r)
    ensures a == Reply(old(StoreOf(db)), db.readOnly, r)
  {
    hide db.Valid, db.CachesValid, db.BoxesCoherentExcept, db.Boxes, StoredBox, WithBox, Removed, Subtree, Upserted;
    hide WithChunk, Step, Coherent;
    ReprsApart(db);
    a := Nothing;
    match r
    case AskChunk(c) =>
      var id := db.QueryChunk(c);
      a := TheId(id);
    case AskBox(u) =>
      var box := db.GetObjectAabb(u);
      a := TheBox(box);
    case SetBox(u, box) => db.SetObjectAabb(u, box);
    case Remove(u) => db.RemoveObject(u);
    case Upsert(u, parent) => db.UpsertObject(u, parent);
    case SetChunk(u, id) => db.SetObjectChunk(u, id);
  }

  // The cache does not hold another box for the object asked for.
  ghost predicate NotStale(s: Store, r: Request)
  {
    r.AskBox? && r.u in s.boxes.items ==> s.boxes.items[r.u] == StoredBox(s.t.rows, r.u)
  }

  // The i-th answer is what the cache holds or else the tables; it is that of the tables exactly when the cached
  // box is absent or equal.
  ghost predicate Answered(s: Store, readOnly: bool, rs: seq<Request>, i: nat, a: Answer)
    requires Bounded(s) && i < |rs|
  {
    var now := After(s, readOnly, rs[..i]);
    && a == Reply(now, readOnly, rs[i])
    && (a == Uncached(now.t, readOnly, rs[i]) <==> NotStale(now, rs[i]))
  }

  method ServeAll(db: Db, rs: seq<Request>) returns (answers: seq<Answer>)
    requires db.Valid()
    modifies db`rows, db`idOf, db`cellOf, db`nextId, db.chunkCache.Repr(), db.aabbCache.Repr()
    ensures db.Valid() && StoreOf(db) == After(old(StoreOf(db)), db.readOnly, rs)
    ensures |answers| == |rs|
    ensures forall i :: 0 <= i < |rs| ==> Answered(old(StoreOf(db)), db.readOnly, rs, i, answers[i])
  {
    hide db.Valid, db.CachesValid, db.BoxesCoherentExcept, db.Boxes, db.chunkCache.Repr, db.aabbCache.Repr;
    hide Next, Reply, Uncached, StoreOf, Bounded, NotStale;
    ghost var s := StoreOf(db);
    answers := [];
    for i := 0 to |rs|
      invariant db.Valid()
      invariant forall o: object :: o in db.chunkCache.Repr() ==> o in old(db.chunkCache.Repr()) || fresh(o)
      invariant forall o: object :: o in db.aabbCache.Repr() ==> o in old(db.aabbCache.Repr()) || fresh(o)
      invariant StoreOf(db) == After(s, db.readOnly, rs[..i])
      invariant |answers| == i && forall j :: 0 <= j < i ==> Answered(s, db.readOnly, rs, j, answers[j])
    {
      assert rs[..i + 1][..i] == rs[..i];
      RightIff(StoreOf(db), db.readOnly, rs[i]);
      var a := Serve(db, rs[i]);
      answers := answers + [a];
    }
    assert rs[..|rs|] == rs;
  }

  lemma RightIff(s: Store, readOnly: bool, r: Request)
    ensures Reply(s, readOnly, r) == Uncached(s.t, readOnly, r) <==> NotStale(s, r)
  {
  }

  // ---- exactly when nothing goes stale ----

  // Every cached box is what the table holds.
  ghost predicate Fresh(s: Store)
  {
    Agree(s.boxes.items, s.t.rows, {})
  }

  // The table takes the box as given: on a writable store, one with whole corners for a stored object, or the
  // default box for an unknown one; on a read-only store, the box it has.
  ghost predicate Keeps(t: Tables, readOnly: bool, u: Id, box: Box)
  {
    if readOnly then box == StoredBox(t.rows, u)
    else if u in t.rows then Integral(box)
    else box == DEFAULT_BOX
  }

  // A box is set that the table keeps, or an object is removed below which no other box than the default one is
  // cached; other requests are harmless.
  ghost predicate Careful(s: Store, readOnly: bool, r: Request)
  {
    && (r.SetBox? ==> Keeps(s.t, readOnly, r.u, r.box))
    && (r.Remove? ==> readOnly || r.u !in s.t.rows || NothingStale(s.t.rows, r.u, s.boxes.items))
  }

  lemma SetFreshIff(s: Store, readOnly: bool, u: Id, box: Box)
    requires Bounded(s) && Fresh(s)
    ensures Fresh(Next(s, readOnly, SetBox(u, box))) <==> Keeps(s.t, readOnly, u, box)
  {
    hide Step, Integral, Coherent, Agree;
    var rows' := NextTables(s.t, readOnly, SetBox(u, box)).rows;
    OtherBoxesStay(s.t.rows, u, box);
    PutAgrees(s.boxes, s.t.rows, rows', u, box);
    BoxKeptIff(s.t.rows, u, box);
    assert {} - {u} == {};
  }

  lemma OtherBoxesStay(rows: Rows, u: Id, box: Box)
    ensures forall v :: v != u ==> StoredBox(WithBox(rows, u, box), v) == StoredBox(rows, v)
  {
  }

  lemma OtherFieldsStay(t: Tables, readOnly: bool, r: Request)
    requires !r.SetBox? && !r.Remove?
    ensures forall v :: StoredBox(NextTables(t, readOnly, r).rows, v) == StoredBox(t.rows, v)
  {
    hide Removed, Subtree;
  }

  // One request keeps the cache fresh exactly when it is careful.
  lemma FreshStepIff(s: Store, readOnly: bool, r: Request)
    requires Bounded(s) && Fresh(s)
    ensures Fresh(Next(s, readOnly, r)) <==> Careful(s, readOnly, r)
  {
    hide Step, Coherent, Removed, Subtree, Upserted, WithBox, WithChunk, Integral, StoredBox, NothingStale, Keeps;
    match r
    case SetBox(u, box) => SetFreshIff(s, readOnly, u, box);
    case Remove(u) =>
      RemoveOnlyAgrees(s.boxes, s.t.rows, u);
      RemoveAgrees(s.boxes, s.t.rows, u);
    case AskBox(u) => AskAgrees(s.boxes, s.t.rows, u);
    case _ => OtherFieldsStay(s.t, readOnly, r);
  }

  // The run leaves the cache fresh at every point, the start and the end included.
  ghost predicate FreshThroughout(s: Store, readOnly: bool, rs: seq<Request>)
    requires Bounded(s)
  {
    forall i :: 0 <= i <= |rs| ==> Fresh(After(s, readOnly, rs[..i]))
  }

  ghost predicate CarefulThroughout(s: Store, readOnly: bool, rs: seq<Request>)
    requires Bounded(s)
  {
    forall i :: 0 <= i < |rs| ==> Careful(After(s, readOnly, rs[..i]), readOnly, rs[i])
  }

  // A run that starts fresh stays fresh if and only if every request in it is careful.
  lemma FreshIff(s: Store, readOnly: bool, rs: seq<Request>)
    requires Bounded(s) && Fresh(s)
    ensures FreshThroughout(s, readOnly, rs) <==> CarefulThroughout(s, readOnly, rs)
  {
    hide Fresh, Careful, Next, Bounded;
    if FreshThroughout(s, readOnly, rs) {
      forall i | 0 <= i < |rs|
        ensures Careful(After(s, readOnly, rs[..i]), readOnly, rs[i])
      {
        AfterOne(s, readOnly, rs, i);
        FreshStepIff(After(s, readOnly, rs[..i]), readOnly, rs[i]);
      }
    }
    if CarefulThroughout(s, readOnly, rs) {
      forall i | 0 <= i <= |rs|
        ensures Fresh(After(s, readOnly, rs[..i]))
      {
        CarefulPrefixFresh(s, readOnly, rs, i);
      }
    }
  }

  lemma AfterOne(s: Store, readOnly: bool, rs: seq<Request>, i: nat)
    requires Bounded(s) && i < |rs|
    ensures After(s, readOnly, rs[..i + 1]) == Next(After(s, readOnly, rs[..i]), readOnly, rs[i])
  {
    hide Next, Bounded;
    assert rs[..i + 1][..i] == rs[..i];
  }

  lemma {:induction false} CarefulPrefixFresh(s: Store, readOnly: bool, rs: seq<Request>, i: nat)
    requires Bounded(s) && Fresh(s) && CarefulThroughout(s, readOnly, rs) && i <= |rs|
    ensures Fresh(After(s, readOnly, rs[..i]))
  {
    hide Fresh, Careful, Next, Bounded;
    if i > 0 {
      CarefulPrefixFresh(s, readOnly, rs, i - 1);
      AfterOne(s, readOnly, rs, i - 1);
      FreshStepIff(After(s, readOnly, rs[..i - 1]), readOnly, rs[i - 1]);
    }
  }

  // ---- a run that answers wrongly ----

  const UNIT_BOX := Box(ZERO, Vector3(1.0, 1.0, 1.0))

  const EMPTY_STORE := Store(Tables(map[], map[], map[], 1), Lru([], map[], []))

  // Object 2 is stored below object 1 and given a box; 1 is removed; 2 still answers with its box.
  const STALE_RUN: seq<Request> := [Upsert(1, NIL), Upsert(2, 1), SetBox(2, UNIT_BOX), Remove(1)]

  lemma StaleAnswer()
    ensures Bounded(EMPTY_STORE)
    ensures var s := After(EMPTY_STORE, false, STALE_RUN);
            && Reply(s, false, AskBox(2)) == TheBox(UNIT_BOX)
            && Uncached(s.t, false, AskBox(2)) == TheBox(DEFAULT_BOX)
  {
    hide After, NextTables, NextBoxes, Upserted, Removed, WithBox;
    RunOfFour(EMPTY_STORE, STALE_RUN);
    TwoRows();
    var s1 := Next(EMPTY_STORE, false, STALE_RUN[0]);
    var s2 := Next(s1, false, STALE_RUN[1]);
    UpsertRows(EMPTY_STORE, 1, NIL);
    UpsertRows(s1, 2, 1);
    BoxCached(s2, 2, UNIT_BOX);
    WithBoxKeepsParent(s2.t.rows, 2, UNIT_BOX);
    RemovedAbove(Next(s2, false, STALE_RUN[2]), UNIT_BOX);
  }

  // Every run on a new store is one from the empty store.
  method ServeNew(readOnly: bool, chunkHash: Chunk -> Hash64, idHash: Id -> Hash64, rs: seq<Request>)
    returns (answers: seq<Answer>)
    ensures |answers| == |rs| && forall i :: 0 <= i < |rs| ==> Answered(EMPTY_STORE, readOnly, rs, i, answers[i])
  {
    hide Answered, After;
    var db := new Db(readOnly, chunkHash, idHash);
    assert StoreOf(db) == EMPTY_STORE;
    answers := ServeAll(db, rs);
  }

  lemma TwoRows()
    ensures var rows := Upserted(Upserted(map[], 1, NIL), 2, 1);
            1 in rows && 2 in rows && rows[2].parent == 1
  {
  }

  lemma UpsertRows(s: Store, u: Id, parent: Id)
    requires Bounded(s)
    ensures var s' := Next(s, false, Upsert(u, parent));
            s'.t.rows == Upserted(s.t.rows, u, parent) && s'.boxes == s.boxes
  {
    hide Upserted;
  }

  lemma WithBoxKeepsParent(rows: Rows, u: Id, box: Box)
    ensures WithBox(rows, u, box).Keys == rows.Keys
    ensures forall v :: v in rows ==> WithBox(rows, u, box)[v].parent == rows[v].parent
  {
  }

  lemma BoxCached(s: Store, u: Id, box: Box)
    requires s.boxes == Lru([], map[], []) && u in s.t.rows
    ensures Bounded(s)
    ensures var s' := Next(s, false, SetBox(u, box));
            s'.boxes.items == map[u := box] && s'.t.rows == WithBox(s.t.rows, u, box)
  {
    hide WithBox;
  }

  lemma RemovedAbove(s: Store, box: Box)
    requires Bounded(s) && 1 in s.t.rows && 2 in s.t.rows && s.t.rows[2].parent == 1 && s.boxes.items == map[2 := box]
    ensures var s' := Next(s, false, Remove(1)); s'.boxes.items == map[2 := box] && 2 !in s'.t.rows
  {
    hide Subtree, Coherent, Without;
    CascadeReaches(s.t.rows);
  }

  lemma RunOfFour(s: Store, rs: seq<Request>)
    requires Bounded(s) && |rs| == 4
    ensures After(s, false, rs) ==
            Next(Next(Next(Next(s, false, rs[0]), false, rs[1]), false, rs[2]), false, rs[3])
  {
    hide Next, Bounded;
    AfterOne(s, false, rs, 0);
    AfterOne(s, false, rs, 1);
    AfterOne(s, false, rs, 2);
    AfterOne(s, false, rs, 3);
    assert rs[..0] == [] && rs[..4] == rs;
  }

  lemma CascadeReaches(rows: Rows)
    requires 1 in rows && 2 in rows && rows[2].parent == 1
    ensures 2 in Subtree(rows, 1)
  {
    ReachesSelf(StoredChildren(rows), 1);
    ReachesStep(StoredChildren(rows), 1, 1, 2);
  }

  // ---- identifiers of cells ----

  // Cells and identifiers determine each other, and the next identifier is unused.
  ghost predicate IdsUnique(t: Tables)
  {
    && (forall c :: c in t.idOf ==> 0 < t.idOf[c] < t.nextId && t.idOf[c] in t.cellOf && t.cellOf[t.idOf[c]] == c)
    && (forall i :: i in t.cellOf ==> t.cellOf[i] in t.idOf && t.idOf[t.cellOf[i]] == i)
    && t.nextId > 0
  }

  lemma NextKeepsIds(t: Tables, readOnly: bool, r: Request)
    requires IdsUnique(t)
    ensures IdsUnique(NextTables(t, readOnly, r))
    ensures forall c :: c in t.idOf ==>
              c in NextTables(t, readOnly, r).idOf && NextTables(t, readOnly, r).idOf[c] == t.idOf[c]
  {
    hide Removed, Upserted, WithBox, WithChunk;
  }

  lemma {:induction false} IdsStayUnique(s: Store, readOnly: bool, rs: seq<Request>)
    requires Bounded(s) && IdsUnique(s.t)
    ensures var t' := After(s, readOnly, rs).t;
            IdsUnique(t') && forall c :: c in s.t.idOf ==> c in t'.idOf && t'.idOf[c] == s.t.idOf[c]
  {
    hide NextTables, NextBoxes, IdsUnique, Bounded;
    if rs != [] {
      var front := rs[..|rs| - 1];
      IdsStayUnique(s, readOnly, front);
      NextKeepsIds(After(s, readOnly, front).t, readOnly, rs[|rs| - 1]);
    }
  }

  // Asked twice on a writable store, a cell has one identifier whatever came between; and two cells have two.
  lemma ChunkIdsStableInjective(s: Store, rs: seq<Request>, c: Chunk, c': Chunk)
    requires Bounded(s) && IdsUnique(s.t)
    ensures var first := Reply(s, false, AskChunk(c));
            var later := Reply(After(Next(s, false, AskChunk(c)), false, rs), false, AskChunk(c'));
            first == later <==> c == c'
  {
    var s1 := Next(s, false, AskChunk(c));
    NextKeepsIds(s.t, false, AskChunk(c));
    IdsStayUnique(s1, false, rs);
    var t2 := After(s1, false, rs).t;
    assert c in t2.idOf && t2.idOf[c] == s1.t.idOf[c];
    if c' in t2.idOf && t2.idOf[c'] == t2.idOf[c] {
      assert t2.cellOf[t2.idOf[c']] == c';
    }
  }
}
