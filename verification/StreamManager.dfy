/**
 The manager's object graph on the main thread: the registry, its inverse by parent, and the work sets
 collected for the next database batch. Scene nodes are reduced to their instance ids, 0 for none.
 */
module StreamManager {
  import opened Reach

  datatype ObjectData = ObjectData(parent: Id, nodeRoot: nat)

  type Registry = map<Id, ObjectData>

  const NO_DATA := ObjectData(NIL, 0)

  // children is exactly the inverse of the registry's parent relation, nil parents left out.
  ghost predicate InverseOf(registry: Registry, children: Children)
  {
    forall p: Id, c: Id {:trigger Edge(children, p, c)} ::
      Edge(children, p, c) <==> c in registry && registry[c].parent == p && p != NIL
  }

  // ---- single changes of the map ----

  function ChildrenOf(children: Children, p: Id): (s: set<Id>)
  {
    if p in children then children[p] else {}
  }

  function LinkChild(children: Children, p: Id, c: Id): (r: Children)
  {
    if p == NIL then children else children[p := ChildrenOf(children, p) + {c}]
  }

  // The subscript operator of the map creates an empty set for a parent that has none.
  function UnlinkChild(children: Children, p: Id, c: Id): (r: Children)
  {
    if p == NIL then children else children[p := ChildrenOf(children, p) - {c}]
  }

  lemma LinkKeepsInverse(registry: Registry, children: Children, c: Id, data: ObjectData)
    requires InverseOf(registry, children)
    requires c in registry ==> registry[c].parent == NIL || registry[c].parent == data.parent
    ensures InverseOf(registry[c := data], LinkChild(children, data.parent, c))
  {
    forall p: Id, x: Id
      ensures Edge(LinkChild(children, data.parent, c), p, x) <==>
                x in registry[c := data] && registry[c := data][x].parent == p && p != NIL
    {
      assert Edge(children, p, x) <==> x in registry && registry[x].parent == p && p != NIL;
    }
  }

  lemma UnlinkKeepsInverse(registry: Registry, children: Children, c: Id)
    requires InverseOf(registry, children) && c in registry
    ensures InverseOf(registry - {c}, UnlinkChild(children, registry[c].parent, c))
  {
    var q := registry[c].parent;
    forall p: Id, x: Id
      ensures Edge(UnlinkChild(children, q, c), p, x) <==>
                x in registry - {c} && (registry - {c})[x].parent == p && p != NIL
    {
      assert Edge(children, p, x) <==> x in registry && registry[x].parent == p && p != NIL;
    }
  }

  // Registering an identifier again with another parent leaves it listed under the old one as well.
  lemma RelinkBreaksInverse(registry: Registry, children: Children, c: Id, data: ObjectData)
    requires InverseOf(registry, children) && c in registry
    requires registry[c].parent != NIL && registry[c].parent != data.parent
    ensures !InverseOf(registry[c := data], LinkChild(children, data.parent, c))
  {
    assert Edge(children, registry[c].parent, c);
    assert Edge(LinkChild(children, data.parent, c), registry[c].parent, c);
  }

  // Forgetting an object without unlisting it keeps the inverse exactly when no parent lists it.
  lemma EraseInverseIff(registry: Registry, children: Children, c: Id)
    requires InverseOf(registry, children)
    ensures InverseOf(registry - {c}, children) <==> c !in registry || registry[c].parent == NIL
  {
    if c in registry && registry[c].parent != NIL {
      assert Edge(children, registry[c].parent, c);
    } else {
      forall p: Id, x: Id
        ensures Edge(children, p, x) <==> x in registry - {c} && (registry - {c})[x].parent == p && p != NIL
      {
        assert Edge(children, p, x) <==> x in registry && registry[x].parent == p && p != NIL;
      }
    }
  }

  class Manager {
    var registry: Registry
    var children: Children
    var dirtyAabb: set<Id>
    var toUpsert: set<Id>
    var toRemove: set<Id>
    var pendingRemoval: set<Id>
    var objectRemoval: set<Id>
    var loadQueue: seq<Id>

    // The work sets speak of registered objects only.
    ghost predicate WorkRegistered()
      reads this
    {
      dirtyAabb <= registry.Keys && toUpsert <= registry.Keys
    }

    ghost predicate Valid()
      reads this
    {
      InverseOf(registry, children) && WorkRegistered()
    }

    constructor ()
      ensures Valid() && registry == map[] && children == map[] && loadQueue == []
      ensures dirtyAabb == {} && toUpsert == {} && toRemove == {} && pendingRemoval == {} && objectRemoval == {}
    {
      registry, children, dirtyAabb, toUpsert, toRemove := map[], map[], {}, {}, {};
      pendingRemoval, objectRemoval, loadQueue := {}, {}, [];
    }

    // Registers an object. The graph stays right exactly when the identifier was not registered before
    // under another parent; callers register fresh identifiers.
    method AddObject(uuid: Id, parent: Id, node: nat)
      requires Valid()
      modifies this`registry, this`children, this`toUpsert, this`dirtyAabb
      ensures uuid == NIL ==> registry == old(registry) && children == old(children)
                              && toUpsert == old(toUpsert) && dirtyAabb == old(dirtyAabb)
      ensures uuid != NIL ==> registry == old(registry)[uuid := ObjectData(parent, node)]
                              && toUpsert == old(toUpsert) + {uuid} && dirtyAabb == old(dirtyAabb) + {uuid}
      ensures WorkRegistered()
      ensures Valid() <==> uuid == NIL || uuid !in old(registry)
                           || old(registry)[uuid].parent == NIL || old(registry)[uuid].parent == parent
    {
      if uuid == NIL {
        return;
      }
      var data := ObjectData(parent, node);
      if uuid !in registry || registry[uuid].parent == NIL || registry[uuid].parent == parent {
        LinkKeepsInverse(registry, children, uuid, data);
      } else {
        RelinkBreaksInverse(registry, children, uuid, data);
      }
      registry := registry[uuid := data];
      children := LinkChild(children, parent, uuid);
      toUpsert := toUpsert + {uuid};
      dirtyAabb := dirtyAabb + {uuid};
    }

    // Renews the node and moves the object to another parent when that changed.
    method UpdateObject(uuid: Id, newParent: Id, node: nat)
      requires Valid()
      modifies this`registry, this`children, this`toUpsert
      ensures Valid()
      ensures uuid !in old(registry) ==> registry == old(registry) && toUpsert == old(toUpsert)
      ensures uuid in old(registry) ==> registry == old(registry)[uuid := ObjectData(newParent, node)]
                                        && toUpsert == old(toUpsert) + {uuid}
    {
      if uuid !in registry {
        return;
      }
      ghost var before := registry;
      var oldParent := registry[uuid].parent;
      registry := registry[uuid := ObjectData(oldParent, node)];
      if newParent != oldParent {
        UnlinkKeepsInverse(before, children, uuid);
        children := UnlinkChild(children, oldParent, uuid);
        LinkKeepsInverse(before - {uuid}, children, uuid, ObjectData(newParent, node));
        children := LinkChild(children, newParent, uuid);
        registry := registry[uuid := ObjectData(newParent, node)];
        assert (before - {uuid})[uuid := ObjectData(newParent, node)] == registry;
      } else {
        SameParentKeepsInverse(before, children, uuid, node);
      }
      toUpsert := toUpsert + {uuid};
    }

    // Asks for removal at the next frame.
    method RemoveObject(uuid: Id)
      modifies this`objectRemoval
      ensures old(Valid()) ==> Valid()
      ensures objectRemoval == if uuid == NIL then old(objectRemoval) else old(objectRemoval) + {uuid}
    {
      if uuid != NIL {
        objectRemoval := objectRemoval + {uuid};
      }
    }

    // The work sets keep speaking of registered objects only; the children map stays right exactly when the
    // object was not listed under a parent.
    method EraseRegistryEntry(id: Id)
      modifies this`registry, this`dirtyAabb, this`toUpsert
      ensures registry == old(registry) - {id}
      ensures dirtyAabb == old(dirtyAabb) - {id} && toUpsert == old(toUpsert) - {id}
      ensures old(WorkRegistered()) ==> WorkRegistered()
      ensures old(Valid()) ==> (Valid() <==> id !in old(registry) || old(registry)[id].parent == NIL)
    {
      if InverseOf(registry, children) {
        EraseInverseIff(registry, children, id);
      }
      registry := registry - {id};
      dirtyAabb := dirtyAabb - {id};
      toUpsert := toUpsert - {id};
    }

    // Removes an object with everything below it, whether or not the object itself is still registered.
    method RemoveNow(uuid: Id) returns (toDelete: set<Id>)
      requires Valid()
      modifies this`registry, this`children, this`dirtyAabb, this`toUpsert, this`toRemove
      ensures Valid()
      ensures IsReachable(old(children), uuid, toDelete)
      ensures registry == old(registry) - toDelete
      ensures toRemove == old(toRemove) + toDelete * old(registry).Keys
      ensures dirtyAabb == old(dirtyAabb) - toDelete * old(registry).Keys
      ensures toUpsert == old(toUpsert) - toDelete * old(registry).Keys
      ensures forall u :: u in registry ==> registry[u].parent !in toDelete || registry[u].parent == NIL
      ensures children.Keys !! toDelete
    {
      hide IsReachable, InverseOf;
      toDelete := CollectDescendants(children, uuid);
      ghost var g := children;
      var rest := toDelete;
      while rest != {}
        invariant rest <= toDelete && Valid()
        invariant registry == old(registry) - (toDelete - rest)
        invariant toRemove == old(toRemove) + (toDelete - rest) * old(registry).Keys
        invariant dirtyAabb == old(dirtyAabb) - (toDelete - rest) * old(registry).Keys
        invariant toUpsert == old(toUpsert) - (toDelete - rest) * old(registry).Keys
        decreases rest
      {
        var id :| id in rest;
        rest := rest - {id};
        assert toDelete - rest == toDelete - (rest + {id}) + {id};
        if id in registry {
          UnlinkKeepsInverse(registry, children, id);
          children := UnlinkChild(children, registry[id].parent, id);
          toRemove := toRemove + {id};
          EraseRegistryEntry(id);
        }
      }
      assert toDelete - {} == toDelete;
      NoOrphans(old(registry), g, uuid, toDelete);
      DropKeepsInverse(registry, children, toDelete);
      children := children - toDelete;
    }

    // The removals asked for since the last frame, in whatever order. Each object asked for goes with everything
    // that was below it before the first removal, so the order makes no difference.
    method ProcessRemovals() returns (ghost gone: set<Id>)
      requires Valid()
      modifies this`registry, this`children, this`dirtyAabb, this`toUpsert, this`toRemove, this`objectRemoval
      ensures Valid() && objectRemoval == {}
      ensures forall u :: u in gone <==> Below(old(children), old(objectRemoval), u)
      ensures registry == old(registry) - gone
      ensures toRemove == old(toRemove) + gone * old(registry).Keys
      ensures dirtyAabb == old(dirtyAabb) - gone * old(registry).Keys
      ensures toUpsert == old(toUpsert) - gone * old(registry).Keys
      ensures forall u :: u in registry ==> registry[u].parent !in gone || registry[u].parent == NIL
    {
      hide Below, InverseOf, IsReachable, Reaches;
      ghost var registry0, children0, done: set<Id> := registry, children, {};
      gone := {};
      NothingBelow(children0);
      assert registry - {} == registry;
      var rest := objectRemoval;
      while rest != {}
        invariant Valid() && rest <= objectRemoval == old(objectRemoval) && done == objectRemoval - rest
        invariant forall u :: u in gone <==> Below(children0, done, u)
        invariant registry == registry0 - gone
        invariant toRemove == old(toRemove) + gone * registry0.Keys
        invariant dirtyAabb == old(dirtyAabb) - gone * registry0.Keys
        invariant toUpsert == old(toUpsert) - gone * registry0.Keys
        decreases rest
      {
        var uuid :| uuid in rest;
        rest := rest - {uuid};
        ghost var before := gone;
        ghost var children1 := children;
        assert InverseOf(registry0 - gone, children1);
        var deleted := RemoveNow(uuid);
        RemoveOneMore(registry0, children0, done, gone, children1, uuid, deleted);
        gone := gone + deleted;
        done := done + {uuid};
        assert registry0 - before - deleted == registry0 - gone;
      }
      assert done == old(objectRemoval);
      objectRemoval := {};
      BelowOrphansNobody(registry0, children0, old(objectRemoval), gone);
    }

    // A node entered the tree with an identifier already set: renews the entry, or makes one without a parent.
    method ObjectEntered(uuid: Id, node: nat)
      requires Valid()
      modifies this`registry
      ensures Valid()
      ensures var entry := if uuid in old(registry) then old(registry)[uuid] else NO_DATA;
              registry == old(registry)[uuid := entry.(nodeRoot := node)]
    {
      if uuid in registry {
        SameParentKeepsInverse(registry, children, uuid, node);
      } else {
        LinkKeepsInverse(registry, children, uuid, NO_DATA.(nodeRoot := node));
      }
      registry := registry[uuid := (if uuid in registry then registry[uuid] else NO_DATA).(nodeRoot := node)];
    }

    method AabbChanged(uuid: Id)
      requires Valid()
      modifies this`dirtyAabb
      ensures Valid()
      ensures dirtyAabb == if uuid in registry then old(dirtyAabb) + {uuid} else old(dirtyAabb)
    {
      if uuid in registry {
        dirtyAabb := dirtyAabb + {uuid};
      }
    }

    // A node left the tree: not dirty any more when the manager is unloading it, else its removal is asked for.
    method ObjectExited(uuid: Id, beingDeleted: bool)
      modifies this`dirtyAabb, this`objectRemoval
      ensures old(Valid()) ==> Valid()
      ensures if uuid in pendingRemoval || beingDeleted
              then dirtyAabb == old(dirtyAabb) - {uuid} && objectRemoval == old(objectRemoval)
              else dirtyAabb == old(dirtyAabb)
                   && objectRemoval == if uuid == NIL then old(objectRemoval) else old(objectRemoval) + {uuid}
    {
      if uuid in pendingRemoval || beingDeleted {
        dirtyAabb := dirtyAabb - {uuid};
        return;
      }
      RemoveObject(uuid);
    }

    // Takes an object's nodes and those below it out of the scene. `alive` are the node ids that still exist.
    // Reading the registry by subscript makes an empty entry for a listed child that is not registered.
    method UnloadObject(uuid: Id, alive: set<nat>) returns (ghost gone: set<Id>)
      requires WorkRegistered()
      modifies this`registry, this`dirtyAabb, this`pendingRemoval, this`objectRemoval
      ensures WorkRegistered() && objectRemoval == old(objectRemoval)
      ensures if uuid == NIL || uuid !in old(registry) then gone == {} else IsReachable(children, uuid, gone)
      ensures registry.Keys == old(registry).Keys + gone
      ensures forall u :: u in registry ==> registry[u] == Unloaded(old(registry), gone, alive, u)
      ensures pendingRemoval == old(pendingRemoval) - gone
      ensures dirtyAabb == old(dirtyAabb) - LoadedIn(old(registry), gone, alive)
    {
      hide IsReachable;
      gone := {};
      if uuid == NIL || uuid !in registry {
        assert LoadedIn(registry, gone, alive) == {};
        return;
      }
      var allIds := CollectDescendants(children, uuid);
      gone := allIds;
      pendingRemoval := pendingRemoval + allIds;
      var rest := allIds;
      while rest != {}
        invariant rest <= allIds <= pendingRemoval && pendingRemoval == old(pendingRemoval) + allIds
        invariant registry.Keys == old(registry).Keys + (allIds - rest)
        invariant forall u :: u in registry ==> registry[u] == Unloaded(old(registry), allIds - rest, alive, u)
        invariant dirtyAabb == old(dirtyAabb) - LoadedIn(old(registry), allIds - rest, alive)
        invariant objectRemoval == old(objectRemoval)
        decreases rest
      {
        var id :| id in rest;
        ghost var done := allIds - rest;
        rest := rest - {id};
        assert allIds - rest == done + {id};
        LoadedInOneMore(old(registry), done, alive, id);
        UnloadNode(id, alive);
      }
      pendingRemoval := pendingRemoval - allIds;
    }

    // The step for one object of the subtree.
    method UnloadNode(id: Id, alive: set<nat>)
      requires id in pendingRemoval
      modifies this`registry, this`dirtyAabb, this`objectRemoval
      ensures registry == old(registry)[id := Unloaded(old(registry), {id}, alive, id)]
      ensures dirtyAabb == old(dirtyAabb) - LoadedIn(old(registry), {id}, alive)
      ensures objectRemoval == old(objectRemoval)
    {
      if id !in registry {
        registry := registry[id := NO_DATA];
      }
      if registry[id].nodeRoot != 0 && registry[id].nodeRoot in alive {
        ObjectExited(id, false);
        registry := registry[id := registry[id].(nodeRoot := 0)];
      }
    }

    // The answer to a region query: everything loaded outside it is unloaded and forgotten, in some order, the
    // stored parents are taken over, and the inverse is built anew. An object that is unloaded before something
    // above it comes back as an empty entry.
    method OnQueryResult(found: map<Id, Id>, alive: set<nat>) returns (ghost queued: seq<Id>, ghost order: seq<Id>)
      requires WorkRegistered()
      modifies this`registry, this`children, this`dirtyAabb, this`toUpsert
      modifies this`pendingRemoval, this`objectRemoval, this`loadQueue
      ensures Valid()
      ensures UnloadOrder(old(registry), found, order)
      ensures forall u :: u in registry <==> u in found || Stays(old(registry), old(children), order, u)
      // Registered, not loaded and not in the answer: stays as it is.
      ensures forall u :: u in old(registry) && u !in found && old(registry)[u].nodeRoot == 0 ==>
                u in registry && registry[u] == old(registry)[u]
      // Loaded and not in the answer: goes, or is back as an empty entry if it is below another such object.
      ensures forall u :: u in old(registry) && u !in found && old(registry)[u].nodeRoot != 0 && u in registry ==>
                registry[u] == NO_DATA && BelowUnloaded(old(registry), found, old(children), u, {u})
      // Neither registered nor in the answer: gets an empty entry exactly when it is below an object that goes.
      ensures forall u :: u !in old(registry) && u !in found ==>
                (u in registry <==> BelowUnloaded(old(registry), found, old(children), u, {}))
                && (u in registry ==> registry[u] == NO_DATA)
      // In the answer: the stored parent, and the node unless it is alive and below an object that goes.
      ensures forall u :: u in found ==>
                registry[u] == ObjectData(found[u], if u !in old(registry) then 0
                                                    else if old(registry)[u].nodeRoot in alive
                                                            && BelowUnloaded(old(registry), found, old(children), u, {})
                                                    then 0 else old(registry)[u].nodeRoot)
      ensures toUpsert == old(toUpsert) - Members(order)
      ensures forall u :: u in pendingRemoval <==>
                u in old(pendingRemoval) && !BelowUnloaded(old(registry), found, old(children), u, {})
      ensures forall u :: u in dirtyAabb <==>
                u in old(dirtyAabb) && u !in order && !LetGo(old(registry), old(children), order, alive, u)
      ensures loadQueue == old(loadQueue) + queued
      ensures forall u :: u in queued <==> u in registry && registry[u] == NO_DATA
      ensures forall i, j :: 0 <= i < j < |queued| ==> queued[i] != queued[j]
      ensures objectRemoval == old(objectRemoval)
    {
      hide Stays, Touched, BelowUnloaded, Outside;
      ghost var registry0, children0 := registry, children;
      order := UnloadOutside(found, alive);
      MergeFound(found);
      OrderBelow(registry0, found, children0, order);
      children := Inverse(registry);
      queued := QueueRoots();
    }

    // Unloads one object and erases its entry.
    method UnloadAndForget(uuid: Id, alive: set<nat>) returns (ghost gone: set<Id>)
      requires WorkRegistered() && uuid in registry
      modifies this`registry, this`dirtyAabb, this`toUpsert, this`pendingRemoval, this`objectRemoval
      ensures WorkRegistered() && objectRemoval == old(objectRemoval)
      ensures if uuid == NIL then gone == {} else IsReachable(children, uuid, gone)
      ensures registry.Keys == old(registry).Keys + gone - {uuid}
      ensures forall u :: u in registry ==> registry[u] == Unloaded(old(registry), gone, alive, u)
      ensures pendingRemoval == old(pendingRemoval) - gone && toUpsert == old(toUpsert) - {uuid}
      ensures dirtyAabb == old(dirtyAabb) - LoadedIn(old(registry), gone, alive) - {uuid}
    {
      hide IsReachable;
      gone := UnloadObject(uuid, alive);
      EraseRegistryEntry(uuid);
    }

    method UnloadOutside(found: map<Id, Id>, alive: set<nat>) returns (ghost order: seq<Id>)
      requires WorkRegistered()
      modifies this`registry, this`dirtyAabb, this`toUpsert, this`pendingRemoval, this`objectRemoval
      ensures WorkRegistered() && objectRemoval == old(objectRemoval)
      ensures UnloadOrder(old(registry), found, order)
      ensures forall u :: u in registry <==> Stays(old(registry), children, order, u)
      ensures AllLeft(old(registry), old(dirtyAabb), children, order, alive, registry, dirtyAabb)
      ensures toUpsert == old(toUpsert) - Members(order)
      ensures forall u :: u in pendingRemoval <==> u in old(pendingRemoval) && !Touched(children, order, u)
    {
      hide Stays, IsReachable, Touched, Outside, AllLeft, LoadedIn, Unloaded;
      var toUnload := Outside(registry, found);
      ghost var all, registry0, dirty0 := toUnload, registry, dirtyAabb;
      order := [];
      EverythingStays(registry, children);
      NothingTouched(children);
      NothingLetGo(registry, dirtyAabb, children, alive);
      OutsideIs(registry, found);
      while toUnload != {}
        invariant WorkRegistered() && objectRemoval == old(objectRemoval)
        invariant toUnload <= all && (forall u :: u in order <==> u in all - toUnload)
        invariant forall i, j :: 0 <= i < j < |order| ==> order[i] != order[j]
        invariant forall u :: u in toUnload ==> u in registry
        invariant forall u :: u in registry <==> Stays(registry0, children, order, u)
        invariant AllLeft(registry0, dirty0, children, order, alive, registry, dirtyAabb)
        invariant toUpsert == old(toUpsert) - Members(order)
        invariant forall u :: u in pendingRemoval <==> u in old(pendingRemoval) && !Touched(children, order, u)
        decreases toUnload
      {
        var uuid :| uuid in toUnload;
        ghost var now, dirty := registry, dirtyAabb;
        ghost var gone := UnloadAndForget(uuid, alive);
        UnloadOneMore(registry0, children, order, uuid, gone);
        TouchOneMore(children, order, uuid, gone);
        LeftOneMore(registry0, dirty0, children, order, alive, now, dirty, uuid, gone, registry, dirtyAabb);
        assert Members(order + [uuid]) == Members(order) + {uuid};
        order := order + [uuid];
        toUnload := toUnload - {uuid};
      }
    }

    method MergeFound(found: map<Id, Id>)
      requires WorkRegistered()
      modifies this`registry
      ensures WorkRegistered() && registry.Keys == old(registry).Keys + found.Keys
      ensures forall u :: u in found ==> registry[u].parent == found[u]
      ensures forall u :: u in found ==>
                registry[u].nodeRoot == if u in old(registry) then old(registry)[u].nodeRoot else 0
      ensures forall u :: u in old(registry) && u !in found ==> registry[u] == old(registry)[u]
    {
      var rest := found.Keys;
      while rest != {}
        invariant rest <= found.Keys
        invariant registry.Keys == old(registry).Keys + (found.Keys - rest)
        invariant forall u :: u in found && u !in rest ==> registry[u].parent == found[u]
        invariant forall u :: u in found && u !in rest ==>
                    registry[u].nodeRoot == if u in old(registry) then old(registry)[u].nodeRoot else 0
        invariant forall u :: u in old(registry) && (u !in found || u in rest) ==> registry[u] == old(registry)[u]
        decreases rest
      {
        var uuid :| uuid in rest;
        rest := rest - {uuid};
        if uuid in registry {
          registry := registry[uuid := registry[uuid].(parent := found[uuid])];
        } else {
          registry := registry[uuid := ObjectData(found[uuid], 0)];
        }
      }
    }

    // Queues every root that is not loaded, once.
    method QueueRoots() returns (ghost batch: seq<Id>)
      modifies this`loadQueue
      ensures loadQueue == old(loadQueue) + batch
      ensures forall u :: u in batch <==> u in registry && registry[u] == NO_DATA
      ensures forall i, j :: 0 <= i < j < |batch| ==> batch[i] != batch[j]
    {
      batch := [];
      var rest := registry.Keys;
      while rest != {}
        invariant rest <= registry.Keys
        invariant loadQueue == old(loadQueue) + batch
        invariant forall u :: u in batch <==> u in registry && u !in rest && registry[u] == NO_DATA
        invariant forall i, j :: 0 <= i < j < |batch| ==> batch[i] != batch[j]
        decreases rest
      {
        var u :| u in rest;
        if registry[u].parent == NIL && registry[u].nodeRoot == 0 {
          loadQueue := loadQueue + [u];
          batch := batch + [u];
        }
        rest := rest - {u};
      }
    }
  }

  // An entry after the objects `gone` have been unloaded: a living node is let go, a missing entry is made empty.
  function Unloaded(registry: Registry, gone: set<Id>, alive: set<nat>, u: Id): (d: ObjectData)
  {
    if u !in registry then NO_DATA
    else if u in gone && registry[u].nodeRoot in alive then registry[u].(nodeRoot := 0)
    else registry[u]
  }

  function LoadedIn(registry: Registry, gone: set<Id>, alive: set<nat>): (s: set<Id>)
  {
    set u | u in gone && u in registry && registry[u].nodeRoot != 0 && registry[u].nodeRoot in alive
  }

  lemma LoadedInOneMore(registry: Registry, gone: set<Id>, alive: set<nat>, u: Id)
    ensures LoadedIn(registry, gone + {u}, alive) == LoadedIn(registry, gone, alive) + LoadedIn(registry, {u}, alive)
  {
  }

  // An object that is loaded and not in the answer, and not excepted, is u or above it.
  ghost predicate BelowUnloaded(registry: Registry, found: map<Id, Id>, children: Children, u: Id, except: set<Id>)
  {
    exists v :: v in registry && registry[v].nodeRoot != 0 && v !in found && v !in except
                && v != NIL && Reaches(children, v, u)
  }

  function Members(order: seq<Id>): (s: set<Id>)
  {
    set u | u in order
  }

  // Unloading these objects touches u.
  ghost predicate Touched(children: Children, order: seq<Id>, u: Id)
  {
    exists x :: x in order && Touches(children, x, u)
  }

  ghost predicate LetGo(registry: Registry, children: Children, order: seq<Id>, alive: set<nat>, u: Id)
  {
    Touched(children, order, u) && u in registry && registry[u].nodeRoot != 0 && registry[u].nodeRoot in alive
  }

  // The entry of an object after the unloading, if there is one.
  ghost function Left(registry: Registry, children: Children, order: seq<Id>, alive: set<nat>, u: Id): (d: ObjectData)
  {
    if u !in registry || u in order then NO_DATA
    else if LetGo(registry, children, order, alive, u) then registry[u].(nodeRoot := 0)
    else registry[u]
  }

  // The entries that are left, and the dirty objects, after unloading in this order.
  ghost predicate AllLeft(registry: Registry, dirty: set<Id>, children: Children, order: seq<Id>, alive: set<nat>,
                          now: Registry, dirtyNow: set<Id>)
  {
    && (forall u :: u in now ==> now[u] == Left(registry, children, order, alive, u))
    && forall u :: u in dirtyNow <==> u in dirty && u !in order && !LetGo(registry, children, order, alive, u)
  }

  lemma NothingTouched(children: Children)
    ensures forall u :: !Touched(children, [], u)
  {
  }

  lemma TouchOneMore(children: Children, order: seq<Id>, x: Id, gone: set<Id>)
    requires if x == NIL then gone == {} else IsReachable(children, x, gone)
    ensures forall u :: Touched(children, order + [x], u) <==> Touched(children, order, u) || u in gone
  {
    forall u: Id
      ensures Touched(children, order + [x], u) <==> Touched(children, order, u) || Touches(children, x, u)
    {
      assert forall y :: y in order + [x] <==> y in order || y == x;
    }
  }

  // Unloading one more object takes the entries from what is left after the others to what is left after it.
  lemma LeftOneMore(registry: Registry, dirty: set<Id>, children: Children, order: seq<Id>, alive: set<nat>,
                    now: Registry, dirtyNow: set<Id>, x: Id, gone: set<Id>, next: Registry, dirtyNext: set<Id>)
    requires AllLeft(registry, dirty, children, order, alive, now, dirtyNow)
    requires forall u :: u in now <==> Stays(registry, children, order, u)
    requires forall u :: Touched(children, order + [x], u) <==> Touched(children, order, u) || u in gone
    requires next.Keys == now.Keys + gone - {x} && forall u :: u in next ==> next[u] == Unloaded(now, gone, alive, u)
    requires dirtyNext == dirtyNow - LoadedIn(now, gone, alive) - {x}
    ensures AllLeft(registry, dirty, children, order + [x], alive, next, dirtyNext)
  {
    hide Touched, Left, LetGo, LoadedIn, Unloaded;
    forall u: Id
      ensures u in next ==> next[u] == Left(registry, children, order + [x], alive, u)
      ensures u in dirtyNext <==> u in dirty && u !in order + [x] && !LetGo(registry, children, order + [x], alive, u)
    {
      EntryOneMore(registry, children, order, alive, now, x, gone, u);
    }
  }

  lemma EntryOneMore(registry: Registry, children: Children, order: seq<Id>, alive: set<nat>, now: Registry, x: Id,
                     gone: set<Id>, u: Id)
    requires Touched(children, order + [x], u) <==> Touched(children, order, u) || u in gone
    requires u in now ==> now[u] == Left(registry, children, order, alive, u)
    requires u !in now ==> u !in registry || u in order
    ensures u != x ==> Unloaded(now, gone, alive, u) == Left(registry, children, order + [x], alive, u)
    ensures u !in order && !LetGo(registry, children, order, alive, u) && u !in LoadedIn(now, gone, alive) && u != x
            <==> u !in order + [x] && !LetGo(registry, children, order + [x], alive, u)
  {
    hide Touched;
    assert u in order + [x] <==> u in order || u == x;
  }

  lemma NothingLetGo(registry: Registry, dirty: set<Id>, children: Children, alive: set<nat>)
    ensures AllLeft(registry, dirty, children, [], alive, registry, dirty)
  {
  }

  lemma OutsideIs(registry: Registry, found: map<Id, Id>)
    ensures forall u :: u in Outside(registry, found) ==> u in registry
  {
  }

  lemma TouchedIff(registry: Registry, found: map<Id, Id>, children: Children, order: seq<Id>, u: Id)
    requires UnloadOrder(registry, found, order)
    ensures Touched(children, order, u) <==> BelowUnloaded(registry, found, children, u, {})
  {
    hide Reaches;
    if Touched(children, order, u) {
      var x :| x in order && Touches(children, x, u);
      assert x in Outside(registry, found) && Reaches(children, x, u);
    }
    if BelowUnloaded(registry, found, children, u, {}) {
      var v :| v in registry && registry[v].nodeRoot != 0 && v !in found && v != NIL && Reaches(children, v, u);
      assert v in Outside(registry, found) && Touches(children, v, u);
    }
  }

  lemma RevivedBelow(registry: Registry, found: map<Id, Id>, children: Children, order: seq<Id>, u: Id)
    requires UnloadOrder(registry, found, order) && Revived(children, order, u)
    ensures BelowUnloaded(registry, found, children, u, {u})
  {
    hide Reaches;
    var j :| 0 <= j < |order| && Touches(children, order[j], u) && u !in order[j..];
    assert order[j..][0] == order[j];
    assert order[j] in Outside(registry, found);
  }

  lemma TouchedRevives(children: Children, order: seq<Id>, u: Id)
    requires u !in order
    ensures Revived(children, order, u) <==> Touched(children, order, u)
  {
    hide Touches;
    if Touched(children, order, u) {
      var x :| x in order && Touches(children, x, u);
      var j :| 0 <= j < |order| && order[j] == x;
      assert forall k :: 0 <= k < |order[j..]| ==> order[j..][k] == order[j + k] && order[j + k] in order;
    }
  }

  // What is touched, and who comes back, in terms of the registry and the answer.
  lemma OrderBelow(registry: Registry, found: map<Id, Id>, children: Children, order: seq<Id>)
    requires UnloadOrder(registry, found, order)
    ensures forall u :: u in order <==> u in registry && u !in found && registry[u].nodeRoot != 0
    ensures forall u :: Touched(children, order, u) <==> BelowUnloaded(registry, found, children, u, {})
    ensures forall u :: u in registry && u !in order ==> Stays(registry, children, order, u)
    ensures forall u :: u in order && Stays(registry, children, order, u) ==>
              BelowUnloaded(registry, found, children, u, {u})
    ensures forall u :: u !in registry ==> (Stays(registry, children, order, u) <==> Touched(children, order, u))
  {
    hide Revived, Touched, BelowUnloaded;
    forall u: Id
      ensures Touched(children, order, u) <==> BelowUnloaded(registry, found, children, u, {})
      ensures u in order && Revived(children, order, u) ==> BelowUnloaded(registry, found, children, u, {u})
      ensures u !in order ==> (Revived(children, order, u) <==> Touched(children, order, u))
    {
      TouchedIff(registry, found, children, order, u);
      if u !in order {
        TouchedRevives(children, order, u);
      } else if Revived(children, order, u) {
        RevivedBelow(registry, found, children, order, u);
      }
    }
  }

  // Everything loaded that is not in the answer.
  function Outside(registry: Registry, found: map<Id, Id>): (s: set<Id>)
  {
    set u | u in registry && u !in found && registry[u].nodeRoot != 0
  }

  // All of that once, in some order.
  ghost predicate UnloadOrder(registry: Registry, found: map<Id, Id>, order: seq<Id>)
  {
    && (forall u :: u in order <==> u in Outside(registry, found))
    && forall i, j :: 0 <= i < j < |order| ==> order[i] != order[j]
  }

  // What unloading x touches.
  ghost predicate Touches(children: Children, x: Id, u: Id)
  {
    x != NIL && Reaches(children, x, u)
  }

  // The entry is made anew after the object was erased, or though it never was registered.
  ghost predicate Revived(children: Children, order: seq<Id>, u: Id)
  {
    exists j :: 0 <= j < |order| && Touches(children, order[j], u) && u !in order[j..]
  }

  // Which entries are there after the unloading.
  ghost predicate Stays(registry: Registry, children: Children, order: seq<Id>, u: Id)
  {
    (u in registry && u !in order) || Revived(children, order, u)
  }

  lemma EverythingStays(registry: Registry, children: Children)
    ensures forall u :: u in registry <==> Stays(registry, children, [], u)
  {
  }

  lemma UnloadOneMore(registry: Registry, children: Children, order: seq<Id>, x: Id, gone: set<Id>)
    requires if x == NIL then gone == {} else IsReachable(children, x, gone)
    ensures forall u :: Stays(registry, children, order + [x], u) <==>
                        u != x && (Stays(registry, children, order, u) || u in gone)
    ensures forall u :: u in registry && u !in order ==> Stays(registry, children, order, u)
  {
    forall u: Id
      ensures Stays(registry, children, order + [x], u) <==>
              u != x && (Stays(registry, children, order, u) || u in gone)
    {
      RevivedOneMore(children, order, x, u);
      assert u in order + [x] <==> u in order || u == x;
    }
  }

  lemma RevivedOneMore(children: Children, order: seq<Id>, x: Id, u: Id)
    ensures Revived(children, order + [x], u) <==> u != x && (Revived(children, order, u) || Touches(children, x, u))
  {
    hide Touches;
    var more := order + [x];
    if j :| 0 <= j < |more| && Touches(children, more[j], u) && u !in more[j..] {
      assert more[j..][|more| - 1 - j] == x;
      if j < |order| {
        assert more[j..] == order[j..] + [x];
      }
    }
    if u != x {
      if j :| 0 <= j < |order| && Touches(children, order[j], u) && u !in order[j..] {
        assert more[j..] == order[j..] + [x] && more[j] == order[j];
      }
      if Touches(children, x, u) {
        assert more[|order|] == x && more[|order|..] == [x];
      }
    }
  }

  // After unloading in this order nothing is there but what was and has not been unloaded.
  ghost predicate NothingRevived(registry: Registry, children: Children, order: seq<Id>)
  {
    forall u :: Stays(registry, children, order, u) <==> u in registry && u !in order
  }

  // If the children map was right, nothing comes back, whatever the order, exactly when no object to be unloaded is
  // below another one.
  lemma NothingRevivedIff(registry: Registry, found: map<Id, Id>, children: Children)
    requires InverseOf(registry, children)
    ensures (forall order :: UnloadOrder(registry, found, order) ==> NothingRevived(registry, children, order))
            <==> forall u, v :: u in Outside(registry, found) && v in Outside(registry, found) && u != v ==>
                   !Reaches(children, u, v)
  {
    hide Reaches, InverseOf, NothingRevived;
    var out := Outside(registry, found);
    if u, v :| u in out && v in out && u != v && Reaches(children, u, v) {
      var order := WorstOrder(registry, found, children, u, v);
      assert UnloadOrder(registry, found, order) && !NothingRevived(registry, children, order);
    } else {
      forall order | UnloadOrder(registry, found, order)
        ensures NothingRevived(registry, children, order)
      {
        OrderRevivesNothingIff(registry, children, order);
      }
    }
  }

  // Unloading the lower one first brings something back.
  lemma WorstOrder(registry: Registry, found: map<Id, Id>, children: Children, u: Id, v: Id) returns (order: seq<Id>)
    requires InverseOf(registry, children) && u != v && Reaches(children, u, v)
    requires u in Outside(registry, found) && v in Outside(registry, found)
    ensures UnloadOrder(registry, found, order) && !NothingRevived(registry, children, order)
  {
    hide Reaches, InverseOf, NothingRevived;
    var rest := Listing(Outside(registry, found) - {u, v});
    order := [v, u] + rest;
    forall x: Id
      ensures x in order <==> x in Outside(registry, found)
    {
      assert x in order <==> x == v || x == u || x in rest;
    }
    assert Reaches(children, order[1], order[0]);
    OrderRevivesNothingIff(registry, children, order);
  }

  // The members of a set, once each.
  lemma {:induction false} Listing(s: set<Id>) returns (q: seq<Id>)
    ensures forall u :: u in q <==> u in s
    ensures forall i, j :: 0 <= i < j < |q| ==> q[i] != q[j]
  {
    if s == {} {
      return [];
    }
    var x :| x in s;
    var rest := Listing(s - {x});
    q := [x] + rest;
  }

  // In a given order nothing comes back exactly when each object is unloaded before those below it.
  lemma OrderRevivesNothingIff(registry: Registry, children: Children, order: seq<Id>)
    requires InverseOf(registry, children) && forall i, j :: 0 <= i < j < |order| ==> order[i] != order[j]
    ensures NothingRevived(registry, children, order)
            <==> forall i, j :: 0 <= i < j < |order| ==> !Reaches(children, order[j], order[i])
  {
    hide Reaches, InverseOf;
    if i, j :| 0 <= i < j < |order| && Reaches(children, order[j], order[i]) {
      assert order[j] in order && order[i] in order;
      if order[j] == NIL {
        NothingBelowNil(registry, children, order[i]);
      }
      assert Touches(children, order[j], order[i]);
      assert forall k :: 0 <= k < |order[j..]| ==> order[j..][k] == order[j + k];
      assert Revived(children, order, order[i]);
      assert Stays(registry, children, order, order[i]);
    }
    if forall i, j :: 0 <= i < j < |order| ==> !Reaches(children, order[j], order[i]) {
      forall u
        ensures Stays(registry, children, order, u) <==> u in registry && u !in order
      {
        if Revived(children, order, u) {
          RevivedWasRegistered(registry, children, order, u);
        }
      }
    }
  }

  lemma NothingBelowNil(registry: Registry, children: Children, v: Id)
    requires InverseOf(registry, children) && Reaches(children, NIL, v)
    ensures v == NIL
  {
    hide Reaches;
    ClosedHoldsReachable(children, {NIL}, NIL, v);
  }

  // v is stored under u and both are loaded: if v is unloaded first, unloading u brings back an empty entry of v.
  lemma RevivedEntry(u: Id, v: Id, nodes: (nat, nat))
    requires u != NIL && v != NIL && u != v && nodes.0 != 0 && nodes.1 != 0
    ensures var registry := map[u := ObjectData(NIL, nodes.0), v := ObjectData(u, nodes.1)];
            var children: Children := map[u := {v}];
            && InverseOf(registry, children) && UnloadOrder(registry, map[], [v, u])
            && Stays(registry, children, [v, u], v) && !Stays(registry, children, [v, u], u)
  {
    var children: Children := map[u := {v}];
    ReachesSelf(children, u);
    ReachesStep(children, u, u, v);
    assert Touches(children, [v, u][1], v) && [v, u][1..] == [u];
    hide Reaches;
    forall j | 0 <= j < 2
      ensures u in [v, u][j..]
    {
      assert [v, u][1] == u && [v, u][j..][1 - j] == u;
    }
  }

  lemma RevivedWasRegistered(registry: Registry, children: Children, order: seq<Id>, u: Id)
    requires InverseOf(registry, children) && Revived(children, order, u)
    requires forall i, j :: 0 <= i < j < |order| ==> !Reaches(children, order[j], order[i])
    ensures u in registry && u !in order
  {
    hide Reaches;
    var j :| 0 <= j < |order| && Touches(children, order[j], u) && u !in order[j..];
    assert order[j..][0] == order[j];
    LastStep(children, order[j], u);
    forall i | 0 <= i < |order|
      ensures order[i] != u
    {
      if i >= j {
        assert order[j..][i - j] == order[i];
      }
    }
  }

  // ---- removing several objects ----

  // u is one of the roots or below one.
  ghost predicate Below(children: Children, roots: set<Id>, u: Id)
  {
    exists r :: r in roots && Reaches(children, r, u)
  }

  lemma NothingBelow(children: Children)
    ensures forall u :: !Below(children, {}, u)
  {
  }

  lemma BelowClosed(children: Children, roots: set<Id>, gone: set<Id>)
    requires forall u :: u in gone <==> Below(children, roots, u)
    ensures Closed(children, gone)
  {
    hide Reaches;
    forall u, v | u in gone && Edge(children, u, v)
      ensures v in gone
    {
      var r :| r in roots && Reaches(children, r, u);
      ReachesStep(children, r, u, v);
    }
  }

  lemma BelowOrphansNobody(registry: Registry, children: Children, roots: set<Id>, gone: set<Id>)
    requires InverseOf(registry, children) && forall u :: u in gone <==> Below(children, roots, u)
    ensures forall u :: u in registry - gone ==> registry[u].parent !in gone || registry[u].parent == NIL
  {
    BelowClosed(children, roots, gone);
    forall u | u in registry - gone && registry[u].parent != NIL
      ensures registry[u].parent !in gone
    {
      assert Edge(children, registry[u].parent, u);
    }
  }

  // What is reachable after earlier removals is what was reachable before, apart from what they removed.
  lemma RemoveOneMore(registry: Registry, children: Children, done: set<Id>, gone: set<Id>, children': Children, r: Id,
                      deleted: set<Id>)
    requires InverseOf(registry, children) && InverseOf(registry - gone, children')
    requires (forall u :: u in gone <==> Below(children, done, u)) && IsReachable(children', r, deleted)
    ensures forall u :: u in gone + deleted <==> Below(children, done + {r}, u)
  {
    hide Reaches, InverseOf;
    BelowClosed(children, done, gone);
    FewerEdges(registry, children, gone, children');
    forall u: Id
      ensures u in gone + deleted <==> Below(children, done + {r}, u)
    {
      if u in deleted {
        ReachesMonotone(children', children, r, u);
      }
      if Reaches(children, r, u) && u !in gone {
        ReachesOutside(children, gone, children', r, u);
      }
    }
  }

  lemma FewerEdges(registry: Registry, children: Children, gone: set<Id>, children': Children)
    requires InverseOf(registry, children) && InverseOf(registry - gone, children')
    ensures forall x: Id, y: Id :: Edge(children', x, y) <==> Edge(children, x, y) && y !in gone
  {
  }

  lemma SameParentKeepsInverse(registry: Registry, children: Children, c: Id, node: nat)
    requires InverseOf(registry, children) && c in registry
    ensures InverseOf(registry[c := registry[c].(nodeRoot := node)], children)
  {
  }

  // What is left after removing a reachable set does not hang below it.
  lemma NoOrphans(registry: Registry, children: Children, root: Id, gone: set<Id>)
    requires InverseOf(registry, children) && IsReachable(children, root, gone)
    ensures forall u :: u in registry - gone ==> registry[u].parent !in gone || registry[u].parent == NIL
  {
    ReachableClosed(children, root, gone);
    forall u | u in registry - gone && registry[u].parent != NIL
      ensures registry[u].parent !in gone
    {
      assert Edge(children, registry[u].parent, u);
    }
  }

  // Parents without registered children can be forgotten.
  lemma DropKeepsInverse(registry: Registry, children: Children, gone: set<Id>)
    requires InverseOf(registry, children)
    requires forall u :: u in registry ==> registry[u].parent !in gone || registry[u].parent == NIL
    ensures InverseOf(registry, children - gone)
  {
    forall p: Id, x: Id
      ensures Edge(children - gone, p, x) <==> x in registry && registry[x].parent == p && p != NIL
    {
      assert Edge(children, p, x) <==> x in registry && registry[x].parent == p && p != NIL;
    }
  }

  // The rebuild: every registered object is entered under its parent.
  method Inverse(registry: Registry) returns (children: Children)
    ensures InverseOf(registry, children)
  {
    hide InverseOf;
    children := map[];
    var rest := registry.Keys;
    ghost var entered: Registry := map[];
    NothingInverse();
    while rest != {}
      invariant rest <= registry.Keys
      invariant entered == registry - rest && InverseOf(entered, children)
      decreases rest
    {
      var u :| u in rest;
      LinkKeepsInverse(entered, children, u, registry[u]);
      children := LinkChild(children, registry[u].parent, u);
      entered := entered[u := registry[u]];
      rest := rest - {u};
    }
    assert registry - {} == registry;
  }

  lemma NothingInverse()
    ensures InverseOf(map[], map[])
  {
  }
}
