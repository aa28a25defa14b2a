/**
 Identifiers of stored objects, and reachability along a parent-to-children map.
 */
module Reach {

  // A 128-bit identifier; 0 is the nil identifier that stands for "no parent".
  type Id = x: nat | x < 0x1_0000_0000_0000_0000_0000_0000_0000_0000 witness 0

  const NIL: Id := 0

  type Children = map<Id, set<Id>>

  predicate Edge(g: Children, u: Id, v: Id)
  {
    u in g && v in g[u]
  }

  ghost predicate Path(g: Children, p: seq<Id>)
  {
    p != [] && forall i :: 0 <= i < |p| - 1 ==> Edge(g, p[i], p[i + 1])
  }

  ghost predicate PathFrom(g: Children, p: seq<Id>, u: Id, v: Id)
  {
    Path(g, p) && p[0] == u && p[|p| - 1] == v
  }

  // v can be reached from u in zero or more steps.
  ghost predicate Reaches(g: Children, u: Id, v: Id)
  {
    exists p :: PathFrom(g, p, u, v)
  }

  lemma ReachesSelf(g: Children, u: Id)
    ensures Reaches(g, u, u)
  {
    assert PathFrom(g, [u], u, u);
  }

  lemma ReachesStep(g: Children, u: Id, v: Id, w: Id)
    requires Reaches(g, u, v) && Edge(g, v, w)
    ensures Reaches(g, u, w)
  {
    var p :| PathFrom(g, p, u, v);
    assert PathFrom(g, p + [w], u, w);
  }

  lemma ReachesFromParent(g: Children, u: Id, v: Id, w: Id)
    requires Edge(g, u, v) && Reaches(g, v, w)
    ensures Reaches(g, u, w)
  {
    var p :| PathFrom(g, p, v, w);
    var q := [u] + p;
    assert forall i :: 0 <= i < |q| - 1 ==> Edge(g, q[i], q[i + 1]);
    assert PathFrom(g, q, u, w);
  }

  // More edges, more reach.
  lemma ReachesMonotone(g: Children, g': Children, u: Id, v: Id)
    requires Reaches(g, u, v) && forall x: Id, y: Id :: Edge(g, x, y) ==> Edge(g', x, y)
    ensures Reaches(g', u, v)
  {
    var p :| PathFrom(g, p, u, v);
    assert PathFrom(g', p, u, v);
  }

  // The last step of a path that is not empty.
  lemma LastStep(g: Children, u: Id, w: Id)
    requires Reaches(g, u, w) && u != w
    ensures exists v :: Reaches(g, u, v) && Edge(g, v, w)
  {
    var p :| PathFrom(g, p, u, w);
    var n := |p| - 1;
    assert PathFrom(g, p[..n], u, p[n - 1]);
    assert Edge(g, p[n - 1], p[n - 1 + 1]);
  }

  ghost predicate Closed(g: Children, s: set<Id>)
  {
    forall u, v :: u in s && Edge(g, u, v) ==> v in s
  }

  // A closed set that holds the start holds everything reachable.
  lemma ClosedHoldsReachable(g: Children, s: set<Id>, u: Id, v: Id)
    requires Closed(g, s) && u in s && Reaches(g, u, v)
    ensures v in s
  {
    var p :| PathFrom(g, p, u, v);
    ClosedHoldsPath(g, s, p, |p| - 1);
  }

  lemma {:induction false} ClosedHoldsPath(g: Children, s: set<Id>, p: seq<Id>, i: nat)
    requires Closed(g, s) && Path(g, p) && p[0] in s && i < |p|
    ensures p[i] in s
  {
    if i > 0 {
      ClosedHoldsPath(g, s, p, i - 1);
      assert Edge(g, p[i - 1], p[i - 1 + 1]);
    }
  }

  // Leaving out the edges into a closed set cuts off nothing outside it.
  lemma ReachesOutside(g: Children, gone: set<Id>, g': Children, u: Id, v: Id)
    requires Closed(g, gone) && Reaches(g, u, v) && v !in gone
    requires forall x: Id, y: Id :: Edge(g', x, y) <==> Edge(g, x, y) && y !in gone
    ensures Reaches(g', u, v)
  {
    var p :| PathFrom(g, p, u, v);
    forall i | 0 <= i < |p|
      ensures p[i] !in gone
    {
      StaysInside(g, gone, p, i, |p| - 1);
    }
    forall i | 0 <= i < |p| - 1
      ensures Edge(g', p[i], p[i + 1])
    {
      assert Edge(g, p[i], p[i + 1]);
    }
    assert PathFrom(g', p, u, v);
  }

  lemma {:induction false} StaysInside(g: Children, s: set<Id>, p: seq<Id>, i: nat, j: nat)
    requires Closed(g, s) && Path(g, p) && i <= j < |p|
    ensures p[i] in s ==> p[j] in s
    decreases j - i
  {
    if i < j {
      StaysInside(g, s, p, i, j - 1);
      assert Edge(g, p[j - 1], p[j - 1 + 1]);
    }
  }

  // The set of everything reachable from the root.
  ghost predicate IsReachable(g: Children, root: Id, s: set<Id>)
  {
    forall v :: v in s <==> Reaches(g, root, v)
  }

  lemma LeastClosed(g: Children, root: Id, s: set<Id>)
    requires root in s && Closed(g, s) && forall v :: v in s ==> Reaches(g, root, v)
    ensures IsReachable(g, root, s)
  {
    forall v | Reaches(g, root, v)
      ensures v in s
    {
      ClosedHoldsReachable(g, s, root, v);
    }
  }

  lemma ReachableClosed(g: Children, root: Id, s: set<Id>)
    requires IsReachable(g, root, s)
    ensures root in s && Closed(g, s)
  {
    ReachesSelf(g, root);
    forall u, v | u in s && Edge(g, u, v)
      ensures v in s
    {
      ReachesStep(g, root, u, v);
    }
  }

  // All identifiers a map speaks of.
  function Universe(g: Children): (s: set<Id>)
    ensures forall u :: u in g ==> u in s && g[u] <= s
  {
    g.Keys + set u, v | u in g && v in g[u] :: v
  }

  // Depth-first worklist: an identifier is expanded when it is first taken off, so cycles do no harm.
  method CollectDescendants(g: Children, root: Id) returns (result: set<Id>)
    ensures IsReachable(g, root, result)
  {
    hide Reaches, Universe;
    result := {};
    var stack := [root];
    ghost var all := Universe(g) + {root};
    ReachesSelf(g, root);
    while stack != []
      invariant root in result || root in stack
      invariant forall v :: v in result ==> v in all && Reaches(g, root, v)
      invariant forall v :: v in stack ==> v in all && Reaches(g, root, v)
      invariant forall u, v :: u in result && Edge(g, u, v) ==> v in result || v in stack
      decreases |all - result|, |stack|
    {
      var current := stack[|stack| - 1];
      ghost var before, expanded := stack, result;
      stack := stack[..|stack| - 1];
      assert before == stack + [current];
      if current !in result {
        result := result + {current};
        assert current in all - expanded && all - result == all - expanded - {current};
        if current in g {
          stack := PushAll(stack, g[current]);
          forall v | v in g[current]
            ensures Reaches(g, root, v)
          {
            ReachesStep(g, root, current, v);
          }
        }
      }
    }
    LeastClosed(g, root, result);
  }

  // The children in whatever order the hash set yields them.
  method PushAll(stack: seq<Id>, children: set<Id>) returns (r: seq<Id>)
    ensures forall v :: v in r <==> v in stack || v in children
  {
    r := stack;
    var rest := children;
    while rest != {}
      invariant rest <= children
      invariant forall v :: v in r <==> v in stack || v in children - rest
      decreases rest
    {
      var c :| c in rest;
      r := r + [c];
      rest := rest - {c};
    }
  }
}
