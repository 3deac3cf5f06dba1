/** Finite directed graphs as edge sets: reachability by paths, acyclicity and the effect of adding an edge. */
module Graphs {
  import opened Common

  type Edges = set<(Id, Id)>

  ghost predicate IsPath(edges: Edges, p: seq<Id>, a: Id, b: Id) {
    && |p| > 0
    && p[0] == a
    && p[|p| - 1] == b
    && forall i :: 0 <= i < |p| - 1 ==> (p[i], p[i + 1]) in edges
  }

  /** Reflexive-transitive reachability. */
  ghost predicate Reaches(edges: Edges, a: Id, b: Id) {
    exists p: seq<Id> :: IsPath(edges, p, a, b)
  }

  /** No edge can be followed back to its own source. */
  ghost predicate Acyclic(edges: Edges) {
    forall a, b :: (a, b) in edges ==> !Reaches(edges, b, a)
  }

  ghost predicate Closed(edges: Edges, s: set<Id>) {
    forall a, b :: (a, b) in edges && a in s ==> b in s
  }

  // ---- building and taking apart paths ----

  lemma ReachesSelf(edges: Edges, a: Id)
    ensures Reaches(edges, a, a)
  {
    assert IsPath(edges, [a], a, a);
  }

  lemma ReachesTransitive(edges: Edges, a: Id, b: Id, c: Id)
    requires Reaches(edges, a, b) && Reaches(edges, b, c)
    ensures Reaches(edges, a, c)
  {
    var p :| IsPath(edges, p, a, b);
    var q :| IsPath(edges, q, b, c);
    var r := p + q[1..];
    assert forall i :: 0 <= i < |r| - 1 ==>
             (r[i], r[i + 1]) == (if i < |p| - 1 then (p[i], p[i + 1]) else (q[i - |p| + 1], q[i - |p| + 2]));
    assert IsPath(edges, r, a, c);
  }

  lemma ReachesEdge(edges: Edges, a: Id, b: Id)
    requires (a, b) in edges
    ensures Reaches(edges, a, b)
  {
    assert IsPath(edges, [a, b], a, b);
  }

  lemma ReachesFirstStep(edges: Edges, a: Id, b: Id) returns (c: Id)
    requires Reaches(edges, a, b) && a != b
    ensures (a, c) in edges && Reaches(edges, c, b)
  {
    var p :| IsPath(edges, p, a, b);
    c := p[1];
    assert (p[0], p[1]) in edges;
    assert IsPath(edges, p[1..], c, b);
  }

  lemma ReachesMonotone(edges: Edges, more: Edges, a: Id, b: Id)
    requires edges <= more && Reaches(edges, a, b)
    ensures Reaches(more, a, b)
  {
    var p :| IsPath(edges, p, a, b);
    assert IsPath(more, p, a, b);
  }

  lemma {:induction false} PathStaysInside(edges: Edges, s: set<Id>, p: seq<Id>, a: Id, b: Id)
    requires a in s && Closed(edges, s) && IsPath(edges, p, a, b)
    ensures b in s
  {
    if |p| > 1 {
      assert (p[0], p[1]) in edges;
      assert IsPath(edges, p[1..], p[1], b);
      PathStaysInside(edges, s, p[1..], p[1], b);
    }
  }

  /** Whatever a closed set contains, it contains everything reachable from it. */
  lemma ClosedContainsReachable(edges: Edges, s: set<Id>, a: Id)
    requires a in s && Closed(edges, s)
    ensures forall b :: Reaches(edges, a, b) ==> b in s
  {
    forall b | Reaches(edges, a, b) ensures b in s {
      var p :| IsPath(edges, p, a, b);
      PathStaysInside(edges, s, p, a, b);
    }
  }

  // ---- the reachable set and its size ----

  ghost function Nodes(edges: Edges): set<Id> {
    (set e | e in edges :: e.0) + (set e | e in edges :: e.1)
  }

  /** Everything reachable from a, as a finite set. */
  ghost function Closure(edges: Edges, a: Id): (s: set<Id>)
    ensures forall x :: x in s <==> Reaches(edges, a, x)
  {
    ReachableAreNodes(edges, a);
    set x | x in Nodes(edges) + {a} && Reaches(edges, a, x)
  }

  lemma ReachableAreNodes(edges: Edges, a: Id)
    ensures forall b :: Reaches(edges, a, b) ==> b in Nodes(edges) + {a}
  {
    var s := Nodes(edges) + {a};
    forall x, y | (x, y) in edges && x in s ensures y in s {
      var e := (x, y);
      assert e in edges && e.1 == y;
    }
    ClosedContainsReachable(edges, s, a);
  }

  /** Everything reachable from some member of a list. */
  ghost function ClosureOfAll(edges: Edges, roots: seq<Id>): set<Id> {
    if roots == [] then {} else ClosureOfAll(edges, roots[..|roots| - 1]) + Closure(edges, roots[|roots| - 1])
  }

  lemma {:induction false} InClosureOfAll(edges: Edges, roots: seq<Id>, x: Id)
    ensures x in ClosureOfAll(edges, roots) <==> exists r :: r in roots && Reaches(edges, r, x)
  {
    if roots != [] {
      var front, last := roots[..|roots| - 1], roots[|roots| - 1];
      InClosureOfAll(edges, front, x);
      assert roots == front + [last];
      assert forall r :: r in roots <==> r in front || r == last;
    }
  }

  /** The closure is the least closed set that contains the roots. */
  lemma ClosureOfAllIsClosed(edges: Edges, roots: seq<Id>)
    ensures forall r :: r in roots ==> r in ClosureOfAll(edges, roots)
    ensures Closed(edges, ClosureOfAll(edges, roots))
  {
    forall r | r in roots ensures r in ClosureOfAll(edges, roots) {
      ReachesSelf(edges, r);
      InClosureOfAll(edges, roots, r);
    }
    forall a, b | (a, b) in edges && a in ClosureOfAll(edges, roots) ensures b in ClosureOfAll(edges, roots) {
      InClosureOfAll(edges, roots, a);
      var r :| r in roots && Reaches(edges, r, a);
      ReachesEdge(edges, a, b);
      ReachesTransitive(edges, r, a, b);
      InClosureOfAll(edges, roots, b);
    }
  }

  lemma ClosureOfAllIsLeast(edges: Edges, roots: seq<Id>, s: set<Id>)
    requires Closed(edges, s) && forall r :: r in roots ==> r in s
    ensures ClosureOfAll(edges, roots) <= s
  {
    forall x | x in ClosureOfAll(edges, roots) ensures x in s {
      InClosureOfAll(edges, roots, x);
      var r :| r in roots && Reaches(edges, r, x);
      ClosedContainsReachable(edges, s, r);
    }
  }

  /** How many nodes a can reach; it falls along every edge of an acyclic graph. */
  ghost function Rank(edges: Edges, a: Id): nat {
    |Closure(edges, a)|
  }

  lemma SmallerSet(s: set<Id>, t: set<Id>)
    requires s < t
    ensures |s| < |t|
  {
    var x :| x in t && x !in s;
    SubsetSize(s, t - {x});
  }

  lemma SubsetSize<T>(s: set<T>, t: set<T>)
    requires s <= t
    ensures |s| <= |t|
  {
    assert t == s + (t - s);
  }

  lemma RankFallsAlongEdge(edges: Edges, a: Id, b: Id)
    requires Acyclic(edges) && (a, b) in edges
    ensures Rank(edges, b) < Rank(edges, a)
  {
    forall x | x in Closure(edges, b) ensures x in Closure(edges, a) {
      ReachesEdge(edges, a, b);
      ReachesTransitive(edges, a, b, x);
    }
    ReachesSelf(edges, a);
    assert a in Closure(edges, a) && a !in Closure(edges, b);
    SmallerSet(Closure(edges, b), Closure(edges, a));
  }

  // ---- changing the edge set ----

  /** A path in the enlarged graph either avoids the new edge or passes through it. */
  lemma {:induction false} PathAfterAddingEdge(edges: Edges, a: Id, b: Id, p: seq<Id>, x: Id, y: Id)
    requires IsPath(edges + {(a, b)}, p, x, y)
    ensures Reaches(edges, x, y) || (Reaches(edges, x, a) && Reaches(edges, b, y))
  {
    if |p| == 1 {
      ReachesSelf(edges, x);
    } else {
      var more := edges + {(a, b)};
      var z := p[1];
      assert (p[0], p[1]) in more;
      assert IsPath(more, p[1..], z, y);
      PathAfterAddingEdge(edges, a, b, p[1..], z, y);
      if (x, z) in edges {
        ReachesEdge(edges, x, z);
        if Reaches(edges, z, y) {
          ReachesTransitive(edges, x, z, y);
        } else {
          ReachesTransitive(edges, x, z, a);
        }
      } else {
        ReachesSelf(edges, a);
      }
    }
  }

  lemma ReachesAfterAddingEdge(edges: Edges, a: Id, b: Id, x: Id, y: Id)
    ensures Reaches(edges + {(a, b)}, x, y) <==>
            (Reaches(edges, x, y) || (Reaches(edges, x, a) && Reaches(edges, b, y)))
  {
    var more := edges + {(a, b)};
    if Reaches(more, x, y) {
      var p :| IsPath(more, p, x, y);
      PathAfterAddingEdge(edges, a, b, p, x, y);
    }
    if Reaches(edges, x, y) {
      ReachesMonotone(edges, more, x, y);
    }
    if Reaches(edges, x, a) && Reaches(edges, b, y) {
      ReachesMonotone(edges, more, x, a);
      ReachesMonotone(edges, more, b, y);
      ReachesEdge(more, a, b);
      ReachesTransitive(more, x, a, b);
      ReachesTransitive(more, x, b, y);
    }
  }

  /** A new edge adds the closure of its head to every closure that already holds its tail, and nothing else. */
  lemma ClosureAfterAddingEdge(edges: Edges, a: Id, b: Id, roots: seq<Id>)
    ensures ClosureOfAll(edges + {(a, b)}, roots) ==
            ClosureOfAll(edges, roots) + if a in ClosureOfAll(edges, roots) then Closure(edges, b) else {}
  {
    InClosureOfAll(edges, roots, a);
    forall x ensures x in ClosureOfAll(edges + {(a, b)}, roots) <==>
                     x in ClosureOfAll(edges, roots) || (a in ClosureOfAll(edges, roots) && x in Closure(edges, b))
    {
      InClosureOfAll(edges + {(a, b)}, roots, x);
      InClosureOfAll(edges, roots, x);
      forall r | r in roots {
        ReachesAfterAddingEdge(edges, a, b, r, x);
      }
    }
  }

  /** A new edge keeps the graph acyclic exactly when its head cannot already reach its tail. */
  lemma AddEdgeAcyclic(edges: Edges, a: Id, b: Id)
    requires Acyclic(edges)
    ensures Acyclic(edges + {(a, b)}) <==> !Reaches(edges, b, a)
  {
    var more := edges + {(a, b)};
    if Reaches(edges, b, a) {
      ReachesMonotone(edges, more, b, a);
      assert (a, b) in more;
    } else {
      forall x, y | (x, y) in more ensures !Reaches(more, y, x) {
        ReachesAfterAddingEdge(edges, a, b, y, x);
        ReachesSelf(edges, b);
        ReachesSelf(edges, a);
        if (x, y) in edges && Reaches(edges, y, a) && Reaches(edges, b, x) {
          ReachesEdge(edges, x, y);
          ReachesTransitive(edges, b, x, y);
          ReachesTransitive(edges, b, y, a);
        }
      }
    }
  }

  lemma FewerEdgesAcyclic(edges: Edges, fewer: Edges)
    requires Acyclic(edges) && fewer <= edges
    ensures Acyclic(fewer)
  {
    forall a, b | (a, b) in fewer ensures !Reaches(fewer, b, a) {
      if Reaches(fewer, b, a) {
        ReachesMonotone(fewer, edges, b, a);
      }
    }
  }

  /** Two graphs with the same edges out of everything a reaches give a the same closure. */
  lemma SameEdgesSameClosure(e0: Edges, e1: Edges, a: Id)
    requires forall x, y :: Reaches(e0, a, x) ==> ((x, y) in e0 <==> (x, y) in e1)
    ensures forall x :: Reaches(e0, a, x) <==> Reaches(e1, a, x)
  {
    var c0, c1 := Closure(e0, a), Closure(e1, a);
    ReachesSelf(e0, a);
    ReachesSelf(e1, a);
    forall x, y | (x, y) in e1 && x in c0 ensures y in c0 {
      ReachesEdge(e0, x, y);
      ReachesTransitive(e0, a, x, y);
    }
    ClosedContainsReachable(e1, c0, a);
    var both := c0 * c1;
    forall x, y | (x, y) in e0 && x in both ensures y in both {
      ReachesEdge(e0, x, y);
      ReachesTransitive(e0, a, x, y);
      ReachesEdge(e1, x, y);
      ReachesTransitive(e1, a, x, y);
    }
    ClosedContainsReachable(e0, both, a);
  }

  // ---- breadth-first exploration, as the searches of NGAC and RBAC do it ----

  /**
   * Some of the closed set all has been visited and some is queued, possibly more than once; every start node is in one
   * of the two, and so is the head of every edge out of a visited node.
   */
  ghost predicate Exploring(edges: Edges, start: seq<Id>, all: set<Id>, visited: set<Id>, queue: seq<Id>) {
    && visited <= all
    && (forall q :: q in queue ==> q in all)
    && (forall s :: s in start ==> s in visited || s in queue)
    && forall a, b :: (a, b) in edges && a in visited ==> b in visited || b in queue
  }

  /** A queued node that was visited before can be dropped. */
  lemma ExploreSkip(edges: Edges, start: seq<Id>, all: set<Id>, visited: set<Id>, queue: seq<Id>)
    requires Exploring(edges, start, all, visited, queue) && queue != [] && queue[0] in visited
    ensures Exploring(edges, start, all, visited, queue[1..])
  {
    assert queue == [queue[0]] + queue[1..];
  }

  /** A new node is visited and its unvisited successors are queued; less of the closed set remains. */
  lemma ExploreVisit(edges: Edges, start: seq<Id>, all: set<Id>, visited: set<Id>, queue: seq<Id>, more: seq<Id>)
    requires Exploring(edges, start, all, visited, queue) && queue != [] && queue[0] !in visited
    requires Closed(edges, all)
    requires forall b :: b in more ==> (queue[0], b) in edges
    requires forall b :: (queue[0], b) in edges ==> b in visited || b == queue[0] || b in more
    ensures Exploring(edges, start, all, visited + {queue[0]}, queue[1..] + more)
    ensures |all - (visited + {queue[0]})| < |all - visited|
  {
    assert queue == [queue[0]] + queue[1..];
    SmallerSet(all - (visited + {queue[0]}), all - visited);
  }

  lemma ClosureIsClosed(edges: Edges, a: Id)
    ensures a in Closure(edges, a) && Closed(edges, Closure(edges, a))
  {
    ReachesSelf(edges, a);
    forall x, y | (x, y) in edges && x in Closure(edges, a) ensures y in Closure(edges, a) {
      ReachesEdge(edges, x, y);
      ReachesTransitive(edges, a, x, y);
    }
  }

  /** When the queue is empty exactly the closure has been visited. */
  lemma ExploredAll(edges: Edges, a: Id, visited: set<Id>)
    requires Exploring(edges, [a], Closure(edges, a), visited, [])
    ensures visited == Closure(edges, a)
  {
    assert a in [a];
    ClosedContainsReachable(edges, visited, a);
  }
}
