/** Pure permission resolution over the role hierarchy: two breadth-first searches and one recursive search. */
module RbacDomain {
  import opened Common
  import opened Graphs
  import opened RbacPermission

  datatype Role = Role(name: string, description: Option<string>, permissions: seq<string>, parents: seq<Id>)

  type Roles = map<Id, Role>

  /** Edges from a role to the roles it inherits from. */
  function ParentEdges(roles: Roles): Edges {
    set r, p | r in roles && p in roles[r].parents :: (r, p)
  }

  /** The permissions of the existing roles among ids. */
  function PermissionsOf(roles: Roles, ids: set<Id>): set<string> {
    set x, p | x in ids && x in roles && p in roles[x].permissions :: p
  }

  /** Everything a holder of the roots may do: the permissions of all existing roles reachable from them. */
  ghost function EffectivePermissions(roles: Roles, roots: seq<Id>): set<string> {
    PermissionsOf(roles, ClosureOfAll(ParentEdges(roles), roots))
  }

  /** Breadth-first search; cycles, duplicate queue entries and missing roles are all allowed. */
  method ResolveEffectivePermissions(roots: seq<Id>, roles: Roles) returns (result: set<string>)
    ensures result == EffectivePermissions(roles, roots)
  {
    ghost var edges := ParentEdges(roles);
    ghost var all := ClosureOfAll(edges, roots);
    ClosureOfAllIsClosed(edges, roots);
    var visited: set<Id> := {};
    result := {};
    var queue := roots;
    while queue != []
      invariant Exploring(edges, roots, all, visited, queue)
      invariant result == PermissionsOf(roles, visited)
      decreases |all - visited|, |queue|
    {
      var roleId := queue[0];
      if roleId in visited {
        ExploreSkip(edges, roots, all, visited, queue);
        queue := queue[1..];
        continue;
      }
      PermissionsOfOneMore(roles, visited, roleId);
      var parents := if roleId in roles then Unvisited(roles[roleId].parents, visited + {roleId}) else [];
      ExploreVisit(edges, roots, all, visited, queue, parents);
      queue := queue[1..];
      visited := visited + {roleId};
      if roleId !in roles {
        assert queue + [] == queue;
        continue;
      }
      result := result + set p | p in roles[roleId].permissions;
      queue := queue + parents;
    }
    ClosureOfAllIsLeast(edges, roots, visited);
    assert visited == all;
  }

  lemma PermissionsOfOneMore(roles: Roles, ids: set<Id>, id: Id)
    ensures PermissionsOf(roles, ids + {id}) ==
            PermissionsOf(roles, ids) + if id in roles then set p | p in roles[id].permissions else {}
  {
  }

  function Unvisited(ids: seq<Id>, visited: set<Id>): (r: seq<Id>)
    ensures forall x :: x in r <==> x in ids && x !in visited
  {
    if ids == [] then []
    else (if ids[0] in visited then [] else [ids[0]]) + Unvisited(ids[1..], visited)
  }

  /** True exactly when the child is reachable from the proposed parent. */
  method WouldCreateCycle(roleId: Id, newParentId: Id, roles: Roles) returns (cycle: bool)
    ensures cycle <==> Reaches(ParentEdges(roles), newParentId, roleId)
  {
    ghost var edges := ParentEdges(roles);
    ghost var all := Closure(edges, newParentId);
    ClosureIsClosed(edges, newParentId);
    var visited: set<Id> := {};
    var queue := [newParentId];
    while queue != []
      invariant Exploring(edges, [newParentId], all, visited, queue)
      invariant roleId !in visited
      decreases |all - visited|, |queue|
    {
      var current := queue[0];
      if current == roleId {
        return true;
      }
      if current in visited {
        ExploreSkip(edges, [newParentId], all, visited, queue);
        queue := queue[1..];
        continue;
      }
      var parents := if current in roles then roles[current].parents else [];
      ExploreVisit(edges, [newParentId], all, visited, queue, parents);
      visited := visited + {current};
      queue := queue[1..] + parents;
    }
    ExploredAll(edges, newParentId, visited);
    return false;
  }

  /** The any-expression of the domain service; every stored permission must parse. */
  method Check(effective: set<string>, required: string) returns (r: Result<bool>)
    requires forall p :: p in effective ==> FromString(p).Ok?
    ensures r.Err? <==> FromString(required).Err?
    ensures forall t, a :: Token(t) && Token(a) && required == t + ":" + a ==>
              r == Ok(exists p :: p in effective && p in Granting(t, a))
  {
    var req := FromString(required);
    if req.Err? {
      ParseAcceptsPattern(required);
      return Err(req.error);
    }
    forall t, a, p | Token(t) && Token(a) && required == t + ":" + a && p in effective
      ensures Matches(FromString(p).value, req.value) <==> p in Granting(t, a)
    {
      MatchesByText(p, t, a);
    }
    return Ok(exists p :: p in effective && Matches(FromString(p).value, req.value));
  }

  // ---- the search of has_role_explained: no visited set, so it needs an acyclic hierarchy ----

  function ParentCount(roles: Roles, id: Id): nat {
    if id in roles then |roles[id].parents| else 0
  }

  function Find(roles: Roles, current: Id, target: Id, path: seq<Id>): Option<seq<Id>>
    requires Acyclic(ParentEdges(roles))
    decreases Rank(ParentEdges(roles), current), ParentCount(roles, current) + 1
  {
    if current == target then Some(path + [current])
    else if current !in roles then None
    else FindAmongParents(roles, current, 0, target, path + [current])
  }

  /** The for loop of the search, from the k-th parent on. */
  function FindAmongParents(roles: Roles, current: Id, k: nat, target: Id, path: seq<Id>): Option<seq<Id>>
    requires Acyclic(ParentEdges(roles)) && current in roles && k <= |roles[current].parents|
    decreases Rank(ParentEdges(roles), current), |roles[current].parents| - k
  {
    if k == |roles[current].parents| then None
    else
      var parent := roles[current].parents[k];
      RankFallsAlongEdge(ParentEdges(roles), current, parent);
      var found := Find(roles, parent, target, path);
      if found.Some? then found else FindAmongParents(roles, current, k + 1, target, path)
  }

  /** p continues the path walked so far by a genuine parent chain from current to target. */
  ghost predicate Extends(roles: Roles, path: seq<Id>, current: Id, target: Id, p: seq<Id>) {
    |path| <= |p| && p[..|path|] == path && IsPath(ParentEdges(roles), p[|path|..], current, target)
  }

  lemma {:induction false} FindIsRight(roles: Roles, current: Id, target: Id, path: seq<Id>)
    requires Acyclic(ParentEdges(roles))
    ensures Find(roles, current, target, path).Some? <==> Reaches(ParentEdges(roles), current, target)
    ensures Find(roles, current, target, path).Some? ==>
              Extends(roles, path, current, target, Find(roles, current, target, path).value)
    decreases Rank(ParentEdges(roles), current), ParentCount(roles, current) + 1
  {
    var edges := ParentEdges(roles);
    if current == target {
      ReachesSelf(edges, current);
      assert (path + [current])[|path|..] == [current];
    } else if current !in roles {
      if Reaches(edges, current, target) {
        var next := ReachesFirstStep(edges, current, target);
      }
    } else {
      FindAmongParentsIsRight(roles, current, 0, target, path);
      if Reaches(edges, current, target) {
        var next := ReachesFirstStep(edges, current, target);
        var j :| 0 <= j < |roles[current].parents| && roles[current].parents[j] == next;
      }
    }
  }

  /** A chain from a parent is a chain from the role below it. */
  lemma ExtendsFromBelow(roles: Roles, path: seq<Id>, current: Id, parent: Id, target: Id, p: seq<Id>)
    requires (current, parent) in ParentEdges(roles) && Extends(roles, path + [current], parent, target, p)
    ensures Extends(roles, path, current, target, p) && Reaches(ParentEdges(roles), current, target)
  {
    assert p[..|path|] == p[..|path| + 1][..|path|] == path;
    assert p[|path|] == p[..|path| + 1][|path|] == current;
    assert p[|path|..] == [current] + p[|path| + 1..];
    assert IsPath(ParentEdges(roles), p[|path|..], current, target);
  }

  lemma {:induction false} FindAmongParentsIsRight(roles: Roles, current: Id, k: nat, target: Id, path: seq<Id>)
    requires Acyclic(ParentEdges(roles)) && current in roles && k <= |roles[current].parents|
    ensures var r := FindAmongParents(roles, current, k, target, path + [current]);
      && (r.Some? <==>
          exists j :: k <= j < |roles[current].parents| &&
                      Reaches(ParentEdges(roles), roles[current].parents[j], target))
      && (r.Some? ==> Extends(roles, path, current, target, r.value) && Reaches(ParentEdges(roles), current, target))
    decreases Rank(ParentEdges(roles), current), |roles[current].parents| - k
  {
    var edges := ParentEdges(roles);
    if k < |roles[current].parents| {
      var parent := roles[current].parents[k];
      RankFallsAlongEdge(edges, current, parent);
      FindIsRight(roles, parent, target, path + [current]);
      var found := Find(roles, parent, target, path + [current]);
      if found.Some? {
        ExtendsFromBelow(roles, path, current, parent, target, found.value);
      } else {
        FindAmongParentsIsRight(roles, current, k + 1, target, path);
      }
    }
  }

  // ---- the search of get_effective_permissions_explained: a visited set shared by all roots ----

  /** All parents of the listed roles, in order. */
  function ParentsOfAll(roles: Roles, ids: seq<Id>): seq<Id> {
    if ids == [] then []
    else
      var last := ids[|ids| - 1];
      ParentsOfAll(roles, ids[..|ids| - 1]) + if last in roles then roles[last].parents else []
  }

  /** Everything at least one parent step above a root. */
  ghost function Inherited(roles: Roles, roots: seq<Id>): set<Id> {
    ClosureOfAll(ParentEdges(roles), ParentsOfAll(roles, roots))
  }

  /**
   * Adds the ancestors of one role to the shared set, recursing only into those that are new to it.
   * The set limit bounds what may be added: any closed set that holds the parents of the role will do.
   */
  method AddAncestors(roles: Roles, roleId: Id, known: set<Id>, ghost limit: set<Id>) returns (inherited: set<Id>)
    requires known <= limit && Closed(ParentEdges(roles), limit)
    requires forall b :: (roleId, b) in ParentEdges(roles) ==> b in limit
    ensures known <= inherited <= limit
    ensures forall b :: (roleId, b) in ParentEdges(roles) ==> b in inherited
    ensures forall a, b :: (a, b) in ParentEdges(roles) && a in inherited - known ==> b in inherited
    decreases |limit - known|
  {
    inherited := known;
    if roleId !in roles {
      return;
    }
    ghost var edges := ParentEdges(roles);
    var parents := roles[roleId].parents;
    for k := 0 to |parents|
      invariant known <= inherited <= limit
      invariant forall j :: 0 <= j < k ==> parents[j] in inherited
      invariant forall a, b :: (a, b) in edges && a in inherited - known ==> b in inherited
    {
      var parent := parents[k];
      assert (roleId, parent) in edges;
      if parent !in inherited {
        SmallerSet(limit - (inherited + {parent}), limit - known);
        inherited := AddAncestors(roles, parent, inherited + {parent}, limit);
      }
    }
  }

  method InheritedRoles(roles: Roles, rootIds: seq<Id>) returns (inherited: set<Id>)
    ensures inherited == Inherited(roles, rootIds)
  {
    ghost var edges := ParentEdges(roles);
    ghost var limit := Inherited(roles, rootIds);
    ClosureOfAllIsClosed(edges, ParentsOfAll(roles, rootIds));
    ParentsOfAllMembers(roles, rootIds);
    inherited := {};
    for k := 0 to |rootIds|
      invariant inherited <= limit
      invariant Closed(edges, inherited)
      invariant forall j, b :: 0 <= j < k && (rootIds[j], b) in edges ==> b in inherited
    {
      inherited := AddAncestors(roles, rootIds[k], inherited, limit);
    }
    ClosureOfAllIsLeast(edges, ParentsOfAll(roles, rootIds), inherited);
  }

  lemma {:induction false} ParentsOfAllMembers(roles: Roles, ids: seq<Id>)
    ensures forall p :: p in ParentsOfAll(roles, ids) <==>
            exists j :: 0 <= j < |ids| && (ids[j], p) in ParentEdges(roles)
  {
    if ids != [] {
      var front := ids[..|ids| - 1];
      ParentsOfAllMembers(roles, front);
      forall p | p in ParentsOfAll(roles, front)
        ensures exists j :: 0 <= j < |ids| && (ids[j], p) in ParentEdges(roles) {
        var j :| 0 <= j < |front| && (front[j], p) in ParentEdges(roles);
        assert ids[j] == front[j];
      }
      forall j, p | 0 <= j < |front| && (ids[j], p) in ParentEdges(roles) ensures p in ParentsOfAll(roles, front) {
        assert ids[j] == front[j];
      }
    }
  }

  /** The roots together with everything above them are the closure of the roots. */
  lemma RootsAndInherited(roles: Roles, roots: seq<Id>)
    ensures (set r | r in roots) + Inherited(roles, roots) == ClosureOfAll(ParentEdges(roles), roots)
  {
    var edges := ParentEdges(roles);
    var above := ParentsOfAll(roles, roots);
    var both := (set r | r in roots) + Inherited(roles, roots);
    ClosureOfAllIsClosed(edges, roots);
    ClosureOfAllIsClosed(edges, above);
    ParentsOfAllMembers(roles, roots);
    forall a, b | (a, b) in edges && a in both ensures b in both {
      if a in roots {
        var j :| 0 <= j < |roots| && roots[j] == a;
        assert b in above;
      }
    }
    forall p | p in above ensures p in ClosureOfAll(edges, roots) {
      var j :| 0 <= j < |roots| && (roots[j], p) in edges;
    }
    ClosureOfAllIsLeast(edges, roots, both);
    ClosureOfAllIsLeast(edges, above, ClosureOfAll(edges, roots));
  }

  /** Own and inherited permissions together are what the breadth-first search finds, for every role map. */
  lemma OwnAndInheritedAreEffective(roles: Roles, roots: seq<Id>)
    ensures PermissionsOf(roles, set r | r in roots) + PermissionsOf(roles, Inherited(roles, roots)) ==
            EffectivePermissions(roles, roots)
  {
    RootsAndInherited(roles, roots);
    PermissionsOfUnion(roles, (set r | r in roots), Inherited(roles, roots));
  }

  lemma PermissionsOfUnion(roles: Roles, a: set<Id>, b: set<Id>)
    ensures PermissionsOf(roles, a) + PermissionsOf(roles, b) == PermissionsOf(roles, a + b)
  {
  }
}
