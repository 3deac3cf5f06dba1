/** What the edits of roles and assignments do to the permissions of subjects. */
module RbacEffects {
  import opened Common
  import opened Graphs
  import opened RbacDomain
  import opened RbacStore
  import opened RbacService

  // ---- exact effects ----

  /** The same roles with the same permissions, whatever their parents. */
  predicate SamePermissions(a: Roles, b: Roles) {
    a.Keys == b.Keys && forall r :: r in a ==> a[r].permissions == b[r].permissions
  }

  lemma SamePermissionsOf(a: Roles, b: Roles, ids: set<Id>)
    requires SamePermissions(a, b)
    ensures PermissionsOf(a, ids) == PermissionsOf(b, ids)
  {
  }

  lemma EffectiveOfOne(roles: Roles, id: Id)
    ensures EffectivePermissions(roles, [id]) == PermissionsOf(roles, Closure(ParentEdges(roles), id))
  {
    assert [id][..0] == [];
    assert ClosureOfAll(ParentEdges(roles), [id]) == Closure(ParentEdges(roles), id);
  }

  /** A new parent passes on everything it grants to exactly the holders of roles at or below the child. */
  lemma AddParentEffect(s: Store, id: Id, parent: Id, roots: seq<Id>)
    requires AddParent(s, id, parent).1.Ok?
    ensures EffectivePermissions(AddParent(s, id, parent).0.roles, roots) ==
            EffectivePermissions(s.roles, roots) +
            if id in ClosureOfAll(ParentEdges(s.roles), roots) then EffectivePermissions(s.roles, [parent]) else {}
  {
    var edges, after := ParentEdges(s.roles), AddParent(s, id, parent).0.roles;
    ClosureAfterAddingEdge(edges, id, parent, roots);
    assert ParentEdges(after) == edges + {(id, parent)} by {
      if after == s.roles {
        assert (id, parent) in edges;
      } else {
        EdgesAfterAddParent(s.roles, id, parent);
      }
    }
    SamePermissionsOf(s.roles, after, ClosureOfAll(ParentEdges(after), roots));
    EffectiveOfOne(s.roles, parent);
    PermissionsOfUnion(s.roles, ClosureOfAll(edges, roots),
                       if id in ClosureOfAll(edges, roots) then Closure(edges, parent) else {});
  }

  /** A new permission reaches exactly the holders of roles at or below the role it was added to. */
  lemma AddPermissionEffect(s: Store, id: Id, permission: string, roots: seq<Id>)
    requires AddPermission(s, id, permission).1.Ok?
    ensures EffectivePermissions(AddPermission(s, id, permission).0.roles, roots) ==
            EffectivePermissions(s.roles, roots) +
            if id in ClosureOfAll(ParentEdges(s.roles), roots) then {permission} else {}
  {
    var after := AddPermission(s, id, permission).0.roles;
    assert ParentEdges(after) == ParentEdges(s.roles);
    PermissionAdded(s.roles, after, id, permission, ClosureOfAll(ParentEdges(s.roles), roots));
  }

  lemma PermissionAdded(roles: Roles, after: Roles, id: Id, permission: string, ids: set<Id>)
    requires id in roles && roles.Keys == after.Keys
    requires forall r :: r in roles && r != id ==> after[r] == roles[r]
    requires forall p :: p in after[id].permissions <==> p in roles[id].permissions || p == permission
    ensures PermissionsOf(after, ids) == PermissionsOf(roles, ids) + if id in ids then {permission} else {}
  {
    forall p | p in PermissionsOf(roles, ids) ensures p in PermissionsOf(after, ids) {
      var x :| x in ids && x in roles && p in roles[x].permissions;
      assert p in after[x].permissions;
    }
    forall p | p in PermissionsOf(after, ids) ensures p in PermissionsOf(roles, ids) || (id in ids && p == permission) {
      var x :| x in ids && x in after && p in after[x].permissions;
      assert x != id ==> p in roles[x].permissions;
    }
    if id in ids {
      assert permission in after[id].permissions;
    }
  }

  /** Whether the assignment reaches the subject, directly or through one of its groups. */
  predicate Reached(env: Env, subjectId: Id, a: RoleAssignment) {
    match a.subjectType
    case UserSubject => a.subjectId == subjectId
    case GroupSubject => a.subjectId in env.groupsOf(subjectId)
  }

  lemma RootsAreReached(env: Env, s: Store, subjectId: Id, r: Id)
    ensures r in RootRoles(env, s, subjectId) <==>
            exists i :: i in s.assignments && s.assignments[i].roleId == r && Reached(env, subjectId, s.assignments[i])
  {
    if r in RootRoles(env, s, subjectId) && r !in RolesHeldBy(s, subjectId, UserSubject) {
      var g :| g in env.groupsOf(subjectId) && r in RolesHeldBy(s, g, GroupSubject);
    }
    if i :| i in s.assignments && s.assignments[i].roleId == r && Reached(env, subjectId, s.assignments[i]) {
      if s.assignments[i].subjectType == GroupSubject {
        assert r in RolesHeldBy(s, s.assignments[i].subjectId, GroupSubject);
      }
    }
  }

  lemma RootsAfterAssignment(env: Env, s: Store, newId: Id, a: RoleAssignment, subjectId: Id)
    requires newId !in s.assignments
    ensures RootRoles(env, s.(assignments := s.assignments[newId := a]), subjectId) ==
            RootRoles(env, s, subjectId) + if Reached(env, subjectId, a) then {a.roleId} else {}
  {
    var s' := s.(assignments := s.assignments[newId := a]);
    assert s'.assignments[newId] == a;
    forall r ensures r in RootRoles(env, s', subjectId) <==>
                     r in RootRoles(env, s, subjectId) || (Reached(env, subjectId, a) && r == a.roleId)
    {
      RootsAreReached(env, s, subjectId, r);
      RootsAreReached(env, s', subjectId, r);
      if i :| i in s.assignments && s.assignments[i].roleId == r && Reached(env, subjectId, s.assignments[i]) {
        assert s'.assignments[i] == s.assignments[i];
      }
    }
  }

  /** Assigning a role gives exactly its effective permissions to exactly the subjects it reaches. */
  lemma AssignRoleEffect(env: Env, s: Store, newId: Id, roleId: Id, kind: Option<SubjectType>, target: Option<string>,
                         identifier: string, subjectId: Id)
    requires newId !in s.assignments && AssignRole(env, s, newId, roleId, kind, target, identifier).1.Ok?
    ensures var (s', r) := AssignRole(env, s, newId, roleId, kind, target, identifier);
      SubjectPermissions(env, s', subjectId) ==
      SubjectPermissions(env, s, subjectId) +
      if Reached(env, subjectId, r.value) then EffectivePermissions(s.roles, [roleId]) else {}
  {
    var (s', r) := AssignRole(env, s, newId, roleId, kind, target, identifier);
    RootsAfterAssignment(env, s, newId, r.value, subjectId);
    EffectiveOfOne(s.roles, roleId);
    PermissionsOfMoreRoots(env, s, s', subjectId, roleId, Reached(env, subjectId, r.value));
  }

  lemma PermissionsOfMoreRoots(env: Env, s: Store, s': Store, subjectId: Id, roleId: Id, more: bool)
    requires s'.roles == s.roles
    requires RootRoles(env, s', subjectId) == RootRoles(env, s, subjectId) + if more then {roleId} else {}
    ensures SubjectPermissions(env, s', subjectId) ==
            SubjectPermissions(env, s, subjectId) +
            if more then PermissionsOf(s.roles, Closure(ParentEdges(s.roles), roleId)) else {}
  {
  }

  // ---- runs that only take away, and runs that only add ----

  predicate RolesWithin(a: Roles, b: Roles) {
    forall r :: r in a ==>
      && r in b
      && (forall p :: p in a[r].permissions ==> p in b[r].permissions)
      && forall p :: p in a[r].parents ==> p in b[r].parents
  }

  predicate AssignmentsWithin(a: map<Id, RoleAssignment>, b: map<Id, RoleAssignment>) {
    forall i :: i in a ==> i in b && b[i] == a[i]
  }

  predicate Within(a: Store, b: Store) {
    RolesWithin(a.roles, b.roles) && AssignmentsWithin(a.assignments, b.assignments)
  }

  lemma WithinHoldsLess(env: Env, a: Store, b: Store, subjectId: Id)
    requires Within(a, b)
    ensures SubjectPermissions(env, a, subjectId) <= SubjectPermissions(env, b, subjectId)
  {
    var ea, eb := ParentEdges(a.roles), ParentEdges(b.roles);
    WithinHasFewerEdges(a.roles, b.roles);
    forall p | p in SubjectPermissions(env, a, subjectId) ensures p in SubjectPermissions(env, b, subjectId) {
      var r, x :| r in RootRoles(env, a, subjectId) && x in Closure(ea, r) && x in a.roles &&
          p in a.roles[x].permissions;
      WithinHasFewerRoots(env, a, b, subjectId, r);
      ReachesMonotone(ea, eb, r, x);
      assert x in Closure(eb, r) && p in b.roles[x].permissions;
    }
  }

  lemma WithinHasFewerEdges(a: Roles, b: Roles)
    requires RolesWithin(a, b)
    ensures ParentEdges(a) <= ParentEdges(b)
  {
  }

  lemma WithinHasFewerRoots(env: Env, a: Store, b: Store, subjectId: Id, r: Id)
    requires AssignmentsWithin(a.assignments, b.assignments) && r in RootRoles(env, a, subjectId)
    ensures r in RootRoles(env, b, subjectId)
  {
    RootsAreReached(env, a, subjectId, r);
    RootsAreReached(env, b, subjectId, r);
  }

  predicate TakesAway(c: Call) {
    c.CallRemovePermission? || c.CallRemoveParent? || c.CallDeleteRole? || c.CallDeleteAssignment? ||
      c.CallDeleteBySubject?
  }

  predicate Adds(c: Call) {
    c.CallCreateRole? || c.CallAddPermission? || c.CallAddParent? || c.CallAssignRole?
  }

  lemma TakingAwayShrinks(env: Env, s: Store, c: Call)
    requires TakesAway(c)
    ensures Within(Next(env, s, c), s)
  {
  }

  lemma AddingGrows(env: Env, s: Store, c: Call)
    requires Adds(c) && FreshId(s, c)
    ensures Within(s, Next(env, s, c))
  {
  }

  /** However roles, parents, permissions and assignments are removed, nobody ever gains a permission. */
  lemma {:induction false} TakingAwayGainsNothing(env: Env, s: Store, calls: seq<Call>, subjectId: Id)
    requires forall c :: c in calls ==> TakesAway(c)
    ensures SubjectPermissions(env, Run(env, s, calls), subjectId) <= SubjectPermissions(env, s, subjectId)
    decreases |calls|
  {
    if calls != [] {
      TakingAwayShrinks(env, s, calls[0]);
      WithinHoldsLess(env, Next(env, s, calls[0]), s, subjectId);
      TakingAwayGainsNothing(env, Next(env, s, calls[0]), calls[1..], subjectId);
    }
  }

  /** However roles, parents, permissions and assignments are added, nobody ever loses a permission. */
  lemma {:induction false} AddingLosesNothing(env: Env, s: Store, calls: seq<Call>, subjectId: Id)
    requires FreshIds(env, s, calls) && forall c :: c in calls ==> Adds(c)
    ensures SubjectPermissions(env, s, subjectId) <= SubjectPermissions(env, Run(env, s, calls), subjectId)
    decreases |calls|
  {
    if calls != [] {
      AddingGrows(env, s, calls[0]);
      WithinHoldsLess(env, s, Next(env, s, calls[0]), subjectId);
      AddingLosesNothing(env, Next(env, s, calls[0]), calls[1..], subjectId);
    }
  }

  /** Deleting a role that none of the roots reaches changes nothing for their holders. */
  lemma DeletingUnreachedRole(s: Store, id: Id, roots: seq<Id>)
    requires id in s.roles && id !in ClosureOfAll(ParentEdges(s.roles), roots)
    ensures EffectivePermissions(DeleteRole(s, id).0.roles, roots) == EffectivePermissions(s.roles, roots)
  {
    var after := DeleteRole(s, id).0.roles;
    var edges, fewer := ParentEdges(s.roles), ParentEdges(after);
    var all := ClosureOfAll(edges, roots);
    ClosureOfAllIsClosed(edges, roots);
    ClosureOfAllIsClosed(fewer, roots);
    var kept := ClosureOfAll(fewer, roots);
    forall a, b | (a, b) in edges && a in all && a in kept ensures b in kept {
      assert b in all && b != id && a != id;
      assert (a, b) in fewer;
    }
    ClosureOfAllIsLeast(edges, roots, all * kept);
    ClosureOfAllIsLeast(fewer, roots, all);
    assert all == kept;
    PermissionsOutside(s.roles, after, id, all);
  }

  lemma PermissionsOutside(roles: Roles, after: Roles, id: Id, ids: set<Id>)
    requires id !in ids
    requires forall r :: r in after <==> r in roles && r != id
    requires forall r :: r in after ==> after[r].permissions == roles[r].permissions
    ensures PermissionsOf(after, ids) == PermissionsOf(roles, ids)
  {
  }

  // ---- what remains after a removal ----

  /** The permissions that the roots reach along these edges only. */
  ghost function PermissionsAlong(roles: Roles, edges: Edges, roots: seq<Id>): set<string> {
    PermissionsOf(roles, ClosureOfAll(edges, roots))
  }

  lemma EdgesAfterRemoveParent(s: Store, id: Id, parent: Id)
    requires id in s.roles
    ensures ParentEdges(RemoveParent(s, id, parent).0.roles) == ParentEdges(s.roles) - {(id, parent)}
  {
    var after := RemoveParent(s, id, parent).0.roles;
    forall r, p ensures (r, p) in ParentEdges(after) <==> (r, p) in ParentEdges(s.roles) - {(id, parent)} {
      if r == id {
        assert after[id].parents == Without(s.roles[id].parents, parent);
      }
    }
  }

  /** After remove_parent exactly the permissions remain that are reachable without that one edge. */
  lemma RemoveParentEffect(s: Store, id: Id, parent: Id, roots: seq<Id>)
    requires RemoveParent(s, id, parent).1.Ok?
    ensures EffectivePermissions(RemoveParent(s, id, parent).0.roles, roots) ==
            PermissionsAlong(s.roles, ParentEdges(s.roles) - {(id, parent)}, roots)
  {
    var after := RemoveParent(s, id, parent).0.roles;
    EdgesAfterRemoveParent(s, id, parent);
    SamePermissionsOf(s.roles, after, ClosureOfAll(ParentEdges(after), roots));
  }

  /** The edges that do not touch the role. */
  function EdgesWithout(edges: Edges, id: Id): Edges {
    set e | e in edges && e.0 != id && e.1 != id
  }

  lemma EdgesAfterDeleteRole(s: Store, id: Id)
    requires id in s.roles
    ensures ParentEdges(DeleteRole(s, id).0.roles) == EdgesWithout(ParentEdges(s.roles), id)
  {
    var after := DeleteRole(s, id).0.roles;
    forall r, p ensures (r, p) in ParentEdges(after) <==> (r, p) in EdgesWithout(ParentEdges(s.roles), id) {
      if r in after {
        assert after[r].parents == Without(s.roles[r].parents, id);
      }
    }
  }

  /** After delete_role exactly what the other roles grant remains, as far as reachable without passing through it. */
  lemma DeleteRoleEffect(s: Store, id: Id, roots: seq<Id>)
    requires DeleteRole(s, id).1.Ok?
    ensures EffectivePermissions(DeleteRole(s, id).0.roles, roots) ==
            PermissionsOf(s.roles, ClosureOfAll(EdgesWithout(ParentEdges(s.roles), id), roots) - {id})
  {
    var after := DeleteRole(s, id).0.roles;
    var reached := ClosureOfAll(EdgesWithout(ParentEdges(s.roles), id), roots);
    EdgesAfterDeleteRole(s, id);
    PermissionsOutside(s.roles, after, id, reached - {id});
    assert PermissionsOf(after, reached) == PermissionsOf(after, reached - {id});
  }

  /** After remove_permission exactly what some other reachable role grants, or the role itself beside it, remains. */
  lemma RemovePermissionEffect(s: Store, id: Id, permission: string, roots: seq<Id>)
    requires RemovePermission(s, id, permission).1.Ok?
    ensures var reached := ClosureOfAll(ParentEdges(s.roles), roots);
      EffectivePermissions(RemovePermission(s, id, permission).0.roles, roots) ==
      PermissionsOf(s.roles, reached - {id}) + (PermissionsOf(s.roles, reached * {id}) - {permission})
  {
    var after := RemovePermission(s, id, permission).0.roles;
    var reached := ClosureOfAll(ParentEdges(s.roles), roots);
    assert ParentEdges(after) == ParentEdges(s.roles);
    PermissionTaken(s.roles, after, id, permission, reached);
  }

  lemma PermissionTaken(roles: Roles, after: Roles, id: Id, permission: string, ids: set<Id>)
    requires id in roles && roles.Keys == after.Keys
    requires forall r :: r in roles && r != id ==> after[r] == roles[r]
    requires forall p :: p in after[id].permissions <==> p in roles[id].permissions && p != permission
    ensures PermissionsOf(after, ids) ==
            PermissionsOf(roles, ids - {id}) + (PermissionsOf(roles, ids * {id}) - {permission})
  {
    forall p | p in PermissionsOf(after, ids)
      ensures p in PermissionsOf(roles, ids - {id}) + (PermissionsOf(roles, ids * {id}) - {permission})
    {
      var x :| x in ids && x in after && p in after[x].permissions;
      assert p in roles[x].permissions && (x == id ==> x in ids * {id}) && (x != id ==> x in ids - {id});
    }
    forall p | p in PermissionsOf(roles, ids - {id}) ensures p in PermissionsOf(after, ids) {
      var x :| x in ids - {id} && x in roles && p in roles[x].permissions;
      assert p in after[x].permissions;
    }
    forall p | p in PermissionsOf(roles, ids * {id}) && p != permission ensures p in PermissionsOf(after, ids) {
      assert id in ids && p in after[id].permissions;
    }
  }
}
