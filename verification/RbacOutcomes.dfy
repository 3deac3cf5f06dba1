/** When each RBAC call is accepted and what it stores, and what a subject is given by each of its assignments. */
module RbacOutcomes {
  import opened Common
  import opened Graphs
  import opened RbacDomain
  import opened RbacStore
  import opened RbacService
  import opened RbacEffects
  import P = RbacPermission

  // ---- permissions, assignment by assignment ----

  /** What the assignments that reach the subject give it: the permissions of each role and of all roles above it. */
  ghost function Given(env: Env, roles: Roles, assignments: map<Id, RoleAssignment>, subjectId: Id): set<string> {
    set i, x, p | i in assignments && Reached(env, subjectId, assignments[i]) &&
                  x in Closure(ParentEdges(roles), assignments[i].roleId) && x in roles && p in roles[x].permissions
      :: p
  }

  /** Everything a subject may do is given to it by some assignment, and the other way around. */
  lemma PermissionsAreGiven(env: Env, s: Store, subjectId: Id)
    ensures SubjectPermissions(env, s, subjectId) == Given(env, s.roles, s.assignments, subjectId)
  {
    var edges := ParentEdges(s.roles);
    forall p | p in SubjectPermissions(env, s, subjectId) ensures p in Given(env, s.roles, s.assignments, subjectId) {
      var r, x :| r in RootRoles(env, s, subjectId) && x in Closure(edges, r) && x in s.roles &&
          p in s.roles[x].permissions;
      RootsAreReached(env, s, subjectId, r);
    }
    forall p | p in Given(env, s.roles, s.assignments, subjectId) ensures p in SubjectPermissions(env, s, subjectId) {
      var i, x :| i in s.assignments && Reached(env, subjectId, s.assignments[i]) &&
          x in Closure(edges, s.assignments[i].roleId) && x in s.roles && p in s.roles[x].permissions;
      RootsAreReached(env, s, subjectId, s.assignments[i].roleId);
    }
  }

  lemma GivenByOneMore(env: Env, roles: Roles, assignments: map<Id, RoleAssignment>, id: Id, a: RoleAssignment,
                       subjectId: Id)
    requires id !in assignments
    ensures Given(env, roles, assignments[id := a], subjectId) ==
            Given(env, roles, assignments, subjectId) +
            if Reached(env, subjectId, a) then PermissionsOf(roles, Closure(ParentEdges(roles), a.roleId)) else {}
  {
    var more := assignments[id := a];
    var edges := ParentEdges(roles);
    forall p | p in Given(env, roles, assignments, subjectId) ensures p in Given(env, roles, more, subjectId) {
      var i, x :| i in assignments && Reached(env, subjectId, assignments[i]) &&
          x in Closure(edges, assignments[i].roleId) && x in roles && p in roles[x].permissions;
      assert more[i] == assignments[i];
    }
    forall p | Reached(env, subjectId, a) && p in PermissionsOf(roles, Closure(edges, a.roleId))
      ensures p in Given(env, roles, more, subjectId)
    {
      assert more[id] == a;
    }
  }

  /** Deleting an assignment leaves what the others give, and deleting by subject what those of other subjects give. */
  lemma DeletedAssignmentsEffect(env: Env, s: Store, id: Id, gone: Id, subjectId: Id)
    ensures SubjectPermissions(env, DeleteAssignment(s, id), subjectId) ==
            Given(env, s.roles, s.assignments - {id}, subjectId)
    ensures SubjectPermissions(env, DeleteBySubject(s, gone), subjectId) ==
            Given(env, s.roles, map i | i in s.assignments && s.assignments[i].subjectId != gone :: s.assignments[i],
                  subjectId)
  {
    PermissionsAreGiven(env, DeleteAssignment(s, id), subjectId);
    PermissionsAreGiven(env, DeleteBySubject(s, gone), subjectId);
  }

  /** Replacing an assignment takes back what it alone gave, and gives the new role's permissions to the new subject. */
  lemma UpdateAssignmentEffect(env: Env, s: Store, id: Id, roleId: Id, kind: Option<SubjectType>,
                               target: Option<string>, identifier: string, subjectId: Id)
    requires UpdateAssignment(env, s, id, roleId, kind, target, identifier).1.Ok?
    ensures var (s', r) := UpdateAssignment(env, s, id, roleId, kind, target, identifier);
      SubjectPermissions(env, s', subjectId) ==
      Given(env, s.roles, s.assignments - {id}, subjectId) +
      if Reached(env, subjectId, r.value) then EffectivePermissions(s.roles, [roleId]) else {}
  {
    var (s', r) := UpdateAssignment(env, s, id, roleId, kind, target, identifier);
    var others := s.assignments - {id};
    assert s'.assignments == others[id := r.value];
    PermissionsAreGiven(env, s', subjectId);
    GivenByOneMore(env, s.roles, others, id, r.value, subjectId);
    EffectiveOfOne(s.roles, roleId);
  }

  // ---- roles ----

  /** Renaming or describing a role stores just that, under a name no other role has, and changes no permissions. */
  lemma UpdateRoleOutcome(env: Env, s: Store, id: Id, name: Option<string>, description: Option<string>,
                          descriptionSet: bool, subjectId: Id)
    ensures var (s', r) := UpdateRole(s, id, name, description, descriptionSet);
      && (r.Ok? <==> id in s.roles &&
                     (name.None? || name.value == "" || name.value == s.roles[id].name ||
                      forall q :: q in s.roles ==> s.roles[q].name != name.value))
      && (r.Err? ==> s' == s)
      && (r.Ok? ==>
            && s' == s.(roles := s.roles[id := r.value])
            && r.value.name == (if name.Some? && name.value != "" then name.value else s.roles[id].name)
            && r.value.description ==
               (if descriptionSet || description.Some? then description else s.roles[id].description)
            && r.value.permissions == s.roles[id].permissions && r.value.parents == s.roles[id].parents)
      && SubjectPermissions(env, s', subjectId) == SubjectPermissions(env, s, subjectId)
  {
    var (s', r) := UpdateRole(s, id, name, description, descriptionSet);
    if r.Ok? {
      assert ParentEdges(s'.roles) == ParentEdges(s.roles);
      SamePermissionsForAll(env, s, s', subjectId);
    }
  }

  lemma SamePermissionsForAll(env: Env, s: Store, s': Store, subjectId: Id)
    requires SamePermissions(s.roles, s'.roles) && ParentEdges(s.roles) == ParentEdges(s'.roles)
    requires s'.assignments == s.assignments
    ensures SubjectPermissions(env, s', subjectId) == SubjectPermissions(env, s, subjectId)
  {
    SameRoots(env, s, s', subjectId);
  }

  lemma SameRoots(env: Env, s: Store, s': Store, subjectId: Id)
    requires s'.assignments == s.assignments
    ensures RootRoles(env, s', subjectId) == RootRoles(env, s, subjectId)
  {
    forall r ensures r in RootRoles(env, s', subjectId) <==> r in RootRoles(env, s, subjectId) {
      RootsAreReached(env, s, subjectId, r);
      RootsAreReached(env, s', subjectId, r);
    }
  }

  /**
   * A role is created exactly under a free name with permissions that parse. It grants those and nothing else, and
   * nobody's permissions change by it.
   */
  lemma CreateRoleOutcome(env: Env, s: Store, newId: Id, name: string, description: Option<string>,
                          permissions: seq<string>, subjectId: Id)
    requires Inv(s) && newId !in s.roles
    ensures var (s', r) := CreateRole(s, newId, name, description, permissions);
      && (r.Ok? <==> (forall p :: p in permissions ==> P.FromString(p).Ok?) &&
                     forall q :: q in s.roles ==> s.roles[q].name != name)
      && (r.Err? ==> s' == s)
      && (r.Ok? ==>
            && s' == s.(roles := s.roles[newId := r.value])
            && r.value.name == name && r.value.description == description && r.value.permissions == permissions
            && EffectivePermissions(s'.roles, [newId]) == set p | p in permissions)
      && SubjectPermissions(env, s', subjectId) == SubjectPermissions(env, s, subjectId)
  {
    var (s', r) := CreateRole(s, newId, name, description, permissions);
    if r.Ok? {
      var edges := ParentEdges(s.roles);
      assert ParentEdges(s'.roles) == edges;
      EffectiveOfOne(s'.roles, newId);
      NothingAbove(s.roles, newId);
      assert Closure(edges, newId) == {newId};
      UnassignedRoleChangesNothing(env, s, s', newId, subjectId);
    }
  }

  /** Only the permissions, or only the parents, of this one role may differ. */
  predicate OnlyRoleChanged(s: Store, s': Store, id: Id) {
    && id in s.roles && id in s'.roles && s' == s.(roles := s.roles[id := s'.roles[id]])
    && s'.roles[id].name == s.roles[id].name && s'.roles[id].description == s.roles[id].description
  }

  /** A permission that parses is added to any existing role; any is removed. The other permissions and roles stay. */
  lemma PermissionEditOutcome(s: Store, id: Id, permission: string)
    ensures var (s', r) := AddPermission(s, id, permission);
      && (r.Ok? <==> id in s.roles && P.FromString(permission).Ok?)
      && (r.Err? ==> s' == s)
      && (r.Ok? ==> OnlyRoleChanged(s, s', id) && s'.roles[id].parents == s.roles[id].parents &&
                    forall p :: p in s'.roles[id].permissions <==> p in s.roles[id].permissions || p == permission)
    ensures var (s', r) := RemovePermission(s, id, permission);
      && (r.Ok? <==> id in s.roles)
      && (r.Err? ==> s' == s)
      && (r.Ok? ==> OnlyRoleChanged(s, s', id) && s'.roles[id].parents == s.roles[id].parents &&
                    forall p :: p in s'.roles[id].permissions <==> p in s.roles[id].permissions && p != permission)
  {
  }

  /** A parent is added to an existing role exactly where it exists, and where that closes no cycle; any is removed. */
  lemma ParentEditOutcome(s: Store, id: Id, parent: Id)
    requires Inv(s)
    ensures var (s', r) := AddParent(s, id, parent);
      && (r.Ok? <==> id in s.roles && parent in s.roles && !Reaches(ParentEdges(s.roles), parent, id))
      && (r.Err? ==> s' == s)
      && (r.Ok? ==> OnlyRoleChanged(s, s', id) && s'.roles[id].permissions == s.roles[id].permissions &&
                    forall p :: p in s'.roles[id].parents <==> p in s.roles[id].parents || p == parent)
    ensures var (s', r) := RemoveParent(s, id, parent);
      && (r.Ok? <==> id in s.roles)
      && (r.Err? ==> s' == s)
      && (r.Ok? ==> OnlyRoleChanged(s, s', id) && s'.roles[id].permissions == s.roles[id].permissions &&
                    forall p :: p in s'.roles[id].parents <==> p in s.roles[id].parents && p != parent)
  {
    ReachesSelf(ParentEdges(s.roles), id);
    if id in s.roles && parent in s.roles[id].parents {
      assert (id, parent) in ParentEdges(s.roles);
    }
  }

  /** Deleting takes away an existing role, its assignments and every mention of it as a parent, and nothing else. */
  lemma DeleteRoleOutcome(s: Store, id: Id)
    ensures var (s', r) := DeleteRole(s, id);
      && (r.Ok? <==> id in s.roles)
      && (r.Err? ==> s' == s)
      && (r.Ok? ==>
            && s'.roles.Keys == s.roles.Keys - {id}
            && (forall k :: k in s'.roles ==> StruckParent(s.roles[k], s'.roles[k], id))
            && (forall i :: i in s'.assignments <==> i in s.assignments && s.assignments[i].roleId != id)
            && (forall i :: i in s'.assignments ==> s'.assignments[i] == s.assignments[i]))
  {
  }

  ghost predicate StruckParent(before: Role, after: Role, id: Id) {
    && after.(parents := before.parents) == before
    && forall p :: p in after.parents <==> p in before.parents && p != id
  }

  lemma NothingAbove(roles: Roles, id: Id)
    requires id !in roles
    ensures forall x :: Reaches(ParentEdges(roles), id, x) <==> x == id
  {
    ReachesSelf(ParentEdges(roles), id);
    forall x | Reaches(ParentEdges(roles), id, x) ensures x == id {
      if x != id {
        var next := ReachesFirstStep(ParentEdges(roles), id, x);
      }
    }
  }

  lemma UnassignedRoleChangesNothing(env: Env, s: Store, s': Store, newId: Id, subjectId: Id)
    requires Inv(s) && newId !in s.roles && s'.assignments == s.assignments
    requires ParentEdges(s'.roles) == ParentEdges(s.roles)
    requires newId in s'.roles && s'.roles - {newId} == s.roles
    ensures SubjectPermissions(env, s', subjectId) == SubjectPermissions(env, s, subjectId)
  {
    var edges := ParentEdges(s.roles);
    forall r, x | r in RootRoles(env, s, subjectId) && x in Closure(edges, r) && x in s'.roles ensures x in s.roles {
      RootsAreReached(env, s, subjectId, r);
      ClosedContainsReachable(edges, s.roles.Keys, r);
    }
    SameRoots(env, s, s', subjectId);
    forall r | r in s.roles ensures s'.roles[r] == s.roles[r] {
      assert (s'.roles - {newId})[r] == s.roles[r];
    }
  }

  // ---- which assignments are accepted ----

  /** x is the user that the identifier stands for, or an existing active group. */
  ghost predicate Recipient(env: Env, kind: Option<SubjectType>, subjectId: Option<string>, identifier: string, x: Id) {
    || (kind == Some(UserSubject) && env.resolve(identifier) == Ok(x))
    || (kind == Some(GroupSubject) && subjectId == Some(x) && x != "" && env.group(x) == Some(true))
  }

  /** An existing role is assigned exactly to a resolved user or an active group that does not hold it yet. */
  lemma AssignRoleOutcome(env: Env, s: Store, newId: Id, roleId: Id, kind: Option<SubjectType>,
                          subjectId: Option<string>, identifier: string)
    requires newId !in s.assignments
    ensures var (s', r) := AssignRole(env, s, newId, roleId, kind, subjectId, identifier);
      && (r.Ok? <==>
          roleId in s.roles &&
          exists x :: x != "" && Recipient(env, kind, subjectId, identifier, x) &&
                      forall i :: i in s.assignments ==> s.assignments[i] != RoleAssignment(x, kind.value, roleId))
      && (r.Err? ==> s' == s)
      && (r.Ok? ==>
            && s' == s.(assignments := s.assignments[newId := r.value])
            && r.value.roleId == roleId && kind == Some(r.value.subjectType)
            && Recipient(env, kind, subjectId, identifier, r.value.subjectId))
  {
  }

  /** Likewise an existing assignment is changed; the other assignments stay as they are. */
  lemma UpdateAssignmentOutcome(env: Env, s: Store, id: Id, roleId: Id, kind: Option<SubjectType>,
                                subjectId: Option<string>, identifier: string)
    ensures var (s', r) := UpdateAssignment(env, s, id, roleId, kind, subjectId, identifier);
      && (r.Ok? <==>
          id in s.assignments && roleId in s.roles &&
          exists x :: Recipient(env, kind, subjectId, identifier, x) &&
                      forall i :: i in s.assignments && i != id ==>
                        s.assignments[i] != RoleAssignment(x, kind.value, roleId))
      && (r.Err? ==> s' == s)
      && (r.Ok? ==>
            && s' == s.(assignments := s.assignments[id := r.value])
            && r.value.roleId == roleId && kind == Some(r.value.subjectType)
            && Recipient(env, kind, subjectId, identifier, r.value.subjectId))
  {
  }
}
