/** The role service: edits of the store and the explained queries over the role hierarchy. */
module RbacService {
  import opened Common
  import opened Graphs
  import opened RbacDomain
  import P = RbacPermission
  import S = RbacStore

  datatype Explained = Explained(
    permissions: seq<string>,
    directRoles: seq<Id>,
    groupRoles: map<Id, seq<Id>>,
    inheritedRoles: seq<Id>,
    ownPermissions: seq<string>,
    inheritedPermissions: seq<string>)

  /** role_id of the assignments of one subject of one type. */
  function RolesHeldBy(s: S.Store, subjectId: Id, kind: S.SubjectType): set<Id> {
    set i | i in s.assignments && s.assignments[i].subjectId == subjectId && s.assignments[i].subjectType == kind
      :: s.assignments[i].roleId
  }

  /** Roles held directly or through one of the user's groups. */
  function RootRoles(env: S.Env, s: S.Store, subjectId: Id): set<Id> {
    RolesHeldBy(s, subjectId, S.UserSubject) +
    set g, r | g in env.groupsOf(subjectId) && r in RolesHeldBy(s, g, S.GroupSubject) :: r
  }

  function Elements(list: seq<Id>): set<Id> {
    set x | x in list
  }

  /** Everything the subject may do. */
  ghost function SubjectPermissions(env: S.Env, s: S.Store, subjectId: Id): set<string> {
    set r, x, p | r in RootRoles(env, s, subjectId) && x in Closure(ParentEdges(s.roles), r) && x in s.roles &&
      p in s.roles[x].permissions
      :: p
  }

  /** The answer names the least held permission among those that grant the request, and there is none otherwise. */
  ghost predicate Explains(held: set<string>, granting: set<string>, answer: (bool, Option<string>)) {
    && (answer.0 <==> held * granting != {})
    && (answer.0 <==> answer.1.Some?)
    && (answer.0 ==> IsLeast(answer.1.value, held * granting))
  }

  lemma MatchingByText(held: set<string>, matching: set<string>, t: string, a: string)
    requires P.Token(t) && P.Token(a) && forall p :: p in held ==> P.FromString(p).Ok?
    requires P.FromString(t + ":" + a).Ok?
    requires forall p :: p in matching <==>
               p in held && P.Matches(P.FromString(p).value, P.FromString(t + ":" + a).value)
    ensures matching == held * P.Granting(t, a)
  {
    forall p | p in held ensures p in matching <==> p in P.Granting(t, a) {
      P.MatchesByText(p, t, a);
    }
  }

  /** EffectivePermissions of any list of the root roles, with or without the missing ones, is SubjectPermissions. */
  lemma PermissionsOfRoots(env: S.Env, s: S.Store, subjectId: Id, roots: seq<Id>)
    requires forall r :: r in roots ==> r in RootRoles(env, s, subjectId)
    requires forall r :: r in RootRoles(env, s, subjectId) && r in s.roles ==> r in roots
    ensures EffectivePermissions(s.roles, roots) == SubjectPermissions(env, s, subjectId)
  {
    var edges := ParentEdges(s.roles);
    forall p | p in EffectivePermissions(s.roles, roots) ensures p in SubjectPermissions(env, s, subjectId) {
      var x :| x in ClosureOfAll(edges, roots) && x in s.roles && p in s.roles[x].permissions;
      InClosureOfAll(edges, roots, x);
    }
    forall p | p in SubjectPermissions(env, s, subjectId) ensures p in EffectivePermissions(s.roles, roots) {
      var r, x :| r in RootRoles(env, s, subjectId) && x in Closure(edges, r) && x in s.roles &&
          p in s.roles[x].permissions;
      MissingReachesOnlyItself(s.roles, r, x);
      InClosureOfAll(edges, roots, x);
    }
  }

  lemma MissingReachesOnlyItself(roles: Roles, r: Id, x: Id)
    requires Reaches(ParentEdges(roles), r, x) && x in roles
    ensures r in roles
  {
    if r != x {
      var next := ReachesFirstStep(ParentEdges(roles), r, x);
    }
  }

  /** The parts of the explanation that are computed from the list of root roles. */
  ghost predicate Details(roles: Roles, roots: seq<Id>, r: Explained) {
    && IsSortedListOf(r.inheritedRoles, Inherited(roles, roots))
    && IsSortedListOf(r.inheritedPermissions, PermissionsOf(roles, Inherited(roles, roots)))
    && IsSortedListOf(r.ownPermissions, PermissionsOf(roles, Elements(roots)))
  }

  /** Every role that is not still to do has lost the parent id. */
  predicate Struck(before: Roles, now: Roles, todo: set<Id>, id: Id) {
    && now.Keys == before.Keys
    && forall k :: k in now ==>
         now[k] == if k in todo then before[k] else before[k].(parents := S.Without(before[k].parents, id))
  }

  lemma StruckFromAll(s: S.Store, roles: Roles, id: Id)
    requires id in s.roles && Struck(s.roles, roles, {}, id)
    ensures roles - {id} == S.DeleteRole(s, id).0.roles
  {
  }

  class RBACService {
    var roles: Roles
    var assignments: map<Id, S.RoleAssignment>
    const env: S.Env

    ghost function State(): S.Store
      reads this
    {
      S.Store(roles, assignments)
    }

    constructor (env: S.Env)
      ensures this.env == env && State() == S.EMPTY_STORE
    {
      this.env, roles, assignments := env, map[], map[];
    }

    // ---- edits ----

    method CreateRole(newId: Id, name: string, description: Option<string>,
                      permissions: seq<string>) returns (r: Result<Role>)
      modifies `roles
      ensures (State(), r) == S.CreateRole(old(State()), newId, name, description, permissions)
    {
      for i := 0 to |permissions|
        invariant forall j :: 0 <= j < i ==> P.FromString(permissions[j]).Ok?
        invariant roles == old(roles)
      {
        if P.FromString(permissions[i]).Err? {
          return Err(ValidationError);
        }
      }
      if exists k :: k in roles && roles[k].name == name {
        return Err(ConflictError);
      }
      var role := Role(name, description, permissions, []);
      roles := roles[newId := role];
      return Ok(role);
    }

    method UpdateRole(id: Id, name: Option<string>, description: Option<string>,
                      descriptionSet: bool) returns (r: Result<Role>)
      modifies `roles
      ensures (State(), r) == S.UpdateRole(old(State()), id, name, description, descriptionSet)
    {
      if id !in roles {
        return Err(NotFoundError);
      }
      var role := roles[id];
      var updated := role;
      if Truthy(name) && name.value != role.name {
        if exists k :: k in roles && roles[k].name == name.value {
          return Err(ConflictError);
        }
        updated := updated.(name := name.value);
      }
      if descriptionSet || description.Some? {
        updated := updated.(description := description);
      }
      if updated == role {
        assert roles[id := updated] == roles;
        return Ok(role);
      }
      roles := roles[id := updated];
      return Ok(updated);
    }

    /** Removes the assignments of the role, then strikes it from every other role's parents, then deletes it. */
    method DeleteRole(id: Id) returns (r: Result<()>)
      modifies `roles, `assignments
      ensures (State(), r) == S.DeleteRole(old(State()), id)
    {
      if id !in roles {
        return Err(NotFoundError);
      }
      ghost var before := State();
      assignments := map i | i in assignments && assignments[i].roleId != id :: assignments[i];
      var todo := roles.Keys;
      while todo != {}
        invariant assignments == S.DeleteRole(before, id).0.assignments
        invariant todo <= roles.Keys && Struck(before.roles, roles, todo, id)
        decreases todo
      {
        var k :| k in todo;
        todo := todo - {k};
        var role := roles[k];
        if id in role.parents {
          roles := roles[k := role.(parents := S.Without(role.parents, id))];
        }
      }
      StruckFromAll(before, roles, id);
      roles := roles - {id};
      return Ok(());
    }

    method AddPermission(id: Id, permission: string) returns (r: Result<Role>)
      modifies `roles
      ensures (State(), r) == S.AddPermission(old(State()), id, permission)
    {
      if id !in roles {
        return Err(NotFoundError);
      }
      if P.FromString(permission).Err? {
        return Err(ValidationError);
      }
      var updated := roles[id];
      if permission !in updated.permissions {
        updated := updated.(permissions := updated.permissions + [permission]);
      }
      roles := roles[id := updated];
      return Ok(updated);
    }

    method RemovePermission(id: Id, permission: string) returns (r: Result<Role>)
      modifies `roles
      ensures (State(), r) == S.RemovePermission(old(State()), id, permission)
    {
      if id !in roles {
        return Err(NotFoundError);
      }
      var updated := roles[id];
      if permission in updated.permissions {
        updated := updated.(permissions := S.Without(updated.permissions, permission));
      }
      roles := roles[id := updated];
      return Ok(updated);
    }

    method AddParent(id: Id, parent: Id) returns (r: Result<Role>)
      modifies `roles
      ensures (State(), r) == S.AddParent(old(State()), id, parent)
    {
      if id == parent {
        return Err(ValidationError);
      }
      if id !in roles || parent !in roles {
        return Err(NotFoundError);
      }
      var role := roles[id];
      if parent in role.parents {
        return Ok(role);
      }
      var cycle := WouldCreateCycle(id, parent, roles);
      if cycle {
        return Err(ConflictError);
      }
      var updated := role.(parents := role.parents + [parent]);
      roles := roles[id := updated];
      return Ok(updated);
    }

    method RemoveParent(id: Id, parent: Id) returns (r: Result<Role>)
      modifies `roles
      ensures (State(), r) == S.RemoveParent(old(State()), id, parent)
    {
      if id !in roles {
        return Err(NotFoundError);
      }
      var updated := roles[id].(parents := S.Without(roles[id].parents, parent));
      roles := roles[id := updated];
      return Ok(updated);
    }

    method AssignRole(newId: Id, roleId: Id, kind: Option<S.SubjectType>, subjectId: Option<string>, identifier: string)
      returns (r: Result<S.RoleAssignment>)
      requires newId !in assignments
      modifies `assignments
      ensures (State(), r) == S.AssignRole(env, old(State()), newId, roleId, kind, subjectId, identifier)
    {
      if roleId !in roles {
        return Err(NotFoundError);
      }
      var subject := S.ResolveSubject(env, kind, subjectId, identifier);
      if subject.Err? {
        return Err(subject.error);
      }
      if subject.value == "" {
        return Err(ValidationError);
      }
      var a := S.RoleAssignment(subject.value, kind.value, roleId);
      if exists i :: i in assignments && assignments[i] == a {
        return Err(ConflictError);
      }
      assignments := assignments[newId := a];
      return Ok(a);
    }

    /** Removes one assignment that matches, or nothing when there is none; without a type either kind may match. */
    method UnassignRole(subjectId: Id, roleId: Id, kind: Option<S.SubjectType>)
      modifies `assignments
      ensures if exists i :: i in old(assignments) && Concerns(old(assignments)[i], subjectId, roleId, kind)
              then exists i :: i in old(assignments) && Concerns(old(assignments)[i], subjectId, roleId, kind) &&
                               State() == S.DeleteAssignment(old(State()), i)
              else State() == old(State())
      ensures kind.Some? && S.AssignmentsUnique(old(assignments)) ==>
        forall i :: i in assignments <==>
                    i in old(assignments) && old(assignments)[i] != S.RoleAssignment(subjectId, kind.value, roleId)
    {
      if i :| i in assignments && Concerns(assignments[i], subjectId, roleId, kind) {
        assignments := assignments - {i};
        assert Concerns(old(assignments)[i], subjectId, roleId, kind);
      }
    }

    static predicate Concerns(a: S.RoleAssignment, subjectId: Id, roleId: Id, kind: Option<S.SubjectType>) {
      a.subjectId == subjectId && a.roleId == roleId && (kind.Some? ==> a.subjectType == kind.value)
    }

    /** find_one may return any equal assignment; uniqueness makes it the only one. */
    method UpdateAssignment(id: Id, roleId: Id, kind: Option<S.SubjectType>, subjectId: Option<string>,
                            identifier: string)
      returns (r: Result<S.RoleAssignment>)
      requires S.AssignmentsUnique(assignments)
      modifies `assignments
      ensures (State(), r) == S.UpdateAssignment(env, old(State()), id, roleId, kind, subjectId, identifier)
    {
      if id !in assignments || roleId !in roles {
        return Err(NotFoundError);
      }
      var subject := S.ResolveSubject(env, kind, subjectId, identifier);
      if subject.Err? {
        return Err(subject.error);
      }
      var a := S.RoleAssignment(subject.value, kind.value, roleId);
      if i :| i in assignments && assignments[i] == a {
        if i != id {
          return Err(ConflictError);
        }
      }
      assignments := assignments[id := a];
      return Ok(a);
    }

    // ---- queries ----

    method RolesOf(subjectId: Id, kind: S.SubjectType) returns (list: seq<Id>)
      ensures Elements(list) == RolesHeldBy(State(), subjectId, kind)
    {
      list := [];
      var todo := assignments.Keys;
      while todo != {}
        invariant todo <= assignments.Keys
        invariant forall r :: r in list <==>
          exists i :: i in assignments && i !in todo && assignments[i].subjectId == subjectId &&
                      assignments[i].subjectType == kind && assignments[i].roleId == r
        decreases todo
      {
        var i :| i in todo;
        todo := todo - {i};
        if assignments[i].subjectId == subjectId && assignments[i].subjectType == kind {
          list := list + [assignments[i].roleId];
        }
      }
    }

    /** The existing roles the subject holds directly or through groups, once each. */
    method GetSubjectRoles(subjectId: Id) returns (list: seq<Id>)
      ensures Elements(list) == RootRoles(env, State(), subjectId) * roles.Keys
    {
      var direct := RolesOf(subjectId, S.UserSubject);
      var roleIds := Elements(direct);
      var groups := env.groupsOf(subjectId);
      for k := 0 to |groups|
        invariant roleIds == RolesHeldBy(State(), subjectId, S.UserSubject) +
          set g, r | g in groups[..k] && r in RolesHeldBy(State(), g, S.GroupSubject) :: r
      {
        var held := RolesOf(groups[k], S.GroupSubject);
        assert groups[..k + 1] == groups[..k] + [groups[k]];
        roleIds := roleIds + Elements(held);
      }
      assert groups[..|groups|] == groups;
      list := SortedList(roleIds * roles.Keys);
    }

    /** Whether the subject holds the role, and a genuine parent chain from one of its own roles to it. */
    method HasRoleExplained(subjectId: Id, roleId: Id) returns (has: bool, path: seq<Id>)
      requires Acyclic(ParentEdges(roles))
      ensures has <==>
        exists root :: root in RootRoles(env, State(), subjectId) * roles.Keys &&
                       Reaches(ParentEdges(roles), root, roleId)
      ensures has ==> path != [] && path[0] in RootRoles(env, State(), subjectId) * roles.Keys &&
                      IsPath(ParentEdges(roles), path, path[0], roleId)
      ensures !has ==> path == []
    {
      var roots := GetSubjectRoles(subjectId);
      assert forall r :: r in roots <==> r in RootRoles(env, State(), subjectId) * roles.Keys by {
        assert forall r :: r in roots <==> r in Elements(roots);
      }
      for k := 0 to |roots|
        invariant forall j :: 0 <= j < k ==> !Reaches(ParentEdges(roles), roots[j], roleId)
      {
        var found := Find(roles, roots[k], roleId, []);
        FindIsRight(roles, roots[k], roleId, []);
        if found.Some? {
          assert found.value[0..] == found.value;
          return true, found.value;
        }
      }
      return false, [];
    }

    method GetEffectivePermissions(subjectId: Id) returns (list: seq<string>)
      ensures IsSortedListOf(list, SubjectPermissions(env, State(), subjectId))
    {
      var effective := EffectiveOf(subjectId);
      list := SortedList(effective);
    }

    method EffectiveOf(subjectId: Id) returns (effective: set<string>)
      ensures effective == SubjectPermissions(env, State(), subjectId)
    {
      var roots := GetSubjectRoles(subjectId);
      assert forall r :: r in roots <==> r in Elements(roots);
      effective := ResolveEffectivePermissions(roots, roles);
      PermissionsOfRoots(env, State(), subjectId, roots);
    }

    /**
     * For a required t:a, allowed exactly when the subject holds t:a, *:a, t:* or *:*; the one reported is the least.
     */
    method CheckExplained(subjectId: Id, required: string) returns (r: Result<(bool, Option<string>)>)
      requires S.RolesValid(roles)
      ensures r.Err? <==> P.FromString(required).Err?
      ensures forall t, a :: P.Token(t) && P.Token(a) && required == t + ":" + a ==>
                r.Ok? && Explains(SubjectPermissions(env, State(), subjectId), P.Granting(t, a), r.value)
    {
      var req := P.FromString(required);
      P.ParseAcceptsPattern(required);
      if req.Err? {
        return Err(req.error);
      }
      var effective := EffectiveOf(subjectId);
      forall p | p in effective ensures P.FromString(p).Ok? {
        PermissionsParse(env, State(), subjectId, p);
      }
      var matching := set p | p in effective && P.Matches(P.FromString(p).value, req.value);
      forall t, a | P.Token(t) && P.Token(a) && required == t + ":" + a
        ensures matching == effective * P.Granting(t, a)
      {
        MatchingByText(effective, matching, t, a);
      }
      var matches := SortedList(matching);
      if matches == [] {
        assert forall p :: p !in matching;
        return Ok((false, None));
      }
      assert matches[0] in matching;
      return Ok((true, Some(matches[0])));
    }

    /** The recursive computation, seeded from every root separately, reports the same permissions as the search. */
    method GetEffectivePermissionsExplained(subjectId: Id) returns (r: Explained)
      ensures IsSortedListOf(r.permissions, SubjectPermissions(env, State(), subjectId))
      ensures Elements(r.directRoles) == RolesHeldBy(State(), subjectId, S.UserSubject)
      ensures forall g :: g in r.groupRoles <==>
              g in env.groupsOf(subjectId) && RolesHeldBy(State(), g, S.GroupSubject) != {}
      ensures forall g :: g in r.groupRoles ==> Elements(r.groupRoles[g]) == RolesHeldBy(State(), g, S.GroupSubject)
      ensures exists roots: seq<Id> :: Elements(roots) == RootRoles(env, State(), subjectId) && Details(roles, roots, r)
    {
      var direct := RolesOf(subjectId, S.UserSubject);
      var groups := env.groupsOf(subjectId);
      var groupRoles: map<Id, seq<Id>> := map[];
      var rootIds := direct;
      for k := 0 to |groups|
        invariant forall g :: g in groupRoles <==> g in groups[..k] && RolesHeldBy(State(), g, S.GroupSubject) != {}
        invariant forall g :: g in groupRoles ==> Elements(groupRoles[g]) == RolesHeldBy(State(), g, S.GroupSubject)
        invariant Elements(rootIds) == RolesHeldBy(State(), subjectId, S.UserSubject) +
          set g, x | g in groups[..k] && x in RolesHeldBy(State(), g, S.GroupSubject) :: x
      {
        var held := RolesOf(groups[k], S.GroupSubject);
        assert groups[..k + 1] == groups[..k] + [groups[k]];
        assert Elements(rootIds + held) == Elements(rootIds) + Elements(held);
        if held != [] {
          assert held[0] in Elements(held);
          groupRoles := groupRoles[groups[k] := held];
          rootIds := rootIds + held;
        }
      }
      assert groups[..|groups|] == groups;
      assert forall x :: x in rootIds <==> x in Elements(rootIds);
      var inherited := InheritedRoles(roles, rootIds);
      var own := PermissionsOf(roles, Elements(rootIds));
      var above := PermissionsOf(roles, inherited);
      OwnAndInheritedAreEffective(roles, rootIds);
      PermissionsOfRoots(env, State(), subjectId, rootIds);
      assert Elements(rootIds) == set x | x in rootIds;
      var permissions := SortedList(own + above);
      var inheritedRoles := SortedList(inherited);
      var ownPermissions := SortedList(own);
      var inheritedPermissions := SortedList(above);
      r := Explained(permissions, direct, groupRoles, inheritedRoles, ownPermissions, inheritedPermissions);
      assert Details(roles, rootIds, r);
    }
  }

  lemma PermissionsParse(env: S.Env, s: S.Store, subjectId: Id, p: string)
    requires S.RolesValid(s.roles) && p in SubjectPermissions(env, s, subjectId)
    ensures P.FromString(p).Ok?
  {
    var r, x :| r in RootRoles(env, s, subjectId) && x in Closure(ParentEdges(s.roles), r) && x in s.roles &&
        p in s.roles[x].permissions;
    assert S.RoleValid(s.roles[x]);
  }
}
