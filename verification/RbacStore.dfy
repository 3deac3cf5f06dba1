/** The role and assignment collections of one account and what every service call does to them. */
module RbacStore {
  import opened Common
  import opened Graphs
  import opened RbacDomain
  import P = RbacPermission

  datatype SubjectType = UserSubject | GroupSubject

  datatype RoleAssignment = RoleAssignment(subjectId: Id, subjectType: SubjectType, roleId: Id)

  datatype Store = Store(roles: Roles, assignments: map<Id, RoleAssignment>)

  /** Users and groups as the service sees them; group yields whether an existing group is active. */
  datatype Env = Env(resolve: string -> Result<Id>, group: Id -> Option<bool>, groupsOf: Id -> seq<Id>)

  const EMPTY_STORE := Store(map[], map[])

  // ---- the invariant of every reachable store ----

  predicate RoleValid(role: Role) {
    forall p :: p in role.permissions ==> P.FromString(p).Ok?
  }

  /** Every stored permission parses, so a check never fails on stored data. */
  predicate RolesValid(roles: Roles) {
    forall r :: r in roles ==> RoleValid(roles[r])
  }

  predicate ParentsExist(roles: Roles) {
    forall r, p :: r in roles && p in roles[r].parents ==> p in roles
  }

  predicate NamesUnique(roles: Roles) {
    forall r, q | r in roles && q in roles && roles[r].name == roles[q].name :: r == q
  }

  predicate AssignedRolesExist(roles: Roles, assignments: map<Id, RoleAssignment>) {
    forall i :: i in assignments ==> assignments[i].roleId in roles
  }

  predicate AssignmentsUnique(assignments: map<Id, RoleAssignment>) {
    forall i, j | i in assignments && j in assignments && assignments[i] == assignments[j] :: i == j
  }

  ghost predicate Inv(s: Store) {
    && RolesValid(s.roles)
    && ParentsExist(s.roles)
    && Acyclic(ParentEdges(s.roles))
    && NamesUnique(s.roles)
    && AssignedRolesExist(s.roles, s.assignments)
    && AssignmentsUnique(s.assignments)
  }

  // ---- role calls ----

  predicate NameTaken(roles: Roles, name: string) {
    exists r :: r in roles && roles[r].name == name
  }

  function Without(s: seq<string>, x: string): (r: seq<string>)
    ensures forall y :: y in r <==> y in s && y != x
    ensures x !in s ==> r == s
  {
    if s == [] then []
    else if s[0] == x then Without(s[1..], x)
    else [s[0]] + Without(s[1..], x)
  }

  function CreateRole(s: Store, newId: Id, name: string, description: Option<string>,
                      permissions: seq<string>): (Store, Result<Role>) {
    if exists p :: p in permissions && P.FromString(p).Err? then (s, Err(ValidationError))
    else if NameTaken(s.roles, name) then (s, Err(ConflictError))
    else
      var role := Role(name, description, permissions, []);
      (s.(roles := s.roles[newId := role]), Ok(role))
  }

  function UpdateRole(s: Store, id: Id, name: Option<string>, description: Option<string>,
                      descriptionSet: bool): (Store, Result<Role>) {
    if id !in s.roles then (s, Err(NotFoundError))
    else
      var role := s.roles[id];
      var rename := Truthy(name) && name.value != role.name;
      if rename && NameTaken(s.roles, name.value) then (s, Err(ConflictError))
      else
        var updated := role.(
          name := if rename then name.value else role.name,
          description := if descriptionSet || description.Some? then description else role.description);
        (s.(roles := s.roles[id := updated]), Ok(updated))
  }

  /** The role, its assignments and every mention of it as a parent are gone. */
  function DeleteRole(s: Store, id: Id): (Store, Result<()>) {
    if id !in s.roles then (s, Err(NotFoundError))
    else
      (Store(
         map r | r in s.roles && r != id :: s.roles[r].(parents := Without(s.roles[r].parents, id)),
         map i | i in s.assignments && s.assignments[i].roleId != id :: s.assignments[i]),
       Ok(()))
  }

  function AddPermission(s: Store, id: Id, permission: string): (Store, Result<Role>) {
    if id !in s.roles then (s, Err(NotFoundError))
    else if P.FromString(permission).Err? then (s, Err(ValidationError))
    else
      var role := s.roles[id];
      var updated :=
        if permission in role.permissions then role
        else role.(permissions := role.permissions + [permission]);
      (s.(roles := s.roles[id := updated]), Ok(updated))
  }

  function RemovePermission(s: Store, id: Id, permission: string): (Store, Result<Role>) {
    if id !in s.roles then (s, Err(NotFoundError))
    else
      var updated := s.roles[id].(permissions := Without(s.roles[id].permissions, permission));
      (s.(roles := s.roles[id := updated]), Ok(updated))
  }

  ghost function AddParent(s: Store, id: Id, parent: Id): (Store, Result<Role>) {
    if id == parent then (s, Err(ValidationError))
    else if id !in s.roles || parent !in s.roles then (s, Err(NotFoundError))
    else if parent in s.roles[id].parents then (s, Ok(s.roles[id]))
    else if Reaches(ParentEdges(s.roles), parent, id) then (s, Err(ConflictError))
    else
      var updated := s.roles[id].(parents := s.roles[id].parents + [parent]);
      (s.(roles := s.roles[id := updated]), Ok(updated))
  }

  function RemoveParent(s: Store, id: Id, parent: Id): (Store, Result<Role>) {
    if id !in s.roles then (s, Err(NotFoundError))
    else
      var updated := s.roles[id].(parents := Without(s.roles[id].parents, parent));
      (s.(roles := s.roles[id := updated]), Ok(updated))
  }

  // ---- assignment calls ----

  /** The subject a role may be assigned to; an unrecognised subject_type text is None. */
  function ResolveSubject(env: Env, kind: Option<SubjectType>, subjectId: Option<string>,
                          identifier: string): Result<Id> {
    match kind
    case None => Err(ValidationError)
    case Some(UserSubject) => env.resolve(identifier)
    case Some(GroupSubject) =>
      if !Truthy(subjectId) then Err(ValidationError)
      else
        match env.group(subjectId.value)
        case None => Err(NotFoundError)
        case Some(active) => if active then Ok(subjectId.value) else Err(ValidationError)
  }

  predicate Held(assignments: map<Id, RoleAssignment>, a: RoleAssignment, except: Id) {
    exists i :: i in assignments && i != except && assignments[i] == a
  }

  /** newId is the generated assignment id. */
  function AssignRole(env: Env, s: Store, newId: Id, roleId: Id, kind: Option<SubjectType>, subjectId: Option<string>,
                      identifier: string): (Store, Result<RoleAssignment>)
  {
    if roleId !in s.roles then (s, Err(NotFoundError))
    else
      var subject := ResolveSubject(env, kind, subjectId, identifier);
      if subject.Err? then (s, Err(subject.error))
      else if subject.value == "" then (s, Err(ValidationError))
      else
        var a := RoleAssignment(subject.value, kind.value, roleId);
        if Held(s.assignments, a, newId) then (s, Err(ConflictError))
        else (s.(assignments := s.assignments[newId := a]), Ok(a))
  }

  function UpdateAssignment(env: Env, s: Store, id: Id, roleId: Id, kind: Option<SubjectType>,
                            subjectId: Option<string>,
                            identifier: string): (Store, Result<RoleAssignment>)
  {
    if id !in s.assignments || roleId !in s.roles then (s, Err(NotFoundError))
    else
      var subject := ResolveSubject(env, kind, subjectId, identifier);
      if subject.Err? then (s, Err(subject.error))
      else
        var a := RoleAssignment(subject.value, kind.value, roleId);
        if Held(s.assignments, a, id) then (s, Err(ConflictError))
        else (s.(assignments := s.assignments[id := a]), Ok(a))
  }

  function DeleteAssignment(s: Store, id: Id): Store {
    s.(assignments := s.assignments - {id})
  }

  function DeleteBySubject(s: Store, subjectId: Id): Store {
    s.(assignments := map i | i in s.assignments && s.assignments[i].subjectId != subjectId :: s.assignments[i])
  }

  // ---- runs ----

  datatype Call =
    | CallCreateRole(newId: Id, newName: string, about: Option<string>, permissions: seq<string>)
    | CallUpdateRole(id: Id, name: Option<string>, description: Option<string>, descriptionSet: bool)
    | CallDeleteRole(id: Id)
    | CallAddPermission(id: Id, permission: string)
    | CallRemovePermission(id: Id, permission: string)
    | CallAddParent(id: Id, parent: Id)
    | CallRemoveParent(id: Id, parent: Id)
    | CallAssignRole(newId: Id, roleId: Id, kind: Option<SubjectType>, subjectId: Option<string>, identifier: string)
    | CallUpdateAssignment(id: Id, roleId: Id, kind: Option<SubjectType>, subjectId: Option<string>, identifier: string)
    | CallDeleteAssignment(id: Id)
    | CallDeleteBySubject(subject: Id)

  ghost function Next(env: Env, s: Store, c: Call): Store {
    match c
    case CallCreateRole(id, n, d, ps) => CreateRole(s, id, n, d, ps).0
    case CallUpdateRole(id, n, d, b) => UpdateRole(s, id, n, d, b).0
    case CallDeleteRole(id) => DeleteRole(s, id).0
    case CallAddPermission(id, p) => AddPermission(s, id, p).0
    case CallRemovePermission(id, p) => RemovePermission(s, id, p).0
    case CallAddParent(id, p) => AddParent(s, id, p).0
    case CallRemoveParent(id, p) => RemoveParent(s, id, p).0
    case CallAssignRole(id, r, k, sub, ident) => AssignRole(env, s, id, r, k, sub, ident).0
    case CallUpdateAssignment(id, r, k, sub, ident) => UpdateAssignment(env, s, id, r, k, sub, ident).0
    case CallDeleteAssignment(id) => DeleteAssignment(s, id)
    case CallDeleteBySubject(sub) => DeleteBySubject(s, sub)
  }

  predicate FreshId(s: Store, c: Call) {
    (c.CallCreateRole? ==> c.newId !in s.roles) && (c.CallAssignRole? ==> c.newId !in s.assignments)
  }

  ghost predicate FreshIds(env: Env, s: Store, calls: seq<Call>)
    decreases |calls|
  {
    calls != [] ==> FreshId(s, calls[0]) && FreshIds(env, Next(env, s, calls[0]), calls[1..])
  }

  ghost function Run(env: Env, s: Store, calls: seq<Call>): Store
    decreases |calls|
  {
    if calls == [] then s else Run(env, Next(env, s, calls[0]), calls[1..])
  }

  /** Saving a role whose parents were parents before, or whose parent set is unchanged. */
  lemma PutRoleKeepsInv(s: Store, id: Id, role: Role)
    requires Inv(s) && RoleValid(role)
    requires forall p :: p in role.parents ==> id in s.roles && p in s.roles[id].parents
    requires forall r :: r in s.roles && s.roles[r].name == role.name ==> r == id
    ensures Inv(s.(roles := s.roles[id := role]))
  {
    var roles := s.roles[id := role];
    assert ParentEdges(roles) <= ParentEdges(s.roles);
    FewerEdgesAcyclic(ParentEdges(s.roles), ParentEdges(roles));
    assert ParentsExist(roles);
  }

  lemma EdgesAfterAddParent(roles: Roles, id: Id, parent: Id)
    requires id in roles
    ensures ParentEdges(roles[id := roles[id].(parents := roles[id].parents + [parent])]) ==
            ParentEdges(roles) + {(id, parent)}
  {
    var more := roles[id := roles[id].(parents := roles[id].parents + [parent])];
    forall r, p ensures (r, p) in ParentEdges(more) <==> (r, p) in ParentEdges(roles) + {(id, parent)} {
      if r == id {
        assert more[id].parents == roles[id].parents + [parent];
      }
    }
  }

  lemma AddParentKeepsInv(s: Store, id: Id, parent: Id)
    requires Inv(s)
    ensures Inv(AddParent(s, id, parent).0)
  {
    var s' := AddParent(s, id, parent).0;
    if s' != s {
      EdgesAfterAddParent(s.roles, id, parent);
      AddEdgeAcyclic(ParentEdges(s.roles), id, parent);
      assert forall p :: p in s'.roles[id].parents ==> p in s.roles[id].parents || p == parent;
      assert ParentsExist(s'.roles);
      assert NamesUnique(s'.roles);
    }
  }

  /** Between existing roles a parent is accepted exactly when the hierarchy stays acyclic. */
  lemma AddParentGuardIsExact(s: Store, id: Id, parent: Id)
    requires Inv(s) && id in s.roles && parent in s.roles && parent !in s.roles[id].parents
    ensures AddParent(s, id, parent).1.Ok? <==> Acyclic(ParentEdges(s.roles) + {(id, parent)})
  {
    AddEdgeAcyclic(ParentEdges(s.roles), id, parent);
    ReachesSelf(ParentEdges(s.roles), id);
  }

  lemma DeleteRoleKeepsInv(s: Store, id: Id)
    requires Inv(s)
    ensures Inv(DeleteRole(s, id).0)
  {
    var s' := DeleteRole(s, id).0;
    assert ParentEdges(s'.roles) <= ParentEdges(s.roles);
    FewerEdgesAcyclic(ParentEdges(s.roles), ParentEdges(s'.roles));
    forall r | r in s'.roles ensures RoleValid(s'.roles[r]) {
      assert RoleValid(s.roles[r]);
    }
  }

  lemma CreateOrUpdateRoleKeepsInv(env: Env, s: Store, c: Call)
    requires Inv(s) && FreshId(s, c) && (c.CallCreateRole? || c.CallUpdateRole?)
    ensures Inv(Next(env, s, c))
  {
    var s' := Next(env, s, c);
    var id := if c.CallCreateRole? then c.newId else c.id;
    if s' != s {
      PutRoleKeepsInv(s, id, s'.roles[id]);
    }
  }

  lemma EditRoleKeepsInv(env: Env, s: Store, c: Call)
    requires Inv(s) && (c.CallAddPermission? || c.CallRemovePermission? || c.CallRemoveParent?)
    ensures Inv(Next(env, s, c))
  {
    var s' := Next(env, s, c);
    if s' != s {
      assert RoleValid(s.roles[c.id]);
      PutRoleKeepsInv(s, c.id, s'.roles[c.id]);
    }
  }

  lemma PutAssignmentKeepsInv(s: Store, id: Id, a: RoleAssignment)
    requires Inv(s) && a.roleId in s.roles && !Held(s.assignments, a, id)
    ensures Inv(s.(assignments := s.assignments[id := a]))
  {
  }

  lemma FewerAssignmentsKeepInv(s: Store, fewer: map<Id, RoleAssignment>)
    requires Inv(s)
    requires forall i :: i in fewer ==> i in s.assignments && fewer[i] == s.assignments[i]
    ensures Inv(s.(assignments := fewer))
  {
  }

  /** A role is created exactly when the store with it satisfies the invariant. */
  lemma CreateRoleGuardIsExact(s: Store, newId: Id, name: string, description: Option<string>, permissions: seq<string>)
    requires Inv(s) && newId !in s.roles
    ensures CreateRole(s, newId, name, description, permissions).1.Ok? <==>
            Inv(s.(roles := s.roles[newId := Role(name, description, permissions, [])]))
  {
    var role := Role(name, description, permissions, []);
    var roles := s.roles[newId := role];
    assert roles[newId] == role;
    if CreateRole(s, newId, name, description, permissions).1.Ok? {
      PutRoleKeepsInv(s, newId, role);
    } else if NameTaken(s.roles, name) {
      var r :| r in s.roles && s.roles[r].name == name;
      assert roles[r] == s.roles[r];
    } else {
      assert !RoleValid(roles[newId]);
    }
  }

  /**
   * For a subject that resolves, a role is assigned exactly when the store with the assignment satisfies the invariant.
   */
  lemma AssignRoleGuardIsExact(env: Env, s: Store, newId: Id, roleId: Id, kind: Option<SubjectType>,
                               subjectId: Option<string>, identifier: string)
    requires Inv(s) && newId !in s.assignments
    requires ResolveSubject(env, kind, subjectId, identifier).Ok? &&
             ResolveSubject(env, kind, subjectId, identifier).value != ""
    ensures var a := RoleAssignment(ResolveSubject(env, kind, subjectId, identifier).value, kind.value, roleId);
      AssignRole(env, s, newId, roleId, kind, subjectId, identifier).1.Ok? <==>
        Inv(s.(assignments := s.assignments[newId := a]))
  {
    var a := RoleAssignment(ResolveSubject(env, kind, subjectId, identifier).value, kind.value, roleId);
    var more := s.assignments[newId := a];
    assert more[newId] == a;
    if AssignRole(env, s, newId, roleId, kind, subjectId, identifier).1.Ok? {
      PutAssignmentKeepsInv(s, newId, a);
    } else if roleId in s.roles {
      var i :| i in s.assignments && s.assignments[i] == a;
      assert more[i] == a;
    }
  }

  lemma AssignmentCallKeepsInv(env: Env, s: Store, c: Call)
    requires Inv(s) && FreshId(s, c)
    requires c.CallAssignRole? || c.CallUpdateAssignment? || c.CallDeleteAssignment? || c.CallDeleteBySubject?
    ensures Inv(Next(env, s, c))
  {
    var s' := Next(env, s, c);
    if c.CallDeleteAssignment? || c.CallDeleteBySubject? {
      FewerAssignmentsKeepInv(s, s'.assignments);
    } else if s' != s {
      var id := if c.CallAssignRole? then c.newId else c.id;
      PutAssignmentKeepsInv(s, id, s'.assignments[id]);
    }
  }

  lemma NextKeepsInv(env: Env, s: Store, c: Call)
    requires Inv(s) && FreshId(s, c)
    ensures Inv(Next(env, s, c))
  {
    match c
    case CallCreateRole(_, _, _, _) => CreateOrUpdateRoleKeepsInv(env, s, c);
    case CallUpdateRole(_, _, _, _) => CreateOrUpdateRoleKeepsInv(env, s, c);
    case CallDeleteRole(id) => DeleteRoleKeepsInv(s, id);
    case CallAddPermission(_, _) => EditRoleKeepsInv(env, s, c);
    case CallRemovePermission(_, _) => EditRoleKeepsInv(env, s, c);
    case CallAddParent(id, p) => AddParentKeepsInv(s, id, p);
    case CallRemoveParent(_, _) => EditRoleKeepsInv(env, s, c);
    case _ => AssignmentCallKeepsInv(env, s, c);
  }

  lemma {:induction false} RunKeepsInv(env: Env, s: Store, calls: seq<Call>)
    requires Inv(s) && FreshIds(env, s, calls)
    ensures Inv(Run(env, s, calls))
    decreases |calls|
  {
    if calls != [] {
      NextKeepsInv(env, s, calls[0]);
      RunKeepsInv(env, Next(env, s, calls[0]), calls[1..]);
    }
  }

  /** In every reachable store the hierarchy is acyclic, nothing dangles, and names and assignments are unique. */
  lemma ReachableStoresSatisfyInv(env: Env, calls: seq<Call>)
    requires FreshIds(env, EMPTY_STORE, calls)
    ensures Inv(Run(env, EMPTY_STORE, calls))
  {
    assert ParentEdges(EMPTY_STORE.roles) == {};
    RunKeepsInv(env, EMPTY_STORE, calls);
  }
}
