/** The ACL service: each call loads a policy, applies an operation of the aggregate and saves the replacement. */
module AclService {
  import opened Common
  import opened P = AclPolicy
  import S = AclStore
  import opened AclAccess

  class ACLService {
    var policies: S.Policies
    const groupsOf: Id -> seq<Id>

    constructor (groupsOf: Id -> seq<Id>)
      ensures policies == map[] && this.groupsOf == groupsOf
    {
      policies, this.groupsOf := map[], groupsOf;
    }

    /** The insert fails on a resource that has a policy already, by the unique index. */
    method CreateResource(resource: string, owner: Result<Principal>, newId: Id) returns (r: Result<bool>)
      modifies this
      ensures (policies, r) == S.CreateResource(old(policies), resource, owner, newId)
    {
      var id := Strip(resource);
      if id == "" {
        return Err(ValidationError);
      }
      if owner.Err? {
        return Err(owner.error);
      }
      match ClaimPrincipal([], owner.value, newId)
      case Err(e) =>
        return Err(e);
      case Ok(claimed) =>
        if id in policies {
          return Err(ConflictError);
        }
        policies := policies[id := claimed];
        return Ok(true);
    }

    method ClaimResource(userId: Id, resource: Id, newId: Id) returns (r: Result<bool>)
      modifies this
      ensures (policies, r) == S.ClaimResource(old(policies), userId, resource, newId)
    {
      var policy := if resource in policies then policies[resource] else [];
      var claimed := Claim(policy, userId, newId);
      if claimed.Err? {
        return Err(claimed.error);
      }
      policies := policies[resource := claimed.value];
      return Ok(true);
    }

    method ClaimResourceForPrincipal(principal: Principal, resource: Id, newId: Id) returns (r: Result<bool>)
      modifies this
      ensures (policies, r) == S.ClaimForPrincipal(old(policies), principal, resource, newId)
    {
      var policy := if resource in policies then policies[resource] else [];
      var claimed := ClaimPrincipal(policy, principal, newId);
      if claimed.Err? {
        return Err(claimed.error);
      }
      policies := policies[resource := claimed.value];
      return Ok(true);
    }

    method Grant(callerId: Id, resource: Id, principal: Result<Principal>, permissions: set<Permission>,
                 isAdmin: bool, newId: Id)
      returns (r: Result<bool>)
      modifies this
      ensures (policies, r) ==
              S.GrantAccess(groupsOf, old(policies), callerId, resource, principal, permissions, isAdmin, newId)
    {
      if resource !in policies {
        return Err(NotFoundError);
      }
      var policy := policies[resource];
      var callerIds := if isAdmin then S.OwnerIds(policy) else [callerId] + groupsOf(callerId);
      if principal.Err? {
        return Err(principal.error);
      }
      var updated := P.Grant(policy, principal.value, permissions, callerIds, newId);
      if updated.Err? {
        return Err(updated.error);
      }
      policies := policies[resource := updated.value];
      return Ok(true);
    }

    method Revoke(callerId: Id, resource: Id, target: Result<Id>, permissions: set<Permission>,
                  isAdmin: bool) returns (r: Result<bool>)
      modifies this
      ensures (policies, r) == S.RevokeAccess(groupsOf, old(policies), callerId, resource, target, permissions, isAdmin)
    {
      if resource !in policies {
        return Err(NotFoundError);
      }
      var policy := policies[resource];
      var callerIds := if isAdmin then S.OwnerIds(policy) else [callerId] + groupsOf(callerId);
      if target.Err? {
        return Err(target.error);
      }
      var updated := P.Revoke(policy, target.value, permissions, callerId, callerIds);
      if updated.Err? {
        return Err(updated.error);
      }
      policies := policies[resource := updated.value];
      return Ok(true);
    }

    method RevokeGrant(callerId: Id, resource: Id, grantId: Id, isAdmin: bool) returns (r: Result<bool>)
      modifies this
      ensures (policies, r) == S.RevokeGrant(groupsOf, old(policies), callerId, resource, grantId, isAdmin)
    {
      if resource !in policies {
        return Err(NotFoundError);
      }
      var policy := policies[resource];
      var found := FindById(policy, grantId);
      if found.None? {
        return Err(NotFoundError);
      }
      if found.value.isOwner {
        return Err(ConflictError);
      }
      var callerIds := if isAdmin then S.OwnerIds(policy) else [callerId] + groupsOf(callerId);
      var updated := P.Revoke(policy, found.value.principal.id, found.value.permissions, callerId, callerIds);
      if updated.Err? {
        return Err(updated.error);
      }
      policies := policies[resource := updated.value];
      return Ok(true);
    }

    /** Returns the edited grant, which keeps its id and principal and carries the new permissions. */
    method UpdateGrantPermissions(callerId: Id, resource: Id, grantId: Id, permissions: set<Permission>, isAdmin: bool)
      returns (r: Result<AccessGrant>)
      requires resource in policies ==> UniqueGrantIds(policies[resource])
      modifies this
      ensures policies == S.UpdateGrant(groupsOf, old(policies), callerId, resource, grantId, permissions, isAdmin).0
      ensures r.Ok? <==> S.UpdateGrant(groupsOf, old(policies), callerId, resource, grantId, permissions, isAdmin).1.Ok?
      ensures r.Ok? ==>
        && r.value in policies[resource]
        && r.value == FindById(old(policies)[resource], grantId).value.(permissions := permissions)
      ensures r.Err? ==>
        Err(r.error) == S.UpdateGrant(groupsOf, old(policies), callerId, resource, grantId, permissions, isAdmin).1
    {
      if resource !in policies {
        return Err(NotFoundError);
      }
      var policy := policies[resource];
      var callerIds := if isAdmin then S.OwnerIds(policy) else [callerId] + groupsOf(callerId);
      var updated := P.UpdateGrantPermissions(policy, grantId, permissions, callerIds);
      if updated.Err? {
        return Err(updated.error);
      }
      policies := policies[resource := updated.value];
      ghost var g := FindById(policy, grantId).value;
      ReplaceMembers(policy, g, g.(permissions := permissions));
      SameIdSameGrant(updated.value, FindById(updated.value, grantId).value, g.(permissions := permissions));
      return Ok(FindById(updated.value, grantId).value);
    }

    /** A group is asked about by its own id, a user with the ids of all its groups; an unknown resource is denied. */
    method Check(subjectId: Id, kind: PrincipalType, resource: Id, required: set<Permission>) returns (allowed: bool)
      ensures allowed ==> resource in policies
      ensures resource in policies ==>
        (allowed <==>
         forall p :: p in required ==>
           exists g :: g in policies[resource] && Gives(g, p) && Covers(g, subjectId, kind))
    {
      var ids := if kind == GroupPrincipal then [subjectId] else [subjectId] + groupsOf(subjectId);
      if resource !in policies {
        return false;
      }
      var held := EffectivePermissions(policies[resource], ids);
      allowed := required <= held;
      forall p ensures p in held <==> exists g :: g in policies[resource] && Gives(g, p) && Covers(g, subjectId, kind) {
        EveryPermission(p);
        if p in held {
          var g :| g in policies[resource] && g.principal.id in ids && p in Held(g);
          assert Gives(g, p) && Covers(g, subjectId, kind);
        }
        if g :| g in policies[resource] && Gives(g, p) && Covers(g, subjectId, kind) {
          assert g.principal.id in ids && p in Held(g);
        }
      }
    }

    static predicate Gives(g: AccessGrant, p: Permission) {
      g.isOwner || p in g.permissions
    }

    /** The grant is made to the subject or, for a user, to one of its groups. */
    predicate Covers(g: AccessGrant, subjectId: Id, kind: PrincipalType) {
      g.principal.id == subjectId || (kind == UserPrincipal && g.principal.id in groupsOf(subjectId))
    }

    method TransferOwner(resource: Id, principal: Principal, keep: Option<set<Permission>>,
                         newId: Id) returns (r: Result<bool>)
      modifies this
      ensures (policies, r) ==
              S.Transfer(old(policies), resource, principal, if keep.Some? then keep.value else {}, newId)
    {
      if resource !in policies {
        return Err(NotFoundError);
      }
      var updated := TransferOwnerLoop(policies[resource], principal, if keep.Some? then keep.value else {}, newId);
      if updated.Err? {
        return Err(updated.error);
      }
      policies := policies[resource := updated.value];
      return Ok(true);
    }

    method DeleteResource(callerId: Id, resource: Id, isAdmin: bool) returns (r: Result<bool>)
      modifies this
      ensures (policies, r) == S.DeleteResource(groupsOf, old(policies), callerId, resource, isAdmin)
    {
      if isAdmin {
        if resource !in policies {
          return Err(DatabaseError);
        }
        policies := policies - {resource};
        return Ok(true);
      }
      if resource !in policies {
        return Err(NotFoundError);
      }
      var held := EffectivePermissions(policies[resource], [callerId] + groupsOf(callerId));
      if Manage !in held {
        return Err(AccessDeniedError);
      }
      policies := policies - {resource};
      return Ok(true);
    }

    method GetPolicyForCaller(callerId: Id, resource: Id, isAdmin: bool) returns (r: Result<Grants>)
      ensures r == S.PolicyForCaller(groupsOf, policies, callerId, resource, isAdmin)
    {
      if resource !in policies {
        return Err(NotFoundError);
      }
      if isAdmin {
        return Ok(policies[resource]);
      }
      var held := EffectivePermissions(policies[resource], [callerId] + groupsOf(callerId));
      if Manage !in held {
        return Err(AccessDeniedError);
      }
      return Ok(policies[resource]);
    }
  }

  /** The users' route for a transfer: authorise, resolve the new owner, transfer. */
  method TransferResourceOwner(service: ACLService, callerId: Id, isAdmin: bool, resource: Id,
                               principal: Result<Principal>, keep: Option<set<Permission>>, newId: Id)
    returns (r: Result<bool>)
    modifies service
    ensures (service.policies, r) ==
            S.TransferAs(service.groupsOf, old(service.policies), callerId, resource, principal,
                         if keep.Some? then keep.value else {}, isAdmin, newId)
  {
    var authorized := service.GetPolicyForCaller(callerId, resource, isAdmin);
    if authorized.Err? {
      return Err(authorized.error);
    }
    if principal.Err? {
      return Err(principal.error);
    }
    r := service.TransferOwner(resource, principal.value, keep, newId);
  }
}
