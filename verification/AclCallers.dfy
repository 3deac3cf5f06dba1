/** Whom the ACL lets do what: when each call is accepted, and what callers without MANAGE leave untouched. */
module AclCallers {
  import opened Common
  import opened AclPolicy
  import opened AclAccess
  import opened AclStore

  // ---- the operations of the aggregate ----

  /** Some grant to one of these ids is the owner's or includes MANAGE. */
  ghost predicate MayManage(grants: Grants, ids: seq<Id>) {
    exists g :: g in grants && g.principal.id in ids && (g.isOwner || Manage in g.permissions)
  }

  lemma ManageIsHeld(grants: Grants, ids: seq<Id>)
    ensures Manage in Effective(grants, ids) <==> MayManage(grants, ids)
  {
    EveryPermission(Manage);
    if g :| g in grants && g.principal.id in ids && (g.isOwner || Manage in g.permissions) {
      assert Manage in Held(g);
    }
  }

  /** The i-th grant is the first one whose principal has this id. */
  predicate FirstAt(grants: Grants, id: Id, i: nat) {
    i < |grants| && grants[i].principal.id == id && forall j :: 0 <= j < i ==> grants[j].principal.id != id
  }

  ghost predicate FirstOf(grants: Grants, id: Id, g: AccessGrant) {
    exists i: nat :: FirstAt(grants, id, i) && grants[i] == g
  }

  lemma {:induction false} FoundIsFirst(grants: Grants, id: Id)
    requires FindGrant(grants, id).Some?
    ensures FirstOf(grants, id, FindGrant(grants, id).value)
  {
    if grants[0].principal.id == id {
      assert FirstAt(grants, id, 0);
    } else {
      FoundIsFirst(grants[1..], id);
      var i: nat :| FirstAt(grants[1..], id, i) && grants[1..][i] == FindGrant(grants, id).value;
      assert forall j :: 0 < j < i + 1 ==> grants[j] == grants[1..][j - 1];
      assert FirstAt(grants, id, i + 1);
    }
  }

  lemma {:induction false} FirstIsFound(grants: Grants, id: Id, i: nat)
    requires FirstAt(grants, id, i)
    ensures FindGrant(grants, id) == Some(grants[i])
  {
    if 0 < i {
      assert FirstAt(grants[1..], id, i - 1);
      FirstIsFound(grants[1..], id, i - 1);
    }
  }

  /** Granting is refused exactly to callers without MANAGE. */
  lemma GrantOutcome(grants: Grants, principal: Principal, permissions: set<Permission>, callerIds: seq<Id>, newId: Id)
    ensures var r := Grant(grants, principal, permissions, callerIds, newId);
      && (r.Ok? <==> MayManage(grants, callerIds))
      && (r.Err? ==> r.error == AccessDeniedError)
  {
    ManageIsHeld(grants, callerIds);
  }

  ghost predicate OwnedFirst(grants: Grants, id: Id) {
    exists g :: FirstOf(grants, id, g) && g.isOwner
  }

  lemma FindsOwner(grants: Grants, id: Id)
    ensures FindGrant(grants, id).Some? && FindGrant(grants, id).value.isOwner <==> OwnedFirst(grants, id)
  {
    if FindGrant(grants, id).Some? {
      FoundIsFirst(grants, id);
    }
    if g :| FirstOf(grants, id, g) && g.isOwner {
      var i: nat :| FirstAt(grants, id, i) && grants[i] == g;
      FirstIsFound(grants, id, i);
    }
  }

  /** Revoking is open to the named id itself and to holders of MANAGE, but MANAGE is not revoked from the owner. */
  lemma RevokeOutcome(grants: Grants, principalId: Id, permissions: set<Permission>, callerId: Id, callerIds: seq<Id>)
    requires Sound(grants)
    ensures var r := Revoke(grants, principalId, permissions, callerId, callerIds);
      && (r == Err(AccessDeniedError) <==> callerId != principalId && !MayManage(grants, callerIds))
      && (r == Err(ConflictError) <==> (callerId == principalId || MayManage(grants, callerIds)) &&
                                       Manage in permissions && OwnedFirst(grants, principalId))
      && (r.Err? ==> r.error == AccessDeniedError || r.error == ConflictError)
  {
    ManageIsHeld(grants, callerIds);
    FindsOwner(grants, principalId);
    var o :| SoleOwner(grants, o);
    OneOwnerCount(grants, o);
  }

  /** Editing needs MANAGE, at least one permission and an existing grant that is not the owner's. */
  lemma UpdateOutcome(grants: Grants, grantId: Id, permissions: set<Permission>, callerIds: seq<Id>)
    requires UniqueGrantIds(grants)
    ensures var r := UpdateGrantPermissions(grants, grantId, permissions, callerIds);
      && (r.Ok? <==> MayManage(grants, callerIds) && permissions != {} &&
                     exists g :: g in grants && g.grantId == grantId && !g.isOwner)
      && (r == Err(AccessDeniedError) <==> !MayManage(grants, callerIds))
      && (r == Err(NotFoundError) <==> MayManage(grants, callerIds) && permissions != {} && NewGrantId(grants, grantId))
  {
    ManageIsHeld(grants, callerIds);
    if g :| g in grants && g.grantId == grantId && !g.isOwner {
      SameIdSameGrant(grants, g, FindById(grants, grantId).value);
    }
  }

  ghost predicate Unowned(grants: Grants) {
    forall g :: g in grants ==> !g.isOwner
  }

  /**
   * A claim succeeds exactly when nobody owns the resource or the claimant's first grant is the owner's. In the first
   * case the claimant then holds everything, in the second nobody's permissions change; nor do those of others in
   * either.
   */
  lemma ClaimOutcome(grants: Grants, principal: Principal, newId: Id, ids: seq<Id>)
    requires UniqueGrantIds(grants)
    ensures var r := Claim(grants, principal.id, newId);
      && (r.Ok? <==> Unowned(grants) || OwnedFirst(grants, principal.id)) && (r.Err? ==> r.error == ConflictError)
      && (r.Ok? ==> Effective(r.value, ids) ==
                    Effective(grants, ids) +
                    if Unowned(grants) && principal.id in ids then ALL_PERMISSIONS else {})
    ensures var r := ClaimPrincipal(grants, principal, newId);
      && (r.Ok? <==> Unowned(grants) || OwnedFirst(grants, principal.id)) && (r.Err? ==> r.error == ConflictError)
      && (r.Ok? ==> Effective(r.value, ids) ==
                    Effective(grants, ids) +
                    if Unowned(grants) && principal.id in ids then ALL_PERMISSIONS else {})
  {
    FindsOwner(grants, principal.id);
    var own := FindGrant(grants, principal.id);
    if own.Some? && own.value.isOwner {
      RestoredOwnerHoldsAsMuch(grants, own.value, ids);
    } else if Unowned(grants) {
      EffectiveAppend(grants, AccessGrant(newId, Principal(UserPrincipal, principal.id), ALL_PERMISSIONS, true), ids);
      EffectiveAppend(grants, AccessGrant(newId, principal, ALL_PERMISSIONS, true), ids);
    }
  }

  lemma RestoredOwnerHoldsAsMuch(grants: Grants, g: AccessGrant, ids: seq<Id>)
    requires UniqueGrantIds(grants) && g in grants && g.isOwner
    ensures Effective(Replace(grants, g.(permissions := ALL_PERMISSIONS)), ids) == Effective(grants, ids)
  {
    var restored := g.(permissions := ALL_PERMISSIONS);
    ReplaceMembers(grants, g, restored);
    assert Held(restored) == Held(g);
    var after := Replace(grants, restored);
    forall p | p in Effective(grants, ids) ensures p in Effective(after, ids) {
      var h :| h in grants && h.principal.id in ids && p in Held(h);
      var h' := if h == g then restored else h;
      assert h' in after && p in Held(h');
    }
  }

  // ---- callers without MANAGE take nothing from others ----

  predicate Apart(ids: seq<Id>, coalition: seq<Id>) {
    forall i :: i in ids ==> i !in coalition
  }

  /** One call by a coalition without MANAGE changes nothing for lists of ids outside the coalition. */
  lemma StepTakesNothing(grants: Grants, coalition: seq<Id>, c: PolicyCall, ids: seq<Id>)
    requires Sound(grants) && Manage !in Effective(grants, coalition) && MadeBy(coalition, c) && Apart(ids, coalition)
    ensures Effective(After(grants, c), ids) == Effective(grants, ids)
  {
    var o :| SoleOwner(grants, o);
    match c
    case AskClaim(u, n) => ClaimOutcome(grants, Principal(UserPrincipal, u), n, ids);
    case AskClaimPrincipal(p, n) => ClaimOutcome(grants, p, n, ids);
    case AskGrant(_, _, callerIds, _) => EffectiveMonotone(grants, callerIds, coalition);
    case AskUpdate(_, _, callerIds) => EffectiveMonotone(grants, callerIds, coalition);
    case AskRevoke(id, ps, caller, callerIds) =>
      EffectiveMonotone(grants, callerIds, coalition);
      if Asked(grants, c).Ok? {
        assert id == caller && id !in ids;
        RevokeEffect(grants, id, ps, caller, callerIds, ids);
      }
  }

  /** However long a coalition without MANAGE keeps calling, everybody else keeps exactly what it had. */
  lemma {:induction false} CoalitionTakesNothing(grants: Grants, coalition: seq<Id>, calls: seq<PolicyCall>,
                                                 ids: seq<Id>)
    requires Sound(grants) && Manage !in Effective(grants, coalition) && Apart(ids, coalition)
    requires forall c :: c in calls ==> MadeBy(coalition, c)
    ensures Effective(AfterAll(grants, calls), ids) == Effective(grants, ids)
    decreases |calls|
  {
    if calls != [] {
      var next := After(grants, calls[0]);
      StepGainsNothing(grants, coalition, calls[0]);
      CoveredGainsNothing(next, grants, coalition);
      StepTakesNothing(grants, coalition, calls[0], ids);
      CoalitionTakesNothing(next, coalition, calls[1..], ids);
    }
  }

  /**
   * Through the service: whatever users who jointly lack MANAGE on a resource call, ids that are neither theirs nor
   * their groups' keep exactly their permissions on it.
   */
  lemma {:induction false} UsersWithoutManageTakeNothing(groupsOf: Id -> seq<Id>, s: Policies, users: seq<Id>,
                                                         calls: seq<Call>, r: Id, ids: seq<Id>)
    requires r in s && Sound(s[r]) && Manage !in Effective(s[r], ActingIds(groupsOf, users))
    requires Apart(ids, ActingIds(groupsOf, users))
    requires forall c :: c in calls ==> MadeByUsers(users, c)
    ensures r in Run(groupsOf, s, calls)
    ensures Effective(Run(groupsOf, s, calls)[r], ids) == Effective(s[r], ids)
    decreases |calls|
  {
    if calls != [] {
      var s' := Next(groupsOf, s, calls[0]);
      var acting := ActingIds(groupsOf, users);
      UserCallOnPolicy(groupsOf, s, users, calls[0], r);
      var p := Performs(groupsOf, s, calls[0], r);
      if p.Some? {
        StepGainsNothing(s[r], acting, p.value);
        CoveredGainsNothing(s'[r], s[r], acting);
        StepTakesNothing(s[r], acting, p.value, ids);
      }
      UsersWithoutManageTakeNothing(groupsOf, s', users, calls[1..], r, ids);
    }
  }

  // ---- the calls of the service ----

  /** The caller or one of its groups owns the resource or holds MANAGE; an administrator needs an owner to act for. */
  ghost predicate CanManage(groupsOf: Id -> seq<Id>, grants: Grants, callerId: Id, isAdmin: bool) {
    exists g :: g in grants &&
      if isAdmin then g.isOwner
      else (g.principal.id == callerId || g.principal.id in groupsOf(callerId)) &&
           (g.isOwner || Manage in g.permissions)
  }

  lemma CallersManage(groupsOf: Id -> seq<Id>, grants: Grants, callerId: Id, isAdmin: bool)
    ensures MayManage(grants, CallerIds(groupsOf, grants, callerId, isAdmin)) <==>
            CanManage(groupsOf, grants, callerId, isAdmin)
    ensures Manage in Effective(grants, CallerIds(groupsOf, grants, callerId, isAdmin)) <==>
            CanManage(groupsOf, grants, callerId, isAdmin)
  {
    var ids := CallerIds(groupsOf, grants, callerId, isAdmin);
    ManageIsHeld(grants, ids);
    OwnerIdsMembers(grants);
    if MayManage(grants, ids) {
      var g :| g in grants && g.principal.id in ids && (g.isOwner || Manage in g.permissions);
      assert isAdmin ==> exists h :: h in grants && h.isOwner && h.principal.id == g.principal.id;
    }
  }

  /** Everything but this one policy is as it was. */
  ghost predicate OnlyPolicyChanged(s: Policies, after: Policies, resource: Id) {
    forall r :: r != resource ==> (r in after <==> r in s) && (r in s ==> after[r] == s[r])
  }

  /** A resource is created for a valid owner under a name that is not blank or taken; the owner holds its one grant. */
  lemma CreateResourceOutcome(s: Policies, resource: string, owner: Result<Principal>, newId: Id)
    ensures var (after, r) := CreateResource(s, resource, owner, newId);
      && (r.Ok? <==> Strip(resource) != "" && owner.Ok? && Strip(resource) !in s)
      && (r.Ok? ==> r.value) && (r.Err? ==> after == s)
      && (r.Ok? ==> OnlyPolicyChanged(s, after, Strip(resource)) && Strip(resource) in after &&
                    after[Strip(resource)] == [AccessGrant(newId, owner.value, ALL_PERMISSIONS, true)])
  {
  }

  /** Claiming works for a resource without a policy, and for its owner. */
  lemma ClaimCallsOutcome(s: Policies, principal: Principal, resource: Id, newId: Id)
    requires Inv(s)
    ensures var (after, r) := ClaimResource(s, principal.id, resource, newId);
      && (r.Ok? <==> resource !in s || OwnedFirst(s[resource], principal.id))
      && OnlyPolicyChanged(s, after, resource) && (r.Ok? ==> r.value) && (r.Err? ==> after == s)
      && (r.Ok? && resource !in s ==>
            && resource in after
            && after[resource] == [AccessGrant(newId, Principal(UserPrincipal, principal.id), ALL_PERMISSIONS, true)])
    ensures var (after, r) := ClaimForPrincipal(s, principal, resource, newId);
      && (r.Ok? <==> resource !in s || OwnedFirst(s[resource], principal.id))
      && OnlyPolicyChanged(s, after, resource) && (r.Ok? ==> r.value) && (r.Err? ==> after == s)
      && (r.Ok? && resource !in s ==>
          resource in after && after[resource] == [AccessGrant(newId, principal, ALL_PERMISSIONS, true)])
  {
    var grants := PolicyOrNew(s, resource);
    ClaimOutcome(grants, principal, newId, []);
    if resource in s {
      var o :| SoleOwner(grants, o);
    }
  }

  /** Permissions on a resource are granted exactly by callers who can manage it, to principals that resolve. */
  lemma GrantCallOutcome(groupsOf: Id -> seq<Id>, s: Policies, callerId: Id, resource: Id, principal: Result<Principal>,
                         permissions: set<Permission>, isAdmin: bool, newId: Id)
    ensures var (after, r) := GrantAccess(groupsOf, s, callerId, resource, principal, permissions, isAdmin, newId);
      && (r.Ok? <==> resource in s && principal.Ok? && CanManage(groupsOf, s[resource], callerId, isAdmin))
      && OnlyPolicyChanged(s, after, resource) && (r.Ok? ==> r.value) && (r.Err? ==> after == s)
  {
    if resource in s && principal.Ok? {
      var ids := CallerIds(groupsOf, s[resource], callerId, isAdmin);
      CallersManage(groupsOf, s[resource], callerId, isAdmin);
      GrantOutcome(s[resource], principal.value, permissions, ids, newId);
    }
  }

  /** Permissions are revoked exactly by the id concerned or a caller who can manage, except MANAGE from the owner. */
  lemma RevokeCallOutcome(groupsOf: Id -> seq<Id>, s: Policies, callerId: Id, resource: Id, target: Result<Id>,
                          permissions: set<Permission>, isAdmin: bool)
    requires Inv(s)
    ensures var (after, r) := RevokeAccess(groupsOf, s, callerId, resource, target, permissions, isAdmin);
      && (r.Ok? <==> resource in s && target.Ok? &&
                     (callerId == target.value || CanManage(groupsOf, s[resource], callerId, isAdmin)) &&
                     !(Manage in permissions && OwnedFirst(s[resource], target.value)))
      && OnlyPolicyChanged(s, after, resource) && (r.Ok? ==> r.value) && (r.Err? ==> after == s)
  {
    if resource in s && target.Ok? {
      var ids := CallerIds(groupsOf, s[resource], callerId, isAdmin);
      CallersManage(groupsOf, s[resource], callerId, isAdmin);
      RevokeOutcome(s[resource], target.value, permissions, callerId, ids);
    }
  }

  /** One grant is revoked exactly by its own principal or a caller who can manage, and never an owner's. */
  lemma RevokeGrantOutcome(groupsOf: Id -> seq<Id>, s: Policies, callerId: Id, resource: Id, g: AccessGrant,
                           isAdmin: bool)
    requires Inv(s) && resource in s && g in s[resource]
    ensures var (after, r) := RevokeGrant(groupsOf, s, callerId, resource, g.grantId, isAdmin);
      && (r.Ok? <==> !g.isOwner &&
                     (callerId == g.principal.id || CanManage(groupsOf, s[resource], callerId, isAdmin)) &&
                     !(Manage in g.permissions && OwnedFirst(s[resource], g.principal.id)))
      && OnlyPolicyChanged(s, after, resource) && (r.Ok? ==> r.value) && (r.Err? ==> after == s)
  {
    SameIdSameGrant(s[resource], g, FindById(s[resource], g.grantId).value);
    var ids := CallerIds(groupsOf, s[resource], callerId, isAdmin);
    CallersManage(groupsOf, s[resource], callerId, isAdmin);
    RevokeOutcome(s[resource], g.principal.id, g.permissions, callerId, ids);
  }

  /** A grant's permissions are replaced exactly by callers who can manage, by a set that is not empty. */
  lemma UpdateCallOutcome(groupsOf: Id -> seq<Id>, s: Policies, callerId: Id, resource: Id, grantId: Id,
                          permissions: set<Permission>, isAdmin: bool)
    requires Inv(s)
    ensures var (after, r) := UpdateGrant(groupsOf, s, callerId, resource, grantId, permissions, isAdmin);
      && (r.Ok? <==> resource in s && CanManage(groupsOf, s[resource], callerId, isAdmin) && permissions != {} &&
                     exists g :: g in s[resource] && g.grantId == grantId && !g.isOwner)
      && OnlyPolicyChanged(s, after, resource) && (r.Ok? ==> r.value) && (r.Err? ==> after == s)
  {
    if resource in s {
      CallersManage(groupsOf, s[resource], callerId, isAdmin);
      UpdateOutcome(s[resource], grantId, permissions, CallerIds(groupsOf, s[resource], callerId, isAdmin));
    }
  }

  /**
   * Administrators, and callers who own the resource or hold MANAGE themselves or through a group, may see the policy,
   * transfer it and delete it; nobody else may.
   */
  lemma OversightOutcome(groupsOf: Id -> seq<Id>, s: Policies, callerId: Id, resource: Id, isAdmin: bool,
                         principal: Result<Principal>, keep: set<Permission>, newId: Id)
    requires Inv(s) && NewGrantId(PolicyOrNew(s, resource), newId)
    ensures var allowed := resource in s && (isAdmin || CanManage(groupsOf, s[resource], callerId, false));
      && (PolicyForCaller(groupsOf, s, callerId, resource, isAdmin).Ok? <==> allowed)
      && (allowed ==> PolicyForCaller(groupsOf, s, callerId, resource, isAdmin) == Ok(s[resource]))
      && (DeleteResource(groupsOf, s, callerId, resource, isAdmin).1 == Ok(true) <==> allowed)
      && DeleteResource(groupsOf, s, callerId, resource, isAdmin).0 == (if allowed then s - {resource} else s)
      && (TransferAs(groupsOf, s, callerId, resource, principal, keep, isAdmin, newId).1.Ok? <==>
          allowed && principal.Ok?)
      && OnlyPolicyChanged(s, TransferAs(groupsOf, s, callerId, resource, principal, keep, isAdmin, newId).0, resource)
  {
    if resource in s {
      CallersManage(groupsOf, s[resource], callerId, false);
      if principal.Ok? {
        TransferKeepsSound(s[resource], principal.value, keep, newId);
      }
    }
  }

  /** Deleting by user drops exactly the policies in which the user has a grant, of whatever kind. */
  lemma DeleteByUserOutcome(s: Policies, userId: Id)
    ensures forall r :: r in DeleteAllByUser(s, userId) <==>
            r in s && !exists g :: g in s[r] && g.principal.id == userId
    ensures forall r :: r in DeleteAllByUser(s, userId) ==> DeleteAllByUser(s, userId)[r] == s[r]
  {
  }
}
