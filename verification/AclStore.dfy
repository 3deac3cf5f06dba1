/** The policy collection of one account: every service call as a step, and what all reachable stores satisfy. */
module AclStore {
  import opened Common
  import opened AclPolicy
  import opened AclAccess

  /** Policies keyed by resource id. */
  type Policies = map<Id, Grants>

  /** _principal_ids: the caller and its groups; for an administrator, the owners of the policy. */
  function CallerIds(groupsOf: Id -> seq<Id>, grants: Grants, callerId: Id, isAdmin: bool): seq<Id> {
    if isAdmin then OwnerIds(grants) else [callerId] + groupsOf(callerId)
  }

  function OwnerIds(grants: Grants): seq<Id> {
    if grants == [] then [] else (if grants[0].isOwner then [grants[0].principal.id] else []) + OwnerIds(grants[1..])
  }

  /** Save the replacement policy, or report the error and keep the store. */
  function Saved(s: Policies, resource: Id, r: Result<Grants>): (Policies, Result<bool>) {
    if r.Err? then (s, Err(r.error)) else (s[resource := r.value], Ok(true))
  }

  function CreateResource(s: Policies, resource: string, owner: Result<Principal>,
                          newId: Id): (Policies, Result<bool>) {
    var id := Strip(resource);
    if id == "" then (s, Err(ValidationError))
    else if owner.Err? then (s, Err(owner.error))
    else if id in s then (s, Err(ConflictError))
    else Saved(s, id, ClaimPrincipal([], owner.value, newId))
  }

  function PolicyOrNew(s: Policies, resource: Id): Grants {
    if resource in s then s[resource] else []
  }

  function ClaimResource(s: Policies, userId: Id, resource: Id, newId: Id): (Policies, Result<bool>) {
    Saved(s, resource, Claim(PolicyOrNew(s, resource), userId, newId))
  }

  function ClaimForPrincipal(s: Policies, principal: Principal, resource: Id, newId: Id): (Policies, Result<bool>) {
    Saved(s, resource, ClaimPrincipal(PolicyOrNew(s, resource), principal, newId))
  }

  function GrantAccess(groupsOf: Id -> seq<Id>, s: Policies, callerId: Id, resource: Id, principal: Result<Principal>,
                       permissions: set<Permission>, isAdmin: bool, newId: Id): (Policies, Result<bool>)
  {
    if resource !in s then (s, Err(NotFoundError))
    else if principal.Err? then (s, Err(principal.error))
    else Saved(s, resource,
               Grant(s[resource], principal.value, permissions, CallerIds(groupsOf, s[resource], callerId, isAdmin),
                     newId))
  }

  function RevokeAccess(groupsOf: Id -> seq<Id>, s: Policies, callerId: Id, resource: Id, target: Result<Id>,
                        permissions: set<Permission>, isAdmin: bool): (Policies, Result<bool>)
  {
    if resource !in s then (s, Err(NotFoundError))
    else if target.Err? then (s, Err(target.error))
    else Saved(s, resource,
               Revoke(s[resource], target.value, permissions, callerId,
                      CallerIds(groupsOf, s[resource], callerId, isAdmin)))
  }

  function RevokeGrant(groupsOf: Id -> seq<Id>, s: Policies, callerId: Id, resource: Id, grantId: Id,
                       isAdmin: bool): (Policies, Result<bool>) {
    if resource !in s then (s, Err(NotFoundError))
    else
      var found := FindById(s[resource], grantId);
      if found.None? then (s, Err(NotFoundError))
      else if found.value.isOwner then (s, Err(ConflictError))
      else
        Saved(s, resource, Revoke(s[resource], found.value.principal.id, found.value.permissions, callerId,
                                  CallerIds(groupsOf, s[resource], callerId, isAdmin)))
  }

  function UpdateGrant(groupsOf: Id -> seq<Id>, s: Policies, callerId: Id, resource: Id, grantId: Id,
                       permissions: set<Permission>, isAdmin: bool): (Policies, Result<bool>)
  {
    if resource !in s then (s, Err(NotFoundError))
    else
      Saved(s, resource,
            UpdateGrantPermissions(s[resource], grantId, permissions,
                                   CallerIds(groupsOf, s[resource], callerId, isAdmin)))
  }

  function Transfer(s: Policies, resource: Id, principal: Principal, keep: set<Permission>,
                    newId: Id): (Policies, Result<bool>) {
    if resource !in s then (s, Err(NotFoundError))
    else Saved(s, resource, TransferOwner(s[resource], principal, keep, newId))
  }

  /** get_policy_for_caller: the policy of a resource, for administrators and holders of MANAGE. */
  function PolicyForCaller(groupsOf: Id -> seq<Id>, s: Policies, callerId: Id, resource: Id,
                           isAdmin: bool): Result<Grants> {
    if resource !in s then Err(NotFoundError)
    else if !isAdmin && Manage !in Effective(s[resource], CallerIds(groupsOf, s[resource], callerId, false)) then
      Err(AccessDeniedError)
    else Ok(s[resource])
  }

  /** The transfer that the users' route offers: only to callers who may see the policy. */
  function TransferAs(groupsOf: Id -> seq<Id>, s: Policies, callerId: Id, resource: Id, principal: Result<Principal>,
                      keep: set<Permission>, isAdmin: bool, newId: Id): (Policies, Result<bool>)
  {
    var authorized := PolicyForCaller(groupsOf, s, callerId, resource, isAdmin);
    if authorized.Err? then (s, Err(authorized.error))
    else if principal.Err? then (s, Err(principal.error))
    else Transfer(s, resource, principal.value, keep, newId)
  }

  function DeleteResource(groupsOf: Id -> seq<Id>, s: Policies, callerId: Id, resource: Id,
                          isAdmin: bool): (Policies, Result<bool>) {
    if resource !in s then (s, Err(if isAdmin then DatabaseError else NotFoundError))
    else if !isAdmin && Manage !in Effective(s[resource], CallerIds(groupsOf, s[resource], callerId, false)) then
      (s, Err(AccessDeniedError))
    else (s - {resource}, Ok(true))
  }

  function DeleteAllByUser(s: Policies, userId: Id): Policies {
    map r | r in s && NewPrincipal(s[r], userId) :: s[r]
  }

  // ---- runs ----

  datatype Call =
    | CallCreate(resource: Id, owner: Result<Principal>, newId: Id)
    | CallClaim(userId: Id, resource: Id, newId: Id)
    | CallClaimFor(claimant: Principal, resource: Id, newId: Id)
    | CallGrant(callerId: Id, resource: Id, principal: Result<Principal>, permissions: set<Permission>, isAdmin: bool,
                newId: Id)
    | CallRevoke(callerId: Id, resource: Id, target: Result<Id>, permissions: set<Permission>, isAdmin: bool)
    | CallRevokeGrant(callerId: Id, resource: Id, grantId: Id, isAdmin: bool)
    | CallUpdateGrant(callerId: Id, resource: Id, grantId: Id, permissions: set<Permission>, isAdmin: bool)
    | CallTransfer(resource: Id, heir: Principal, keep: set<Permission>, newId: Id)
    | CallTransferAs(callerId: Id, resource: Id, principal: Result<Principal>, keep: set<Permission>, isAdmin: bool,
                     newId: Id)
    | CallDelete(callerId: Id, resource: Id, isAdmin: bool)
    | CallDeleteAllByUser(userId: Id)

  function Next(groupsOf: Id -> seq<Id>, s: Policies, c: Call): Policies {
    match c
    case CallCreate(r, o, n) => CreateResource(s, r, o, n).0
    case CallClaim(u, r, n) => ClaimResource(s, u, r, n).0
    case CallClaimFor(p, r, n) => ClaimForPrincipal(s, p, r, n).0
    case CallGrant(caller, r, p, ps, adm, n) => GrantAccess(groupsOf, s, caller, r, p, ps, adm, n).0
    case CallRevoke(caller, r, t, ps, adm) => RevokeAccess(groupsOf, s, caller, r, t, ps, adm).0
    case CallRevokeGrant(caller, r, g, adm) => RevokeGrant(groupsOf, s, caller, r, g, adm).0
    case CallUpdateGrant(caller, r, g, ps, adm) => UpdateGrant(groupsOf, s, caller, r, g, ps, adm).0
    case CallTransfer(r, p, k, n) => Transfer(s, r, p, k, n).0
    case CallTransferAs(caller, r, p, k, adm, n) => TransferAs(groupsOf, s, caller, r, p, k, adm, n).0
    case CallDelete(caller, r, adm) => DeleteResource(groupsOf, s, caller, r, adm).0
    case CallDeleteAllByUser(u) => DeleteAllByUser(s, u)
  }

  function Run(groupsOf: Id -> seq<Id>, s: Policies, calls: seq<Call>): Policies
    decreases |calls|
  {
    if calls == [] then s else Run(groupsOf, Next(groupsOf, s, calls[0]), calls[1..])
  }

  /** A generated grant id is new to the policy it goes into. */
  predicate FreshId(s: Policies, c: Call) {
    match c
    case CallGrant(_, r, _, _, _, n) => NewGrantId(PolicyOrNew(s, r), n)
    case CallTransfer(r, _, _, n) => NewGrantId(PolicyOrNew(s, r), n)
    case CallTransferAs(_, r, _, _, _, n) => NewGrantId(PolicyOrNew(s, r), n)
    case _ => true
  }

  predicate FreshIds(groupsOf: Id -> seq<Id>, s: Policies, calls: seq<Call>)
    decreases |calls|
  {
    calls != [] ==> FreshId(s, calls[0]) && FreshIds(groupsOf, Next(groupsOf, s, calls[0]), calls[1..])
  }

  /** Every stored policy has exactly one owner grant, whose stored permissions include MANAGE, and unique grant ids. */
  ghost predicate Inv(s: Policies) {
    forall r :: r in s ==> Sound(s[r])
  }

  lemma ClaimCallKeepsInv(groupsOf: Id -> seq<Id>, s: Policies, c: Call)
    requires Inv(s) && (c.CallCreate? || c.CallClaim? || c.CallClaimFor?)
    ensures Inv(Next(groupsOf, s, c))
  {
    match c
    case CallCreate(_, o, n) =>
      if o.Ok? { ClaimsKeepSound([], o.value, n); }
    case CallClaim(u, r, n) => ClaimsKeepSound(PolicyOrNew(s, r), Principal(UserPrincipal, u), n);
    case CallClaimFor(p, r, n) => ClaimsKeepSound(PolicyOrNew(s, r), p, n);
  }

  lemma EditCallKeepsInv(groupsOf: Id -> seq<Id>, s: Policies, c: Call)
    requires Inv(s) && FreshId(s, c) && (c.CallGrant? || c.CallRevoke? || c.CallUpdateGrant?)
    ensures Inv(Next(groupsOf, s, c))
  {
    match c
    case CallGrant(caller, r, p, ps, adm, n) =>
      if GrantAccess(groupsOf, s, caller, r, p, ps, adm, n).1.Ok? {
        GrantKeepsSound(s[r], p.value, ps, CallerIds(groupsOf, s[r], caller, adm), n);
      }
    case CallRevoke(caller, r, t, ps, adm) =>
      if RevokeAccess(groupsOf, s, caller, r, t, ps, adm).1.Ok? {
        RevokeKeepsSound(s[r], t.value, ps, caller, CallerIds(groupsOf, s[r], caller, adm));
      }
    case CallUpdateGrant(caller, r, g, ps, adm) =>
      if UpdateGrant(groupsOf, s, caller, r, g, ps, adm).1.Ok? {
        UpdateKeepsSound(s[r], g, ps, CallerIds(groupsOf, s[r], caller, adm));
      }
  }

  lemma RevokeGrantKeepsInv(groupsOf: Id -> seq<Id>, s: Policies, caller: Id, r: Id, g: Id, adm: bool)
    requires Inv(s)
    ensures Inv(RevokeGrant(groupsOf, s, caller, r, g, adm).0)
  {
    if RevokeGrant(groupsOf, s, caller, r, g, adm).1.Ok? {
      var found := FindById(s[r], g).value;
      RevokeKeepsSound(s[r], found.principal.id, found.permissions, caller, CallerIds(groupsOf, s[r], caller, adm));
    }
  }

  lemma TransferKeepsInv(s: Policies, r: Id, principal: Principal, keep: set<Permission>, newId: Id)
    requires Inv(s) && NewGrantId(PolicyOrNew(s, r), newId)
    ensures Inv(Transfer(s, r, principal, keep, newId).0)
  {
    if r in s {
      TransferKeepsSound(s[r], principal, keep, newId);
    }
  }

  lemma NextKeepsInv(groupsOf: Id -> seq<Id>, s: Policies, c: Call)
    requires Inv(s) && FreshId(s, c)
    ensures Inv(Next(groupsOf, s, c))
  {
    if c.CallCreate? || c.CallClaim? || c.CallClaimFor? {
      ClaimCallKeepsInv(groupsOf, s, c);
    } else if c.CallGrant? || c.CallRevoke? || c.CallUpdateGrant? {
      EditCallKeepsInv(groupsOf, s, c);
    } else if c.CallRevokeGrant? {
      RevokeGrantKeepsInv(groupsOf, s, c.callerId, c.resource, c.grantId, c.isAdmin);
    } else if c.CallTransfer? {
      TransferKeepsInv(s, c.resource, c.heir, c.keep, c.newId);
    } else if c.CallTransferAs? && c.principal.Ok? {
      TransferKeepsInv(s, c.resource, c.principal.value, c.keep, c.newId);
    }
  }

  lemma {:induction false} RunKeepsInv(groupsOf: Id -> seq<Id>, s: Policies, calls: seq<Call>)
    requires Inv(s) && FreshIds(groupsOf, s, calls)
    ensures Inv(Run(groupsOf, s, calls))
    decreases |calls|
  {
    if calls != [] {
      NextKeepsInv(groupsOf, s, calls[0]);
      RunKeepsInv(groupsOf, Next(groupsOf, s, calls[0]), calls[1..]);
    }
  }

  // ---- disjoint user and group ids ----

  /** The principals a call brings in have the type that their id determines. */
  predicate TypedCall(kindOf: Id -> PrincipalType, c: Call) {
    match c
    case CallCreate(_, o, _) => o.Ok? ==> o.value.kind == kindOf(o.value.id)
    case CallClaim(u, _, _) => kindOf(u) == UserPrincipal
    case CallClaimFor(p, _, _) => p.kind == kindOf(p.id)
    case CallGrant(_, _, p, _, _, _) => p.Ok? ==> p.value.kind == kindOf(p.value.id)
    case CallTransfer(_, p, _, _) => p.kind == kindOf(p.id)
    case CallTransferAs(_, _, p, _, _, _) => p.Ok? ==> p.value.kind == kindOf(p.value.id)
    case _ => true
  }

  ghost predicate AllTyped(s: Policies, kindOf: Id -> PrincipalType) {
    forall r :: r in s ==> Typed(s[r], kindOf)
  }

  /** No principal id has two grants on one resource, whatever the types of the principals. */
  ghost predicate DistinctPrincipals(s: Policies) {
    forall r :: r in s ==> UniquePrincipals(s[r])
  }

  lemma ReplaceKeepsTyped(grants: Grants, g: AccessGrant, updated: AccessGrant, kindOf: Id -> PrincipalType)
    requires Typed(grants, kindOf) && UniqueGrantIds(grants) && g in grants
    requires updated.grantId == g.grantId && updated.principal == g.principal
    ensures Typed(Replace(grants, updated), kindOf)
  {
    ReplaceMembers(grants, g, updated);
  }

  lemma AskedKeepsTyped(grants: Grants, c: PolicyCall, kindOf: Id -> PrincipalType)
    requires Typed(grants, kindOf) && UniqueGrantIds(grants) && Asked(grants, c).Ok?
    requires c.AskClaim? ==> kindOf(c.userId) == UserPrincipal
    requires c.AskClaimPrincipal? || c.AskGrant? ==> c.principal.kind == kindOf(c.principal.id)
    ensures Typed(Asked(grants, c).value, kindOf)
  {
    match c
    case AskClaim(u, n) =>
    case AskClaimPrincipal(p, n) =>
      var own := FindGrant(grants, p.id);
      if own.Some? { ReplaceKeepsTyped(grants, own.value, own.value.(permissions := ALL_PERMISSIONS), kindOf); }
    case AskGrant(p, ps, ids, n) =>
      var own := FindGrant(grants, p.id);
      if own.Some? {
        ReplaceKeepsTyped(grants, own.value, own.value.(permissions := own.value.permissions + ps), kindOf);
      }
    case AskRevoke(id, ps, caller, ids) =>
      var own := FindGrant(grants, id);
      if own.Some? {
        ReplaceKeepsTyped(grants, own.value, own.value.(permissions := own.value.permissions - ps), kindOf);
      }
    case AskUpdate(g, ps, ids) =>
      var own := FindById(grants, g).value;
      ReplaceKeepsTyped(grants, own, own.(permissions := ps), kindOf);
  }

  lemma TransferKeepsTyped(grants: Grants, principal: Principal, keep: set<Permission>, newId: Id,
                           kindOf: Id -> PrincipalType)
    requires Sound(grants) && Typed(grants, kindOf) && principal.kind == kindOf(principal.id) &&
             NewGrantId(grants, newId)
    requires UniquePrincipals(grants)
    ensures TransferOwner(grants, principal, keep, newId).Ok?
    ensures Typed(TransferOwner(grants, principal, keep, newId).value, kindOf)
    ensures UniquePrincipals(TransferOwner(grants, principal, keep, newId).value)
  {
    var o :| SoleOwner(grants, o);
    var owner := FindOwner(grants).value;
    TransferKeepsUniquePrincipals(grants, principal, keep, newId);
    if owner.principal == principal {
      TransferredToSelf(grants, owner, keep);
      assert Transferred(grants, owner, principal, keep) + [] == Transferred(grants, owner, principal, keep);
    } else {
      TransferredMembers(grants, owner, principal, keep);
    }
  }

  lemma ClaimsKeepTyped(groupsOf: Id -> seq<Id>, s: Policies, c: Call, kindOf: Id -> PrincipalType)
    requires Inv(s) && AllTyped(s, kindOf) && TypedCall(kindOf, c)
    requires c.CallCreate? || c.CallClaim? || c.CallClaimFor?
    ensures AllTyped(Next(groupsOf, s, c), kindOf)
  {
    if c.CallClaimFor? && ClaimForPrincipal(s, c.claimant, c.resource, c.newId).1.Ok? {
      AskedKeepsTyped(PolicyOrNew(s, c.resource), AskClaimPrincipal(c.claimant, c.newId), kindOf);
    }
  }

  lemma EditsKeepTyped(groupsOf: Id -> seq<Id>, s: Policies, c: Call, kindOf: Id -> PrincipalType)
    requires Inv(s) && FreshId(s, c) && AllTyped(s, kindOf) && TypedCall(kindOf, c)
    requires c.CallGrant? || c.CallRevoke? || c.CallUpdateGrant?
    ensures AllTyped(Next(groupsOf, s, c), kindOf)
  {
    match c
    case CallGrant(caller, r, p, ps, adm, n) =>
      if GrantAccess(groupsOf, s, caller, r, p, ps, adm, n).1.Ok? {
        AskedKeepsTyped(s[r], AskGrant(p.value, ps, CallerIds(groupsOf, s[r], caller, adm), n), kindOf);
      }
    case CallRevoke(caller, r, t, ps, adm) =>
      if RevokeAccess(groupsOf, s, caller, r, t, ps, adm).1.Ok? {
        AskedKeepsTyped(s[r], AskRevoke(t.value, ps, caller, CallerIds(groupsOf, s[r], caller, adm)), kindOf);
      }
    case CallUpdateGrant(caller, r, g, ps, adm) =>
      if UpdateGrant(groupsOf, s, caller, r, g, ps, adm).1.Ok? {
        AskedKeepsTyped(s[r], AskUpdate(g, ps, CallerIds(groupsOf, s[r], caller, adm)), kindOf);
      }
  }

  lemma RevokeGrantKeepsTyped(groupsOf: Id -> seq<Id>, s: Policies, caller: Id, r: Id, g: Id, adm: bool,
                              kindOf: Id -> PrincipalType)
    requires Inv(s) && AllTyped(s, kindOf)
    ensures AllTyped(RevokeGrant(groupsOf, s, caller, r, g, adm).0, kindOf)
  {
    if RevokeGrant(groupsOf, s, caller, r, g, adm).1.Ok? {
      var found := FindById(s[r], g).value;
      var ids := CallerIds(groupsOf, s[r], caller, adm);
      AskedKeepsTyped(s[r], AskRevoke(found.principal.id, found.permissions, caller, ids), kindOf);
    }
  }

  // ---- one grant per principal id ----

  lemma ClaimsKeepDistinct(groupsOf: Id -> seq<Id>, s: Policies, c: Call)
    requires Inv(s) && DistinctPrincipals(s) && (c.CallCreate? || c.CallClaim? || c.CallClaimFor?)
    ensures DistinctPrincipals(Next(groupsOf, s, c))
  {
    match c
    case CallCreate(_, o, n) =>
      if o.Ok? { ClaimsKeepSound([], o.value, n); }
    case CallClaim(u, r, n) => ClaimsKeepSound(PolicyOrNew(s, r), Principal(UserPrincipal, u), n);
    case CallClaimFor(p, r, n) => ClaimsKeepSound(PolicyOrNew(s, r), p, n);
  }

  lemma EditsKeepDistinct(groupsOf: Id -> seq<Id>, s: Policies, c: Call)
    requires Inv(s) && FreshId(s, c) && DistinctPrincipals(s) && (c.CallGrant? || c.CallRevoke? || c.CallUpdateGrant?)
    ensures DistinctPrincipals(Next(groupsOf, s, c))
  {
    match c
    case CallGrant(caller, r, p, ps, adm, n) =>
      if GrantAccess(groupsOf, s, caller, r, p, ps, adm, n).1.Ok? {
        GrantKeepsSound(s[r], p.value, ps, CallerIds(groupsOf, s[r], caller, adm), n);
      }
    case CallRevoke(caller, r, t, ps, adm) =>
      if RevokeAccess(groupsOf, s, caller, r, t, ps, adm).1.Ok? {
        RevokeKeepsSound(s[r], t.value, ps, caller, CallerIds(groupsOf, s[r], caller, adm));
      }
    case CallUpdateGrant(caller, r, g, ps, adm) =>
      if UpdateGrant(groupsOf, s, caller, r, g, ps, adm).1.Ok? {
        UpdateKeepsSound(s[r], g, ps, CallerIds(groupsOf, s[r], caller, adm));
      }
  }

  lemma RevokeGrantKeepsDistinct(groupsOf: Id -> seq<Id>, s: Policies, caller: Id, r: Id, g: Id, adm: bool)
    requires Inv(s) && DistinctPrincipals(s)
    ensures DistinctPrincipals(RevokeGrant(groupsOf, s, caller, r, g, adm).0)
  {
    if RevokeGrant(groupsOf, s, caller, r, g, adm).1.Ok? {
      var found := FindById(s[r], g).value;
      RevokeKeepsSound(s[r], found.principal.id, found.permissions, caller, CallerIds(groupsOf, s[r], caller, adm));
    }
  }

  predicate IsTransfer(c: Call) {
    c.CallTransfer? || c.CallTransferAs?
  }

  /** Only a transfer can give one id a second grant. */
  lemma OnlyTransfersShareIds(groupsOf: Id -> seq<Id>, s: Policies, c: Call)
    requires Inv(s) && FreshId(s, c) && DistinctPrincipals(s) && !IsTransfer(c)
    ensures DistinctPrincipals(Next(groupsOf, s, c))
  {
    if c.CallCreate? || c.CallClaim? || c.CallClaimFor? {
      ClaimsKeepDistinct(groupsOf, s, c);
    } else if c.CallGrant? || c.CallRevoke? || c.CallUpdateGrant? {
      EditsKeepDistinct(groupsOf, s, c);
    } else if c.CallRevokeGrant? {
      RevokeGrantKeepsDistinct(groupsOf, s, c.callerId, c.resource, c.grantId, c.isAdmin);
    }
  }

  /**
   * Without a transfer no principal id ever gets a second grant on a resource, also where users and groups share ids.
   */
  lemma {:induction false} RunsWithoutTransferKeepDistinct(groupsOf: Id -> seq<Id>, s: Policies, calls: seq<Call>)
    requires Inv(s) && FreshIds(groupsOf, s, calls) && DistinctPrincipals(s)
    requires forall c :: c in calls ==> !IsTransfer(c)
    ensures DistinctPrincipals(Run(groupsOf, s, calls))
    decreases |calls|
  {
    if calls != [] {
      NextKeepsInv(groupsOf, s, calls[0]);
      OnlyTransfersShareIds(groupsOf, s, calls[0]);
      RunsWithoutTransferKeepDistinct(groupsOf, Next(groupsOf, s, calls[0]), calls[1..]);
    }
  }

  lemma TransferKeepsTypedDistinct(s: Policies, r: Id, p: Principal, keep: set<Permission>, newId: Id,
                                   kindOf: Id -> PrincipalType)
    requires Inv(s) && AllTyped(s, kindOf) && DistinctPrincipals(s)
    requires p.kind == kindOf(p.id) && NewGrantId(PolicyOrNew(s, r), newId)
    ensures AllTyped(Transfer(s, r, p, keep, newId).0, kindOf) && DistinctPrincipals(Transfer(s, r, p, keep, newId).0)
  {
    if r in s {
      TransferKeepsTyped(s[r], p, keep, newId, kindOf);
      PutKeepsTypedDistinct(s, r, TransferOwner(s[r], p, keep, newId).value, kindOf);
    }
  }

  lemma PutKeepsTypedDistinct(s: Policies, r: Id, grants: Grants, kindOf: Id -> PrincipalType)
    requires AllTyped(s, kindOf) && DistinctPrincipals(s) && Typed(grants, kindOf) && UniquePrincipals(grants)
    ensures AllTyped(s[r := grants], kindOf) && DistinctPrincipals(s[r := grants])
  {
  }

  lemma NonTransfersKeepTyped(groupsOf: Id -> seq<Id>, s: Policies, c: Call, kindOf: Id -> PrincipalType)
    requires Inv(s) && FreshId(s, c) && AllTyped(s, kindOf) && TypedCall(kindOf, c) && !IsTransfer(c)
    ensures AllTyped(Next(groupsOf, s, c), kindOf)
  {
    if c.CallCreate? || c.CallClaim? || c.CallClaimFor? {
      ClaimsKeepTyped(groupsOf, s, c, kindOf);
    } else if c.CallGrant? || c.CallRevoke? || c.CallUpdateGrant? {
      EditsKeepTyped(groupsOf, s, c, kindOf);
    } else if c.CallRevokeGrant? {
      RevokeGrantKeepsTyped(groupsOf, s, c.callerId, c.resource, c.grantId, c.isAdmin, kindOf);
    }
  }

  lemma NextKeepsOneGrantEach(groupsOf: Id -> seq<Id>, s: Policies, c: Call, kindOf: Id -> PrincipalType)
    requires Inv(s) && FreshId(s, c) && AllTyped(s, kindOf) && DistinctPrincipals(s) && TypedCall(kindOf, c)
    ensures AllTyped(Next(groupsOf, s, c), kindOf) && DistinctPrincipals(Next(groupsOf, s, c))
  {
    if c.CallTransfer? {
      TransferKeepsTypedDistinct(s, c.resource, c.heir, c.keep, c.newId, kindOf);
    } else if c.CallTransferAs? {
      if c.principal.Ok? {
        TransferKeepsTypedDistinct(s, c.resource, c.principal.value, c.keep, c.newId, kindOf);
      }
    } else {
      NonTransfersKeepTyped(groupsOf, s, c, kindOf);
      OnlyTransfersShareIds(groupsOf, s, c);
    }
  }

  /**
   * In every reachable store each policy is sound; with disjoint user and group ids no principal has two grants on it.
   */
  lemma {:induction false} RunKeepsOneGrantEach(groupsOf: Id -> seq<Id>, s: Policies, calls: seq<Call>,
                                                kindOf: Id -> PrincipalType)
    requires Inv(s) && FreshIds(groupsOf, s, calls) && AllTyped(s, kindOf) && DistinctPrincipals(s)
    requires forall c :: c in calls ==> TypedCall(kindOf, c)
    ensures Inv(Run(groupsOf, s, calls))
    ensures AllTyped(Run(groupsOf, s, calls), kindOf) && DistinctPrincipals(Run(groupsOf, s, calls))
    decreases |calls|
  {
    if calls != [] {
      NextKeepsInv(groupsOf, s, calls[0]);
      NextKeepsOneGrantEach(groupsOf, s, calls[0], kindOf);
      RunKeepsOneGrantEach(groupsOf, Next(groupsOf, s, calls[0]), calls[1..], kindOf);
    }
  }

  /** Everything else is as it was, and of this policy exactly the grant with this id is gone. */
  ghost predicate RemovesExactly(s: Policies, s': Policies, resource: Id, grantId: Id)
    requires resource in s
  {
    && s'.Keys == s.Keys
    && (forall r :: r in s && r != resource ==> s'[r] == s[r])
    && forall g :: g in s'[resource] <==> g in s[resource] && g.grantId != grantId
  }

  /**
   * revoke_grant goes through the principal id, so it removes the grant it names exactly when that is the id's first
   * grant.
   */
  lemma RevokeGrantRemovesExactly(groupsOf: Id -> seq<Id>, s: Policies, callerId: Id, resource: Id, grantId: Id,
                                  isAdmin: bool)
    requires Inv(s) && resource in s
    requires RevokeGrant(groupsOf, s, callerId, resource, grantId, isAdmin).1.Ok?
    ensures var g := FindById(s[resource], grantId).value;
      RemovesExactly(s, RevokeGrant(groupsOf, s, callerId, resource, grantId, isAdmin).0, resource, grantId) <==>
      FindGrant(s[resource], g.principal.id) == Some(g)
  {
    var g := FindById(s[resource], grantId).value;
    var after := RevokeGrant(groupsOf, s, callerId, resource, grantId, isAdmin).0[resource];
    RevokeMembers(s[resource], g.principal.id, g.permissions, callerId,
                  CallerIds(groupsOf, s[resource], callerId, isAdmin));
    var first := FindGrant(s[resource], g.principal.id).value;
    if first == g {
      forall h | h in s[resource] && h.grantId == grantId ensures h == g { SameIdSameGrant(s[resource], h, g); }
    } else {
      assert g in after;
    }
  }

  lemma {:induction false} OwnerIdsMembers(grants: Grants)
    ensures forall id :: id in OwnerIds(grants) <==> exists g :: g in grants && g.isOwner && g.principal.id == id
  {
    if grants != [] {
      OwnerIdsMembers(grants[1..]);
      assert grants == [grants[0]] + grants[1..];
    }
  }

  /** An administrator acts with the owner's ids, so on every sound policy it holds MANAGE. */
  lemma AdminsCanAlwaysManage(groupsOf: Id -> seq<Id>, grants: Grants, callerId: Id)
    requires Sound(grants)
    ensures Effective(grants, CallerIds(groupsOf, grants, callerId, true)) == ALL_PERMISSIONS
  {
    OwnerIdsMembers(grants);
    var o :| SoleOwner(grants, o);
    assert o.principal.id in OwnerIds(grants);
    forall p ensures p in ALL_PERMISSIONS { EveryPermission(p); }
    assert Held(o) == ALL_PERMISSIONS;
  }

  // ---- users without MANAGE, through the service ----

  /**
   * A call any user may make, not acting as administrator. The transfer without a caller is the one of the service
   * route, which asks for a service key, and delete_all_by_user belongs to the deletion of an account's user.
   */
  predicate MadeByUsers(users: seq<Id>, c: Call) {
    match c
    case CallCreate(_, _, _) => true
    case CallClaim(_, _, _) => true
    case CallClaimFor(_, _, _) => true
    case CallGrant(caller, _, _, _, adm, _) => caller in users && !adm
    case CallRevoke(caller, _, _, _, adm) => caller in users && !adm
    case CallRevokeGrant(caller, _, _, adm) => caller in users && !adm
    case CallUpdateGrant(caller, _, _, _, adm) => caller in users && !adm
    case CallDelete(caller, _, adm) => caller in users && !adm
    case CallTransferAs(caller, _, _, _, adm, _) => caller in users && !adm
    case CallTransfer(_, _, _, _) => false
    case CallDeleteAllByUser(_) => false
  }

  /** The ids a list of users acts with: their own and those of all their groups. */
  function ActingIds(groupsOf: Id -> seq<Id>, users: seq<Id>): seq<Id> {
    if users == [] then [] else [users[0]] + groupsOf(users[0]) + ActingIds(groupsOf, users[1..])
  }

  lemma {:induction false} ActsAsItsIds(groupsOf: Id -> seq<Id>, users: seq<Id>, user: Id)
    requires user in users
    ensures forall i :: i in [user] + groupsOf(user) ==> i in ActingIds(groupsOf, users)
  {
    if users[0] != user {
      ActsAsItsIds(groupsOf, users[1..], user);
    }
  }

  /** The operation of the aggregate that a service call performs on an existing policy, if it concerns that one. */
  function Performs(groupsOf: Id -> seq<Id>, s: Policies, c: Call, r: Id): Option<PolicyCall>
    requires r in s
  {
    match c
    case CallClaim(u, res, n) => if res == r then Some(AskClaim(u, n)) else None
    case CallClaimFor(p, res, n) => if res == r then Some(AskClaimPrincipal(p, n)) else None
    case CallGrant(caller, res, p, ps, adm, n) =>
      if res == r && p.Ok? then Some(AskGrant(p.value, ps, CallerIds(groupsOf, s[r], caller, adm), n)) else None
    case CallRevoke(caller, res, t, ps, adm) =>
      if res == r && t.Ok? then Some(AskRevoke(t.value, ps, caller, CallerIds(groupsOf, s[r], caller, adm))) else None
    case CallRevokeGrant(caller, res, g, adm) =>
      if res == r && FindById(s[r], g).Some? && !FindById(s[r], g).value.isOwner then
        Some(AskRevoke(FindById(s[r], g).value.principal.id, FindById(s[r], g).value.permissions, caller,
                       CallerIds(groupsOf, s[r], caller, adm)))
      else None
    case CallUpdateGrant(caller, res, g, ps, adm) =>
      if res == r then Some(AskUpdate(g, ps, CallerIds(groupsOf, s[r], caller, adm))) else None
    case _ => None
  }

  lemma UserCallOnPolicy(groupsOf: Id -> seq<Id>, s: Policies, users: seq<Id>, c: Call, r: Id)
    requires r in s && MadeByUsers(users, c) && Manage !in Effective(s[r], ActingIds(groupsOf, users))
    ensures r in Next(groupsOf, s, c)
    ensures var p := Performs(groupsOf, s, c, r);
      Next(groupsOf, s, c)[r] == if p.Some? then After(s[r], p.value) else s[r]
    ensures var p := Performs(groupsOf, s, c, r); p.Some? ==> MadeBy(ActingIds(groupsOf, users), p.value)
  {
    if c.CallGrant? || c.CallRevoke? || c.CallRevokeGrant? || c.CallUpdateGrant? || c.CallDelete? || c.CallTransferAs? {
      ActsAsItsIds(groupsOf, users, c.callerId);
      EffectiveMonotone(s[r], [c.callerId] + groupsOf(c.callerId), ActingIds(groupsOf, users));
    }
  }

  /**
   * Users who jointly lack MANAGE on a resource can neither delete nor transfer it nor ever widen anyone's access to
   * it.
   */
  lemma {:induction false} UsersWithoutManageGainNothing(groupsOf: Id -> seq<Id>, s: Policies, users: seq<Id>,
                                                         calls: seq<Call>, r: Id, ids: seq<Id>)
    requires r in s && Sound(s[r]) && Manage !in Effective(s[r], ActingIds(groupsOf, users))
    requires forall c :: c in calls ==> MadeByUsers(users, c)
    ensures r in Run(groupsOf, s, calls)
    ensures Effective(Run(groupsOf, s, calls)[r], ids) <= Effective(s[r], ids)
    decreases |calls|
  {
    if calls != [] {
      var s' := Next(groupsOf, s, calls[0]);
      var acting := ActingIds(groupsOf, users);
      UserCallOnPolicy(groupsOf, s, users, calls[0], r);
      var p := Performs(groupsOf, s, calls[0], r);
      if p.Some? {
        StepGainsNothing(s[r], acting, p.value);
        CoveredGainsNothing(s'[r], s[r], acting);
        CoveredGainsNothing(s'[r], s[r], ids);
      }
      UsersWithoutManageGainNothing(groupsOf, s', users, calls[1..], r, ids);
    }
  }
}
