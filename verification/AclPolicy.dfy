/** The ResourcePolicy aggregate: the grants on one resource and every operation on them. */
module AclPolicy {
  import opened Common

  datatype Permission = Read | Write | Delete | Update | Manage

  const ALL_PERMISSIONS: set<Permission> := {Read, Write, Delete, Update, Manage}

  datatype PrincipalType = UserPrincipal | GroupPrincipal

  datatype Principal = Principal(kind: PrincipalType, id: Id)

  datatype AccessGrant = AccessGrant(grantId: Id, principal: Principal, permissions: set<Permission>, isOwner: bool)

  type Grants = seq<AccessGrant>

  // ---- helpers of the aggregate ----

  /** _find_grant: the first grant of a principal id, whatever its type. */
  function FindGrant(grants: Grants, principalId: Id): (r: Option<AccessGrant>)
    ensures r.Some? ==> r.value in grants && r.value.principal.id == principalId
    ensures r.None? ==> forall g :: g in grants ==> g.principal.id != principalId
  {
    if grants == [] then None
    else if grants[0].principal.id == principalId then Some(grants[0])
    else FindGrant(grants[1..], principalId)
  }

  function FindOwner(grants: Grants): (r: Option<AccessGrant>)
    ensures r.Some? ==> r.value in grants && r.value.isOwner
    ensures r.None? ==> forall g :: g in grants ==> !g.isOwner
  {
    if grants == [] then None
    else if grants[0].isOwner then Some(grants[0])
    else FindOwner(grants[1..])
  }

  function FindById(grants: Grants, grantId: Id): (r: Option<AccessGrant>)
    ensures r.Some? ==> r.value in grants && r.value.grantId == grantId
    ensures r.None? ==> forall g :: g in grants ==> g.grantId != grantId
  {
    if grants == [] then None
    else if grants[0].grantId == grantId then Some(grants[0])
    else FindById(grants[1..], grantId)
  }

  function OwnerCount(grants: Grants): nat {
    if grants == [] then 0 else (if grants[0].isOwner then 1 else 0) + OwnerCount(grants[1..])
  }

  /** [updated if g.grant_id == updated.grant_id else g for g in grants] */
  function Replace(grants: Grants, updated: AccessGrant): Grants {
    seq(|grants|, i requires 0 <= i < |grants| => if grants[i].grantId == updated.grantId then updated else grants[i])
  }

  /** [g for g in grants if g.grant_id != id] */
  function Drop(grants: Grants, grantId: Id): (r: Grants)
    ensures forall g :: g in r <==> g in grants && g.grantId != grantId
  {
    if grants == [] then []
    else
      var g := grants[|grants| - 1];
      Drop(grants[..|grants| - 1], grantId) + if g.grantId == grantId then [] else [g]
  }

  /** What one grant is worth: an owner holds everything whatever is stored. */
  function Held(g: AccessGrant): set<Permission> {
    if g.isOwner then ALL_PERMISSIONS else g.permissions
  }

  function Effective(grants: Grants, ids: seq<Id>): set<Permission> {
    set g, p | g in grants && g.principal.id in ids && p in Held(g) :: p
  }

  lemma EffectiveAppend(grants: Grants, g: AccessGrant, ids: seq<Id>)
    ensures Effective(grants + [g], ids) == Effective(grants, ids) + if g.principal.id in ids then Held(g) else {}
  {
  }

  /** The loop of effective_permissions. */
  method EffectivePermissions(grants: Grants, ids: seq<Id>) returns (granted: set<Permission>)
    ensures granted == Effective(grants, ids)
  {
    granted := {};
    for i := 0 to |grants|
      invariant granted == Effective(grants[..i], ids)
    {
      assert grants[..i + 1] == grants[..i] + [grants[i]];
      EffectiveAppend(grants[..i], grants[i], ids);
      if grants[i].principal.id in ids {
        granted := granted + if grants[i].isOwner then ALL_PERMISSIONS else grants[i].permissions;
      }
    }
    assert grants[..|grants|] == grants;
  }

  // ---- operations ----

  function Claim(grants: Grants, userId: Id, newId: Id): Result<Grants> {
    var own := FindGrant(grants, userId);
    if own.Some? && own.value.isOwner then Ok(grants)
    else if FindOwner(grants).Some? then Err(ConflictError)
    else Ok(grants + [AccessGrant(newId, Principal(UserPrincipal, userId), ALL_PERMISSIONS, true)])
  }

  function ClaimPrincipal(grants: Grants, principal: Principal, newId: Id): Result<Grants> {
    var own := FindGrant(grants, principal.id);
    if own.Some? && own.value.isOwner then Ok(Replace(grants, own.value.(permissions := ALL_PERMISSIONS)))
    else if FindOwner(grants).Some? then Err(ConflictError)
    else Ok(grants + [AccessGrant(newId, principal, ALL_PERMISSIONS, true)])
  }

  /** What becomes of the grants when the owner's grant is handed to another principal. */
  function Transferred(grants: Grants, owner: AccessGrant, principal: Principal, keep: set<Permission>): Grants {
    if grants == [] then []
    else
      var g := grants[|grants| - 1];
      Transferred(grants[..|grants| - 1], owner, principal, keep) +
      (if g.grantId == owner.grantId then
         if g.principal == principal then [g.(permissions := ALL_PERMISSIONS, isOwner := true)]
         else if keep != {} then [g.(permissions := keep, isOwner := false)]
         else []
       else if g.principal == principal then []
       else [g])
  }

  function TransferOwner(grants: Grants, principal: Principal, keep: set<Permission>, newId: Id): Result<Grants> {
    var owner := FindOwner(grants);
    if owner.None? then Err(NotFoundError)
    else
      Ok(Transferred(grants, owner.value, principal, keep) +
         if owner.value.principal != principal then [AccessGrant(newId, principal, ALL_PERMISSIONS, true)] else [])
  }

  /** The loop of transfer_owner; an absent and an empty keep set mean the same. */
  method TransferOwnerLoop(grants: Grants, principal: Principal, keep: set<Permission>,
                           newId: Id) returns (r: Result<Grants>)
    ensures r == TransferOwner(grants, principal, keep, newId)
  {
    var owner := FindOwner(grants);
    if owner.None? {
      return Err(NotFoundError);
    }
    var newGrants := [];
    for i := 0 to |grants|
      invariant newGrants == Transferred(grants[..i], owner.value, principal, keep)
    {
      assert grants[..i + 1][..i] == grants[..i];
      var g := grants[i];
      if g.grantId == owner.value.grantId {
        if g.principal == principal {
          newGrants := newGrants + [g.(permissions := ALL_PERMISSIONS, isOwner := true)];
        } else if keep != {} {
          newGrants := newGrants + [g.(permissions := keep, isOwner := false)];
        }
        continue;
      }
      if g.principal == principal {
        continue;
      }
      newGrants := newGrants + [g];
    }
    assert grants[..|grants|] == grants;
    assert newGrants + [] == newGrants;
    if owner.value.principal != principal {
      newGrants := newGrants + [AccessGrant(newId, principal, ALL_PERMISSIONS, true)];
    }
    return Ok(newGrants);
  }

  function Grant(grants: Grants, principal: Principal, permissions: set<Permission>, callerIds: seq<Id>,
                 newId: Id): Result<Grants> {
    if Manage !in Effective(grants, callerIds) then Err(AccessDeniedError)
    else
      var existing := FindGrant(grants, principal.id);
      Ok(if existing.Some? then
           Replace(grants, existing.value.(permissions := existing.value.permissions + permissions))
         else grants + [AccessGrant(newId, principal, permissions, false)])
  }

  function Revoke(grants: Grants, principalId: Id, permissions: set<Permission>, callerId: Id,
                  callerIds: seq<Id>): Result<Grants> {
    if callerId != principalId && Manage !in Effective(grants, callerIds) then Err(AccessDeniedError)
    else
      var existing := FindGrant(grants, principalId);
      if existing.None? then Ok(grants)
      else if Manage in permissions && existing.value.isOwner && OwnerCount(grants) <= 1 then Err(ConflictError)
      else
        var remaining := existing.value.permissions - permissions;
        Ok(if remaining != {} then Replace(grants, existing.value.(permissions := remaining))
           else Drop(grants, existing.value.grantId))
  }

  function UpdateGrantPermissions(grants: Grants, grantId: Id, permissions: set<Permission>,
                                  callerIds: seq<Id>): Result<Grants> {
    if Manage !in Effective(grants, callerIds) then Err(AccessDeniedError)
    else if permissions == {} then Err(ValidationError)
    else
      var existing := FindById(grants, grantId);
      if existing.None? then Err(NotFoundError)
      else if existing.value.isOwner then Err(ConflictError)
      else Ok(Replace(grants, existing.value.(permissions := permissions)))
  }

  // ---- the invariant of every stored policy ----

  ghost predicate UniqueGrantIds(grants: Grants) {
    forall i, j :: 0 <= i < j < |grants| ==> grants[i].grantId != grants[j].grantId
  }

  /** g is the one grant with the owner flag, and its stored permissions include MANAGE. */
  ghost predicate SoleOwner(grants: Grants, g: AccessGrant) {
    && g in grants && g.isOwner && Manage in g.permissions
    && forall h :: h in grants && h.isOwner ==> h == g
  }

  /** Grant ids are unique and exactly one grant is the owner's; its stored permissions include MANAGE. */
  ghost predicate Sound(grants: Grants) {
    UniqueGrantIds(grants) && exists g :: SoleOwner(grants, g)
  }

  ghost predicate UniquePrincipals(grants: Grants) {
    forall i, j :: 0 <= i < j < |grants| ==> grants[i].principal.id != grants[j].principal.id
  }

  /** User ids and group ids are disjoint: the id of a principal determines its type. */
  ghost predicate Typed(grants: Grants, kindOf: Id -> PrincipalType) {
    forall g :: g in grants ==> g.principal.kind == kindOf(g.principal.id)
  }

  predicate NewGrantId(grants: Grants, newId: Id) {
    forall g :: g in grants ==> g.grantId != newId
  }

  predicate NewPrincipal(grants: Grants, id: Id) {
    forall g :: g in grants ==> g.principal.id != id
  }

  /** With unique grant ids the sole owner occurs once, so the owner count that revoke guards with is one. */
  lemma {:induction false} OneOwnerCount(grants: Grants, owner: AccessGrant)
    requires UniqueGrantIds(grants) && owner in grants && owner.isOwner
    requires forall h :: h in grants && h.isOwner ==> h == owner
    ensures OwnerCount(grants) == 1
  {
    if grants[0] == owner {
      forall j | 0 <= j < |grants[1..]| ensures !grants[1..][j].isOwner {
        assert grants[1..][j] == grants[j + 1];
      }
      NoOwnerCount(grants[1..]);
    } else {
      OneOwnerCount(grants[1..], owner);
    }
  }

  lemma {:induction false} NoOwnerCount(grants: Grants)
    requires forall j :: 0 <= j < |grants| ==> !grants[j].isOwner
    ensures OwnerCount(grants) == 0
  {
    if grants != [] {
      NoOwnerCount(grants[1..]);
    }
  }

  lemma SameIdSameGrant(grants: Grants, g: AccessGrant, h: AccessGrant)
    requires UniqueGrantIds(grants) && g in grants && h in grants && g.grantId == h.grantId
    ensures g == h
  {
  }

  /** Replacing touches only the grant with that id. */
  lemma ReplaceMembers(grants: Grants, g: AccessGrant, updated: AccessGrant)
    requires UniqueGrantIds(grants) && g in grants && updated.grantId == g.grantId
    ensures forall h :: h in Replace(grants, updated) <==> h == updated || (h in grants && h != g)
    ensures UniqueGrantIds(Replace(grants, updated))
    ensures UniquePrincipals(grants) && updated.principal == g.principal ==> UniquePrincipals(Replace(grants, updated))
  {
    var after := Replace(grants, updated);
    var k :| 0 <= k < |grants| && grants[k] == g;
    assert forall i :: 0 <= i < |grants| ==> after[i] == if i == k then updated else grants[i];
    forall h | h in grants && h != g ensures h in after {
      var i :| 0 <= i < |grants| && grants[i] == h;
      assert after[i] == h;
    }
    assert after[k] == updated;
  }

  lemma ReplaceKeepsSound(grants: Grants, g: AccessGrant, updated: AccessGrant)
    requires Sound(grants) && g in grants
    requires updated.grantId == g.grantId && updated.principal == g.principal && updated.isOwner == g.isOwner
    requires g.isOwner ==> Manage in updated.permissions
    ensures Sound(Replace(grants, updated))
    ensures UniquePrincipals(grants) ==> UniquePrincipals(Replace(grants, updated))
  {
    ReplaceMembers(grants, g, updated);
    var o :| SoleOwner(grants, o);
    assert SoleOwner(Replace(grants, updated), if g.isOwner then updated else o);
  }

  lemma AppendKeepsUnique(grants: Grants, g: AccessGrant)
    ensures UniqueGrantIds(grants) && NewGrantId(grants, g.grantId) ==> UniqueGrantIds(grants + [g])
    ensures UniquePrincipals(grants) && NewPrincipal(grants, g.principal.id) ==> UniquePrincipals(grants + [g])
  {
  }

  lemma FrontAndLast(grants: Grants)
    requires grants != []
    ensures grants == grants[..|grants| - 1] + [grants[|grants| - 1]]
    ensures forall g :: g in grants <==> g in grants[..|grants| - 1] || g == grants[|grants| - 1]
    ensures UniqueGrantIds(grants) ==>
              UniqueGrantIds(grants[..|grants| - 1]) && NewGrantId(grants[..|grants| - 1], grants[|grants| - 1].grantId)
    ensures UniquePrincipals(grants) ==>
      (UniquePrincipals(grants[..|grants| - 1]) &&
       NewPrincipal(grants[..|grants| - 1], grants[|grants| - 1].principal.id))
  {
    assert grants == grants[..|grants| - 1] + [grants[|grants| - 1]];
  }

  lemma {:induction false} DropKeepsUnique(grants: Grants, grantId: Id)
    ensures UniqueGrantIds(grants) ==> UniqueGrantIds(Drop(grants, grantId))
    ensures UniquePrincipals(grants) ==> UniquePrincipals(Drop(grants, grantId))
  {
    if grants != [] {
      FrontAndLast(grants);
      DropKeepsUnique(grants[..|grants| - 1], grantId);
      AppendKeepsUnique(Drop(grants[..|grants| - 1], grantId), grants[|grants| - 1]);
    }
  }

  lemma DropKeepsSound(grants: Grants, g: AccessGrant)
    requires Sound(grants) && g in grants && !g.isOwner
    ensures Sound(Drop(grants, g.grantId))
    ensures UniquePrincipals(grants) ==> UniquePrincipals(Drop(grants, g.grantId))
  {
    DropKeepsUnique(grants, g.grantId);
    var o :| SoleOwner(grants, o);
    if o.grantId == g.grantId { SameIdSameGrant(grants, o, g); }
    assert SoleOwner(Drop(grants, g.grantId), o);
  }

  lemma RevokeKeepsSound(grants: Grants, principalId: Id, permissions: set<Permission>, callerId: Id,
                         callerIds: seq<Id>)
    requires Sound(grants) && Revoke(grants, principalId, permissions, callerId, callerIds).Ok?
    ensures Sound(Revoke(grants, principalId, permissions, callerId, callerIds).value)
    ensures UniquePrincipals(grants) ==>
              UniquePrincipals(Revoke(grants, principalId, permissions, callerId, callerIds).value)
  {
    var existing := FindGrant(grants, principalId);
    if existing.Some? {
      var g := existing.value;
      var o :| SoleOwner(grants, o);
      OneOwnerCount(grants, o);
      var remaining := g.permissions - permissions;
      if g.isOwner {
        assert g == o && Manage in remaining;
      }
      if remaining != {} {
        ReplaceKeepsSound(grants, g, g.(permissions := remaining));
      } else {
        DropKeepsSound(grants, g);
      }
    }
  }

  lemma GrantKeepsSound(grants: Grants, principal: Principal, permissions: set<Permission>, callerIds: seq<Id>,
                        newId: Id)
    requires Sound(grants) && NewGrantId(grants, newId) && Grant(grants, principal, permissions, callerIds, newId).Ok?
    ensures Sound(Grant(grants, principal, permissions, callerIds, newId).value)
    ensures UniquePrincipals(grants) ==> UniquePrincipals(Grant(grants, principal, permissions, callerIds, newId).value)
  {
    var existing := FindGrant(grants, principal.id);
    if existing.Some? {
      var g := existing.value;
      if g.isOwner { OwnerHoldsManage(grants, g); }
      ReplaceKeepsSound(grants, g, g.(permissions := g.permissions + permissions));
    } else {
      var o :| SoleOwner(grants, o);
      AppendKeepsUnique(grants, AccessGrant(newId, principal, permissions, false));
      assert SoleOwner(grants + [AccessGrant(newId, principal, permissions, false)], o);
    }
  }

  lemma OwnerHoldsManage(grants: Grants, g: AccessGrant)
    requires Sound(grants) && g in grants && g.isOwner
    ensures Manage in g.permissions
  {
    var o :| SoleOwner(grants, o);
  }

  lemma UpdateKeepsSound(grants: Grants, grantId: Id, permissions: set<Permission>, callerIds: seq<Id>)
    requires Sound(grants) && UpdateGrantPermissions(grants, grantId, permissions, callerIds).Ok?
    ensures Sound(UpdateGrantPermissions(grants, grantId, permissions, callerIds).value)
    ensures UniquePrincipals(grants) ==>
              UniquePrincipals(UpdateGrantPermissions(grants, grantId, permissions, callerIds).value)
  {
    var g := FindById(grants, grantId).value;
    ReplaceKeepsSound(grants, g, g.(permissions := permissions));
  }

  /**
   * A policy is owned from its first claim on, and a claim on a sound policy changes at most the owner's stored set.
   */
  lemma ClaimsKeepSound(grants: Grants, principal: Principal, newId: Id)
    requires grants == [] || Sound(grants)
    ensures var r := Claim(grants, principal.id, newId);
      r.Ok? ==> Sound(r.value) && (UniquePrincipals(grants) ==> UniquePrincipals(r.value))
    ensures var r := ClaimPrincipal(grants, principal, newId);
      r.Ok? ==> Sound(r.value) && (UniquePrincipals(grants) ==> UniquePrincipals(r.value))
  {
    if grants == [] {
      var byUser, byPrincipal := AccessGrant(newId, Principal(UserPrincipal, principal.id), ALL_PERMISSIONS, true),
                                 AccessGrant(newId, principal, ALL_PERMISSIONS, true);
      assert grants + [byUser] == [byUser] && grants + [byPrincipal] == [byPrincipal];
      assert SoleOwner([byUser], byUser) && SoleOwner([byPrincipal], byPrincipal);
    } else {
      var o :| SoleOwner(grants, o);
      var own := FindGrant(grants, principal.id);
      if own.Some? && own.value.isOwner {
        ReplaceKeepsSound(grants, own.value, own.value.(permissions := ALL_PERMISSIONS));
      }
    }
  }

  // ---- transfer ----

  /**
   * What transfer_owner leaves behind: untouched grants of others, and the old owner's grant if permissions are kept.
   */
  ghost predicate LeftBehind(grants: Grants, owner: AccessGrant, principal: Principal, keep: set<Permission>,
                             g: AccessGrant) {
    || (g in grants && g.grantId != owner.grantId && g.principal != principal)
    || (keep != {} && owner in grants && g == owner.(permissions := keep, isOwner := false))
  }

  lemma {:induction false} TransferredMembers(grants: Grants, owner: AccessGrant, principal: Principal,
                                              keep: set<Permission>)
    requires owner.principal != principal
    requires forall h :: h in grants && h.grantId == owner.grantId ==> h == owner
    ensures forall g :: g in Transferred(grants, owner, principal, keep) <==>
            LeftBehind(grants, owner, principal, keep, g)
  {
    if grants != [] {
      FrontAndLast(grants);
      TransferredMembers(grants[..|grants| - 1], owner, principal, keep);
    }
  }

  lemma {:induction false} TransferredUnique(grants: Grants, owner: AccessGrant, principal: Principal,
                                             keep: set<Permission>)
    requires UniqueGrantIds(grants) && owner.principal != principal
    requires forall h :: h in grants && h.grantId == owner.grantId ==> h == owner
    ensures UniqueGrantIds(Transferred(grants, owner, principal, keep))
    ensures UniquePrincipals(grants) ==> UniquePrincipals(Transferred(grants, owner, principal, keep))
  {
    if grants != [] {
      var front, last := grants[..|grants| - 1], grants[|grants| - 1];
      FrontAndLast(grants);
      TransferredUnique(front, owner, principal, keep);
      TransferredMembers(front, owner, principal, keep);
      AppendKeepsUnique(Transferred(front, owner, principal, keep), last);
      AppendKeepsUnique(Transferred(front, owner, principal, keep), last.(permissions := keep, isOwner := false));
    }
  }

  /** A transfer to the present owner only restores its full permissions. */
  ghost predicate LeftWithOwner(grants: Grants, owner: AccessGrant, g: AccessGrant) {
    || (g in grants && g.grantId != owner.grantId && g.principal != owner.principal)
    || (owner in grants && g == owner.(permissions := ALL_PERMISSIONS))
  }

  lemma {:induction false} TransferredToSelf(grants: Grants, owner: AccessGrant, keep: set<Permission>)
    requires owner.isOwner
    requires forall h :: h in grants && h.grantId == owner.grantId ==> h == owner
    ensures forall g :: g in Transferred(grants, owner, owner.principal, keep) <==> LeftWithOwner(grants, owner, g)
  {
    if grants != [] {
      FrontAndLast(grants);
      TransferredToSelf(grants[..|grants| - 1], owner, keep);
    }
  }

  lemma {:induction false} TransferredToSelfUnique(grants: Grants, owner: AccessGrant, keep: set<Permission>)
    requires UniqueGrantIds(grants) && owner.isOwner
    requires forall h :: h in grants && h.grantId == owner.grantId ==> h == owner
    ensures UniqueGrantIds(Transferred(grants, owner, owner.principal, keep))
    ensures UniquePrincipals(grants) ==> UniquePrincipals(Transferred(grants, owner, owner.principal, keep))
  {
    if grants != [] {
      var front, last := grants[..|grants| - 1], grants[|grants| - 1];
      FrontAndLast(grants);
      TransferredToSelfUnique(front, owner, keep);
      TransferredToSelf(front, owner, keep);
      AppendKeepsUnique(Transferred(front, owner, owner.principal, keep), last);
      AppendKeepsUnique(Transferred(front, owner, owner.principal, keep), last.(permissions := ALL_PERMISSIONS));
    }
  }

  lemma TransferKeepsSound(grants: Grants, principal: Principal, keep: set<Permission>, newId: Id)
    requires Sound(grants) && NewGrantId(grants, newId)
    ensures TransferOwner(grants, principal, keep, newId).Ok?
    ensures Sound(TransferOwner(grants, principal, keep, newId).value)
  {
    var o :| SoleOwner(grants, o);
    var owner := FindOwner(grants).value;
    var rest := Transferred(grants, owner, principal, keep);
    if owner.principal == principal {
      TransferredToSelf(grants, owner, keep);
      TransferredToSelfUnique(grants, owner, keep);
      assert rest + [] == rest;
      assert SoleOwner(rest, owner.(permissions := ALL_PERMISSIONS));
    } else {
      var new' := AccessGrant(newId, principal, ALL_PERMISSIONS, true);
      TransferredMembers(grants, owner, principal, keep);
      TransferredUnique(grants, owner, principal, keep);
      AppendKeepsUnique(rest, new');
      assert SoleOwner(rest + [new'], new');
    }
  }

  /**
   * After a transfer no principal id has two grants exactly when no grant of another type with the new owner's id was
   * kept.
   */
  lemma TransferKeepsUniquePrincipals(grants: Grants, principal: Principal, keep: set<Permission>, newId: Id)
    requires Sound(grants) && UniquePrincipals(grants) && NewGrantId(grants, newId)
    ensures TransferOwner(grants, principal, keep, newId).Ok?
    ensures UniquePrincipals(TransferOwner(grants, principal, keep, newId).value) <==>
            forall g :: g in grants && g.principal.id == principal.id && g.principal != principal ==>
              g.isOwner && keep == {}
  {
    var o :| SoleOwner(grants, o);
    var owner := FindOwner(grants).value;
    var rest := Transferred(grants, owner, principal, keep);
    if owner.principal == principal {
      TransferredToSelf(grants, owner, keep);
      TransferredToSelfUnique(grants, owner, keep);
      assert rest + [] == rest;
    } else {
      var new' := AccessGrant(newId, principal, ALL_PERMISSIONS, true);
      TransferredMembers(grants, owner, principal, keep);
      TransferredUnique(grants, owner, principal, keep);
      AppendKeepsUnique(rest, new');
      if g :| g in grants && g.principal.id == principal.id && g.principal != principal && !(g.isOwner && keep == {}) {
        var kept := if g == owner then owner.(permissions := keep, isOwner := false) else g;
        if g != owner && g.grantId == owner.grantId { SameIdSameGrant(grants, g, owner); }
        assert LeftBehind(grants, owner, principal, keep, kept);
        var i :| 0 <= i < |rest| && rest[i] == kept;
        assert (rest + [new'])[i].principal.id == (rest + [new'])[|rest|].principal.id;
      }
    }
  }
}
