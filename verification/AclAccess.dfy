/** What the operations on a policy do to the effective permissions of principals. */
module AclAccess {
  import opened Common
  import opened AclPolicy

  lemma EveryPermission(p: Permission)
    ensures p in ALL_PERMISSIONS
  {
  }

  /** Permissions of a list of principal ids are the union over any split of the list. */
  lemma EffectiveOfConcatenation(grants: Grants, a: seq<Id>, b: seq<Id>)
    ensures Effective(grants, a + b) == Effective(grants, a) + Effective(grants, b)
  {
  }

  /** Two policies with the same grants for everyone but one id give everyone else the same permissions. */
  lemma SameForOthers(before: Grants, after: Grants, id: Id, ids: seq<Id>)
    requires forall g: AccessGrant :: g.principal.id != id ==> (g in before <==> g in after)
    requires id !in ids
    ensures Effective(before, ids) == Effective(after, ids)
  {
  }

  /** A grant adds exactly the granted permissions to the lists that name its principal, and changes no other list. */
  lemma GrantEffect(grants: Grants, principal: Principal, permissions: set<Permission>, callerIds: seq<Id>, newId: Id,
                    ids: seq<Id>)
    requires UniqueGrantIds(grants) && Grant(grants, principal, permissions, callerIds, newId).Ok?
    ensures Effective(Grant(grants, principal, permissions, callerIds, newId).value, ids) ==
            Effective(grants, ids) + if principal.id in ids then permissions else {}
  {
    var after := Grant(grants, principal, permissions, callerIds, newId).value;
    var existing := FindGrant(grants, principal.id);
    forall p ensures p in ALL_PERMISSIONS { EveryPermission(p); }
    if existing.Some? {
      var g := existing.value;
      var merged := g.(permissions := g.permissions + permissions);
      ReplaceMembers(grants, g, merged);
      assert merged in after && g in grants;
      assert Held(merged) == Held(g) + permissions;
    } else {
      EffectiveAppend(grants, AccessGrant(newId, principal, permissions, false), ids);
    }
  }

  /** Where one grant has been replaced by a new one, everything else counts as before and the new grant on top. */
  lemma EffectiveOfChanged(before: Grants, after: Grants, grantId: Id, changed: AccessGrant, ids: seq<Id>)
    requires forall h :: h in after <==> (h in before && h.grantId != grantId) || h == changed
    ensures Effective(after, ids) ==
            Effective(Drop(before, grantId), ids) + if changed.principal.id in ids then Held(changed) else {}
  {
  }

  /**
   * A revocation leaves the first grant of the id with its other permissions and every other grant as it is,
   * also where a user and a group share the id; whoever is not named keeps exactly what it had.
   */
  lemma RevokeEffect(grants: Grants, principalId: Id, permissions: set<Permission>, callerId: Id, callerIds: seq<Id>,
                     ids: seq<Id>)
    requires Sound(grants) && Revoke(grants, principalId, permissions, callerId, callerIds).Ok?
    ensures var after := Revoke(grants, principalId, permissions, callerId, callerIds).value;
      var first := FindGrant(grants, principalId);
      Effective(after, ids) ==
      if first.None? then Effective(grants, ids)
      else
        Effective(Drop(grants, first.value.grantId), ids) +
        if principalId in ids then Held(first.value.(permissions := first.value.permissions - permissions)) else {}
    ensures principalId !in ids ==>
      Effective(Revoke(grants, principalId, permissions, callerId, callerIds).value, ids) == Effective(grants, ids)
  {
    var after := Revoke(grants, principalId, permissions, callerId, callerIds).value;
    var first := FindGrant(grants, principalId);
    if first.Some? {
      var g := first.value;
      var cut := g.(permissions := g.permissions - permissions);
      RevokeMembers(grants, principalId, permissions, callerId, callerIds);
      OnlyGrantWithId(grants, g);
      if cut.permissions != {} {
        EffectiveOfChanged(grants, after, g.grantId, cut, ids);
      } else {
        assert Held(cut) == {};
        assert forall h :: h in after <==> h in Drop(grants, g.grantId);
      }
    }
    if principalId !in ids {
      SameForOthers(grants, after, principalId, ids);
    }
  }

  /** Where it is the only grant of the id, exactly the named permissions are gone, unless it is the owner's. */
  lemma RevokeFromOnlyGrant(grants: Grants, principalId: Id, permissions: set<Permission>, callerId: Id,
                            callerIds: seq<Id>)
    requires Sound(grants) && UniquePrincipals(grants)
    requires Revoke(grants, principalId, permissions, callerId, callerIds).Ok?
    ensures Effective(Revoke(grants, principalId, permissions, callerId, callerIds).value, [principalId]) ==
            if exists g :: g in grants && g.isOwner && g.principal.id == principalId then ALL_PERMISSIONS
            else Effective(grants, [principalId]) - permissions
  {
    RevokeEffect(grants, principalId, permissions, callerId, callerIds, [principalId]);
    var first := FindGrant(grants, principalId);
    if first.Some? {
      OnlyGrantOf(grants, first.value);
      OnlyGrantHolds(grants, first.value);
      NothingElse(grants, first.value);
    }
  }

  lemma OnlyGrantWithId(grants: Grants, g: AccessGrant)
    requires UniqueGrantIds(grants) && g in grants
    ensures forall h :: h in grants && h.grantId == g.grantId ==> h == g
  {
    forall h | h in grants && h.grantId == g.grantId ensures h == g { SameIdSameGrant(grants, h, g); }
  }

  lemma NothingElse(grants: Grants, g: AccessGrant)
    requires g in grants && forall h :: h in grants && h.principal.id == g.principal.id ==> h == g
    ensures Effective(Drop(grants, g.grantId), [g.principal.id]) == {}
  {
  }

  lemma OnlyGrantOf(grants: Grants, g: AccessGrant)
    requires UniquePrincipals(grants) && g in grants
    ensures forall h :: h in grants && h.principal.id == g.principal.id ==> h == g
  {
  }

  lemma OnlyGrantHolds(grants: Grants, g: AccessGrant)
    requires g in grants && forall h :: h in grants && h.principal.id == g.principal.id ==> h == g
    ensures Effective(grants, [g.principal.id]) == Held(g)
  {
  }

  /** A revocation replaces or removes the first grant of the principal; every other grant stays. */
  lemma RevokeMembers(grants: Grants, principalId: Id, permissions: set<Permission>, callerId: Id, callerIds: seq<Id>)
    requires Sound(grants) && FindGrant(grants, principalId).Some?
    requires Revoke(grants, principalId, permissions, callerId, callerIds).Ok?
    ensures var after := Revoke(grants, principalId, permissions, callerId, callerIds).value;
      var g := FindGrant(grants, principalId).value;
      var cut := g.(permissions := g.permissions - permissions);
      && (forall h :: h in after <==> (h in grants && h != g) || (h == cut && cut.permissions != {}))
      && (g.isOwner ==> cut.permissions != {})
  {
    var g := FindGrant(grants, principalId).value;
    var o :| SoleOwner(grants, o);
    OneOwnerCount(grants, o);
    if g.permissions - permissions != {} {
      ReplaceMembers(grants, g, g.(permissions := g.permissions - permissions));
    } else {
      forall h | h in grants && h.grantId == g.grantId ensures h == g { SameIdSameGrant(grants, h, g); }
    }
    assert g.isOwner ==> Manage in g.permissions - permissions;
  }

  /**
   * Editing a grant gives it exactly the new permissions; every other grant and every list without its id is unchanged.
   */
  lemma UpdateEffect(grants: Grants, grantId: Id, permissions: set<Permission>, callerIds: seq<Id>, ids: seq<Id>)
    requires UniqueGrantIds(grants) && UpdateGrantPermissions(grants, grantId, permissions, callerIds).Ok?
    ensures var after := UpdateGrantPermissions(grants, grantId, permissions, callerIds).value;
      var id := FindById(grants, grantId).value.principal.id;
      && Effective(after, ids) == Effective(Drop(grants, grantId), ids) + (if id in ids then permissions else {})
      && (id !in ids ==> Effective(after, ids) == Effective(grants, ids))
  {
    var g := FindById(grants, grantId).value;
    var updated := g.(permissions := permissions);
    var after := Replace(grants, updated);
    ReplaceMembers(grants, g, updated);
    OnlyGrantWithId(grants, g);
    EffectiveOfChanged(grants, after, grantId, updated, ids);
    if g.principal.id !in ids {
      SameForOthers(grants, after, g.principal.id, ids);
    }
  }

  /** Where it is the only grant of its principal's id, that id then holds exactly the new permissions. */
  lemma UpdateOfOnlyGrant(grants: Grants, grantId: Id, permissions: set<Permission>, callerIds: seq<Id>)
    requires UniqueGrantIds(grants) && UniquePrincipals(grants)
    requires UpdateGrantPermissions(grants, grantId, permissions, callerIds).Ok?
    ensures Effective(UpdateGrantPermissions(grants, grantId, permissions, callerIds).value,
                      [FindById(grants, grantId).value.principal.id]) == permissions
  {
    var g := FindById(grants, grantId).value;
    UpdateEffect(grants, grantId, permissions, callerIds, [g.principal.id]);
    OnlyGrantOf(grants, g);
    NothingElse(grants, g);
  }

  /** Granting to a principal without a grant and then revoking the same permissions restores the grant list. */
  lemma GrantThenRevoke(grants: Grants, principal: Principal, permissions: set<Permission>, callerId: Id,
                        callerIds: seq<Id>, newId: Id)
    requires UniqueGrantIds(grants) && NewGrantId(grants, newId) && NewPrincipal(grants, principal.id)
    requires Grant(grants, principal, permissions, callerIds, newId).Ok?
    ensures var granted := Grant(grants, principal, permissions, callerIds, newId).value;
      Revoke(granted, principal.id, permissions, callerId, callerIds) == Ok(grants)
  {
    var granted := AccessGrant(newId, principal, permissions, false);
    GrantEffect(grants, principal, permissions, callerIds, newId, callerIds);
    FindLast(grants, granted);
    DropLast(grants, granted);
    assert permissions - permissions == {};
  }

  lemma FindLast(grants: Grants, g: AccessGrant)
    requires NewPrincipal(grants, g.principal.id)
    ensures FindGrant(grants + [g], g.principal.id) == Some(g)
  {
    assert (grants + [g])[|grants|] == g;
  }

  lemma DropLast(grants: Grants, g: AccessGrant)
    requires NewGrantId(grants, g.grantId)
    ensures Drop(grants + [g], g.grantId) == grants
  {
    DropNothing(grants, g.grantId);
    assert (grants + [g])[..|grants|] == grants;
  }

  lemma {:induction false} DropNothing(grants: Grants, grantId: Id)
    requires NewGrantId(grants, grantId)
    ensures Drop(grants, grantId) == grants
  {
    if grants != [] {
      FrontAndLast(grants);
      DropNothing(grants[..|grants| - 1], grantId);
    }
  }

  /** The grants that a transfer does not touch. */
  function Others(grants: Grants, owner: AccessGrant, principal: Principal): (r: Grants)
    ensures forall g :: g in r <==> g in grants && g.grantId != owner.grantId && g.principal != principal
  {
    if grants == [] then []
    else
      var g := grants[|grants| - 1];
      Others(grants[..|grants| - 1], owner, principal) +
      if g.grantId != owner.grantId && g.principal != principal then [g] else []
  }

  /**
   * After a transfer the new owner holds everything, the old one what was kept, and every other grant counts as before,
   * also where a user and a group share an id; lists that name neither owner are unchanged.
   */
  lemma TransferEffect(grants: Grants, principal: Principal, keep: set<Permission>, newId: Id, ids: seq<Id>)
    requires Sound(grants) && NewGrantId(grants, newId)
    ensures TransferOwner(grants, principal, keep, newId).Ok?
    ensures var after := TransferOwner(grants, principal, keep, newId).value;
      var owner := FindOwner(grants).value;
      && Effective(after, ids) == Effective(Others(grants, owner, principal), ids) +
                                  (if principal.id in ids then ALL_PERMISSIONS else {}) +
                                  (if owner.principal != principal && owner.principal.id in ids then keep else {})
      && (owner.principal.id !in ids && principal.id !in ids ==> Effective(after, ids) == Effective(grants, ids))
  {
    var o :| SoleOwner(grants, o);
    var owner := FindOwner(grants).value;
    OnlyGrantWithId(grants, owner);
    var rest := Transferred(grants, owner, principal, keep);
    if owner.principal == principal {
      TransferredToSelf(grants, owner, keep);
      assert rest + [] == rest;
      TransferToSelfEffect(grants, rest, owner, ids);
    } else {
      TransferredMembers(grants, owner, principal, keep);
      var after := rest + [AccessGrant(newId, principal, ALL_PERMISSIONS, true)];
      TransferAwayEffect(grants, after, owner, principal, keep, newId, ids);
    }
  }

  lemma TransferToSelfEffect(grants: Grants, after: Grants, owner: AccessGrant, ids: seq<Id>)
    requires owner in grants && owner.isOwner && OnlyOneWithId(grants, owner)
    requires forall g :: g in after <==> LeftWithOwner(grants, owner, g)
    ensures Effective(after, ids) == Effective(Others(grants, owner, owner.principal), ids) +
                                     if owner.principal.id in ids then ALL_PERMISSIONS else {}
    ensures owner.principal.id !in ids ==> Effective(after, ids) == Effective(grants, ids)
  {
    var restored := owner.(permissions := ALL_PERMISSIONS);
    assert restored in after && Held(restored) == ALL_PERMISSIONS;
    forall g | g in Others(grants, owner, owner.principal) ensures g in after {
      assert LeftWithOwner(grants, owner, g);
    }
    if owner.principal.id !in ids {
      SameForOthers(grants, after, owner.principal.id, ids);
    }
  }

  ghost predicate OnlyOneWithId(grants: Grants, g: AccessGrant) {
    forall h :: h in grants && h.grantId == g.grantId ==> h == g
  }

  lemma TransferAwayEffect(grants: Grants, after: Grants, owner: AccessGrant, principal: Principal,
                           keep: set<Permission>, newId: Id, ids: seq<Id>)
    requires owner in grants && owner.principal != principal && OnlyOneWithId(grants, owner)
    requires forall g :: g in after <==>
      LeftBehind(grants, owner, principal, keep, g) || g == AccessGrant(newId, principal, ALL_PERMISSIONS, true)
    ensures Effective(after, ids) == Effective(Others(grants, owner, principal), ids) +
                                     (if principal.id in ids then ALL_PERMISSIONS else {}) +
                                     (if owner.principal.id in ids then keep else {})
    ensures owner.principal.id !in ids && principal.id !in ids ==> Effective(after, ids) == Effective(grants, ids)
  {
    var new' := AccessGrant(newId, principal, ALL_PERMISSIONS, true);
    var kept := owner.(permissions := keep, isOwner := false);
    assert new' in after && Held(new') == ALL_PERMISSIONS && Held(kept) == keep;
    if keep != {} {
      assert LeftBehind(grants, owner, principal, keep, kept);
    }
    forall g | g in Others(grants, owner, principal) ensures g in after {
      assert LeftBehind(grants, owner, principal, keep, g);
    }
    if owner.principal.id !in ids && principal.id !in ids {
      SameForThese(grants, after, ids);
    }
  }

  /** Where no other grant carries the two ids, the new owner holds everything and the old one exactly what was kept. */
  lemma TransferBetweenOnlyGrants(grants: Grants, principal: Principal, keep: set<Permission>, newId: Id)
    requires Sound(grants) && UniquePrincipals(grants) && NewGrantId(grants, newId)
    ensures TransferOwner(grants, principal, keep, newId).Ok?
    ensures var after := TransferOwner(grants, principal, keep, newId).value;
      var owner := FindOwner(grants).value;
      && Effective(after, [principal.id]) == ALL_PERMISSIONS
      && (owner.principal.id != principal.id ==> Effective(after, [owner.principal.id]) == keep)
  {
    TransferEffect(grants, principal, keep, newId, [principal.id]);
    forall p ensures p in ALL_PERMISSIONS { EveryPermission(p); }
    var o :| SoleOwner(grants, o);
    var owner := FindOwner(grants).value;
    TransferEffect(grants, principal, keep, newId, [owner.principal.id]);
    OnlyGrantOf(grants, owner);
    assert Effective(Others(grants, owner, principal), [owner.principal.id]) == {};
  }

  lemma SameForThese(before: Grants, after: Grants, ids: seq<Id>)
    requires forall g: AccessGrant :: g.principal.id in ids ==> (g in before <==> g in after)
    ensures Effective(before, ids) == Effective(after, ids)
  {
  }

  // ---- callers without MANAGE ----

  /** An operation on one policy, as a caller asks for it. */
  datatype PolicyCall =
    | AskClaim(userId: Id, newId: Id)
    | AskClaimPrincipal(principal: Principal, newId: Id)
    | AskGrant(principal: Principal, permissions: set<Permission>, callerIds: seq<Id>, newId: Id)
    | AskRevoke(principalId: Id, permissions: set<Permission>, callerId: Id, callerIds: seq<Id>)
    | AskUpdate(grantId: Id, permissions: set<Permission>, callerIds: seq<Id>)

  function Asked(grants: Grants, c: PolicyCall): Result<Grants> {
    match c
    case AskClaim(u, n) => Claim(grants, u, n)
    case AskClaimPrincipal(p, n) => ClaimPrincipal(grants, p, n)
    case AskGrant(p, ps, ids, n) => Grant(grants, p, ps, ids, n)
    case AskRevoke(id, ps, caller, ids) => Revoke(grants, id, ps, caller, ids)
    case AskUpdate(g, ps, ids) => UpdateGrantPermissions(grants, g, ps, ids)
  }

  /** A rejected operation leaves the policy as it was. */
  function After(grants: Grants, c: PolicyCall): Grants {
    var r := Asked(grants, c);
    if r.Ok? then r.value else grants
  }

  function AfterAll(grants: Grants, calls: seq<PolicyCall>): Grants
    decreases |calls|
  {
    if calls == [] then grants else AfterAll(After(grants, calls[0]), calls[1..])
  }

  /** The call presents only ids of the coalition; a claim may name anyone. */
  predicate MadeBy(coalition: seq<Id>, c: PolicyCall) {
    match c
    case AskClaim(_, _) => true
    case AskClaimPrincipal(_, _) => true
    case AskGrant(_, _, ids, _) => forall i :: i in ids ==> i in coalition
    case AskRevoke(_, _, caller, ids) => caller in coalition && forall i :: i in ids ==> i in coalition
    case AskUpdate(_, _, ids) => forall i :: i in ids ==> i in coalition
  }

  lemma EffectiveMonotone(grants: Grants, a: seq<Id>, b: seq<Id>)
    requires forall i :: i in a ==> i in b
    ensures Effective(grants, a) <= Effective(grants, b)
  {
  }

  /** Every grant afterwards is covered by one of the same principal before, so nobody gains anything. */
  ghost predicate Covered(after: Grants, before: Grants) {
    forall g :: g in after ==> exists h :: h in before && h.principal.id == g.principal.id && Held(g) <= Held(h)
  }

  lemma CoveredGainsNothing(after: Grants, before: Grants, ids: seq<Id>)
    requires Covered(after, before)
    ensures Effective(after, ids) <= Effective(before, ids)
  {
    forall p | p in Effective(after, ids) ensures p in Effective(before, ids) {
      var g :| g in after && g.principal.id in ids && p in Held(g);
      var h :| h in before && h.principal.id == g.principal.id && Held(g) <= Held(h);
    }
  }

  lemma OwnerInNobodysHands(grants: Grants, coalition: seq<Id>, g: AccessGrant)
    requires Manage !in Effective(grants, coalition) && g in grants && g.principal.id in coalition
    ensures !g.isOwner
  {
    EveryPermission(Manage);
    assert g.isOwner ==> Manage in Held(g);
  }

  /** One call by a coalition without MANAGE: the policy stays sound and no list of principals gains a permission. */
  lemma StepGainsNothing(grants: Grants, coalition: seq<Id>, c: PolicyCall)
    requires Sound(grants) && Manage !in Effective(grants, coalition) && MadeBy(coalition, c)
    ensures Sound(After(grants, c)) && Covered(After(grants, c), grants)
  {
    match c
    case AskClaim(u, n) =>
      ClaimsKeepSound(grants, Principal(UserPrincipal, u), n);
      var o :| SoleOwner(grants, o);
    case AskClaimPrincipal(p, n) =>
      ClaimsKeepSound(grants, p, n);
      var o :| SoleOwner(grants, o);
      var own := FindGrant(grants, p.id);
      if own.Some? && own.value.isOwner {
        ReplaceMembers(grants, own.value, own.value.(permissions := ALL_PERMISSIONS));
      }
    case AskGrant(_, _, ids, _) =>
      EffectiveMonotone(grants, ids, coalition);
    case AskUpdate(_, _, ids) =>
      EffectiveMonotone(grants, ids, coalition);
    case AskRevoke(id, ps, caller, ids) =>
      EffectiveMonotone(grants, ids, coalition);
      if Asked(grants, c).Ok? {
        RevokeKeepsSound(grants, id, ps, caller, ids);
        if FindGrant(grants, id).Some? {
          RevokeMembers(grants, id, ps, caller, ids);
          OwnerInNobodysHands(grants, coalition, FindGrant(grants, id).value);
        }
      }
  }

  /** However long a coalition without MANAGE keeps calling, no list of principals ever gains a permission. */
  lemma {:induction false} CoalitionGainsNothing(grants: Grants, coalition: seq<Id>, calls: seq<PolicyCall>,
                                                 ids: seq<Id>)
    requires Sound(grants) && Manage !in Effective(grants, coalition)
    requires forall c :: c in calls ==> MadeBy(coalition, c)
    ensures Sound(AfterAll(grants, calls))
    ensures Effective(AfterAll(grants, calls), ids) <= Effective(grants, ids)
    decreases |calls|
  {
    if calls != [] {
      var next := After(grants, calls[0]);
      StepGainsNothing(grants, coalition, calls[0]);
      CoveredGainsNothing(next, grants, coalition);
      CoveredGainsNothing(next, grants, ids);
      CoalitionGainsNothing(next, coalition, calls[1..], ids);
    }
  }
}
