/**
 * A run of service calls after which a user and a group with one id both hold a grant, and what revoke_grant does then.
 */
module AclSharedIds {
  import opened Common
  import opened AclPolicy
  import opened AclAccess
  import opened AclStore

  const OWNER: Principal := Principal(UserPrincipal, "owner")
  const USER_X: Principal := Principal(UserPrincipal, "x")
  const GROUP_X: Principal := Principal(GroupPrincipal, "x")

  const CREATED: AccessGrant := AccessGrant("1", OWNER, ALL_PERMISSIONS, true)
  const USERS_GRANT: AccessGrant := AccessGrant("2", USER_X, {Read}, false)
  const GROUP_OWNS: AccessGrant := AccessGrant("3", GROUP_X, ALL_PERMISSIONS, true)
  const GROUPS_GRANT: AccessGrant := AccessGrant("3", GROUP_X, {Read}, false)
  const OWNERS_GRANT: AccessGrant := AccessGrant("4", OWNER, ALL_PERMISSIONS, true)

  /** The owner shares the resource with the user, hands it to the group, and is handed it back by an administrator. */
  const CALLS: seq<Call> := [
    CallCreate("r", Ok(OWNER), "1"),
    CallGrant("owner", "r", Ok(USER_X), {Read}, false, "2"),
    CallTransfer("r", GROUP_X, {Read}, "3"),
    CallTransfer("r", OWNER, {Read}, "4")]

  /** The policy of the resource after each call. */
  const AFTER_CREATE: Grants := [CREATED]
  const AFTER_GRANT: Grants := [CREATED, USERS_GRANT]
  const AFTER_TRANSFER: Grants := [CREATED.(permissions := {Read}, isOwner := false), USERS_GRANT, GROUP_OWNS]
  const AFTER_RETURN: Grants := [USERS_GRANT, GROUPS_GRANT, OWNERS_GRANT]

  lemma Created(groupsOf: Id -> seq<Id>)
    ensures FreshId(map[], CALLS[0]) && Next(groupsOf, map[], CALLS[0]) == map["r" := AFTER_CREATE]
  {
    var none: Grants := [];
    assert Strip("r") == "r";
    assert FindGrant(none, "owner") == None && FindOwner(none) == None && none + [CREATED] == AFTER_CREATE;
    assert ClaimPrincipal(none, OWNER, "1") == Ok(AFTER_CREATE);
  }

  lemma Granted(groupsOf: Id -> seq<Id>)
    ensures FreshId(map["r" := AFTER_CREATE], CALLS[1])
    ensures Next(groupsOf, map["r" := AFTER_CREATE], CALLS[1]) == map["r" := AFTER_GRANT]
  {
    var callers := CallerIds(groupsOf, AFTER_CREATE, "owner", false);
    EveryPermission(Manage);
    assert CREATED in AFTER_CREATE && Manage in Held(CREATED) && "owner" in callers;
    assert Manage in Effective(AFTER_CREATE, callers);
    assert FindGrant(AFTER_CREATE, "x") == None && AFTER_CREATE + [USERS_GRANT] == AFTER_GRANT;
    assert Grant(AFTER_CREATE, USER_X, {Read}, callers, "2") == Ok(AFTER_GRANT);
  }

  lemma TransferredToGroup()
    ensures TransferOwner(AFTER_GRANT, GROUP_X, {Read}, "3") == Ok(AFTER_TRANSFER) && NewGrantId(AFTER_GRANT, "3")
  {
    var kept := CREATED.(permissions := {Read}, isOwner := false);
    assert FindOwner(AFTER_GRANT) == Some(CREATED);
    assert AFTER_GRANT[..1] == [CREATED] && [CREATED][..0] == [];
    assert Transferred([CREATED], CREATED, GROUP_X, {Read}) == [kept];
    assert Transferred(AFTER_GRANT, CREATED, GROUP_X, {Read}) == [kept, USERS_GRANT];
    assert [kept, USERS_GRANT] + [GROUP_OWNS] == AFTER_TRANSFER;
  }

  lemma TransferredBack()
    ensures TransferOwner(AFTER_TRANSFER, OWNER, {Read}, "4") == Ok(AFTER_RETURN) && NewGrantId(AFTER_TRANSFER, "4")
  {
    var kept := AFTER_TRANSFER[0];
    var rest := AFTER_TRANSFER[1..];
    assert rest == [USERS_GRANT, GROUP_OWNS] && rest[1..] == [GROUP_OWNS];
    assert FindOwner(rest[1..]) == FindOwner(rest) == FindOwner(AFTER_TRANSFER) == Some(GROUP_OWNS);
    assert AFTER_TRANSFER[..2] == [kept, USERS_GRANT] && AFTER_TRANSFER[..2][..1] == [kept] && [kept][..0] == [];
    assert Transferred([kept], GROUP_OWNS, OWNER, {Read}) == [];
    assert Transferred(AFTER_TRANSFER[..2], GROUP_OWNS, OWNER, {Read}) == [USERS_GRANT];
    assert Transferred(AFTER_TRANSFER, GROUP_OWNS, OWNER, {Read}) == [USERS_GRANT, GROUPS_GRANT];
    assert [USERS_GRANT, GROUPS_GRANT] + [OWNERS_GRANT] == AFTER_RETURN;
  }

  lemma TransferStep(groupsOf: Id -> seq<Id>, before: Grants, after: Grants, heir: Principal, newId: Id)
    requires TransferOwner(before, heir, {Read}, newId) == Ok(after) && NewGrantId(before, newId)
    ensures FreshId(map["r" := before], CallTransfer("r", heir, {Read}, newId))
    ensures Next(groupsOf, map["r" := before], CallTransfer("r", heir, {Read}, newId)) == map["r" := after]
  {
  }

  /** A run is its first call and then the run of the others. */
  lemma OneMoreStep(groupsOf: Id -> seq<Id>, s: Policies, c: Call, rest: seq<Call>)
    ensures Run(groupsOf, s, [c] + rest) == Run(groupsOf, Next(groupsOf, s, c), rest)
    ensures FreshIds(groupsOf, s, [c] + rest) <==> FreshId(s, c) && FreshIds(groupsOf, Next(groupsOf, s, c), rest)
  {
    assert ([c] + rest)[1..] == rest;
  }

  lemma FourSteps(groupsOf: Id -> seq<Id>, s0: Policies, s1: Policies, s2: Policies, s3: Policies, s4: Policies,
                  c0: Call, c1: Call, c2: Call, c3: Call)
    requires FreshId(s0, c0) && Next(groupsOf, s0, c0) == s1
    requires FreshId(s1, c1) && Next(groupsOf, s1, c1) == s2
    requires FreshId(s2, c2) && Next(groupsOf, s2, c2) == s3
    requires FreshId(s3, c3) && Next(groupsOf, s3, c3) == s4
    ensures FreshIds(groupsOf, s0, [c0, c1, c2, c3]) && Run(groupsOf, s0, [c0, c1, c2, c3]) == s4
  {
    var none: seq<Call> := [];
    OneMoreStep(groupsOf, s3, c3, none);
    OneMoreStep(groupsOf, s2, c2, [c3] + none);
    OneMoreStep(groupsOf, s1, c1, [c2] + ([c3] + none));
    OneMoreStep(groupsOf, s0, c0, [c1] + ([c2] + ([c3] + none)));
    assert [c0] + ([c1] + ([c2] + ([c3] + none))) == [c0, c1, c2, c3];
  }

  lemma RunsToSharedIds(groupsOf: Id -> seq<Id>)
    ensures FreshIds(groupsOf, map[], CALLS)
    ensures Run(groupsOf, map[], CALLS) == map["r" := AFTER_RETURN]
  {
    Created(groupsOf);
    Granted(groupsOf);
    TransferredToGroup();
    TransferStep(groupsOf, AFTER_GRANT, AFTER_TRANSFER, GROUP_X, "3");
    TransferredBack();
    TransferStep(groupsOf, AFTER_TRANSFER, AFTER_RETURN, OWNER, "4");
    FourSteps(groupsOf, map[], map["r" := AFTER_CREATE], map["r" := AFTER_GRANT], map["r" := AFTER_TRANSFER],
              map["r" := AFTER_RETURN], CALLS[0], CALLS[1], CALLS[2], CALLS[3]);
  }

  lemma GroupsGrantIsFound()
    ensures FindById(AFTER_RETURN, GROUPS_GRANT.grantId) == Some(GROUPS_GRANT)
  {
    assert AFTER_RETURN[1..] == [GROUPS_GRANT, OWNERS_GRANT];
    assert FindById(AFTER_RETURN[1..], "3") == FindById(AFTER_RETURN, "3") == Some(GROUPS_GRANT);
  }

  lemma RevokeFindsTheFirst(callers: seq<Id>)
    requires "owner" in callers
    ensures Revoke(AFTER_RETURN, "x", {Read}, "owner", callers) == Ok([GROUPS_GRANT, OWNERS_GRANT])
  {
    EveryPermission(Manage);
    assert AFTER_RETURN[2] in AFTER_RETURN && Manage in Held(OWNERS_GRANT);
    assert Manage in Effective(AFTER_RETURN, callers);
    assert FindGrant(AFTER_RETURN, "x") == Some(USERS_GRANT);
    assert AFTER_RETURN[..2] == [USERS_GRANT, GROUPS_GRANT] && AFTER_RETURN[..2][..1] == [USERS_GRANT];
    assert [USERS_GRANT][..0] == [];
    assert Drop([USERS_GRANT], "2") == [];
    assert Drop(AFTER_RETURN[..2], "2") == [GROUPS_GRANT];
    assert Drop(AFTER_RETURN, "2") == [GROUPS_GRANT, OWNERS_GRANT];
  }

  /** revoke_grant saves what revoking through the principal id leaves. */
  lemma RevokeThrough(groupsOf: Id -> seq<Id>, grants: Grants, g: AccessGrant, after: Grants)
    requires FindById(grants, g.grantId) == Some(g) && !g.isOwner
    requires var callers := CallerIds(groupsOf, grants, "owner", false);
      Revoke(grants, g.principal.id, g.permissions, "owner", callers) == Ok(after)
    ensures RevokeGrant(groupsOf, map["r" := grants], "owner", "r", g.grantId, false) == (map["r" := after], Ok(true))
  {
    assert map["r" := grants]["r" := after] == map["r" := after];
  }

  /**
   * Four calls lead from the empty store to a policy where revoking the group's grant takes away the user's instead.
   */
  lemma RevokeGrantCanMissItsGrant(groupsOf: Id -> seq<Id>)
    ensures FreshIds(groupsOf, map[], CALLS)
    ensures Run(groupsOf, map[], CALLS) == map["r" := AFTER_RETURN]
    ensures RevokeGrant(groupsOf, Run(groupsOf, map[], CALLS), "owner", "r", GROUPS_GRANT.grantId, false) ==
            (map["r" := [GROUPS_GRANT, OWNERS_GRANT]], Ok(true))
  {
    RunsToSharedIds(groupsOf);
    GroupsGrantIsFound();
    RevokeFindsTheFirst(CallerIds(groupsOf, AFTER_RETURN, "owner", false));
    RevokeThrough(groupsOf, AFTER_RETURN, GROUPS_GRANT, [GROUPS_GRANT, OWNERS_GRANT]);
  }
}
