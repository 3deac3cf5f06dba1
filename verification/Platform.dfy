/** Platform users: bootstrap, administration and passwords, guarded so that an administrator always remains. */
module Platform {
  import opened Common

  datatype Role = Admin | Member | Guest

  /** The dotted permission values; a value that ends in ".read" is read-only. */
  datatype Area =
    | Accounts | PlatformUsers | ApiKeys | Users | Scopes | Licenses
    | Acl | Groups | Rbac | Abac | Ngac | AuditTrail

  datatype Permission = ReadOf(area: Area) | ManageOf(area: Area)

  predicate ReadOnly(p: Permission) {
    p.ReadOf?
  }

  datatype User = User(
    username: string,
    passwordHash: string,
    role: Role,
    permissions: set<Permission>,
    allowedAccounts: set<Id>,
    isActive: bool,
    mustChangePassword: bool)

  type UserMap = map<Id, User>

  /** hash_value and verify_password; the salt of a hash is part of the call. */
  datatype Env = Env(hash: string -> string, verifies: (string, string) -> bool)

  predicate ActiveAdmin(u: User) {
    u.role == Admin && u.isActive
  }

  function ActiveAdmins(users: UserMap): set<Id> {
    set id | id in users && ActiveAdmin(users[id])
  }

  function PermissionsForRole(role: Role, permissions: set<Permission>): set<Permission> {
    match role
    case Admin => {}
    case Guest => set p | p in permissions && ReadOnly(p)
    case Member => permissions
  }

  function NormalizeUsername(username: string): string {
    Lower(Strip(username))
  }

  predicate PasswordTooShort(password: string) {
    |password| < 12
  }

  predicate NameTaken(users: UserMap, username: string) {
    exists id :: id in users && users[id].username == username
  }

  // ---- the invariant ----

  predicate GuestsReadOnly(users: UserMap) {
    forall id, p :: id in users && users[id].role == Guest && p in users[id].permissions ==> ReadOnly(p)
  }

  predicate UsernamesUnique(users: UserMap) {
    forall i, j | i in users && j in users && users[i].username == users[j].username :: i == j
  }

  predicate NormalName(name: string) {
    NormalizeUsername(name) == name && |name| >= 3
  }

  /** Every stored username is one that authenticate can look for. */
  predicate UsernamesNormal(users: UserMap) {
    forall id :: id in users ==> NormalName(users[id].username)
  }

  /** At least one active administrator, no guest with more than read permissions, no username twice or unusable. */
  predicate Inv(users: UserMap) {
    ActiveAdmins(users) != {} && GuestsReadOnly(users) && UsernamesUnique(users) && UsernamesNormal(users)
  }

  // ---- steps ----

  function Bootstrap(env: Env, users: UserMap, newId: Id, username: string,
                     password: string): (UserMap, Result<Option<User>>) {
    if |users| > 0 then (users, Ok(None))
    else if |NormalizeUsername(username)| < 3 then (users, Err(ValidationError))
    else if password == "" || PasswordTooShort(password) then (users, Err(ValidationError))
    else
      var user := User(NormalizeUsername(username), env.hash(password), Admin, {}, {}, true, true);
      (users[newId := user], Ok(Some(user)))
  }

  function Create(env: Env, users: UserMap, newId: Id, username: string, password: string, role: Role,
                  permissions: set<Permission>, accounts: set<Id>, mustChange: bool): (UserMap, Result<User>)
  {
    var name := NormalizeUsername(username);
    if |name| < 3 || PasswordTooShort(password) then (users, Err(ValidationError))
    else if NameTaken(users, name) then (users, Err(AlreadyExistsError))
    else
      var user := User(name, env.hash(password), role, PermissionsForRole(role, permissions), accounts, true,
                       mustChange);
      (users[newId := user], Ok(user))
  }

  function Or<T>(o: Option<T>, default: T): T {
    if o.Some? then o.value else default
  }

  function Updated(user: User, role: Option<Role>, permissions: Option<set<Permission>>, accounts: Option<set<Id>>,
                   isActive: Option<bool>): User {
    var nextRole := Or(role, user.role);
    user.(
      role := nextRole,
      isActive := Or(isActive, user.isActive),
      permissions :=
        if permissions.Some? then PermissionsForRole(nextRole, permissions.value)
        else if nextRole == Guest then PermissionsForRole(Guest, user.permissions)
        else user.permissions,
      allowedAccounts := Or(accounts, user.allowedAccounts))
  }

  /** The guard counts active administrators and refuses to take away the last one. */
  function Update(users: UserMap, id: Id, role: Option<Role>, permissions: Option<set<Permission>>,
                  accounts: Option<set<Id>>,
                  isActive: Option<bool>): (UserMap, Result<User>)
  {
    if id !in users then (users, Err(NotFoundError))
    else
      var next := Updated(users[id], role, permissions, accounts, isActive);
      if ActiveAdmin(users[id]) && !ActiveAdmin(next) && |ActiveAdmins(users)| <= 1 then (users, Err(ConflictError))
      else (users[id := next], Ok(next))
  }

  function Delete(users: UserMap, id: Id): (UserMap, Result<bool>) {
    if id !in users then (users, Err(NotFoundError))
    else if ActiveAdmin(users[id]) && |ActiveAdmins(users)| <= 1 then (users, Err(ConflictError))
    else (users - {id}, Ok(true))
  }

  function ChangePassword(env: Env, users: UserMap, id: Id, current: string, new': string): (UserMap, Result<User>) {
    if id !in users then (users, Err(NotFoundError))
    else if !env.verifies(users[id].passwordHash, current) then (users, Err(UnauthorizedError))
    else if PasswordTooShort(new') || current == new' then (users, Err(ValidationError))
    else
      var user := users[id].(passwordHash := env.hash(new'), mustChangePassword := false);
      (users[id := user], Ok(user))
  }

  function ResetPassword(env: Env, users: UserMap, id: Id, password: string): (UserMap, Result<User>) {
    if id !in users then (users, Err(NotFoundError))
    else if PasswordTooShort(password) then (users, Err(ValidationError))
    else
      var user := users[id].(passwordHash := env.hash(password), mustChangePassword := true);
      (users[id := user], Ok(user))
  }

  // ---- runs ----

  datatype Call =
    | CallBootstrap(newId: Id, username: string, password: string)
    | CallCreate(newId: Id, username: string, password: string, role: Role, permissions: set<Permission>,
                 accounts: set<Id>, mustChange: bool)
    | CallUpdate(id: Id, newRole: Option<Role>, newPermissions: Option<set<Permission>>, newAccounts: Option<set<Id>>,
                 isActive: Option<bool>)
    | CallChangePassword(id: Id, current: string, new': string)
    | CallResetPassword(id: Id, password: string)
    | CallAuthenticate(username: string, password: string)
    | CallDelete(id: Id)

  /** Authenticating only stamps the login time, which is not part of the model. */
  function Next(env: Env, users: UserMap, c: Call): UserMap {
    match c
    case CallBootstrap(n, u, p) => Bootstrap(env, users, n, u, p).0
    case CallCreate(n, u, p, r, ps, a, b) => Create(env, users, n, u, p, r, ps, a, b).0
    case CallUpdate(id, r, ps, a, b) => Update(users, id, r, ps, a, b).0
    case CallChangePassword(id, o, n) => ChangePassword(env, users, id, o, n).0
    case CallResetPassword(id, p) => ResetPassword(env, users, id, p).0
    case CallAuthenticate(_, _) => users
    case CallDelete(id) => Delete(users, id).0
  }

  predicate FreshId(users: UserMap, c: Call) {
    c.CallBootstrap? || c.CallCreate? ==> c.newId !in users
  }

  predicate FreshIds(env: Env, users: UserMap, calls: seq<Call>)
    decreases |calls|
  {
    calls != [] ==> FreshId(users, calls[0]) && FreshIds(env, Next(env, users, calls[0]), calls[1..])
  }

  function Run(env: Env, users: UserMap, calls: seq<Call>): UserMap
    decreases |calls|
  {
    if calls == [] then users else Run(env, Next(env, users, calls[0]), calls[1..])
  }

  // ---- what a user may do ----

  /** PlatformUser.effective_permissions, which filters for guests once more. */
  function EffectivePermissions(u: User): set<Permission> {
    match u.role
    case Admin => (set a: Area :: ReadOf(a)) + (set a: Area | a != AuditTrail :: ManageOf(a))
    case Guest => set p | p in u.permissions && ReadOnly(p)
    case Member => u.permissions
  }

  /** PlatformUser.can, with or without an account. */
  predicate Can(u: User, p: Permission, account: Option<Id>) {
    && u.isActive
    && (u.role == Admin ||
        (p in EffectivePermissions(u) && (account.None? || account.value in u.allowedAccounts)))
  }

  /**
   * A user is created exactly under a free name of three characters or more and with a password of twelve or more. It
   * is stored as asked for, active, and nobody else changes.
   */
  lemma CreateOutcome(env: Env, users: UserMap, newId: Id, username: string, password: string, role: Role,
                      permissions: set<Permission>, accounts: set<Id>, mustChange: bool)
    ensures var (after, r) := Create(env, users, newId, username, password, role, permissions, accounts, mustChange);
      var name := NormalizeUsername(username);
      && (r.Ok? <==> |name| >= 3 && |password| >= 12 && forall id :: id in users ==> users[id].username != name)
      && (r == Err(AlreadyExistsError) <==>
          |name| >= 3 && |password| >= 12 && exists id :: id in users && users[id].username == name)
      && (r.Err? ==> after == users)
      && (r.Ok? ==>
            && after == users[newId := r.value]
            && r.value.username == name && r.value.passwordHash == env.hash(password)
            && r.value.role == role && r.value.allowedAccounts == accounts
            && r.value.isActive && r.value.mustChangePassword == mustChange
            && forall p :: p in r.value.permissions <==>
                           p in permissions && (role == Member || (role == Guest && p.ReadOf?)))
  {
  }

  /** A bootstrap succeeds once, on an empty platform, and stores one administrator who must change the password. */
  lemma BootstrapOutcome(env: Env, users: UserMap, newId: Id, username: string, password: string)
    ensures var (after, r) := Bootstrap(env, users, newId, username, password);
      && (r.Err? <==> users == map[] && (|NormalizeUsername(username)| < 3 || |password| < 12))
      && (users != map[] ==> r == Ok(None))
      && (r.Err? || r.value.None? ==> after == users)
      && (r.Ok? && r.value.Some? ==>
            && after == map[newId := r.value.value]
            && r.value.value == User(NormalizeUsername(username), env.hash(password), Admin, {}, {}, true, true))
  {
  }

  /** What a new user may do from then on: an administrator everything, a member as asked, a guest the reading part. */
  lemma CreatedUserCan(env: Env, users: UserMap, newId: Id, username: string, password: string, role: Role,
                       permissions: set<Permission>, accounts: set<Id>, mustChange: bool, p: Permission,
                       account: Option<Id>)
    requires Create(env, users, newId, username, password, role, permissions, accounts, mustChange).1.Ok?
    ensures var after := Create(env, users, newId, username, password, role, permissions, accounts, mustChange).0;
      && newId in after
      && (Can(after[newId], p, account) <==>
          role == Admin ||
          (p in permissions && (role == Member || p.ReadOf?) && (account.None? || account.value in accounts)))
  {
    CreateOutcome(env, users, newId, username, password, role, permissions, accounts, mustChange);
  }

  lemma FewActiveAdmins(users: UserMap, id: Id)
    requires id in users && ActiveAdmin(users[id])
    ensures |ActiveAdmins(users)| <= 1 <==> forall other :: other in users && ActiveAdmin(users[other]) ==> other == id
  {
    var others := ActiveAdmins(users) - {id};
    assert id in ActiveAdmins(users) && |ActiveAdmins(users)| == |others| + 1;
    if |others| == 0 {
      forall other | other in users && ActiveAdmin(users[other]) ensures other == id {
        assert other !in others;
      }
    } else {
      assert others != {};
      var other :| other in others;
    }
  }

  /**
   * Only taking away the last active administrator's role or activity is refused. An accepted update stores the fields
   * asked for, keeps the others, and leaves a guest with read permissions only.
   */
  lemma UpdateOutcome(users: UserMap, id: Id, role: Option<Role>, permissions: Option<set<Permission>>,
                      accounts: Option<set<Id>>, isActive: Option<bool>)
    ensures var (after, r) := Update(users, id, role, permissions, accounts, isActive);
      && (r == Err(NotFoundError) <==> id !in users)
      && (r.Err? && id in users <==>
          && id in users && users[id].role == Admin && users[id].isActive
          && (isActive == Some(false) || (role.Some? && role.value != Admin))
          && forall other :: other in users && users[other].role == Admin && users[other].isActive ==> other == id)
      && (r.Err? ==> after == users)
      && (r.Ok? ==>
            var next := if role.Some? then role.value else users[id].role;
            && after == users[id := r.value]
            && r.value.role == next
            && r.value.isActive == (if isActive.Some? then isActive.value else users[id].isActive)
            && r.value.allowedAccounts == (if accounts.Some? then accounts.value else users[id].allowedAccounts)
            && r.value.username == users[id].username && r.value.passwordHash == users[id].passwordHash
            && r.value.mustChangePassword == users[id].mustChangePassword
            && forall p :: p in r.value.permissions <==>
                 if permissions.Some? then p in permissions.value && (next == Member || (next == Guest && p.ReadOf?))
                 else p in users[id].permissions && (next == Guest ==> p.ReadOf?))
  {
    if id in users && ActiveAdmin(users[id]) {
      FewActiveAdmins(users, id);
    }
  }

  /** Deleting is refused for the last active administrator only, and removes nobody else. */
  lemma DeleteOutcome(users: UserMap, id: Id)
    ensures var (after, r) := Delete(users, id);
      && (r.Ok? <==> id in users &&
                     !(ActiveAdmin(users[id]) &&
                       forall other :: other in users && ActiveAdmin(users[other]) ==> other == id))
      && (r.Ok? ==> r.value)
      && after == if r.Ok? then users - {id} else users
  {
    if id in users && ActiveAdmin(users[id]) {
      FewActiveAdmins(users, id);
    }
  }

  /** Where no account is concerned, an active user can do exactly what its effective permissions say. */
  lemma CanIsEffective(u: User, p: Permission)
    requires p != ManageOf(AuditTrail)
    ensures Can(u, p, None) <==> u.isActive && p in EffectivePermissions(u)
  {
    match p
    case ReadOf(a) =>
    case ManageOf(a) =>
  }

  /** In every store that satisfies the invariant a guest can read as stored, and manage nothing. */
  lemma GuestsOnlyRead(users: UserMap, id: Id, p: Permission, account: Option<Id>)
    requires Inv(users) && id in users && users[id].role == Guest
    ensures Can(users[id], p, account) <==>
            users[id].isActive && p in users[id].permissions &&
            (account.None? || account.value in users[id].allowedAccounts)
    ensures Can(users[id], p, account) ==> p.ReadOf?
  {
  }

  /** The guard is exact: it refuses an update precisely when no active administrator would be left. */
  lemma UpdateGuardIsExact(users: UserMap, id: Id, role: Option<Role>, permissions: Option<set<Permission>>,
                           accounts: Option<set<Id>>, isActive: Option<bool>)
    requires ActiveAdmins(users) != {} && id in users
    ensures Update(users, id, role, permissions, accounts, isActive).1.Err? <==>
            ActiveAdmins(users[id := Updated(users[id], role, permissions, accounts, isActive)]) == {}
  {
    var next := Updated(users[id], role, permissions, accounts, isActive);
    var after := users[id := next];
    if ActiveAdmin(users[id]) && !ActiveAdmin(next) {
      assert ActiveAdmins(after) == ActiveAdmins(users) - {id};
      assert |ActiveAdmins(after)| == |ActiveAdmins(users)| - 1;
    } else if ActiveAdmin(next) {
      assert id in ActiveAdmins(after);
    } else {
      assert ActiveAdmins(after) == ActiveAdmins(users);
    }
  }

  /** Likewise a deletion. */
  lemma DeleteGuardIsExact(users: UserMap, id: Id)
    requires ActiveAdmins(users) != {} && id in users
    ensures Delete(users, id).1.Err? <==> ActiveAdmins(users - {id}) == {}
  {
    assert ActiveAdmins(users - {id}) == ActiveAdmins(users) - {id};
    if id in ActiveAdmins(users) {
      assert |ActiveAdmins(users) - {id}| == |ActiveAdmins(users)| - 1;
    }
  }

  /** The user may be stored under id beside the others. */
  predicate Fits(users: UserMap, id: Id, user: User) {
    && NormalName(user.username)
    && (forall other :: other in users && other != id ==> users[other].username != user.username)
    && (user.role == Guest ==> forall p :: p in user.permissions ==> ReadOnly(p))
  }

  /** Storing a user keeps the invariant exactly when it fits and an active administrator remains. */
  lemma StoringKeepsInv(users: UserMap, id: Id, user: User)
    requires Inv(users)
    ensures Inv(users[id := user]) <==> Fits(users, id, user) && ActiveAdmins(users[id := user]) != {}
  {
    var after := users[id := user];
    assert after[id] == user;
    if Inv(after) {
      forall other | other in users && other != id ensures users[other].username != user.username {
        assert after[other] == users[other];
      }
    }
    if Fits(users, id, user) {
      StoringKeepsRest(users, id, user);
    }
  }

  lemma StoringKeepsRest(users: UserMap, id: Id, user: User)
    requires GuestsReadOnly(users) && UsernamesUnique(users) && UsernamesNormal(users) && Fits(users, id, user)
    ensures var after := users[id := user]; GuestsReadOnly(after) && UsernamesUnique(after) && UsernamesNormal(after)
  {
  }

  lemma AdminElsewhereRemains(users: UserMap, id: Id, user: User)
    requires ActiveAdmins(users) != {} && (id in users && ActiveAdmin(users[id]) ==> ActiveAdmin(user))
    ensures ActiveAdmins(users[id := user]) != {}
  {
    var admin :| admin in ActiveAdmins(users);
    assert admin in ActiveAdmins(users[id := user]);
  }

  lemma CreateKeepsInv(env: Env, users: UserMap, newId: Id, username: string, password: string, role: Role,
                       permissions: set<Permission>, accounts: set<Id>, mustChange: bool)
    requires Inv(users) && newId !in users
    ensures Inv(Create(env, users, newId, username, password, role, permissions, accounts, mustChange).0)
  {
    var (after, r) := Create(env, users, newId, username, password, role, permissions, accounts, mustChange);
    if r.Ok? {
      NormalizingIsIdempotent(username);
      AdminElsewhereRemains(users, newId, r.value);
      StoringKeepsInv(users, newId, r.value);
    }
  }

  lemma UpdateKeepsInv(users: UserMap, id: Id, role: Option<Role>, permissions: Option<set<Permission>>,
                       accounts: Option<set<Id>>, isActive: Option<bool>)
    requires Inv(users)
    ensures Inv(Update(users, id, role, permissions, accounts, isActive).0)
  {
    var (after, r) := Update(users, id, role, permissions, accounts, isActive);
    if r.Ok? {
      UpdateGuardIsExact(users, id, role, permissions, accounts, isActive);
      StoringKeepsInv(users, id, r.value);
    }
  }

  lemma DeleteKeepsInv(users: UserMap, id: Id)
    requires Inv(users)
    ensures Inv(Delete(users, id).0)
  {
    if id in users {
      DeleteGuardIsExact(users, id);
    }
  }

  /** Changing nothing but the hash and the flag of a user keeps the invariant. */
  lemma NewPasswordKeepsInv(users: UserMap, id: Id, passwordHash: string, mustChange: bool)
    requires Inv(users) && id in users
    ensures Inv(users[id := users[id].(passwordHash := passwordHash, mustChangePassword := mustChange)])
  {
    var user := users[id].(passwordHash := passwordHash, mustChangePassword := mustChange);
    AdminElsewhereRemains(users, id, user);
    StoringKeepsInv(users, id, user);
  }

  lemma NextKeepsInv(env: Env, users: UserMap, c: Call)
    requires Inv(users) && FreshId(users, c)
    ensures Inv(Next(env, users, c))
  {
    match c
    case CallBootstrap(_, _, _) => var admin :| admin in ActiveAdmins(users);
    case CallCreate(n, u, p, r, ps, a, b) => CreateKeepsInv(env, users, n, u, p, r, ps, a, b);
    case CallUpdate(id, r, ps, a, b) => UpdateKeepsInv(users, id, r, ps, a, b);
    case CallChangePassword(id, _, n) =>
      if id in users { NewPasswordKeepsInv(users, id, env.hash(n), false); }
    case CallResetPassword(id, p) =>
      if id in users { NewPasswordKeepsInv(users, id, env.hash(p), true); }
    case CallAuthenticate(_, _) =>
    case CallDelete(id) => DeleteKeepsInv(users, id);
  }

  lemma {:induction false} RunKeepsInv(env: Env, users: UserMap, calls: seq<Call>)
    requires Inv(users) && FreshIds(env, users, calls)
    ensures Inv(Run(env, users, calls))
    decreases |calls|
  {
    if calls != [] {
      NextKeepsInv(env, users, calls[0]);
      RunKeepsInv(env, Next(env, users, calls[0]), calls[1..]);
    }
  }

  /** After a successful bootstrap of an empty platform an active administrator remains through every run. */
  lemma AnAdministratorAlwaysRemains(env: Env, newId: Id, username: string, password: string, calls: seq<Call>)
    requires var b := Bootstrap(env, map[], newId, username, password);
      b.1.Ok? && FreshIds(env, b.0, calls)
    ensures Inv(Run(env, Bootstrap(env, map[], newId, username, password).0, calls))
  {
    var users := Bootstrap(env, map[], newId, username, password).0;
    assert newId in ActiveAdmins(users);
    NormalizingIsIdempotent(username);
    RunKeepsInv(env, users, calls);
  }

  // ---- passwords and authentication ----

  /** The stored user that these credentials authenticate. */
  predicate LogsIn(env: Env, users: UserMap, id: Id, username: string, password: string) {
    && id in users
    && users[id].username == NormalizeUsername(username) && |users[id].username| >= 3
    && users[id].isActive
    && env.verifies(users[id].passwordHash, password)
  }

  /** A password verifies against its own hash. */
  ghost predicate HashesVerify(env: Env) {
    forall password :: env.verifies(env.hash(password), password)
  }

  /** Apart from its password hash and the flag, nothing about the user has changed, and nobody else has changed. */
  predicate OnlyPasswordChanged(users: UserMap, after: UserMap, id: Id) {
    && id in users && after.Keys == users.Keys
    && (forall other :: other in users && other != id ==> after[other] == users[other])
    && after[id].(passwordHash := users[id].passwordHash, mustChangePassword := users[id].mustChangePassword) ==
        users[id]
  }

  lemma OthersLogInAsBefore(env: Env, users: UserMap, after: UserMap, id: Id)
    requires OnlyPasswordChanged(users, after, id)
    ensures forall other, name, password :: other != id ==>
              (LogsIn(env, after, other, name, password) <==> LogsIn(env, users, other, name, password))
  {
  }

  /**
   * A password is changed exactly when the current one verifies and the new one is long enough and different. Then an
   * active user logs in with the new one, need not change it again, and everybody else logs in as before.
   */
  lemma ChangePasswordEffect(env: Env, users: UserMap, id: Id, current: string, new': string)
    requires Inv(users) && HashesVerify(env)
    ensures var (after, r) := ChangePassword(env, users, id, current, new');
      && (r.Ok? <==> id in users && env.verifies(users[id].passwordHash, current) && |new'| >= 12 && new' != current)
      && (r.Err? ==> after == users)
      && (r.Ok? ==>
            && OnlyPasswordChanged(users, after, id) && !after[id].mustChangePassword && r.value == after[id]
            && (LogsIn(env, after, id, users[id].username, new') <==> users[id].isActive)
            && forall other, name, password :: other != id ==>
                 (LogsIn(env, after, other, name, password) <==> LogsIn(env, users, other, name, password)))
  {
    var (after, r) := ChangePassword(env, users, id, current, new');
    if r.Ok? {
      OthersLogInAsBefore(env, users, after, id);
    }
  }

  /** Likewise for a reset, which asks for no current password and obliges the user to change the new one. */
  lemma ResetPasswordEffect(env: Env, users: UserMap, id: Id, password: string)
    requires Inv(users) && HashesVerify(env)
    ensures var (after, r) := ResetPassword(env, users, id, password);
      && (r.Ok? <==> id in users && |password| >= 12)
      && (r.Err? ==> after == users)
      && (r.Ok? ==>
            && OnlyPasswordChanged(users, after, id) && after[id].mustChangePassword && r.value == after[id]
            && (LogsIn(env, after, id, users[id].username, password) <==> users[id].isActive)
            && forall other, name, p :: other != id ==>
                 (LogsIn(env, after, other, name, p) <==> LogsIn(env, users, other, name, p)))
  {
    var (after, r) := ResetPassword(env, users, id, password);
    if r.Ok? {
      OthersLogInAsBefore(env, users, after, id);
    }
  }

  /** A user that was created, or bootstrapped, logs in with the credentials given, and everybody else as before. */
  lemma NewUserLogsIn(env: Env, users: UserMap, newId: Id, username: string, password: string, role: Role,
                      permissions: set<Permission>, accounts: set<Id>, mustChange: bool)
    requires newId !in users && HashesVerify(env)
    ensures var (after, r) := Create(env, users, newId, username, password, role, permissions, accounts, mustChange);
      r.Ok? ==>
        && LogsIn(env, after, newId, username, password)
        && forall other, name, p :: other != newId ==>
             (LogsIn(env, after, other, name, p) <==> LogsIn(env, users, other, name, p))
    ensures var (after, r) := Bootstrap(env, users, newId, username, password);
      r.Ok? && r.value.Some? ==> LogsIn(env, after, newId, username, password) && ActiveAdmins(after) == {newId}
  {
    var (after, r) := Bootstrap(env, users, newId, username, password);
    if r.Ok? && r.value.Some? {
      assert users == map[];
      assert forall id :: id in after <==> id == newId;
    }
  }

  /** With a password that is long enough a user is created exactly when storing it keeps the invariant. */
  lemma CreateGuardIsExact(env: Env, users: UserMap, newId: Id, username: string, password: string, role: Role,
                           permissions: set<Permission>, accounts: set<Id>, mustChange: bool)
    requires Inv(users) && newId !in users && |password| >= 12
    ensures
      var stored := PermissionsForRole(role, permissions);
      var user := User(NormalizeUsername(username), env.hash(password), role, stored, accounts, true, mustChange);
      Create(env, users, newId, username, password, role, permissions, accounts, mustChange).1.Ok? <==>
      Inv(users[newId := user])
  {
    var user := User(NormalizeUsername(username), env.hash(password), role, PermissionsForRole(role, permissions),
                     accounts, true, mustChange);
    NormalizingIsIdempotent(username);
    AdminElsewhereRemains(users, newId, user);
    StoringKeepsInv(users, newId, user);
  }
}
