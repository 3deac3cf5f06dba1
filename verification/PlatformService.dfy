/** The platform user service, field by field, over the stored users. */
module PlatformService {
  import opened Common
  import opened P = Platform

  class PlatformUserService {
    var users: UserMap
    const env: P.Env

    constructor (env: P.Env)
      ensures users == map[] && this.env == env
    {
      users, this.env := map[], env;
    }

    method Bootstrap(newId: Id, username: string, password: string) returns (r: Result<Option<User>>)
      modifies this
      ensures (users, r) == P.Bootstrap(env, old(users), newId, username, password)
    {
      if |users| > 0 {
        return Ok(None);
      }
      var name := NormalizeUsername(username);
      if |name| < 3 {
        return Err(ValidationError);
      }
      if password == "" {
        return Err(ValidationError);
      }
      if PasswordTooShort(password) {
        return Err(ValidationError);
      }
      var user := User(name, env.hash(password), Admin, {}, {}, true, true);
      users := users[newId := user];
      return Ok(Some(user));
    }

    /** The stored user with a given username, which is normalised and must be long enough. */
    predicate Named(id: Id, username: string)
      reads this
    {
      id in users && users[id].username == NormalizeUsername(username) && |users[id].username| >= 3
    }

    /** A disabled user is refused before the password is looked at. */
    method Authenticate(username: string, password: string) returns (r: Result<User>)
      requires UsernamesUnique(users)
      ensures r.Ok? <==> exists id :: LogsIn(env, users, id, username, password)
      ensures r.Ok? ==> exists id :: LogsIn(env, users, id, username, password) && users[id] == r.value
      ensures r == Err(AccessDeniedError) <==> exists id :: Named(id, username) && !users[id].isActive
    {
      var name := NormalizeUsername(username);
      if |name| < 3 {
        return Err(UnauthorizedError);
      }
      if id :| id in users && users[id].username == name {
        var user := users[id];
        if !user.isActive {
          return Err(AccessDeniedError);
        }
        if !env.verifies(user.passwordHash, password) {
          return Err(UnauthorizedError);
        }
        assert LogsIn(env, users, id, username, password);
        return Ok(user);
      }
      return Err(UnauthorizedError);
    }

    method Create(newId: Id, username: string, password: string, role: P.Role, permissions: set<Permission>,
                  accounts: set<Id>, mustChange: bool)
      returns (r: Result<User>)
      modifies this
      ensures (users, r) ==
              P.Create(env, old(users), newId, username, password, role, permissions, accounts, mustChange)
    {
      var name := NormalizeUsername(username);
      if |name| < 3 {
        return Err(ValidationError);
      }
      if PasswordTooShort(password) {
        return Err(ValidationError);
      }
      if exists id :: id in users && users[id].username == name {
        return Err(AlreadyExistsError);
      }
      var user := User(name, env.hash(password), role, PermissionsForRole(role, permissions), accounts, true,
                       mustChange);
      users := users[newId := user];
      return Ok(user);
    }

    /** _ensure_another_admin: an error when at most one active administrator is stored. */
    method EnsureAnotherAdmin() returns (guard: Option<Error>)
      ensures guard == if |ActiveAdmins(users)| <= 1 then Some(ConflictError) else None
    {
      var count := |set id | id in users && users[id].role == Admin && users[id].isActive|;
      assert ActiveAdmins(users) == set id | id in users && users[id].role == Admin && users[id].isActive;
      if count <= 1 {
        return Some(ConflictError);
      }
      return None;
    }

    method Update(id: Id, role: Option<P.Role>, permissions: Option<set<Permission>>, accounts: Option<set<Id>>,
                  isActive: Option<bool>)
      returns (r: Result<User>)
      modifies this
      ensures (users, r) == P.Update(old(users), id, role, permissions, accounts, isActive)
    {
      if id !in users {
        return Err(NotFoundError);
      }
      var user := users[id];
      var nextRole := if role.Some? then role.value else user.role;
      var nextActive := if isActive.Some? then isActive.value else user.isActive;
      if user.role == Admin && user.isActive && (nextRole != Admin || !nextActive) {
        var guard := EnsureAnotherAdmin();
        if guard.Some? {
          return Err(guard.value);
        }
      }
      user := user.(role := nextRole, isActive := nextActive);
      if permissions.Some? {
        user := user.(permissions := PermissionsForRole(nextRole, permissions.value));
      } else if nextRole == Guest {
        user := user.(permissions := PermissionsForRole(nextRole, user.permissions));
      }
      if accounts.Some? {
        user := user.(allowedAccounts := accounts.value);
      }
      users := users[id := user];
      return Ok(user);
    }

    method ChangePassword(id: Id, current: string, new': string) returns (r: Result<User>)
      modifies this
      ensures (users, r) == P.ChangePassword(env, old(users), id, current, new')
    {
      if id !in users {
        return Err(NotFoundError);
      }
      var user := users[id];
      if !env.verifies(user.passwordHash, current) {
        return Err(UnauthorizedError);
      }
      if PasswordTooShort(new') {
        return Err(ValidationError);
      }
      if current == new' {
        return Err(ValidationError);
      }
      user := user.(passwordHash := env.hash(new'), mustChangePassword := false);
      users := users[id := user];
      return Ok(user);
    }

    method ResetPassword(id: Id, password: string) returns (r: Result<User>)
      modifies this
      ensures (users, r) == P.ResetPassword(env, old(users), id, password)
    {
      if id !in users {
        return Err(NotFoundError);
      }
      if PasswordTooShort(password) {
        return Err(ValidationError);
      }
      var user := users[id].(passwordHash := env.hash(password), mustChangePassword := true);
      users := users[id := user];
      return Ok(user);
    }

    method Delete(id: Id) returns (r: Result<bool>)
      modifies this
      ensures (users, r) == P.Delete(old(users), id)
    {
      if id !in users {
        return Err(NotFoundError);
      }
      var user := users[id];
      if user.role == Admin && user.isActive {
        var guard := EnsureAnotherAdmin();
        if guard.Some? {
          return Err(guard.value);
        }
      }
      users := users - {id};
      return Ok(true);
    }
  }
}
