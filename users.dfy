/** The user routes: reading one profile, creating an account, the partial
    update of an account, and blocking one. The bcrypt hash of a new password and
    the e-mail format check are computed outside the model and passed in. */
module Users {
  import opened Common
  import opened Store
  import opened Sql
  import opened Auth

  const USER_EXISTS: string := "User already exists"
  const USERNAME_REQUIRED: string := "Username is required"
  const EMAIL_REQUIRED: string := "Valid email is required"
  const PASSWORD_REQUIRED: string := "Password is required"
  /** The message a validator without its own message reports. */
  const INVALID_VALUE: string := "Invalid value"
  const BLOCKED: string := "User blocked successfully"

  // ---------------------------------------------------------------------------
  // The profile a reply carries

  /** `u.*` with the role's name, less `password_hash`. */
  datatype UserView = UserView(
    id: int,
    username: string,
    email: string,
    roleId: int,
    roleName: string,
    fullName: Option<string>,
    macAddress: Option<string>,
    isActive: bool,
    updatedAt: Option<int>)

  /** The profile query finds user `id` joined with its role. */
  predicate Viewable(users: map<int, User>, roles: map<int, string>, id: int) {
    id in users && users[id].roleId in roles
  }

  function ViewOf(users: map<int, User>, roles: map<int, string>, id: int): UserView
    requires Viewable(users, roles, id)
  {
    var u := users[id];
    UserView(id, u.username, u.email, u.roleId, roles[u.roleId], u.fullName, u.macAddress, u.isActive, u.updatedAt)
  }

  /** Two stored rows give the same profile exactly when they differ at most in
      their password hash: the hash never reaches a reply, and every other column
      does. */
  lemma ViewHidesOnlyPasswordHash(users: map<int, User>, roles: map<int, string>, id: int,
                                  other: map<int, User>)
    requires Viewable(users, roles, id) && Viewable(other, roles, id)
    ensures ViewOf(users, roles, id) == ViewOf(other, roles, id) <==>
      users[id].(passwordHash := None) == other[id].(passwordHash := None)
  {
    var u, v := users[id], other[id];
    if ViewOf(users, roles, id) == ViewOf(other, roles, id) {
      assert u.username == v.username && u.email == v.email && u.roleId == v.roleId;
      assert u.fullName == v.fullName && u.macAddress == v.macAddress;
      assert u.isActive == v.isActive && u.updatedAt == v.updatedAt;
    }
  }

  // ---------------------------------------------------------------------------
  // GET /:userId

  /** A caller who is not an Admin may read only its own profile (403); an id
      without a user, or whose role is gone, gives 404. */
  method GetUser(db: Database, caller: Caller, userId: int) returns (r: Reply<UserView>)
    ensures !IsAdmin(caller) && caller.id != userId ==> r == Error(403, ACCESS_DENIED)
    ensures (IsAdmin(caller) || caller.id == userId) && !Viewable(db.users, db.roles, userId) ==>
      r == Error(404, USER_NOT_FOUND)
    ensures r.Ok? <==> (IsAdmin(caller) || caller.id == userId) && Viewable(db.users, db.roles, userId)
    ensures r.Ok? ==> r == Ok(200, ViewOf(db.users, db.roles, userId))
  {
    if !IsAdmin(caller) && caller.id != userId {
      return Error(403, ACCESS_DENIED);
    }
    if userId !in db.users || db.users[userId].roleId !in db.roles {
      return Error(404, USER_NOT_FOUND);
    }
    r := Ok(200, ViewOf(db.users, db.roles, userId));
  }

  // ---------------------------------------------------------------------------
  // POST /

  /** The columns the insert returns. */
  datatype Created = Created(id: int, username: string, email: string, roleId: int, fullName: Option<string>)

  /** The message of the first body validator that fails, in the order they are
      declared; None when the body passes. */
  function CreateBodyError(username: string, email: string, password: string, isEmail: string -> bool): (e: Option<string>)
    ensures e.None? <==> username != "" && isEmail(email) && password != ""
    ensures username == "" ==> e == Some(USERNAME_REQUIRED)
  {
    if username == "" then Some(USERNAME_REQUIRED)
    else if !isEmail(email) then Some(EMAIL_REQUIRED)
    else if password == "" then Some(PASSWORD_REQUIRED)
    else None
  }

  /** Some account already has this username or this e-mail address. */
  predicate Taken(users: map<int, User>, username: string, email: string) {
    exists id :: id in users && (users[id].username == username || users[id].email == email)
  }

  /** No two accounts share a username or an e-mail address. */
  predicate UniqueAccounts(users: map<int, User>) {
    forall i, j :: i in users && j in users && i != j ==>
      users[i].username != users[j].username && users[i].email != users[j].email
  }

  /** The row the insert stores: active, with falsy optional texts as NULL. */
  function NewUser(username: string, email: string, passwordHash: string, roleId: int,
                   fullName: Option<string>, macAddress: Option<string>): (u: User)
    ensures u.isActive && u.passwordHash == Some(passwordHash) && u.updatedAt.None?
    ensures u.fullName.Some? <==> TruthyText(fullName)
    ensures u.macAddress.Some? <==> TruthyText(macAddress)
  {
    User(username, email, Some(passwordHash), roleId, NullIfFalsy(fullName), NullIfFalsy(macAddress), true, None)
  }

  /** Adding an account whose username and e-mail are both unused keeps every
      username and every e-mail address unique. */
  lemma InsertKeepsAccountsUnique(users: map<int, User>, id: int, u: User)
    requires UniqueAccounts(users) && id !in users && !Taken(users, u.username, u.email)
    ensures UniqueAccounts(users[id := u])
  {
    var next := users[id := u];
    forall i, j | i in next && j in next && i != j
      ensures next[i].username != next[j].username && next[i].email != next[j].email
    {
      if i == id {
        assert j in users;
      } else if j == id {
        assert i in users;
      }
    }
  }

  /** An account an Admin creates can sign in with its username and password at
      once, whenever its role exists and the hash accepts the password. */
  lemma CreatedUserCanSignIn(users: map<int, User>, roles: map<int, string>, id: int, username: string,
                             email: string, password: string, passwordHash: string, roleId: int,
                             fullName: Option<string>, macAddress: Option<string>,
                             comparePassword: (string, string) -> bool)
    requires username != "" && password != "" && passwordHash != ""
    requires roleId in roles && comparePassword(password, passwordHash)
    ensures CredentialsPass(users[id := NewUser(username, email, passwordHash, roleId, fullName, macAddress)],
                            roles, username, password, id, comparePassword)
  {
  }

  /** Create an account. Only an Admin may (403); a body failing a validator
      gives 400 with the first failing message; a username or e-mail already in
      use gives 400; otherwise the active account is stored under the next id,
      audited, and its columns returned. */
  method CreateUser(db: Database, caller: Caller, username: string, email: string, password: string, roleId: int,
                    fullName: Option<string>, macAddress: Option<string>,
                    isEmail: string -> bool, passwordHash: string)
    returns (r: Reply<Created>)
    requires db.Valid()
    modifies db`users, db`nextUserId, db`auditLog
    ensures db.Valid()
    ensures !IsAdmin(caller) ==> r == Error(403, INSUFFICIENT_PERMISSIONS)
    ensures IsAdmin(caller) && CreateBodyError(username, email, password, isEmail).Some? ==>
      r == Error(400, CreateBodyError(username, email, password, isEmail).value)
    ensures IsAdmin(caller) && CreateBodyError(username, email, password, isEmail).None?
            && Taken(old(db.users), username, email) ==>
      r == Error(400, USER_EXISTS)
    ensures r.Ok? <==>
      IsAdmin(caller) && CreateBodyError(username, email, password, isEmail).None? && !Taken(old(db.users), username, email)
    ensures !r.Ok? ==>
      db.users == old(db.users) && db.nextUserId == old(db.nextUserId) && db.auditLog == old(db.auditLog)
    ensures r.Ok? ==>
      var id := old(db.nextUserId);
      && id !in old(db.users)
      && r == Ok(201, Created(id, username, email, roleId, NullIfFalsy(fullName)))
      && db.users == old(db.users)[id := NewUser(username, email, passwordHash, roleId, fullName, macAddress)]
      && db.nextUserId == id + 1
      && db.auditLog == old(db.auditLog) + [AuditEntry(OrNull(Some(id)), OrNull(Some(caller.id)),
                                                       "USER_CREATED", "USER", OrNull(Some(id)))]
    ensures UniqueAccounts(old(db.users)) ==> UniqueAccounts(db.users)
  {
    if !IsAdmin(caller) {
      return Error(403, INSUFFICIENT_PERMISSIONS);
    }
    var invalid := CreateBodyError(username, email, password, isEmail);
    if invalid.Some? {
      return Error(400, invalid.value);
    }
    if exists id :: id in db.users && (db.users[id].username == username || db.users[id].email == email) {
      return Error(400, USER_EXISTS);
    }
    var id := db.nextUserId;
    var u := NewUser(username, email, passwordHash, roleId, fullName, macAddress);
    if UniqueAccounts(db.users) {
      InsertKeepsAccountsUnique(db.users, id, u);
    }
    db.users := db.users[id := u];
    db.nextUserId := id + 1;
    db.LogAudit(Some(id), Some(caller.id), "USER_CREATED", "USER", Some(id));
    r := Ok(201, Created(id, username, email, roleId, u.fullName));
  }

  // ---------------------------------------------------------------------------
  // PUT /:userId

  /** The optional fields of the body; None is an absent field, and for the
      nullable columns `Some(None)` is a JSON null. */
  datatype UserPatch = UserPatch(
    email: Option<string>,
    roleId: Option<int>,
    fullName: Option<Option<string>>,
    macAddress: Option<Option<string>>,
    isActive: Option<bool>)

  /** The columns of `users` the model keeps. */
  datatype UserColumn =
    | Username | Email | PasswordHash | RoleIdColumn | FullName | MacAddress | IsActive | UpdatedAt
  {
    /** The column's name in SQL. */
    function Name(): string {
      match this
      case Username => "username"
      case Email => "email"
      case PasswordHash => "password_hash"
      case RoleIdColumn => "role_id"
      case FullName => "full_name"
      case MacAddress => "mac_address"
      case IsActive => "is_active"
      case UpdatedAt => "updated_at"
    }
  }

  /** The columns of a user row. */
  function UserRow(u: User): Row<UserColumn> {
    map[
      Username := Text(u.username),
      Email := Text(u.email),
      PasswordHash := TextValue(u.passwordHash),
      RoleIdColumn := Int(u.roleId),
      FullName := TextValue(u.fullName),
      MacAddress := TextValue(u.macAddress),
      IsActive := Bool(u.isActive),
      UpdatedAt := TimeValue(u.updatedAt)]
  }

  /** The body's fields in the order the handler tests them. */
  function UserFields(patch: UserPatch): seq<Field<UserColumn>> {
    [ Field(Email, if patch.email.Some? then Some(Text(patch.email.value)) else None),
      Field(RoleIdColumn, if patch.roleId.Some? then Some(Int(patch.roleId.value)) else None),
      Field(FullName, if patch.fullName.Some? then Some(TextValue(patch.fullName.value)) else None),
      Field(MacAddress, if patch.macAddress.Some? then Some(TextValue(patch.macAddress.value)) else None),
      Field(IsActive, if patch.isActive.Some? then Some(Bool(patch.isActive.value)) else None) ]
  }

  /** Nothing is supplied. */
  predicate EmptyUserPatch(patch: UserPatch) {
    && patch.email.None? && patch.roleId.None? && patch.fullName.None?
    && patch.macAddress.None? && patch.isActive.None?
  }

  /** The account with each supplied field replaced and `updatedAt` stamped. */
  function ApplyUserPatch(u: User, patch: UserPatch, now: int): (q: User)
    ensures q.username == u.username && q.passwordHash == u.passwordHash && q.updatedAt == Some(now)
  {
    u.(
      email := if patch.email.Some? then patch.email.value else u.email,
      roleId := if patch.roleId.Some? then patch.roleId.value else u.roleId,
      fullName := if patch.fullName.Some? then patch.fullName.value else u.fullName,
      macAddress := if patch.macAddress.Some? then patch.macAddress.value else u.macAddress,
      isActive := if patch.isActive.Some? then patch.isActive.value else u.isActive,
      updatedAt := Some(now))
  }

  /** Each field of the body sits at its own position, so the columns are distinct. */
  function Position(c: UserColumn): int {
    match c
    case Email => 0
    case RoleIdColumn => 1
    case FullName => 2
    case MacAddress => 3
    case IsActive => 4
    case _ => -1
  }

  /** Columns the body cannot name. */
  predicate Fixed(c: UserColumn) {
    c == Username || c == PasswordHash
  }

  lemma UserFieldsDistinct(patch: UserPatch)
    ensures DistinctColumns(UserFields(patch))
    ensures !Writes(UserFields(patch), UpdatedAt)
    ensures !Writes(UserFields(patch), Username) && !Writes(UserFields(patch), PasswordHash)
  {
    var fs := UserFields(patch);
    assert forall k :: 0 <= k < |fs| ==> Position(fs[k].column) == k;
  }

  lemma SuppliedIsEmptyIffEmptyUserPatch(patch: UserPatch)
    ensures Supplied(UserFields(patch)) == [] <==> EmptyUserPatch(patch)
  {
    var fs := UserFields(patch);
    SuppliedEmpty(fs);
    if EmptyUserPatch(patch) {
      assert forall k :: 0 <= k < |fs| ==> fs[k].value.None?;
    } else {
      assert exists k :: 0 <= k < |fs| && fs[k].value.Some?;
    }
  }

  /** The statement the handler builds, run on the stored row, yields exactly the
      row of the patched account: supplied columns take the body's values,
      `updated_at` the time of the update, and the username and password hash
      keep theirs. */
  lemma UpdateStatementAppliesUserPatch(u: User, patch: UserPatch, stmt: UpdateStatement<UserColumn>,
                                        userId: int, now: int)
    requires BuiltFrom(stmt, UserFields(patch), UpdatedAt, Int(userId))
    ensures PlaceholdersBound(stmt)
    ensures Execute(UserRow(u), stmt, now) == UserRow(ApplyUserPatch(u, patch, now))
  {
    BuiltStatementIsBound(stmt, UserFields(patch), UpdatedAt, Int(userId));
    var lhs := Execute(UserRow(u), stmt, now);
    var q := ApplyUserPatch(u, patch, now);
    forall c ensures c in lhs && c in UserRow(q) && lhs[c] == UserRow(q)[c] {
      UserColumnAfterUpdate(u, patch, stmt, userId, now, c);
    }
  }

  /** One column of the updated row. */
  lemma UserColumnAfterUpdate(u: User, patch: UserPatch, stmt: UpdateStatement<UserColumn>, userId: int, now: int,
                              c: UserColumn)
    requires BuiltFrom(stmt, UserFields(patch), UpdatedAt, Int(userId))
    ensures PlaceholdersBound(stmt)
    ensures c in Execute(UserRow(u), stmt, now) && c in UserRow(ApplyUserPatch(u, patch, now))
    ensures Execute(UserRow(u), stmt, now)[c] == UserRow(ApplyUserPatch(u, patch, now))[c]
  {
    var fs := UserFields(patch);
    var row := UserRow(u);
    var id := Int(userId);
    UserFieldsDistinct(patch);
    if Fixed(c) {
      ExecuteKeeps(row, fs, stmt, UpdatedAt, id, now, c);
    } else if c == UpdatedAt {
      ExecuteStamps(row, fs, stmt, UpdatedAt, id, now);
    } else {
      UserFieldAtPosition(patch, c);
      ExecuteAtField(row, fs, stmt, UpdatedAt, id, now, Position(c));
    }
    PatchedUserColumn(u, patch, now, c, Execute(row, stmt, now)[c]);
  }

  lemma UserFieldAtPosition(patch: UserPatch, c: UserColumn)
    requires !Fixed(c) && c != UpdatedAt
    ensures 0 <= Position(c) < |UserFields(patch)| && UserFields(patch)[Position(c)].column == c
  {
  }

  /** The value a column of the patched account holds. */
  lemma PatchedUserColumn(u: User, patch: UserPatch, now: int, c: UserColumn, v: Value)
    requires Fixed(c) ==> c in UserRow(u) && v == UserRow(u)[c]
    requires c == UpdatedAt ==> v == Timestamp(now)
    requires !Fixed(c) && c != UpdatedAt ==>
      var f := UserFields(patch)[Position(c)];
      v == if f.value.Some? then f.value.value else UserRow(u)[c]
    ensures c in UserRow(ApplyUserPatch(u, patch, now)) && v == UserRow(ApplyUserPatch(u, patch, now))[c]
  {
  }

  /** The users table after the update: the row with that id, if any, patched. */
  function Patched(users: map<int, User>, userId: int, patch: UserPatch, now: int): (r: map<int, User>)
    ensures r.Keys == users.Keys
    ensures forall id :: id in users && id != userId ==> r[id] == users[id]
  {
    if userId in users then users[userId := ApplyUserPatch(users[userId], patch, now)] else users
  }

  /** Update one account. Only an Admin may (403); an e-mail that is not an
      address gives 400; an empty body gives 400. Otherwise the built statement
      runs (touching no row when the id is unknown), the update is audited, and
      the re-read profile is returned; when that read finds nothing (unknown id,
      or a role that does not exist) the handler fails with 500. */
  method UpdateUser(db: Database, caller: Caller, userId: int, patch: UserPatch, now: int, isEmail: string -> bool)
    returns (r: Reply<UserView>, stmt: Option<UpdateStatement<UserColumn>>)
    modifies db`users, db`auditLog
    ensures !IsAdmin(caller) ==>
      r == Error(403, INSUFFICIENT_PERMISSIONS) && db.users == old(db.users) && db.auditLog == old(db.auditLog)
    ensures IsAdmin(caller) && patch.email.Some? && !isEmail(patch.email.value) ==>
      r == Error(400, INVALID_VALUE) && db.users == old(db.users) && db.auditLog == old(db.auditLog)
    ensures IsAdmin(caller) && !(patch.email.Some? && !isEmail(patch.email.value)) && EmptyUserPatch(patch) ==>
      r == Error(400, NO_FIELDS) && db.users == old(db.users) && db.auditLog == old(db.auditLog)
    ensures IsAdmin(caller) && !(patch.email.Some? && !isEmail(patch.email.value)) && !EmptyUserPatch(patch) ==>
      && stmt.Some? && BuiltFrom(stmt.value, UserFields(patch), UpdatedAt, Int(userId))
      && PlaceholdersBound(stmt.value)
      && db.users == Patched(old(db.users), userId, patch, now)
      && (userId in old(db.users) ==>
            UserRow(db.users[userId]) == Execute(UserRow(old(db.users)[userId]), stmt.value, now))
      && db.auditLog == old(db.auditLog) + [AuditEntry(OrNull(Some(userId)), OrNull(Some(caller.id)),
                                                       "USER_UPDATED", "USER", OrNull(Some(userId)))]
      && (Viewable(db.users, db.roles, userId) ==> r == Ok(200, ViewOf(db.users, db.roles, userId)))
      && (!Viewable(db.users, db.roles, userId) ==> r == Error(500, INTERNAL_ERROR))
  {
    stmt := None;
    if !IsAdmin(caller) {
      return Error(403, INSUFFICIENT_PERMISSIONS), stmt;
    }
    if patch.email.Some? && !isEmail(patch.email.value) {
      return Error(400, INVALID_VALUE), stmt;
    }
    SuppliedIsEmptyIffEmptyUserPatch(patch);
    stmt := BuildUpdate(UserFields(patch), UpdatedAt, Int(userId));
    if stmt.None? {
      return Error(400, NO_FIELDS), stmt;
    }
    if userId in db.users {
      var current := db.users[userId];
      UpdateStatementAppliesUserPatch(current, patch, stmt.value, userId, now);
      db.users := db.users[userId := ApplyUserPatch(current, patch, now)];
    } else {
      BuiltStatementIsBound(stmt.value, UserFields(patch), UpdatedAt, Int(userId));
    }
    db.LogAudit(Some(userId), Some(caller.id), "USER_UPDATED", "USER", Some(userId));
    if userId in db.users && db.users[userId].roleId in db.roles {
      r := Ok(200, ViewOf(db.users, db.roles, userId));
    } else {
      r := Error(500, INTERNAL_ERROR);
    }
  }

  // ---------------------------------------------------------------------------
  // POST /:userId/block

  /** `UPDATE users SET is_active = false WHERE id = $1`. */
  function BlockStatement(userId: int): UpdateStatement<UserColumn> {
    UpdateStatement([SetLiteral(IsActive, Bool(false))], [Int(userId)], 1)
  }

  /** The users table after blocking `userId`: that account, if any, is inactive
      and otherwise the same, and no other account changes. */
  function Blocked(users: map<int, User>, userId: int): (r: map<int, User>)
    ensures r.Keys == users.Keys
    ensures userId in users ==> !r[userId].isActive && r[userId].(isActive := users[userId].isActive) == users[userId]
    ensures forall id :: id in users && id != userId ==> r[id] == users[id]
  {
    if userId in users then users[userId := users[userId].(isActive := false)] else users
  }

  /** The blocking statement, run on a stored row, clears `is_active` and leaves
      every other column as it was, `updated_at` included. */
  lemma BlockStatementWritesOnlyIsActive(u: User, userId: int, now: int)
    ensures PlaceholdersBound(BlockStatement(userId))
    ensures Execute(UserRow(u), BlockStatement(userId), now) == UserRow(u.(isActive := false))
  {
    var stmt := BlockStatement(userId);
    assert stmt.sets[1..] == [];
    assert Execute(UserRow(u), stmt, now) == UserRow(u)[IsActive := Bool(false)];
  }

  /** Blocking twice is blocking once. */
  lemma BlockIsIdempotent(users: map<int, User>, userId: int)
    ensures Blocked(Blocked(users, userId), userId) == Blocked(users, userId)
  {
  }

  /** A blocked account matches neither the password login lookup, under any
      name, nor the guest login lookup, under any address. */
  lemma BlockedUserCannotSignIn(users: map<int, User>, roles: map<int, string>, userId: int)
    ensures forall name :: !LoginMatch(Blocked(users, userId), roles, name, userId)
    ensures forall email :: !GuestMatch(Blocked(users, userId), roles, email, userId)
  {
  }

  /** Block one account. Only an Admin may (403). The account, if there is one,
      is made inactive; the block is audited and reported as done whether or not
      the id exists. */
  method Block(db: Database, caller: Caller, userId: int, now: int)
    returns (r: Reply<string>, stmt: UpdateStatement<UserColumn>)
    modifies db`users, db`auditLog
    ensures !IsAdmin(caller) ==>
      r == Error(403, INSUFFICIENT_PERMISSIONS) && db.users == old(db.users) && db.auditLog == old(db.auditLog)
    ensures IsAdmin(caller) ==>
      && r == Ok(200, BLOCKED)
      && stmt == BlockStatement(userId) && PlaceholdersBound(stmt)
      && db.users == Blocked(old(db.users), userId)
      && (userId in old(db.users) ==> UserRow(db.users[userId]) == Execute(UserRow(old(db.users)[userId]), stmt, now))
      && db.auditLog == old(db.auditLog) + [AuditEntry(OrNull(Some(userId)), OrNull(Some(caller.id)),
                                                       "USER_BLOCKED", "USER", OrNull(Some(userId)))]
  {
    stmt := BlockStatement(userId);
    if !IsAdmin(caller) {
      return Error(403, INSUFFICIENT_PERMISSIONS), stmt;
    }
    if userId in db.users {
      BlockStatementWritesOnlyIsActive(db.users[userId], userId, now);
      db.users := db.users[userId := db.users[userId].(isActive := false)];
    }
    db.LogAudit(Some(userId), Some(caller.id), "USER_BLOCKED", "USER", Some(userId));
    r := Ok(200, BLOCKED);
  }
}
