/** The authentication routes: password login, the two steps of guest login by
    one-time password, and logout. Each handler runs its checks in a fixed order
    and creates a session only when all of them pass. Password hashing, token
    signing and the generated code are parameters of the handlers. */
module Auth {
  import opened Common
  import opened JsString
  import opened Store
  import opened PolicyEngine
  import opened Otp

  /** A session expires 24 hours after it is created. */
  const SESSION_LIFETIME_MS: int := 24 * 60 * 60 * 1000

  const INVALID_CREDENTIALS: string := "Invalid credentials"
  const OTP_ONLY: string := "This account uses OTP authentication. Please use guest login."
  const GUEST_ROLE_NOT_FOUND: string := "Guest role not found"
  const OTP_SENT: string := "OTP sent to your email"
  const LOGGED_OUT: string := "Logged out successfully"

  /** The body of a successful login: the signed token, the user, and the id of
      the new session. */
  datatype LoginGrant = LoginGrant(
    token: string,
    userId: int,
    username: string,
    email: string,
    role: string,
    fullName: Option<string>,
    sessionId: int)

  /** The session row a login at `now` inserts. */
  function NewSession(userId: int, roleId: int, token: string, ipAddress: string, macAddress: Option<string>,
                      now: int): (s: Session)
    ensures s.isActive && s.endedAt.None? && s.startedAt == now
    ensures s.expiresAt - s.startedAt == SESSION_LIFETIME_MS
    ensures s.userId == userId && s.roleId == roleId && s.token == token
  {
    Session(userId, roleId, token, ipAddress, NullIfFalsy(macAddress), now, now + SESSION_LIFETIME_MS, true, None)
  }

  /** Insert a session under the next serial id. */
  method CreateSession(db: Database, userId: int, roleId: int, token: string, ipAddress: string,
                       macAddress: Option<string>, now: int)
    returns (id: int)
    requires db.Valid()
    modifies db`sessions, db`nextSessionId
    ensures db.Valid()
    ensures id == old(db.nextSessionId) && id !in old(db.sessions)
    ensures db.nextSessionId == id + 1
    ensures db.sessions == old(db.sessions)[id := NewSession(userId, roleId, token, ipAddress, macAddress, now)]
  {
    id := db.nextSessionId;
    db.sessions := db.sessions[id := NewSession(userId, roleId, token, ipAddress, macAddress, now)];
    db.nextSessionId := id + 1;
  }

  // ---------------------------------------------------------------------------
  // POST /login

  /** `id` is a row of the login lookup for `name`: an active user whose
      username or email is `name`, joined with an existing role. */
  predicate LoginMatch(users: map<int, User>, roles: map<int, string>, name: string, id: int) {
    && id in users
    && (users[id].username == name || users[id].email == name)
    && users[id].isActive
    && users[id].roleId in roles
  }

  /** The credential checks pass for the chosen `user`: both fields given, the
      user found, a password hash on file, and the password matching it. */
  predicate CredentialsPass(users: map<int, User>, roles: map<int, string>, username: string, password: string,
                            user: int, comparePassword: (string, string) -> bool)
  {
    && username != "" && password != ""
    && LoginMatch(users, roles, username, user)
    && TruthyText(users[user].passwordHash)
    && comparePassword(password, users[user].passwordHash.value)
  }

  /** The grant a successful login of `user` answers with. */
  function Grant(users: map<int, User>, roles: map<int, string>, user: int, sign: (int, int) -> string,
                 sessionId: int): LoginGrant
    requires user in users && users[user].roleId in roles
  {
    var u := users[user];
    LoginGrant(sign(user, u.roleId), user, u.username, u.email, roles[u.roleId], u.fullName, sessionId)
  }

  /** The policy verdict a login of `user` gets: no session, no URL. */
  function LoginVerdict(row: Option<Joined>, env: Env): Decision {
    Decide(row, None, None, env)
  }

  /** What admission reads before it writes: the tables it appends to, and the
      usage and sessions the policy verdict is taken on. */
  datatype Before = Before(
    violations: seq<Violation>,
    auditLog: seq<AuditEntry>,
    sessions: map<int, Session>,
    nextSessionId: int,
    env: Env)

  function BeforeOf(db: Database, user: int, clock: Clock): Before
    reads db`violations, db`auditLog, db`sessions, db`nextSessionId, db`usageToday
  {
    Before(db.violations, db.auditLog, db.sessions, db.nextSessionId, EnvOf(db, user, None, clock))
  }

  /** What admitting `user` did, from the state `b` describes to this one: the
      policy was looked up and its verdict, with no session and no URL, taken on
      the usage and sessions of `b`; a denial wrote its violation (unless the
      insert failed), audited LOGIN_BLOCKED and answered 403 with the policy's
      reason, creating no session; an allow created the session under the next
      serial id, audited LOGIN_SUCCESS and answered with the grant. */
  ghost predicate Admitted(b: Before, db: Database, user: int, row: Option<Joined>, r: Reply<LoginGrant>,
                     macAddress: Option<string>, ipAddress: string, clock: Clock,
                     sign: (int, int) -> string, inserted: bool)
    reads db`users, db`roles, db`policies, db`violations, db`auditLog, db`sessions, db`nextSessionId
  {
    var d := LoginVerdict(row, b.env);
    && user in db.users && db.users[user].roleId in db.roles
    && LookedUp(db, user, row)
    && db.violations == b.violations + (if inserted then Logged(d, user, None, clock.nowMs) else [])
    && (r.Ok? <==> d.Allowed())
    && (!r.Ok? ==>
        && r == Error(403, d.Reason())
        && db.auditLog == b.auditLog + [AuditEntry(OrNull(Some(user)), None, "LOGIN_BLOCKED", "USER", None)]
        && db.sessions == b.sessions && db.nextSessionId == b.nextSessionId)
    && (r.Ok? ==>
        && r == Ok(200, Grant(db.users, db.roles, user, sign, b.nextSessionId))
        && db.sessions == b.sessions[b.nextSessionId :=
             NewSession(user, db.users[user].roleId, r.value.token, ipAddress, macAddress, clock.nowMs)]
        && db.nextSessionId == b.nextSessionId + 1
        && db.auditLog == b.auditLog + [AuditEntry(OrNull(Some(user)), None, "LOGIN_SUCCESS", "USER", None)])
  }

  /** The tail both logins share once the user is known: evaluate the policy;
      on denial audit LOGIN_BLOCKED and answer 403 with the policy's reason;
      otherwise sign a token, create the session, audit LOGIN_SUCCESS and answer
      with the grant. */
  method Admit(db: Database, user: int, macAddress: Option<string>, ipAddress: string, clock: Clock,
               sign: (int, int) -> string, inserted: bool)
    returns (r: Reply<LoginGrant>, ghost row: Option<Joined>)
    requires db.Valid()
    requires user in db.users && db.users[user].roleId in db.roles
    modifies db`sessions, db`nextSessionId, db`auditLog, db`violations
    ensures db.Valid()
    ensures Admitted(old(BeforeOf(db, user, clock)), db, user, row, r, macAddress, ipAddress, clock, sign, inserted)
  {
    var u := db.users[user];
    var d;
    d, row := EvaluatePolicy(db, user, None, None, clock, inserted);
    if !d.Allowed() {
      db.LogAudit(Some(user), None, "LOGIN_BLOCKED", "USER", None);
      return Error(403, d.Reason()), row;
    }
    var token := sign(user, u.roleId);
    var sessionId := CreateSession(db, user, u.roleId, token, ipAddress, macAddress, clock.nowMs);
    db.LogAudit(Some(user), None, "LOGIN_SUCCESS", "USER", None);
    r := Ok(200, LoginGrant(token, user, u.username, u.email, db.roles[u.roleId], u.fullName, sessionId));
  }

  /** Password login. In order: a missing username or password is refused (400);
      no active user with that name or email gives 401; an account without a
      password hash gives 401 pointing to guest login; a wrong password gives
      401; then `Admit` decides. Until `Admit`, no policy is evaluated and no
      session is created. */
  method Login(db: Database, username: string, password: string, macAddress: Option<string>, ipAddress: string,
               clock: Clock, comparePassword: (string, string) -> bool, sign: (int, int) -> string,
               inserted: bool)
    returns (r: Reply<LoginGrant>, ghost user: int, ghost row: Option<Joined>)
    requires db.Valid()
    modifies db`sessions, db`nextSessionId, db`auditLog, db`violations
    ensures db.Valid()
    ensures username == "" ==> r == Error(400, "Username is required")
    ensures username != "" && password == "" ==> r == Error(400, "Password is required")
    ensures username == "" || password == "" ==> db.auditLog == old(db.auditLog)
    ensures username != "" && password != "" && (forall id :: !LoginMatch(db.users, db.roles, username, id)) ==>
      && r == Error(401, INVALID_CREDENTIALS)
      && db.auditLog == old(db.auditLog) + [AuditEntry(None, None, "LOGIN_FAILED", "USER", None)]
    ensures username != "" && password != "" && (exists id :: LoginMatch(db.users, db.roles, username, id)) ==>
      LoginMatch(db.users, db.roles, username, user)
    ensures username != "" && password != "" && LoginMatch(db.users, db.roles, username, user)
            && !TruthyText(db.users[user].passwordHash) ==>
      && r == Error(401, OTP_ONLY)
      && db.auditLog == old(db.auditLog) + [AuditEntry(OrNull(Some(user)), None, "LOGIN_FAILED", "USER", None)]
    ensures username != "" && password != "" && LoginMatch(db.users, db.roles, username, user)
            && TruthyText(db.users[user].passwordHash)
            && !comparePassword(password, db.users[user].passwordHash.value) ==>
      && r == Error(401, INVALID_CREDENTIALS)
      && db.auditLog == old(db.auditLog) + [AuditEntry(OrNull(Some(user)), None, "LOGIN_FAILED", "USER", None)]
    ensures !CredentialsPass(db.users, db.roles, username, password, user, comparePassword) ==>
      && !r.Ok? && db.violations == old(db.violations)
      && db.sessions == old(db.sessions) && db.nextSessionId == old(db.nextSessionId)
    ensures CredentialsPass(db.users, db.roles, username, password, user, comparePassword) ==>
      Admitted(old(BeforeOf(db, user, clock)), db, user, row, r, macAddress, ipAddress, clock, sign, inserted)
    ensures r.Ok? ==> CredentialsPass(db.users, db.roles, username, password, user, comparePassword)
  {
    user, row := -1, None;
    if username == "" {
      return Error(400, "Username is required"), user, row;
    }
    if password == "" {
      return Error(400, "Password is required"), user, row;
    }
    if !exists id :: id in db.users && LoginMatch(db.users, db.roles, username, id) {
      db.LogAudit(None, None, "LOGIN_FAILED", "USER", None);
      return Error(401, INVALID_CREDENTIALS), user, row;
    }
    var id :| id in db.users && LoginMatch(db.users, db.roles, username, id);
    user := id;
    var u := db.users[id];
    if !TruthyText(u.passwordHash) {
      db.LogAudit(Some(id), None, "LOGIN_FAILED", "USER", None);
      assert LoginMatch(db.users, db.roles, username, id);
      return Error(401, OTP_ONLY), user, row;
    }
    if !comparePassword(password, u.passwordHash.value) {
      db.LogAudit(Some(id), None, "LOGIN_FAILED", "USER", None);
      assert LoginMatch(db.users, db.roles, username, id);
      return Error(401, INVALID_CREDENTIALS), user, row;
    }
    r, row := Admit(db, id, macAddress, ipAddress, clock, sign, inserted);
    assert LoginMatch(db.users, db.roles, username, id);
  }

  // ---------------------------------------------------------------------------
  // POST /guest/request-otp

  /** The user a guest email creates: named by the part of the email before the
      first `@`, without a password, active, in the Guest role. */
  function GuestUser(email: string, guestRoleId: int): (u: User)
    ensures u.email == email && u.roleId == guestRoleId && u.isActive && u.passwordHash.None?
    ensures u.username == BeforeFirst(email, '@')
  {
    User(BeforeFirst(email, '@'), email, None, guestRoleId, Some("Guest: " + email), None, true, None)
  }

  /** Some role is named Guest. */
  predicate HasGuestRole(db: Database)
    reads db`roles
  {
    exists id :: id in db.roles && db.roles[id] == GUEST_ROLE
  }

  /** Request a one-time password for `email`. Without a Guest role the answer is
      500 and nothing changes. Otherwise an unknown email gets a new guest user,
      a known one is moved to the Guest role, and a token with `code` is stored. */
  method RequestOtp(db: Database, email: string, code: string, clock: Clock)
    returns (r: Reply<string>, ghost guestRoleId: int, ghost user: int)
    requires db.Valid()
    modifies db`users, db`nextUserId, db`otpTokens
    ensures db.Valid()
    ensures !HasGuestRole(db) ==>
      && r == Error(500, GUEST_ROLE_NOT_FOUND)
      && db.users == old(db.users) && db.nextUserId == old(db.nextUserId) && db.otpTokens == old(db.otpTokens)
    ensures HasGuestRole(db) ==>
      && r == Ok(200, OTP_SENT)
      && guestRoleId in db.roles && db.roles[guestRoleId] == GUEST_ROLE
      && db.otpTokens == old(db.otpTokens) + [OtpToken(email, code, clock.nowMs + OTP_LIFETIME_MS, false, clock.nowMs)]
    ensures HasGuestRole(db) && (forall id :: id in old(db.users) ==> old(db.users)[id].email != email) ==>
      && user == old(db.nextUserId) && user !in old(db.users)
      && db.users == old(db.users)[user := GuestUser(email, guestRoleId)]
      && db.nextUserId == user + 1
    ensures HasGuestRole(db) && (exists id :: id in old(db.users) && old(db.users)[id].email == email) ==>
      && user in old(db.users) && old(db.users)[user].email == email
      && db.users == old(db.users)[user := old(db.users)[user].(roleId := guestRoleId)]
      && db.nextUserId == old(db.nextUserId)
  {
    if !exists id :: id in db.roles && db.roles[id] == GUEST_ROLE {
      return Error(500, GUEST_ROLE_NOT_FOUND), -1, -1;
    }
    var roleId :| roleId in db.roles && db.roles[roleId] == GUEST_ROLE;
    guestRoleId := roleId;
    if !exists id :: id in db.users && db.users[id].email == email {
      var id := db.nextUserId;
      db.users := db.users[id := GuestUser(email, roleId)];
      db.nextUserId := id + 1;
      user := id;
    } else {
      var id :| id in db.users && db.users[id].email == email;
      user := id;
      if db.users[id].roleId != roleId {
        db.users := db.users[id := db.users[id].(roleId := roleId)];
      }
    }
    CreateOtpToken(db, email, code, clock.nowMs);
    r := Ok(200, OTP_SENT);
  }

  // ---------------------------------------------------------------------------
  // POST /guest/verify-otp

  /** `id` is a row of the guest lookup: an active user with that email, joined
      with an existing role. */
  predicate GuestMatch(users: map<int, User>, roles: map<int, string>, email: string, id: int) {
    && id in users && users[id].email == email && users[id].isActive
    && users[id].roleId in roles
  }

  const OTP_LENGTH: string := "OTP must be 6 digits"

  /** The outcome `r` of redeeming `code` for `email`, with the tokens going from
      `before` to `after`: a code that is not six characters is refused (400); a
      code usable nowhere gives 401 and leaves the tokens as they are; otherwise
      the newest usable token is consumed, and the answer is the active guest user
      of `email`, or 401 "User not found" when there is none. */
  ghost predicate Redeemed(before: seq<OtpToken>, after: seq<OtpToken>, users: map<int, User>,
                           roles: map<int, string>, email: string, code: string, now: int,
                           r: Reply<int>, token: int)
  {
    && (|code| != 6 ==> r == Error(400, OTP_LENGTH) && after == before)
    && (|code| == 6 && !(exists i :: Usable(before, i, email, code, now)) ==>
          r == Error(401, INVALID_OTP) && after == before)
    && (|code| == 6 && (exists i :: Usable(before, i, email, code, now)) ==>
          && Newest(before, token, email, code, now)
          && after == MarkUsed(before, token)
          && (r.Ok? <==> exists id :: GuestMatch(users, roles, email, id))
          && (!r.Ok? ==> r == Error(401, USER_NOT_FOUND)))
    && (r.Ok? ==> GuestMatch(users, roles, email, r.value))
  }

  /** A failed code is audited as a failed login; no other outcome of the
      redemption writes to the audit log. */
  function RedeemAudit(r: Reply<int>): (log: seq<AuditEntry>)
    ensures |log| <= 1
    ensures log != [] <==> r == Error(401, INVALID_OTP)
  {
    if r == Error(401, INVALID_OTP) then [AuditEntry(None, None, "LOGIN_FAILED", "USER", None)] else []
  }

  /** The first half of guest login: check the code's length, redeem it, and look
      up the guest user of `email`. */
  method RedeemGuestCode(db: Database, email: string, code: string, now: int)
    returns (r: Reply<int>, ghost token: int)
    modifies db`otpTokens, db`auditLog
    ensures Redeemed(old(db.otpTokens), db.otpTokens, db.users, db.roles, email, code, now, r, token)
    ensures db.auditLog == old(db.auditLog) + RedeemAudit(r)
  {
    token := -1;
    if |code| != 6 {
      return Error(400, OTP_LENGTH), token;
    }
    var verification;
    verification, token := VerifyOtp(db, email, code, now);
    if verification.Invalid? {
      db.LogAudit(None, None, "LOGIN_FAILED", "USER", None);
      return Error(401, verification.error), token;
    }
    if !exists id :: id in db.users && GuestMatch(db.users, db.roles, email, id) {
      return Error(401, USER_NOT_FOUND), token;
    }
    var id :| id in db.users && GuestMatch(db.users, db.roles, email, id);
    r := Ok(200, id);
  }

  /** Complete guest login: `RedeemGuestCode`; any failure there is the answer,
      with no policy evaluated and no session created; for the user it found,
      `Admit` decides. */
  method VerifyOtpLogin(db: Database, email: string, code: string, macAddress: Option<string>, ipAddress: string,
                        clock: Clock, sign: (int, int) -> string, inserted: bool)
    returns (r: Reply<LoginGrant>, redeemed: Reply<int>, ghost token: int, ghost row: Option<Joined>)
    requires db.Valid()
    modifies db`otpTokens, db`sessions, db`nextSessionId, db`auditLog, db`violations
    ensures db.Valid()
    ensures Redeemed(old(db.otpTokens), db.otpTokens, db.users, db.roles, email, code, clock.nowMs, redeemed, token)
    ensures redeemed.Error? ==>
      && r == Error(redeemed.status, redeemed.message)
      && db.auditLog == old(db.auditLog) + RedeemAudit(redeemed)
      && db.violations == old(db.violations)
      && db.sessions == old(db.sessions) && db.nextSessionId == old(db.nextSessionId)
    ensures redeemed.Ok? ==>
      Admitted(old(BeforeOf(db, redeemed.value, clock)), db, redeemed.value, row, r,
               macAddress, ipAddress, clock, sign, inserted)
  {
    row := None;
    redeemed, token := RedeemGuestCode(db, email, code, clock.nowMs);
    if redeemed.Error? {
      return Error(redeemed.status, redeemed.message), redeemed, token, row;
    }
    var id := redeemed.value;
    assert BeforeOf(db, id, clock) == old(BeforeOf(db, id, clock));
    r, row := Admit(db, id, macAddress, ipAddress, clock, sign, inserted);
  }

  // ---------------------------------------------------------------------------
  // POST /logout

  /** The token of an `Authorization` header: the second space-separated piece,
      or none when the header is missing, empty or has no space. */
  function BearerToken(header: Option<string>): (t: Option<string>)
    ensures t.Some? ==> ' ' !in t.value
  {
    if !TruthyText(header) then None
    else
      var scheme := BeforeFirst(header.value, ' ');
      if |scheme| == |header.value| then None
      else Some(BeforeFirst(header.value[|scheme| + 1..], ' '))
  }

  /** A header `scheme token` carries `token`. */
  lemma BearerTokenOfHeader(scheme: string, token: string)
    requires ' ' !in scheme && ' ' !in token
    ensures BearerToken(Some(scheme + " " + token)) == Some(token)
  {
    var header := scheme + " " + token;
    assert header == scheme + [' '] + token;
    BeforeFirstOfJoin(scheme, ' ', token);
    assert header[|scheme| + 1..] == token;
    BeforeFirstWithoutSeparator(token, ' ');
  }

  /** `UPDATE sessions SET is_active = false, ended_at = NOW() WHERE
      session_token = token AND is_active = true`. */
  function EndMatching(sessions: map<int, Session>, token: string, now: int): (r: map<int, Session>)
    ensures r.Keys == sessions.Keys
  {
    map id | id in sessions ::
      if sessions[id].token == token && sessions[id].isActive then sessions[id].Ended(now) else sessions[id]
  }

  /** End the active sessions carrying the request's token; always succeeds. */
  method Logout(db: Database, authorization: Option<string>, now: int) returns (r: Reply<string>)
    modifies db`sessions
    ensures r == Ok(200, LOGGED_OUT)
    ensures BearerToken(authorization).None? ==> db.sessions == old(db.sessions)
    ensures BearerToken(authorization).Some? && BearerToken(authorization).value == "" ==>
      db.sessions == old(db.sessions)
    ensures TruthyText(BearerToken(authorization)) ==>
      db.sessions == EndMatching(old(db.sessions), BearerToken(authorization).value, now)
  {
    var token := BearerToken(authorization);
    if TruthyText(token) {
      db.sessions := EndMatching(db.sessions, token.value, now);
    }
    r := Ok(200, LOGGED_OUT);
  }

  /** Logout changes exactly the active sessions carrying the token, ending them
      at `now`; every other session is left as it was. */
  lemma LogoutEndsOnlyMatchingActive(sessions: map<int, Session>, token: string, now: int, id: int)
    requires id in sessions
    ensures EndMatching(sessions, token, now)[id] != sessions[id] <==>
      sessions[id].token == token && sessions[id].isActive
    ensures sessions[id].token == token && sessions[id].isActive ==>
      !EndMatching(sessions, token, now)[id].isActive && EndMatching(sessions, token, now)[id].endedAt == Some(now)
  {
  }

  /** A second logout with the same token, at any time, changes nothing: every
      session it could end was ended by the first. */
  lemma LogoutIsIdempotent(sessions: map<int, Session>, token: string, first: int, second: int)
    ensures EndMatching(EndMatching(sessions, token, first), token, second) == EndMatching(sessions, token, first)
  {
    var once := EndMatching(sessions, token, first);
    var twice := EndMatching(once, token, second);
    forall id | id in twice
      ensures twice[id] == once[id]
    {
      assert !(once[id].token == token && once[id].isActive);
    }
  }
}
