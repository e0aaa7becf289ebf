/** The session routes: ending a session by id, reading the caller's current
    session with its policy status, and the filters of the admin session list. */
module Sessions {
  import opened Common
  import opened Store
  import opened PolicyEngine

  const SESSION_NOT_FOUND: string := "Session not found"
  const NO_ACTIVE_SESSION: string := "No active session found"
  const DISCONNECTED: string := "Session disconnected successfully"
  const DEFAULT_LIST_LIMIT: int := 50

  // ---------------------------------------------------------------------------
  // POST /:sessionId/disconnect

  /** Only an Admin or the session's owner may end it. */
  predicate MayDisconnect(caller: Caller, s: Session) {
    IsAdmin(caller) || s.userId == caller.id
  }

  /** End a session by id: 404 when there is none, 403 when the caller may not,
      and otherwise the session is ended at `now` whatever its state, and the
      audit entry names the caller as admin only when the caller is an Admin. */
  method Disconnect(db: Database, caller: Caller, sessionId: int, now: int) returns (r: Reply<string>)
    modifies db`sessions, db`auditLog
    ensures sessionId !in old(db.sessions) ==>
      r == Error(404, SESSION_NOT_FOUND) && db.sessions == old(db.sessions) && db.auditLog == old(db.auditLog)
    ensures sessionId in old(db.sessions) && !MayDisconnect(caller, old(db.sessions)[sessionId]) ==>
      r == Error(403, ACCESS_DENIED) && db.sessions == old(db.sessions) && db.auditLog == old(db.auditLog)
    ensures sessionId in old(db.sessions) && MayDisconnect(caller, old(db.sessions)[sessionId]) ==>
      && r == Ok(200, DISCONNECTED)
      && db.sessions == old(db.sessions)[sessionId := old(db.sessions)[sessionId].Ended(now)]
      && db.auditLog == old(db.auditLog) + [AuditEntry(
           OrNull(Some(old(db.sessions)[sessionId].userId)),
           if IsAdmin(caller) then OrNull(Some(caller.id)) else None,
           "SESSION_DISCONNECTED", "SESSION", OrNull(Some(sessionId)))]
  {
    if sessionId !in db.sessions {
      return Error(404, SESSION_NOT_FOUND);
    }
    var session := db.sessions[sessionId];
    if !IsAdmin(caller) && session.userId != caller.id {
      return Error(403, ACCESS_DENIED);
    }
    db.sessions := db.sessions[sessionId := session.Ended(now)];
    db.LogAudit(Some(session.userId), if IsAdmin(caller) then Some(caller.id) else None,
                "SESSION_DISCONNECTED", "SESSION", Some(sessionId));
    r := Ok(200, DISCONNECTED);
  }

  /** Disconnect does not check whether the session already ended: a second
      disconnect at a later time moves `endedAt` to that time. */
  lemma SecondDisconnectOverwritesEndedAt(s: Session, first: int, second: int)
    ensures s.Ended(first).Ended(second) == s.Ended(second)
    ensures first != second ==> s.Ended(first).Ended(second) != s.Ended(first)
  {
  }

  // ---------------------------------------------------------------------------
  // GET /current

  /** Session `id` is a row of the current-session query for `userId`: the
      user's active session, joined with an existing role and user. */
  predicate ActiveOf(sessions: map<int, Session>, users: map<int, User>, roles: map<int, string>,
                     userId: int, id: int)
  {
    && id in sessions
    && sessions[id].userId == userId && sessions[id].isActive
    && sessions[id].roleId in roles && userId in users
  }

  /** No active session of the user started later than `id`. */
  predicate Latest(sessions: map<int, Session>, users: map<int, User>, roles: map<int, string>,
                   userId: int, id: int)
  {
    && ActiveOf(sessions, users, roles, userId, id)
    && forall j :: j in sessions && ActiveOf(sessions, users, roles, userId, j) ==>
         sessions[j].startedAt <= sessions[id].startedAt
  }

  /** The current session and its policy status as of now. */
  datatype CurrentStatus = CurrentStatus(sessionId: int, session: Session, policyCheck: Decision)

  /** The caller's most recently started active session, or 404; its policy is
      evaluated with that session's id and no URL. */
  method Current(db: Database, caller: Caller, clock: Clock, inserted: bool)
    returns (r: Reply<CurrentStatus>, ghost row: Option<Joined>)
    modifies db`violations
    ensures (forall id :: !ActiveOf(db.sessions, db.users, db.roles, caller.id, id)) ==>
      r == Error(404, NO_ACTIVE_SESSION) && db.violations == old(db.violations)
    ensures (exists id :: ActiveOf(db.sessions, db.users, db.roles, caller.id, id)) ==> r.Ok?
    ensures r.Ok? ==>
      && r.status == 200
      && Latest(db.sessions, db.users, db.roles, caller.id, r.value.sessionId)
      && r.value.session == db.sessions[r.value.sessionId]
      && LookedUp(db, caller.id, row)
      && r.value.policyCheck ==
         Decide(row, Some(r.value.sessionId), None, EnvOf(db, caller.id, Some(r.value.sessionId), clock))
      && db.violations == old(db.violations) +
         (if inserted then Logged(r.value.policyCheck, caller.id, Some(r.value.sessionId), clock.nowMs) else [])
  {
    var sessions := db.sessions;
    var active := set id | id in sessions && ActiveOf(sessions, db.users, db.roles, caller.id, id);
    assert forall id :: ActiveOf(sessions, db.users, db.roles, caller.id, id) ==> id in active;
    if active == {} {
      return Error(404, NO_ACTIVE_SESSION), None;
    }
    var key := (id: int) => if id in sessions then sessions[id].startedAt else 0;
    MaxExists(active, key);
    var id :| id in active && forall j :: j in active ==> key(j) <= key(id);
    assert Latest(sessions, db.users, db.roles, caller.id, id);
    var d;
    d, row := EvaluatePolicy(db, caller.id, Some(id), None, clock, inserted);
    r := Ok(200, CurrentStatus(id, sessions[id], d));
    assert ActiveOf(db.sessions, db.users, db.roles, caller.id, id);
  }

  // ---------------------------------------------------------------------------
  // GET / (admin list)

  datatype ListParam = PBool(b: bool) | PText(s: string) | PInt(i: int)

  /** A filter of the list query: `s.is_active = $p` or `r.name = $p`. */
  datatype Condition = ActiveIs(placeholder: nat) | RoleNameIs(placeholder: nat)

  /** `… WHERE 1=1 AND conditions ORDER BY s.started_at DESC LIMIT $limitPlaceholder`. */
  datatype ListQuery = ListQuery(conditions: seq<Condition>, limitPlaceholder: nat, params: seq<ListParam>)

  /** Placeholders run `$1..$n` over the conditions, the limit takes `$(n+1)`,
      and each placeholder names a parameter of the right kind. */
  predicate WellNumbered(q: ListQuery) {
    && q.limitPlaceholder == |q.conditions| + 1 == |q.params|
    && q.params[q.limitPlaceholder - 1].PInt?
    && forall k :: 0 <= k < |q.conditions| ==>
         && q.conditions[k].placeholder == k + 1
         && (q.conditions[k].ActiveIs? ==> q.params[k].PBool?)
         && (q.conditions[k].RoleNameIs? ==> q.params[k].PText?)
  }

  /** The condition holds of a session row with that activity and role name. */
  predicate Holds(c: Condition, params: seq<ListParam>, isActive: bool, roleName: string) {
    && 1 <= c.placeholder <= |params|
    && match c
       case ActiveIs(p) => params[p - 1] == PBool(isActive)
       case RoleNameIs(p) => params[p - 1] == PText(roleName)
  }

  /** A session row with that activity and role name passes every filter. */
  predicate Admits(q: ListQuery, isActive: bool, roleName: string) {
    forall k :: 0 <= k < |q.conditions| ==> Holds(q.conditions[k], q.params, isActive, roleName)
  }

  /** Build the list query from the query string: a present `active` filters on
      `active == "true"` (so any other present value selects ended sessions), a
      non-empty `role` filters on the role name, and the limit defaults to 50. */
  method BuildSessionList(active: Option<string>, role: Option<string>, limit: Option<int>) returns (q: ListQuery)
    ensures WellNumbered(q)
    ensures q.params[q.limitPlaceholder - 1] == PInt(if limit.Some? then limit.value else DEFAULT_LIST_LIMIT)
    ensures |q.conditions| == (if active.Some? then 1 else 0) + (if TruthyText(role) then 1 else 0)
    ensures forall isActive, roleName :: Admits(q, isActive, roleName) <==>
      && (active.Some? ==> isActive == (active.value == "true"))
      && (TruthyText(role) ==> roleName == role.value)
  {
    var conditions: seq<Condition> := [];
    var params: seq<ListParam> := [];
    var paramCount := 1;
    if active.Some? {
      conditions := conditions + [ActiveIs(paramCount)];
      paramCount := paramCount + 1;
      params := params + [PBool(active.value == "true")];
    }
    if TruthyText(role) {
      conditions := conditions + [RoleNameIs(paramCount)];
      paramCount := paramCount + 1;
      params := params + [PText(role.value)];
    }
    var lim := if limit.Some? then limit.value else DEFAULT_LIST_LIMIT;
    params := params + [PInt(lim)];
    q := ListQuery(conditions, paramCount, params);
    forall isActive, roleName
      ensures Admits(q, isActive, roleName) <==>
        && (active.Some? ==> isActive == (active.value == "true"))
        && (TruthyText(role) ==> roleName == role.value)
    {
      if active.Some? {
        assert q.conditions[0] == ActiveIs(1);
      }
      if TruthyText(role) {
        assert q.conditions[|q.conditions| - 1] == RoleNameIs(|q.conditions|);
      }
    }
  }
}
