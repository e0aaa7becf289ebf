/** The Postgres tables the core reads and writes, as the fields of one object.
    Tables keyed by a serial id are maps from that id to the row; the two
    append-only tables (`otp_tokens`, `policy_violations`) and the audit log are
    sequences in insertion order. Every time is in epoch milliseconds. */
module Store {
  import opened Common

  /** A row of `users`. `passwordHash` is NULL for accounts that sign in by one-time
      password; `updatedAt` is NULL until the first partial update. */
  datatype User = User(
    username: string,
    email: string,
    passwordHash: Option<string>,
    roleId: int,
    fullName: Option<string>,
    macAddress: Option<string>,
    isActive: bool,
    updatedAt: Option<int>)

  /** A row of `policies`: one per role. NULL quota or session limit means none; the
      hour bounds are the texts their `TIME` columns read back (see
      `TimeOfDay.AsTime`), or NULL. */
  datatype Policy = Policy(
    roleId: int,
    bandwidthDownMbps: nat,
    bandwidthUpMbps: nat,
    dailyQuotaGb: Option<nat>,
    sessionTimeLimitMinutes: Option<nat>,
    allowedHoursStart: Option<string>,
    allowedHoursEnd: Option<string>,
    blockedCategories: Option<seq<string>>,
    access24x7: bool,
    updatedAt: Option<int>)

  /** A row of `sessions`. */
  datatype Session = Session(
    userId: int,
    roleId: int,
    token: string,
    ipAddress: string,
    macAddress: Option<string>,
    startedAt: int,
    expiresAt: int,
    isActive: bool,
    endedAt: Option<int>)
  {
    /** The row after `SET is_active = false, ended_at = NOW()`. */
    function Ended(now: int): Session {
      this.(isActive := false, endedAt := Some(now))
    }
  }

  /** A row of `otp_tokens`. */
  datatype OtpToken = OtpToken(email: string, code: string, expiresAt: int, used: bool, createdAt: int)

  datatype ViolationType = TimeRestriction | QuotaExceeded | SessionTimeLimit | CategoryBlocked

  /** A row of `policy_violations`. */
  datatype Violation = Violation(
    userId: int,
    sessionId: Option<int>,
    violationType: ViolationType,
    details: string,
    createdAt: int)

  /** A row of `audit_logs` (the JSON `details` and the client address are not kept). */
  datatype AuditEntry = AuditEntry(
    userId: Option<int>,
    adminId: Option<int>,
    action: string,
    resourceType: string,
    resourceId: Option<int>)

  /** An id as `logAudit` stores it: `id || null`, so an absent id and the id 0
      are both NULL. */
  function OrNull(id: Option<int>): (r: Option<int>)
    ensures r.Some? <==> id.Some? && id.value != 0
    ensures r.Some? ==> r == id
  {
    if id.Some? && id.value != 0 then id else None
  }

  class Database {
    var users: map<int, User>
    var roles: map<int, string>
    var policies: map<int, Policy>
    var sessions: map<int, Session>
    var otpTokens: seq<OtpToken>
    var violations: seq<Violation>
    var auditLog: seq<AuditEntry>
    /** `COALESCE(SUM(data_used_bytes), 0)` of today's `usage_tracking` rows per user;
        written by a metering path outside the core, read here. */
    var usageToday: map<int, nat>
    /** The next values of the `users.id` and `sessions.id` serials. */
    var nextUserId: int
    var nextSessionId: int

    /** Serial ids are never reused: every existing id is below the next one. */
    ghost predicate Valid()
      reads this`users, this`nextUserId, this`sessions, this`nextSessionId
    {
      && (forall id :: id in users ==> id < nextUserId)
      && (forall id :: id in sessions ==> id < nextSessionId)
    }

    /** Append one audit entry; the insert is taken to succeed. */
    method LogAudit(userId: Option<int>, adminId: Option<int>, action: string, resourceType: string,
                    resourceId: Option<int>)
      modifies this`auditLog
      ensures auditLog ==
        old(auditLog) + [AuditEntry(OrNull(userId), OrNull(adminId), action, resourceType, OrNull(resourceId))]
    {
      auditLog := auditLog + [AuditEntry(OrNull(userId), OrNull(adminId), action, resourceType, OrNull(resourceId))];
    }
  }
}
