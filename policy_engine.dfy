/** The policy decision engine: four independent rule checks and the ordered,
    short-circuiting evaluation that records one violation per denial. */
module PolicyEngine {
  import opened Common
  import opened JsString
  import opened TimeOfDay
  import opened Store

  const BYTES_PER_GB: nat := 1024 * 1024 * 1024
  const MS_PER_MINUTE: nat := 60 * 1000
  const P2P: string := "P2P"
  const P2P_KEYWORDS: seq<string> := ["torrent", "bittorrent", "utorrent", "peer", "magnet:"]

  // ---------------------------------------------------------------------------
  // Time of day

  datatype TimeCheck = TimeAllowed | TimeDenied(start: string, end: string)
  {
    function Reason(): string
      requires TimeDenied?
    {
      "Access denied. Allowed hours: " + start + " - " + end
    }
  }

  /** Both hour bounds are configured (non-NULL and non-empty). */
  predicate HasWindow(p: Policy) {
    TruthyText(p.allowedHoursStart) && TruthyText(p.allowedHoursEnd)
  }

  /** The time-of-day rule, given the current local "HH:MM:SS". */
  function CheckTimeRestriction(p: Policy, now: string): (r: TimeCheck)
    ensures r.TimeAllowed? <==>
      p.access24x7 || !HasWindow(p)
      || (LexLe(p.allowedHoursStart.value, now) && LexLe(now, p.allowedHoursEnd.value))
    ensures r.TimeDenied? ==>
      r.start == p.allowedHoursStart.value && r.end == p.allowedHoursEnd.value
  {
    if p.access24x7 then TimeAllowed
    else if HasWindow(p) then
      var start, end := p.allowedHoursStart.value, p.allowedHoursEnd.value;
      if LexLe(start, now) && LexLe(now, end) then TimeAllowed else TimeDenied(start, end)
    else TimeAllowed
  }

  /** Both bounds are part of the window: at exactly `start` or exactly `end` the
      check allows, whenever the window is not inverted. */
  lemma WindowBoundsAreInclusive(p: Policy)
    requires HasWindow(p)
    requires LexLe(p.allowedHoursStart.value, p.allowedHoursEnd.value)
    ensures CheckTimeRestriction(p, p.allowedHoursStart.value).TimeAllowed?
    ensures CheckTimeRestriction(p, p.allowedHoursEnd.value).TimeAllowed?
  {
    LexLeReflexive(p.allowedHoursStart.value);
    LexLeReflexive(p.allowedHoursEnd.value);
  }

  /** A window whose start sorts after its end (one meant to span midnight) denies
      at every time of day unless the policy is 24x7. */
  lemma InvertedWindowAlwaysDenies(p: Policy, now: string)
    requires !p.access24x7 && HasWindow(p)
    requires !LexLe(p.allowedHoursStart.value, p.allowedHoursEnd.value)
    ensures CheckTimeRestriction(p, now).TimeDenied?
  {
    if LexLe(p.allowedHoursStart.value, now) && LexLe(now, p.allowedHoursEnd.value) {
      LexLeTransitive(p.allowedHoursStart.value, now, p.allowedHoursEnd.value);
    }
  }

  /** With well-formed readings the window is the inclusive interval of clock
      instants from `start` to `end`. */
  lemma TimeCheckIsClockInterval(p: Policy, now: string)
    requires !p.access24x7 && HasWindow(p)
    requires WellFormed(p.allowedHoursStart.value) && WellFormed(p.allowedHoursEnd.value)
    requires WellFormed(now)
    ensures CheckTimeRestriction(p, now).TimeAllowed?
        <==> Seconds(p.allowedHoursStart.value) <= Seconds(now) <= Seconds(p.allowedHoursEnd.value)
  {
    InWindowIsClockInterval(p.allowedHoursStart.value, now, p.allowedHoursEnd.value);
  }

  // ---------------------------------------------------------------------------
  // Daily quota

  datatype QuotaCheck =
    | QuotaUnlimited
    | QuotaAllowed(remaining: int, used: nat, quota: nat)
    | QuotaDenied(used: nat, quota: nat)

  function QuotaBytes(gb: nat): nat {
    gb * BYTES_PER_GB
  }

  /** The quota rule, given today's byte total for the user. */
  function CheckQuota(p: Policy, usedBytes: nat): (r: QuotaCheck)
    ensures r.QuotaUnlimited? <==> !TruthyNat(p.dailyQuotaGb)
    ensures r.QuotaDenied? <==>
      TruthyNat(p.dailyQuotaGb) && usedBytes >= QuotaBytes(p.dailyQuotaGb.value)
    ensures !r.QuotaUnlimited? ==>
      r.used == usedBytes && r.quota == QuotaBytes(p.dailyQuotaGb.value)
    ensures r.QuotaAllowed? ==> r.remaining == r.quota - r.used && r.remaining > 0
  {
    if !TruthyNat(p.dailyQuotaGb) then QuotaUnlimited
    else
      var quota := QuotaBytes(p.dailyQuotaGb.value);
      var remaining := quota - usedBytes;
      if remaining <= 0 then QuotaDenied(usedBytes, quota)
      else QuotaAllowed(remaining, usedBytes, quota)
  }

  /** A quota of one GB allows one byte less than a GiB and denies a full GiB. */
  lemma OneGigabyteBoundary(p: Policy)
    requires p.dailyQuotaGb == Some(1)
    ensures CheckQuota(p, 1_073_741_823) == QuotaAllowed(1, 1_073_741_823, 1_073_741_824)
    ensures CheckQuota(p, 1_073_741_824) == QuotaDenied(1_073_741_824, 1_073_741_824)
  {
  }

  // ---------------------------------------------------------------------------
  // Session time limit

  datatype SessionCheck =
    | SessionUnlimited
    | SessionAllowed(remaining: int)
    | SessionNotFound
    | SessionExceeded(limit: nat)
  {
    predicate Allowed() {
      SessionUnlimited? || SessionAllowed?
    }

    function Reason(): string
      requires !Allowed()
    {
      if SessionNotFound? then "Session not found"
      else "Session time limit (" + Decimal(limit) + " min) exceeded"
    }
  }

  /** Whole minutes since `startedAt`, rounded down. */
  function ElapsedMinutes(startedAt: int, now: int): (m: int)
    ensures m * MS_PER_MINUTE <= now - startedAt < (m + 1) * MS_PER_MINUTE
  {
    (now - startedAt) / MS_PER_MINUTE
  }

  /** The session rule, given the start of the session (None when no session row
      has the id). */
  function CheckSessionTimeLimit(p: Policy, startedAt: Option<int>, now: int): (r: SessionCheck)
    ensures r.SessionUnlimited? <==> !TruthyNat(p.sessionTimeLimitMinutes)
    ensures r.SessionNotFound? <==> TruthyNat(p.sessionTimeLimitMinutes) && startedAt.None?
    ensures r.SessionExceeded? <==>
      TruthyNat(p.sessionTimeLimitMinutes) && startedAt.Some?
      && ElapsedMinutes(startedAt.value, now) >= p.sessionTimeLimitMinutes.value
    ensures r.SessionExceeded? ==> r.limit == p.sessionTimeLimitMinutes.value
    ensures r.SessionAllowed? ==>
      r.remaining == p.sessionTimeLimitMinutes.value - ElapsedMinutes(startedAt.value, now)
      && r.remaining >= 1
  {
    if !TruthyNat(p.sessionTimeLimitMinutes) then SessionUnlimited
    else if startedAt.None? then SessionNotFound
    else
      var limit := p.sessionTimeLimitMinutes.value;
      var elapsed := ElapsedMinutes(startedAt.value, now);
      if elapsed >= limit then SessionExceeded(limit) else SessionAllowed(limit - elapsed)
  }

  /** A 30-minute limit denies a session started exactly 30 minutes ago and allows
      one started 29 minutes ago with one minute left. */
  lemma ThirtyMinuteBoundary(p: Policy, now: int)
    requires p.sessionTimeLimitMinutes == Some(30)
    ensures CheckSessionTimeLimit(p, Some(now - 30 * MS_PER_MINUTE), now) == SessionExceeded(30)
    ensures CheckSessionTimeLimit(p, Some(now - 29 * MS_PER_MINUTE), now) == SessionAllowed(1)
  {
    assert ElapsedMinutes(now - 30 * MS_PER_MINUTE, now) == 30;
    assert ElapsedMinutes(now - 29 * MS_PER_MINUTE, now) == 29;
  }

  // ---------------------------------------------------------------------------
  // Category block

  datatype CategoryCheck = CategoryAllowed | CategoryDenied(category: string)

  function BlockedCategories(p: Policy): seq<string> {
    if p.blockedCategories.Some? then p.blockedCategories.value else []
  }

  /** The lower-cased locator contains one of the peer-to-peer keywords. */
  predicate LooksLikeP2P(url: string) {
    exists k :: k in P2P_KEYWORDS && Includes(ToLowerCase(url), k)
  }

  /** The category rule. Only the P2P tag has keywords; any other tag is inert. */
  function CheckCategoryBlock(url: string, p: Policy): (r: CategoryCheck)
    ensures r.CategoryDenied? <==> P2P in BlockedCategories(p) && LooksLikeP2P(url)
    ensures r.CategoryDenied? ==> r.category == P2P
  {
    if |BlockedCategories(p)| == 0 then CategoryAllowed
    else if P2P in BlockedCategories(p) && LooksLikeP2P(url) then CategoryDenied(P2P)
    else CategoryAllowed
  }

  /** "bittorrent" and "utorrent" add nothing to the keyword list: a locator is
      caught exactly when it contains "torrent", "peer" or "magnet:" in any case. */
  lemma P2PKeywordsReduceToThree(url: string)
    ensures LooksLikeP2P(url) <==>
      (var u := ToLowerCase(url);
       Includes(u, "torrent") || Includes(u, "peer") || Includes(u, "magnet:"))
  {
    var u := ToLowerCase(url);
    IncludesAt("bittorrent", "torrent");
    assert OccursAt("bittorrent", "torrent", 3);
    IncludesAt("utorrent", "torrent");
    assert OccursAt("utorrent", "torrent", 1);
    if Includes(u, "bittorrent") {
      IncludesTransitive(u, "bittorrent", "torrent");
    }
    if Includes(u, "utorrent") {
      IncludesTransitive(u, "utorrent", "torrent");
    }
    assert P2P_KEYWORDS[0] == "torrent" && P2P_KEYWORDS[3] == "peer" && P2P_KEYWORDS[4] == "magnet:";
  }

  /** A magnet link is blocked under a P2P policy. */
  lemma MagnetLinkIsBlocked(p: Policy)
    requires P2P in BlockedCategories(p)
    ensures CheckCategoryBlock("magnet:?xt=urn:btih:0", p) == CategoryDenied(P2P)
  {
    var u := ToLowerCase("magnet:?xt=urn:btih:0");
    assert u[..7] == "magnet:";
    assert Includes(u, "magnet:");
    assert P2P_KEYWORDS[4] == "magnet:";
  }

  /** A blocked list without the P2P tag never blocks anything. */
  lemma OnlyP2PIsEnforced(p: Policy, url: string)
    requires P2P !in BlockedCategories(p)
    ensures CheckCategoryBlock(url, p) == CategoryAllowed
  {
  }

  // ---------------------------------------------------------------------------
  // Evaluation

  /** The row of the `users JOIN roles JOIN policies` lookup: the role's name and
      the role's policy. */
  datatype Joined = Joined(roleName: string, policy: Policy)

  /** What the checks read besides the policy: the clock, today's byte total for
      the user, and the start of the named session if a row has that id. */
  datatype Env = Env(clock: Clock, usedBytes: nat, sessionStartedAt: Option<int>)

  datatype Decision =
    | UserOrPolicyNotFound
    | AdminExempt(bandwidthDown: nat, bandwidthUp: nat)
    | DeniedByTime(time: TimeCheck)
    | DeniedByQuota(quota: QuotaCheck)
    | DeniedBySession(session: SessionCheck)
    | DeniedByCategory(category: CategoryCheck)
    | Granted(bandwidthDown: nat, bandwidthUp: nat, quota: QuotaCheck, sessionLimit: Option<nat>)
  {
    predicate Allowed() {
      AdminExempt? || Granted?
    }

    /** The `reason` field of a denial. */
    function Reason(): string
      requires !Allowed()
    {
      match this
      case UserOrPolicyNotFound => "User or policy not found"
      case DeniedByTime(t) => if t.TimeDenied? then t.Reason() else ""
      case DeniedByQuota(_) => "Daily quota exceeded"
      case DeniedBySession(s) => if !s.Allowed() then s.Reason() else ""
      case DeniedByCategory(_) => "P2P/torrenting is blocked for your role"
    }
  }

  /** JavaScript truthiness of the optional session id argument. */
  predicate SessionGiven(sessionId: Option<int>) {
    sessionId.Some? && sessionId.value != 0
  }

  /** The ordered rule chain: lookup, Admin exemption, time, quota, session (only
      with a session id), category (only with a locator); the first denial wins. */
  function Decide(row: Option<Joined>, sessionId: Option<int>, url: Option<string>, env: Env): (d: Decision)
    ensures d.UserOrPolicyNotFound? <==> row.None?
  {
    if row.None? then UserOrPolicyNotFound
    else
      var p := row.value.policy;
      if row.value.roleName == ADMIN_ROLE then AdminExempt(p.bandwidthDownMbps, p.bandwidthUpMbps)
      else
        var timeCheck := CheckTimeRestriction(p, env.clock.timeOfDay);
        if timeCheck.TimeDenied? then DeniedByTime(timeCheck)
        else
          var quotaCheck := CheckQuota(p, env.usedBytes);
          if quotaCheck.QuotaDenied? then DeniedByQuota(quotaCheck)
          else
            var sessionCheck :=
              if SessionGiven(sessionId)
              then CheckSessionTimeLimit(p, env.sessionStartedAt, env.clock.nowMs)
              else SessionUnlimited;
            if !sessionCheck.Allowed() then DeniedBySession(sessionCheck)
            else
              var categoryCheck :=
                if TruthyText(url) then CheckCategoryBlock(url.value, p) else CategoryAllowed;
              if categoryCheck.CategoryDenied? then DeniedByCategory(categoryCheck)
              else Granted(p.bandwidthDownMbps, p.bandwidthUpMbps, quotaCheck, p.sessionTimeLimitMinutes)
  }

  /** Decide is the ordered chain: each denial names the first rule that failed,
      every rule before it passed, and the request is granted exactly when no
      applicable rule failed. */
  lemma DecideIsOrderedChain(row: Option<Joined>, sessionId: Option<int>, url: Option<string>, env: Env)
    ensures var d := Decide(row, sessionId, url, env);
      d.AdminExempt? <==> row.Some? && row.value.roleName == ADMIN_ROLE
    ensures var d := Decide(row, sessionId, url, env);
      d.DeniedByTime? ==>
        d.time == CheckTimeRestriction(row.value.policy, env.clock.timeOfDay) && d.time.TimeDenied?
    ensures var d := Decide(row, sessionId, url, env);
      d.DeniedByQuota? ==>
        && CheckTimeRestriction(row.value.policy, env.clock.timeOfDay).TimeAllowed?
        && d.quota == CheckQuota(row.value.policy, env.usedBytes) && d.quota.QuotaDenied?
    ensures var d := Decide(row, sessionId, url, env);
      d.DeniedBySession? ==>
        && CheckTimeRestriction(row.value.policy, env.clock.timeOfDay).TimeAllowed?
        && !CheckQuota(row.value.policy, env.usedBytes).QuotaDenied?
        && SessionGiven(sessionId)
        && d.session == CheckSessionTimeLimit(row.value.policy, env.sessionStartedAt, env.clock.nowMs)
        && !d.session.Allowed()
    ensures var d := Decide(row, sessionId, url, env);
      d.DeniedByCategory? ==>
        && CheckTimeRestriction(row.value.policy, env.clock.timeOfDay).TimeAllowed?
        && !CheckQuota(row.value.policy, env.usedBytes).QuotaDenied?
        && (SessionGiven(sessionId) ==>
              CheckSessionTimeLimit(row.value.policy, env.sessionStartedAt, env.clock.nowMs).Allowed())
        && TruthyText(url)
        && d.category == CheckCategoryBlock(url.value, row.value.policy) && d.category.CategoryDenied?
    ensures var d := Decide(row, sessionId, url, env);
      d.Granted? <==>
        && row.Some? && row.value.roleName != ADMIN_ROLE
        && CheckTimeRestriction(row.value.policy, env.clock.timeOfDay).TimeAllowed?
        && !CheckQuota(row.value.policy, env.usedBytes).QuotaDenied?
        && (SessionGiven(sessionId) ==>
              CheckSessionTimeLimit(row.value.policy, env.sessionStartedAt, env.clock.nowMs).Allowed())
        && (TruthyText(url) ==> CheckCategoryBlock(url.value, row.value.policy).CategoryAllowed?)
    ensures var d := Decide(row, sessionId, url, env);
      d.Granted? ==>
        && d.quota == CheckQuota(row.value.policy, env.usedBytes)
        && d.sessionLimit == row.value.policy.sessionTimeLimitMinutes
        && d.bandwidthDown == row.value.policy.bandwidthDownMbps
        && d.bandwidthUp == row.value.policy.bandwidthUpMbps
  {
  }

  /** The violation type recorded for a denial by a rule. */
  function ViolationTypeOf(d: Decision): (t: Option<ViolationType>)
    ensures t.None? <==> d.Allowed() || d.UserOrPolicyNotFound?
    ensures d.DeniedByTime? ==> t == Some(TimeRestriction)
    ensures d.DeniedByQuota? ==> t == Some(QuotaExceeded)
    ensures d.DeniedBySession? ==> t == Some(SessionTimeLimit)
    ensures d.DeniedByCategory? ==> t == Some(CategoryBlocked)
  {
    match d
    case DeniedByTime(_) => Some(TimeRestriction)
    case DeniedByQuota(_) => Some(QuotaExceeded)
    case DeniedBySession(_) => Some(SessionTimeLimit)
    case DeniedByCategory(_) => Some(CategoryBlocked)
    case _ => None
  }

  /** The rows a decision adds to `policy_violations` when the insert succeeds:
      one for a denial by a rule, none otherwise. */
  function Logged(d: Decision, userId: int, sessionId: Option<int>, now: int): (log: seq<Violation>)
    ensures |log| <= 1
    ensures |log| == 1 <==> !d.Allowed() && !d.UserOrPolicyNotFound?
    ensures |log| == 1 ==>
      log[0] == Violation(userId, sessionId, ViolationTypeOf(d).value, d.Reason(), now)
  {
    if ViolationTypeOf(d).Some? then [Violation(userId, sessionId, ViolationTypeOf(d).value, d.Reason(), now)]
    else []
  }

  /** An Admin is allowed whatever the clock, the usage or the session, and no
      violation is written for it. */
  lemma AdminIsNeverRestricted(row: Option<Joined>, sessionId: Option<int>, url: Option<string>, env: Env, userId: int)
    requires row.Some? && row.value.roleName == ADMIN_ROLE
    ensures Decide(row, sessionId, url, env).Allowed()
    ensures Logged(Decide(row, sessionId, url, env), userId, sessionId, env.clock.nowMs) == []
  {
  }

  /** More usage never turns a denial into an allow: everything the engine allows
      at some byte total it also allows at any smaller one. */
  lemma AllowIsAntitoneInUsage(row: Option<Joined>, sessionId: Option<int>, url: Option<string>, env: Env, less: nat)
    requires less <= env.usedBytes
    requires Decide(row, sessionId, url, env).Allowed()
    ensures Decide(row, sessionId, url, env.(usedBytes := less)).Allowed()
  {
  }

  // ---------------------------------------------------------------------------
  // The engine against the database

  /** User `userId` is active, its role exists, and policy `pid` belongs to that role. */
  predicate Joins(db: Database, userId: int, pid: int)
    reads db`users, db`roles, db`policies
  {
    && userId in db.users && db.users[userId].isActive
    && db.users[userId].roleId in db.roles
    && pid in db.policies && db.policies[pid].roleId == db.users[userId].roleId
  }

  /** `row` is a row the lookup query may return for `userId`. */
  ghost predicate LookedUp(db: Database, userId: int, row: Option<Joined>)
    reads db`users, db`roles, db`policies
  {
    match row
    case None => forall pid :: !Joins(db, userId, pid)
    case Some(j) =>
      exists pid :: Joins(db, userId, pid)
        && j == Joined(db.roles[db.users[userId].roleId], db.policies[pid])
  }

  /** What the checks read from the database for this request. */
  function EnvOf(db: Database, userId: int, sessionId: Option<int>, clock: Clock): Env
    reads db`usageToday, db`sessions
  {
    Env(clock,
        if userId in db.usageToday then db.usageToday[userId] else 0,
        if sessionId.Some? && sessionId.value in db.sessions
        then Some(db.sessions[sessionId.value].startedAt) else None)
  }

  /** Insert one violation; a failed insert (`inserted` false) is swallowed. */
  method LogViolation(db: Database, userId: int, sessionId: Option<int>, violationType: ViolationType,
                      details: string, now: int, inserted: bool)
    modifies db`violations
    ensures db.violations ==
      old(db.violations) + (if inserted then [Violation(userId, sessionId, violationType, details, now)] else [])
  {
    if inserted {
      db.violations := db.violations + [Violation(userId, sessionId, violationType, details, now)];
    }
  }

  /** The checks of `evaluatePolicy` in their order, on the rows the lookup
      returned: the verdict is `Decide` of them. The database is only read. */
  method CheckPolicy(db: Database, userId: int, sessionId: Option<int>, url: Option<string>, clock: Clock)
    returns (d: Decision, ghost row: Option<Joined>)
    ensures LookedUp(db, userId, row)
    ensures d == Decide(row, sessionId, url, EnvOf(db, userId, sessionId, clock))
  {
    if !(userId in db.users && db.users[userId].isActive && db.users[userId].roleId in db.roles
         && exists pid :: pid in db.policies && db.policies[pid].roleId == db.users[userId].roleId) {
      row := None;
      d := UserOrPolicyNotFound;
      return;
    }
    var roleId := db.users[userId].roleId;
    var pid :| pid in db.policies && db.policies[pid].roleId == roleId;
    var policy := db.policies[pid];
    var roleName := db.roles[roleId];
    row := Some(Joined(roleName, policy));
    assert Joins(db, userId, pid);

    if roleName == ADMIN_ROLE {
      d := AdminExempt(policy.bandwidthDownMbps, policy.bandwidthUpMbps);
      return;
    }

    var timeCheck := CheckTimeRestriction(policy, clock.timeOfDay);
    if timeCheck.TimeDenied? {
      d := DeniedByTime(timeCheck);
      return;
    }

    var usedBytes := if userId in db.usageToday then db.usageToday[userId] else 0;
    var quotaCheck := CheckQuota(policy, usedBytes);
    if quotaCheck.QuotaDenied? {
      d := DeniedByQuota(quotaCheck);
      return;
    }

    if SessionGiven(sessionId) {
      var startedAt :=
        if sessionId.value in db.sessions then Some(db.sessions[sessionId.value].startedAt) else None;
      var sessionCheck := CheckSessionTimeLimit(policy, startedAt, clock.nowMs);
      if !sessionCheck.Allowed() {
        d := DeniedBySession(sessionCheck);
        return;
      }
    }

    if TruthyText(url) {
      var categoryCheck := CheckCategoryBlock(url.value, policy);
      if categoryCheck.CategoryDenied? {
        d := DeniedByCategory(categoryCheck);
        return;
      }
    }

    d := Granted(policy.bandwidthDownMbps, policy.bandwidthUpMbps, quotaCheck, policy.sessionTimeLimitMinutes);
  }

  /** Evaluate the policy of `userId`. The verdict is `Decide` on what the lookup
      returned; a denial by a rule writes one violation of that rule's type with
      the denial's reason, and a failed insert (`inserted` false) is swallowed,
      which leaves the verdict as it is. */
  method EvaluatePolicy(db: Database, userId: int, sessionId: Option<int>, url: Option<string>,
                        clock: Clock, inserted: bool)
    returns (d: Decision, ghost row: Option<Joined>)
    modifies db`violations
    ensures LookedUp(db, userId, row)
    ensures d == Decide(row, sessionId, url, EnvOf(db, userId, sessionId, clock))
    ensures db.violations ==
      old(db.violations) + (if inserted then Logged(d, userId, sessionId, clock.nowMs) else [])
  {
    d, row := CheckPolicy(db, userId, sessionId, url, clock);
    if ViolationTypeOf(d).Some? {
      LogViolation(db, userId, sessionId, ViolationTypeOf(d).value, d.Reason(), clock.nowMs, inserted);
    }
  }
}
