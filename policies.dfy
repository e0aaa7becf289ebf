/** The policy routes: reading the policy of a role, and the administrator's
    partial update of one policy row. */
module Policies {
  import opened Common
  import opened Store
  import opened Sql
  import opened PolicyEngine
  import opened TimeOfDay

  const POLICY_NOT_FOUND: string := "Policy not found"

  // ---------------------------------------------------------------------------
  // GET /role/:roleId

  /** A policy row of that role, joined with the role's name. */
  predicate PolicyOfRole(policies: map<int, Policy>, roles: map<int, string>, roleId: int, pid: int) {
    pid in policies && policies[pid].roleId == roleId && roleId in roles
  }

  /** Read the policy of a role: a non-Admin may read only the policy of their own
      role (403 otherwise); a role without a policy gives 404. */
  method ViewRolePolicy(db: Database, caller: Caller, roleId: int) returns (r: Reply<Joined>, ghost pid: int)
    ensures !IsAdmin(caller) && caller.roleId != roleId ==> r == Error(403, ACCESS_DENIED)
    ensures (IsAdmin(caller) || caller.roleId == roleId) && (forall p :: !PolicyOfRole(db.policies, db.roles, roleId, p)) ==>
      r == Error(404, POLICY_NOT_FOUND)
    ensures r.Ok? <==>
      (IsAdmin(caller) || caller.roleId == roleId) && exists p :: PolicyOfRole(db.policies, db.roles, roleId, p)
    ensures r.Ok? ==>
      && PolicyOfRole(db.policies, db.roles, roleId, pid)
      && r == Ok(200, Joined(db.roles[roleId], db.policies[pid]))
  {
    pid := -1;
    if !IsAdmin(caller) && caller.roleId != roleId {
      return Error(403, ACCESS_DENIED), pid;
    }
    if !exists p :: p in db.policies && PolicyOfRole(db.policies, db.roles, roleId, p) {
      return Error(404, POLICY_NOT_FOUND), pid;
    }
    var p :| p in db.policies && PolicyOfRole(db.policies, db.roles, roleId, p);
    pid := p;
    r := Ok(200, Joined(db.roles[roleId], db.policies[p]));
  }

  // ---------------------------------------------------------------------------
  // PUT /:policyId

  /** The optional fields of an update body, None where the body leaves the field
      `undefined`. The nullable text and list columns may be set to NULL
      (`Some(None)`); the numeric fields pass validation only as numbers. */
  datatype PolicyPatch = PolicyPatch(
    bandwidthDownMbps: Option<nat>,
    bandwidthUpMbps: Option<nat>,
    dailyQuotaGb: Option<nat>,
    sessionTimeLimitMinutes: Option<nat>,
    allowedHoursStart: Option<Option<string>>,
    allowedHoursEnd: Option<Option<string>>,
    blockedCategories: Option<Option<seq<string>>>,
    access24x7: Option<bool>)

  /** The columns of `policies` the model keeps. */
  datatype PolicyColumn =
    | RoleIdColumn | BandwidthDownMbps | BandwidthUpMbps | DailyQuotaGb | SessionTimeLimitMinutes
    | AllowedHoursStart | AllowedHoursEnd | BlockedCategories | Access24x7 | UpdatedAt
  {
    /** The column's name in SQL. */
    function Name(): string {
      match this
      case RoleIdColumn => "role_id"
      case BandwidthDownMbps => "bandwidth_down_mbps"
      case BandwidthUpMbps => "bandwidth_up_mbps"
      case DailyQuotaGb => "daily_quota_gb"
      case SessionTimeLimitMinutes => "session_time_limit_minutes"
      case AllowedHoursStart => "allowed_hours_start"
      case AllowedHoursEnd => "allowed_hours_end"
      case BlockedCategories => "blocked_categories"
      case Access24x7 => "access_24x7"
      case UpdatedAt => "updated_at"
    }
  }

  /** The columns of a policy row. */
  function PolicyRow(p: Policy): Row<PolicyColumn> {
    map[
      RoleIdColumn := Int(p.roleId),
      BandwidthDownMbps := Int(p.bandwidthDownMbps),
      BandwidthUpMbps := Int(p.bandwidthUpMbps),
      DailyQuotaGb := IntValue(p.dailyQuotaGb),
      SessionTimeLimitMinutes := IntValue(p.sessionTimeLimitMinutes),
      AllowedHoursStart := TextValue(p.allowedHoursStart),
      AllowedHoursEnd := TextValue(p.allowedHoursEnd),
      BlockedCategories := ArrayValue(p.blockedCategories),
      Access24x7 := Bool(p.access24x7),
      UpdatedAt := TimeValue(p.updatedAt)]
  }

  /** The value a column holds once Postgres has stored `v` into it: the two hour
      bounds are `TIME` columns, so a text stored there reads back as `AsTime` of
      it; every other column keeps the value as bound. */
  function StoredValue(c: PolicyColumn, v: Value): Value {
    if (c == AllowedHoursStart || c == AllowedHoursEnd) && v.Text? then Text(AsTime(v.s)) else v
  }

  /** A row as the table holds it after an `UPDATE`. */
  function Stored(row: Row<PolicyColumn>): Row<PolicyColumn> {
    map c | c in row :: StoredValue(c, row[c])
  }

  /** A nullable hour bound as its `TIME` column reads it back. */
  function StoredBound(o: Option<string>): (r: Option<string>)
    ensures r.Some? <==> o.Some?
    ensures o.Some? && ShortForm(o.value) ==> WellFormed(r.value) && Seconds(r.value) == MinuteSeconds(o.value)
    ensures o.Some? && WellFormed(o.value) ==> r == o
  {
    if o.Some? then Some(AsTime(o.value)) else None
  }

  /** The body's fields in the order the handler tests them. */
  function PolicyFields(patch: PolicyPatch): seq<Field<PolicyColumn>> {
    [ Field(BandwidthDownMbps, if patch.bandwidthDownMbps.Some? then Some(Int(patch.bandwidthDownMbps.value)) else None),
      Field(BandwidthUpMbps, if patch.bandwidthUpMbps.Some? then Some(Int(patch.bandwidthUpMbps.value)) else None),
      Field(DailyQuotaGb, if patch.dailyQuotaGb.Some? then Some(Int(patch.dailyQuotaGb.value)) else None),
      Field(SessionTimeLimitMinutes,
            if patch.sessionTimeLimitMinutes.Some? then Some(Int(patch.sessionTimeLimitMinutes.value)) else None),
      Field(AllowedHoursStart, if patch.allowedHoursStart.Some? then Some(TextValue(patch.allowedHoursStart.value)) else None),
      Field(AllowedHoursEnd, if patch.allowedHoursEnd.Some? then Some(TextValue(patch.allowedHoursEnd.value)) else None),
      Field(BlockedCategories,
            if patch.blockedCategories.Some? then Some(ArrayValue(patch.blockedCategories.value)) else None),
      Field(Access24x7, if patch.access24x7.Some? then Some(Bool(patch.access24x7.value)) else None) ]
  }

  /** Nothing is supplied. */
  predicate EmptyPatch(patch: PolicyPatch) {
    && patch.bandwidthDownMbps.None? && patch.bandwidthUpMbps.None?
    && patch.dailyQuotaGb.None? && patch.sessionTimeLimitMinutes.None?
    && patch.allowedHoursStart.None? && patch.allowedHoursEnd.None?
    && patch.blockedCategories.None? && patch.access24x7.None?
  }

  /** The policy with each supplied field replaced and `updatedAt` stamped, as
      the row reads back: the hour bounds in `TIME` form. */
  function ApplyPolicyPatch(p: Policy, patch: PolicyPatch, now: int): (q: Policy)
    ensures q.roleId == p.roleId && q.updatedAt == Some(now)
  {
    p.(
      bandwidthDownMbps := if patch.bandwidthDownMbps.Some? then patch.bandwidthDownMbps.value else p.bandwidthDownMbps,
      bandwidthUpMbps := if patch.bandwidthUpMbps.Some? then patch.bandwidthUpMbps.value else p.bandwidthUpMbps,
      dailyQuotaGb := if patch.dailyQuotaGb.Some? then patch.dailyQuotaGb else p.dailyQuotaGb,
      sessionTimeLimitMinutes :=
        if patch.sessionTimeLimitMinutes.Some? then patch.sessionTimeLimitMinutes else p.sessionTimeLimitMinutes,
      allowedHoursStart :=
        StoredBound(if patch.allowedHoursStart.Some? then patch.allowedHoursStart.value else p.allowedHoursStart),
      allowedHoursEnd :=
        StoredBound(if patch.allowedHoursEnd.Some? then patch.allowedHoursEnd.value else p.allowedHoursEnd),
      blockedCategories := if patch.blockedCategories.Some? then patch.blockedCategories.value else p.blockedCategories,
      access24x7 := if patch.access24x7.Some? then patch.access24x7.value else p.access24x7,
      updatedAt := Some(now))
  }

  /** Each field of the body sits at its own position, so the columns are distinct. */
  function Position(c: PolicyColumn): int {
    match c
    case BandwidthDownMbps => 0
    case BandwidthUpMbps => 1
    case DailyQuotaGb => 2
    case SessionTimeLimitMinutes => 3
    case AllowedHoursStart => 4
    case AllowedHoursEnd => 5
    case BlockedCategories => 6
    case Access24x7 => 7
    case _ => -1
  }

  lemma PolicyFieldsDistinct(patch: PolicyPatch)
    ensures DistinctColumns(PolicyFields(patch))
    ensures !Writes(PolicyFields(patch), UpdatedAt)
    ensures !Writes(PolicyFields(patch), RoleIdColumn)
  {
    var fs := PolicyFields(patch);
    assert forall k :: 0 <= k < |fs| ==> Position(fs[k].column) == k;
  }

  lemma SuppliedIsEmptyIffEmptyPatch(patch: PolicyPatch)
    ensures Supplied(PolicyFields(patch)) == [] <==> EmptyPatch(patch)
  {
    var fs := PolicyFields(patch);
    SuppliedEmpty(fs);
    if EmptyPatch(patch) {
      assert forall k :: 0 <= k < |fs| ==> fs[k].value.None?;
    } else {
      assert exists k :: 0 <= k < |fs| && fs[k].value.Some?;
    }
  }

  /** The statement the handler builds, run on the stored row, yields exactly the
      row of the patched policy: supplied columns take the body's values (the hour
      bounds in `TIME` form), `updated_at` the time of the update, and all other
      columns keep theirs. */
  lemma UpdateStatementAppliesPatch(p: Policy, patch: PolicyPatch, stmt: UpdateStatement<PolicyColumn>, policyId: int, now: int)
    requires BuiltFrom(stmt, PolicyFields(patch), UpdatedAt, Int(policyId))
    ensures PlaceholdersBound(stmt)
    ensures Stored(Execute(PolicyRow(p), stmt, now)) == PolicyRow(ApplyPolicyPatch(p, patch, now))
  {
    BuiltStatementIsBound(stmt, PolicyFields(patch), UpdatedAt, Int(policyId));
    var lhs := Stored(Execute(PolicyRow(p), stmt, now));
    var q := ApplyPolicyPatch(p, patch, now);
    forall c ensures c in lhs && c in PolicyRow(q) && lhs[c] == PolicyRow(q)[c] {
      ColumnAfterUpdate(p, patch, stmt, policyId, now, c);
    }
  }

  /** Bounds set to "HH:MM" values, as the admin page sends them, read back as the
      first second of their minutes: the time rule then allows exactly from the
      start of `start`'s minute up to and including the start of `end`'s minute. */
  lemma HourMinuteWindowIsClockInterval(p: Policy, patch: PolicyPatch, stamp: int, start: string, end: string,
                                        now: string)
    requires patch.allowedHoursStart == Some(Some(start)) && ShortForm(start)
    requires patch.allowedHoursEnd == Some(Some(end)) && ShortForm(end)
    requires !ApplyPolicyPatch(p, patch, stamp).access24x7
    requires WellFormed(now)
    ensures CheckTimeRestriction(ApplyPolicyPatch(p, patch, stamp), now).TimeAllowed?
        <==> MinuteSeconds(start) <= Seconds(now) <= MinuteSeconds(end)
  {
    TimeCheckIsClockInterval(ApplyPolicyPatch(p, patch, stamp), now);
  }

  /** One column of the updated row. */
  lemma ColumnAfterUpdate(p: Policy, patch: PolicyPatch, stmt: UpdateStatement<PolicyColumn>, policyId: int, now: int,
                          c: PolicyColumn)
    requires BuiltFrom(stmt, PolicyFields(patch), UpdatedAt, Int(policyId))
    ensures PlaceholdersBound(stmt)
    ensures c in Stored(Execute(PolicyRow(p), stmt, now)) && c in PolicyRow(ApplyPolicyPatch(p, patch, now))
    ensures Stored(Execute(PolicyRow(p), stmt, now))[c] == PolicyRow(ApplyPolicyPatch(p, patch, now))[c]
  {
    var fs := PolicyFields(patch);
    var row := PolicyRow(p);
    var id := Int(policyId);
    PolicyFieldsDistinct(patch);
    if c == RoleIdColumn {
      ExecuteKeeps(row, fs, stmt, UpdatedAt, id, now, RoleIdColumn);
    } else if c == UpdatedAt {
      ExecuteStamps(row, fs, stmt, UpdatedAt, id, now);
    } else {
      FieldAtPosition(patch, c);
      ExecuteAtField(row, fs, stmt, UpdatedAt, id, now, Position(c));
    }
    if c == AllowedHoursStart || c == AllowedHoursEnd {
      PatchedBound(p, patch, now, c, Execute(row, stmt, now)[c]);
    } else {
      PatchedColumn(p, patch, now, c, Execute(row, stmt, now)[c]);
    }
  }

  lemma FieldAtPosition(patch: PolicyPatch, c: PolicyColumn)
    requires c != RoleIdColumn && c != UpdatedAt
    ensures 0 <= Position(c) < |PolicyFields(patch)| && PolicyFields(patch)[Position(c)].column == c
  {
  }

  /** The value a column other than the hour bounds holds in the patched policy. */
  lemma PatchedColumn(p: Policy, patch: PolicyPatch, now: int, c: PolicyColumn, v: Value)
    requires c != AllowedHoursStart && c != AllowedHoursEnd
    requires c == RoleIdColumn ==> v == Int(p.roleId)
    requires c == UpdatedAt ==> v == Timestamp(now)
    requires c != RoleIdColumn && c != UpdatedAt ==>
      var f := PolicyFields(patch)[Position(c)];
      v == if f.value.Some? then f.value.value else PolicyRow(p)[c]
    ensures c in PolicyRow(ApplyPolicyPatch(p, patch, now)) && v == PolicyRow(ApplyPolicyPatch(p, patch, now))[c]
  {
  }

  /** The value an hour bound holds in the patched policy, once stored as `TIME`. */
  lemma PatchedBound(p: Policy, patch: PolicyPatch, now: int, c: PolicyColumn, v: Value)
    requires c == AllowedHoursStart || c == AllowedHoursEnd
    requires var f := PolicyFields(patch)[Position(c)];
      v == if f.value.Some? then f.value.value else PolicyRow(p)[c]
    ensures c in PolicyRow(ApplyPolicyPatch(p, patch, now))
    ensures StoredValue(c, v) == PolicyRow(ApplyPolicyPatch(p, patch, now))[c]
  {
    if c == AllowedHoursStart {
      assert v == TextValue(if patch.allowedHoursStart.Some? then patch.allowedHoursStart.value else p.allowedHoursStart);
    } else {
      assert v == TextValue(if patch.allowedHoursEnd.Some? then patch.allowedHoursEnd.value else p.allowedHoursEnd);
    }
  }

  /** Update one policy. Only an Admin may (403); an unknown id gives 404 before
      the body is looked at; an empty body gives 400; otherwise the built
      statement is executed, the update audited, and the updated row, joined with
      its role's name, returned (no body when the role is gone). */
  method UpdatePolicy(db: Database, caller: Caller, policyId: int, patch: PolicyPatch, now: int)
    returns (r: Reply<Option<Joined>>, stmt: Option<UpdateStatement<PolicyColumn>>)
    modifies db`policies, db`auditLog
    ensures !IsAdmin(caller) ==>
      r == Error(403, INSUFFICIENT_PERMISSIONS) && db.policies == old(db.policies) && db.auditLog == old(db.auditLog)
    ensures IsAdmin(caller) && policyId !in old(db.policies) ==>
      r == Error(404, POLICY_NOT_FOUND) && db.policies == old(db.policies) && db.auditLog == old(db.auditLog)
    ensures IsAdmin(caller) && policyId in old(db.policies) && EmptyPatch(patch) ==>
      r == Error(400, NO_FIELDS) && db.policies == old(db.policies) && db.auditLog == old(db.auditLog)
    ensures r.Ok? <==> IsAdmin(caller) && policyId in old(db.policies) && !EmptyPatch(patch)
    ensures r.Ok? ==>
      && stmt.Some? && BuiltFrom(stmt.value, PolicyFields(patch), UpdatedAt, Int(policyId))
      && PlaceholdersBound(stmt.value)
      && db.policies == old(db.policies)[policyId := ApplyPolicyPatch(old(db.policies)[policyId], patch, now)]
      && PolicyRow(db.policies[policyId]) == Stored(Execute(PolicyRow(old(db.policies)[policyId]), stmt.value, now))
      && db.auditLog == old(db.auditLog) +
           [AuditEntry(None, OrNull(Some(caller.id)), "POLICY_UPDATED", "POLICY", OrNull(Some(policyId)))]
      && r.status == 200
      && r.value == (if db.policies[policyId].roleId in db.roles
                     then Some(Joined(db.roles[db.policies[policyId].roleId], db.policies[policyId]))
                     else None)
  {
    stmt := None;
    if !IsAdmin(caller) {
      return Error(403, INSUFFICIENT_PERMISSIONS), stmt;
    }
    if policyId !in db.policies {
      return Error(404, POLICY_NOT_FOUND), stmt;
    }
    var current := db.policies[policyId];
    SuppliedIsEmptyIffEmptyPatch(patch);
    stmt := BuildUpdate(PolicyFields(patch), UpdatedAt, Int(policyId));
    if stmt.None? {
      return Error(400, NO_FIELDS), stmt;
    }
    UpdateStatementAppliesPatch(current, patch, stmt.value, policyId, now);
    var updated := ApplyPolicyPatch(current, patch, now);
    db.policies := db.policies[policyId := updated];
    db.LogAudit(None, Some(caller.id), "POLICY_UPDATED", "POLICY", Some(policyId));
    var view := if updated.roleId in db.roles then Some(Joined(db.roles[updated.roleId], updated)) else None;
    r := Ok(200, view);
  }
}
