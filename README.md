# Campus Wi-Fi access control: a verified model of the backend core

This project models the decision and state-changing core of a campus Wi-Fi
access-control backend (a Node.js/Express service over PostgreSQL).

The policy engine decides whether a user may have network access right now.
It looks up the user's role and that role's policy, exempts Admins, and then
runs four rules in a fixed order:

- the allowed time-of-day window;
- the daily byte quota;
- the session time limit;
- the P2P category block on a URL.

The first rule that denies appends exactly one row to the violation log.

Around the engine sit the route handlers that change state:

- password login and the two steps of guest login by one-time password (OTP),
  each of which creates a session only when every check passes;
- logout, and disconnecting a session by id;
- the OTP token store;
- the partial-update builders of the admin policy and user routes;
- account creation and blocking.

The database is one object, `Store.Database`. Each table is a field of it:

- `users`, `roles`, `policies` and `sessions` are maps from id to row;
- the OTP tokens, the violations and the audit log are sequences in insertion
  order.

Handlers are methods that name the tables they write in their `modifies`
clauses. Each states the whole new state in its postconditions. The rules, the
verdict, the SQL the update builders produce and what that SQL does to a row
are functions. Lemmas state what the source promises about them.

The Dafny modules follow the source files:

| module | source |
|---|---|
| `PolicyEngine` | `backend/utils/policyEngine.js` |
| `Auth` | `backend/routes/auth.js` |
| `Sessions` | `backend/routes/sessions.js` |
| `Otp` | `backend/utils/otp.js` |
| `Policies` | `backend/routes/policies.js` |
| `Users` | `backend/routes/users.js` |

Shared modules:

- `Store`: the tables and the audit append of `backend/utils/audit.js`.
- `Sql`: the `UPDATE … SET` builder both admin routes share, and its meaning on a row.
- `JsString`: string comparison, lower-casing, `includes` and `split`. Strings compare character by character, by Unicode scalar value; JavaScript compares UTF-16 code units, and the two orders differ only between characters above U+FFFF and those in U+E000–U+FFFF, which the `HH:MM:SS` values compared here never contain.
- `TimeOfDay`: `HH:MM:SS` strings and seconds of the day.
- `Common`: replies, the caller, the clock, JavaScript truthiness.

Some things the source does outside the program are parameters of the handlers:

- the clock: epoch milliseconds plus the local `HH:MM:SS` time of day;
- the bcrypt comparison, as a function value;
- the JWT signer;
- the generated OTP code;
- a new password's hash;
- the e-mail format check;
- whether the violation insert succeeds.

Where a lookup has no `ORDER BY`, or ties under `ORDER BY … DESC LIMIT 1`, the
model picks any matching row, as the database may.

Behaviour of the code a reader might not expect, which the model keeps:

- **Disconnect is not idempotent.** A second disconnect moves `ended_at` to the
  later time (`Sessions.SecondDisconnectOverwritesEndedAt`). Logout, by
  contrast, is idempotent.
- **Only `P2P` is enforced.** The category keywords are fixed in the code, and
  no other category ever denies.
- **The Admin exemption comes after the lookup.** An inactive Admin, or an
  Admin whose role has no policy, gets "User or policy not found".
- **OTP verification redeems the token before looking up the user.** A valid
  code for an address with no active user is spent, and the answer is 401.
- **Requesting a guest code re-roles an existing account.** An account with that
  e-mail, an Admin included, is moved to the Guest role before any code is
  verified (`Auth.RequestOtp`).
- **Updating an unknown user id gives 500, not 404.** The update statement
  touches no row and the update is still audited. Then the handler's re-read
  finds nothing and the handler fails.

## Model

| member | source | states |
|---|---|---|
| PolicyEngine.CheckTimeRestriction | backend/utils/policyEngine.js:5-24 | allows exactly when the policy is 24x7, or lacks one of the two bounds, or start <= now <= end in string order; a denial carries both bounds |
| PolicyEngine.WindowBoundsAreInclusive | backend/utils/policyEngine.js:14-16 | both ends of a non-inverted window are allowed |
| PolicyEngine.InvertedWindowAlwaysDenies | backend/utils/policyEngine.js:13-21 | a window with start after end denies at every time of day unless 24x7 |
| PolicyEngine.TimeCheckIsClockInterval | backend/utils/policyEngine.js:13-21 | for well-formed HH:MM:SS values the string comparison is the clock interval start <= now <= end in seconds |
| PolicyEngine.CheckQuota | backend/utils/policyEngine.js:27-59 | a null or 0 quota is unlimited; otherwise denies exactly when used >= gb*1024^3, and an allow reports remaining = quota - used > 0 |
| PolicyEngine.OneGigabyteBoundary | backend/utils/policyEngine.js:41-51 | with 1 GB, 1073741823 bytes are allowed with one byte left and 1073741824 are denied |
| PolicyEngine.ElapsedMinutes | backend/utils/policyEngine.js:67-78 | the result is the floor of the elapsed milliseconds over 60000 |
| PolicyEngine.CheckSessionTimeLimit | backend/utils/policyEngine.js:62-91 | a null or 0 limit is unlimited; an unknown session is denied; otherwise denies exactly when floor(elapsed) >= limit, and an allow reports remaining >= 1 |
| PolicyEngine.ThirtyMinuteBoundary | backend/utils/policyEngine.js:78-90 | with a 30-minute limit, 30 elapsed minutes deny and 29 allow with 1 remaining |
| PolicyEngine.CheckCategoryBlock | backend/utils/policyEngine.js:94-115 | denies exactly when P2P is among the blocked categories and the lower-cased URL contains a P2P keyword; a denial names P2P |
| PolicyEngine.P2PKeywordsReduceToThree | backend/utils/policyEngine.js:104-105 | the five keywords catch exactly the URLs containing "torrent", "peer" or "magnet:" in any case |
| PolicyEngine.MagnetLinkIsBlocked | backend/utils/policyEngine.js:103-111 | a magnet link is denied whenever P2P is blocked |
| PolicyEngine.OnlyP2PIsEnforced | backend/utils/policyEngine.js:101-114 | without P2P among the blocked categories every URL is allowed |
| PolicyEngine.Decide | backend/utils/policyEngine.js:118-193 | the verdict is "User or policy not found" exactly when the lookup finds no row |
| PolicyEngine.DecideIsOrderedChain | backend/utils/policyEngine.js:130-193 | Admin exemption, then time, quota, session (only with a session id), category (only with a URL); each denial implies every earlier rule passed; a grant happens exactly when no applicable rule fails, and carries the quota check, limit and bandwidths |
| PolicyEngine.ViolationTypeOf | backend/utils/policyEngine.js:152-181 | each denying rule maps to its violation type; allows and the not-found denial have none |
| PolicyEngine.Logged | backend/utils/policyEngine.js:152-181 | at most one violation; exactly one when a rule denies, carrying the user, the session, the rule's type and its reason |
| PolicyEngine.AdminIsNeverRestricted | backend/utils/policyEngine.js:139-150 | an Admin row is always allowed and logs no violation |
| PolicyEngine.AllowIsAntitoneInUsage | backend/utils/policyEngine.js:160-164 | a verdict that allows at some usage also allows at any smaller usage |
| PolicyEngine.LogViolation | backend/utils/policyEngine.js:204-214 | appends the violation when the insert succeeds, leaves the log as it was when it fails |
| PolicyEngine.CheckPolicy | backend/utils/policyEngine.js:118-193 | the row is what the user/role/policy join finds for an active user, and the verdict is Decide on it and the user's usage and session start |
| PolicyEngine.EvaluatePolicy | backend/utils/policyEngine.js:118-201 | the same verdict, and the violation log grows by exactly Logged(verdict) when the insert succeeds |
| Otp.MarkUsed | backend/utils/otp.js:65-69 | the chosen token becomes used and keeps its e-mail, code, creation and expiry; every other token is unchanged |
| Otp.CreateOtpToken | backend/utils/otp.js:40-51 | appends an unused token for the e-mail and code that expires ten minutes after now |
| Otp.VerifyOtp | backend/utils/otp.js:53-72 | valid exactly when some token matches e-mail and code, expires strictly after now and is unused; then the newest such token is marked used; otherwise "Invalid or expired OTP" and the store is unchanged |
| Otp.CreatedTokenIsUsable | backend/utils/otp.js:42-47 | a new token is usable for ten minutes, and older tokens stay usable |
| Otp.MarkUsedRemovesOnlyThatToken | backend/utils/otp.js:65-69 | redeeming removes exactly that token from the usable set, for every later time |
| Otp.RedemptionsAreBoundedByTokens | backend/utils/otp.js:53-72 | successive redemptions of one e-mail and code take distinct tokens, never more than were usable, and leave exactly the unpicked ones usable |
| Auth.NewSession | backend/routes/auth.js:30-38 | the new session is active, not ended, started now, and expires exactly 24 hours later |
| Auth.CreateSession | backend/routes/auth.js:30-41 | inserts that session under the next serial id and nothing else |
| Auth.Admit | backend/routes/auth.js:90-116 | evaluates the policy with no session; a denial gives 403 with the reason, a LOGIN_BLOCKED audit and no session; an allow creates the session, audits LOGIN_SUCCESS and returns the signed token, the user and the session id |
| Auth.Login | backend/routes/auth.js:44-122 | 400 for a missing username or password; 401 "Invalid credentials" when no active user matches by username or e-mail; 401 OTP message without a password hash; 401 for a wrong password; each audited LOGIN_FAILED and leaving sessions and violations alone; only when all pass does Admit run |
| Auth.GuestUser | backend/routes/auth.js:155-160 | an active, password-less user in the Guest role, named by the part of the e-mail before the first "@" |
| Auth.RequestOtp | backend/routes/auth.js:125-179 | 500 when there is no Guest role; otherwise an unknown e-mail gets a new guest user, a known one is moved to the Guest role, and a token is stored |
| Auth.RedeemAudit | backend/routes/auth.js:200-204 | exactly one LOGIN_FAILED entry when the code is refused as invalid, none otherwise |
| Auth.RedeemGuestCode | backend/routes/auth.js:199-217 | a code that is not six characters gives 400; no usable token gives 401 with the store unchanged; otherwise the newest token is spent, and the answer is the active guest user with that e-mail or 401 "User not found" |
| Auth.VerifyOtpLogin | backend/routes/auth.js:182-253 | a refused code stops before any user lookup or policy evaluation, with no session and no violation; a redeemed code for a found user runs Admit |
| Auth.BearerToken | backend/routes/auth.js:258-259 | the token of the header contains no space |
| Auth.BearerTokenOfHeader | backend/routes/auth.js:259 | "scheme token" yields token |
| Auth.EndMatching | backend/routes/auth.js:261-267 | keeps the set of session ids |
| Auth.Logout | backend/routes/auth.js:256-274 | always succeeds; ends the active sessions carrying a non-empty token and changes nothing without one |
| Auth.LogoutEndsOnlyMatchingActive | backend/routes/auth.js:262-266 | a session changes exactly when it carries the token and is active, and then is inactive with ended_at = now |
| Auth.LogoutIsIdempotent | backend/routes/auth.js:261-269 | a second logout with the same token changes nothing |
| Sessions.Disconnect | backend/routes/sessions.js:122-164 | 404 for an unknown id and 403 for a caller who is neither Admin nor owner, both changing nothing; otherwise the session is ended now whatever its state, and the audit names the caller as admin only when the caller is an Admin |
| Sessions.SecondDisconnectOverwritesEndedAt | backend/routes/sessions.js:143-147 | a second disconnect at another time moves ended_at |
| Sessions.Current | backend/routes/sessions.js:10-33 | 404 when the caller has no active session joined with a role and user; otherwise the active session with the latest start, with the policy evaluated for that session |
| Sessions.BuildSessionList | backend/routes/sessions.js:63-88 | placeholders run $1..$n over the filters and the limit takes the last one, defaulting to 50; a row passes the filters exactly when its activity equals (active == "true") if active is present and its role is the given one if role is non-empty |
| Policies.ViewRolePolicy | backend/routes/policies.js:37-63 | a non-Admin may read only the policy of its own role (403); a role without a policy gives 404; otherwise the policy joined with its role's name |
| Policies.StoredBound | backend/routes/policies.js:121-128 | an hour bound stored into its `TIME` column reads back present exactly when given; an "HH:MM" value as the well-formed reading of the same minute, an "HH:MM:SS" value unchanged |
| Policies.ApplyPolicyPatch | backend/routes/policies.js:105-143 | keeps the role id and stamps updated_at |
| Policies.HourMinuteWindowIsClockInterval | backend/routes/policies.js:121-128 | after "HH:MM" bounds are stored, the time rule allows exactly from the first second of the start minute through the first second of the end minute |
| Policies.PolicyFieldsDistinct | backend/routes/policies.js:105-136 | the body's fields name distinct columns, never role_id or updated_at |
| Policies.SuppliedIsEmptyIffEmptyPatch | backend/routes/policies.js:138-140 | the SET list is empty exactly when the body supplies no field |
| Policies.UpdateStatementAppliesPatch | backend/routes/policies.js:101-147 | the built statement, run on the stored row and read back with the hour bounds in `TIME` form, gives exactly the row of the patched policy |
| Policies.ColumnAfterUpdate | backend/routes/policies.js:105-147 | each column of the updated row: supplied fields take the body's value (hour bounds in `TIME` form), updated_at the time, role_id keeps its value |
| Policies.UpdatePolicy | backend/routes/policies.js:66-178 | 403 for a non-Admin; 404 for an unknown id before the body is looked at; 400 for an empty body; otherwise the built statement's effect with the hour bounds read back in `TIME` form, one POLICY_UPDATED audit and, with status 200, the updated policy with its role name |
| Sql.Supplied | backend/routes/policies.js:105-136 | exactly the fields with a value, in body order |
| Sql.BindSupplied | backend/routes/policies.js:101-136 | the pushed SET entries and values bind the supplied fields, in order, to $1..$n |
| Sql.BuildUpdate | backend/routes/policies.js:101-145 | no statement exactly when nothing is supplied; otherwise $1..$n, then updated_at = NOW(), then the id bound to $(n+1) as the last parameter |
| Sql.BuiltStatementIsBound | backend/routes/policies.js:142-145 | every placeholder of a built statement names a parameter |
| Sql.ApplyBindsIsOverlay | backend/routes/policies.js:103-136 | executing the bindings writes the supplied values into their columns in order |
| Sql.ExecuteBuilt | backend/routes/policies.js:142-147 | a built statement is the overlay of the supplied fields followed by updated_at = now |
| Sql.OverlayEffect | backend/routes/policies.js:105-136 | an overlay of distinct columns writes each named column and keeps every other one |
| Sql.SuppliedEmpty | backend/routes/policies.js:138-140 | nothing is supplied exactly when every field is absent |
| Sql.UpdateChangesOnlySuppliedColumns | backend/routes/policies.js:105-147 | supplied columns take their values, updated_at the time, and every other column keeps its value |
| Sql.ExecuteAtField | backend/routes/policies.js:105-147 | the column of one body field holds its value if supplied and its old value otherwise |
| Sql.ExecuteKeeps | backend/routes/policies.js:142-147 | a column no field writes keeps its value |
| Sql.ExecuteStamps | backend/routes/policies.js:142 | updated_at holds the time of the update |
| Users.GetUser | backend/routes/users.js:28-57 | a non-Admin may read only its own profile (403); an unknown id or a missing role gives 404; otherwise the profile |
| Users.ViewHidesOnlyPasswordHash | backend/routes/users.js:49-52 | two rows give the same profile exactly when they differ at most in the password hash |
| Users.CreateBodyError | backend/routes/users.js:64-75 | the body passes exactly when the username is non-empty, the e-mail is an address and the password is non-empty |
| Users.NewUser | backend/routes/users.js:93-98 | the stored account is active, has the given hash and stores falsy full name and MAC address as NULL |
| Users.InsertKeepsAccountsUnique | backend/routes/users.js:80-98 | inserting an account whose username and e-mail are unused keeps usernames and e-mails unique |
| Users.CreatedUserCanSignIn | backend/routes/users.js:90-98 | a created account passes the password login checks with its username and password |
| Users.CreateUser | backend/routes/users.js:60-116 | 403 for a non-Admin; 400 with the first failing validator's message; 400 "User already exists" when the username or e-mail is taken; otherwise the account is inserted under the next id, audited USER_CREATED and returned with status 201, and uniqueness is kept |
| Users.ApplyUserPatch | backend/routes/users.js:137-169 | keeps the username and password hash and stamps updated_at |
| Users.UserFieldsDistinct | backend/routes/users.js:137-160 | the body's fields name distinct columns, never username, password_hash or updated_at |
| Users.SuppliedIsEmptyIffEmptyUserPatch | backend/routes/users.js:162-164 | the SET list is empty exactly when the body supplies no field |
| Users.UpdateStatementAppliesUserPatch | backend/routes/users.js:137-171 | the built statement, run on the stored row, gives exactly the row of the patched account |
| Users.UserColumnAfterUpdate | backend/routes/users.js:137-171 | each column of the updated row: supplied fields take the body's value, updated_at the time, username and password_hash keep theirs |
| Users.Patched | backend/routes/users.js:166-171 | the update touches at most the row with that id |
| Users.UpdateUser | backend/routes/users.js:119-201 | 403 for a non-Admin; 400 for a malformed e-mail; 400 "No fields to update"; otherwise the built statement's effect on the row, if any, one USER_UPDATED audit, and the profile, or 500 when the re-read finds none |
| Users.Blocked | backend/routes/users.js:208 | only is_active of the target changes, to false; no other account changes |
| Users.BlockStatementWritesOnlyIsActive | backend/routes/users.js:208 | the blocking statement clears is_active and keeps every other column, updated_at included |
| Users.BlockIsIdempotent | backend/routes/users.js:208 | blocking twice is blocking once |
| Users.BlockedUserCannotSignIn | backend/routes/users.js:208 | a blocked account matches neither the password login lookup nor the guest login lookup |
| Users.Block | backend/routes/users.js:204-225 | 403 for a non-Admin; otherwise the account is blocked, the block audited and reported done, even for an unknown id |
| Store.OrNull | backend/utils/audit.js:8 | a falsy id (0) is stored as NULL |
| Store.Database.LogAudit | backend/utils/audit.js:3-13 | appends one entry with falsy ids stored as NULL |
| Common.NullIfFalsy | backend/routes/auth.js:37 | `x \|\| null` on a text: NULL exactly when falsy |
| Common.Decimal | backend/utils/policyEngine.js:83 | the text is non-empty decimal digits that denote the number, with no leading zero (one digit exactly below 10) |
| Common.MaxExists | backend/routes/sessions.js:17-19 | a non-empty set has a row with the greatest key, which ORDER BY … DESC LIMIT 1 returns |
| JsString.LexLeReflexive | backend/utils/policyEngine.js:14 | string comparison is reflexive |
| JsString.LexLeTotal | backend/utils/policyEngine.js:14 | string comparison is total |
| JsString.LexLeAntisymmetric | backend/utils/policyEngine.js:14 | string comparison is antisymmetric |
| JsString.LexLeTransitive | backend/utils/policyEngine.js:14 | string comparison is transitive |
| JsString.ToLowerCase | backend/utils/policyEngine.js:100 | same length, each character lowered, no upper-case letter left |
| JsString.IncludesAt | backend/utils/policyEngine.js:105 | `includes` holds exactly when the substring occurs at some index |
| JsString.IncludesTransitive | backend/utils/policyEngine.js:104-105 | a string containing "bittorrent" contains "torrent" (containment is transitive) |
| JsString.BeforeFirst | backend/routes/auth.js:159 | `split(sep)[0]`: the longest prefix without the separator, followed by it when shorter |
| JsString.BeforeFirstOfJoin | backend/routes/auth.js:159 | the part before the first separator of local + sep + rest is local |
| JsString.BeforeFirstWithoutSeparator | backend/routes/auth.js:259 | a string without the separator is its own first piece |
| TimeOfDay.AsTime | backend/routes/policies.js:121-128 | a `TIME` column reads a zero-padded "HH:MM" back as the well-formed "HH:MM:SS" of the same minute, keeps a well-formed "HH:MM:SS" and any other text |
| TimeOfDay.AsTimeIsIdempotent | backend/routes/policies.js:121-128 | storing a read-back value again changes nothing |
| TimeOfDay.Seconds | backend/utils/policyEngine.js:11 | an HH:MM:SS value is below 86400 seconds |
| TimeOfDay.LexLeAtFirstDifference | backend/utils/policyEngine.js:14 | strings compare by their first differing character |
| TimeOfDay.LexLeIsClockOrder | backend/utils/policyEngine.js:14 | for well-formed HH:MM:SS values, string order is clock order |
| TimeOfDay.InWindowIsClockInterval | backend/utils/policyEngine.js:13-16 | the string window test is the clock interval test |

## Left out

- I/O: mail delivery of the code, HTTP framing, console logging, and the JSON `details` and IP address of audit entries.
- Randomness: generating the OTP. The code is a parameter.
- Foreign calls: bcrypt hashing and comparison, and JWT signing. These are parameters.
- The authentication middleware: JWT verification and the 401 for a request without a user. The caller is given.
- Time zones: the clock is given as epoch milliseconds plus a well-formed local `HH:MM:SS`.
- Today's usage total: the sum over `usage_tracking`, which no code shown writes, is read from a map.
- Floating point: bandwidths and quotas are natural numbers, so fractional gigabytes are left out.
- Validators: express-validator's full `errors` array. The model reports the first failing message.
- Validators: type checks on numeric body fields and route parameters. Route ids are integers.
- Validators: the e-mail checks of the two guest-login routes.
- Database failures: every `catch` answering 500 from a failing query.
- PolicyEngine.EvaluatePolicy: a failing lookup query is not modelled. The source's `catch` would turn it into the denial "Policy evaluation error" with no violation, so login and OTP login would answer 403 with that reason and audit LOGIN_BLOCKED.
- Sessions.BuildSessionList: takes the limit already parsed. The source pushes `parseInt(limit)`, which reads a numeric prefix ("10abc" gives 10) and gives NaN for an empty or non-numeric limit; Postgres then refuses the statement, as it does a negative limit, and the route answers 500.
- Database constraints: constraint errors from the schema. The schema is not part of this model, so a role id without a role, or a guest username that clashes, is written as given.
- Concurrency: the rate limiter, and interleaving between concurrent requests. Each handler runs alone.
- The read-only `getUserPolicy` join, whose row `/current` passes through, is not modelled, and neither is the usage summary of `/current`.
- Other routes: the read-only listing routes `GET /policies`, `GET /sessions/history`, dashboards and reports. Of the session list only the query builder is modelled, not its execution or ordering.
- ASCII case: `toLowerCase` is modelled on ASCII letters only.
- Failing audit inserts: audit entries are always appended. The source swallows a failing audit insert.
- Policies.UpdatePolicy: of the many forms Postgres accepts for a `TIME` value, only zero-padded "HH:MM" and "HH:MM:SS" are converted. Any other text ("9:00", "5 PM", fractional seconds, "24:00") is kept as sent. A text Postgres refuses is stored instead of answered with 500.
- Users.CreateUser: does not return `created_at`, because the schema fills it in and schema defaults are not modelled.
