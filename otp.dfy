/** The one-time-password store behind guest login: issuing a token appends a row
    to `otp_tokens`, and verifying redeems the newest matching live token. The
    random code itself and its delivery by mail are inputs to this model. */
module Otp {
  import opened Common
  import opened Store

  /** A token lives ten minutes. */
  const OTP_LIFETIME_MS: int := 10 * 60 * 1000
  const INVALID_OTP: string := "Invalid or expired OTP"

  datatype Verification = Valid | Invalid(error: string)

  /** Token `i` answers `email` and `code` at time `now`: both match, it has not
      expired (its expiry is strictly later), and it has not been used. */
  predicate Usable(tokens: seq<OtpToken>, i: int, email: string, code: string, now: int) {
    && 0 <= i < |tokens|
    && tokens[i].email == email && tokens[i].code == code
    && tokens[i].expiresAt > now
    && !tokens[i].used
  }

  function UsableIndices(tokens: seq<OtpToken>, email: string, code: string, now: int): set<int> {
    set i | 0 <= i < |tokens| && Usable(tokens, i, email, code, now)
  }

  /** Token `i` is one the lookup `ORDER BY created_at DESC LIMIT 1` may return. */
  predicate Newest(tokens: seq<OtpToken>, i: int, email: string, code: string, now: int) {
    && Usable(tokens, i, email, code, now)
    && forall j :: 0 <= j < |tokens| && Usable(tokens, j, email, code, now) ==> tokens[j].createdAt <= tokens[i].createdAt
  }

  /** `SET used = true` on token `i`. */
  function MarkUsed(tokens: seq<OtpToken>, i: int): (r: seq<OtpToken>)
    requires 0 <= i < |tokens|
    ensures |r| == |tokens| && r[i].used
    ensures r[i] == tokens[i].(used := true)
    ensures forall j :: 0 <= j < |tokens| && j != i ==> r[j] == tokens[j]
  {
    tokens[i := tokens[i].(used := true)]
  }

  /** Store a freshly generated `code` for `email`. Older tokens of the same email
      stay as they are. */
  method CreateOtpToken(db: Database, email: string, code: string, now: int)
    modifies db`otpTokens
    ensures db.otpTokens == old(db.otpTokens) + [OtpToken(email, code, now + OTP_LIFETIME_MS, false, now)]
  {
    db.otpTokens := db.otpTokens + [OtpToken(email, code, now + OTP_LIFETIME_MS, false, now)];
  }

  /** Redeem `code` for `email`: when some token is usable, the newest one is
      marked used and nothing else changes; otherwise the store is untouched. */
  method VerifyOtp(db: Database, email: string, code: string, now: int)
    returns (r: Verification, ghost chosen: int)
    modifies db`otpTokens
    ensures r.Valid? <==> exists i :: Usable(old(db.otpTokens), i, email, code, now)
    ensures r.Valid? ==>
      && Newest(old(db.otpTokens), chosen, email, code, now)
      && db.otpTokens == MarkUsed(old(db.otpTokens), chosen)
    ensures r.Invalid? ==> r.error == INVALID_OTP && db.otpTokens == old(db.otpTokens)
  {
    var tokens := db.otpTokens;
    var usable := UsableIndices(tokens, email, code, now);
    assert forall j :: Usable(tokens, j, email, code, now) ==> j in usable;
    if usable == {} {
      r, chosen := Invalid(INVALID_OTP), -1;
      return;
    }
    var key := (i: int) => if 0 <= i < |tokens| then tokens[i].createdAt else 0;
    MaxExists(usable, key);
    var i :| i in usable && forall j :: j in usable ==> key(j) <= key(i);
    assert forall j :: 0 <= j < |tokens| && Usable(tokens, j, email, code, now) ==> key(j) == tokens[j].createdAt;
    db.otpTokens := tokens[i := tokens[i].(used := true)];
    r, chosen := Valid, i;
  }

  /** A token just created answers its own email and code for the next ten
      minutes, and a token usable before the append is still usable after it. */
  lemma CreatedTokenIsUsable(tokens: seq<OtpToken>, email: string, code: string, created: int, now: int)
    requires created <= now < created + OTP_LIFETIME_MS
    ensures Usable(tokens + [OtpToken(email, code, created + OTP_LIFETIME_MS, false, created)], |tokens|, email, code, now)
    ensures forall j, e, c, t :: Usable(tokens, j, e, c, t) ==>
      Usable(tokens + [OtpToken(email, code, created + OTP_LIFETIME_MS, false, created)], j, e, c, t)
  {
  }

  /** Marking token `i` takes exactly `i` out of the usable set, for every later
      verification: redeeming a token removes it and nothing else. */
  lemma MarkUsedRemovesOnlyThatToken(tokens: seq<OtpToken>, i: int, email: string, code: string, later: int)
    requires 0 <= i < |tokens|
    ensures UsableIndices(MarkUsed(tokens, i), email, code, later) == UsableIndices(tokens, email, code, later) - {i}
  {
  }

  /** A sequence of redemptions, each taking the token chosen at its step. */
  function RedeemAll(tokens: seq<OtpToken>, picks: seq<int>): seq<OtpToken>
    requires forall k :: 0 <= k < |picks| ==> 0 <= picks[k] < |tokens|
    decreases |picks|
  {
    if picks == [] then tokens else RedeemAll(MarkUsed(tokens, picks[0]), picks[1..])
  }

  /** The tokens a sequence of redemptions picked. */
  function Picked(picks: seq<int>): set<int>
    decreases |picks|
  {
    if picks == [] then {} else {picks[0]} + Picked(picks[1..])
  }

  /** Single use: successful verifications of one email and code, at times no
      earlier than `now`, each redeem a distinct token that was usable at `now`,
      so there are at most as many of them as such tokens; an issued code is
      accepted once. */
  lemma {:induction false} RedemptionsAreBoundedByTokens(tokens: seq<OtpToken>, picks: seq<int>, times: seq<int>,
                                                         email: string, code: string, now: int)
    requires |times| == |picks|
    requires forall k :: 0 <= k < |picks| ==> 0 <= picks[k] < |tokens| && now <= times[k]
    requires forall k :: 0 <= k < |picks| ==>
      Usable(RedeemAll(tokens, picks[..k]), picks[k], email, code, times[k])
    ensures |picks| <= |UsableIndices(tokens, email, code, now)|
    ensures UsableIndices(RedeemAll(tokens, picks), email, code, now)
      == UsableIndices(tokens, email, code, now) - Picked(picks)
    decreases |picks|
  {
    if picks != [] {
      var first := picks[0];
      var rest := picks[1..];
      var next := MarkUsed(tokens, first);
      assert Usable(RedeemAll(tokens, picks[..0]), first, email, code, times[0]) by {
        assert picks[..0] == [];
      }
      forall k | 0 <= k < |rest|
        ensures Usable(RedeemAll(next, rest[..k]), rest[k], email, code, times[1..][k])
      {
        assert picks[..k + 1] == [first] + rest[..k];
        assert RedeemAll(tokens, picks[..k + 1]) == RedeemAll(next, rest[..k]);
        assert Usable(RedeemAll(tokens, picks[..k + 1]), picks[k + 1], email, code, times[k + 1]);
      }
      MarkUsedRemovesOnlyThatToken(tokens, first, email, code, now);
      RedemptionsAreBoundedByTokens(next, rest, times[1..], email, code, now);
      var before := UsableIndices(tokens, email, code, now);
      var after := UsableIndices(next, email, code, now);
      assert first in before;
      assert after == before - {first};
      assert |after| == |before| - 1;
    }
  }
}
