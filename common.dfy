/** Values shared by every part of the model: optional values, HTTP replies, the
    authenticated caller, and two small facts used by several handlers. */
module Common {

  datatype Option<+T> = None | Some(value: T)

  /** What a route handler sends back: a success status (200, or 201 for a
      created resource) and the JSON body, or an error status and the `error`
      message of the JSON error body. */
  datatype Reply<+T> = Ok(status: int, value: T) | Error(status: int, message: string)

  const ADMIN_ROLE: string := "Admin"
  const GUEST_ROLE: string := "Guest"

  /** Error messages several routes share. */
  const ACCESS_DENIED: string := "Access denied"
  const INSUFFICIENT_PERMISSIONS: string := "Insufficient permissions"
  const USER_NOT_FOUND: string := "User not found"
  const NO_FIELDS: string := "No fields to update"
  const INTERNAL_ERROR: string := "Internal server error"

  /** The principal the authentication middleware attaches to a request
      (`req.user`): its user id, its role id and the name of that role. */
  datatype Caller = Caller(id: int, roleId: int, roleName: string)

  /** The server clock at the moment of a request: epoch milliseconds, and the local
      time of day as the first eight characters of `toTimeString()` ("HH:MM:SS"). */
  datatype Clock = Clock(nowMs: int, timeOfDay: string)

  predicate IsAdmin(c: Caller) {
    c.roleName == ADMIN_ROLE
  }

  /** A column that may hold SQL NULL, read with JavaScript truthiness: NULL and the
      empty string are falsy. */
  predicate TruthyText(o: Option<string>) {
    o.Some? && o.value != ""
  }

  /** A nullable integer column read with JavaScript truthiness: NULL and 0 are falsy. */
  predicate TruthyNat(o: Option<nat>) {
    o.Some? && o.value != 0
  }

  /** `text || null`: a falsy text is stored as NULL. */
  function NullIfFalsy(o: Option<string>): (r: Option<string>)
    ensures r.Some? <==> TruthyText(o)
    ensures r.Some? ==> r == o
  {
    if TruthyText(o) then o else None
  }

  function DigitChar(d: nat): (c: char)
    requires d < 10
    ensures '0' <= c <= '9'
    ensures c as int - '0' as int == d
  {
    "0123456789"[d]
  }

  /** The number a string of decimal digits denotes. */
  function DecimalValue(s: string): nat
    requires forall i :: 0 <= i < |s| ==> '0' <= s[i] <= '9'
  {
    if s == [] then 0
    else DecimalValue(s[..|s| - 1]) * 10 + (s[|s| - 1] as int - '0' as int)
  }

  /** The decimal text of a natural number, as a JavaScript template literal prints
      it: digits that denote `n`, with no leading zero. */
  function Decimal(n: nat): (r: string)
    ensures 1 <= |r|
    ensures forall i :: 0 <= i < |r| ==> '0' <= r[i] <= '9'
    ensures DecimalValue(r) == n
    ensures |r| > 1 ==> r[0] != '0'
    ensures n < 10 <==> |r| == 1
  {
    if n < 10 then [DigitChar(n)]
    else
      var init := Decimal(n / 10);
      var r := init + [DigitChar(n % 10)];
      assert r[..|r| - 1] == init;
      r
  }

  /** Every finite non-empty set has an element whose key is greatest; this is the
      row that `ORDER BY key DESC LIMIT 1` may return. */
  lemma {:induction false} MaxExists<T>(s: set<T>, key: T -> int)
    requires s != {}
    ensures exists x :: x in s && forall y :: y in s ==> key(y) <= key(x)
  {
    var x :| x in s;
    var rest := s - {x};
    if rest == {} {
      forall y | y in s ensures key(y) <= key(x) {
        assert y !in rest;
      }
    } else {
      MaxExists(rest, key);
      var m :| m in rest && forall y :: y in rest ==> key(y) <= key(m);
      var top := if key(x) <= key(m) then m else x;
      forall y | y in s ensures key(y) <= key(top) {
        if y != x {
          assert y in rest;
        }
      }
      assert top in s;
    }
  }
}
