/** The local time of day as the policy engine sees it: the first eight characters
    of `Date.prototype.toTimeString()`, zero-padded "HH:MM:SS", and the `TIME`
    columns `allowed_hours_start` / `allowed_hours_end`, which Postgres hands back
    in the same form. */
module TimeOfDay {
  import opened JsString

  predicate IsDigit(c: char) {
    '0' <= c <= '9'
  }

  function DigitValue(c: char): (d: nat)
    requires IsDigit(c)
    ensures d < 10
  {
    c as int - '0' as int
  }

  /** A zero-padded "HH:MM:SS" clock reading. */
  predicate WellFormed(t: string) {
    && |t| == 8
    && IsDigit(t[0]) && IsDigit(t[1]) && t[2] == ':'
    && IsDigit(t[3]) && IsDigit(t[4]) && t[5] == ':'
    && IsDigit(t[6]) && IsDigit(t[7])
    && DigitValue(t[0]) * 10 + DigitValue(t[1]) < 24
    && DigitValue(t[3]) < 6
    && DigitValue(t[6]) < 6
  }

  /** A zero-padded "HH:MM" reading, the value of an `<input type="time">`. */
  predicate ShortForm(t: string) {
    && |t| == 5
    && IsDigit(t[0]) && IsDigit(t[1]) && t[2] == ':'
    && IsDigit(t[3]) && IsDigit(t[4])
    && DigitValue(t[0]) * 10 + DigitValue(t[1]) < 24
    && DigitValue(t[3]) < 6
  }

  /** Seconds since midnight of the start of the minute an "HH:MM" reading names. */
  function MinuteSeconds(t: string): nat
    requires ShortForm(t)
  {
    (DigitValue(t[0]) * 10 + DigitValue(t[1])) * 3600 + (DigitValue(t[3]) * 10 + DigitValue(t[4])) * 60
  }

  /** The text a `TIME` column hands back for a text stored into it: a zero-padded
      "HH:MM" reads back with ":00" seconds, and a reading already in "HH:MM:SS"
      form as it is. Other texts are kept as given. */
  function AsTime(t: string): (r: string)
    ensures WellFormed(t) ==> r == t
    ensures ShortForm(t) ==> WellFormed(r) && r[..5] == t && Seconds(r) == MinuteSeconds(t)
    ensures !ShortForm(t) ==> r == t
  {
    if ShortForm(t) then t + ":00" else t
  }

  /** Reading a `TIME` value back and storing it again changes nothing. */
  lemma AsTimeIsIdempotent(t: string)
    ensures AsTime(AsTime(t)) == AsTime(t)
  {
    if ShortForm(t) {
      assert |AsTime(t)| == 8;
    }
  }

  /** Seconds since midnight of a well-formed reading. */
  function Seconds(t: string): (r: nat)
    requires WellFormed(t)
    ensures r < 24 * 60 * 60
  {
    (DigitValue(t[0]) * 10 + DigitValue(t[1])) * 3600
    + (DigitValue(t[3]) * 10 + DigitValue(t[4])) * 60
    + DigitValue(t[6]) * 10 + DigitValue(t[7])
  }

  /** Two strings that agree before index `k` and differ at `k` compare as their
      characters at `k` do. */
  lemma {:induction false} LexLeAtFirstDifference(a: string, b: string, k: nat)
    requires k < |a| && k < |b|
    requires forall i :: 0 <= i < k ==> a[i] == b[i]
    requires a[k] != b[k]
    ensures LexLe(a, b) <==> a[k] < b[k]
    decreases k
  {
    if k > 0 {
      assert a[0] == b[0];
      LexLeAtFirstDifference(a[1..], b[1..], k - 1);
    }
  }

  /** On well-formed readings, the string comparison the source performs is the
      comparison of the clock instants they denote. */
  lemma LexLeIsClockOrder(a: string, b: string)
    requires WellFormed(a) && WellFormed(b)
    ensures LexLe(a, b) <==> Seconds(a) <= Seconds(b)
  {
    if forall i :: 0 <= i < 8 ==> a[i] == b[i] {
      assert a == b;
      LexLeReflexive(a);
    } else {
      var k :=
        if a[0] != b[0] then 0
        else if a[1] != b[1] then 1
        else if a[3] != b[3] then 3
        else if a[4] != b[4] then 4
        else if a[6] != b[6] then 6
        else 7;
      LexLeAtFirstDifference(a, b, k);
    }
  }

  /** Consequently `LexLe` is the inclusive clock order on readings, and the
      interval test `start <= now <= end` means `now` lies in the window. */
  lemma InWindowIsClockInterval(start: string, now: string, end: string)
    requires WellFormed(start) && WellFormed(now) && WellFormed(end)
    ensures (LexLe(start, now) && LexLe(now, end))
        <==> Seconds(start) <= Seconds(now) <= Seconds(end)
  {
    LexLeIsClockOrder(start, now);
    LexLeIsClockOrder(now, end);
  }
}
