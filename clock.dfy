/** Time as the attendance rules see it. A clock reading is a day number and
    the microsecond of that day (Python's `datetime.time` keeps microseconds,
    and the rules compare times of day with them). */
module Clock {
  import opened Text

  const MicrosPerSecond: int := 1_000_000
  const MicrosPerDay: int := 86_400_000_000

  type TimeOfDay = t: int | 0 <= t < 86_400_000_000

  /** One reading of `datetime.now()`: `day` orders calendar days, `time` is
      the time of day. */
  datatype Instant = Instant(day: int, time: TimeOfDay)

  function At(h: nat, m: nat, s: nat): (t: TimeOfDay)
    requires h < 24 && m < 60 && s < 60
    ensures t / MicrosPerSecond == (h * 60 + m) * 60 + s
  {
    ((h * 60 + m) * 60 + s) * MicrosPerSecond
  }

  /** SIGNIN_ALLOWED_TIME, CUTOFF_TIME and LATE_SIGNIN_TIME. */
  const SigninAllowedTime: TimeOfDay := At(6, 0, 0)
  const CutoffTime: TimeOfDay := At(16, 0, 0)
  const LateSigninTime: TimeOfDay := At(8, 30, 0)

  /** COOLDOWN_MINUTES = 0.3, i.e. timedelta(minutes=0.3) == 18 seconds. */
  const Cooldown: int := 18 * MicrosPerSecond

  /** `now - earlier` as a signed duration in microseconds. */
  function Elapsed(earlier: Instant, now: Instant): int
  {
    (now.day - earlier.day) * MicrosPerDay + now.time - earlier.time
  }

  /** is_signin_allowed: the window [06:00, 16:00], both ends included. */
  predicate IsSigninAllowed(t: TimeOfDay)
  {
    SigninAllowedTime <= t <= CutoffTime
  }

  /** is_after_cutoff: strictly after 16:00. A time after the cutoff is never
      inside the sign-in window, and from 06:00 on every time is in exactly
      one of the two. */
  predicate IsAfterCutoff(t: TimeOfDay)
    ensures IsAfterCutoff(t) ==> !IsSigninAllowed(t)
    ensures t >= SigninAllowedTime ==> (IsAfterCutoff(t) <==> !IsSigninAllowed(t))
  {
    t > CutoffTime
  }

  /** Exactly at 16:00 a scan is still allowed and the end-of-day sweep does
      not run yet; one microsecond later it is the other way round. */
  lemma CutoffBoundary()
    ensures IsSigninAllowed(CutoffTime) && !IsAfterCutoff(CutoffTime)
    ensures !IsSigninAllowed(CutoffTime + 1) && IsAfterCutoff(CutoffTime + 1)
    ensures IsSigninAllowed(SigninAllowedTime) && !IsSigninAllowed(SigninAllowedTime - 1)
  {
  }

  /** `now.strftime("%H:%M:%S")`: the time of day to the whole second. */
  function FormatTime(t: TimeOfDay): string
  {
    var s := t / MicrosPerSecond;
    Pad2(s / 3600) + ":" + Pad2(s % 3600 / 60) + ":" + Pad2(s % 3600 % 60)
  }

  /** Reads an "HH:MM:SS" string back as seconds of the day. */
  function ReadTime(f: string): int
    requires |f| == 8
    requires forall i :: 0 <= i < 8 && i != 2 && i != 5 ==> IsDigit(f[i])
  {
    Read2(f[0..2]) * 3600 + Read2(f[3..5]) * 60 + Read2(f[6..8])
  }

  /** The daily sheet's time cell loses only the sub-second part of the
      reading: it is eight characters "HH:MM:SS" that read back as the
      reading's whole seconds. */
  lemma FormatTimeRoundTrip(t: TimeOfDay)
    ensures var f := FormatTime(t);
      && |f| == 8 && f[2] == ':' && f[5] == ':'
      && (forall i :: 0 <= i < 8 && i != 2 && i != 5 ==> IsDigit(f[i]))
      && ReadTime(f) == t / MicrosPerSecond
  {
    var s := t / MicrosPerSecond;
    var h, m, sec := s / 3600, s % 3600 / 60, s % 3600 % 60;
    SplitSeconds(s);
    var f := FormatTime(t);
    assert f == Pad2(h) + ":" + Pad2(m) + ":" + Pad2(sec);
    assert f[0..2] == Pad2(h) && f[3..5] == Pad2(m) && f[6..8] == Pad2(sec);
  }

  lemma SplitSeconds(s: int)
    requires 0 <= s < 86_400
    ensures s / 3600 < 24 && s % 3600 / 60 < 60 && s % 3600 % 60 < 60
    ensures s / 3600 * 3600 + s % 3600 / 60 * 60 + s % 3600 % 60 == s
  {
    var r := s % 3600;
    assert s == s / 3600 * 3600 + r;
    assert r == r / 60 * 60 + r % 60;
  }

  datatype Date = Date(year: nat, month: nat, day: nat)

  predicate IsLeapYear(y: nat)
  {
    y % 4 == 0 && (y % 100 != 0 || y % 400 == 0)
  }

  /** calendar.monthrange(year, month)[1] in the proleptic Gregorian calendar. */
  function DaysInMonth(y: nat, m: nat): (n: nat)
    requires 1 <= m <= 12
    ensures 28 <= n <= 31
  {
    if m == 2 then (if IsLeapYear(y) then 29 else 28)
    else if m == 4 || m == 6 || m == 9 || m == 11 then 30
    else 31
  }

  predicate ValidDate(d: Date)
  {
    1 <= d.month <= 12 && 1 <= d.day <= DaysInMonth(d.year, d.month)
  }

  /** `f"{year}-{month:02d}-{day:02d}"`, the header of one day's column and
      the name looked up as today's column. */
  function DateString(y: nat, m: nat, d: nat): string
    requires m < 100 && d < 100
  {
    Decimal(y) + "-" + Pad2(m) + "-" + Pad2(d)
  }

  lemma DateStringInjective(y: nat, m: nat, d1: nat, d2: nat)
    requires m < 100 && d1 < 100 && d2 < 100
    ensures DateString(y, m, d1) == DateString(y, m, d2) <==> d1 == d2
  {
    var s1, s2 := DateString(y, m, d1), DateString(y, m, d2);
    if s1 == s2 {
      var n := |s1|;
      assert s1[n - 2..] == Pad2(d1);
      assert s2[n - 2..] == Pad2(d2);
      Pad2Injective(d1, d2);
    }
  }

  /** The date headers of the monthly sheet: one per day of the month. */
  function DateHeaders(y: nat, m: nat): (hs: seq<string>)
    requires 1 <= m <= 12
    ensures |hs| == DaysInMonth(y, m)
    ensures forall i :: 0 <= i < |hs| ==> hs[i] == DateString(y, m, i + 1)
  {
    seq(DaysInMonth(y, m), i requires 0 <= i < DaysInMonth(y, m) => DateString(y, m, i + 1))
  }

  /** `["Name"] + date_headers`. */
  function MonthlyHeaders(y: nat, m: nat): (hs: seq<string>)
    requires 1 <= m <= 12
  {
    ["Name"] + DateHeaders(y, m)
  }

  /** `list.index(x)`: the first position of `x`, None for ValueError. */
  function IndexOf(s: seq<string>, x: string): (r: Option<nat>)
    ensures r.None? <==> x !in s
    ensures r.Some? ==> r.value < |s| && s[r.value] == x && x !in s[..r.value]
  {
    if s == [] then None
    else if s[0] == x then Some(0)
    else match IndexOf(s[1..], x)
      case None => None
      case Some(k) => assert s[..k + 1] == [s[0]] + s[1..][..k]; Some(k + 1)
  }

  /** Today's date is found in the monthly headers at position `day`, so its
      column is `day + 1`: the "date column not found" exit cannot happen for a
      real calendar date. */
  lemma {:induction false} TodayColumn(d: Date)
    requires ValidDate(d)
    ensures IndexOf(MonthlyHeaders(d.year, d.month), DateString(d.year, d.month, d.day)) == Some(d.day)
  {
    var hs := MonthlyHeaders(d.year, d.month);
    var x := DateString(d.year, d.month, d.day);
    assert hs[d.day] == x;
    forall i | 0 <= i < d.day
      ensures hs[i] != x
    {
      if i == 0 {
        assert x[0] != 'N';
      } else {
        DateStringInjective(d.year, d.month, i, d.day);
      }
    }
    assert x !in hs[..d.day];
  }
}
