/** Calendar dates and instants.  A `Date` is the database's `date` value
    (proleptic Gregorian, no time of day); an `Instant` is a timestamp in
    milliseconds since 1970-01-01T00:00Z, as JavaScript's `Date` holds it. */
module Dates {

  datatype Date = Date(year: int, month: int, day: int)

  type Instant = int

  const MsPerMinute: int := 60_000
  const MsPerDay: int := 86_400_000
  const MsPerWeek: int := 7 * MsPerDay

  predicate IsLeapYear(y: int) {
    y % 4 == 0 && (y % 100 != 0 || y % 400 == 0)
  }

  function DaysInMonth(y: int, m: int): int {
    if m == 2 then (if IsLeapYear(y) then 29 else 28)
    else if m == 4 || m == 6 || m == 9 || m == 11 then 30
    else 31
  }

  predicate ValidDate(d: Date) {
    1 <= d.month <= 12 && 1 <= d.day <= DaysInMonth(d.year, d.month)
  }

  /** Calendar order: by year, then month, then day. */
  predicate Before(a: Date, b: Date) {
    a.year < b.year
    || (a.year == b.year && (a.month < b.month || (a.month == b.month && a.day < b.day)))
  }

  predicate AtOrBefore(a: Date, b: Date) {
    !Before(b, a)
  }

  /** Number of days from 1970-01-01 to `d` (the days-from-civil formula;
      `/` is floor division here, as the formula needs). */
  function DayNumber(d: Date): int {
    var y := if d.month <= 2 then d.year - 1 else d.year;
    var era := y / 400;
    var yoe := y - era * 400;
    var mp := if d.month > 2 then d.month - 3 else d.month + 9;
    var doy := (153 * mp + 2) / 5 + d.day - 1;
    var doe := yoe * 365 + yoe / 4 - yoe / 100 + doy;
    era * 146097 + doe - 719468
  }

  /** Day of week of a day number, 0 = Sunday (1970-01-01 was a Thursday). */
  function WeekdayOfDay(n: int): (w: int)
    ensures 0 <= w < 7
  {
    (n + 4) % 7
  }

  /** `EXTRACT(DOW FROM date)` and `getUTCDay()`: 0 = Sunday .. 6 = Saturday. */
  function DayOfWeek(d: Date): (w: int)
    ensures 0 <= w < 7
  {
    WeekdayOfDay(DayNumber(d))
  }

  /** `date::timestamptz` in UTC: midnight at the start of `d`. */
  function StartOf(d: Date): Instant {
    DayNumber(d) * MsPerDay
  }

  /** `(t AT TIME ZONE 'UTC')::date`, as a day number. */
  function DayOf(t: Instant): int {
    t / MsPerDay
  }

  /** The day `d` falls on, as the calendar day of its own midnight. */
  lemma DayOfStart(d: Date)
    ensures DayOf(StartOf(d)) == DayNumber(d)
  {
  }

  /** Midnight (UTC) of the Sunday that begins the week containing `t`. */
  function WeekStart(t: Instant): (s: Instant)
    ensures s % MsPerDay == 0
    ensures WeekdayOfDay(DayOf(s)) == 0
    ensures s <= DayOf(t) * MsPerDay <= t < s + MsPerWeek
    ensures DayOf(t) * MsPerDay - s < MsPerWeek
  {
    var day := DayOf(t);
    (day - WeekdayOfDay(day)) * MsPerDay
  }

  /** Taking the start of the week of a week start changes nothing. */
  lemma WeekStartIdempotent(t: Instant)
    ensures WeekStart(WeekStart(t)) == WeekStart(t)
  {
    var s := WeekStart(t);
    assert DayOf(s) * MsPerDay == s;
  }

  /** The week start is the only Sunday midnight in the seven days up to `t`. */
  lemma {:induction false} WeekStartUnique(t: Instant, s: Instant)
    requires s % MsPerDay == 0 && WeekdayOfDay(DayOf(s)) == 0
    requires s <= t < s + MsPerWeek
    ensures s == WeekStart(t)
  {
    var w := WeekStart(t);
    var ds, dw := DayOf(s), DayOf(w);
    assert s == ds * MsPerDay;
    assert w == dw * MsPerDay;
    assert -7 < ds - dw < 7;
    assert (ds + 4) % 7 == 0 && (dw + 4) % 7 == 0;
    var qs, qw := (ds + 4) / 7, (dw + 4) / 7;
    assert ds + 4 == 7 * qs;
    assert dw + 4 == 7 * qw;
    assert -7 < 7 * (qs - qw) < 7;
    assert qs == qw;
  }
}
