/**
 * The proleptic Gregorian calendar of chrono's `NaiveDate`, and the number of
 * days from 1970-01-01 used for Unix timestamps. Shared by the title-date and
 * wiki-timestamp conversions of src/page.rs and by `parse_date` in src/util.rs.
 */
module Calendar {

  datatype Date = Date(year: int, month: int, day: int)

  /** A date and a time of day, as chrono's `NaiveDateTime`; `second` may be 60 (a leap second). */
  datatype DateTime = DateTime(date: Date, hour: int, minute: int, second: int)

  const SecondsPerDay: int := 86400

  predicate IsLeapYear(y: int) {
    y % 4 == 0 && (y % 100 != 0 || y % 400 == 0)
  }

  function DaysInMonth(y: int, m: int): (n: int)
    requires 1 <= m <= 12
    ensures 28 <= n <= 31
    ensures n == 29 <==> m == 2 && IsLeapYear(y)
  {
    if m == 2 then (if IsLeapYear(y) then 29 else 28)
    else if m == 4 || m == 6 || m == 9 || m == 11 then 30
    else 31
  }

  predicate IsValid(d: Date) {
    1 <= d.month <= 12 && 1 <= d.day <= DaysInMonth(d.year, d.month)
  }

  predicate IsValidDateTime(t: DateTime) {
    IsValid(t.date) && 0 <= t.hour < 24 && 0 <= t.minute < 60 && 0 <= t.second <= 60
  }

  function DaysInYear(y: int): int {
    if IsLeapYear(y) then 366 else 365
  }

  /** Leap years among 1 .. y-1, counted with floor division (only differences of it are used). */
  function LeapYearsBefore(y: int): int {
    (y - 1) / 4 - (y - 1) / 100 + (y - 1) / 400
  }

  function DaysBeforeYear(y: int): int {
    365 * (y - 1970) + LeapYearsBefore(y) - LeapYearsBefore(1970)
  }

  function DaysBeforeMonth(y: int, m: int): int
    requires 1 <= m <= 12
  {
    [0, 31, 59, 90, 120, 151, 181, 212, 243, 273, 304, 334][m - 1]
    + (if m > 2 && IsLeapYear(y) then 1 else 0)
  }

  /** Days from 1970-01-01 to `d` (negative before it). */
  function DaysFromCivil(d: Date): int
    requires IsValid(d)
  {
    DaysBeforeYear(d.year) + DaysBeforeMonth(d.year, d.month) + d.day - 1
  }

  /** Unix seconds of midnight UTC at the start of `d` (`and_hms_opt(0, 0, 0)` then `timestamp()`). */
  function MidnightTimestamp(d: Date): (t: int)
    requires IsValid(d)
    ensures t % SecondsPerDay == 0
  {
    var days := DaysFromCivil(d);
    WholeDays(days);
    days * SecondsPerDay
  }

  lemma WholeDays(days: int)
    ensures (days * SecondsPerDay) % SecondsPerDay == 0
  {
  }

  /**
   * Unix seconds of a UTC date-time. chrono keeps a leap second as second 59
   * plus a full second of nanoseconds, and `timestamp()` drops the nanoseconds,
   * so second 60 counts as second 59.
   */
  function DateTimeTimestamp(t: DateTime): (secs: int)
    requires IsValidDateTime(t)
    ensures MidnightTimestamp(t.date) <= secs < MidnightTimestamp(t.date) + SecondsPerDay
  {
    MidnightTimestamp(t.date) + t.hour * 3600 + t.minute * 60 + (if t.second == 60 then 59 else t.second)
  }

  /** The calendar day after `d`: the independent reference `DaysFromCivil` is checked against. */
  function NextDay(d: Date): Date
    requires IsValid(d)
  {
    if d.day < DaysInMonth(d.year, d.month) then Date(d.year, d.month, d.day + 1)
    else if d.month < 12 then Date(d.year, d.month + 1, 1)
    else Date(d.year + 1, 1, 1)
  }

  /** Strict calendar order of dates. */
  predicate Before(a: Date, b: Date) {
    a.year < b.year
    || (a.year == b.year && a.month < b.month)
    || (a.year == b.year && a.month == b.month && a.day < b.day)
  }

  lemma QuarterStep(y: int)
    ensures y / 4 - (y - 1) / 4 == if y % 4 == 0 then 1 else 0
  {
  }

  lemma CenturyStep(y: int)
    ensures y / 100 - (y - 1) / 100 == if y % 100 == 0 then 1 else 0
  {
  }

  lemma FourCenturyStep(y: int)
    ensures y / 400 - (y - 1) / 400 == if y % 400 == 0 then 1 else 0
  {
  }

  lemma DivisibleDown(y: int)
    ensures y % 400 == 0 ==> y % 100 == 0
    ensures y % 100 == 0 ==> y % 4 == 0
  {
  }

  lemma LeapYearsStep(y: int)
    ensures LeapYearsBefore(y + 1) - LeapYearsBefore(y) == if IsLeapYear(y) then 1 else 0
  {
    QuarterStep(y);
    CenturyStep(y);
    FourCenturyStep(y);
    DivisibleDown(y);
  }

  lemma DaysBeforeYearStep(y: int)
    ensures DaysBeforeYear(y + 1) == DaysBeforeYear(y) + DaysInYear(y)
  {
    LeapYearsStep(y);
  }

  lemma {:induction false} DaysBeforeYearMonotonic(a: int, b: int)
    requires a <= b
    ensures DaysBeforeYear(a) <= DaysBeforeYear(b)
    decreases b - a
  {
    if a < b {
      DaysBeforeYearStep(a);
      DaysBeforeYearMonotonic(a + 1, b);
    }
  }

  lemma DaysBeforeMonthStep(y: int, m: int)
    requires 1 <= m <= 12
    ensures m < 12 ==> DaysBeforeMonth(y, m + 1) == DaysBeforeMonth(y, m) + DaysInMonth(y, m)
    ensures m == 12 ==> DaysBeforeMonth(y, m) + DaysInMonth(y, m) == DaysInYear(y)
  {
  }

  lemma {:induction false} DaysBeforeMonthMonotonic(y: int, a: int, b: int)
    requires 1 <= a < b <= 12
    ensures DaysBeforeMonth(y, a) + DaysInMonth(y, a) <= DaysBeforeMonth(y, b)
    decreases b - a
  {
    DaysBeforeMonthStep(y, a);
    if a + 1 < b {
      DaysBeforeMonthMonotonic(y, a + 1, b);
    }
  }

  /** Every date of year `d.year` falls before the first day of the next year. */
  lemma DaysFromCivilWithinYear(d: Date)
    requires IsValid(d)
    ensures DaysBeforeYear(d.year) <= DaysFromCivil(d) < DaysBeforeYear(d.year + 1)
  {
    DaysBeforeYearStep(d.year);
    if d.month < 12 {
      DaysBeforeMonthMonotonic(d.year, d.month, 12);
    }
    DaysBeforeMonthStep(d.year, 12);
  }

  lemma DaysFromCivilEpoch()
    ensures DaysFromCivil(Date(1970, 1, 1)) == 0
  {
  }

  /** The day after `d` is valid and is exactly one day later: with the epoch lemma this pins `DaysFromCivil` down on all valid dates. */
  lemma DaysFromCivilNextDay(d: Date)
    requires IsValid(d)
    ensures IsValid(NextDay(d))
    ensures DaysFromCivil(NextDay(d)) == DaysFromCivil(d) + 1
  {
    if d.day == DaysInMonth(d.year, d.month) {
      DaysBeforeMonthStep(d.year, d.month);
      if d.month == 12 {
        DaysBeforeYearStep(d.year);
      }
    }
  }

  /** Counting days is strictly increasing in the calendar order. */
  lemma DaysFromCivilStrictlyIncreasing(a: Date, b: Date)
    requires IsValid(a) && IsValid(b) && Before(a, b)
    ensures DaysFromCivil(a) < DaysFromCivil(b)
  {
    if a.year < b.year {
      DaysFromCivilWithinYear(a);
      DaysBeforeYearMonotonic(a.year + 1, b.year);
      DaysFromCivilWithinYear(b);
    } else if a.month < b.month {
      DaysBeforeMonthMonotonic(a.year, a.month, b.month);
    }
  }

  /** Distinct valid dates have distinct day numbers, so a timestamp names one date. */
  lemma DaysFromCivilInjective(a: Date, b: Date)
    requires IsValid(a) && IsValid(b) && DaysFromCivil(a) == DaysFromCivil(b)
    ensures a == b
  {
    if Before(a, b) {
      DaysFromCivilStrictlyIncreasing(a, b);
    } else if Before(b, a) {
      DaysFromCivilStrictlyIncreasing(b, a);
    }
  }
}
