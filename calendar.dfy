/**
 * Calendar timestamps as the connector's XML Gregorian calendar values hold them:
 * a year, a month, a day of the month and the milliseconds elapsed in that day
 * (the hour, minute, second and fractional-second fields folded into one number).
 * Adding a duration carries into the day, month and year as the Gregorian calendar
 * demands; setting the year keeps every other field as it is.
 */
module Calendar {

  const MsPerDay: int := 86_400_000

  datatype Timestamp = Timestamp(year: int, month: int, day: int, msOfDay: int)

  /** Gregorian leap year rule (Dafny's % is non-negative for positive divisors, as the calendar's modulo is). */
  predicate IsLeapYear(y: int) {
    y % 4 == 0 && (y % 100 != 0 || y % 400 == 0)
  }

  function DaysInMonth(y: int, m: int): (n: int)
    requires 1 <= m <= 12
    ensures 28 <= n <= 31
    ensures n == 29 <==> m == 2 && IsLeapYear(y)
  {
    if m == 2 then (if IsLeapYear(y) then 29 else 28)
    else if m == 4 || m == 6 || m == 9 || m == 11 then 30
    else 31
  }

  /** A timestamp that names an existing calendar instant. */
  predicate Valid(t: Timestamp) {
    1 <= t.month <= 12 && 1 <= t.day <= DaysInMonth(t.year, t.month) && 0 <= t.msOfDay < MsPerDay
  }

  /** Strict chronological order of two timestamps, field by field. */
  predicate Before(a: Timestamp, b: Timestamp) {
    a.year < b.year
    || (a.year == b.year && a.month < b.month)
    || (a.year == b.year && a.month == b.month && a.day < b.day)
    || (a.year == b.year && a.month == b.month && a.day == b.day && a.msOfDay < b.msOfDay)
  }

  /** The same time of day on the following calendar day. */
  function NextDay(t: Timestamp): (r: Timestamp)
    requires Valid(t)
    ensures Valid(r) && r.msOfDay == t.msOfDay && Before(t, r)
  {
    if t.day < DaysInMonth(t.year, t.month) then t.(day := t.day + 1)
    else if t.month < 12 then t.(month := t.month + 1, day := 1)
    else t.(year := t.year + 1, month := 1, day := 1)
  }

  /** Adds a non-negative duration of `d` milliseconds, carrying whole days. */
  function AddMillis(t: Timestamp, d: nat): (r: Timestamp)
    requires Valid(t)
    ensures Valid(r)
    ensures d > 0 ==> Before(t, r)
    decreases d
  {
    if t.msOfDay + d < MsPerDay then t.(msOfDay := t.msOfDay + d)
    else AddMillis(NextDay(t).(msOfDay := 0), d - (MsPerDay - t.msOfDay))
  }

  /** `year += 1` on a calendar value: only the year field changes, nothing is normalised. */
  function AddYear(t: Timestamp): (r: Timestamp)
    ensures Before(t, r)
    ensures r.year == t.year + 1 && r.month == t.month && r.day == t.day && r.msOfDay == t.msOfDay
  {
    t.(year := t.year + 1)
  }

  /** The year after a valid timestamp is a valid date unless the timestamp is 29 February. */
  lemma AddYearValid(t: Timestamp)
    requires Valid(t)
    ensures Valid(AddYear(t)) <==> !(t.month == 2 && t.day == 29)
  {
    if t.month == 2 && t.day == 29 {
      LeapYearsApart(t.year);
    }
  }

  /** Two consecutive years are never both leap years. */
  lemma LeapYearsApart(y: int)
    ensures !(IsLeapYear(y) && IsLeapYear(y + 1))
  {
    if IsLeapYear(y) {
      assert (y + 1) % 4 == 1;
    }
  }

  // ---- An independent reference: the number of milliseconds counted from the start of a base year.

  function YearDays(y: int): int {
    if IsLeapYear(y) then 366 else 365
  }

  /** Days in the months of year `y` before month `m`. */
  function DaysBeforeMonth(y: int, m: int): int
    requires 1 <= m <= 13
  {
    if m == 1 then 0 else DaysBeforeMonth(y, m - 1) + DaysInMonth(y, m - 1)
  }

  /** Days in the years from `y0` up to, not including, `y`. */
  function DaysFromYear(y0: int, y: int): int
    requires y0 <= y
    decreases y - y0
  {
    if y == y0 then 0 else DaysFromYear(y0, y - 1) + YearDays(y - 1)
  }

  /** Zero-based index of the day of `t`, counted from 1 January of year `y0`. */
  function DayIndex(y0: int, t: Timestamp): int
    requires Valid(t) && y0 <= t.year
  {
    DaysFromYear(y0, t.year) + DaysBeforeMonth(t.year, t.month) + t.day - 1
  }

  /** Milliseconds elapsed from 1 January of year `y0`, 00:00, to `t`. */
  function Ordinal(y0: int, t: Timestamp): int
    requires Valid(t) && y0 <= t.year
  {
    DayIndex(y0, t) * MsPerDay + t.msOfDay
  }

  lemma {:induction false} MonthsMakeYear(y: int)
    ensures DaysBeforeMonth(y, 13) == YearDays(y)
  {
    var leap := if IsLeapYear(y) then 1 else 0;
    assert DaysBeforeMonth(y, 2) == 31;
    assert DaysBeforeMonth(y, 3) == 59 + leap;
    assert DaysBeforeMonth(y, 4) == 90 + leap;
    assert DaysBeforeMonth(y, 5) == 120 + leap;
    assert DaysBeforeMonth(y, 6) == 151 + leap;
    assert DaysBeforeMonth(y, 7) == 181 + leap;
    assert DaysBeforeMonth(y, 8) == 212 + leap;
    assert DaysBeforeMonth(y, 9) == 243 + leap;
    assert DaysBeforeMonth(y, 10) == 273 + leap;
    assert DaysBeforeMonth(y, 11) == 304 + leap;
    assert DaysBeforeMonth(y, 12) == 334 + leap;
  }

  lemma {:induction false} NextDayIndex(y0: int, t: Timestamp)
    requires Valid(t) && y0 <= t.year
    ensures y0 <= NextDay(t).year && DayIndex(y0, NextDay(t)) == DayIndex(y0, t) + 1
  {
    if t.day == DaysInMonth(t.year, t.month) && t.month == 12 {
      MonthsMakeYear(t.year);
    }
  }

  /** Adding `d` milliseconds moves a timestamp exactly `d` milliseconds forward. */
  lemma {:induction false} AddMillisExact(y0: int, t: Timestamp, d: nat)
    requires Valid(t) && y0 <= t.year
    ensures t.year <= AddMillis(t, d).year
    ensures Ordinal(y0, AddMillis(t, d)) == Ordinal(y0, t) + d
    decreases d
  {
    if t.msOfDay + d >= MsPerDay {
      var u := NextDay(t).(msOfDay := 0);
      NextDayIndex(y0, t);
      assert DayIndex(y0, u) == DayIndex(y0, NextDay(t));
      AddMillisExact(y0, u, d - (MsPerDay - t.msOfDay));
    }
  }

  lemma {:induction false} DaysBeforeMonthMonotone(y: int, m: int, n: int)
    requires 1 <= m <= n <= 13
    ensures DaysBeforeMonth(y, m) <= DaysBeforeMonth(y, n)
    ensures m < n ==> DaysBeforeMonth(y, m) + DaysInMonth(y, m) <= DaysBeforeMonth(y, n)
    decreases n - m
  {
    if m < n {
      DaysBeforeMonthMonotone(y, m, n - 1);
    }
  }

  lemma {:induction false} DaysFromYearMonotone(y0: int, y: int, z: int)
    requires y0 <= y <= z
    ensures DaysFromYear(y0, y) <= DaysFromYear(y0, z)
    ensures y < z ==> DaysFromYear(y0, y) + YearDays(y) <= DaysFromYear(y0, z)
    decreases z - y
  {
    if y < z {
      DaysFromYearMonotone(y0, y, z - 1);
    }
  }

  /** A day index stays below the count of days up to the end of its year. */
  lemma DayIndexInYear(y0: int, t: Timestamp)
    requires Valid(t) && y0 <= t.year
    ensures DaysFromYear(y0, t.year) <= DayIndex(y0, t) < DaysFromYear(y0, t.year) + YearDays(t.year)
  {
    DaysBeforeMonthMonotone(t.year, 1, t.month);
    DaysBeforeMonthMonotone(t.year, t.month, 13);
    MonthsMakeYear(t.year);
  }

  /** The field-by-field order agrees with the millisecond count: each is a reference for the other. */
  lemma BeforeIsOrdinalOrder(y0: int, a: Timestamp, b: Timestamp)
    requires Valid(a) && Valid(b) && y0 <= a.year && y0 <= b.year
    ensures Before(a, b) <==> Ordinal(y0, a) < Ordinal(y0, b)
  {
    if a.year != b.year {
      var (p, q) := if a.year < b.year then (a, b) else (b, a);
      DayIndexInYear(y0, p);
      DayIndexInYear(y0, q);
      DaysFromYearMonotone(y0, p.year, q.year);
      assert DayIndex(y0, p) < DayIndex(y0, q);
    } else if a.month != b.month {
      var (p, q) := if a.month < b.month then (a, b) else (b, a);
      DaysBeforeMonthMonotone(p.year, p.month, q.month);
      assert DayIndex(y0, p) < DayIndex(y0, q);
    }
  }

  /** The months before `m` hold one more day in a leap year once February is among them. */
  lemma {:induction false} DaysBeforeMonthLeap(y: int, z: int, m: int)
    requires 1 <= m <= 13
    ensures DaysBeforeMonth(z, m) - DaysBeforeMonth(y, m)
      == (if m > 2 then (if IsLeapYear(z) then 1 else 0) - (if IsLeapYear(y) then 1 else 0) else 0)
  {
    if m > 1 {
      DaysBeforeMonthLeap(y, z, m - 1);
    }
  }

  /**
   * Setting the year one higher moves a date forward by the length of the year that
   * holds the next 29 February slot: this year's length up to February, next year's after.
   */
  lemma AddYearDays(y0: int, t: Timestamp)
    requires Valid(t) && Valid(AddYear(t)) && y0 <= t.year
    ensures DayIndex(y0, AddYear(t)) == DayIndex(y0, t) + (if t.month <= 2 then YearDays(t.year) else YearDays(t.year + 1))
    ensures Ordinal(y0, AddYear(t)) - Ordinal(y0, t)
      == (if t.month <= 2 then YearDays(t.year) else YearDays(t.year + 1)) * MsPerDay
  {
    DaysBeforeMonthLeap(t.year, t.year + 1, t.month);
  }
}
