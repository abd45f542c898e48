/**
 * The proleptic Gregorian calendar of Python's `datetime`: dates with years
 * 1..9999, day ordinals (0001-01-01 is day 1, as `date.toordinal`), and
 * timestamps at microsecond resolution.
 */
module Calendar {

  datatype Date = Date(year: int, month: int, day: int)

  /** A `datetime`: a date and the time of day, counted in microseconds since midnight. */
  datatype DateTime = DateTime(date: Date, micros: int)

  const MicrosPerDay: int := 86_400_000_000

  predicate IsLeapYear(y: int)
  {
    y % 4 == 0 && (y % 100 != 0 || y % 400 == 0)
  }

  function YearLength(y: int): int
  {
    if IsLeapYear(y) then 366 else 365
  }

  function DaysInMonth(y: int, m: int): (n: int)
    requires 1 <= m <= 12
    ensures 28 <= n <= 31
    ensures n == 29 <==> m == 2 && IsLeapYear(y)
  {
    if m == 2 then (if IsLeapYear(y) then 29 else 28)
    else if m == 4 || m == 6 || m == 9 || m == 11 then 30
    else 31
  }

  /** What `date(y, m, d)` accepts without raising `ValueError`. */
  predicate IsValidDate(d: Date)
  {
    1 <= d.year <= 9999 && 1 <= d.month <= 12 && 1 <= d.day <= DaysInMonth(d.year, d.month)
  }

  predicate IsValidDateTime(t: DateTime)
  {
    IsValidDate(t.date) && 0 <= t.micros < MicrosPerDay
  }

  function Midnight(d: Date): DateTime
  {
    DateTime(d, 0)
  }

  /** Days in the years before `y`. */
  function DaysBeforeYear(y: int): int
    requires y >= 1
  {
    var p := y - 1;
    365 * p + p / 4 - p / 100 + p / 400
  }

  /** Days in the months of year `y` before month `m`. */
  function DaysBeforeMonth(y: int, m: int): int
    requires 1 <= m <= 12
  {
    var common :=
      if m == 1 then 0 else if m == 2 then 31 else if m == 3 then 59
      else if m == 4 then 90 else if m == 5 then 120 else if m == 6 then 151
      else if m == 7 then 181 else if m == 8 then 212 else if m == 9 then 243
      else if m == 10 then 273 else if m == 11 then 304 else 334;
    common + (if m > 2 && IsLeapYear(y) then 1 else 0)
  }

  /** `date.toordinal()`. */
  function Ordinal(d: Date): int
    requires IsValidDate(d)
  {
    DaysBeforeYear(d.year) + DaysBeforeMonth(d.year, d.month) + d.day
  }

  /** Microseconds from 0001-01-01 00:00 to `t`, shifted by one day. */
  function Stamp(t: DateTime): int
    requires IsValidDateTime(t)
  {
    Ordinal(t.date) * MicrosPerDay + t.micros
  }

  /** Python's `a > b` on `datetime`: lexicographic on year, month, day and time of day. */
  predicate After(a: DateTime, b: DateTime)
    ensures After(a, b) ==> a != b
    ensures a.date == b.date ==> (After(a, b) <==> a.micros > b.micros)
  {
    var x, y := a.date, b.date;
    x.year > y.year
    || (x.year == y.year && x.month > y.month)
    || (x.year == y.year && x.month == y.month && x.day > y.day)
    || (x == y && a.micros > b.micros)
  }

  /** Python's `>` on datetimes is a strict total order: asymmetric, and any two distinct datetimes are ordered. */
  lemma AfterIsStrictTotalOrder(a: DateTime, b: DateTime)
    ensures After(a, b) ==> !After(b, a)
    ensures a != b ==> After(a, b) || After(b, a)
  {
  }

  /** A year contributes its own length to the count of days before the next one. */
  lemma YearStep(y: int)
    requires y >= 1
    ensures DaysBeforeYear(y + 1) == DaysBeforeYear(y) + YearLength(y)
  {
    var p := y - 1;
    assert y / 4 == p / 4 + (if y % 4 == 0 then 1 else 0);
    assert y / 100 == p / 100 + (if y % 100 == 0 then 1 else 0);
    assert y / 400 == p / 400 + (if y % 400 == 0 then 1 else 0);
  }

  lemma {:induction false} YearsMonotone(a: int, b: int)
    requires 1 <= a <= b
    ensures DaysBeforeYear(a) + (b - a) * 365 <= DaysBeforeYear(b)
    decreases b - a
  {
    if a < b {
      YearsMonotone(a, b - 1);
      YearStep(b - 1);
    }
  }

  /** The months before `m` and month `m` itself fit inside the months before `n`. */
  lemma MonthsMonotone(y: int, m: int, n: int)
    requires 1 <= m < n <= 12
    ensures DaysBeforeMonth(y, m) + DaysInMonth(y, m) <= DaysBeforeMonth(y, n)
  {
  }

  /** A valid date lies within its own year's range of ordinals. */
  lemma OrdinalInYear(d: Date)
    requires IsValidDate(d)
    ensures DaysBeforeYear(d.year) + 1 <= Ordinal(d) <= DaysBeforeYear(d.year) + YearLength(d.year)
  {
  }

  /** Ordinals follow the calendar order: an earlier date has a smaller ordinal. */
  lemma OrdinalOrder(a: Date, b: Date)
    requires IsValidDate(a) && IsValidDate(b)
    requires a.year < b.year || (a.year == b.year && a.month < b.month)
             || (a.year == b.year && a.month == b.month && a.day < b.day)
    ensures Ordinal(a) < Ordinal(b)
  {
    if a.year < b.year {
      OrdinalInYear(a);
      OrdinalInYear(b);
      YearStep(a.year);
      YearsMonotone(a.year + 1, b.year);
    } else if a.month < b.month {
      MonthsMonotone(a.year, a.month, b.month);
    }
  }

  /** Distinct valid dates have distinct ordinals. */
  lemma OrdinalInjective(a: Date, b: Date)
    requires IsValidDate(a) && IsValidDate(b)
    ensures Ordinal(a) == Ordinal(b) <==> a == b
  {
    if a != b {
      if a.year < b.year || (a.year == b.year && a.month < b.month)
         || (a.year == b.year && a.month == b.month && a.day < b.day) {
        OrdinalOrder(a, b);
      } else {
        OrdinalOrder(b, a);
      }
    }
  }

  /** Python's lexicographic `>` on datetimes agrees with the order of their timestamps. */
  lemma AfterIsLaterStamp(a: DateTime, b: DateTime)
    requires IsValidDateTime(a) && IsValidDateTime(b)
    ensures After(a, b) <==> Stamp(a) > Stamp(b)
  {
    var x, y := a.date, b.date;
    if x == y {
    } else if x.year < y.year || (x.year == y.year && x.month < y.month)
              || (x.year == y.year && x.month == y.month && x.day < y.day) {
      OrdinalOrder(x, y);
    } else {
      OrdinalOrder(y, x);
    }
  }

  /** Between midnights, Python's `>` is the order of the dates' ordinals. */
  lemma AfterMidnightIsLaterOrdinal(a: Date, b: Date)
    requires IsValidDate(a) && IsValidDate(b)
    ensures After(Midnight(a), Midnight(b)) <==> Ordinal(a) > Ordinal(b)
  {
    if a == b {
    } else if a.year < b.year || (a.year == b.year && a.month < b.month)
              || (a.year == b.year && a.month == b.month && a.day < b.day) {
      OrdinalOrder(a, b);
    } else {
      OrdinalOrder(b, a);
    }
  }

  /** The same month and day one year later is 365 or 366 days on. */
  lemma NextYearDistance(d: Date)
    requires IsValidDate(d) && IsValidDate(Date(d.year + 1, d.month, d.day))
    ensures 365 <= Ordinal(Date(d.year + 1, d.month, d.day)) - Ordinal(d) <= 366
  {
    YearStep(d.year);
  }

  /** No two consecutive years are both leap years. */
  lemma NoConsecutiveLeapYears(y: int)
    ensures !(IsLeapYear(y) && IsLeapYear(y + 1))
  {
  }
}
