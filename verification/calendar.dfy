/** Calendar dates as JavaScript `Date` values produced from a form's date
    input. Parsing the string is left to an oracle; what the core relies on is
    the comparison `new Date(a) <= new Date(b)`, which JavaScript performs on
    time values, and which is false as soon as either side is an Invalid Date
    (its time value is NaN). */
module Calendar {
  import opened Wrappers

  datatype CalendarDate = CalendarDate(year: nat, month: nat, day: nat)

  predicate IsLeapYear(y: nat) {
    y % 4 == 0 && (y % 100 != 0 || y % 400 == 0)
  }

  function DaysInYear(y: nat): nat {
    if IsLeapYear(y) then 366 else 365
  }

  function DaysInMonth(y: nat, m: nat): nat
    requires 1 <= m <= 12
  {
    if m == 2 then (if IsLeapYear(y) then 29 else 28)
    else if m == 4 || m == 6 || m == 9 || m == 11 then 30
    else 31
  }

  predicate IsValid(d: CalendarDate) {
    1 <= d.month <= 12 && 1 <= d.day <= DaysInMonth(d.year, d.month)
  }

  /** A date a successful parse can produce. */
  type ValidDate = d: CalendarDate | IsValid(d) witness CalendarDate(1970, 1, 1)

  /** The result of `new Date(s)`: None stands for an Invalid Date. */
  type ParsedDate = Option<ValidDate>

  /** Days from 1 January of year 0 to 1 January of year `y`. */
  function DaysBeforeYear(y: nat): nat {
    if y == 0 then 0 else DaysBeforeYear(y - 1) + DaysInYear(y - 1)
  }

  /** Days from 1 January to the first of month `m` in year `y`. */
  function DaysBeforeMonth(y: nat, m: nat): nat
    requires 1 <= m <= 12
  {
    var common := [0, 31, 59, 90, 120, 151, 181, 212, 243, 273, 304, 334][m - 1];
    if IsLeapYear(y) && m > 2 then common + 1 else common
  }

  /** The day count of a date; a time value at midnight is this count times
      a fixed number of milliseconds plus a fixed offset, so the two order
      dates alike. */
  function DayNumber(d: ValidDate): nat {
    DaysBeforeYear(d.year) + DaysBeforeMonth(d.year, d.month) + d.day - 1
  }

  /** Strictly earlier in (year, month, day) lexicographic order. */
  predicate Before(a: CalendarDate, b: CalendarDate) {
    || a.year < b.year
    || (a.year == b.year && a.month < b.month)
    || (a.year == b.year && a.month == b.month && a.day < b.day)
  }

  /** `new Date(a) <= new Date(b)`: compares time values, false when either
      is NaN. */
  predicate NotAfter(a: ParsedDate, b: ParsedDate) {
    a.Some? && b.Some? && DayNumber(a.value) <= DayNumber(b.value)
  }

  /** A later month of the same year starts after an earlier one ends. */
  lemma MonthsOrdered(y: nat, m1: nat, m2: nat)
    requires 1 <= m1 < m2 <= 12
    ensures DaysBeforeMonth(y, m1) + DaysInMonth(y, m1) <= DaysBeforeMonth(y, m2)
  {
  }

  /** Every day of a year lies before the start of the next. */
  lemma DayWithinYear(d: ValidDate)
    ensures DaysBeforeMonth(d.year, d.month) + d.day <= DaysInYear(d.year)
  {
  }

  /** A later year starts after an earlier one ends. */
  lemma {:induction false} YearsOrdered(y1: nat, y2: nat)
    requires y1 < y2
    ensures DaysBeforeYear(y1) + DaysInYear(y1) <= DaysBeforeYear(y2)
    decreases y2 - y1
  {
    if y1 + 1 < y2 {
      YearsOrdered(y1 + 1, y2);
    }
  }

  /** Comparing day counts, as JavaScript compares time values, is the
      lexicographic order on (year, month, day). */
  lemma DayNumberOrder(a: ValidDate, b: ValidDate)
    ensures DayNumber(a) < DayNumber(b) <==> Before(a, b)
  {
    if a.year < b.year {
      DayWithinYear(a);
      YearsOrdered(a.year, b.year);
    } else if b.year < a.year {
      DayWithinYear(b);
      YearsOrdered(b.year, a.year);
    } else if a.month < b.month {
      MonthsOrdered(a.year, a.month, b.month);
    } else if b.month < a.month {
      MonthsOrdered(a.year, b.month, a.month);
    }
  }

  /** For two valid dates, `a <= b` holds exactly when `b` is not strictly
      earlier than `a`; with an invalid side it never holds. */
  lemma NotAfterIsLexicographic(a: ParsedDate, b: ParsedDate)
    ensures NotAfter(a, b) <==> a.Some? && b.Some? && !Before(b.value, a.value)
  {
    if a.Some? && b.Some? {
      DayNumberOrder(b.value, a.value);
    }
  }
}
