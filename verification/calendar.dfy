/**
 * Proleptic Gregorian calendar dates, as the payment-terms resolver uses them:
 * a date is (year, month, day), dates compare lexicographically, and the number
 * of days between two dates is the difference of their day ordinals
 * (day 1 is 1 January of year 1).
 */
module Calendar {

  datatype Date = Date(year: int, month: int, day: int)

  predicate IsLeapYear(y: int) {
    y % 4 == 0 && (y % 100 != 0 || y % 400 == 0)
  }

  function DaysInYear(y: int): (n: int)
    ensures n == 365 || n == 366
    ensures n == 366 <==> IsLeapYear(y)
  {
    if IsLeapYear(y) then 366 else 365
  }

  function DaysInMonth(y: int, m: int): (n: int)
    requires 1 <= m <= 12
    ensures 28 <= n <= 31
    ensures n == 29 <==> (m == 2 && IsLeapYear(y))
  {
    if m == 2 then (if IsLeapYear(y) then 29 else 28)
    else if m == 4 || m == 6 || m == 9 || m == 11 then 30
    else 31
  }

  /** A date that exists: year 1 onwards, with no upper bound on the year. */
  predicate ValidDate(d: Date) {
    1 <= d.year && 1 <= d.month <= 12 && 1 <= d.day <= DaysInMonth(d.year, d.month)
  }

  /** A month and day that exist in every year (so not 29 February). */
  predicate AnnualDate(month: int, day: int) {
    1 <= month <= 12 && 1 <= day <= DaysInMonth(1, month)
  }

  /** Date order: earlier year, then earlier month, then earlier day. No
      date is before itself. */
  predicate Before(a: Date, b: Date): (r: bool)
    ensures r ==> a != b
  {
    a.year < b.year
    || (a.year == b.year && a.month < b.month)
    || (a.year == b.year && a.month == b.month && a.day < b.day)
  }

  /** Days in the years 1 .. y-1, in closed form. */
  function DaysBeforeYear(y: int): int {
    var z := y - 1;
    365 * z + z / 4 - z / 100 + z / 400
  }

  /** Days in the months 1 .. m-1 of year y, by the cumulative table. */
  function DaysBeforeMonth(y: int, m: int): int
    requires 1 <= m <= 13
  {
    var table := [0, 31, 59, 90, 120, 151, 181, 212, 243, 273, 304, 334, 365];
    table[m - 1] + (if m > 2 && IsLeapYear(y) then 1 else 0)
  }

  /** The day number of a date; 1 January of year 1 is day 1, and every
      other date has a larger number. */
  function Ordinal(d: Date): (n: int)
    requires ValidDate(d)
    ensures 1 <= n
    ensures n == 1 <==> d == Date(1, 1, 1)
  {
    DaysBeforeYear(d.year) + DaysBeforeMonth(d.year, d.month) + d.day
  }

  /** Moving on by one changes the quotient by one exactly when the new
      number is a multiple of the divisor. */
  lemma QuotientStep(z: int, k: int)
    requires k == 4 || k == 100 || k == 400
    ensures (z + 1) / k == z / k + (if (z + 1) % k == 0 then 1 else 0)
  {
  }

  /** Each year adds exactly its own length to the closed form. */
  lemma DaysBeforeYearStep(y: int)
    ensures DaysBeforeYear(y + 1) == DaysBeforeYear(y) + DaysInYear(y)
  {
    QuotientStep(y - 1, 4);
    QuotientStep(y - 1, 100);
    QuotientStep(y - 1, 400);
    assert DaysInYear(y) == 365 + (if y % 4 == 0 then 1 else 0) - (if y % 100 == 0 then 1 else 0)
                                + (if y % 400 == 0 then 1 else 0) by {
      if y % 100 == 0 {
        assert y % 4 == 0;
      }
      if y % 400 == 0 {
        assert y % 100 == 0;
      }
    }
  }

  /** The cumulative month table agrees with the month lengths. */
  lemma DaysBeforeMonthStep(y: int, m: int)
    requires 1 <= m <= 12
    ensures DaysBeforeMonth(y, m + 1) == DaysBeforeMonth(y, m) + DaysInMonth(y, m)
  {
  }

  /** The whole table adds up to the length of the year. */
  lemma DaysBeforeMonthTotal(y: int)
    ensures DaysBeforeMonth(y, 13) == DaysInYear(y)
  {
  }

  lemma {:induction false} DaysBeforeMonthMonotone(y: int, m1: int, m2: int)
    requires 1 <= m1 < m2 <= 13
    ensures DaysBeforeMonth(y, m1) + DaysInMonth(y, m1) <= DaysBeforeMonth(y, m2)
    decreases m2 - m1
  {
    DaysBeforeMonthStep(y, m1);
    if m1 + 1 < m2 {
      DaysBeforeMonthMonotone(y, m1 + 1, m2);
    }
  }

  lemma {:induction false} DaysBeforeYearMonotone(y1: int, y2: int)
    requires y1 < y2
    ensures DaysBeforeYear(y1) + DaysInYear(y1) <= DaysBeforeYear(y2)
    decreases y2 - y1
  {
    DaysBeforeYearStep(y1);
    if y1 + 1 < y2 {
      DaysBeforeYearMonotone(y1 + 1, y2);
    }
  }

  /** A date's ordinal lies within its own year. */
  lemma OrdinalWithinYear(d: Date)
    requires ValidDate(d)
    ensures DaysBeforeYear(d.year) < Ordinal(d) <= DaysBeforeYear(d.year) + DaysInYear(d.year)
  {
    DaysBeforeMonthMonotone(d.year, d.month, 13);
    DaysBeforeMonthTotal(d.year);
  }

  /** Ordinals order dates exactly as the date comparison does. */
  lemma OrdinalMonotone(a: Date, b: Date)
    requires ValidDate(a) && ValidDate(b)
    ensures Before(a, b) <==> Ordinal(a) < Ordinal(b)
  {
    if a.year < b.year {
      OrdinalWithinYear(a);
      OrdinalWithinYear(b);
      DaysBeforeYearMonotone(a.year, b.year);
    } else if b.year < a.year {
      OrdinalWithinYear(a);
      OrdinalWithinYear(b);
      DaysBeforeYearMonotone(b.year, a.year);
    } else if a.month < b.month {
      DaysBeforeMonthMonotone(a.year, a.month, b.month);
    } else if b.month < a.month {
      DaysBeforeMonthMonotone(a.year, b.month, a.month);
    }
  }

  /** Distinct dates have distinct ordinals. */
  lemma OrdinalInjective(a: Date, b: Date)
    requires ValidDate(a) && ValidDate(b)
    ensures Ordinal(a) == Ordinal(b) <==> a == b
  {
    OrdinalMonotone(a, b);
    OrdinalMonotone(b, a);
  }

  /** The same month and day one year later is 365 or 366 days on. */
  lemma NextYearSameDay(y: int, month: int, day: int)
    requires 1 <= y && AnnualDate(month, day)
    ensures ValidDate(Date(y, month, day)) && ValidDate(Date(y + 1, month, day))
    ensures 365 <= Ordinal(Date(y + 1, month, day)) - Ordinal(Date(y, month, day)) <= 366
  {
    DaysBeforeYearStep(y);
  }
}
