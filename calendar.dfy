/**
 * The proleptic Gregorian calendar the cleaning script uses through pandas
 * timestamps: the leap-year test, month lengths, and the conversion of a
 * 1-based day of the year into a month and a day of the month (1 January
 * shifted by the day number minus one).
 */
module Calendar {

  datatype Date = Date(month: nat, day: nat)

  /** Gregorian rule: every fourth year, except centuries not divisible by 400. */
  predicate IsLeapYear(year: int): (leap: bool)
    ensures leap ==> year % 4 == 0
    ensures year % 4 == 0 && year % 100 != 0 ==> leap
    ensures year % 100 == 0 ==> (leap <==> year % 400 == 0)
  {
    (year % 4 == 0 && year % 100 != 0) || year % 400 == 0
  }

  /** The length of the year: the twelve month lengths added up, 366 exactly in a leap year. */
  function DaysInYear(year: int): (n: nat)
    ensures n == DaysBefore(year, 13)
    ensures n == 366 <==> IsLeapYear(year)
    ensures n == 365 || n == 366
  {
    MonthsFillYear(year);
    if IsLeapYear(year) then 366 else 365
  }

  function DaysInMonth(year: int, month: nat): nat
    requires 1 <= month <= 12
  {
    if month == 2 then (if IsLeapYear(year) then 29 else 28)
    else if month == 4 || month == 6 || month == 9 || month == 11 then 30
    else 31
  }

  /** Number of days of `year` in the months before `month`. */
  function DaysBefore(year: int, month: nat): nat
    requires 1 <= month <= 13
  {
    if month == 1 then 0 else DaysBefore(year, month - 1) + DaysInMonth(year, month - 1)
  }

  predicate ValidDate(year: int, d: Date) {
    1 <= d.month <= 12 && 1 <= d.day <= DaysInMonth(year, d.month)
  }

  /** 1-based position of a date within its year. */
  function DayOfYear(year: int, d: Date): nat
    requires ValidDate(year, d)
  {
    DaysBefore(year, d.month) + d.day
  }

  /** The twelve month lengths add up to 366 in a leap year and to 365 otherwise. */
  lemma MonthsFillYear(year: int)
    ensures DaysBefore(year, 13) == if IsLeapYear(year) then 366 else 365
  {
    var feb := DaysInMonth(year, 2);
    assert DaysBefore(year, 2) == 31;
    assert DaysBefore(year, 3) == 31 + feb;
    assert DaysBefore(year, 4) == 62 + feb;
    assert DaysBefore(year, 5) == 92 + feb;
    assert DaysBefore(year, 6) == 123 + feb;
    assert DaysBefore(year, 7) == 153 + feb;
    assert DaysBefore(year, 8) == 184 + feb;
    assert DaysBefore(year, 9) == 215 + feb;
    assert DaysBefore(year, 10) == 245 + feb;
    assert DaysBefore(year, 11) == 276 + feb;
    assert DaysBefore(year, 12) == 306 + feb;
  }

  /** Every month that starts later also starts after the whole earlier month. */
  lemma {:induction false} DaysBeforeGrows(year: int, m1: nat, m2: nat)
    requires 1 <= m1 < m2 <= 13
    ensures DaysBefore(year, m1) + DaysInMonth(year, m1) <= DaysBefore(year, m2)
    decreases m2
  {
    if m1 + 1 < m2 {
      DaysBeforeGrows(year, m1, m2 - 1);
    }
  }

  /** The month holding day `doy`, searching from `month` on. */
  function FindMonth(year: int, month: nat, doy: nat): (m: nat)
    requires 1 <= month <= 12
    requires DaysBefore(year, month) < doy <= DaysInYear(year)
    ensures month <= m <= 12
    ensures DaysBefore(year, m) < doy <= DaysBefore(year, m) + DaysInMonth(year, m)
    decreases 12 - month
  {
    MonthsFillYear(year);
    if doy <= DaysBefore(year, month + 1) then month else FindMonth(year, month + 1, doy)
  }

  /** The calendar date of the `doy`-th day of `year`. */
  function DateOfDay(year: int, doy: nat): (d: Date)
    requires 1 <= doy <= DaysInYear(year)
    ensures ValidDate(year, d)
    ensures DayOfYear(year, d) == doy
  {
    var m := FindMonth(year, 1, doy);
    Date(m, doy - DaysBefore(year, m))
  }

  /** Day-of-year order is calendar order: month first, then day of month. */
  lemma DayOfYearOrder(year: int, d1: Date, d2: Date)
    requires ValidDate(year, d1) && ValidDate(year, d2)
    ensures DayOfYear(year, d1) < DayOfYear(year, d2)
            <==> d1.month < d2.month || (d1.month == d2.month && d1.day < d2.day)
  {
    if d1.month < d2.month {
      DaysBeforeGrows(year, d1.month, d2.month);
    } else if d2.month < d1.month {
      DaysBeforeGrows(year, d2.month, d1.month);
    }
  }

  /** Converting a valid date to its day of the year and back gives the same date. */
  lemma DateRoundTrip(year: int, d: Date)
    requires ValidDate(year, d)
    ensures DayOfYear(year, d) <= DaysInYear(year)
    ensures DateOfDay(year, DayOfYear(year, d)) == d
  {
    if d.month < 12 {
      DaysBeforeGrows(year, d.month, 13);
    }
    MonthsFillYear(year);
    var e := DateOfDay(year, DayOfYear(year, d));
    DayOfYearOrder(year, d, e);
    DayOfYearOrder(year, e, d);
  }

  /** `d1` is an earlier date of the year than `d2`. */
  predicate Before(d1: Date, d2: Date) {
    d1.month < d2.month || (d1.month == d2.month && d1.day < d2.day)
  }

  /** Later days of the year fall on later calendar dates. */
  lemma DateOfDayMonotone(year: int, doy1: nat, doy2: nat)
    requires 1 <= doy1 < doy2 <= DaysInYear(year)
    ensures Before(DateOfDay(year, doy1), DateOfDay(year, doy2))
  {
    DayOfYearOrder(year, DateOfDay(year, doy1), DateOfDay(year, doy2));
  }

}
