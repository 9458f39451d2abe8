/** `DateTime` values as .NET represents them: a count of 100-nanosecond
    ticks since 0001-01-01 00:00. */
module Time {

  const TicksPerDay: int := 864_000_000_000

  datatype DateTime = DateTime(ticks: int)

  predicate IsLeapYear(year: int)
  {
    year % 4 == 0 && (year % 100 != 0 || year % 400 == 0)
  }

  function DaysInMonth(year: int, month: int): int
    requires 1 <= month <= 12
  {
    if month == 2 then (if IsLeapYear(year) then 29 else 28)
    else if month in {4, 6, 9, 11} then 30
    else 31
  }

  /** Days of the year that precede the first of `month`. */
  function DaysBeforeMonth(year: int, month: int): (d: int)
    requires 1 <= month <= 12
    ensures 0 <= d <= 31 * (month - 1)
    decreases month
  {
    if month == 1 then 0 else DaysBeforeMonth(year, month - 1) + DaysInMonth(year, month - 1)
  }

  /** `new DateTime(year, month, day)`: midnight at the start of that day. */
  function FromCalendar(year: int, month: int, day: int): (t: DateTime)
    requires ValidDate(year, month, day)
    ensures 0 <= t.ticks
  {
    DateTime(DayNumber(year, month, day) * TicksPerDay)
  }

  /** Days from 0001-01-01 to the given date, as the proleptic Gregorian
      calendar counts them. */
  function DayNumber(year: int, month: int, day: int): (n: int)
    requires ValidDate(year, month, day)
    ensures 0 <= n
  {
    var y := year - 1;
    y * 365 + y / 4 - y / 100 + y / 400 + DaysBeforeMonth(year, month) + day - 1
  }

  /** The dates the `DateTime` constructor accepts. */
  predicate ValidDate(year: int, month: int, day: int)
  {
    1 <= year <= 9999 && 1 <= month <= 12 && 1 <= day <= DaysInMonth(year, month)
  }

  /** The calendar day after a valid date, when there is one. */
  function NextDay(year: int, month: int, day: int): (int, int, int)
    requires ValidDate(year, month, day)
  {
    if day < DaysInMonth(year, month) then (year, month, day + 1)
    else if month < 12 then (year, month + 1, 1)
    else (year + 1, 1, 1)
  }

  lemma DaysBeforeDecember(year: int)
    ensures DaysBeforeMonth(year, 12) == 334 + (if IsLeapYear(year) then 1 else 0)
  {
    assert DaysBeforeMonth(year, 2) == 31;
    assert DaysBeforeMonth(year, 3) == 59 + (if IsLeapYear(year) then 1 else 0);
    assert DaysBeforeMonth(year, 4) == DaysBeforeMonth(year, 3) + 31;
    assert DaysBeforeMonth(year, 5) == DaysBeforeMonth(year, 4) + 30;
    assert DaysBeforeMonth(year, 6) == DaysBeforeMonth(year, 5) + 31;
    assert DaysBeforeMonth(year, 7) == DaysBeforeMonth(year, 6) + 30;
    assert DaysBeforeMonth(year, 8) == DaysBeforeMonth(year, 7) + 31;
    assert DaysBeforeMonth(year, 9) == DaysBeforeMonth(year, 8) + 31;
    assert DaysBeforeMonth(year, 10) == DaysBeforeMonth(year, 9) + 30;
    assert DaysBeforeMonth(year, 11) == DaysBeforeMonth(year, 10) + 31;
  }

  /** Leap years, counted by the year's divisors, add exactly the leap day. */
  lemma LeapDayCount(year: int)
    requires 1 <= year
    ensures (year / 4 - (year - 1) / 4) - (year / 100 - (year - 1) / 100) + (year / 400 - (year - 1) / 400)
            == (if IsLeapYear(year) then 1 else 0)
  {
    DivStep4(year);
    DivStep100(year);
    DivStep400(year);
    DivisorsOfCenturies(year);
  }

  lemma DivisorsOfCenturies(n: int)
    ensures n % 400 == 0 ==> n % 100 == 0
    ensures n % 100 == 0 ==> n % 4 == 0
  {
    if n % 400 == 0 {
      var q := n / 400;
      assert n == 100 * (4 * q);
    }
    if n % 100 == 0 {
      var q := n / 100;
      assert n == 4 * (25 * q);
    }
  }

  lemma DivStep4(n: int)
    requires 1 <= n
    ensures n / 4 - (n - 1) / 4 == (if n % 4 == 0 then 1 else 0)
  {
  }

  lemma DivStep100(n: int)
    requires 1 <= n
    ensures n / 100 - (n - 1) / 100 == (if n % 100 == 0 then 1 else 0)
  {
  }

  lemma DivStep400(n: int)
    requires 1 <= n
    ensures n / 400 - (n - 1) / 400 == (if n % 400 == 0 then 1 else 0)
  {
  }

  /** 0001-01-01 is the origin of the tick count, and every later day is
      exactly one day of ticks after the day before it; together these
      determine the value of every date. */
  lemma FromCalendarOrigin()
    ensures FromCalendar(1, 1, 1).ticks == 0
  {
  }

  lemma FromCalendarNextDay(year: int, month: int, day: int)
    requires ValidDate(year, month, day)
    ensures var (y, m, d) := NextDay(year, month, day);
      ValidDate(y, m, d) ==>
        FromCalendar(y, m, d).ticks == FromCalendar(year, month, day).ticks + TicksPerDay
  {
    var (y, m, d) := NextDay(year, month, day);
    if ValidDate(y, m, d) {
      if day == DaysInMonth(year, month) && month == 12 {
        DayNumberNewYear(year);
      }
      assert DayNumber(y, m, d) == DayNumber(year, month, day) + 1;
    }
  }

  lemma DayNumberNewYear(year: int)
    requires ValidDate(year, 12, 31) && ValidDate(year + 1, 1, 1)
    ensures DayNumber(year + 1, 1, 1) == DayNumber(year, 12, 31) + 1
  {
    DaysBeforeDecember(year);
    LeapDayCount(year);
    var p := year - 1;
    assert DayNumber(year + 1, 1, 1) == year * 365 + year / 4 - year / 100 + year / 400;
    assert DayNumber(year, 12, 31) == p * 365 + p / 4 - p / 100 + p / 400 + DaysBeforeMonth(year, 12) + 30;
  }

  /** `t.AddDays(days)` for a whole number of days: exactly that many days of
      ticks later, so a positive count moves forward in time. */
  function AddDays(t: DateTime, days: int): (r: DateTime)
    ensures r.ticks - t.ticks == days * TicksPerDay
    ensures days > 0 ==> r.ticks > t.ticks
  {
    DateTime(t.ticks + days * TicksPerDay)
  }

  /** Adding days twice adds their sum. */
  lemma AddDaysCompose(t: DateTime, a: int, b: int)
    ensures AddDays(AddDays(t, a), b) == AddDays(t, a + b)
  {
  }
}
