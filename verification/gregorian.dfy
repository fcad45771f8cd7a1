/**
  A small, self-contained proleptic Gregorian calendar: the date arithmetic the
  calendar grid needs (leap years, month lengths, successor and predecessor
  dates, a day count and a Monday-first weekday).
 */
module Gregorian {

  /** A calendar date; `month` is 1-based (1 = January). */
  datatype Date = Date(year: int, month: int, day: int)

  /** A (year, month) pair, as produced by stepping one month back or forward. */
  datatype YearMonth = YearMonth(year: int, month: int)

  /** The Gregorian rule: every fourth year, except centuries not divisible by 400. */
  predicate IsLeapYear(year: int) {
    year % 4 == 0 && (year % 100 != 0 || year % 400 == 0)
  }

  /** Number of days in `month` of `year`. */
  function DaysInMonth(year: int, month: int): (n: int)
    requires 1 <= month <= 12
    ensures 28 <= n <= 31
    ensures month == 2 ==> (n == 29 <==> IsLeapYear(year))
    ensures month != 2 ==> n >= 30
  {
    if month == 2 then (if IsLeapYear(year) then 29 else 28)
    else if month == 4 || month == 6 || month == 9 || month == 11 then 30
    else 31
  }

  /** A date that names an existing day. */
  predicate IsValid(d: Date) {
    1 <= d.month <= 12 && 1 <= d.day <= DaysInMonth(d.year, d.month)
  }

  /** The month before (`year`, `month`); January steps back into December of the previous year. */
  function PreviousMonth(year: int, month: int): (p: YearMonth)
    requires 1 <= month <= 12
    ensures 1 <= p.month <= 12
    ensures p.year * 12 + p.month == year * 12 + month - 1
  {
    if month == 1 then YearMonth(year - 1, 12) else YearMonth(year, month - 1)
  }

  /** The month after (`year`, `month`); December rolls over into January of the next year. */
  function NextMonth(year: int, month: int): (n: YearMonth)
    requires 1 <= month <= 12
    ensures 1 <= n.month <= 12
    ensures n.year * 12 + n.month == year * 12 + month + 1
  {
    if month == 12 then YearMonth(year + 1, 1) else YearMonth(year, month + 1)
  }

  /** Days from 0000-03-01 to 1 March of the March-based year `y`. */
  function DaysBeforeYear(y: int): int {
    365 * y + y / 4 - y / 100 + y / 400
  }

  /** Days from 1 March to the first day of `month` within a year counted from March. */
  function DaysFromMarch(month: int): (n: int)
    requires 1 <= month <= 12
    ensures 0 <= n <= 337
  {
    match month
    case 3 => 0
    case 4 => 31
    case 5 => 61
    case 6 => 92
    case 7 => 122
    case 8 => 153
    case 9 => 184
    case 10 => 214
    case 11 => 245
    case 12 => 275
    case 1 => 306
    case _ => 337
  }

  /**
    Number of days from 0000-03-01 (day 0) to `d`. Years are counted from March,
    so that the leap day is the last day of a counting year; January and February
    belong to the counting year that started the previous March.
   */
  function DayNumber(d: Date): int
    requires 1 <= d.month <= 12
  {
    var y := if d.month <= 2 then d.year - 1 else d.year;
    DaysBeforeYear(y) + DaysFromMarch(d.month) + d.day - 1
  }

  /** Day of the week, Monday = 0 ... Sunday = 6 (0000-03-01 was a Wednesday). */
  function Weekday(d: Date): (w: int)
    requires 1 <= d.month <= 12
    ensures 0 <= w <= 6
  {
    (DayNumber(d) + 2) % 7
  }

  /** The day after a valid date. */
  function Next(d: Date): (n: Date)
    requires IsValid(d)
    ensures IsValid(n)
    ensures n.day == 1 <==> d.day == DaysInMonth(d.year, d.month)
  {
    if d.day < DaysInMonth(d.year, d.month) then Date(d.year, d.month, d.day + 1)
    else
      var nm := NextMonth(d.year, d.month);
      Date(nm.year, nm.month, 1)
  }

  /** The day before a valid date. */
  function Prev(d: Date): (p: Date)
    requires IsValid(d)
    ensures IsValid(p)
    ensures d.day == 1 <==> p.day == DaysInMonth(p.year, p.month)
  {
    if d.day > 1 then Date(d.year, d.month, d.day - 1)
    else
      var pm := PreviousMonth(d.year, d.month);
      Date(pm.year, pm.month, DaysInMonth(pm.year, pm.month))
  }

  /** `d` moved `n` days forward. */
  function AddDays(d: Date, n: nat): (r: Date)
    requires IsValid(d)
    ensures IsValid(r)
    decreases n
  {
    if n == 0 then d else Next(AddDays(d, n - 1))
  }

  /** `d` moved `n` days back. */
  function SubtractDays(d: Date, n: nat): (r: Date)
    requires IsValid(d)
    ensures IsValid(r)
    decreases n
  {
    if n == 0 then d else Prev(SubtractDays(d, n - 1))
  }

  // ---------------------------------------------------------------------------
  // Arithmetic facts about the day count
  // ---------------------------------------------------------------------------

  /** Stepping `y` by one raises `y / c` exactly when `y + 1` is a multiple of `c`. */
  lemma DivStep(y: int)
    ensures (y + 1) / 4 == y / 4 + (if (y + 1) % 4 == 0 then 1 else 0)
    ensures (y + 1) / 100 == y / 100 + (if (y + 1) % 100 == 0 then 1 else 0)
    ensures (y + 1) / 400 == y / 400 + (if (y + 1) % 400 == 0 then 1 else 0)
  {
  }

  /** Every multiple of 400 is a multiple of 100, and every multiple of 100 a multiple of 4. */
  lemma MultiplesNest(y: int)
    ensures y % 400 == 0 ==> y % 100 == 0
    ensures y % 100 == 0 ==> y % 4 == 0
  {
    if y % 400 == 0 {
      var q := y / 400;
      assert y == 400 * q;
      assert y / 100 == 4 * q;
    }
    if y % 100 == 0 {
      var q := y / 100;
      assert y == 100 * q;
      assert y / 4 == 25 * q;
    }
  }

  /** A counting year (March to February) has 366 days exactly when its February is a leap one. */
  lemma CountingYearLength(y: int)
    ensures DaysBeforeYear(y + 1) - DaysBeforeYear(y) == (if IsLeapYear(y + 1) then 366 else 365)
  {
    DivStep(y);
    MultiplesNest(y + 1);
  }

  /** Shifting a count by `n` shifts its residue modulo 7 by `n`. */
  lemma ModShift(x: int, n: int)
    ensures (x + n) % 7 == (x % 7 + n) % 7
  {
    var q := x / 7;
    assert x + n == 7 * q + (x % 7 + n);
  }

  /** Dates `n` days apart are `n` weekdays apart, modulo a week. */
  lemma WeekdayAfter(d: Date, e: Date, n: int)
    requires 1 <= d.month <= 12 && 1 <= e.month <= 12
    requires DayNumber(e) == DayNumber(d) + n
    ensures Weekday(e) == (Weekday(d) + n) % 7
  {
    var x := DayNumber(d) + 2;
    assert DayNumber(e) + 2 == x + n;
    ModShift(x, n);
  }

  /** The last day of a month and the first of the next one are adjacent on the day count. */
  lemma MonthEndDayNumber(d: Date)
    requires IsValid(d) && d.day == DaysInMonth(d.year, d.month)
    ensures DayNumber(Next(d)) == DayNumber(d) + 1
  {
    if d.month == 2 {
      CountingYearLength(d.year - 1);
    }
  }

  /** The day count advances by one from a date to its successor. */
  lemma NextDayNumber(d: Date)
    requires IsValid(d)
    ensures DayNumber(Next(d)) == DayNumber(d) + 1
  {
    if d.day == DaysInMonth(d.year, d.month) {
      MonthEndDayNumber(d);
    }
  }

  /** Successor and predecessor undo each other on valid dates. */
  lemma NextPrev(d: Date)
    requires IsValid(d)
    ensures Next(Prev(d)) == d
    ensures Prev(Next(d)) == d
  {
  }

  /** The day count drops by one from a date to its predecessor. */
  lemma PrevDayNumber(d: Date)
    requires IsValid(d)
    ensures DayNumber(Prev(d)) == DayNumber(d) - 1
  {
    NextPrev(d);
    NextDayNumber(Prev(d));
  }

  /** Moving `n` days forward adds `n` to the day count. */
  lemma {:induction false} AddDaysDayNumber(d: Date, n: nat)
    requires IsValid(d)
    ensures DayNumber(AddDays(d, n)) == DayNumber(d) + n
    decreases n
  {
    if n > 0 {
      AddDaysDayNumber(d, n - 1);
      NextDayNumber(AddDays(d, n - 1));
    }
  }

  /** Moving `n` days back subtracts `n` from the day count. */
  lemma {:induction false} SubtractDaysDayNumber(d: Date, n: nat)
    requires IsValid(d)
    ensures DayNumber(SubtractDays(d, n)) == DayNumber(d) - n
    decreases n
  {
    if n > 0 {
      SubtractDaysDayNumber(d, n - 1);
      PrevDayNumber(SubtractDays(d, n - 1));
    }
  }

  /** The weekday of the next day is the following weekday, Sunday wrapping to Monday. */
  lemma NextWeekday(d: Date)
    requires IsValid(d)
    ensures Weekday(Next(d)) == (Weekday(d) + 1) % 7
  {
    NextDayNumber(d);
    WeekdayAfter(d, Next(d), 1);
  }

  /** Moving `n` days forward moves the weekday `n` places on, modulo a week. */
  lemma AddDaysWeekday(d: Date, n: nat)
    requires IsValid(d)
    ensures Weekday(AddDays(d, n)) == (Weekday(d) + n) % 7
  {
    AddDaysDayNumber(d, n);
    WeekdayAfter(d, AddDays(d, n), n);
  }

  /** Moving `n` days back moves the weekday `n` places back, modulo a week. */
  lemma SubtractDaysWeekday(d: Date, n: nat)
    requires IsValid(d)
    ensures Weekday(SubtractDays(d, n)) == (Weekday(d) - n) % 7
  {
    SubtractDaysDayNumber(d, n);
    WeekdayAfter(d, SubtractDays(d, n), -(n as int));
  }

  /** Going back as many days as a date's weekday reaches the Monday of its week. */
  lemma ReachesMonday(d: Date)
    requires IsValid(d)
    ensures Weekday(SubtractDays(d, Weekday(d))) == 0
  {
    var k := Weekday(d);
    SubtractDaysWeekday(d, k);
    assert (k - k) % 7 == 0;
  }

  /** Counting on from the day after `d` reaches the first Sunday after `d`. */
  lemma ReachesSunday(d: Date)
    requires IsValid(d) && Weekday(d) < 6
    ensures Weekday(AddDays(Next(d), 5 - Weekday(d))) == 6
  {
    var t := 6 - Weekday(d);
    NextDayNumber(d);
    AddDaysDayNumber(Next(d), t - 1);
    WeekdayAfter(d, AddDays(Next(d), t - 1), t);
  }

  /**
    Anchors of the Monday-first numbering: 1 January 1970 was a Thursday,
    1 January 2000 a Saturday, 1 November 2021 a Monday, 1 February 2024 a Thursday.
   */
  lemma KnownWeekdays()
    ensures Weekday(Date(1970, 1, 1)) == 3
    ensures Weekday(Date(2000, 1, 1)) == 5
    ensures Weekday(Date(2021, 11, 1)) == 0
    ensures Weekday(Date(2024, 2, 1)) == 3
  {
    assert DayNumber(Date(1970, 1, 1)) == 719468;
    assert DayNumber(Date(2000, 1, 1)) == 730425;
    assert DayNumber(Date(2021, 11, 1)) == 738400;
    assert DayNumber(Date(2024, 2, 1)) == 739222;
  }

  /** The length of a month is the distance in days from its first day to the first day of the next month. */
  lemma MonthLength(year: int, month: int)
    requires 1 <= month <= 12
    ensures DayNumber(Date(NextMonth(year, month).year, NextMonth(year, month).month, 1))
         == DayNumber(Date(year, month, 1)) + DaysInMonth(year, month)
  {
    NextDayNumber(Date(year, month, DaysInMonth(year, month)));
  }

  /** A calendar year has 366 days exactly when it is a leap year. */
  lemma YearLength(year: int)
    ensures DayNumber(Date(year + 1, 1, 1)) - DayNumber(Date(year, 1, 1))
         == (if IsLeapYear(year) then 366 else 365)
  {
    CountingYearLength(year - 1);
  }

  /**
    Going back `k` days from the first of a month, for `k` no larger than the
    previous month, lands on day `DaysInMonth - k + 1` of the previous month.
   */
  lemma {:induction false} SubtractDaysFromFirst(year: int, month: int, k: nat)
    requires 1 <= month <= 12
    requires 0 < k <= DaysInMonth(PreviousMonth(year, month).year, PreviousMonth(year, month).month)
    ensures SubtractDays(Date(year, month, 1), k)
         == Date(PreviousMonth(year, month).year, PreviousMonth(year, month).month,
                 DaysInMonth(PreviousMonth(year, month).year, PreviousMonth(year, month).month) - k + 1)
    decreases k
  {
    if k > 1 {
      SubtractDaysFromFirst(year, month, k - 1);
    }
  }

  /** Calendar order: earlier year, or same year and earlier month, or same month and earlier day. */
  predicate Before(a: Date, b: Date) {
    a.year < b.year
    || (a.year == b.year && (a.month < b.month || (a.month == b.month && a.day < b.day)))
  }

  /** Any day of an earlier month has a smaller day count than the first day of a later month. */
  lemma {:induction false} EarlierMonthSmaller(a: Date, year: int, month: int)
    requires IsValid(a) && 1 <= month <= 12
    requires a.year * 12 + a.month < year * 12 + month
    ensures DayNumber(a) < DayNumber(Date(year, month, 1))
    decreases year * 12 + month - (a.year * 12 + a.month)
  {
    var p := PreviousMonth(year, month);
    assert NextMonth(p.year, p.month) == YearMonth(year, month);
    MonthLength(p.year, p.month);
    if p.year * 12 + p.month != a.year * 12 + a.month {
      EarlierMonthSmaller(a, p.year, p.month);
    } else {
      assert p.year == a.year && p.month == a.month;
    }
  }

  /** A date in an earlier month is before, and has a smaller day count than, any date of a later month. */
  lemma EarlierMonthOrder(a: Date, b: Date)
    requires IsValid(a) && IsValid(b)
    requires a.year * 12 + a.month < b.year * 12 + b.month
    ensures Before(a, b) && !Before(b, a)
    ensures DayNumber(a) < DayNumber(b)
  {
    EarlierMonthSmaller(a, b.year, b.month);
    assert DayNumber(Date(b.year, b.month, 1)) <= DayNumber(b);
  }

  /** The day count orders valid dates exactly as the calendar does, so no two dates share a count. */
  lemma DayNumberOrder(a: Date, b: Date)
    requires IsValid(a) && IsValid(b)
    ensures Before(a, b) <==> DayNumber(a) < DayNumber(b)
    ensures DayNumber(a) == DayNumber(b) <==> a == b
  {
    if a.year * 12 + a.month < b.year * 12 + b.month {
      EarlierMonthOrder(a, b);
    } else if b.year * 12 + b.month < a.year * 12 + a.month {
      EarlierMonthOrder(b, a);
    } else {
      assert a.year == b.year && a.month == b.month;
    }
  }
}
