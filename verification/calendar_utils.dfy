/**
  The month grid of a Monday-first calendar view: the cells shown for one
  (year, month), made of filler days from the previous month, every day of the
  month itself, and filler days from the next month up to the following Sunday.
  "Today" is a parameter instead of a read of the wall clock.
 */
module CalendarUtils {
  import opened Gregorian

  /**
    One cell of the grid. `createDaysForPreviousMonth` and `createDaysForNextMonth`
    build filler cells without `isToday`, and only `createDaysForNextMonth` sets
    `isNextMonth`; an absent flag is `false` here.
   */
  datatype CalendarDay = CalendarDay(
    date: Date,
    dayOfMonth: int,
    isCurrentMonth: bool,
    isToday: bool,
    isNextMonth: bool)

  /** Whether `date` is the supplied current day. */
  predicate IsToday(date: Date, today: Date) {
    date == today
  }

  /** For valid dates, being today means falling on the same calendar day: having the same day count. */
  lemma IsTodaySameDay(date: Date, today: Date)
    requires IsValid(date) && IsValid(today)
    ensures IsToday(date, today) <==> DayNumber(date) == DayNumber(today)
  {
    DayNumberOrder(date, today);
  }

  /** The cells of every day of the requested month, numbered 1 .. DaysInMonth. */
  function DaysForCurrentMonth(year: int, month: int, today: Date): (days: seq<CalendarDay>)
    requires 1 <= month <= 12
    ensures |days| == DaysInMonth(year, month)
    ensures forall i :: 0 <= i < |days| ==>
              && IsValid(days[i].date)
              && days[i].date == Date(year, month, i + 1)
              && days[i].dayOfMonth == i + 1
              && days[i].isCurrentMonth
              && !days[i].isNextMonth
              && (days[i].isToday <==> days[i].date == today)
  {
    var count := DaysInMonth(year, month);
    seq(count, i requires 0 <= i < count =>
      CalendarDay(Date(year, month, i + 1), i + 1, true, IsToday(Date(year, month, i + 1), today), false))
  }

  /**
    Leading filler: as many days of the previous month as the weekday of the
    first cell of `current`, numbered from the day that lies that many days
    before it.
   */
  function DaysForPreviousMonth(year: int, month: int, current: seq<CalendarDay>): (days: seq<CalendarDay>)
    requires 1 <= month <= 12
    requires |current| > 0 && IsValid(current[0].date)
    ensures |days| == Weekday(current[0].date)
    ensures forall i :: 0 <= i < |days| ==>
              && days[i].date == Date(PreviousMonth(year, month).year, PreviousMonth(year, month).month, days[i].dayOfMonth)
              && !days[i].isCurrentMonth
              && !days[i].isToday
              && !days[i].isNextMonth
    ensures forall i :: 0 < i < |days| ==> days[i].dayOfMonth == days[i - 1].dayOfMonth + 1
  {
    var count := Weekday(current[0].date);
    var startDay := SubtractDays(current[0].date, count).day;
    var prev := PreviousMonth(year, month);
    seq(count, i requires 0 <= i < count =>
      CalendarDay(Date(prev.year, prev.month, startDay + i), startDay + i, false, false, false))
  }

  /**
    Trailing filler: the first days of the next month, enough to reach the Sunday
    after day `|current|` of the requested month.
   */
  function DaysForNextMonth(year: int, month: int, current: seq<CalendarDay>): (days: seq<CalendarDay>)
    requires 1 <= month <= 12
    ensures |days| == 6 - Weekday(Date(year, month, |current|))
    ensures forall i :: 0 <= i < |days| ==>
              && IsValid(days[i].date)
              && days[i].date == Date(NextMonth(year, month).year, NextMonth(year, month).month, i + 1)
              && days[i].dayOfMonth == i + 1
              && !days[i].isCurrentMonth
              && !days[i].isToday
              && days[i].isNextMonth
  {
    var count := 6 - Weekday(Date(year, month, |current|));
    var next := NextMonth(year, month);
    seq(count, i requires 0 <= i < count =>
      CalendarDay(Date(next.year, next.month, i + 1), i + 1, false, false, true))
  }

  /** The whole grid: leading filler, the month itself, trailing filler. */
  function CurrentMonthDays(year: int, month: int, today: Date): (grid: seq<CalendarDay>)
    requires 1 <= month <= 12
    ensures |grid| == Weekday(Date(year, month, 1)) + DaysInMonth(year, month)
                      + (6 - Weekday(Date(year, month, DaysInMonth(year, month))))
  {
    var current := DaysForCurrentMonth(year, month, today);
    DaysForPreviousMonth(year, month, current) + current + DaysForNextMonth(year, month, current)
  }

  // ---------------------------------------------------------------------------
  // Properties of the filler runs
  // ---------------------------------------------------------------------------

  /**
    For the real month, the leading filler holds the `Weekday(first)` days just
    before the first of the month, in order, ending on the previous month's last day.
   */
  lemma PreviousMonthFiller(year: int, month: int, today: Date)
    requires 1 <= month <= 12
    ensures var first := Date(year, month, 1);
            var days := DaysForPreviousMonth(year, month, DaysForCurrentMonth(year, month, today));
            var prev := PreviousMonth(year, month);
            && |days| == Weekday(first) <= 6
            && (forall i :: 0 <= i < |days| ==>
                  && IsValid(days[i].date)
                  && days[i].dayOfMonth == days[i].date.day
                  && days[i].date == SubtractDays(first, |days| - i))
            && (|days| > 0 ==> days[|days| - 1].date == Date(prev.year, prev.month, DaysInMonth(prev.year, prev.month)))
  {
    var first := Date(year, month, 1);
    var current := DaysForCurrentMonth(year, month, today);
    var days := DaysForPreviousMonth(year, month, current);
    var prev := PreviousMonth(year, month);
    var k := |days|;
    var last := DaysInMonth(prev.year, prev.month);
    if k > 0 {
      SubtractDaysFromFirst(year, month, k);
      forall i | 0 <= i < k
        ensures IsValid(days[i].date) && days[i].date == SubtractDays(first, k - i)
      {
        SubtractDaysFromFirst(year, month, k - i);
      }
    }
  }

  /** For the real month, the trailing filler starts on the day after the month's last day. */
  lemma NextMonthFiller(year: int, month: int, today: Date)
    requires 1 <= month <= 12
    ensures var lastDay := Date(year, month, DaysInMonth(year, month));
            var days := DaysForNextMonth(year, month, DaysForCurrentMonth(year, month, today));
            && |days| == 6 - Weekday(lastDay) <= 6
            && (|days| > 0 ==> days[0].date == Next(lastDay))
            && (forall i :: 0 <= i < |days| ==> days[i].date == AddDays(Next(lastDay), i))
  {
  }

  // ---------------------------------------------------------------------------
  // Properties of the whole grid
  // ---------------------------------------------------------------------------

  /** The grid is leading filler, then exactly the current-month cells, then trailing filler. */
  lemma GridLayout(year: int, month: int, today: Date)
    requires 1 <= month <= 12
    ensures var g := CurrentMonthDays(year, month, today);
            var k := Weekday(Date(year, month, 1));
            var n := DaysInMonth(year, month);
            && k + n <= |g|
            && g[..k] == DaysForPreviousMonth(year, month, DaysForCurrentMonth(year, month, today))
            && g[k..k + n] == DaysForCurrentMonth(year, month, today)
            && g[k + n..] == DaysForNextMonth(year, month, DaysForCurrentMonth(year, month, today))
  {
  }

  /** The weekday of a month's last day is determined by the weekday of its first day and its length. */
  lemma LastDayWeekday(year: int, month: int)
    requires 1 <= month <= 12
    ensures Weekday(Date(year, month, DaysInMonth(year, month)))
         == (Weekday(Date(year, month, 1)) + DaysInMonth(year, month) - 1) % 7
  {
    var first := Date(year, month, 1);
    var n := DaysInMonth(year, month);
    assert DayNumber(Date(year, month, n)) == DayNumber(first) + n - 1;
    ModShift(DayNumber(first) + 2, n - 1);
  }

  /** Filling `k` leading and `6 - w` trailing cells around `n` days, `w` being the last day's weekday, makes whole weeks. */
  lemma WholeWeeks(k: int, n: int, w: int)
    requires 0 <= k <= 6 && 28 <= n <= 31 && w == (k + n - 1) % 7
    ensures (k + n + (6 - w)) % 7 == 0
    ensures 28 <= k + n + (6 - w) <= 42
  {
  }

  /** The three counts that make up a grid add up to whole weeks, four to six of them. */
  lemma MonthWeeks(year: int, month: int)
    requires 1 <= month <= 12
    ensures var total := Weekday(Date(year, month, 1)) + DaysInMonth(year, month)
                         + (6 - Weekday(Date(year, month, DaysInMonth(year, month))));
            total % 7 == 0 && 28 <= total <= 42
  {
    var k := Weekday(Date(year, month, 1));
    var n := DaysInMonth(year, month);
    LastDayWeekday(year, month);
    WholeWeeks(k, n, Weekday(Date(year, month, n)));
  }

  /** The grid covers whole weeks: its length is 28, 35 or 42. */
  lemma GridLength(year: int, month: int, today: Date)
    requires 1 <= month <= 12
    ensures var g := CurrentMonthDays(year, month, today);
            && |g| % 7 == 0
            && 28 <= |g| <= 42
  {
    MonthWeeks(year, month);
  }

  /** The first cell of the grid is a Monday. */
  lemma GridStartsOnMonday(year: int, month: int, today: Date)
    requires 1 <= month <= 12
    ensures var g := CurrentMonthDays(year, month, today);
            |g| > 0 && Weekday(g[0].date) == 0
  {
    var g := CurrentMonthDays(year, month, today);
    var first := Date(year, month, 1);
    var current := DaysForCurrentMonth(year, month, today);
    var prev := DaysForPreviousMonth(year, month, current);
    var k := |prev|;
    PreviousMonthFiller(year, month, today);
    if k > 0 {
      assert g[0] == prev[0];
      assert g[0].date == SubtractDays(first, Weekday(first));
      ReachesMonday(first);
    } else {
      assert g[0] == current[0];
    }
  }

  /** The last cell of the grid is a Sunday. */
  lemma GridEndsOnSunday(year: int, month: int, today: Date)
    requires 1 <= month <= 12
    ensures var g := CurrentMonthDays(year, month, today);
            |g| > 0 && Weekday(g[|g| - 1].date) == 6
  {
    var g := CurrentMonthDays(year, month, today);
    var n := DaysInMonth(year, month);
    var lastDay := Date(year, month, n);
    var current := DaysForCurrentMonth(year, month, today);
    var next := DaysForNextMonth(year, month, current);
    NextMonthFiller(year, month, today);
    if |next| > 0 {
      var t := |next|;
      assert g[|g| - 1] == next[t - 1];
      assert next[t - 1].date == AddDays(Next(lastDay), t - 1);
      ReachesSunday(lastDay);
    } else {
      assert g[|g| - 1] == current[n - 1];
    }
  }

  /** Consecutive cells hold consecutive dates: the grid has no gap and no repeated day. */
  lemma GridContiguous(year: int, month: int, today: Date)
    requires 1 <= month <= 12
    ensures var g := CurrentMonthDays(year, month, today);
            && (forall i :: 0 <= i < |g| ==> IsValid(g[i].date) && g[i].dayOfMonth == g[i].date.day)
            && (forall i :: 0 < i < |g| ==> g[i].date == Next(g[i - 1].date))
  {
    var g := CurrentMonthDays(year, month, today);
    var first := Date(year, month, 1);
    var n := DaysInMonth(year, month);
    var lastDay := Date(year, month, n);
    var current := DaysForCurrentMonth(year, month, today);
    var prev := DaysForPreviousMonth(year, month, current);
    var next := DaysForNextMonth(year, month, current);
    var k := |prev|;
    PreviousMonthFiller(year, month, today);
    NextMonthFiller(year, month, today);
    forall i | 0 <= i < |g|
      ensures IsValid(g[i].date) && g[i].dayOfMonth == g[i].date.day
    {
      if i < k {
        assert g[i] == prev[i];
      } else if i < k + n {
        assert g[i] == current[i - k];
      } else {
        assert g[i] == next[i - k - n];
      }
    }
    forall i | 0 < i < |g|
      ensures g[i].date == Next(g[i - 1].date)
    {
      if i < k {
        assert g[i] == prev[i] && g[i - 1] == prev[i - 1];
        NextPrev(SubtractDays(first, k - i));
      } else if i == k {
        assert g[i] == current[0] && g[i - 1] == prev[k - 1];
        NextPrev(first);
      } else if i < k + n {
        assert g[i] == current[i - k] && g[i - 1] == current[i - k - 1];
      } else if i == k + n {
        assert g[i] == next[0] && g[i - 1] == current[n - 1];
      } else {
        assert g[i] == next[i - k - n] && g[i - 1] == next[i - k - n - 1];
      }
    }
  }

  /**
    The day count rises by exactly one per cell, so the dates are in strictly
    increasing calendar order and no date appears twice.
   */
  lemma GridChronological(year: int, month: int, today: Date)
    requires 1 <= month <= 12
    ensures var g := CurrentMonthDays(year, month, today);
            && (forall i :: 0 <= i < |g| ==>
                  IsValid(g[i].date) && DayNumber(g[i].date) == DayNumber(g[0].date) + i)
            && (forall i, j :: 0 <= i < j < |g| ==> Before(g[i].date, g[j].date))
            && (forall i, j :: 0 <= i < j < |g| ==> g[i].date != g[j].date)
  {
    var g := CurrentMonthDays(year, month, today);
    GridContiguous(year, month, today);
    forall i | 0 <= i < |g|
      ensures IsValid(g[i].date) && DayNumber(g[i].date) == DayNumber(g[0].date) + i
    {
      ContiguousDayNumbers(g, i);
    }
    forall i, j | 0 <= i < j < |g|
      ensures Before(g[i].date, g[j].date)
    {
      DayNumberOrder(g[i].date, g[j].date);
    }
  }

  /** Along cells whose dates are successive, the day count rises by one per cell. */
  lemma {:induction false} ContiguousDayNumbers(g: seq<CalendarDay>, i: nat)
    requires i < |g|
    requires forall j :: 0 <= j < |g| ==> IsValid(g[j].date)
    requires forall j :: 0 < j < |g| ==> g[j].date == Next(g[j - 1].date)
    ensures IsValid(g[i].date) && IsValid(g[0].date)
    ensures DayNumber(g[i].date) == DayNumber(g[0].date) + i
    decreases i
  {
    if i > 0 {
      ContiguousDayNumbers(g, i - 1);
      NextDayNumber(g[i - 1].date);
    }
  }

  /**
    The current-month cells form one block between the two filler runs, and a
    cell is marked as current exactly when its date lies in the requested month;
    only cells after that block are marked as next-month.
   */
  lemma GridCurrentMonthBlock(year: int, month: int, today: Date)
    requires 1 <= month <= 12
    ensures var g := CurrentMonthDays(year, month, today);
            var k := Weekday(Date(year, month, 1));
            var n := DaysInMonth(year, month);
            && (forall i :: 0 <= i < |g| ==> (g[i].isCurrentMonth <==> k <= i < k + n))
            && (forall i :: 0 <= i < |g| ==> (g[i].isNextMonth <==> k + n <= i))
            && (forall i :: 0 <= i < |g| ==>
                  (g[i].isCurrentMonth <==> g[i].date.year == year && g[i].date.month == month))
  {
  }

  /**
    Only a current-month cell whose date is `today` is marked as today, so at
    most one cell is; a filler cell is never marked, even when its date is today.
    When today lies in the requested month, its cell is marked.
   */
  lemma GridToday(year: int, month: int, today: Date)
    requires 1 <= month <= 12
    ensures var g := CurrentMonthDays(year, month, today);
            && (forall i :: 0 <= i < |g| ==> (g[i].isToday <==> g[i].isCurrentMonth && g[i].date == today))
            && (forall i, j :: 0 <= i < |g| && 0 <= j < |g| && g[i].isToday && g[j].isToday ==> i == j)
            && (IsValid(today) && today.year == year && today.month == month ==>
                  g[Weekday(Date(year, month, 1)) + today.day - 1].isToday)
  {
  }

  // ---------------------------------------------------------------------------
  // Indicator colour of a pain record
  // ---------------------------------------------------------------------------

  /** The answer to "did you have a headache"; answers other than yes and no are kept by name. */
  datatype HeadacheVariant = Yes | No | Other(name: string)

  /** A pain record, reduced to the one field the colour depends on. */
  datatype PainRecord = PainRecord(headache: HeadacheVariant)

  datatype IndicatorColor = Red | Green | Gray

  /** Red for a headache, green for none, gray for any other answer. */
  function GetIndicatorColor(record: PainRecord): (color: IndicatorColor)
    ensures color == Red <==> record.headache == Yes
    ensures color == Green <==> record.headache == No
    ensures color == Gray <==> record.headache.Other?
  {
    match record.headache
    case Yes => Red
    case No => Green
    case _ => Gray
  }

  // ---------------------------------------------------------------------------
  // Worked months
  // ---------------------------------------------------------------------------

  /** February 2024 starts on a Thursday and ends on Thursday the 29th: 3 + 29 + 3 cells. */
  lemma February2024(today: Date)
    ensures var current := DaysForCurrentMonth(2024, 2, today);
            && |DaysForPreviousMonth(2024, 2, current)| == 3
            && |current| == 29
            && |DaysForNextMonth(2024, 2, current)| == 3
            && |CurrentMonthDays(2024, 2, today)| == 35
  {
    assert Weekday(Date(2024, 2, 1)) == 3 by {
      assert DayNumber(Date(2024, 2, 1)) == 739222;
    }
    assert Weekday(Date(2024, 2, 29)) == 3 by {
      assert DayNumber(Date(2024, 2, 29)) == 739250;
    }
  }

  /** November 2021 starts on a Monday and ends on Tuesday the 30th: 0 + 30 + 5 cells. */
  lemma November2021(today: Date)
    ensures var current := DaysForCurrentMonth(2021, 11, today);
            && |DaysForPreviousMonth(2021, 11, current)| == 0
            && |current| == 30
            && |DaysForNextMonth(2021, 11, current)| == 5
            && |CurrentMonthDays(2021, 11, today)| == 35
  {
    assert Weekday(Date(2021, 11, 1)) == 0 by {
      assert DayNumber(Date(2021, 11, 1)) == 738400;
    }
    assert Weekday(Date(2021, 11, 30)) == 1 by {
      assert DayNumber(Date(2021, 11, 30)) == 738429;
    }
  }

  /** February 2021 runs from Monday the 1st to Sunday the 28th: the grid is exactly four weeks. */
  lemma February2021(today: Date)
    ensures |CurrentMonthDays(2021, 2, today)| == 28
  {
    assert Weekday(Date(2021, 2, 1)) == 0 by {
      assert DayNumber(Date(2021, 2, 1)) == 738127;
    }
    assert Weekday(Date(2021, 2, 28)) == 6 by {
      assert DayNumber(Date(2021, 2, 28)) == 738154;
    }
  }
}
