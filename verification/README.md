# Monday-first month grid of the migraine calendar

This project models the calendar utilities of a headache-diary front end
(`src/utils/calendarUtils.ts`) and proves properties of the model. The utilities
build the cells of one month view. The week starts on Monday. The cells are:

- filler days from the previous month, back to the Monday of the first week;
- every day of the requested month;
- filler days from the next month, up to the following Sunday.

Each cell (`CalendarDay`) carries its date, its day of month, and three flags:
`isCurrentMonth`, `isToday` and `isNextMonth`. A small helper also maps a pain
record's headache answer to an indicator colour.

`calendarUtils.ts` does its date arithmetic with the dayjs library under the `ru`
locale, whose weeks start on Monday. The model replaces it with its own
proleptic Gregorian calendar (module `Gregorian`):

- a `Date(year, month, day)` datatype;
- the leap-year rule and the month lengths;
- a day count from 1 March of year 0 (`DayNumber`);
- a weekday with Monday = 0 and Sunday = 6;
- successor and predecessor dates.

"Today" is a parameter of the grid builder instead of a read of the clock.

Files:

- `gregorian.dfy` — module `Gregorian`: calendar arithmetic, and the lemmas
  that link the month table to the day count (successor adds one day, month and
  year lengths, weekday shifts, calendar order).
- `calendar_utils.dfy` — module `CalendarUtils`: `CalendarDay`, the three
  builders, the whole grid, its properties, worked months, and the indicator colour.
- `date_format.dfy` — module `DateFormat`: zero-padded `YYYY-MM-DD` and
  `DD.MM.YYYY` renderings of a date, and an ISO parser with round-trip lemmas.

## Grid sizes

- February 2024 starts on a Thursday and its 29th is a Thursday, so the grid
  has 3 leading, 29 current and 3 trailing cells: 35 in all
  (`CalendarUtils.February2024`).
- The grid covers only the weeks the month touches, so it has 28, 35 or 42
  cells (`CalendarUtils.GridLength`). February 2021 runs Monday to Sunday and
  gives 28 (`CalendarUtils.February2021`).

## Model

| member | source | states |
|---|---|---|
| Gregorian.DaysInMonth | src/utils/calendarUtils.ts:44-46 | a month has 28 to 31 days; February has 29 exactly when the year is a Gregorian leap year; other months have at least 30 |
| Gregorian.MonthLength | src/utils/calendarUtils.ts:44-46 | the month length equals the distance in days from the month's first day to the first day of the next month, December rolling into January |
| Gregorian.YearLength | src/utils/calendarUtils.ts:44-46 | a calendar year is 366 days long exactly when it is a leap year, otherwise 365 |
| Gregorian.Weekday | src/utils/calendarUtils.ts:141-143 | the weekday is a number from 0 (Monday) to 6 (Sunday) |
| Gregorian.KnownWeekdays | src/utils/calendarUtils.ts:141-143 | the numbering is Monday-first: 1 Jan 1970 is 3 (Thursday), 1 Jan 2000 is 5 (Saturday), 1 Nov 2021 is 0 (Monday), 1 Feb 2024 is 3 (Thursday) |
| Gregorian.NextWeekday | src/utils/calendarUtils.ts:141-143 | the day after any valid date falls on the next weekday, Sunday wrapping to Monday |
| Gregorian.Next | src/utils/calendarUtils.ts:103-107 | the day after a valid date is valid, and it is the 1st of a month exactly when the date is its month's last day |
| Gregorian.Prev | src/utils/calendarUtils.ts:77-79 | the day before a valid date is valid, and it is its month's last day exactly when the date is the 1st |
| Gregorian.NextPrev | src/utils/calendarUtils.ts:77-79 | on valid dates, stepping one day back and one day forward, in either order, returns the same date |
| Gregorian.PrevDayNumber | src/utils/calendarUtils.ts:77-79 | the day before a valid date is exactly one day earlier on the day count |
| Gregorian.NextDayNumber | src/utils/calendarUtils.ts:141-143 | the successor of a valid date is exactly one day later on the day count the weekday is read from, across month and year ends and leap days |
| Gregorian.SubtractDaysWeekday | src/utils/calendarUtils.ts:72-79 | going back n days moves the weekday back n places, modulo 7 |
| Gregorian.AddDaysWeekday | src/utils/calendarUtils.ts:103-107 | going forward n days moves the weekday on n places, modulo 7 |
| Gregorian.ReachesSunday | src/utils/calendarUtils.ts:103-107 | counting 6 - weekday(d) days on from d lands on a Sunday |
| Gregorian.PreviousMonth | src/utils/calendarUtils.ts:73 | one month back is a valid month whose index is one less; January steps back into December of the previous year |
| Gregorian.NextMonth | src/utils/calendarUtils.ts:106 | one month forward is a valid month whose index is one more; December rolls over into January of the next year |
| Gregorian.SubtractDaysFromFirst | src/utils/calendarUtils.ts:77-79 | going back k days from the 1st, for k up to the previous month's length, lands on day (length - k + 1) of the previous month |
| Gregorian.DayNumberOrder | src/utils/calendarUtils.ts:32-34 | for valid dates, a smaller day count means an earlier calendar date and an equal count means the same date |
| CalendarUtils.IsTodaySameDay | src/utils/calendarUtils.ts:32-34 | for valid dates, a date is today exactly when it falls on the same calendar day, i.e. has the same day count |
| CalendarUtils.DaysForCurrentMonth | src/utils/calendarUtils.ts:48-65 | one cell per day of the month; cell i is the valid date (year, month, i+1) with day of month i+1, is marked current, never next-month, and is marked today exactly when its date is today |
| CalendarUtils.DaysForPreviousMonth | src/utils/calendarUtils.ts:67-96 | as many cells as the weekday of the first current cell; each is dated in the previous month by its own day of month, with consecutive day numbers and no current, today or next-month mark |
| CalendarUtils.PreviousMonthFiller | src/utils/calendarUtils.ts:72-90 | for the real month there are 0 to 6 leading cells; they are the valid dates just before the 1st, in order, each numbered by its own day, and the last is the previous month's last day |
| CalendarUtils.DaysForNextMonth | src/utils/calendarUtils.ts:98-123 | 6 - weekday(last day) cells, numbered 1..n in the next month (December rolling into January), valid, not current, not today, marked next-month |
| CalendarUtils.NextMonthFiller | src/utils/calendarUtils.ts:103-116 | for the real month there are 0 to 6 trailing cells; the first is the day after the month's last day and each next one is one day later |
| CalendarUtils.CurrentMonthDays | src/utils/calendarUtils.ts:125-135 | the grid has weekday(1st) + month length + (6 - weekday(last day)) cells: the leading, current and trailing counts together |
| CalendarUtils.MonthWeeks | src/utils/calendarUtils.ts:125-135 | for every month, weekday(1st) + month length + (6 - weekday(last day)) is a multiple of 7 between 28 and 42 |
| CalendarUtils.GridLayout | src/utils/calendarUtils.ts:125-135 | the first weekday(1st) cells are the leading filler, the next month-length cells are exactly the current-month cells, and the rest are the trailing filler |
| CalendarUtils.GridLength | src/utils/calendarUtils.ts:125-135 | the grid length is a multiple of 7 between 28 and 42 |
| CalendarUtils.GridStartsOnMonday | src/utils/calendarUtils.ts:72-79 | the grid's first date is a Monday |
| CalendarUtils.GridEndsOnSunday | src/utils/calendarUtils.ts:103-107 | the grid's last date is a Sunday |
| CalendarUtils.GridContiguous | src/utils/calendarUtils.ts:125-135 | every cell holds a valid date that matches its day of month, and each cell's date is the successor of the previous cell's date |
| CalendarUtils.GridChronological | src/utils/calendarUtils.ts:125-135 | the day count rises by one per cell, so dates are in strictly increasing calendar order and none repeats |
| CalendarUtils.GridCurrentMonthBlock | src/utils/calendarUtils.ts:125-135 | a cell is current exactly when it lies in the block after the leading filler and exactly when its date is in the requested month; a cell is next-month exactly when it lies after that block |
| CalendarUtils.GridToday | src/utils/calendarUtils.ts:32-34 | a cell is marked today exactly when it is a current-month cell dated today, so at most one cell is and filler cells never are; today's cell is marked when today lies in the month |
| CalendarUtils.February2024 | src/utils/calendarUtils.ts:125-135 | February 2024 gives 3 leading, 29 current and 3 trailing cells, 35 in all |
| CalendarUtils.November2021 | src/utils/calendarUtils.ts:125-135 | November 2021 gives 0 leading, 30 current and 5 trailing cells, 35 in all |
| CalendarUtils.February2021 | src/utils/calendarUtils.ts:125-135 | February 2021 gives a 28-cell grid |
| CalendarUtils.GetIndicatorColor | src/utils/calendarUtils.ts:145-156 | the colour is red exactly for a "yes" answer, green exactly for "no", and gray exactly for every other answer |
| DateFormat.FormatIso | src/utils/calendarUtils.ts:57 | the YYYY-MM-DD form is 10 characters: four digits, a dash, two digits, a dash, two digits |
| DateFormat.ParseFormatIso | src/utils/calendarUtils.ts:57 | parsing the zero-padded YYYY-MM-DD form of a valid date with a four-digit year gives that date back |
| DateFormat.FormatParseIso | src/utils/calendarUtils.ts:57 | every string the ISO parser accepts is exactly the formatted form of the date it reads |
| DateFormat.FormatDisplay | src/utils/calendarUtils.ts:137-139 | the DD.MM.YYYY form holds the day, month and year fields of the ISO form, in reverse order and separated by dots |
| DateFormat.DisplayExample | src/utils/calendarUtils.ts:137-139 | 1 February 2024 is shown as 01.02.2024 |

## Left out

- dayjs parsing and formatting of date strings (lines 45, 54, 57, 73, 77-79, 85-89, 104-106, 113-115, 138, 142): dates are `(year, month, day)` values. `DateFormat` gives a zero-padded ISO rendering and parser in their place. The cells store the `Date` value, not its string.
- dayjs plugin and locale setup (lines 1-12): replaced by the fixed Monday-first `Gregorian.Weekday`.
- Russian weekday names (lines 14-24) and `getMonthName` (lines 26-30): static presentation data and locale formatting.
- `getCurrentYear`, `getCurrentMonth` and the clock read in `isToday` (lines 32-42): the current date is the `today` parameter. `CalendarUtils.IsToday` is plain date equality. dayjs compares local calendar days; time zones are not modelled.
- The clock is read once per cell: `createDaysForCurrentMonth` calls `isToday` for every day (line 60), and each call reads `dayjs()` afresh (line 33). A grid built across midnight can therefore mark two cells as today. The model reads `today` once per grid, so `CalendarUtils.GridToday`'s "at most one cell is marked" holds for the model, not for a run that crosses midnight.
- `formatDate` (lines 137-139) accepts any string dayjs can parse. The model renders `DD.MM.YYYY` from a `Date` only.
- Months outside 1..12: every builder requires `1 <= month <= 12`. The source's behaviour there depends on dayjs overflow rules.
- Years: the model uses the proleptic Gregorian calendar for every year. For years outside 1000..9999, dayjs passes the date string to the JavaScript engine's own date parser, whose behaviour differs between engines; the model does not follow it.
- Absent flags: the source leaves `isToday` out of filler cells and `isNextMonth` out of all but trailing cells. The model stores `false` in both cases. In JavaScript an absent flag reads as `undefined`, which is falsy like `false`.
- CalendarUtils.DaysForPreviousMonth: stated for any `current` whose first cell holds a valid date. The properties of the real leading filler (valid dates, ending on the previous month's last day) are stated separately, in `CalendarUtils.PreviousMonthFiller`, for `current` built from the same month.
- `HeadacheVariants` (src/components/CreateForm/types/radioOptions.ts) is not part of this model. Its values other than yes and no are represented as `Other(name)`. `PainRecord` (src/types/types.ts) is reduced to its `headache` field.
- src/components/CreateForm/CustomRadio/CustomRadio.tsx and src/main.tsx: UI styling and application bootstrap with no logic.
