# Month calendar and date formatter: a Dafny model

This project models the logic of a small React calendar application. A route
`/<year>/<month>` shows one month. The calendar component
(`src/components/Calendar/Calendar.js`) does four things:

- it rejects a route unless the month is 1..12 and the year is at least 1;
- it lists the days of the month by stepping a JavaScript `Date` forward
  from the 1st until the month changes;
- it puts one empty cell before day 1 for each weekday before it (Sunday = 0,
  from `getDay()`), then one cell per day;
- it computes the targets of the "previous" and "next" buttons, rolling
  the year over at January and December.

The date formatter (`src/utils/formatDate.js`) writes a date as
"<Month> <day><suffix> <year>", for example "January 15th 2019". It uses
`getOrdinalSuffix` to pick "st", "nd", "rd" or "th".

Modules:

- `DateMath` (`datemath.dfy`) holds the proleptic Gregorian calendar that a
  JavaScript `Date` implements. It covers the leap-year rule and month
  lengths. Weekdays use Sakamoto's closed form. `NextDate` is the day after
  a date, as `setDate(getDate() + 1)` normalises it. A reference day count
  from 1 January of year 1 (a Monday) is proved to agree with the closed form.
- `Navigation` (`navigation.dfy`) holds the route check and the
  previous/next targets. It also has a month index `12 * year + month - 1`
  that the two targets step by minus one and plus one.
- `Calendar` (`calendar.dfy`) holds the day list (as a loop, as the source
  writes it), the leading padding, the flat grid of cells and the rendered view.
- `Ordinal` (`ordinal.dfy`) holds `getOrdinalSuffix`, with JavaScript's
  truncating `%`.
- `DateFormat` (`dateformat.dfy`) holds the display string, built from a
  date that is already split into year, month and day. A reader for that
  string is proved to recover the date.

Years and months are unbounded integers. Route strings are taken as already
converted to integers.

## Model

| member | source | states |
|---|---|---|
| Navigation.Previous | src/components/Calendar/Calendar.js:40-44 | for a month in 1..12 the target month is in 1..12 and is exactly one month earlier on the continuous month count |
| Navigation.Next | src/components/Calendar/Calendar.js:46-50 | for a month in 1..12 the target month is in 1..12 and is exactly one month later on the continuous month count |
| Navigation.NextIsTheFollowingMonth | src/components/Calendar/Calendar.js:46-50 | among months in 1..12, `Next` is the one and only month directly after the given one |
| Navigation.PreviousIsThePrecedingMonth | src/components/Calendar/Calendar.js:40-44 | among months in 1..12, `Previous` is the one and only month directly before the given one |
| Navigation.Rollover | src/components/Calendar/Calendar.js:40-50 | December goes to January of the next year and January to December of the previous year; other months keep the year and move by one |
| Navigation.NavigationRoundTrip | src/components/Calendar/Calendar.js:40-50 | for months in 1..12, previous after next and next after previous both return the starting (year, month) |
| Navigation.NavigationStaysValid | src/components/Calendar/Calendar.js:15-17 | from an accepted route "next" always reaches an accepted route; "previous" does so in every case except January of year 1 |
| Calendar.Render | src/components/Calendar/Calendar.js:15-21 | the view is the invalid-date message exactly when the month is outside 1..12 or the year is below 1; otherwise it shows that month with the padded day layout and arrow targets one month either side |
| Calendar.GenerateCalendarDays | src/components/Calendar/Calendar.js:24-32 | stepping day by day from the 1st while the month is unchanged yields exactly the month's dates 1..n in order, in the year `new Date` maps the route year to (1900 + y for 0..99) |
| Calendar.MonthDaysListsTheMonth | src/components/Calendar/Calendar.js:24-32 | a date is in the list exactly when it is a valid date of that month and year; days are strictly ascending, so each appears once |
| Calendar.GridLayout | src/components/Calendar/Calendar.js:64-75 | the grid has as many empty cells as the weekday number of the 1st, and then days 1..n; day d is at index padding + d - 1 |
| Calendar.GridColumns | src/components/Calendar/Calendar.js:64-75 | every day cell shows a day of the month, and its column (index mod 7) is that day's weekday |
| Calendar.LeadingPadding | src/components/Calendar/Calendar.js:65-68 | between 0 and 6 empty cells precede day 1, and the grid opens with day 1 exactly when the month starts on a Sunday |
| Calendar.FirstDayOfMonth | src/components/Calendar/Calendar.js:38 | the padding count is a weekday number in 0..6 |
| Calendar.TwoDigitYearMonthLength | src/components/Calendar/Calendar.js:25-30 | for years 1..99 every month has as many days in the mapped 19xx year as in the route year, so the listed days are the right ones |
| Calendar.GridAsWrittenDaysAreRight | src/components/Calendar/Calendar.js:25-38 | for years 1..99 the grid as written has days 1..n of the route month in order after its padding, so only the padding can be wrong |
| Calendar.GridAsWrittenAgreesFromYear100 | src/components/Calendar/Calendar.js:25-38 | from year 100 on the grid built through the `Date` constructor is the grid of the route's own year |
| Calendar.TwoDigitYearGridMisplaced | src/components/Calendar/Calendar.js:25-38 | the accepted route /50/1 is laid out with no padding (1 January 1950 was a Sunday), while 1 January of year 50 was a Saturday |
| Calendar.January2019 | src/components/Calendar/Calendar.js:35-38 | January 2019 starts on a Tuesday, so its grid has two empty cells and then 31 days |
| DateMath.DaysInMonth | src/components/Calendar/Calendar.js:25-30 | a month has 28..31 days: 30 for April, June, September and November; February 29 in a leap year and 28 otherwise; 31 for the rest |
| DateMath.LeapYearExamples | src/components/Calendar/Calendar.js:25-30 | 2024 and 2000 are leap years, 2023 and 1900 are not, and February has 29 or 28 days accordingly |
| DateMath.NextDate | src/components/Calendar/Calendar.js:29 | the next day of a valid date is valid; it stays in the month with the day plus one, or moves to day 1 only from the month's last day |
| DateMath.NextDateAdvancesDayNumber | src/components/Calendar/Calendar.js:29 | the next day is exactly one day later on the day count from 1 January of year 1, across month and year ends |
| DateMath.DayOfWeek | src/components/Calendar/Calendar.js:38 | the weekday is a number in 0..6 |
| DateMath.DayOfWeekWithinMonth | src/components/Calendar/Calendar.js:38 | within a month the weekday of day d is the weekday of the 1st plus d - 1, modulo 7 |
| DateMath.CountStep | src/components/Calendar/Calendar.js:38 | Sakamoto's count for the first of the next month is this month's plus its length, up to whole weeks |
| DateMath.MonthStep | src/components/Calendar/Calendar.js:38 | the first of the next month falls on the weekday of this month's first plus the month's length, modulo 7, including December to January |
| DateMath.CountAdvance | src/components/Calendar/Calendar.js:38 | moving on one month, including December to January, keeps Sakamoto's count and the day count from 1 January of year 1 equal up to whole weeks |
| DateMath.CountMatchesDaysBefore | src/components/Calendar/Calendar.js:38 | for every first of month from year 1 on, Sakamoto's count is one more than the day count from 1 January of year 1, up to whole weeks |
| DateMath.FirstOfMonthWeekday | src/components/Calendar/Calendar.js:38 | the weekday of every first of month from year 1 on is one plus its day count from 1 January of year 1, modulo 7 |
| DateMath.DayOfWeekMatchesDayNumber | src/components/Calendar/Calendar.js:38 | the weekday of every valid date from year 1 on agrees with counting days from a Monday |
| DateMath.NextDateWeekday | src/components/Calendar/Calendar.js:29-38 | consecutive days have consecutive weekdays, across month and year ends |
| DateMath.KnownWeekdays | src/components/Calendar/Calendar.js:38 | 1 January of year 1 was a Monday, 1 January 1970 a Thursday, 1 January 2019 a Tuesday, and 29 February 2000 a Tuesday |
| Ordinal.JsRemainder10 | src/utils/formatDate.js:3 | the remainder by 10 has the sign of the dividend and differs from it by a multiple of 10 |
| Ordinal.OrdinalSuffix | src/utils/formatDate.js:1-9 | the suffix is always one of "st", "nd", "rd", "th", and it is "th" for every day from 4 to 20 |
| Ordinal.OrdinalSuffixIsEnglish | src/utils/formatDate.js:1-9 | for 0..110 the suffix is the usual English one: "th" after 11, 12 and 13, otherwise decided by the last digit |
| Ordinal.OrdinalSuffixOfDays | src/utils/formatDate.js:2-7 | for days 1..31: "st" exactly for 1, 21, 31; "nd" exactly for 2, 22; "rd" exactly for 3, 23; "th" exactly for 4..20 and 24..30 |
| Ordinal.OrdinalSuffixBeyondDays | src/utils/formatDate.js:2-4 | at 111 the rule gives "st" where English has "th" |
| Ordinal.NonPositiveTakesTh | src/utils/formatDate.js:3-7 | zero and every negative number get "th", because JavaScript's remainder of a negative number is never 1, 2 or 3 |
| DateFormat.ParseIntOfIntToString | src/utils/formatDate.js:21-23 | every year's printed numeral reads back as that year, negative years included |
| DateFormat.NatToString | src/utils/formatDate.js:18-23 | the day and year numerals have at least one digit, all decimal, and no leading zero except the numeral of 0 itself |
| DateFormat.DigitsValueOfNatToString | src/utils/formatDate.js:14-18 | the printed numeral of a day reads back as that day |
| DateFormat.ParseDayAndYearRoundTrip | src/utils/formatDate.js:14-23 | the text after the month name reads back as the printed day and year, and its suffix is the suffix of that day |
| DateFormat.FormatDateRoundTrip | src/utils/formatDate.js:11-24 | reading the formatted text gives back the date it was formatted from |
| DateFormat.FormatDateInjective | src/utils/formatDate.js:11-24 | two valid dates are displayed as the same text exactly when they are the same date |
| DateFormat.MonthNameRoundTrip | src/utils/formatDate.js:18 | each long month name contains no space and names its own month |

## Findings

| source | as written | input that shows it | evidently intended | confidence | as-written member | corrected member |
|---|---|---|---|---|---|---|
| src/components/Calendar/Calendar.js:16-38 | the route check accepts every year from 1, but the grid is built with `new Date(year, month - 1, 1)`, which reads years 0..99 as 1900..1999 | route /50/1: no empty cells (1 January 1950 was a Sunday), though 1 January of year 50 was a Saturday and needs six | the grid of the year in the route, whose header shows it | not executed; the year mapping is documented `Date` behaviour | Calendar.GridAsWritten, Calendar.TwoDigitYearGridMisplaced | Calendar.Grid, Calendar.GridLayout, Calendar.FirstDayOfMonth, Calendar.Render |

The accepted two-digit years 1..99 have the same leap status as their 19xx
counterparts (`Calendar.TwoDigitYearMonthLength`; year 0 would not, but the
route check rejects it). So only the padding is wrong, not the days
(`Calendar.GridAsWrittenDaysAreRight`). `Calendar.Render` and
`Calendar.FirstDayOfMonth` use the route's own year and so give the corrected
grid. `Calendar.GenerateCalendarDays` lists the dates as written, in the
mapped year, which is the day list `Calendar.GridAsWritten` lays out. From year 100 on the two grids are equal
(`Calendar.GridAsWrittenAgreesFromYear100`).

## Left out

- Calendar.GenerateCalendarDays: dates are zone-free civil dates, while the component's `Date` objects use the local time zone. In a zone that skipped a whole day (Pacific/Apia lost 30 December 2011) `setDate(getDate() + 1)` jumps over it, so the source lists one day fewer and shifts the later cells one column. The model lists every date, so `DateMath.NextDate` and `Calendar.GridColumns` do not describe such a month in such a zone.
- Calendar.Render: for years 1..99 it shows the corrected layout of the route year, not the 19xx layout the component shows. `Calendar.GridAsWritten` models the latter (see Findings).
- Rendering: JSX markup, CSS classes, the weekday header row, and the seven-column wrapping done by the stylesheet. The grid is modelled as the flat list of cells that the markup emits.
- Header title: `monthNames` comes from a strings module, and that module is not part of this model. The view carries the (year, month) pair instead of the title text.
- Routing: reading the route parameters, the `navigate` calls, and the redirect of `/` and unknown paths to the current month. That redirect reads the wall clock. Only the (year, month) targets are modelled.
- String-to-number coercion: the check compares the raw route strings, and `parseInt` truncates inputs such as "1.5". Year and month are modelled as integers that are already converted.
- `Date` range limits: a JavaScript `Date` is invalid beyond about year 275760. Years here are unbounded.
- `formatDate`'s parsing of the timestamp string, time zones, `Intl.DateTimeFormat`, and the `RangeError` it throws on an unparsable string. The formatter takes an already split, valid date and uses a fixed table of English month names.
- `DateFormat.FormatDate`: the assembly itself carries no contract. What it promises is stated by `DateFormat.FormatDateRoundTrip` and `DateFormat.FormatDateInjective`.
- Event fetching (`src/utils/apiConfig.js`, `src/utils/api-config.js`) is network I/O with a fallback. The image lookup (`src/utils/imageLoader.js`) depends on a bundler API that is not visible here. The `Event`, `ExpandedEventDetails` and `Header` components only pass props through.
- Placing events on days, choosing an expanded event, inserting detail rows, trailing padding and chunking into weeks: the calendar component shown does none of these.
