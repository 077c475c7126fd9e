# random_stocks: dollar-cost averaging, regular versus "secretary"

This project models the core of `main.py` from the random_stocks repository. That core compares two ways of putting a fixed monthly contribution into an index fund, replayed over a series of daily closes:

- **Regular strategy** (`invest_at_first`): walks the closes once. The simulated wealth ("cumulative") follows each day's ratio of close to previous close. The contribution is added on every day that is the last business day of its month.
- **Secretary strategy** (`invest_at_secretary`): walks the closes once with the same compounding. Within a window it skips the days up to the 11th of the month, then invests on the first day whose close is strictly below every close held in the window. If no such day comes, it invests on the month's last business day. A month-end row resets the window of closes and the "already invested" flag.
- **`next_business_day`**: the walk to the next day that is neither a Saturday or Sunday nor a holiday. Both strategies use it to test "last business day of the month": the next business day falls in a month with a different number.

The model has four modules:

- `Calendar` (`calendar.dfy`): proleptic-Gregorian dates, with the weekday computed from the ordinal day number (1 January of year 1 is day 1 and a Monday). It also holds `FirstBusinessDayFrom`, the recursive specification of the walk, and the `NextBusinessDay` loop proved against it. Holidays are a parameter `set<Date>`.
- `Simulation` (`simulation.dfy`): the shared row and decision records. It also holds the compounding rule `Compounded`, stated without division as `(cumulative - added) * previous close == cumulative before * close`, and the `Compound` step both strategies use.
- `FirstOfMonth` (`first_of_month.dfy`): the regular strategy as a loop, proved to invest exactly on month ends.
- `Secretary` (`secretary.dfy`): the secretary strategy as a loop.
  - Its local state (`months_closes`, `did_invest`) is tied by loop invariants to the functions `MonthsCloses` and `InvestedSinceReset`. These are defined from `ResetPoint`, the last month-end row before a row.
  - The strategy's decisions are characterised by `SecretaryDecides`.

Both strategies return `Err(NoFirstClose)` on an empty series, where the Python code fails looking up the first close. Otherwise they return one decision record per row plus the final wealth.

Where the code and its own docstrings and comments suggest different behaviour, the model follows the code:

- **One investment per month.** The docstrings (main.py:107-109 and main.py:155-157) suggest one investment per calendar month. The code resets only on a row whose date is the last business day of its month. So the proved guarantees are these:
  - at most one investment between two resets (`AtMostOneInvestmentBetweenResets`);
  - exactly one in every window that ends on a month-end row (`ClosedWindowInvestsOnce`).

  If the series lacks a month's last business day, no reset happens and the window runs on into the next month.
- **What the window holds.** The comment at main.py:138 speaks of resetting the month. In the code, the reset is followed by appending that row's close. The window after a month end therefore starts with the previous month's last close (`MonthsClosesStep`). The first window starts with the first close, which the first row then adds a second time.

## Model

| member | source | states |
|---|---|---|
| Calendar.Succ | main.py:19-21 | adding one day (`+ ONE_DAY`): the next day of the month, or the first of the next month, or 1 January of the next year |
| Calendar.Weekday | main.py:20 | `date.weekday()`: (ordinal + 6) % 7 over the Gregorian ordinal, so Monday = 0 and Saturday, Sunday = 5, 6 |
| Calendar.IsBusinessDay | main.py:20 | the loop's exit test: the weekday is not Saturday or Sunday and the date is not a holiday |
| Calendar.FirstBusinessDayFrom | main.py:18-22 | the walk as a recursive definition: the start date if it is a business day, otherwise the walk from the next day |
| Calendar.IsMonthEnd | main.py:88 | `d.month != next_business_day(d).month`, the month-end test also used at main.py:129 and main.py:139 |
| Calendar.DaysInMonth | main.py:19 | a month has 28 to 31 days, and 29 exactly in February of a leap year (what adding one day rolls over on) |
| Calendar.SuccOrdinal | main.py:19 | adding one day with `Succ` advances the ordinal day number by exactly one, across month and year ends |
| Calendar.WeekdaySucc | main.py:20-21 | the weekday of the next day is the weekday plus one, modulo 7 |
| Calendar.DaysBeforeNextYear | main.py:19 | a year adds 366 days when leap and 365 otherwise, so the ordinal count is consistent across 31 December |
| Calendar.SearchProgress | main.py:20-21 | each step past a non-business day passes a holiday or moves closer to Monday, so the walk terminates |
| Calendar.NextBusinessDay | main.py:18-22 | the loop returns a date after the given one that is a business day, with no business day in between, and equal to `FirstBusinessDayFrom` of the next day |
| Calendar.FirstBusinessDayFromIsEarliest | main.py:19-22 | the search result is on or after its start, is a business day, and no earlier day from the start is one |
| Calendar.FirstBusinessDayFromIsUnique | main.py:19-22 | any date with those three properties is the search result |
| Calendar.SearchSkips | main.py:20-21 | a weekend day or holiday is passed over: the search from it equals the search from the next day |
| Calendar.SearchStops | main.py:20-22 | the search from a business day returns that day |
| Calendar.WeekendSkipped | main.py:20-21 | from a Saturday the search reaches the following Monday when that Monday is no holiday |
| Calendar.FridayToMonday | main.py:18-22 | the next business day after a Friday is the following Monday when that Monday is no holiday |
| Calendar.HolidaySkipped | main.py:18-22 | when the next day is a holiday and the day after is a business day, the next business day is the day after the holiday |
| Calendar.CheckMonthEnd | main.py:88 | the month-end test, computed through `NextBusinessDay`, agrees with `IsMonthEnd` |
| Calendar.MonthEndIsLastBusinessDay | main.py:88 | a day passing the month-end test has no business day after it in its own month |
| Calendar.LastBusinessDayIsMonthEnd | main.py:88 | conversely, a day with no later business day in its month passes the test, provided the next business day lies in the same year or in an earlier month of the next year (the test compares month numbers only) |
| Simulation.MonthEnds | main.py:88 | one month-end flag per row |
| Simulation.MonthEndsMeaning | main.py:88 | flag i holds exactly when row i's date is the last business day of its month |
| Simulation.ResetPoint | main.py:138-141 | the index lies between -1 and the row before, is a month-end row when not -1, and no month-end row lies after it before the given row |
| Simulation.CompoundsAt | main.py:85-89 | record i carries row i's date, and its wealth less the contribution it added equals the wealth before it times close / previous close, stated multiplied out |
| Simulation.Compounded | main.py:85-89 | every record of a prefix of the rows compounds, one record per row in order |
| Simulation.GrowthByRatio | main.py:85-89 | each record's wealth is the wealth before it times the ratio of its close to the previous close, plus the contribution when it invests |
| Simulation.CompoundedAppend | main.py:85-98 | appending a record whose wealth follows the ratio rule keeps every record following it |
| Simulation.Compound | main.py:85-98 | one row's update keeps the invariant: the previous close becomes this row's close, the kept wealth is the new record's, and all records compound |
| Simulation.FirstRowRatioIsOne | main.py:76-89 | on the first row the ratio is one, so the wealth is the initial investment plus the contribution if it invests |
| Simulation.CumulativeStaysPositive | main.py:85-89 | with positive closes, a positive initial investment and a non-negative contribution, the wealth after every row is positive |
| Simulation.FlatPricesAddContributions | main.py:85-89 | when the close never changes, the wealth after row k is the initial investment plus one contribution per investing row so far |
| FirstOfMonth.InvestsAtMonthEndsAppend | main.py:88-95 | appending a record that invests exactly at a month end keeps "invests exactly at month ends" |
| FirstOfMonth.RegularInvestsOncePerWindow | main.py:88-89 | between two month ends the regular strategy invests exactly once, on the closing month-end row |
| FirstOfMonth.InvestAtFirst | main.py:67-103 | an error exactly for an empty series; otherwise one record per row that compounds, invests exactly on month ends, a final wealth equal to the last record's, and a positive final wealth for positive inputs |
| Secretary.InvestedSinceReset | main.py:118-141 | `did_invest` at row i: some row after the last month-end row and before i invested |
| Secretary.EarlyOpportunity | main.py:128 | the day of the month is past 11 and the close is strictly below the minimum of the window |
| Secretary.DecidesAt | main.py:128-131 | row i invests exactly when it is an early opportunity or a month end, and nothing was invested since the last reset |
| Secretary.SecretaryDecides | main.py:120-136 | every record follows that rule, with one month-end flag per row |
| Secretary.MonthsCloses | main.py:117-143 | the list of closes the strategy holds is never empty, so taking its minimum is always defined |
| Secretary.Min | main.py:128 | the minimum is an element of the list and no larger than any element |
| Secretary.InitialState | main.py:116-118 | at the start the window is the first close alone and nothing has been invested |
| Secretary.MonthsClosesStep | main.py:138-143 | after a month-end row the window is that row's close alone; otherwise the row's close is appended |
| Secretary.InvestedSinceResetStep | main.py:128-141 | after a month-end row the "invested" flag is false; otherwise it is the old flag or this row's investment |
| Secretary.InvestedSinceResetPrefix | main.py:118-141 | the flag for a row depends only on the decisions of earlier rows |
| Secretary.SecretaryDecidesAppend | main.py:128-136 | appending a record that follows the decision rule keeps every record following it |
| Secretary.SecretaryStateAppend | main.py:128-143 | after such a record, the window and the flag kept are those the specification functions give for the next row |
| Secretary.Decide | main.py:128-143 | one row's decision is an early opportunity or a month end, provided nothing was invested since the reset; the new window and flag are those of the next row |
| Secretary.BelowMonthsCloses | main.py:128 | a close is below the window's minimum exactly when an earlier row exists and the close is strictly below the close of every row from the reset point on |
| Secretary.FirstRowInvestsOnlyAtMonthEnd | main.py:116-129 | the first row invests exactly when it is a month end |
| Secretary.EarlyInvestmentRule | main.py:128-129 | away from a month end, a row invests exactly when all of these hold: its day is after the 11th; it is strictly below every close of the window, so a tie does not invest; nothing was invested since the reset |
| Secretary.MonthEndFallback | main.py:128-131 | a month-end row invests exactly when nothing was invested since the reset |
| Secretary.AtMostOneInvestmentBetweenResets | main.py:128-141 | between any two investments there is a month-end row |
| Secretary.ClosedWindowInvestsOnce | main.py:128-141 | the rows after one month end up to and including the next hold exactly one investment |
| Secretary.SecretaryDecidesUnique | main.py:128-141 | the rule leaves no choice: two record sequences following it over the same rows invest on the same rows |
| Secretary.FollowedByBusinessDay | main.py:88 | a day followed by a business day of its own month is not a month end |
| Secretary.FollowedByNextMonth | main.py:88 | a day followed by a business day of another month is a month end |
| Secretary.WeekdayIn2020 | main.py:20 | the weekday of a 2020 date from its place in the year, 737424 days preceding 1 January 2020 |
| Secretary.ExampleRowsHaveNoMonthEnd | main.py:88 | with no holidays, none of 2, 5, 16 and 17 March 2020 is a month end |
| Secretary.CutoffDecisions | main.py:128-129 | for closes 100, 90, 95, 80 with no month-end row: only the fourth row invests |
| Secretary.CutoffExample | main.py:128-129 | for closes 100, 90, 95, 80 on 2, 5, 16 and 17 March 2020 with no holidays: the drop on the 5th is too early, the 16th is not below the 5th, and the 17th invests |
| Secretary.MonthEndRowsFlags | main.py:18-22 | with no holidays, of 2, 16, 20 (a Friday) and 31 March 2020 only the 31st is a month end |
| Secretary.PreemptingDecisions | main.py:128-131 | for closes 100, 90, 95, 80 with only the last row a month end: only the second row invests |
| Secretary.EarlyInvestmentPreemptsMonthEnd | main.py:128-141 | for closes 100, 90, 95, 80 on 2, 16, 20 and 31 March 2020 with no holidays: the 16th invests, and the month end on the 31st, though lower, does not |
| Secretary.InvestAtSecretary | main.py:106-149 | an error exactly for an empty series; otherwise one record per row that compounds and follows the secretary rule, a final wealth equal to the last record's, and a positive final wealth for positive inputs |

## Left out

- Fetching prices from the network (`get_stock_data`, `get_sp500`), reading the CSV file, parsing dates with `strptime`, plotting, and `main`: rows arrive as a parameter, with a `Date` and a real close.
- The contents of the US holiday calendar: holidays are a parameter `set<Date>`. Only the weekend days Saturday and Sunday are fixed.
- Floating-point rounding: prices and wealth are exact reals.
- The upper limit of Python dates (year 9999, where adding a day overflows): years are unbounded.
- `invest_at_first` keeps a `months_closes` list that it never reads; it is not modelled.
- `invest_at_secretary` evaluates `next_business_day` twice per row. The model computes it once, since both calls give the same value.
- The record table exists in the source only for plotting. The model returns it as a sequence of decision records beside the final wealth.
- InvestAtFirst: requires every close used as a divisor (every close but the last) to be non-zero; the source fails with a division error there.
- InvestAtSecretary: requires every close used as a divisor (every close but the last) to be non-zero; the source fails with a division error there.
- InvestAtFirst: the final wealth is proved positive only for positive closes, a positive initial investment and a non-negative contribution; other inputs are computed but their sign is not stated.
- InvestAtSecretary: the final wealth is proved positive only for positive closes, a positive initial investment and a non-negative contribution; other inputs are computed but their sign is not stated.
