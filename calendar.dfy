/**
 * Proleptic-Gregorian calendar dates, the weekday of a date and the walk to the
 * next business day (a day that is neither a Saturday or Sunday nor in a given
 * holiday calendar), with the "last business day of the month" test built on it.
 */
module Calendar {

  /** A year-month-day triple; `Date` below restricts it to real calendar days. */
  datatype YearMonthDay = YearMonthDay(year: int, month: int, day: int)

  predicate IsLeap(year: int) {
    year % 4 == 0 && (year % 100 != 0 || year % 400 == 0)
  }

  function DaysInMonth(year: int, month: int): (n: int)
    requires 1 <= month <= 12
    ensures 28 <= n <= 31
    ensures n == 29 <==> month == 2 && IsLeap(year)
  {
    if month == 2 then (if IsLeap(year) then 29 else 28)
    else if month == 4 || month == 6 || month == 9 || month == 11 then 30
    else 31
  }

  predicate ValidDate(d: YearMonthDay) {
    1 <= d.year && 1 <= d.month <= 12 && 1 <= d.day <= DaysInMonth(d.year, d.month)
  }

  /** A calendar day from 1 January of year 1 on. */
  type Date = d: YearMonthDay | ValidDate(d) witness YearMonthDay(1, 1, 1)

  /** Chronological order: dates compare by year, then month, then day. */
  predicate Before(a: Date, b: Date) {
    a.year < b.year || (a.year == b.year && (a.month < b.month || (a.month == b.month && a.day < b.day)))
  }

  /** The day after `d` (adding one day), rolling over month and year ends. */
  function Succ(d: Date): Date {
    if d.day < DaysInMonth(d.year, d.month) then YearMonthDay(d.year, d.month, d.day + 1)
    else if d.month < 12 then YearMonthDay(d.year, d.month + 1, 1)
    else YearMonthDay(d.year + 1, 1, 1)
  }

  // Day numbers as the Gregorian ordinal: 1 January of year 1 is day 1.

  function DaysBeforeYear(year: int): int
    requires 1 <= year
  {
    var y := year - 1;
    y * 365 + y / 4 - y / 100 + y / 400
  }

  function DaysBeforeMonth(year: int, month: int): int
    requires 1 <= month <= 12
  {
    [0, 31, 59, 90, 120, 151, 181, 212, 243, 273, 304, 334][month - 1]
      + (if month > 2 && IsLeap(year) then 1 else 0)
  }

  function Ordinal(d: Date): int {
    DaysBeforeYear(d.year) + DaysBeforeMonth(d.year, d.month) + d.day
  }

  /** Day of the week, Monday = 0 ... Sunday = 6 (1 January of year 1 was a Monday). */
  function Weekday(d: Date): int {
    (Ordinal(d) + 6) % 7
  }

  const Saturday := 5
  const Sunday := 6

  predicate IsWeekend(d: Date) {
    Weekday(d) == Saturday || Weekday(d) == Sunday
  }

  predicate IsBusinessDay(d: Date, holidays: set<Date>) {
    !IsWeekend(d) && d !in holidays
  }

  /** The holidays on or after `x`: the part of the calendar a search from `x` may still meet. */
  function HolidaysFrom(x: Date, holidays: set<Date>): set<Date> {
    set h | h in holidays && !Before(h, x)
  }

  /** How many weekend days separate `x` from the following Monday. */
  function DaysToMonday(x: Date): nat {
    if Weekday(x) == Saturday then 2 else if Weekday(x) == Sunday then 1 else 0
  }

  /** The first business day on or after `x`. */
  function FirstBusinessDayFrom(x: Date, holidays: set<Date>): Date
    decreases HolidaysFrom(x, holidays), DaysToMonday(x)
  {
    if IsBusinessDay(x, holidays) then x
    else
      SearchProgress(x, holidays);
      FirstBusinessDayFrom(Succ(x), holidays)
  }

  /**
   * The last business day of its month: the next business day after `d`
   * falls in a month with a different number.
   */
  predicate IsMonthEnd(d: Date, holidays: set<Date>) {
    d.month != FirstBusinessDayFrom(Succ(d), holidays).month
  }

  /**
   * Walks forward one day at a time from the day after `date` while the day
   * is a weekend day or a holiday; returns the earliest business day after `date`.
   */
  method NextBusinessDay(date: Date, holidays: set<Date>) returns (r: Date)
    ensures Before(date, r)
    ensures IsBusinessDay(r, holidays)
    ensures forall x: Date :: Before(date, x) && Before(x, r) ==> !IsBusinessDay(x, holidays)
    ensures r == FirstBusinessDayFrom(Succ(date), holidays)
  {
    SuccIsNextDay(date);
    r := Succ(date);
    while IsWeekend(r) || r in holidays
      invariant Before(date, r)
      invariant forall x: Date :: Before(date, x) && Before(x, r) ==> !IsBusinessDay(x, holidays)
      invariant FirstBusinessDayFrom(r, holidays) == FirstBusinessDayFrom(Succ(date), holidays)
      decreases HolidaysFrom(r, holidays), DaysToMonday(r)
    {
      SearchProgress(r, holidays);
      SearchSkips(r, holidays);
      PassNonBusinessDay(date, r, holidays);
      r := Succ(r);
    }
  }

  /** Whether `d` is the last business day of its month, by looking up the next business day. */
  method CheckMonthEnd(d: Date, holidays: set<Date>) returns (monthEnd: bool)
    ensures monthEnd == IsMonthEnd(d, holidays)
  {
    var next := NextBusinessDay(d, holidays);
    monthEnd := d.month != next.month;
  }

  // ---------------------------------------------------------------------
  // Day arithmetic

  /** Counting the multiples of a fixed divisor up to `y` and up to `y - 1`. */
  lemma MultiplesStep(y: int)
    requires 1 <= y
    ensures y / 4 - (y - 1) / 4 == if y % 4 == 0 then 1 else 0
    ensures y / 100 - (y - 1) / 100 == if y % 100 == 0 then 1 else 0
    ensures y / 400 - (y - 1) / 400 == if y % 400 == 0 then 1 else 0
  {
  }

  /** A year adds 365 days, 366 in a leap year. */
  lemma DaysBeforeNextYear(year: int)
    requires 1 <= year
    ensures DaysBeforeYear(year + 1) == DaysBeforeYear(year) + if IsLeap(year) then 366 else 365
  {
    MultiplesStep(year);
    if year % 400 == 0 {
      MultipleOf400(year);
    }
    if year % 100 == 0 {
      MultipleOf100(year);
    }
  }

  /** A multiple of 100 is a multiple of 4. */
  lemma MultipleOf100(y: int)
    requires y % 100 == 0
    ensures y % 4 == 0
  {
    var q := y / 100;
    assert y == 4 * (25 * q);
  }

  /** A multiple of 400 is a multiple of 100. */
  lemma MultipleOf400(y: int)
    requires y % 400 == 0
    ensures y % 100 == 0
  {
    var q := y / 400;
    assert y == 100 * (4 * q);
  }

  /** Adding one day with `Succ` adds one to the ordinal day number. */
  lemma SuccOrdinal(d: Date)
    ensures Ordinal(Succ(d)) == Ordinal(d) + 1
  {
    if d.day == DaysInMonth(d.year, d.month) && d.month == 12 {
      DaysBeforeNextYear(d.year);
    }
  }

  /** The weekday advances by one, Sunday wrapping to Monday. */
  lemma WeekdaySucc(d: Date)
    ensures Weekday(Succ(d)) == (Weekday(d) + 1) % 7
  {
    SuccOrdinal(d);
    WeekOfDayNumbers(Ordinal(d));
  }

  lemma WeekOfDayNumbers(n: int)
    ensures (n + 1 + 6) % 7 == ((n + 6) % 7 + 1) % 7
  {
  }

  /** `Succ(d)` is the earliest date after `d`: no date lies strictly between them. */
  lemma SuccIsNextDay(d: Date)
    ensures Before(d, Succ(d))
    ensures forall x: Date :: Before(d, x) ==> !Before(x, Succ(d))
  {
  }

  lemma BeforeTotal(a: Date, b: Date)
    ensures Before(a, b) || a == b || Before(b, a)
  {
  }

  // ---------------------------------------------------------------------
  // The business-day search

  /**
   * One step of the search past a non-business day either passes a holiday
   * or moves one day closer to Monday, without meeting new holidays.
   */
  lemma SearchProgress(x: Date, holidays: set<Date>)
    requires !IsBusinessDay(x, holidays)
    ensures HolidaysFrom(Succ(x), holidays) < HolidaysFrom(x, holidays)
         || (HolidaysFrom(Succ(x), holidays) == HolidaysFrom(x, holidays) && DaysToMonday(Succ(x)) < DaysToMonday(x))
  {
    SuccIsNextDay(x);
    var before, after := HolidaysFrom(x, holidays), HolidaysFrom(Succ(x), holidays);
    assert after <= before;
    if x in holidays {
      assert x in before && x !in after;
    } else {
      forall h | h in before ensures h in after {
        BeforeTotal(h, x);
      }
      WeekdaySucc(x);
    }
  }

  /** The search result is on or after `x`, a business day, and the first such day. */
  lemma {:induction false} FirstBusinessDayFromIsEarliest(x: Date, holidays: set<Date>)
    ensures !Before(FirstBusinessDayFrom(x, holidays), x)
    ensures IsBusinessDay(FirstBusinessDayFrom(x, holidays), holidays)
    ensures forall y: Date :: !Before(y, x) && Before(y, FirstBusinessDayFrom(x, holidays)) ==> !IsBusinessDay(y, holidays)
    decreases HolidaysFrom(x, holidays), DaysToMonday(x)
  {
    if !IsBusinessDay(x, holidays) {
      SearchProgress(x, holidays);
      FirstBusinessDayFromIsEarliest(Succ(x), holidays);
      SuccIsNextDay(x);
      var r := FirstBusinessDayFrom(x, holidays);
      forall y: Date | !Before(y, x) && Before(y, r) ensures !IsBusinessDay(y, holidays) {
        BeforeTotal(y, x);
      }
    }
  }

  /** The earliest business day on or after `x` is unique: any date with those properties is the search result. */
  lemma FirstBusinessDayFromIsUnique(x: Date, holidays: set<Date>, r: Date)
    requires !Before(r, x) && IsBusinessDay(r, holidays)
    requires forall y: Date :: !Before(y, x) && Before(y, r) ==> !IsBusinessDay(y, holidays)
    ensures r == FirstBusinessDayFrom(x, holidays)
  {
    var s := FirstBusinessDayFrom(x, holidays);
    FirstBusinessDayFromIsEarliest(x, holidays);
    BeforeTotal(r, s);
  }

  /** The search passes over a day that is not a business day. */
  lemma SearchSkips(x: Date, holidays: set<Date>)
    requires !IsBusinessDay(x, holidays)
    ensures FirstBusinessDayFrom(x, holidays) == FirstBusinessDayFrom(Succ(x), holidays)
  {
  }

  /** Stepping past a day that is not a business day keeps "no business day since `date`". */
  lemma PassNonBusinessDay(date: Date, r: Date, holidays: set<Date>)
    requires Before(date, r) && !IsBusinessDay(r, holidays)
    requires forall x: Date :: Before(date, x) && Before(x, r) ==> !IsBusinessDay(x, holidays)
    ensures Before(date, Succ(r))
    ensures forall x: Date :: Before(date, x) && Before(x, Succ(r)) ==> !IsBusinessDay(x, holidays)
  {
    SuccIsNextDay(r);
    forall x: Date | Before(date, x) && Before(x, Succ(r)) ensures !IsBusinessDay(x, holidays) {
      BeforeTotal(x, r);
    }
  }

  /** The search stops at once on a business day. */
  lemma SearchStops(x: Date, holidays: set<Date>)
    requires IsBusinessDay(x, holidays)
    ensures FirstBusinessDayFrom(x, holidays) == x
  {
  }

  /** A Saturday is followed by the next Monday when that Monday is no holiday. */
  lemma WeekendSkipped(saturday: Date, holidays: set<Date>)
    requires Weekday(saturday) == Saturday
    requires Succ(Succ(saturday)) !in holidays
    ensures FirstBusinessDayFrom(saturday, holidays) == Succ(Succ(saturday))
  {
    var sunday := Succ(saturday);
    var monday := Succ(sunday);
    WeekdaySucc(saturday);
    assert Weekday(sunday) == Sunday;
    WeekdaySucc(sunday);
    assert Weekday(monday) == 0;
    SearchSkips(saturday, holidays);
    SearchSkips(sunday, holidays);
    SearchStops(monday, holidays);
  }

  /** A Friday is followed by the next Monday when that Monday is no holiday. */
  lemma FridayToMonday(d: Date, holidays: set<Date>)
    requires Weekday(d) == 4
    requires Succ(Succ(Succ(d))) !in holidays
    ensures FirstBusinessDayFrom(Succ(d), holidays) == Succ(Succ(Succ(d)))
  {
    WeekdaySucc(d);
    WeekendSkipped(Succ(d), holidays);
  }

  /** The day before a holiday is followed by the day after the holiday when that day is a business day. */
  lemma HolidaySkipped(d: Date, holidays: set<Date>)
    requires Succ(d) in holidays
    requires IsBusinessDay(Succ(Succ(d)), holidays)
    ensures FirstBusinessDayFrom(Succ(d), holidays) == Succ(Succ(d))
  {
    SearchProgress(Succ(d), holidays);
  }

  /** A month-end day has no business day after it in its own month. */
  lemma MonthEndIsLastBusinessDay(d: Date, holidays: set<Date>)
    requires IsMonthEnd(d, holidays)
    ensures forall x: Date :: Before(d, x) && x.year == d.year && x.month == d.month ==> !IsBusinessDay(x, holidays)
  {
    SuccIsNextDay(d);
    var r := FirstBusinessDayFrom(Succ(d), holidays);
    FirstBusinessDayFromIsEarliest(Succ(d), holidays);
    forall x: Date | Before(d, x) && x.year == d.year && x.month == d.month ensures !IsBusinessDay(x, holidays) {
      BeforeTotal(x, r);
    }
  }

  /**
   * Conversely, a day with no business day after it in its own month is a
   * month-end day, provided the next business day is less than a year away
   * (the test compares month numbers only).
   */
  lemma LastBusinessDayIsMonthEnd(d: Date, holidays: set<Date>)
    requires forall x: Date :: Before(d, x) && x.year == d.year && x.month == d.month ==> !IsBusinessDay(x, holidays)
    requires FirstBusinessDayFrom(Succ(d), holidays).year == d.year
          || (FirstBusinessDayFrom(Succ(d), holidays).year == d.year + 1 && FirstBusinessDayFrom(Succ(d), holidays).month < d.month)
    ensures IsMonthEnd(d, holidays)
  {
    SuccIsNextDay(d);
    FirstBusinessDayFromIsEarliest(Succ(d), holidays);
  }
}
