/**
 * The "secretary" strategy: within each month, pass over the days up to the
 * cutoff day, then invest on the first day whose close is strictly below every
 * close seen since the last reset; if no such day comes, invest on the month's
 * last business day. A month-end row resets the window of closes and the
 * "already invested" flag.
 */
module Secretary {
  import opened Calendar
  import opened Simulation

  /** Days of the month on or before this one are never early-investment days. */
  const CutoffDay := 11

  /** The first row whose close is in the window of row `i`. */
  function WindowStart(monthEnds: seq<bool>, i: nat): nat
    requires i <= |monthEnds|
  {
    var j := ResetPoint(monthEnds, i);
    if j < 0 then 0 else j
  }

  /** The closes of a run of rows, in order. */
  function Closes(s: seq<Row>): (cs: seq<real>)
    ensures |cs| == |s|
    ensures forall k :: 0 <= k < |s| ==> cs[k] == s[k].close
  {
    if s == [] then [] else Closes(s[..|s| - 1]) + [s[|s| - 1].close]
  }

  /**
   * The list of closes the strategy holds when it reaches row `i`: the first
   * close followed by every close so far until the first month end, and after
   * that the closes from the last month-end row up to the row before `i`.
   */
  function MonthsCloses(rows: seq<Row>, monthEnds: seq<bool>, i: nat): (cs: seq<real>)
    requires 0 < |rows| == |monthEnds| && i <= |rows|
    ensures |cs| > 0
  {
    var j := ResetPoint(monthEnds, i);
    if j < 0 then [rows[0].close] + Closes(rows[0..i]) else Closes(rows[j..i])
  }

  /** The least element of a non-empty list. */
  function Min(s: seq<real>): (m: real)
    requires |s| > 0
    ensures m in s
    ensures forall k :: 0 <= k < |s| ==> m <= s[k]
  {
    if |s| == 1 then s[0]
    else
      var rest := Min(s[1..]);
      if s[0] <= rest then s[0] else rest
  }

  /** Whether some record after the last reset and before row `i` invested. */
  predicate InvestedSinceReset(monthEnds: seq<bool>, ds: seq<Decision>, i: nat)
    requires i <= |ds| <= |monthEnds|
  {
    exists k :: ResetPoint(monthEnds, i) < k < i && ds[k].invest
  }

  /** Row `i` is past the cutoff day and its close is strictly below every close in the window. */
  predicate EarlyOpportunity(rows: seq<Row>, monthEnds: seq<bool>, i: nat)
    requires i < |rows| == |monthEnds|
  {
    rows[i].date.day > CutoffDay && rows[i].close < Min(MonthsCloses(rows, monthEnds, i))
  }

  /** The rule record `i` follows: invest on an early opportunity or at a month end, once per window. */
  predicate DecidesAt(rows: seq<Row>, monthEnds: seq<bool>, ds: seq<Decision>, i: nat)
    requires i < |ds| <= |rows| == |monthEnds|
  {
    ds[i].invest <==>
      (EarlyOpportunity(rows, monthEnds, i) || monthEnds[i])
      && !InvestedSinceReset(monthEnds, ds, i)
  }

  /** Every record of `ds` follows the secretary rule. */
  predicate SecretaryDecides(rows: seq<Row>, monthEnds: seq<bool>, ds: seq<Decision>) {
    |ds| <= |rows| == |monthEnds| && forall i :: 0 <= i < |ds| ==> DecidesAt(rows, monthEnds, ds, i)
  }

  // How the strategy's state moves from one row to the next.

  lemma ClosesAppend(s: seq<Row>, r: Row)
    ensures Closes(s + [r]) == Closes(s) + [r.close]
  {
    assert (s + [r])[..|s|] == s;
  }

  /** After a month end the window restarts from that close; otherwise the close is appended. */
  lemma MonthsClosesStep(rows: seq<Row>, monthEnds: seq<bool>, i: nat)
    requires i < |rows| == |monthEnds|
    ensures MonthsCloses(rows, monthEnds, i + 1)
         == if monthEnds[i] then [rows[i].close]
            else MonthsCloses(rows, monthEnds, i) + [rows[i].close]
  {
    var j := ResetPoint(monthEnds, i);
    if monthEnds[i] {
      assert ResetPoint(monthEnds, i + 1) == i;
      assert rows[i..i + 1] == [rows[i]];
    } else {
      assert ResetPoint(monthEnds, i + 1) == j;
      if j < 0 {
        assert rows[0..i + 1] == rows[0..i] + [rows[i]];
        ClosesAppend(rows[0..i], rows[i]);
      } else {
        assert rows[j..i + 1] == rows[j..i] + [rows[i]];
        ClosesAppend(rows[j..i], rows[i]);
      }
    }
  }

  /** After a month end nothing has been invested since the reset; otherwise the flag records this row's decision too. */
  lemma InvestedSinceResetStep(monthEnds: seq<bool>, ds: seq<Decision>, i: nat)
    requires i < |ds| <= |monthEnds|
    ensures InvestedSinceReset(monthEnds, ds, i + 1)
        <==> !monthEnds[i] && (InvestedSinceReset(monthEnds, ds, i) || ds[i].invest)
  {
    if monthEnds[i] {
      assert ResetPoint(monthEnds, i + 1) == i;
    } else {
      assert ResetPoint(monthEnds, i + 1) == ResetPoint(monthEnds, i);
      if ds[i].invest {
        assert ResetPoint(monthEnds, i + 1) < i < i + 1;
      }
    }
  }

  /** The flag for row `i` looks only at the records before `i`. */
  lemma InvestedSinceResetPrefix(monthEnds: seq<bool>, ds: seq<Decision>, ds': seq<Decision>, i: nat)
    requires i <= |ds| <= |monthEnds| && i <= |ds'| <= |monthEnds|
    requires forall k :: 0 <= k < i ==> ds[k].invest == ds'[k].invest
    ensures InvestedSinceReset(monthEnds, ds, i) == InvestedSinceReset(monthEnds, ds', i)
  {
    if InvestedSinceReset(monthEnds, ds, i) {
      var k :| ResetPoint(monthEnds, i) < k < i && ds[k].invest;
      assert ds'[k].invest;
    }
    if InvestedSinceReset(monthEnds, ds', i) {
      var k :| ResetPoint(monthEnds, i) < k < i && ds'[k].invest;
      assert ds[k].invest;
    }
  }

  /** Appending a record that follows the rule keeps the whole sequence following it. */
  lemma SecretaryDecidesAppend(rows: seq<Row>, monthEnds: seq<bool>, ds: seq<Decision>, d: Decision)
    requires SecretaryDecides(rows, monthEnds, ds) && |ds| < |rows|
    requires d.invest <==>
      (EarlyOpportunity(rows, monthEnds, |ds|) || monthEnds[|ds|])
      && !InvestedSinceReset(monthEnds, ds, |ds|)
    ensures SecretaryDecides(rows, monthEnds, ds + [d])
  {
    var ds' := ds + [d];
    forall i | 0 <= i < |ds'| ensures DecidesAt(rows, monthEnds, ds', i) {
      forall k | 0 <= k < i ensures ds[k].invest == ds'[k].invest {
        assert ds'[k] == ds[k];
      }
      InvestedSinceResetPrefix(monthEnds, ds, ds', i);
      if i < |ds| {
        assert DecidesAt(rows, monthEnds, ds, i);
        assert ds'[i] == ds[i];
      } else {
        assert ds'[i] == d;
      }
    }
  }

  /** A value is below the least element of a list exactly when it is below every element. */
  lemma BelowMin(s: seq<real>, x: real)
    requires |s| > 0
    ensures x < Min(s) <==> forall t :: 0 <= t < |s| ==> x < s[t]
  {
  }

  /**
   * Row `i`'s close is below the least close the strategy holds exactly when some
   * row precedes `i` and the close is strictly below the close of every row of the
   * window, from the last month-end row (or the first row) up to the row before `i`.
   */
  lemma BelowMonthsCloses(rows: seq<Row>, monthEnds: seq<bool>, i: nat)
    requires i < |rows| == |monthEnds|
    ensures rows[i].close < Min(MonthsCloses(rows, monthEnds, i))
        <==> 0 < i && forall k :: WindowStart(monthEnds, i) <= k < i ==> rows[i].close < rows[k].close
  {
    var x := rows[i].close;
    var ms := MonthsCloses(rows, monthEnds, i);
    var j := ResetPoint(monthEnds, i);
    BelowMin(ms, x);
    if j < 0 {
      var cs := Closes(rows[0..i]);
      assert ms == [rows[0].close] + cs;
      BelowAllCloses(rows, 0, i, x);
      assert (forall t :: 0 <= t < |ms| ==> x < ms[t])
         <==> x < rows[0].close && forall t :: 0 <= t < |cs| ==> x < cs[t] by {
        assert forall t :: 0 < t < |ms| ==> ms[t] == cs[t - 1];
        assert forall t :: 0 <= t < |cs| ==> cs[t] == ms[t + 1];
      }
    } else {
      BelowAllCloses(rows, j, i, x);
    }
  }

  /** A value is below every close of a slice exactly when it is below the close of every row in it. */
  lemma BelowAllCloses(rows: seq<Row>, lo: nat, hi: nat, x: real)
    requires lo <= hi <= |rows|
    ensures (forall t :: 0 <= t < hi - lo ==> x < Closes(rows[lo..hi])[t])
        ==> forall k :: lo <= k < hi ==> x < rows[k].close
    ensures (forall k :: lo <= k < hi ==> x < rows[k].close)
        ==> forall t :: 0 <= t < hi - lo ==> x < Closes(rows[lo..hi])[t]
  {
    var cs := Closes(rows[lo..hi]);
    if forall t :: 0 <= t < hi - lo ==> x < cs[t] {
      forall k | lo <= k < hi ensures x < rows[k].close {
        assert cs[k - lo] == rows[k].close;
      }
    }
    if forall k :: lo <= k < hi ==> x < rows[k].close {
      forall t | 0 <= t < hi - lo ensures x < cs[t] {
        assert cs[t] == rows[lo + t].close;
      }
    }
  }

  /** The first row starts with the first close as the window and nothing invested. */
  lemma InitialState(rows: seq<Row>, monthEnds: seq<bool>, ds: seq<Decision>)
    requires |ds| <= |rows| == |monthEnds| && 0 < |rows|
    ensures MonthsCloses(rows, monthEnds, 0) == [rows[0].close]
    ensures !InvestedSinceReset(monthEnds, ds, 0)
  {
    assert rows[0..0] == [];
  }

  /** On the first row the close cannot be below the window, so it invests only if it is a month end. */
  lemma FirstRowInvestsOnlyAtMonthEnd(rows: seq<Row>, monthEnds: seq<bool>, ds: seq<Decision>)
    requires SecretaryDecides(rows, monthEnds, ds) && 0 < |ds|
    ensures ds[0].invest <==> monthEnds[0]
  {
    assert DecidesAt(rows, monthEnds, ds, 0);
    InitialState(rows, monthEnds, ds);
    BelowMonthsCloses(rows, monthEnds, 0);
  }

  /**
   * Away from a month end, a row invests exactly when it is past the cutoff day,
   * its close is strictly below every close of the window (a tie does not count),
   * and nothing was invested since the last reset.
   */
  lemma EarlyInvestmentRule(rows: seq<Row>, monthEnds: seq<bool>, ds: seq<Decision>, i: nat)
    requires SecretaryDecides(rows, monthEnds, ds) && i < |ds|
    requires !monthEnds[i]
    ensures ds[i].invest <==>
      rows[i].date.day > CutoffDay
      && 0 < i
      && (forall k :: WindowStart(monthEnds, i) <= k < i ==> rows[i].close < rows[k].close)
      && !InvestedSinceReset(monthEnds, ds, i)
  {
    assert DecidesAt(rows, monthEnds, ds, i);
    BelowMonthsCloses(rows, monthEnds, i);
  }

  /** A month-end row invests whenever nothing was invested since the last reset. */
  lemma MonthEndFallback(rows: seq<Row>, monthEnds: seq<bool>, ds: seq<Decision>, i: nat)
    requires SecretaryDecides(rows, monthEnds, ds) && i < |ds|
    requires monthEnds[i]
    ensures ds[i].invest <==> !InvestedSinceReset(monthEnds, ds, i)
  {
    assert DecidesAt(rows, monthEnds, ds, i);
  }

  /** Between any two investments there is a month-end row, where the strategy resets. */
  lemma AtMostOneInvestmentBetweenResets(rows: seq<Row>, monthEnds: seq<bool>, ds: seq<Decision>, k1: nat, k2: nat)
    requires SecretaryDecides(rows, monthEnds, ds)
    requires k1 < k2 < |ds| && ds[k1].invest && ds[k2].invest
    ensures exists m :: k1 <= m < k2 && monthEnds[m]
  {
    assert DecidesAt(rows, monthEnds, ds, k2);
    var j := ResetPoint(monthEnds, k2);
    assert k1 <= j by {
      assert !InvestedSinceReset(monthEnds, ds, k2);
    }
    assert monthEnds[j];
  }

  /**
   * The rows after one month end up to and including the next month-end row
   * hold exactly one investment.
   */
  lemma ClosedWindowInvestsOnce(rows: seq<Row>, monthEnds: seq<bool>, ds: seq<Decision>, m: nat)
    requires SecretaryDecides(rows, monthEnds, ds) && m < |ds|
    requires monthEnds[m]
    ensures exists k :: ResetPoint(monthEnds, m) < k <= m && ds[k].invest
    ensures forall k1, k2 ::
      (ResetPoint(monthEnds, m) < k1 <= m && ResetPoint(monthEnds, m) < k2 <= m
       && ds[k1].invest && ds[k2].invest) ==> k1 == k2
  {
    var j := ResetPoint(monthEnds, m);
    MonthEndFallback(rows, monthEnds, ds, m);
    if !ds[m].invest {
      var k :| j < k < m && ds[k].invest;
    }
    forall k1, k2 | j < k1 <= m && j < k2 <= m && ds[k1].invest && ds[k2].invest ensures k1 == k2 {
      if k1 < k2 {
        AtMostOneInvestmentBetweenResets(rows, monthEnds, ds, k1, k2);
      } else if k2 < k1 {
        AtMostOneInvestmentBetweenResets(rows, monthEnds, ds, k2, k1);
      }
    }
  }

  lemma {:induction false} SameDecisionsUpTo(rows: seq<Row>, monthEnds: seq<bool>, ds: seq<Decision>, ds': seq<Decision>, n: nat)
    requires SecretaryDecides(rows, monthEnds, ds) && SecretaryDecides(rows, monthEnds, ds')
    requires n <= |ds| && n <= |ds'|
    ensures forall k :: 0 <= k < n ==> ds[k].invest == ds'[k].invest
  {
    if n > 0 {
      SameDecisionsUpTo(rows, monthEnds, ds, ds', n - 1);
      InvestedSinceResetPrefix(monthEnds, ds, ds', n - 1);
      assert DecidesAt(rows, monthEnds, ds, n - 1);
      assert DecidesAt(rows, monthEnds, ds', n - 1);
    }
  }

  /** The rule leaves no choice: two records following it over the same rows decide alike. */
  lemma SecretaryDecidesUnique(rows: seq<Row>, monthEnds: seq<bool>, ds: seq<Decision>, ds': seq<Decision>)
    requires SecretaryDecides(rows, monthEnds, ds) && SecretaryDecides(rows, monthEnds, ds')
    requires |ds| == |ds'|
    ensures forall k :: 0 <= k < |ds| ==> ds[k].invest == ds'[k].invest
  {
    SameDecisionsUpTo(rows, monthEnds, ds, ds', |ds|);
  }

  /** A day followed by a business day of its own month is not a month end. */
  lemma FollowedByBusinessDay(d: Date, holidays: set<Date>)
    requires IsBusinessDay(Succ(d), holidays) && Succ(d).month == d.month
    ensures !IsMonthEnd(d, holidays)
  {
    SearchStops(Succ(d), holidays);
  }

  /** A day followed by a business day of another month is a month end. */
  lemma FollowedByNextMonth(d: Date, holidays: set<Date>)
    requires IsBusinessDay(Succ(d), holidays) && Succ(d).month != d.month
    ensures IsMonthEnd(d, holidays)
  {
    SearchStops(Succ(d), holidays);
  }

  /** Weekdays in 2020: 737424 days precede 1 January 2020. */
  lemma WeekdayIn2020(d: Date)
    requires d.year == 2020
    ensures Weekday(d) == (DaysBeforeMonth(2020, d.month) + d.day + 737430) % 7
  {
    assert DaysBeforeYear(2020) == 737424;
  }

  /** Four rows of March 2020 (2 March was a Monday), none of them the last business day of the month. */
  function ExampleRows(): seq<Row> {
    [Row(YearMonthDay(2020, 3, 2), 100.0), Row(YearMonthDay(2020, 3, 5), 90.0),
     Row(YearMonthDay(2020, 3, 16), 95.0), Row(YearMonthDay(2020, 3, 17), 80.0)]
  }

  /** With no holidays, each row of `ExampleRows` is followed by a business day of March. */
  lemma ExampleRowsHaveNoMonthEnd(rows: seq<Row>)
    requires rows == ExampleRows()
    ensures MonthEnds(rows, {}) == [false, false, false, false]
  {
    WeekdayIn2020(Succ(rows[0].date));
    FollowedByBusinessDay(rows[0].date, {});
    WeekdayIn2020(Succ(rows[1].date));
    FollowedByBusinessDay(rows[1].date, {});
    WeekdayIn2020(Succ(rows[2].date));
    FollowedByBusinessDay(rows[2].date, {});
    WeekdayIn2020(Succ(rows[3].date));
    FollowedByBusinessDay(rows[3].date, {});
    MonthEndsMeaning(rows, {}, 0);
    MonthEndsMeaning(rows, {}, 1);
    MonthEndsMeaning(rows, {}, 2);
    MonthEndsMeaning(rows, {}, 3);
  }

  /** The decisions over `ExampleRows` when no row is a month end. */
  lemma CutoffDecisions(ds: seq<Decision>)
    requires SecretaryDecides(ExampleRows(), [false, false, false, false], ds) && |ds| == 4
    ensures !ds[0].invest && !ds[1].invest && !ds[2].invest && ds[3].invest
  {
    var rows, monthEnds := ExampleRows(), [false, false, false, false];
    FirstRowInvestsOnlyAtMonthEnd(rows, monthEnds, ds);
    assert DecidesAt(rows, monthEnds, ds, 1);
    EarlyInvestmentRule(rows, monthEnds, ds, 2);
    assert WindowStart(monthEnds, 2) == 0;
    assert !(rows[2].close < rows[1].close);
    EarlyInvestmentRule(rows, monthEnds, ds, 3);
    assert WindowStart(monthEnds, 3) == 0;
    assert !InvestedSinceReset(monthEnds, ds, 3);
  }

  /**
   * In `ExampleRows`, with no holidays, the drop on the 5th comes before the cutoff
   * and is passed over; the close on the 16th is not below the 5th's; the close on
   * the 17th is below every close of the month so far and is the investment.
   */
  lemma CutoffExample(rows: seq<Row>, ds: seq<Decision>)
    requires rows == ExampleRows()
    requires SecretaryDecides(rows, MonthEnds(rows, {}), ds) && |ds| == 4
    ensures !ds[0].invest && !ds[1].invest && !ds[2].invest && ds[3].invest
  {
    ExampleRowsHaveNoMonthEnd(rows);
    CutoffDecisions(ds);
  }

  /** Four rows of March 2020 ending on Tuesday 31 March, the last business day of the month. */
  function MonthEndRows(): seq<Row> {
    [Row(YearMonthDay(2020, 3, 2), 100.0), Row(YearMonthDay(2020, 3, 16), 90.0),
     Row(YearMonthDay(2020, 3, 20), 95.0), Row(YearMonthDay(2020, 3, 31), 80.0)]
  }

  /**
   * With no holidays only the last row of `MonthEndRows` is a month end: Friday
   * 20 March is followed by Monday 23 March, Tuesday 31 March by Wednesday 1 April.
   */
  lemma MonthEndRowsFlags(rows: seq<Row>)
    requires rows == MonthEndRows()
    ensures MonthEnds(rows, {}) == [false, false, false, true]
  {
    WeekdayIn2020(Succ(rows[0].date));
    FollowedByBusinessDay(rows[0].date, {});
    WeekdayIn2020(Succ(rows[1].date));
    FollowedByBusinessDay(rows[1].date, {});
    WeekdayIn2020(rows[2].date);
    FridayToMonday(rows[2].date, {});
    WeekdayIn2020(Succ(rows[3].date));
    FollowedByNextMonth(rows[3].date, {});
    MonthEndsMeaning(rows, {}, 0);
    MonthEndsMeaning(rows, {}, 1);
    MonthEndsMeaning(rows, {}, 2);
    MonthEndsMeaning(rows, {}, 3);
  }

  /** The decisions over `MonthEndRows` when only the last row is a month end. */
  lemma PreemptingDecisions(ds: seq<Decision>)
    requires SecretaryDecides(MonthEndRows(), [false, false, false, true], ds) && |ds| == 4
    ensures !ds[0].invest && ds[1].invest && !ds[2].invest && !ds[3].invest
  {
    var rows, monthEnds := MonthEndRows(), [false, false, false, true];
    FirstRowInvestsOnlyAtMonthEnd(rows, monthEnds, ds);
    EarlyInvestmentRule(rows, monthEnds, ds, 1);
    assert WindowStart(monthEnds, 1) == 0;
    assert !InvestedSinceReset(monthEnds, ds, 1);
    assert InvestedSinceReset(monthEnds, ds, 2);
    assert DecidesAt(rows, monthEnds, ds, 2);
    assert InvestedSinceReset(monthEnds, ds, 3);
    MonthEndFallback(rows, monthEnds, ds, 3);
  }

  /**
   * In `MonthEndRows`, with no holidays, the drop on the 16th, after the cutoff, is
   * the month's investment; the month end on the 31st, though lower still, invests nothing.
   */
  lemma EarlyInvestmentPreemptsMonthEnd(rows: seq<Row>, ds: seq<Decision>)
    requires rows == MonthEndRows()
    requires SecretaryDecides(rows, MonthEnds(rows, {}), ds) && |ds| == 4
    ensures !ds[0].invest && ds[1].invest && !ds[2].invest && !ds[3].invest
  {
    MonthEndRowsFlags(rows);
    PreemptingDecisions(ds);
  }

  /**
   * What the strategy keeps after the records `ds`: the list of closes of the
   * current window, whether it has invested since the last reset, and records
   * that follow the rule.
   */
  predicate SecretaryState(rows: seq<Row>, monthEnds: seq<bool>, ds: seq<Decision>, monthsCloses: seq<real>, didInvest: bool)
    requires 0 < |rows| == |monthEnds| && |ds| <= |rows|
  {
    monthsCloses == MonthsCloses(rows, monthEnds, |ds|)
    && didInvest == InvestedSinceReset(monthEnds, ds, |ds|)
    && SecretaryDecides(rows, monthEnds, ds)
  }

  /** The state after appending a record that follows the rule, from the state before it. */
  lemma SecretaryStateAppend(rows: seq<Row>, monthEnds: seq<bool>, ds: seq<Decision>, d: Decision,
                             monthsCloses: seq<real>, didInvest: bool)
    requires 0 < |rows| == |monthEnds| && |ds| < |rows|
    requires SecretaryDecides(rows, monthEnds, ds)
    requires d.invest <==>
      (EarlyOpportunity(rows, monthEnds, |ds|) || monthEnds[|ds|])
      && !InvestedSinceReset(monthEnds, ds, |ds|)
    requires monthsCloses == MonthsCloses(rows, monthEnds, |ds| + 1)
    requires didInvest == (!monthEnds[|ds|] && (InvestedSinceReset(monthEnds, ds, |ds|) || d.invest))
    ensures SecretaryState(rows, monthEnds, ds + [d], monthsCloses, didInvest)
  {
    var i := |ds|;
    SecretaryDecidesAppend(rows, monthEnds, ds, d);
    InvestedSinceResetStep(monthEnds, ds + [d], i);
    InvestedSinceResetPrefix(monthEnds, ds, ds + [d], i);
  }

  /**
   * The decision of one row, row `|ds|`: invest on an early opportunity or at a
   * month end unless the window has invested already; then a month end resets the
   * window, and the row's close joins it.
   */
  method Decide(rows: seq<Row>, holidays: set<Date>, ds: seq<Decision>, monthsCloses: seq<real>, didInvest: bool)
    returns (invest: bool, monthsCloses': seq<real>, didInvest': bool)
    requires 0 < |rows| && |ds| < |rows|
    requires SecretaryState(rows, MonthEnds(rows, holidays), ds, monthsCloses, didInvest)
    ensures invest <==>
      (EarlyOpportunity(rows, MonthEnds(rows, holidays), |ds|) || MonthEnds(rows, holidays)[|ds|])
      && !InvestedSinceReset(MonthEnds(rows, holidays), ds, |ds|)
    ensures monthsCloses' == MonthsCloses(rows, MonthEnds(rows, holidays), |ds| + 1)
    ensures didInvest' == (!MonthEnds(rows, holidays)[|ds|] && (didInvest || invest))
  {
    ghost var monthEnds := MonthEnds(rows, holidays);
    var i := |ds|;
    var currentClose := rows[i].close;
    var d := rows[i].date;
    var monthEnd := CheckMonthEnd(d, holidays);
    MonthEndsMeaning(rows, holidays, i);
    invest := false;
    didInvest' := didInvest;
    if ((d.day > CutoffDay && currentClose < Min(monthsCloses)) || monthEnd) && !didInvest {
      didInvest' := true;
      invest := true;
    }
    MonthsClosesStep(rows, monthEnds, i);
    monthsCloses' := monthsCloses;
    if monthEnd {
      monthsCloses' := [];
      didInvest' := false;
    }
    monthsCloses' := monthsCloses' + [currentClose];
  }

  /**
   * Runs the secretary strategy over `rows`: one decision per row, in order, and
   * the wealth after the last row. An empty series has no first close.
   */
  method InvestAtSecretary(rows: seq<Row>, holidays: set<Date>, initialInvestment: real := 1.0, monthlyContribution: real := 1.0)
    returns (result: Result<Run>)
    requires NonZeroDivisors(rows)
    ensures result.Err? <==> |rows| == 0
    ensures result.Ok? ==>
      var ds := result.value.decisions;
      |ds| == |rows|
      && Compounded(rows, initialInvestment, monthlyContribution, ds)
      && SecretaryDecides(rows, MonthEnds(rows, holidays), ds)
      && result.value.final == ds[|ds| - 1].cumulative
    ensures result.Ok? && PositiveCloses(rows) && initialInvestment > 0.0 && monthlyContribution >= 0.0
      ==> result.value.final > 0.0
  {
    if |rows| == 0 {
      return Err(NoFirstClose);
    }
    var cumulative := initialInvestment;
    var previousClose := rows[0].close;
    var monthsCloses := [previousClose];
    var didInvest := false;
    var ds: seq<Decision> := [];
    InitialState(rows, MonthEnds(rows, holidays), ds);
    for i := 0 to |rows|
      invariant |ds| == i
      invariant Progress(rows, initialInvestment, monthlyContribution, ds, cumulative, previousClose)
      invariant SecretaryState(rows, MonthEnds(rows, holidays), ds, monthsCloses, didInvest)
    {
      var invest, monthsCloses', didInvest' := Decide(rows, holidays, ds, monthsCloses, didInvest);
      var record;
      record, cumulative := Compound(rows, initialInvestment, monthlyContribution, ds, cumulative, previousClose, invest);
      SecretaryStateAppend(rows, MonthEnds(rows, holidays), ds, record, monthsCloses', didInvest');
      monthsCloses, didInvest := monthsCloses', didInvest';
      ds := ds + [record];
      previousClose := rows[i].close;
    }
    if PositiveCloses(rows) && initialInvestment > 0.0 && monthlyContribution >= 0.0 {
      CumulativeStaysPositive(rows, initialInvestment, monthlyContribution, ds, |ds| - 1);
    }
    return Ok(Run(ds, cumulative));
  }
}
