/**
 * The regular strategy: walk the closes once, let the wealth follow the price
 * and add the monthly contribution on the last business day of every month.
 */
module FirstOfMonth {
  import opened Calendar
  import opened Simulation

  /**
   * Record i invests exactly when row i is a month end, that is, when its date is
   * the last business day of its month (`MonthEnds`).
   */
  predicate InvestsAtMonthEnds(monthEnds: seq<bool>, ds: seq<Decision>) {
    |ds| <= |monthEnds| && forall i :: 0 <= i < |ds| ==> ds[i].invest == monthEnds[i]
  }

  lemma InvestsAtMonthEndsAppend(monthEnds: seq<bool>, ds: seq<Decision>, d: Decision)
    requires InvestsAtMonthEnds(monthEnds, ds) && |ds| < |monthEnds|
    requires d.invest == monthEnds[|ds|]
    ensures InvestsAtMonthEnds(monthEnds, ds + [d])
  {
    var ds' := ds + [d];
    forall i | 0 <= i < |ds'| ensures ds'[i].invest == monthEnds[i] {
      if i < |ds| { assert ds'[i] == ds[i]; }
    }
  }

  /**
   * The rows after one month end up to and including the next month-end row hold
   * exactly one investment, on that month-end row.
   */
  lemma RegularInvestsOncePerWindow(monthEnds: seq<bool>, ds: seq<Decision>, m: nat)
    requires InvestsAtMonthEnds(monthEnds, ds) && m < |ds|
    requires monthEnds[m]
    ensures forall k :: ResetPoint(monthEnds, m) < k <= m ==> (ds[k].invest <==> k == m)
  {
  }

  /**
   * Runs the regular strategy over `rows`: one decision per row, in order, and
   * the wealth after the last row. An empty series has no first close.
   */
  method InvestAtFirst(rows: seq<Row>, holidays: set<Date>, initialInvestment: real := 1.0, monthlyContribution: real := 1.0)
    returns (result: Result<Run>)
    requires NonZeroDivisors(rows)
    ensures result.Err? <==> |rows| == 0
    ensures result.Ok? ==>
      var ds := result.value.decisions;
      |ds| == |rows|
      && Compounded(rows, initialInvestment, monthlyContribution, ds)
      && InvestsAtMonthEnds(MonthEnds(rows, holidays), ds)
      && result.value.final == ds[|ds| - 1].cumulative
    ensures result.Ok? && PositiveCloses(rows) && initialInvestment > 0.0 && monthlyContribution >= 0.0
      ==> result.value.final > 0.0
  {
    if |rows| == 0 {
      return Err(NoFirstClose);
    }
    var cumulative := initialInvestment;
    var previousClose := rows[0].close;
    var ds: seq<Decision> := [];
    for i := 0 to |rows|
      invariant |ds| == i
      invariant Progress(rows, initialInvestment, monthlyContribution, ds, cumulative, previousClose)
      invariant InvestsAtMonthEnds(MonthEnds(rows, holidays), ds)
    {
      var invest := CheckMonthEnd(rows[i].date, holidays);
      MonthEndsMeaning(rows, holidays, i);
      var record;
      record, cumulative := Compound(rows, initialInvestment, monthlyContribution, ds, cumulative, previousClose, invest);
      InvestsAtMonthEndsAppend(MonthEnds(rows, holidays), ds, record);
      ds := ds + [record];
      previousClose := rows[i].close;
    }
    if PositiveCloses(rows) && initialInvestment > 0.0 && monthlyContribution >= 0.0 {
      CumulativeStaysPositive(rows, initialInvestment, monthlyContribution, ds, |ds| - 1);
    }
    return Ok(Run(ds, cumulative));
  }
}
