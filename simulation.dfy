/**
 * What both dollar-cost-averaging strategies share: the price rows they walk,
 * the decision records they emit, and the rule by which the simulated wealth
 * ("cumulative") follows the price and grows by a contribution on investing days.
 */
module Simulation {
  import opened Calendar

  /** One input row: a trading day and its adjusted close. */
  datatype Row = Row(date: Date, close: real)

  /** One output record: the day, the wealth after that day, and whether a contribution was made on it. */
  datatype Decision = Decision(date: Date, cumulative: real, invest: bool)

  /** A finished simulation: one decision per row and the wealth after the last row. */
  datatype Run = Run(decisions: seq<Decision>, final: real)

  /** An empty series has no first close to start the ratios from. */
  datatype Error = NoFirstClose

  datatype Result<T> = Ok(value: T) | Err(error: Error)

  predicate PositiveCloses(rows: seq<Row>) {
    forall i :: 0 <= i < |rows| ==> rows[i].close > 0.0
  }

  /** Every close a ratio divides by is non-zero (the last close is never a divisor). */
  predicate NonZeroDivisors(rows: seq<Row>) {
    forall i :: 0 <= i < |rows| ==> PreviousClose(rows, i) != 0.0
  }

  /** The amount added to the wealth on a day: the contribution when investing, else nothing. */
  function Added(invest: bool, contribution: real): real {
    if invest then contribution else 0.0
  }

  /** For each row, whether its date is the last business day of its month (see `MonthEndsMeaning`). */
  function MonthEnds(rows: seq<Row>, holidays: set<Date>): (flags: seq<bool>)
    ensures |flags| == |rows|
  {
    if rows == [] then [] else MonthEnds(rows[..|rows| - 1], holidays) + [IsMonthEnd(rows[|rows| - 1].date, holidays)]
  }

  /** Flag i of `MonthEnds` holds exactly when row i's date is the last business day of its month. */
  lemma {:induction false} MonthEndsMeaning(rows: seq<Row>, holidays: set<Date>, i: nat)
    requires i < |rows|
    ensures MonthEnds(rows, holidays)[i] == IsMonthEnd(rows[i].date, holidays)
  {
    if i < |rows| - 1 {
      MonthEndsMeaning(rows[..|rows| - 1], holidays, i);
    }
  }

  /**
   * The last month-end row before row `i` — the row after which the window of
   * closes and the "already invested" flag were last reset — or -1 when there is none.
   */
  function ResetPoint(monthEnds: seq<bool>, i: nat): (j: int)
    requires i <= |monthEnds|
    ensures -1 <= j < i
    ensures j >= 0 ==> monthEnds[j]
    ensures forall k :: j < k < i ==> !monthEnds[k]
  {
    if i == 0 then -1
    else if monthEnds[i - 1] then i - 1
    else ResetPoint(monthEnds, i - 1)
  }

  /** The close that row `i`'s ratio divides by: the first close for the first row, else the close of the row before. */
  function PreviousClose(rows: seq<Row>, i: nat): real
    requires i < |rows|
  {
    if i == 0 then rows[0].close else rows[i - 1].close
  }

  /** The wealth before row `i`: the initial investment for the first row, else the previous record's. */
  function CumulativeBefore(ds: seq<Decision>, initial: real, i: nat): real
    requires i <= |ds|
  {
    if i == 0 then initial else ds[i - 1].cumulative
  }

  /**
   * Record i carries row i's date, and its cumulative less its contribution is the
   * cumulative before it scaled by the close ratio, written without the division:
   * (cumulative - added) * previous close == cumulative before * close.
   * `GrowthByRatio` gives the form with the ratio.
   */
  predicate CompoundsAt(rows: seq<Row>, initial: real, contribution: real, ds: seq<Decision>, i: nat)
    requires i < |ds| <= |rows|
  {
    ds[i].date == rows[i].date &&
    (ds[i].cumulative - Added(ds[i].invest, contribution)) * PreviousClose(rows, i)
      == CumulativeBefore(ds, initial, i) * rows[i].close
  }

  /** `ds` holds the decisions for a prefix of `rows`, each following the compounding rule. */
  predicate Compounded(rows: seq<Row>, initial: real, contribution: real, ds: seq<Decision>) {
    |ds| <= |rows| && forall i :: 0 <= i < |ds| ==> CompoundsAt(rows, initial, contribution, ds, i)
  }

  // Small facts about real arithmetic, kept apart so that each proof sees one division at most.

  lemma MultiplyOut(before: real, close: real, previous: real)
    requires previous != 0.0
    ensures before * (close / previous) * previous == before * close
  {
  }

  lemma DivideOut(x: real, before: real, close: real, previous: real)
    requires previous != 0.0 && x * previous == before * close
    ensures x == before * (close / previous)
  {
    MultiplyOut(before, close, previous);
    assert (x - before * (close / previous)) * previous == 0.0;
  }

  /** Record i's cumulative is the wealth before it times the day's close ratio, plus its contribution. */
  lemma GrowthByRatio(rows: seq<Row>, initial: real, contribution: real, ds: seq<Decision>, i: nat)
    requires NonZeroDivisors(rows) && Compounded(rows, initial, contribution, ds) && i < |ds|
    ensures ds[i].cumulative
         == CumulativeBefore(ds, initial, i) * (rows[i].close / PreviousClose(rows, i)) + Added(ds[i].invest, contribution)
  {
    assert CompoundsAt(rows, initial, contribution, ds, i);
    DivideOut(ds[i].cumulative - Added(ds[i].invest, contribution), CumulativeBefore(ds, initial, i),
              rows[i].close, PreviousClose(rows, i));
  }

  /**
   * One step of either simulator keeps the compounding rule: the wealth before the
   * row is scaled by the close ratio and the contribution is added when investing.
   */
  lemma CompoundedAppend(rows: seq<Row>, initial: real, contribution: real, ds: seq<Decision>,
                         before: real, previous: real, grown: real, d: Decision)
    requires NonZeroDivisors(rows) && Compounded(rows, initial, contribution, ds) && |ds| < |rows|
    requires before == CumulativeBefore(ds, initial, |ds|) && previous == PreviousClose(rows, |ds|)
    requires grown == before * (rows[|ds|].close / previous)
    requires d.date == rows[|ds|].date && d.cumulative == grown + Added(d.invest, contribution)
    ensures Compounded(rows, initial, contribution, ds + [d])
  {
    var ds' := ds + [d];
    var n := |ds|;
    assert CompoundsAt(rows, initial, contribution, ds', n) by {
      assert ds'[n] == d;
      assert CumulativeBefore(ds', initial, n) == CumulativeBefore(ds, initial, n) by {
        if n > 0 { assert ds'[n - 1] == ds[n - 1]; }
      }
      MultiplyOut(CumulativeBefore(ds, initial, n), rows[n].close, PreviousClose(rows, n));
    }
    forall i | 0 <= i < n ensures CompoundsAt(rows, initial, contribution, ds', i) {
      assert CompoundsAt(rows, initial, contribution, ds, i);
      assert ds'[i] == ds[i];
      assert CumulativeBefore(ds', initial, i) == CumulativeBefore(ds, initial, i) by {
        if i > 0 { assert ds'[i - 1] == ds[i - 1]; }
      }
    }
  }

  /**
   * What both simulators know after the records `ds`: the close kept as "previous"
   * is the last row's (the first row's at the start), the wealth kept is the last
   * record's (the initial investment at the start), and every record compounds.
   */
  predicate Progress(rows: seq<Row>, initial: real, contribution: real, ds: seq<Decision>, cumulative: real, previousClose: real) {
    0 < |rows| && |ds| <= |rows|
    && previousClose == (if |ds| == 0 then rows[0].close else rows[|ds| - 1].close)
    && cumulative == CumulativeBefore(ds, initial, |ds|)
    && Compounded(rows, initial, contribution, ds)
  }

  /**
   * The wealth update of one row, row `|ds|`: the wealth follows the ratio of its
   * close to the previous close, and grows by the contribution when `invest`.
   */
  method Compound(rows: seq<Row>, initial: real, contribution: real, ds: seq<Decision>,
                  cumulative: real, previousClose: real, invest: bool)
    returns (record: Decision, cumulative': real)
    requires NonZeroDivisors(rows) && |ds| < |rows|
    requires Progress(rows, initial, contribution, ds, cumulative, previousClose)
    ensures record.date == rows[|ds|].date && record.invest == invest
    ensures Progress(rows, initial, contribution, ds + [record], cumulative', rows[|ds|].close)
  {
    assert previousClose == PreviousClose(rows, |ds|);
    cumulative' := cumulative * (rows[|ds|].close / previousClose);
    ghost var grown := cumulative';
    if invest {
      cumulative' := cumulative' + contribution;
    }
    record := Decision(rows[|ds|].date, cumulative', invest);
    CompoundedAppend(rows, initial, contribution, ds, cumulative, previousClose, grown, record);
  }

  /** The number of investing records. */
  function Investments(ds: seq<Decision>): nat {
    if ds == [] then 0 else Investments(ds[..|ds| - 1]) + (if ds[|ds| - 1].invest then 1 else 0)
  }

  lemma InvestmentsStep(ds: seq<Decision>, k: nat)
    requires k < |ds|
    ensures Investments(ds[..k + 1]) == Investments(ds[..k]) + (if ds[k].invest then 1 else 0)
  {
    assert ds[..k + 1][..k] == ds[..k];
  }

  lemma Cancel(x: real, y: real, c: real)
    requires c != 0.0 && x * c == y * c
    ensures x == y
  {
    assert (x - y) * c == 0.0;
  }

  /** The first row's ratio is one: its cumulative is the initial investment plus its contribution. */
  lemma FirstRowRatioIsOne(rows: seq<Row>, initial: real, contribution: real, ds: seq<Decision>)
    requires NonZeroDivisors(rows) && Compounded(rows, initial, contribution, ds) && 0 < |ds|
    ensures ds[0].cumulative == initial + Added(ds[0].invest, contribution)
  {
    assert CompoundsAt(rows, initial, contribution, ds, 0);
    Cancel(ds[0].cumulative - Added(ds[0].invest, contribution), initial, rows[0].close);
  }

  /** With a positive start and non-negative contributions, the wealth after every day is positive. */
  lemma {:induction false} CumulativeStaysPositive(rows: seq<Row>, initial: real, contribution: real, ds: seq<Decision>, k: nat)
    requires PositiveCloses(rows) && Compounded(rows, initial, contribution, ds)
    requires initial > 0.0 && contribution >= 0.0
    requires k < |ds|
    ensures ds[k].cumulative > 0.0
  {
    if k > 0 {
      CumulativeStaysPositive(rows, initial, contribution, ds, k - 1);
    }
    assert NonZeroDivisors(rows) by {
      forall i | 0 <= i < |rows| ensures PreviousClose(rows, i) != 0.0 {
        assert PreviousClose(rows, i) > 0.0;
      }
    }
    GrowthByRatio(rows, initial, contribution, ds, k);
    var before := CumulativeBefore(ds, initial, k);
    var ratio := rows[k].close / PreviousClose(rows, k);
    assert ratio > 0.0;
    assert before * ratio > 0.0;
  }

  lemma AddOneContribution(initial: real, contribution: real, before: real, after: real, n: nat, a: nat)
    requires before == initial + contribution * (n as real)
    requires after == before + contribution * (a as real)
    ensures after == initial + contribution * ((n + a) as real)
  {
  }

  /**
   * When the close never changes, the wealth after each day is the initial
   * investment plus one contribution per investing day so far.
   */
  lemma {:induction false} FlatPricesAddContributions(rows: seq<Row>, initial: real, contribution: real, ds: seq<Decision>, k: nat)
    requires NonZeroDivisors(rows) && Compounded(rows, initial, contribution, ds)
    requires forall i :: 0 <= i < |rows| ==> rows[i].close == rows[0].close
    requires k < |ds|
    ensures ds[k].cumulative == initial + contribution * (Investments(ds[..k + 1]) as real)
  {
    var a := if ds[k].invest then 1 else 0;
    var before := CumulativeBefore(ds, initial, k);
    assert ds[k].cumulative == before + contribution * (a as real) by {
      assert CompoundsAt(rows, initial, contribution, ds, k);
      assert PreviousClose(rows, k) == rows[k].close;
      Cancel(ds[k].cumulative - Added(ds[k].invest, contribution), before, rows[k].close);
    }
    var n := Investments(ds[..k]);
    if k > 0 {
      FlatPricesAddContributions(rows, initial, contribution, ds, k - 1);
      assert ds[..k - 1 + 1] == ds[..k];
    } else {
      assert ds[..k] == [];
    }
    InvestmentsStep(ds, k);
    AddOneContribution(initial, contribution, before, ds[k].cumulative, n, a);
  }
}
