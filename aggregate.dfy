/**
 * The dashboard's summary statistics: the totals folded over every row of the
 * dataset, the global click-through rate (as a percentage) and the global cost
 * per acquisition. They are recomputed from the whole dataset each time it changes.
 */
module Aggregate {
  import opened Numbers
  import opened Rows

  /** The accumulator of the fold. */
  datatype Totals = Totals(impressions: real, clicks: real, conversions: real, spend: real, revenue: real)

  const Zero := Totals(0.0, 0.0, 0.0, 0.0, 0.0)

  function Plus(a: Totals, b: Totals): Totals
  {
    Totals(a.impressions + b.impressions, a.clicks + b.clicks, a.conversions + b.conversions,
           a.spend + b.spend, a.revenue + b.revenue)
  }

  /** A summed column counts at its number when it holds one, and as 0 when it is absent. */
  predicate CountedAs(row: Row, key: string, v: real)
  {
    (key in row && row[key].Num? ==> v == row[key].n) && (key !in row ==> v == 0.0)
  }

  /** One row's contribution: each summed column's number, with a missing or falsy value as 0. */
  function RowTotals(row: Row): (t: Totals)
    ensures CountedAs(row, "impressions", t.impressions) && CountedAs(row, "clicks", t.clicks)
    ensures CountedAs(row, "conversions", t.conversions) && CountedAs(row, "spend", t.spend)
    ensures CountedAs(row, "revenue", t.revenue)
  {
    Totals(NumberOr(row, "impressions", 0.0), NumberOr(row, "clicks", 0.0), NumberOr(row, "conversions", 0.0),
           NumberOr(row, "spend", 0.0), NumberOr(row, "revenue", 0.0))
  }

  /** No row of `data` holds a non-zero summed value. */
  predicate NothingToSum(data: seq<Row>)
  {
    forall k :: 0 <= k < |data| ==> RowTotals(data[k]) == Zero
  }

  /** The reduce over the dataset from the zero accumulator, left to right. */
  function Sum(data: seq<Row>): Totals
  {
    if data == [] then Zero else Plus(Sum(data[..|data| - 1]), RowTotals(data[|data| - 1]))
  }

  /** Rows that contribute nothing leave the totals at zero. */
  lemma {:induction false} SumOfNothing(data: seq<Row>)
    requires NothingToSum(data)
    ensures Sum(data) == Zero
  {
    if data != [] {
      var n := |data| - 1;
      forall k | 0 <= k < n ensures RowTotals(data[..n][k]) == Zero {
        assert data[..n][k] == data[k];
      }
      SumOfNothing(data[..n]);
    }
  }

  /** A single row folds to its own contribution. */
  lemma SumSingle(row: Row)
    ensures Sum([row]) == RowTotals(row)
  {
    assert [row][..0] == [];
  }

  /** One step of the reduce: appending a row adds its contribution to the totals. */
  lemma SumStep(data: seq<Row>, row: Row)
    ensures Sum(data + [row]) == Plus(Sum(data), RowTotals(row))
  {
    SumAppend(data, [row]);
    SumSingle(row);
  }

  /** The fold is compatible with concatenation: totals of an appended dataset add up. */
  lemma {:induction false} SumAppend(a: seq<Row>, b: seq<Row>)
    ensures Sum(a + b) == Plus(Sum(a), Sum(b))
  {
    if b == [] {
      assert a + b == a;
    } else {
      var n := |b| - 1;
      assert (a + b)[..|a + b| - 1] == a + b[..n];
      assert (a + b)[|a + b| - 1] == b[n];
      SumAppend(a, b[..n]);
    }
  }

  /** The snapshot shown on the dashboard. */
  datatype Stats = Stats(totals: Totals, ctr: JsNumber, cpa: real)

  /** `q` multiplied back by the divisor `b` gives `a`: what a finite quotient `a / b` satisfies. */
  predicate MultipliesBack(q: real, b: real, a: real)
  {
    q * b == a
  }

  /**
   * The snapshot of some totals: the click total over the impression total as a
   * percentage (unguarded), and the spend over the conversion total, with zero
   * conversions counted as 1.
   */
  function StatsOf(t: Totals): (s: Stats)
    ensures s.totals == t
    ensures s.ctr.Finite? <==> t.impressions != 0.0
    ensures s.ctr.Finite? ==> MultipliesBack(s.ctr.value, t.impressions, t.clicks * 100.0)
    ensures t.impressions == 0.0 && t.clicks == 0.0 ==> s.ctr == NaN
    ensures t.impressions == 0.0 && t.clicks > 0.0 ==> s.ctr == PosInfinity
    ensures t.impressions == 0.0 && t.clicks < 0.0 ==> s.ctr == NegInfinity
    ensures MultipliesBack(s.cpa, if t.conversions != 0.0 then t.conversions else 1.0, t.spend)
  {
    var c := if t.conversions != 0.0 then t.conversions else 1.0;
    var ctr := Times(Divide(t.clicks, t.impressions), 100.0);
    assert ctr.Finite? ==> ctr.value * t.impressions == t.clicks * 100.0 by {
      if t.impressions != 0.0 {
        ScaledTimes(Divide(t.clicks, t.impressions).value, t.impressions, t.clicks);
      }
    }
    QuotientTimes(t.spend, c);
    Stats(t, ctr, t.spend / c)
  }

  /** The `stats` memo: all zeros for an empty dataset, otherwise the snapshot of the totals. */
  function ComputeStats(data: seq<Row>): (s: Stats)
    ensures s.totals == Sum(data)
    ensures |data| > 0 ==> s == StatsOf(Sum(data))
  {
    if |data| == 0 then Stats(Zero, Finite(0.0), 0.0) else StatsOf(Sum(data))
  }

  /** The empty dataset has all-zero totals and zero, finite ratios. */
  lemma StatsOfEmpty()
    ensures ComputeStats([]) == Stats(Zero, Finite(0.0), 0.0)
  {
  }

  lemma QuotientTimes(a: real, b: real)
    requires b != 0.0
    ensures (a / b) * b == a
  {
  }

  lemma QuotientNonNegative(a: real, b: real)
    requires a >= 0.0 && b > 0.0
    ensures a / b >= 0.0
  {
  }

  lemma ScaledTimes(q: real, b: real, a: real)
    requires q * b == a
    ensures (q * 100.0) * b == a * 100.0
  {
  }

  /** The global CTR is a finite number exactly when the dataset is empty or its impressions do not sum to zero. */
  lemma StatsCtrFinite(data: seq<Row>)
    ensures ComputeStats(data).ctr.Finite? <==> |data| == 0 || Sum(data).impressions != 0.0
    ensures |data| > 0 && Sum(data).impressions != 0.0 ==>
      MultipliesBack(ComputeStats(data).ctr.value, Sum(data).impressions, Sum(data).clicks * 100.0)
  {
  }

  /** A non-empty dataset whose impressions sum to zero shows NaN (no clicks) or an infinity (some clicks). */
  lemma StatsCtrWithoutImpressions(data: seq<Row>)
    requires |data| > 0 && Sum(data).impressions == 0.0
    ensures Sum(data).clicks == 0.0 ==> ComputeStats(data).ctr == NaN
    ensures Sum(data).clicks > 0.0 ==> ComputeStats(data).ctr == PosInfinity
  {
  }

  /** The global CPA times the floored conversion total gives back the spend. */
  lemma StatsCpaInverse(data: seq<Row>)
    requires |data| > 0
    ensures MultipliesBack(ComputeStats(data).cpa, if Sum(data).conversions != 0.0 then Sum(data).conversions else 1.0,
                           Sum(data).spend)
  {
  }

  /** Rows appended in either order give the same statistics, so the completion order of two uploads does not matter. */
  lemma StatsOrderIndependent(d: seq<Row>, a: seq<Row>, b: seq<Row>)
    ensures ComputeStats(d + a + b) == ComputeStats(d + b + a)
  {
    SumSwap(d, a, b);
    assert |d + a + b| == |d + b + a|;
  }

  /** Swapping two appended blocks leaves the totals unchanged. */
  lemma SumSwap(d: seq<Row>, a: seq<Row>, b: seq<Row>)
    ensures Sum(d + a + b) == Sum(d + b + a)
  {
    SumAppend(d + a, b);
    SumAppend(d, a);
    SumAppend(d + b, a);
    SumAppend(d, b);
  }

  predicate NonNegativeRow(row: Row)
  {
    && NonNegativeAt(row, "impressions") && NonNegativeAt(row, "clicks") && NonNegativeAt(row, "conversions")
    && NonNegativeAt(row, "spend") && NonNegativeAt(row, "revenue")
  }

  predicate NonNegativeTotals(t: Totals)
  {
    t.impressions >= 0.0 && t.clicks >= 0.0 && t.conversions >= 0.0 && t.spend >= 0.0 && t.revenue >= 0.0
  }

  lemma RowTotalsNonNegative(row: Row)
    requires NonNegativeRow(row)
    ensures NonNegativeTotals(RowTotals(row))
  {
  }

  /** Non-negative rows fold to non-negative totals. */
  lemma {:induction false} SumNonNegative(data: seq<Row>)
    requires forall k :: 0 <= k < |data| ==> NonNegativeRow(data[k])
    ensures NonNegativeTotals(Sum(data))
  {
    if data != [] {
      var n := |data| - 1;
      assert forall k :: 0 <= k < n ==> data[..n][k] == data[k];
      SumNonNegative(data[..n]);
      RowTotalsNonNegative(data[n]);
    }
  }

  /** With non-negative inputs every total, the CPA and any finite CTR are non-negative. */
  lemma StatsNonNegative(data: seq<Row>)
    requires forall k :: 0 <= k < |data| ==> NonNegativeRow(data[k])
    ensures NonNegativeTotals(ComputeStats(data).totals)
    ensures ComputeStats(data).cpa >= 0.0
    ensures ComputeStats(data).ctr.Finite? ==> ComputeStats(data).ctr.value >= 0.0
  {
    SumNonNegative(data);
    if data != [] {
      var t := Sum(data);
      assert ComputeStats(data) == StatsOf(t);
      QuotientNonNegative(t.spend, if t.conversions != 0.0 then t.conversions else 1.0);
      if t.impressions != 0.0 {
        QuotientNonNegative(t.clicks, t.impressions);
      }
    }
  }
}
