/** The bookkeeping `Metrics` performs on a built model: cumulative returns,
    the equity path, final equity, the running peak, drawdown in percent,
    the traded (non-zero) returns, per-year return sums and their mean, and
    the reported maximum drawdown.

    Returns are exact reals. `None` is a NaN return; pandas sums skip NaN, so
    it contributes 0. Each bar carries its calendar year as an `int`. */
module Metrics {
  import opened Missing

  // ---------------------------------------------------------------------------
  // Sums
  // ---------------------------------------------------------------------------

  /** A return's contribution to a sum. */
  function Value(r: Option<real>): real {
    ValueOr(r, 0.0)
  }

  /** Σ r, the reference for every total below. */
  function Sum(r: seq<Option<real>>): real
    decreases |r|
  {
    if |r| == 0 then 0.0 else Sum(r[..|r| - 1]) + Value(r[|r| - 1])
  }

  lemma SumAppend(r: seq<Option<real>>, x: Option<real>)
    ensures Sum(r + [x]) == Sum(r) + Value(x)
  {
    assert (r + [x])[..|r|] == r;
  }

  /** `cumsum`, as a running scan: each bar adds its return to the previous
      bar's total. Bar `t` holds the sum of the returns up to and including
      `t`. */
  function CumSum(r: seq<Option<real>>): (c: seq<real>)
    ensures |c| == |r|
    ensures forall t :: 0 <= t < |r| ==> c[t] == Sum(r[..t + 1])
    decreases |r|
  {
    if |r| == 0 then []
    else
      var init := r[..|r| - 1];
      var before := CumSum(init);
      var total := (if |before| == 0 then 0.0 else before[|before| - 1]) + Value(r[|r| - 1]);
      assert forall t :: 0 <= t < |init| ==> before[t] == Sum(r[..t + 1]) by {
        forall t | 0 <= t < |init| ensures before[t] == Sum(r[..t + 1]) {
          assert init[..t + 1] == r[..t + 1];
        }
      }
      assert r[..|r|] == r;
      assert |before| > 0 ==> init[..|before|] == init;
      before + [total]
  }

  // ---------------------------------------------------------------------------
  // Equity
  // ---------------------------------------------------------------------------

  /** `equity = cumsum * cash + cash`: the capital the cumulative log return
      would leave, without compounding. */
  function Equity(r: seq<Option<real>>, cash: real): (e: seq<real>)
    ensures |e| == |r|
    ensures forall t :: 0 <= t < |r| ==> e[t] == cash + cash * Sum(r[..t + 1])
  {
    var c := CumSum(r);
    seq(|r|, t requires 0 <= t < |r| => c[t] * cash + cash)
  }

  /** `final_equity`, computed from the total return. */
  function FinalEquity(r: seq<Option<real>>, cash: real): real {
    Sum(r) * cash + cash
  }

  /** `net_returns_percent`: the total return in percent, which is also the
      last point of the cumulative return. */
  function NetReturnsPercent(r: seq<Option<real>>): (pct: real)
    ensures |r| > 0 ==> pct == CumSum(r)[|r| - 1] * 100.0
  {
    assert r[..|r|] == r;
    Sum(r) * 100.0
  }

  /** Final equity depends on the returns only through their total. */
  lemma EqualTotalsEqualEquity(a: seq<Option<real>>, b: seq<Option<real>>, cash: real)
    requires Sum(a) == Sum(b)
    ensures FinalEquity(a, cash) == FinalEquity(b, cash)
  {
  }

  /** The final equity, computed from the total, is the last point of the
      equity path. */
  lemma FinalEquityIsLastEquity(r: seq<Option<real>>, cash: real)
    requires |r| > 0
    ensures FinalEquity(r, cash) == Equity(r, cash)[|r| - 1]
  {
    assert r[..|r|] == r;
  }

  // ---------------------------------------------------------------------------
  // Peak and drawdown
  // ---------------------------------------------------------------------------

  /** `v` is one of the equity values up to bar `t`. */
  predicate AttainedBy(e: seq<real>, v: real, t: nat) {
    exists s :: 0 <= s <= t && s < |e| && v == e[s]
  }

  /** `cummax`: the running maximum. Bar `t` is at least every equity value
      up to `t`, and is one of them. */
  function CumMax(e: seq<real>): (p: seq<real>)
    ensures |p| == |e|
    ensures forall s, t :: 0 <= s <= t < |e| ==> e[s] <= p[t]
    ensures forall t :: 0 <= t < |e| ==> AttainedBy(e, p[t], t)
    decreases |e|
  {
    if |e| == 0 then []
    else
      var init := e[..|e| - 1];
      var before := CumMax(init);
      var last := e[|e| - 1];
      var peak := if |before| == 0 || last > before[|before| - 1] then last else before[|before| - 1];
      var p := before + [peak];
      assert forall s :: 0 <= s < |init| ==> init[s] == e[s];
      forall s, t | 0 <= s <= t < |e|
        ensures e[s] <= p[t]
      {
        if t < |e| - 1 {
          assert init[s] <= before[t];
        } else if s < |e| - 1 {
          assert init[s] <= before[t - 1];
        }
      }
      forall t | 0 <= t < |e|
        ensures AttainedBy(e, p[t], t)
      {
        if t < |e| - 1 {
          assert AttainedBy(init, before[t], t);
          var s :| 0 <= s <= t && s < |init| && before[t] == init[s];
          assert p[t] == e[s];
        } else if p[t] == last {
          assert p[t] == e[t];
        } else {
          assert AttainedBy(init, before[t - 1], t - 1);
          var s :| 0 <= s <= t - 1 && s < |init| && before[t - 1] == init[s];
          assert p[t] == e[s];
        }
      }
      p
  }

  /** The peak never falls, never lies below equity, and equals equity on a
      new high. */
  lemma PeakProperties(e: seq<real>, s: nat, t: nat)
    requires s <= t < |e|
    ensures CumMax(e)[s] <= CumMax(e)[t]
    ensures e[t] <= CumMax(e)[t]
    ensures (forall i :: 0 <= i <= t ==> e[i] <= e[t]) ==> CumMax(e)[t] == e[t]
  {
    var p := CumMax(e);
    var i :| 0 <= i <= s && p[s] == e[i];
    assert e[i] <= p[t];
  }

  /** The drawdown in percent of the peak. A zero peak divides by zero, which
      pandas turns into NaN or an infinity; both are `None` here. */
  function Drawdown(e: seq<real>, p: seq<real>): (d: seq<Option<real>>)
    requires |e| == |p|
    ensures |d| == |e|
    ensures forall t :: 0 <= t < |d| ==> (d[t].None? <==> p[t] == 0.0)
  {
    seq(|e|, t requires 0 <= t < |e| =>
      if p[t] == 0.0 then None else Some((e[t] - p[t]) / p[t] * 100.0))
  }

  /** Against its running peak, drawdown is at most 0 while the peak is
      positive, and it is exactly 0 on the bars where equity stands at the
      peak. */
  lemma DrawdownSign(e: seq<real>, t: nat)
    requires t < |e|
    ensures var p := CumMax(e); var d := Drawdown(e, p);
      && (p[t] > 0.0 ==> d[t].Some? && d[t].value <= 0.0)
      && (p[t] != 0.0 ==> (d[t] == Some(0.0) <==> e[t] == p[t]))
  {
    var p := CumMax(e);
    PeakProperties(e, t, t);
    DrawdownAgainst(e, p, t);
  }

  /** Drawdown against any peak series that is not below equity. */
  lemma DrawdownAgainst(e: seq<real>, p: seq<real>, t: nat)
    requires |e| == |p| && t < |e| && e[t] <= p[t]
    ensures p[t] > 0.0 ==> Drawdown(e, p)[t].Some? && Drawdown(e, p)[t].value <= 0.0
    ensures p[t] != 0.0 ==> (Drawdown(e, p)[t] == Some(0.0) <==> e[t] == p[t])
  {
    if p[t] != 0.0 {
      assert Drawdown(e, p)[t] == Some((e[t] - p[t]) / p[t] * 100.0);
      PercentOfPeak(e[t] - p[t], p[t]);
    }
  }

  lemma PercentOfPeak(x: real, p: real)
    requires p != 0.0
    ensures p > 0.0 && x <= 0.0 ==> x / p * 100.0 <= 0.0
    ensures x / p * 100.0 == 0.0 <==> x == 0.0
  {
    var q := x / p;
    assert x == q * p;
    if p > 0.0 && x <= 0.0 {
      assert q <= 0.0;
    }
  }

  lemma DrawdownSignAll(e: seq<real>)
    ensures forall t :: 0 <= t < |e| ==> e[t] <= CumMax(e)[t]
    ensures forall t :: 0 <= t < |e| ==> CumMax(e)[t] > 0.0 ==>
      Drawdown(e, CumMax(e))[t].Some? && Drawdown(e, CumMax(e))[t].value <= 0.0
  {
    forall t | 0 <= t < |e|
      ensures CumMax(e)[t] > 0.0 ==> Drawdown(e, CumMax(e))[t].Some? && Drawdown(e, CumMax(e))[t].value <= 0.0
    {
      DrawdownSign(e, t);
    }
  }

  /** Once the cumulative log return falls below -1, equity and the peak are
      negative and the drawdown is positive: losing 150% and then another 50%
      of 100 in cash reads as a drawdown of +100%. */
  lemma NegativePeakDrawdown()
    ensures var e := Equity([Some(-1.5), Some(-0.5)], 100.0);
      e == [-50.0, -100.0] && Drawdown(e, CumMax(e)) == [Some(0.0), Some(100.0)]
  {
    var r := [Some(-1.5), Some(-0.5)];
    var e := Equity(r, 100.0);
    assert r[..1] == [Some(-1.5)];
    assert r[..2] == r;
    assert e == [-50.0, -100.0];
    var p := CumMax(e);
    assert p[0] == -50.0;
    assert p[1] == -50.0;
  }

  /** The smallest defined drawdown, if any. */
  function MinDefined(d: seq<Option<real>>): (m: Option<real>)
    ensures m.None? <==> forall t :: 0 <= t < |d| ==> d[t].None?
    ensures m.Some? ==> forall t :: 0 <= t < |d| && d[t].Some? ==> m.value <= d[t].value
    ensures m.Some? ==> exists t :: 0 <= t < |d| && d[t] == m
    decreases |d|
  {
    if |d| == 0 then None
    else
      var rest := MinDefined(d[..|d| - 1]);
      var last := d[|d| - 1];
      assert forall t :: 0 <= t < |d| - 1 ==> d[..|d| - 1][t] == d[t];
      if last.None? then rest
      else if rest.None? || last.value < rest.value then last
      else rest
  }

  function Abs(x: real): real {
    if x < 0.0 then -x else x
  }

  /** The reported maximum drawdown, `abs(drawdown.min())`: NaN when no
      drawdown is defined, otherwise the magnitude of the smallest defined
      drawdown, which is non-negative and at least the depth of every
      defined drawdown. */
  function MaxDrawdown(d: seq<Option<real>>): (m: Option<real>)
    ensures m.None? <==> forall t :: 0 <= t < |d| ==> d[t].None?
    ensures m.Some? ==> m.value >= 0.0
    ensures m.Some? ==> forall t :: 0 <= t < |d| && d[t].Some? ==> -d[t].value <= m.value
    ensures m.Some? ==> exists t :: (0 <= t < |d| && d[t].Some? && m.value == Abs(d[t].value) &&
      forall u :: 0 <= u < |d| && d[u].Some? ==> d[t].value <= d[u].value)
  {
    match MinDefined(d)
    case None => None
    case Some(v) =>
      var t :| 0 <= t < |d| && d[t] == Some(v);
      assert d[t].Some? && Abs(v) == Abs(d[t].value);
      Some(Abs(v))
  }

  // ---------------------------------------------------------------------------
  // Traded returns
  // ---------------------------------------------------------------------------

  /** The rows of `query('strategy_returns != 0')`, in order. NaN compares
      unequal to 0, so undefined rows are kept. */
  function Traded(r: seq<Option<real>>): (k: seq<Option<real>>)
    ensures |k| <= |r|
    ensures forall i :: 0 <= i < |k| ==> k[i] != Some(0.0)
    decreases |r|
  {
    if |r| == 0 then []
    else
      var before := Traded(r[..|r| - 1]);
      if r[|r| - 1] == Some(0.0) then before else before + [r[|r| - 1]]
  }

  /** Filtering commutes with concatenation, so the kept rows stay in their
      original order. */
  lemma {:induction false} TradedConcat(a: seq<Option<real>>, b: seq<Option<real>>)
    ensures Traded(a + b) == Traded(a) + Traded(b)
    decreases |b|
  {
    if |b| == 0 {
      assert a + b == a;
    } else {
      var b' := b[..|b| - 1];
      TradedConcat(a, b');
      assert (a + b)[..|a + b| - 1] == a + b';
    }
  }

  /** The traded rows are exactly the rows whose return is not 0. */
  lemma {:induction false} TradedMembers(r: seq<Option<real>>, x: Option<real>)
    ensures x in Traded(r) <==> x in r && x != Some(0.0)
    decreases |r|
  {
    if |r| > 0 {
      var r' := r[..|r| - 1];
      TradedMembers(r', x);
      assert r == r' + [r[|r| - 1]];
    }
  }

  /** Dropping zero returns does not change the total. */
  lemma {:induction false} TradedSum(r: seq<Option<real>>)
    ensures Sum(Traded(r)) == Sum(r)
    decreases |r|
  {
    if |r| > 0 {
      var r' := r[..|r| - 1];
      TradedSum(r');
      if r[|r| - 1] != Some(0.0) {
        SumAppend(Traded(r'), r[|r| - 1]);
      }
    }
  }

  // ---------------------------------------------------------------------------
  // Per-year grouping
  // ---------------------------------------------------------------------------

  /** Σ of the returns whose bar falls in `year`. */
  function YearSum(r: seq<Option<real>>, years: seq<int>, year: int): real
    requires |r| == |years|
    decreases |r|
  {
    if |r| == 0 then 0.0
    else
      YearSum(r[..|r| - 1], years[..|r| - 1], year)
        + (if years[|r| - 1] == year then Value(r[|r| - 1]) else 0.0)
  }

  predicate Distinct(ys: seq<int>) {
    forall i, j :: 0 <= i < j < |ys| ==> ys[i] != ys[j]
  }

  /** The years present, each once, in order of first appearance. */
  function DistinctYears(years: seq<int>): (ds: seq<int>)
    ensures Distinct(ds)
    ensures forall y :: y in ds <==> y in years
    ensures |ds| <= |years|
    decreases |years|
  {
    if |years| == 0 then []
    else
      var before := DistinctYears(years[..|years| - 1]);
      var y := years[|years| - 1];
      assert years == years[..|years| - 1] + [y];
      if y in before then before else before + [y]
  }

  /** One row of the grouped result: a year and its summed return in percent. */
  datatype YearTotal = YearTotal(year: int, percent: real)

  /** `groupby(year).sum() * 100` over the listed years. */
  function GroupBy(r: seq<Option<real>>, years: seq<int>, ds: seq<int>): (g: seq<YearTotal>)
    requires |r| == |years|
    ensures |g| == |ds|
  {
    seq(|ds|, i requires 0 <= i < |ds| => YearTotal(ds[i], YearSum(r, years, ds[i]) * 100.0))
  }

  /** The grouped per-year returns, one row per year present. */
  function Grouped(r: seq<Option<real>>, years: seq<int>): (g: seq<YearTotal>)
    requires |r| == |years|
    ensures |g| > 0 <==> |r| > 0
    ensures forall i :: 0 <= i < |g| ==> g[i].year in years
    ensures forall y :: y in years ==> exists i :: 0 <= i < |g| && g[i].year == y
    ensures forall i, j :: 0 <= i < j < |g| ==> g[i].year != g[j].year
    ensures forall i :: 0 <= i < |g| ==> g[i].percent == YearSum(r, years, g[i].year) * 100.0
  {
    var ds := DistinctYears(years);
    assert |years| > 0 ==> years[0] in ds;
    var g := GroupBy(r, years, ds);
    assert forall i :: 0 <= i < |g| ==> g[i].year == ds[i];
    assert forall y :: y in years ==> exists i :: 0 <= i < |g| && g[i].year == y by {
      forall y | y in years
        ensures exists i :: 0 <= i < |g| && g[i].year == y
      {
        var i :| 0 <= i < |ds| && ds[i] == y;
        assert g[i].year == y;
      }
    }
    g
  }

  /** Σ of the percent column. */
  function TotalPercent(g: seq<YearTotal>): real
    decreases |g|
  {
    if |g| == 0 then 0.0 else TotalPercent(g[..|g| - 1]) + g[|g| - 1].percent
  }

  lemma YearSumAbsent(r: seq<Option<real>>, years: seq<int>, year: int)
    requires |r| == |years|
    requires year !in years
    ensures YearSum(r, years, year) == 0.0
    decreases |r|
  {
    if |r| > 0 {
      YearSumAbsent(r[..|r| - 1], years[..|r| - 1], year);
    }
  }

  lemma YearSumExtend(r: seq<Option<real>>, years: seq<int>, x: Option<real>, y: int, year: int)
    requires |r| == |years|
    ensures YearSum(r + [x], years + [y], year)
      == YearSum(r, years, year) + (if y == year then Value(x) else 0.0)
  {
    assert (r + [x])[..|r|] == r;
    assert (years + [y])[..|r|] == years;
  }

  /** The total over the listed years is the total over all but the last,
      plus the last year's sum. */
  lemma GroupByLast(r: seq<Option<real>>, years: seq<int>, ds: seq<int>)
    requires |r| == |years| && |ds| > 0
    ensures TotalPercent(GroupBy(r, years, ds))
      == TotalPercent(GroupBy(r, years, ds[..|ds| - 1])) + YearSum(r, years, ds[|ds| - 1]) * 100.0
  {
    assert GroupBy(r, years, ds)[..|ds| - 1] == GroupBy(r, years, ds[..|ds| - 1]);
  }

  /** Adding one bar adds its return to the total once, when its year is
      listed (the years are listed at most once each). */
  lemma {:induction false} GroupByExtend(r: seq<Option<real>>, years: seq<int>, x: Option<real>, y: int, ds: seq<int>)
    requires |r| == |years|
    requires Distinct(ds)
    ensures TotalPercent(GroupBy(r + [x], years + [y], ds))
      == TotalPercent(GroupBy(r, years, ds)) + (if y in ds then Value(x) * 100.0 else 0.0)
    decreases |ds|
  {
    if |ds| > 0 {
      var n := |ds|;
      var ds' := ds[..n - 1];
      assert ds == ds' + [ds[n - 1]];
      GroupByExtend(r, years, x, y, ds');
      GroupByLast(r + [x], years + [y], ds);
      GroupByLast(r, years, ds);
      YearSumExtend(r, years, x, y, ds[n - 1]);
      if ds[n - 1] == y {
        assert y !in ds';
      }
    }
  }

  /** The per-year sums in percent add up to the net return in percent. */
  lemma {:induction false} GroupedTotal(r: seq<Option<real>>, years: seq<int>)
    requires |r| == |years|
    ensures TotalPercent(Grouped(r, years)) == NetReturnsPercent(r)
    decreases |r|
  {
    if |r| > 0 {
      var n := |r|;
      var r' := r[..n - 1];
      var years' := years[..n - 1];
      var x := r[n - 1];
      var y := years[n - 1];
      assert r == r' + [x];
      assert years == years' + [y];
      GroupedTotal(r', years');
      var ds' := DistinctYears(years');
      assert years[..n - 1] == years';
      GroupByExtend(r', years', x, y, ds');
      SumAppend(r', x);
      var before := TotalPercent(GroupBy(r', years', ds'));
      assert before == Sum(r') * 100.0;
      if y in ds' {
        assert DistinctYears(years) == ds';
        assert TotalPercent(GroupBy(r, years, ds')) == before + Value(x) * 100.0;
      } else {
        assert DistinctYears(years) == ds' + [y];
        assert TotalPercent(GroupBy(r, years, ds')) == before;
        GroupByLast(r, years, ds' + [y]);
        assert (ds' + [y])[..|ds'|] == ds';
        YearSumAbsent(r', years', y);
        YearSumExtend(r', years', x, y, y);
      }
    }
  }

  /** `annual_mean`: the mean of the per-year sums; NaN for an empty frame. */
  function AnnualMean(r: seq<Option<real>>, years: seq<int>): Option<real>
    requires |r| == |years|
  {
    var g := Grouped(r, years);
    if |g| == 0 then None else Some(TotalPercent(g) / |g| as real)
  }

  /** The annual mean is the net return spread evenly over the years present. */
  lemma AnnualMeanIsNetPerYear(r: seq<Option<real>>, years: seq<int>)
    requires |r| == |years|
    ensures AnnualMean(r, years) ==
      if |r| == 0 then None
      else Some(NetReturnsPercent(r) / |DistinctYears(years)| as real)
  {
    GroupedTotal(r, years);
  }

  // ---------------------------------------------------------------------------
  // The snapshot
  // ---------------------------------------------------------------------------

  datatype MetricsSnapshot = MetricsSnapshot(
    cumulativeReturns: seq<real>,
    netReturnsPercent: real,
    equity: seq<real>,
    finalEquity: real,
    peak: seq<real>,
    drawdown: seq<Option<real>>,
    traded: seq<Option<real>>,
    grouped: seq<YearTotal>,
    annualMean: Option<real>,
    maxDrawdown: Option<real>)

  /** `Metrics.__init__` without the Sharpe ratios, plus the maximum drawdown
      the summary reports. */
  function ComputeMetrics(r: seq<Option<real>>, years: seq<int>, cash: real): (m: MetricsSnapshot)
    requires |r| == |years|
    ensures |m.equity| == |m.peak| == |m.drawdown| == |r|
    // each column is the one its own member defines
    ensures m.cumulativeReturns == CumSum(r) && m.equity == Equity(r, cash)
    ensures m.peak == CumMax(m.equity) && m.drawdown == Drawdown(m.equity, m.peak)
    ensures m.traded == Traded(r) && m.grouped == Grouped(r, years)
    ensures m.annualMean == AnnualMean(r, years) && m.maxDrawdown == MaxDrawdown(m.drawdown)
    ensures m.netReturnsPercent == Sum(r) * 100.0 && m.finalEquity == FinalEquity(r, cash)
    ensures |r| > 0 ==> m.finalEquity == m.equity[|r| - 1]
    ensures Sum(m.traded) * 100.0 == m.netReturnsPercent
    ensures TotalPercent(m.grouped) == m.netReturnsPercent
  {
    var equity := Equity(r, cash);
    var peak := CumMax(equity);
    var drawdown := Drawdown(equity, peak);
    var net := Sum(r) * 100.0;
    assert |r| > 0 ==> FinalEquity(r, cash) == equity[|r| - 1] by {
      if |r| > 0 { FinalEquityIsLastEquity(r, cash); }
    }
    assert Sum(Traded(r)) * 100.0 == net by {
      TradedSum(r);
    }
    assert TotalPercent(Grouped(r, years)) == net by {
      GroupedTotal(r, years);
    }
    MetricsSnapshot(CumSum(r), net, equity, FinalEquity(r, cash), peak, drawdown,
      Traded(r), Grouped(r, years), AnnualMean(r, years), MaxDrawdown(drawdown))
  }

  /** In a snapshot, equity never exceeds the peak, the drawdown is at most 0
      wherever the peak is positive, and the reported maximum drawdown is a
      non-negative magnitude, NaN only when no drawdown is defined. */
  lemma SnapshotDrawdown(r: seq<Option<real>>, years: seq<int>, cash: real)
    requires |r| == |years|
    ensures var m := ComputeMetrics(r, years, cash);
      && (forall t :: 0 <= t < |r| ==> m.equity[t] <= m.peak[t])
      && (forall t :: 0 <= t < |r| ==> m.peak[t] > 0.0 ==> m.drawdown[t].Some? && m.drawdown[t].value <= 0.0)
      && (m.maxDrawdown.Some? ==> m.maxDrawdown.value >= 0.0)
      && (m.maxDrawdown.None? <==> forall t :: 0 <= t < |r| ==> m.drawdown[t].None?)
  {
    DrawdownSignAll(Equity(r, cash));
  }

  /** When the first bar earns nothing and the deposit is positive, equity
      starts at the deposit, the peak never falls below it, and so every
      drawdown of the snapshot is defined and at most 0. */
  lemma FlatStartDrawdown(r: seq<Option<real>>, years: seq<int>, cash: real)
    requires |r| == |years| && cash > 0.0
    requires |r| > 0 ==> r[0].None?
    ensures var m := ComputeMetrics(r, years, cash);
      forall t :: 0 <= t < |r| ==> m.drawdown[t].Some? && m.drawdown[t].value <= 0.0
  {
    if |r| > 0 {
      var e := Equity(r, cash);
      var p := CumMax(e);
      assert Sum(r[..1]) == 0.0 by {
        assert r[..1][..0] == [];
      }
      assert e[0] == cash;
      forall t | 0 <= t < |r|
        ensures p[t] > 0.0
      {
        assert e[0] <= p[t];
      }
      DrawdownSignAll(e);
    }
  }
}
