/** A whole simulation run, as `MeanReversion.__init__` wires it: the model
    is built from the z-scores and log returns, and the metrics are computed
    from its strategy returns. */
module Simulation {
  import opened Missing
  import MeanReversion
  import Metrics

  datatype Run = Run(frame: MeanReversion.ModelFrame, metrics: Metrics.MetricsSnapshot)

  /** One simulation over bars with their z-score, log return and year. Only
      the bars entered long earn anything, so the reported net return and the
      final equity are those of the long bars' log returns. */
  function Simulate(zs: seq<Option<real>>, logReturns: seq<Option<real>>, years: seq<int>, cash: real): (run: Run)
    requires |zs| == |logReturns| == |years|
    ensures run.frame == MeanReversion.BuildModel(zs, logReturns)
    ensures run.metrics == Metrics.ComputeMetrics(run.frame.strategyReturns, years, cash)
    ensures |run.frame.signal| == |run.frame.strategyReturns| == |run.metrics.equity| == |zs|
    ensures run.metrics.netReturnsPercent ==
      Metrics.Sum(LongBarReturns(run.frame.signal, logReturns)) * 100.0
    ensures run.metrics.finalEquity ==
      Metrics.FinalEquity(LongBarReturns(run.frame.signal, logReturns), cash)
  {
    var frame := MeanReversion.BuildModel(zs, logReturns);
    NetReturnIsLongBars(zs, logReturns);
    var m := Metrics.ComputeMetrics(frame.strategyReturns, years, cash);
    var longBars := LongBarReturns(frame.signal, logReturns);
    Metrics.EqualTotalsEqualEquity(frame.strategyReturns, longBars, cash);
    Run(frame, m)
  }

  /** The log returns of the bars entered long, `None` on every other bar. */
  function LongBarReturns(signal: seq<Option<int>>, logReturns: seq<Option<real>>): (r: seq<Option<real>>)
    requires |signal| == |logReturns|
    ensures |r| == |signal|
  {
    seq(|signal|, t requires 0 <= t < |signal| => if signal[t] == Some(1) then logReturns[t] else None)
  }

  lemma {:induction false} SumPointwise(a: seq<Option<real>>, b: seq<Option<real>>)
    requires |a| == |b|
    requires forall t :: 0 <= t < |a| ==> Metrics.Value(a[t]) == Metrics.Value(b[t])
    ensures Metrics.Sum(a) == Metrics.Sum(b)
    decreases |a|
  {
    if |a| > 0 {
      SumPointwise(a[..|a| - 1], b[..|b| - 1]);
    }
  }

  /** Only long bars earn anything: the strategy returns add up to the sum of
      the log returns over the bars whose lagged signal is +1. */
  lemma NetReturnIsLongBars(zs: seq<Option<real>>, logReturns: seq<Option<real>>)
    requires |zs| == |logReturns|
    ensures var frame := MeanReversion.BuildModel(zs, logReturns);
      Metrics.Sum(frame.strategyReturns) == Metrics.Sum(LongBarReturns(frame.signal, logReturns))
  {
    var frame := MeanReversion.BuildModel(zs, logReturns);
    var longBars := LongBarReturns(frame.signal, logReturns);
    forall t | 0 <= t < |zs|
      ensures Metrics.Value(frame.strategyReturns[t]) == Metrics.Value(longBars[t])
    {
      var sr := frame.strategyReturns[t];
      if sr.Some? {
        assert frame.signal[t].Some?;
      }
    }
    SumPointwise(frame.strategyReturns, longBars);
  }

  /** In a run, bar 0 has no signal and earns nothing, so equity starts at
      the cash deposit and the peak never falls below it: with a positive
      deposit, every drawdown of a run is defined and at most 0, even when
      equity later turns negative. */
  lemma RunDrawdownNonPositive(zs: seq<Option<real>>, logReturns: seq<Option<real>>, years: seq<int>, cash: real)
    requires |zs| == |logReturns| == |years| && cash > 0.0
    ensures var m := Simulate(zs, logReturns, years, cash).metrics;
      forall t :: 0 <= t < |zs| ==> m.drawdown[t].Some? && m.drawdown[t].value <= 0.0
  {
    var r := MeanReversion.BuildModel(zs, logReturns).strategyReturns;
    Metrics.FlatStartDrawdown(r, years, cash);
  }
}
