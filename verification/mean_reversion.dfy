/** The signal model of a mean-reversion backtest: from a per-bar z-score of
    the price spread it derives a long latch and a short latch (each with
    entry/exit hysteresis), their sum as the trading signal, the signal lagged
    by one bar, and the strategy's per-bar returns with short bars masked out.

    The z-score itself (exponentially weighted means and deviations of the
    spread) and the log returns are inputs: `None` marks a bar where pandas
    holds NaN (warm-up, a zero deviation, or the first bar's log return). */
module MeanReversion {
  import opened Missing

  // ---------------------------------------------------------------------------
  // Entry and exit conditions
  // ---------------------------------------------------------------------------

  /** The two entry bands: long below `lower`, short above `upper`. */
  datatype Thresholds = Thresholds(lower: real, upper: real)

  /** The bands this revision hard-codes: -1 and +1. */
  const SourceThresholds: Thresholds := Thresholds(-1.0, 1.0)

  datatype Side = Long | Short

  /** The position a side's latch holds once entered. */
  function Level(side: Side): int {
    match side
    case Long => 1
    case Short => -1
  }

  /** The entry mask. A comparison with NaN is false, so `None` never enters. */
  predicate Entry(side: Side, th: Thresholds, z: Option<real>) {
    match z
    case None => false
    case Some(v) =>
      match side
      case Long => v < th.lower
      case Short => v > th.upper
  }

  /** The exit mask: the z-score has come back to (or across) zero. */
  predicate Exit(side: Side, z: Option<real>) {
    match z
    case None => false
    case Some(v) =>
      match side
      case Long => v >= 0.0
      case Short => v <= 0.0
  }

  // ---------------------------------------------------------------------------
  // The latch as the source computes it: marks, forward fill, fill with 0
  // ---------------------------------------------------------------------------

  /** The side's column after the two masked assignments: NaN everywhere, the
      level where the entry mask holds, then 0 where the exit mask holds (the
      exit assignment comes second, so it wins). */
  function Mark(side: Side, th: Thresholds, z: Option<real>): Option<int> {
    if Exit(side, z) then Some(0)
    else if Entry(side, th, z) then Some(Level(side))
    else None
  }

  function Marks(side: Side, th: Thresholds, zs: seq<Option<real>>): (m: seq<Option<int>>)
    ensures |m| == |zs|
  {
    seq(|zs|, i requires 0 <= i < |zs| => Mark(side, th, zs[i]))
  }

  /** The value a forward fill puts at bar `t`: the latest defined mark at or
      before `t`, if any. */
  function LastDefined(m: seq<Option<int>>, t: int): (r: Option<int>)
    requires -1 <= t < |m|
    ensures r.None? <==> forall i :: 0 <= i <= t ==> m[i].None?
    ensures r.Some? ==>
      exists i :: 0 <= i <= t && m[i] == r && forall j :: i < j <= t ==> m[j].None?
    decreases t + 1
  {
    if t < 0 then None
    else if m[t].Some? then m[t]
    else LastDefined(m, t - 1)
  }

  /** pandas `ffill`. */
  function ForwardFill(m: seq<Option<int>>): (f: seq<Option<int>>)
    ensures |f| == |m|
  {
    seq(|m|, t requires 0 <= t < |m| => LastDefined(m, t))
  }

  /** pandas `fillna(d)`. */
  function FillNa(m: seq<Option<int>>, d: int): (f: seq<int>)
    ensures |f| == |m|
  {
    seq(|m|, t requires 0 <= t < |m| => ValueOr(m[t], d))
  }

  /** `attach_signal`: the position column of one side. */
  function AttachSignal(side: Side, th: Thresholds, zs: seq<Option<real>>): (pos: seq<int>)
    ensures |pos| == |zs|
    ensures forall t :: 0 <= t < |pos| ==> pos[t] == 0 || pos[t] == Level(side)
  {
    FillNa(ForwardFill(Marks(side, th, zs)), 0)
  }

  // ---------------------------------------------------------------------------
  // The latch as a state machine, one step per bar
  // ---------------------------------------------------------------------------

  /** One bar of a latch: exit flattens, otherwise entry sets the level,
      otherwise the position is held. */
  function Step(side: Side, th: Thresholds, prev: int, z: Option<real>): int {
    if Exit(side, z) then 0
    else if Entry(side, th, z) then Level(side)
    else prev
  }

  /** The latch scanned over the bars, starting flat. */
  function Latch(side: Side, th: Thresholds, zs: seq<Option<real>>): (pos: seq<int>)
    ensures |pos| == |zs|
    decreases |zs|
  {
    if |zs| == 0 then []
    else
      var before := Latch(side, th, zs[..|zs| - 1]);
      before + [Step(side, th, if |before| == 0 then 0 else before[|before| - 1], zs[|zs| - 1])]
  }

  lemma {:induction false} LastDefinedPrefix(m: seq<Option<int>>, k: nat, t: int)
    requires -1 <= t < k <= |m|
    ensures LastDefined(m[..k], t) == LastDefined(m, t)
    decreases t + 1
  {
    if t >= 0 {
      assert m[..k][t] == m[t];
      if m[t].None? {
        LastDefinedPrefix(m, k, t - 1);
      }
    }
  }

  lemma {:induction false} LatchPrefix(side: Side, th: Thresholds, zs: seq<Option<real>>, k: nat)
    requires k <= |zs|
    ensures Latch(side, th, zs[..k]) == Latch(side, th, zs)[..k]
    decreases |zs|
  {
    if k < |zs| {
      var init := zs[..|zs| - 1];
      LatchPrefix(side, th, init, k);
      assert init[..k] == zs[..k];
      assert Latch(side, th, zs)[..k] == Latch(side, th, init)[..k];
    } else {
      assert zs[..k] == zs;
    }
  }

  /** Dropping the last bar leaves the earlier positions unchanged. */
  lemma AttachSignalInit(side: Side, th: Thresholds, zs: seq<Option<real>>, t: nat)
    requires t < |zs| - 1
    ensures AttachSignal(side, th, zs)[t] == AttachSignal(side, th, zs[..|zs| - 1])[t]
  {
    var m := Marks(side, th, zs);
    assert Marks(side, th, zs[..|zs| - 1]) == m[..|zs| - 1];
    LastDefinedPrefix(m, |zs| - 1, t);
  }

  /** The last position is one latch step from the one before. */
  lemma AttachSignalLast(side: Side, th: Thresholds, zs: seq<Option<real>>)
    requires |zs| > 0
    ensures
      var pos := AttachSignal(side, th, zs);
      pos[|zs| - 1] == Step(side, th, if |zs| == 1 then 0 else pos[|zs| - 2], zs[|zs| - 1])
  {
    var m := Marks(side, th, zs);
    assert m[|zs| - 1] == Mark(side, th, zs[|zs| - 1]);
  }

  /** The source's fill-based latch and the state machine agree on every
      input. */
  lemma {:induction false} AttachSignalIsLatch(side: Side, th: Thresholds, zs: seq<Option<real>>)
    ensures AttachSignal(side, th, zs) == Latch(side, th, zs)
    decreases |zs|
  {
    if |zs| > 0 {
      var n := |zs|;
      var init := zs[..n - 1];
      AttachSignalIsLatch(side, th, init);
      var a := AttachSignal(side, th, zs);
      var l := Latch(side, th, zs);
      forall t | 0 <= t < n - 1
        ensures a[t] == l[t]
      {
        AttachSignalInit(side, th, zs, t);
      }
      AttachSignalLast(side, th, zs);
      if n > 1 {
        AttachSignalInit(side, th, zs, n - 2);
      }
      assert a[n - 1] == l[n - 1];
    }
  }

  /** The latch at bar `t` is the step from bar `t - 1` (flat before bar 0). */
  lemma PositionRecurrence(side: Side, th: Thresholds, zs: seq<Option<real>>, t: nat)
    requires t < |zs|
    ensures
      var pos := AttachSignal(side, th, zs);
      pos[t] == Step(side, th, if t == 0 then 0 else pos[t - 1], zs[t])
  {
    AttachSignalIsLatch(side, th, zs);
    var pos := Latch(side, th, zs);
    var before := Latch(side, th, zs[..t]);
    assert zs[..t + 1][..t] == zs[..t] && zs[..t + 1][t] == zs[t];
    assert Latch(side, th, zs[..t + 1]) ==
      before + [Step(side, th, if |before| == 0 then 0 else before[|before| - 1], zs[t])];
    LatchPrefix(side, th, zs, t + 1);
    assert pos[t] == Latch(side, th, zs[..t + 1])[t];
    LatchPrefix(side, th, zs, t);
    assert before == pos[..t];
  }

  // ---------------------------------------------------------------------------
  // Properties of the latches
  // ---------------------------------------------------------------------------

  /** The long position: 1 below the lower band, 0 at or above zero, and
      otherwise (including an undefined z-score) the previous bar's value,
      0 before the first bar. */
  lemma LongPosition(th: Thresholds, zs: seq<Option<real>>, t: nat)
    requires t < |zs|
    ensures
      var pos := AttachSignal(Long, th, zs);
      var prev := if t == 0 then 0 else pos[t - 1];
      && (zs[t].None? ==> pos[t] == prev)
      && (zs[t].Some? && zs[t].value >= 0.0 ==> pos[t] == 0)
      && (zs[t].Some? && zs[t].value < 0.0 && zs[t].value < th.lower ==> pos[t] == 1)
      && (zs[t].Some? && th.lower <= zs[t].value < 0.0 ==> pos[t] == prev)
  {
    PositionRecurrence(Long, th, zs, t);
  }

  /** The short position: -1 above the upper band, 0 at or below zero, and
      otherwise the previous bar's value, 0 before the first bar. */
  lemma ShortPosition(th: Thresholds, zs: seq<Option<real>>, t: nat)
    requires t < |zs|
    ensures
      var pos := AttachSignal(Short, th, zs);
      var prev := if t == 0 then 0 else pos[t - 1];
      && (zs[t].None? ==> pos[t] == prev)
      && (zs[t].Some? && zs[t].value <= 0.0 ==> pos[t] == 0)
      && (zs[t].Some? && zs[t].value > 0.0 && zs[t].value > th.upper ==> pos[t] == -1)
      && (zs[t].Some? && 0.0 < zs[t].value <= th.upper ==> pos[t] == prev)
  {
    PositionRecurrence(Short, th, zs, t);
  }

  /** Exit is assigned after entry, so a bar meeting both masks is flat. With
      the source's bands (-1, +1) no z-score meets both masks, so this only
      matters for bands that overlap the exit region, such as a lower band
      above 0. */
  lemma ExitWins(side: Side, th: Thresholds, zs: seq<Option<real>>, t: nat)
    requires t < |zs|
    requires Entry(side, th, zs[t]) && Exit(side, zs[t])
    ensures AttachSignal(side, th, zs)[t] == 0
  {
    PositionRecurrence(side, th, zs, t);
  }

  /** Hysteresis: a side holds its level at bar `t` exactly when it entered at
      some bar `s <= t` and no exit has occurred since. */
  lemma Hysteresis(side: Side, th: Thresholds, zs: seq<Option<real>>, t: nat)
    requires t < |zs|
    ensures AttachSignal(side, th, zs)[t] == Level(side) <==>
      exists s :: 0 <= s <= t && Entry(side, th, zs[s]) && !Exit(side, zs[s]) &&
        forall i :: s < i <= t ==> !Exit(side, zs[i])
  {
    var m := Marks(side, th, zs);
    var r := LastDefined(m, t);
    assert AttachSignal(side, th, zs)[t] == ValueOr(r, 0);
    if AttachSignal(side, th, zs)[t] == Level(side) {
      var i :| 0 <= i <= t && m[i] == r && forall j :: i < j <= t ==> m[j].None?;
      assert m[i] == Mark(side, th, zs[i]);
      forall j | i < j <= t
        ensures !Exit(side, zs[j])
      {
        assert m[j] == Mark(side, th, zs[j]);
      }
    }
    if exists s :: 0 <= s <= t && Entry(side, th, zs[s]) && !Exit(side, zs[s]) &&
        forall i :: s < i <= t ==> !Exit(side, zs[i]) {
      var s :| 0 <= s <= t && Entry(side, th, zs[s]) && !Exit(side, zs[s]) &&
        forall i :: s < i <= t ==> !Exit(side, zs[i]);
      assert m[s] == Mark(side, th, zs[s]);
      var i :| 0 <= i <= t && m[i] == r && forall j :: i < j <= t ==> m[j].None?;
      assert s <= i;
      assert m[i] == Mark(side, th, zs[i]);
    }
  }

  /** A worked example: with the source's bands,
      z = [-1.5, -0.5, 0.2, -0.3, 0.1] gives long positions [1, 1, 0, 0, 0]. */
  lemma HysteresisExample()
    ensures AttachSignal(Long, SourceThresholds,
      [Some(-1.5), Some(-0.5), Some(0.2), Some(-0.3), Some(0.1)]) == [1, 1, 0, 0, 0]
  {
    var zs := [Some(-1.5), Some(-0.5), Some(0.2), Some(-0.3), Some(0.1)];
    var pos := AttachSignal(Long, SourceThresholds, zs);
    LongPosition(SourceThresholds, zs, 0);
    LongPosition(SourceThresholds, zs, 1);
    LongPosition(SourceThresholds, zs, 2);
    LongPosition(SourceThresholds, zs, 3);
    LongPosition(SourceThresholds, zs, 4);
    assert pos == [1, 1, 0, 0, 0];
  }

  /** The long and the short latch are never both non-zero, whatever the
      bands: every entry of one side lies in the other side's exit zone, and
      a held bar with a defined z-score is an exit bar for one of them. */
  lemma {:induction false} SidesExclusive(th: Thresholds, zs: seq<Option<real>>, t: nat)
    requires t < |zs|
    ensures AttachSignal(Long, th, zs)[t] == 0 || AttachSignal(Short, th, zs)[t] == 0
  {
    PositionRecurrence(Long, th, zs, t);
    PositionRecurrence(Short, th, zs, t);
    if t > 0 {
      SidesExclusive(th, zs, t - 1);
    }
  }

  /** An undefined z-score everywhere (too short a series, or a constant
      close) leaves both latches flat throughout. */
  lemma UndefinedIsFlat(side: Side, th: Thresholds, zs: seq<Option<real>>)
    requires forall t :: 0 <= t < |zs| ==> zs[t].None?
    ensures forall t :: 0 <= t < |zs| ==> AttachSignal(side, th, zs)[t] == 0
  {
    forall t | 0 <= t < |zs|
      ensures AttachSignal(side, th, zs)[t] == 0
    {
      Hysteresis(side, th, zs, t);
    }
  }

  // ---------------------------------------------------------------------------
  // Signal, lag and strategy returns
  // ---------------------------------------------------------------------------

  lemma SidesExclusiveAll(th: Thresholds, zs: seq<Option<real>>)
    ensures forall t :: 0 <= t < |zs| ==>
      AttachSignal(Long, th, zs)[t] == 0 || AttachSignal(Short, th, zs)[t] == 0
  {
    forall t | 0 <= t < |zs|
      ensures AttachSignal(Long, th, zs)[t] == 0 || AttachSignal(Short, th, zs)[t] == 0
    {
      SidesExclusive(th, zs, t);
    }
  }

  /** The unlagged signal, long position plus short position. It stays in
      {-1, 0, 1} and names the side that is in the market. */
  function RawSignal(th: Thresholds, zs: seq<Option<real>>): (s: seq<int>)
    ensures |s| == |zs|
    ensures forall t :: 0 <= t < |s| ==> -1 <= s[t] <= 1
    ensures forall t :: 0 <= t < |s| ==>
      && (s[t] == 1 <==> AttachSignal(Long, th, zs)[t] == 1)
      && (s[t] == -1 <==> AttachSignal(Short, th, zs)[t] == -1)
  {
    var long := AttachSignal(Long, th, zs);
    var short := AttachSignal(Short, th, zs);
    SidesExclusiveAll(th, zs);
    seq(|zs|, t requires 0 <= t < |zs| => long[t] + short[t])
  }

  /** pandas `shift(1)`: the value of bar `t - 1` moves to bar `t`, bar 0
      becomes NaN. */
  function Lag(s: seq<int>): (lagged: seq<Option<int>>)
    ensures |lagged| == |s|
    ensures |s| > 0 ==> lagged[0].None?
    ensures forall t :: 1 <= t < |s| ==> lagged[t] == Some(s[t - 1])
  {
    if |s| == 0 then []
    else [None] + seq(|s| - 1, i requires 0 <= i < |s| - 1 => Some(s[i]))
  }

  /** Element-wise `signal * log_returns`; NaN in either operand gives NaN. */
  function Multiply(signal: seq<Option<int>>, logReturns: seq<Option<real>>): (r: seq<Option<real>>)
    requires |signal| == |logReturns|
    ensures |r| == |signal|
  {
    seq(|signal|, t requires 0 <= t < |signal| =>
      if signal[t].Some? && logReturns[t].Some?
      then Some(signal[t].value as real * logReturns[t].value)
      else None)
  }

  /** The masked assignment: 0 wherever the lagged signal equals -1. A NaN
      signal is not equal to -1, and a NaN return under a -1 signal is
      overwritten by 0 all the same. */
  function MaskShorts(signal: seq<Option<int>>, ret: seq<Option<real>>): (r: seq<Option<real>>)
    requires |signal| == |ret|
    ensures |r| == |ret|
  {
    seq(|ret|, t requires 0 <= t < |ret| =>
      if signal[t] == Some(-1) then Some(0.0) else ret[t])
  }

  /** `strategy_returns`: the lagged signal times the log return, then set to
      0 wherever the lagged signal is -1. Read per value of the signal: short
      bars earn 0, long bars earn the log return, flat bars earn 0 (NaN when
      the log return is NaN), and bars without a signal earn NaN. */
  function StrategyReturns(signal: seq<Option<int>>, logReturns: seq<Option<real>>): (r: seq<Option<real>>)
    requires |signal| == |logReturns|
    ensures |r| == |signal|
    ensures forall t :: 0 <= t < |r| ==> signal[t] == Some(-1) ==> r[t] == Some(0.0)
    ensures forall t :: 0 <= t < |r| ==> signal[t] == Some(1) ==> r[t] == logReturns[t]
    ensures forall t :: 0 <= t < |r| ==> signal[t] == Some(0) ==>
      r[t] == if logReturns[t].Some? then Some(0.0) else None
    ensures forall t :: 0 <= t < |r| ==> signal[t].None? ==> r[t].None?
  {
    MaskShorts(signal, Multiply(signal, logReturns))
  }

  /** The lagged signal at bar `t` is the sum of the two positions at bar
      `t - 1`. */
  lemma LaggedPositions(th: Thresholds, zs: seq<Option<real>>)
    ensures forall t :: 1 <= t < |zs| ==>
      Lag(RawSignal(th, zs))[t] == Some(AttachSignal(Long, th, zs)[t - 1] + AttachSignal(Short, th, zs)[t - 1])
  {
    var raw := RawSignal(th, zs);
    forall t | 1 <= t < |zs|
      ensures Lag(raw)[t] == Some(AttachSignal(Long, th, zs)[t - 1] + AttachSignal(Short, th, zs)[t - 1])
    {
      assert Lag(raw)[t] == Some(raw[t - 1]);
    }
  }

  /** Lagging a signal in -1..1 keeps it in -1..1 where it is defined. */
  lemma LagInRange(raw: seq<int>)
    requires forall t :: 0 <= t < |raw| ==> -1 <= raw[t] <= 1
    ensures forall t :: 0 <= t < |raw| ==> Lag(raw)[t].None? || -1 <= Lag(raw)[t].value <= 1
  {
    forall t | 1 <= t < |raw|
      ensures -1 <= Lag(raw)[t].value <= 1
    {
      assert Lag(raw)[t] == Some(raw[t - 1]);
    }
  }

  /** With a signal in -1..1, every defined strategy return is 0 or the
      bar's log return. */
  lemma ReturnIsZeroOrLog(signal: seq<Option<int>>, logReturns: seq<Option<real>>)
    requires |signal| == |logReturns|
    requires forall t :: 0 <= t < |signal| ==> signal[t].None? || -1 <= signal[t].value <= 1
    ensures var sr := StrategyReturns(signal, logReturns);
      forall t :: 0 <= t < |sr| ==> sr[t].Some? ==> sr[t].value == 0.0 || sr[t] == logReturns[t]
  {
    var sr := StrategyReturns(signal, logReturns);
    forall t | 0 <= t < |sr| && signal[t].Some?
      ensures sr[t].Some? ==> sr[t].value == 0.0 || sr[t] == logReturns[t]
    {
      assert signal[t] == Some(-1) || signal[t] == Some(0) || signal[t] == Some(1);
    }
  }

  /** The columns `build_model` derives from the z-score and log returns. */
  datatype ModelFrame = ModelFrame(
    longPos: seq<int>,
    shortPos: seq<int>,
    signal: seq<Option<int>>,
    strategyReturns: seq<Option<real>>)

  /** `build_model` from the z-score on, with the source's bands. */
  function BuildModel(zs: seq<Option<real>>, logReturns: seq<Option<real>>): (f: ModelFrame)
    requires |zs| == |logReturns|
    ensures |f.longPos| == |f.shortPos| == |f.signal| == |f.strategyReturns| == |zs|
    // the positions are the two latches over the z-scores, with the source's bands
    ensures f.longPos == AttachSignal(Long, SourceThresholds, zs)
    ensures f.shortPos == AttachSignal(Short, SourceThresholds, zs)
    // the realized signal is the previous bar's position; bar 0 has none
    ensures |zs| > 0 ==> f.signal[0].None? && f.strategyReturns[0].None?
    ensures forall t :: 1 <= t < |zs| ==>
      f.signal[t] == Some(f.longPos[t - 1] + f.shortPos[t - 1])
    ensures forall t :: 0 <= t < |zs| ==>
      f.signal[t].None? || -1 <= f.signal[t].value <= 1
    // short bars are masked to a zero return; any other defined return is
    // either 0 or the bar's log return
    ensures forall t :: 0 <= t < |zs| ==>
      f.signal[t] == Some(-1) ==> f.strategyReturns[t] == Some(0.0)
    ensures forall t :: 0 <= t < |zs| ==>
      f.signal[t] == Some(1) ==> f.strategyReturns[t] == logReturns[t]
    ensures forall t :: 0 <= t < |zs| ==>
      f.signal[t] == Some(0) ==> f.strategyReturns[t] == if logReturns[t].Some? then Some(0.0) else None
    ensures forall t :: 0 <= t < |zs| ==>
      f.strategyReturns[t].Some? ==>
        f.strategyReturns[t].value == 0.0 || f.strategyReturns[t] == logReturns[t]
  {
    var long := AttachSignal(Long, SourceThresholds, zs);
    var short := AttachSignal(Short, SourceThresholds, zs);
    var raw := RawSignal(SourceThresholds, zs);
    var signal := Lag(raw);
    var sr := StrategyReturns(signal, logReturns);
    LaggedPositions(SourceThresholds, zs);
    LagInRange(raw);
    ReturnIsZeroOrLog(signal, logReturns);
    ModelFrame(long, short, signal, sr)
  }

  /** The latches never look ahead: their first `k` bars depend only on the
      first `k` z-scores. */
  lemma AttachSignalPrefix(side: Side, th: Thresholds, zs: seq<Option<real>>, k: nat)
    requires k <= |zs|
    ensures AttachSignal(side, th, zs[..k]) == AttachSignal(side, th, zs)[..k]
  {
    AttachSignalIsLatch(side, th, zs);
    AttachSignalIsLatch(side, th, zs[..k]);
    LatchPrefix(side, th, zs, k);
  }

  /** No look-ahead: the strategy return at bar `t` is determined by the
      z-scores strictly before `t` and the log return of bar `t`. */
  lemma NoLookAhead(zs1: seq<Option<real>>, lr1: seq<Option<real>>,
                    zs2: seq<Option<real>>, lr2: seq<Option<real>>, t: nat)
    requires |zs1| == |lr1| && |zs2| == |lr2|
    requires t < |zs1| && t < |zs2|
    requires zs1[..t] == zs2[..t] && lr1[t] == lr2[t]
    ensures BuildModel(zs1, lr1).strategyReturns[t] == BuildModel(zs2, lr2).strategyReturns[t]
  {
    var f1 := BuildModel(zs1, lr1);
    var f2 := BuildModel(zs2, lr2);
    if t > 0 {
      assert f1.signal[t] == f2.signal[t] by {
        AttachSignalPrefix(Long, SourceThresholds, zs1, t);
        AttachSignalPrefix(Long, SourceThresholds, zs2, t);
        AttachSignalPrefix(Short, SourceThresholds, zs1, t);
        AttachSignalPrefix(Short, SourceThresholds, zs2, t);
        assert AttachSignal(Long, SourceThresholds, zs1)[t - 1] == AttachSignal(Long, SourceThresholds, zs1[..t])[t - 1];
        assert AttachSignal(Short, SourceThresholds, zs1)[t - 1] == AttachSignal(Short, SourceThresholds, zs1[..t])[t - 1];
      }
      var v := f1.signal[t].value;
      assert v == -1 || v == 0 || v == 1;
    }
  }

  // ---------------------------------------------------------------------------
  // Column check
  // ---------------------------------------------------------------------------

  /** The price columns a frame must carry, in lower case. */
  const RequiredColumns: seq<string> := ["open", "high", "low", "close"]

  /** `columns_valid`: every required name is one of the columns, compared
      exactly (case-sensitively). */
  method ColumnsValid(columns: seq<string>) returns (valid: bool)
    ensures valid <==> forall i :: 0 <= i < |RequiredColumns| ==> RequiredColumns[i] in columns
  {
    var k := 0;
    while k < |RequiredColumns|
      invariant 0 <= k <= |RequiredColumns|
      invariant forall i :: 0 <= i < k ==> RequiredColumns[i] in columns
    {
      if RequiredColumns[k] !in columns {
        return false;
      }
      k := k + 1;
    }
    return true;
  }

  /** `str.lower` on one character, for the ASCII letters. */
  function LowerChar(c: char): char {
    if 'A' <= c <= 'Z' then (c as int - 'A' as int + 'a' as int) as char else c
  }

  function Lower(s: string): (r: string)
    ensures |r| == |s|
  {
    seq(|s|, i requires 0 <= i < |s| => LowerChar(s[i]))
  }

  /** The constructor lower-cases the column names before the model is built. */
  function LowerColumns(columns: seq<string>): (r: seq<string>)
    ensures |r| == |columns|
  {
    seq(|columns|, i requires 0 <= i < |columns| => Lower(columns[i]))
  }

  predicate IsUpper(c: char) {
    'A' <= c <= 'Z'
  }

  /** `c` spells `name` up to ASCII case: each character is the same, or is
      the capital of a lower-case letter of `name`. */
  predicate SpellsIgnoringCase(c: string, name: string) {
    |c| == |name| &&
    forall k :: 0 <= k < |c| ==>
      c[k] == name[k] || ('a' <= name[k] <= 'z' && c[k] as int == name[k] as int - 32)
  }

  /** Lower-casing leaves no capital letter, changes nothing else, and is
      idempotent. */
  lemma LowerProperties(s: string)
    ensures forall k :: 0 <= k < |s| ==> !IsUpper(Lower(s)[k])
    ensures forall k :: 0 <= k < |s| ==> !IsUpper(s[k]) ==> Lower(s)[k] == s[k]
    ensures Lower(Lower(s)) == Lower(s)
    ensures Lower(s) == s <==> forall k :: 0 <= k < |s| ==> !IsUpper(s[k])
  {
    if Lower(s) == s {
      forall k | 0 <= k < |s|
        ensures !IsUpper(s[k])
      {
        assert Lower(s)[k] == s[k];
      }
    }
  }

  /** For a name without capitals, a column lower-cases to it exactly when
      the column spells it in any mix of cases. */
  lemma LowerMatches(c: string, name: string)
    requires forall k :: 0 <= k < |name| ==> !IsUpper(name[k])
    ensures Lower(c) == name <==> SpellsIgnoringCase(c, name)
  {
    if SpellsIgnoringCase(c, name) {
      forall k | 0 <= k < |c|
        ensures Lower(c)[k] == name[k]
      {
      }
    }
  }

  /** The required names are already lower case, so after the constructor
      lower-cases the columns, a required name is present exactly when some
      column spells it in any mix of cases. */
  lemma LoweredColumnsContain(columns: seq<string>, name: string)
    requires name in RequiredColumns
    ensures name in LowerColumns(columns) <==>
      exists i :: 0 <= i < |columns| && SpellsIgnoringCase(columns[i], name)
  {
    var lc := LowerColumns(columns);
    if name in lc {
      var i :| 0 <= i < |lc| && lc[i] == name;
      LowerMatches(columns[i], name);
    }
    if exists i :: 0 <= i < |columns| && SpellsIgnoringCase(columns[i], name) {
      var i :| 0 <= i < |columns| && SpellsIgnoringCase(columns[i], name);
      LowerMatches(columns[i], name);
      assert lc[i] == name;
    }
  }

  /** Mixed-case headers pass the column check once lower-cased, and not
      before. */
  lemma MixedCaseColumnsPass()
    ensures forall n :: n in RequiredColumns ==> n in LowerColumns(["Open", "HIGH", "low", "Close"])
    ensures "open" !in ["Open", "HIGH", "low", "Close"]
  {
    var lc := LowerColumns(["Open", "HIGH", "low", "Close"]);
    assert lc[0] == "open";
    assert lc[1] == "high";
    assert lc[2] == "low";
    assert lc[3] == "close";
  }
}
