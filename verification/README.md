# Mean-reversion backtest — a Dafny model

This project models the computational core of a mean-reversion backtester
written in Python with pandas:

- **Signal model** (`mean_reversion.dfy`, module `MeanReversion`). Given each
  bar's z-score of the price spread, it computes:
  - the long latch, which enters below −1 and exits at or above 0;
  - the short latch, which enters above +1 and exits at or below 0;
  - their sum, the trading signal;
  - that signal shifted one bar forward, so no bar trades on its own data;
  - the strategy returns, signal × log return, with bars whose lagged signal
    is −1 set to 0.

  The latch is defined twice. `AttachSignal` follows the source: mark entries,
  then overwrite exits with 0, forward-fill, fill the rest with 0. `Latch` is a
  one-step-per-bar state machine. The lemma `AttachSignalIsLatch` proves they
  agree. The module also models the required-columns check and the
  lower-casing of column names.
- **Metrics** (`metrics.dfy`, module `Metrics`): cumulative returns, the
  equity path, final equity, the running peak, drawdown in percent, the traded
  rows, per-year sums and their mean, and the reported maximum drawdown. All
  arithmetic is over exact reals.
- **Front-end rules** (`cli.dfy`, module `Cli`): which typed text counts as a
  valid integer, how a blank answer selects a default, how the cash prompt
  reads its answer, and how a 1-based menu number picks an option.
- **A run** (`simulation.dfy`, module `Simulation`): the model and the metrics
  joined as the `MeanReversion` constructor joins them.
- `missing.dfy` (module `Missing`): the `Option` type of cells that may hold
  no value. `None` stands for a pandas NaN, or for "use the default".

Inputs the model takes as given, rather than computing:
- the z-score, whose exponentially weighted estimators are floating-point
  pandas code;
- the log returns;
- each bar's calendar year, as an `int`;
- the text a user types, in place of `input()`.

The model follows the code, including where it departs from what a reader of
such a backtester might expect:
- Entry bands are fixed at −1 and +1. The model's lemmas take the bands as a
  `Thresholds` parameter. `BuildModel` uses `SourceThresholds` = (−1, +1).
- Only the long-bias mask exists. Returns are zeroed wherever the lagged
  signal is −1. There is no side setting. So short trades never earn anything,
  and `Simulation.NetReturnIsLongBars` proves the net return is the sum of the
  log returns of the long bars.
- Column names are compared exactly, case-sensitively. They are
  case-insensitive only because the constructor lower-cases them first.
- Drawdown is ≤ 0 only while the running peak is positive. Equity is
  `cash · (1 + Σ r)` with no compounding, so it turns negative once the summed
  log return falls below −1. In a run this does not flip the sign of the
  drawdown: bar 0 has no signal and earns nothing, so equity starts at the
  deposit, the peak never falls below it, and every drawdown is ≤ 0 for a
  positive deposit (`Simulation.RunDrawdownNonPositive`). A positive drawdown
  needs a return series whose very first return is already below −1
  (`Metrics.NegativePeakDrawdown`), which a run never produces.
- Undefined returns are kept among the traded rows, because NaN ≠ 0 holds in
  pandas.
- A negative menu number is not refused. Python's negative indexing picks an
  option counted from the end. Only 0 is special: it exits the file menu and
  asks again in the calculation-type and side menus.
- Validation uses `isnumeric`, which also accepts numerals that are not
  decimal digits, such as "½" or "²". Such an answer passes validation, and
  then `int()` raises `ValueError`, which nothing catches
  (`Cli.NumeralsPassValidationButRaise`).

## Model

| member | source | states |
|---|---|---|
| `MeanReversion.AttachSignal` | mean_reversion/mean_reversion.py:34-43 | each bar's position of a side is 0 or that side's level (+1 long, −1 short), one per bar |
| `MeanReversion.LastDefined` | mean_reversion/mean_reversion.py:40 | forward fill gives the latest defined mark at or before the bar; it is undefined exactly when no earlier bar is marked |
| `MeanReversion.AttachSignalIsLatch` | mean_reversion/mean_reversion.py:34-40 | the mark/forward-fill/fill-0 column equals the one-step-per-bar latch on every input |
| `MeanReversion.LongPosition` | mean_reversion/mean_reversion.py:28-42 | the long position is 1 when z < −1, 0 when z ≥ 0, and otherwise (including NaN) the previous bar's value, 0 before the first bar |
| `MeanReversion.ShortPosition` | mean_reversion/mean_reversion.py:31-43 | the short position is −1 when z > 1, 0 when z ≤ 0, and otherwise (including NaN) the previous bar's value, 0 before the first bar |
| `MeanReversion.ExitWins` | mean_reversion/mean_reversion.py:37-39 | a bar that meets both the entry and the exit mask is flat, because the exit is written last; with the source's bands (−1, +1) no bar meets both, so this applies only to bands that overlap the exit region |
| `MeanReversion.Hysteresis` | mean_reversion/mean_reversion.py:28-40 | a side holds its level at bar t exactly when it entered at some bar s ≤ t and no exit bar lies in (s, t] |
| `MeanReversion.HysteresisExample` | mean_reversion/mean_reversion.py:26-42 | z = [−1.5, −0.5, 0.2, −0.3, 0.1] gives long positions [1, 1, 0, 0, 0] |
| `MeanReversion.SidesExclusive` | mean_reversion/mean_reversion.py:28-43 | the long and the short position are never both non-zero, for any bands |
| `MeanReversion.UndefinedIsFlat` | mean_reversion/mean_reversion.py:28-40 | if every z-score is NaN, the position is 0 on every bar |
| `MeanReversion.RawSignal` | mean_reversion/mean_reversion.py:44 | the summed signal lies in {−1, 0, 1}; it is 1 exactly when long and −1 exactly when short |
| `MeanReversion.Lag` | mean_reversion/mean_reversion.py:45 | after the shift, bar 0 has no signal and bar t carries the signal of bar t−1 |
| `MeanReversion.StrategyReturns` | mean_reversion/mean_reversion.py:47-49 | a −1 bar earns 0 (even with a NaN log return), a +1 bar earns its log return, a 0 bar earns 0 (NaN if the log return is NaN), and a bar without a signal is NaN |
| `MeanReversion.BuildModel` | mean_reversion/mean_reversion.py:26-51 | the long and short positions are the two latches of the z-scores at bands (−1, +1); the realized signal is the previous bar's long+short in {−1, 0, 1}; bar 0 has none; −1 bars earn 0; +1 bars earn their log return; 0 bars earn 0, or NaN when the log return is NaN; every defined return is 0 or the bar's log return |
| `MeanReversion.AttachSignalPrefix` | mean_reversion/mean_reversion.py:34-43 | the first k positions depend only on the first k z-scores |
| `MeanReversion.NoLookAhead` | mean_reversion/mean_reversion.py:45-49 | the strategy return at bar t depends only on the z-scores before t and the log return at t |
| `MeanReversion.ColumnsValid` | mean_reversion/mean_reversion.py:73-81 | true exactly when each of open, high, low and close is among the columns, compared case-sensitively |
| `MeanReversion.LowerProperties` | mean_reversion/mean_reversion.py:10 | lower-casing leaves no capital letter, changes no other character, is idempotent, and leaves a name unchanged exactly when it has no capitals |
| `MeanReversion.LoweredColumnsContain` | mean_reversion/mean_reversion.py:10 | once the columns are lower-cased, a required name is present exactly when some column spells it in any mix of ASCII case |
| `MeanReversion.MixedCaseColumnsPass` | mean_reversion/mean_reversion.py:10 | the headers "Open", "HIGH", "low", "Close" contain every required name after lower-casing, and "open" is absent before it |
| `Metrics.CumSum` | mean_reversion/metrics.py:9 | the cumulative return at bar t is the sum of the returns up to and including t, NaN counting 0 |
| `Metrics.Equity` | mean_reversion/metrics.py:11 | equity at bar t is cash + cash · Σ_{i≤t} r[i] |
| `Metrics.FinalEquityIsLastEquity` | mean_reversion/metrics.py:11-12 | the final equity computed from the total return equals the equity at the last bar |
| `Metrics.CumMax` | mean_reversion/metrics.py:13 | the peak at bar t is at least every equity value up to t, and equals one of them |
| `Metrics.PeakProperties` | mean_reversion/metrics.py:13 | the peak never decreases, is never below equity, and equals equity on a new high |
| `Metrics.Drawdown` | mean_reversion/metrics.py:14 | drawdown is undefined exactly where the peak is 0 |
| `Metrics.DrawdownSign` | mean_reversion/metrics.py:14 | drawdown is ≤ 0 wherever the peak is positive, and is 0 exactly where equity equals the peak |
| `Metrics.NegativePeakDrawdown` | mean_reversion/metrics.py:11-14 | returns [−1.5, −0.5] on cash 100 give equity [−50, −100] and drawdowns [0, +100]: a positive drawdown |
| `Metrics.MaxDrawdown` | mean_reversion/metrics.py:37 | the reported maximum drawdown is NaN exactly when no drawdown is defined; otherwise it is the magnitude of the smallest defined drawdown, so it is ≥ 0 and at least every drawdown's depth |
| `Metrics.Traded` | mean_reversion/metrics.py:16 | no traded row has a return of exactly 0 |
| `Metrics.TradedMembers` | mean_reversion/metrics.py:16 | a value is a traded row exactly when it occurs among the returns and is not 0 |
| `Metrics.TradedConcat` | mean_reversion/metrics.py:16 | filtering commutes with concatenation, so the traded rows keep their order |
| `Metrics.TradedSum` | mean_reversion/metrics.py:16 | the traded rows sum to the same total as all the returns |
| `Metrics.DistinctYears` | mean_reversion/metrics.py:25 | the group keys are the years present, each exactly once |
| `Metrics.Grouped` | mean_reversion/metrics.py:24-25 | there is one row per year present and no other, and each row holds 100 × the summed returns of its year; the result is empty exactly when there are no bars |
| `Metrics.GroupedTotal` | mean_reversion/metrics.py:24-25 | the per-year sums ×100 add up to the net return in percent, 100 · Σ r |
| `Metrics.AnnualMeanIsNetPerYear` | mean_reversion/metrics.py:27 | the annual mean is the net return in percent divided by the number of years present; NaN when there are no bars |
| `Metrics.NetReturnsPercent` | mean_reversion/metrics.py:9-10 | the net return in percent is 100 × the last cumulative return |
| `Metrics.ComputeMetrics` | mean_reversion/metrics.py:9-27 | every column of the snapshot is its definition applied to the returns (cumulative sum, equity, running peak, drawdown against that peak, traded rows, yearly sums, annual mean, maximum drawdown); the snapshot reports 100 · Σ r as net return and the matching final equity; final equity is the last point of the equity path; the traded rows and the yearly sums both reproduce the net return |
| `Metrics.FlatStartDrawdown` | mean_reversion/metrics.py:9-14 | when the first return is NaN and the deposit is positive, every drawdown of the snapshot is defined and ≤ 0 |
| `Metrics.SnapshotDrawdown` | mean_reversion/metrics.py:13-14 | in a snapshot, equity ≤ peak, drawdown ≤ 0 under a positive peak, and the maximum drawdown is ≥ 0 and NaN exactly when no drawdown is defined |
| `Simulation.NetReturnIsLongBars` | mean_reversion/mean_reversion.py:45-49 | the strategy returns add up to the sum of the log returns of the bars whose lagged signal is +1 |
| `Simulation.Simulate` | mean_reversion/mean_reversion.py:12-13 | a run's frame is the model built from its z-scores and log returns, and its metrics are the snapshot of that frame's strategy returns; the run reports as net return 100 × the long bars' summed log return, and as final equity what those long bars alone would give |
| `Simulation.RunDrawdownNonPositive` | mean_reversion/mean_reversion.py:12-13 | with a positive deposit, every drawdown of a run is defined and ≤ 0, even when equity later turns negative |
| `Cli.Strip` | root.py:101 | strip removes only whitespace, from both ends, and leaves a slice that neither starts nor ends with whitespace |
| `Cli.BlankIffAllSpace` | root.py:101-102 | text strips to nothing exactly when every character is whitespace |
| `Cli.ValidateIntegerInput` | root.py:100-103 | input is valid exactly when it is all whitespace (including empty) or non-empty and all numerals |
| `Cli.BlankInputAccepted` | root.py:101-102 | "" and "   " are valid |
| `Cli.DigitInputAccepted` | root.py:103 | "20" is valid |
| `Cli.LettersRejected` | root.py:103 | "some random string" is invalid |
| `Cli.NonDigitInputRejected` | root.py:103 | "-1" and " 20 " are invalid, because the text is not stripped before the numeral test |
| `Cli.ParseIntRoundTrip` | root.py:89 | `int()` reads a number's decimal digits back as that number, and with a leading minus as its negative |
| `Cli.ValidatedFieldConverts` | root.py:89-103 | for validated input, blank selects the default; otherwise the conversion gives a non-negative number exactly when the text is all decimal digits, and raises ValueError exactly when it is not (refused input is converted all the same; see the rows below) |
| `Cli.NumeralsPassValidationButRaise` | root.py:55-103 | "½" and "²" pass validation, yet the hyperparameter conversion and the cash prompt raise ValueError on them |
| `Cli.RejectedNegativeStillConverts` | root.py:65-92 | a negative number is refused by validation, yet the conversion that follows anyway makes it the setting's value |
| `Cli.RejectedLettersRaise` | root.py:65-92 | letters are refused by validation, and the conversion that follows anyway raises ValueError |
| `Cli.IntegerFieldRoundTrip` | root.py:89-92 | a number typed as its digits is valid and is read back unchanged |
| `Cli.TextField` | root.py:93-94 | a blank text answer selects the default (None); any other answer is kept unchanged |
| `Cli.CashInput` | root.py:50-59 | blank cash gives 1000000; decimal digits give their value; text that is not numeric asks again, exactly when validation would refuse it; numerals that are not decimal digits raise ValueError |
| `Cli.Menu` | root.py:43-48 | the menu lists "0. Exit" first when asked to, then option i numbered i+1 |
| `Cli.Select` | root.py:26-30 | 0 leads to the menu's zero action; k in 1..n picks option k−1; k in −n+1..−1 picks option n+k−1, counted from the end; k outside −n+1..n raises IndexError |
| `Cli.MenuSelectRoundTrip` | root.py:43-48 | typing the number printed beside an option selects that option |
| `Cli.SelectFromText` | root.py:110-118 | text that `int()` refuses asks again; the digits of k in 1..n pick option k−1 |
| `Cli.SelectDataset` | root.py:13-38 | with no files the prompt exits; otherwise 0 exits, the digits of k in 1..n pick file k, text `int()` refuses asks again, a number past the end raises IndexError, and any chosen file is one of the files |
| `Cli.SelectDatasetExample` | root.py:13-38 | with two files, "2" picks the second and "0" exits |
| `Cli.SelectDatasetPastEnd` | root.py:13-38 | with two files, "3" raises IndexError; with none, nothing is asked |
| `Cli.SelectByNumber` | root.py:26-30 | with three options, "2" picks the second; "0" exits from the file menu and asks again in the option menus |
| `Cli.SelectNegativeWraps` | root.py:125-129 | "-1" picks the second option from the end, through Python's negative indexing |
| `Cli.SelectRejected` | root.py:110-118 | "4" on a three-option menu raises IndexError; "x" asks again |

## Left out

- The z-score itself is left out: the exponentially weighted mean of the close, and the mean and standard deviation of the spread. It is floating-point pandas estimation, so the model takes the z-score as input.
- The log returns are left out for the same reason: they are floating-point logarithms of price ratios, so the model takes them as input.
- The Sharpe ratios are left out. They use a sample standard deviation over the traded rows and `sqrt(252)`, which are floating-point numerics.
- The stationarity test is left out. It is one statsmodels call plus printing.
- Plotting, CSV loading, date parsing and directory listing are left out. They are I/O.
- `print`, `input()` and the recursive re-prompting are left out. Every prompt is modelled on a given string, and `Reprompt`/`RetryCash` mark where the source asks again. Three consequences of that recursion are not modelled as runs: a retried `select_dataset` discards its result; a retried `cash` goes on to call `int()` on the rejected text; and a retried `hyperparameters` discards the retry's answers and converts the refused text, so "abc" raises ValueError and "-1" becomes a setting of −1. The last is stated, for the conversion itself, by `Cli.RejectedNegativeStillConverts` and `Cli.RejectedLettersRaise`.
- The `evaluate` dispatch and the main loop are left out. The menu-number rule they use is `Cli.Select`.
- The hyperparameter object, the defaults and the side/calculation-type enumerations are not part of this model. They are imported but not defined in the modelled files. Their menus are modelled generically by `Cli.Select`.
- NaN arithmetic is not modelled. A NaN return counts as 0 in every sum, as pandas `sum` does. pandas `cumsum` and `cummax` keep NaN at every row whose return is NaN, so the cumulative return, equity, peak and drawdown are NaN on those rows (bar 0 always among them). The model gives each such row its running value instead, and bar 0's value, the deposit, enters the running peak; pandas skips it there.
- A zero peak divides by zero in pandas, giving NaN or an infinity. The model reports it as undefined (`None`).
- Metrics.Grouped: lists years in order of first appearance, whereas pandas sorts them. The two orders agree on a chronological index, and the sum and the mean do not depend on the order.
- Cli.ValidateIntegerInput: the numerals modelled are the ASCII digits plus the non-decimal numerals of Latin-1 and of the Superscripts, Number Forms, Enclosed Alphanumerics and Dingbats blocks. `isnumeric` accepts further Unicode numerals, among them the decimal digits of other scripts, which `int()` also reads. The model refuses those.
- Cli.ValidatedFieldConverts: the numerals outside the modelled set are not covered. For the non-decimal ones, Python's validation passes and then `int()` raises. For other scripts' decimal digits, Python converts them. The model refuses both kinds at validation.
- Cli.CashInput: as for `Cli.ValidatedFieldConverts`, numerals outside the modelled set are refused and asked again, where Python either raises ValueError or reads them as a number.
- Cli.ParseIntRoundTrip: `int()` is modelled on ASCII digits with an optional sign and surrounding whitespace. Underscores between digits and non-ASCII digits are not modelled.
- MeanReversion.LoweredColumnsContain: lower-casing is modelled for the ASCII letters only.
- MeanReversion.LowerProperties: `Lower` maps only the ASCII capitals; Python's `str.lower` also lower-cases non-ASCII capitals such as 'É', which the model leaves unchanged.
- Integer widths do not arise. Positions and signals are small integers, returns and equity are reals, and the model does not reproduce float rounding.
