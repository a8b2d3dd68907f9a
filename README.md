# Trading dashboard analytics kernel, in Dafny

This project models the computational core of a crypto trading dashboard. The core is a small analytics and learning loop in three places:

- **Macro snapshot endpoint** (`app/api/macro/route.ts`). It computes:
  - the simple returns of the hourly Ether and Bitcoin price histories;
  - the Pearson correlation of the two return series over their trailing, end-aligned overlap, from five running sums, with the denominator replaced by 1e-9 where it is zero;
  - the annualised realised volatility of the Ether returns, as the population standard deviation × √24 × √365 × 100;
  - the `newsMomentum` proxy: ten times the price drift over the last 24 samples, clamped to [-1, 1].
- **Dashboard page** (`app/page.tsx`). It contains:
  - the updater that folds a streamed kline into the candle list of its timeframe: replace the last bar if it has the same open time, otherwise append, then keep the last 600;
  - the bounded signal history: append the newest generated signal, then keep the last 200;
  - the learning-loop grading: the last 20 signals, each graded by the close five bars after its own bar, sign-flipped for sells, and 0 where that bar is missing.
- **Controls panel** (`components/Controls.tsx`). It contains `toggleTf`, which flips one timeframe in or out of the selection and then sorts the selection by the canonical order `ALL_TF`.

Modules:

- **`Types`**: timeframes, candles, signals and `Option`. The signal's `type` field is named `kind`, because `type` is a Dafny keyword.
- **`Slices`**: JavaScript's `slice(-k)`.
- **`RealSums`**: sums, dot products and population moments over sequences of reals. It proves that the one-pass and two-pass variances agree, that variance is non-negative and zero exactly on constant data, the scaling laws, and Cauchy–Schwarz.
- **`SquareRoot`**: facts about any function that is a square root on the non-negative reals.
- **`Macro`**, **`Page`** and **`Controls`**: one module per source file.

What the model assumes:

- **Loops are methods.** Wherever the source loops or mutates, the model is a method proved against a specification function:
  - `returns` and the five-sum loop of `pearson`;
  - the copy/overwrite/push of the candle updater;
  - the `Set` mutation and ordering of `toggleTf`.
  
  Pure expressions are functions: the `reduce` of `realizedVolatility`, the momentum expression, the signal append and the grading `map`.
- **Arithmetic is over the reals.** `Math.sqrt` is a parameter `sqrt: real -> real`. Every fact that needs it requires `IsSqrt(sqrt)`: non-negative, and squaring back to its argument on the non-negative reals.
- **Missing timeframes read as empty.** The per-timeframe candle record is a `map<Timeframe, seq<Candle>>`. A timeframe that is not a key reads as the empty list.

The model follows the code as written, including these behaviours, which a reader might expect to be otherwise:

- **Pending signals score 0.** The code grades a signal with fewer than five bars after it (or no bar at its time) as 0 (app/page.tsx:98). It does not leave it out. `Page.Outcome` states this.
- **Signals are re-graded.** The last-20 window is graded again whenever the signal times or the learning switch change (app/page.tsx:107), so one signal is graded in several passes. Candle updates alone do not start a pass. Exactly-once grading is not a property of this code and is not claimed.
- **The denominator is replaced, not floored.** `Math.sqrt(varA * varB) || 1e-9` replaces only a zero (or NaN) root. A positive root smaller than 1e-9 is used as it is. `Macro.Divisor` models exactly this.
- **The history keeps repeats.** Appending the newest generated signal does not check whether it is already the last entry (app/page.tsx:78-79), so the same signal can be stored twice in a row. `Page.AppendLatestRepeats` states this.
- **An older candle is appended out of order.** The updater compares the candle only with the last bar's open time (app/page.tsx:114-116). A candle older than that bar is pushed at the end, and the list is no longer ordered by time. `Page.UpsertOlderBreaksOrder` states this.
- **The cap can forget a graded signal's bar.** The candle list keeps only the last 600 bars (app/page.tsx:117), while a signal stays among the 20 graded ones for as long as fewer than 20 newer signals arrive (app/page.tsx:93). A signal whose bar has been dropped is found nowhere and scores 0 again (app/page.tsx:97-98). `Page.CapForgetsEntry` states this.
- **A signal can be graded on a bar that is still open.** The updater ignores whether the kline is closed (app/page.tsx:111) and overwrites the last bar with every update. A signal whose exit bar is that bar is graded on its running close: the outcome a later pass computes follows the bar's latest close. `Page.OpenExitBarRegraded` states this.

## Model

| member | source | states |
|---|---|---|
| Macro.Return | app/api/macro/route.ts:43 | moving from the start price by the return arrives at the end price; from a positive price the return is positive iff the price rose and 0 iff it is unchanged |
| Macro.ReturnsOf | app/api/macro/route.ts:41-45 | one return per consecutive price pair (none for ≤ 1 price); entry i is (p[i+1] − p[i]) / p[i] |
| Macro.ComputeReturns | app/api/macro/route.ts:41-45 | the push loop of `returns` yields exactly `ReturnsOf(prices)` |
| Macro.CompoundReturns | app/api/macro/route.ts:41-45 | compounding the returns from the first price rebuilds the whole price series (returns lose only the starting level) |
| Macro.FlatPricesZeroReturns | app/api/macro/route.ts:41-45 | a constant price series has only zero returns |
| Macro.PearsonOf | app/api/macro/route.ts:47-61 | `pearson` is 0 whenever either input is empty |
| Macro.Pearson | app/api/macro/route.ts:47-61 | the one-pass method equals the correlation of the trailing windows' population moments |
| Macro.WindowSums | app/api/macro/route.ts:50-55 | the loop's five running sums are the sums, cross products and squares over the trailing, end-aligned windows |
| Macro.PearsonFromSums | app/api/macro/route.ts:56-60 | cov, varA, varB computed from the sums, then the guarded division, give the windows' correlation |
| Macro.PearsonBounded | app/api/macro/route.ts:56-60 | the correlation always lies in [−1, 1] |
| Macro.PearsonSymmetric | app/api/macro/route.ts:47-61 | pearson(a, b) == pearson(b, a) |
| Macro.PearsonTrailingWindows | app/api/macro/route.ts:48-53 | only the last min(len a, len b) elements of each input matter |
| Macro.PearsonIgnoresOlderHistory | app/api/macro/route.ts:48-53 | prefixing older history to the longer series does not change the result |
| Macro.PearsonOfConstantWindow | app/api/macro/route.ts:56-60 | with a constant trailing window the 1e-9 fallback is used and the correlation is 0 |
| Macro.PearsonSelf | app/api/macro/route.ts:56-60 | a non-constant series has correlation 1 with itself |
| Macro.PearsonNegated | app/api/macro/route.ts:56-60 | a non-constant series has correlation −1 with its negation |
| Macro.CorrelationOf | app/api/macro/route.ts:59-60 | the correlation is 0 exactly when the covariance is 0 |
| Macro.Divisor | app/api/macro/route.ts:59 | the divisor is never zero |
| Macro.DivisorFallback | app/api/macro/route.ts:59 | a zero variance makes the divisor exactly 1e-9 |
| Macro.CorrelationOfBounded | app/api/macro/route.ts:56-60 | within the Cauchy–Schwarz bound, cov / divisor lies in [−1, 1], including the fallback case |
| Macro.VolatilityFromVariance | app/api/macro/route.ts:63-68 | the two-pass `reduce` variance equals the population variance (the one `pearson` uses), which is ≥ 0 |
| Macro.RealizedVolatility | app/api/macro/route.ts:63-68 | the realised volatility is 0 on empty input and never negative |
| Macro.VolatilityZeroIffConstant | app/api/macro/route.ts:63-68 | the volatility is 0 exactly when there are no returns or all are equal |
| Macro.VolatilityScale | app/api/macro/route.ts:65-68 | scaling every return by k scales the volatility by abs(k) |
| Macro.AnnualisedNonneg | app/api/macro/route.ts:67-68 | the annualisation of a non-negative variance is ≥ 0, and 0 only for variance 0 |
| Macro.AnnualisedScale | app/api/macro/route.ts:67-68 | annualising k²·v gives abs(k) times annualising v |
| Macro.Clamp | app/api/macro/route.ts:27 | `Math.max(-1, Math.min(1, x))` lies in [−1, 1], is the identity there and saturates outside |
| Macro.ReferenceIndex | app/api/macro/route.ts:25 | the reference price is 24 samples before the last, or the first one |
| Macro.Momentum | app/api/macro/route.ts:24-27 | the momentum is in [−1, 1] whenever it is a number; NaN exactly for no prices or 0/0 |
| Macro.MomentumSign | app/api/macro/route.ts:24-27 | with a positive reference price the momentum is positive iff the price rose and 0 iff it is unchanged |
| Macro.FlatMomentumZero | app/api/macro/route.ts:24-27 | a flat non-zero price series has momentum 0 |
| Macro.Snapshot | app/api/macro/route.ts:14-33 | the response's correlation is `pearson` of the Ether and Bitcoin returns and lies in [−1, 1]; its volatility is `realizedVolatility` of the Ether returns and is ≥ 0; dominance defaults to 0; momentum is that of the Ether prices |
| RealSums.VarianceIsMeanSquaredDeviation | app/api/macro/route.ts:65-66 | the mean of squared deviations from the mean equals mean of squares minus square of the mean |
| RealSums.CauchySchwarz | app/api/macro/route.ts:56-58 | cov(x, y)² ≤ var(x)·var(y) for the population moments |
| RealSums.VarianceNonneg | app/api/macro/route.ts:57-58 | the one-pass population variance is ≥ 0 |
| RealSums.VarianceZeroIffConstant | app/api/macro/route.ts:57-58 | the variance is 0 exactly on constant data |
| RealSums.ZeroVarianceCovariance | app/api/macro/route.ts:56-57 | a zero-variance series has covariance 0 with anything |
| RealSums.CovarianceSymmetric | app/api/macro/route.ts:56 | cov(x, y) == cov(y, x) |
| RealSums.VarianceScale | app/api/macro/route.ts:66 | var(k·x) == k²·var(x) |
| SquareRoot.SqrtScale | app/api/macro/route.ts:67 | √(k²·x) == abs(k)·√x for x ≥ 0 |
| SquareRoot.SqrtOfSquare | app/api/macro/route.ts:59 | √(v²) == abs(v) |
| Slices.KeepLast | app/page.tsx:93 | `slice(-k)` keeps the last k elements, or all of them when there are fewer |
| Page.CandlesOf | app/page.tsx:113 | a timeframe without a list reads as the empty list |
| Page.UpsertList | app/page.tsx:112-118 | the result is non-empty, at most 600 long, ends with the candle, and before it holds the latest bars of the list minus a replaced last bar |
| Page.UpsertCandle | app/page.tsx:112-118 | the updater replaces only this timeframe's list by `UpsertList`; every other timeframe is unchanged |
| Page.UpsertSameBar | app/page.tsx:114-115 | a candle with the last bar's time replaces that bar: same length, same earlier bars |
| Page.UpsertNewBar | app/page.tsx:114-116 | a candle with another time is appended while there is room |
| Page.UpsertIdempotent | app/page.tsx:113-117 | folding the same kline twice equals folding it once |
| Page.UpsertKeepsOrder | app/page.tsx:113-116 | a strictly time-ordered list stays ordered when the candle is not older than the last bar |
| Page.UpsertOlderBreaksOrder | app/page.tsx:114-117 | a candle older than the last bar is appended after it, and the list is then not ordered by time |
| Page.AppendLatest | app/page.tsx:76-79 | unchanged with no generated signals; otherwise ends with the last generated signal, preceded by the latest ≤ 199 of the old history |
| Page.AppendLatestRepeats | app/page.tsx:77-79 | a round whose last signal already ends the history stores it a second time |
| Page.AppendLatestBounded | app/page.tsx:79 | a history of at most 200 signals stays at most 200 |
| Page.ReplayKeepsLatest | app/page.tsx:76-79 | after any run of generation rounds the history is the last 200 of the old history followed by each non-empty round's last signal |
| Page.FindIndex | app/page.tsx:97 | `findIndex` returns the first candle with the time, or −1 when there is none |
| Page.Direction | app/page.tsx:101 | +1 for a buy and −1 for a sell |
| Page.Outcome | app/page.tsx:95-102 | a signal that is not graded (no bar at its time with five bars after it) scores 0; a graded one scores the signed five-bar return from the first bar with its time |
| Page.PendingExactly | app/page.tsx:97-98 | a signal is not graded exactly when none of the bars with five more after them has its time |
| Page.GradedOutcome | app/page.tsx:96-101 | otherwise the outcome is the signed five-bar return from the first bar with the signal's time |
| Page.BuySellOpposite | app/page.tsx:101 | a buy and a sell at the same bar get opposite outcomes |
| Page.OutcomeStable | app/page.tsx:96-101 | appending bars after a graded signal's list, without the 600 cap, leaves its outcome unchanged |
| Page.CapForgetsEntry | app/page.tsx:112-117 | on a full ordered list whose first bar is a graded signal's, a newer candle drops that bar and the signal then scores 0 |
| Page.OpenExitBarRegraded | app/page.tsx:111-115 | when the exit bar is the last bar, an update of that bar regrades the signal on the new candle's close |
| Page.FindIndexPrefix | app/page.tsx:97 | a time found in a prefix is found at the same index after appending |
| Page.GradeRecent | app/page.tsx:91-103 | nothing when learning is off or no signals; otherwise the last min(20, n) signals, with one outcome each, in order |
| Controls.Rank | components/Controls.tsx:23-30 | `ALL_TF.indexOf(tf)` is a valid index holding tf |
| Controls.AllTfRanks | components/Controls.tsx:23 | `ALL_TF` lists every timeframe, each at its rank |
| Controls.Toggled | components/Controls.tsx:28-29 | the toggled timeframe flips membership; the others keep it |
| Controls.InOrder | components/Controls.tsx:30 | the listing of a selection is sorted by `ALL_TF` index, duplicate-free and has exactly its elements |
| Controls.ToggleTf | components/Controls.tsx:27-31 | tf is in the result iff it was not in the input, other timeframes keep their membership, and the result is sorted and duplicate-free |
| Controls.ToggleMembership | components/Controls.tsx:28-29 | membership of the listed toggle result, in terms of the input list |
| Controls.CanonicalUnique | components/Controls.tsx:30 | two sorted duplicate-free lists with the same elements are equal, so the sorted result does not depend on the set's iteration order |
| Controls.ToggleTwice | components/Controls.tsx:27-31 | toggling the same timeframe twice returns a sorted duplicate-free selection unchanged |

## Left out

- Network and I/O: the CoinGecko fetches, JSON field extraction, `NextResponse`, the `timestamp` from `Date.now()`, and the 500 error path (app/api/macro/route.ts:4-16, 29-38). `Macro.Snapshot` starts from the already extracted market share and price lists.
- IEEE-754 behaviour: the model uses exact reals. NaN and ±Infinity are represented only in `Macro.Momentum`: `None` for the NaN that the response then carries (the clamp passes NaN through), ±1 for an infinity that the clamp saturates.
- Macro.ReturnsOf, Macro.ComputeReturns and Macro.Snapshot require non-zero divisor prices, and Page.Outcome and Page.GradeRecent require a non-zero close at the entry bar of each graded signal. This is because division by zero yields ±Infinity or NaN in JavaScript, and that is not modelled.
- Float rounding that makes a variance slightly negative, so that `Math.sqrt` returns NaN and `|| 1e-9` takes over, cannot happen with exact reals.
- `Math.sqrt` is a parameter constrained by `IsSqrt`, not a concrete function. Dafny has no real square root.
- React plumbing:
  - `useEffect` and `useMemo` dependency keys;
  - the `cancelled` and `stale` flags;
  - `setInterval`;
  - the `subscribeKlines` websocket;
  - the initial `fetchKlines`;
  - the indicator recomputation;
  - desktop `Notification` dispatch (app/page.tsx:33-72, 80-87, 110-121).
  
  The model covers only the pure updaters these run.
- `generateSignals`, `updateWeightsFromOutcomes`, `loadWeights`/`saveWeights`, `computeRSI` and `buildZones` live in library files that are not part of this model. Grading stops at the `(recent, outcomes)` pair handed to the weight update.
- Controls.ToggleTf: the model lists the selection by walking `ALL_TF` and keeping the selected timeframes, not by `Array.from(set).sort(...)`. `Controls.CanonicalUnique` shows that any sorted, duplicate-free listing of the same set is this one. So the set's insertion order and the sort algorithm do not affect the result.
- The form inputs of the controls panel (`parseInt`/`parseFloat` of field values) and all rendering components.
