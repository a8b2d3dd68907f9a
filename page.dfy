/**
 * The state updates of the dashboard page (app/page.tsx) that do not depend on
 * React: folding a streamed kline into the per-timeframe candle lists, appending
 * the newest generated signal to the bounded signal history, and grading the
 * most recent signals by the five-bar forward return of their own timeframe.
 *
 * The candle lists keyed by timeframe (`byTf`) are a map; a timeframe that is
 * not a key reads as the empty list, as `prev[tf] ? … : []` and `byTf[tf] || []`
 * do.
 */
module Page {
  import opened Types
  import opened Slices

  /** At most this many candles are kept per timeframe. */
  const MaxCandles: nat := 600
  /** At most this many signals are kept in the history. */
  const MaxSignals: nat := 200
  /** The grading looks at this many of the most recent signals. */
  const GradedSignals: nat := 20
  /** A signal is graded by the close this many bars after its own bar. */
  const Horizon: nat := 5

  /** The candles of one timeframe, or none. */
  function CandlesOf(byTf: map<Timeframe, seq<Candle>>, tf: Timeframe): (list: seq<Candle>)
    ensures tf !in byTf ==> list == []
    ensures tf in byTf ==> list == byTf[tf]
  {
    if tf in byTf then byTf[tf] else []
  }

  // ---------------------------------------------------------------------------
  // Candle upsert

  /** The bar the incoming candle updates: the last one, if it has the same open time. */
  predicate SameBar(list: seq<Candle>, candle: Candle)
  {
    |list| > 0 && list[|list| - 1].time == candle.time
  }

  /** Bar open times strictly increase along the list. */
  predicate StrictlyIncreasing(list: seq<Candle>)
  {
    forall i, j :: 0 <= i < j < |list| ==> list[i].time < list[j].time
  }

  /** The bars that stay before the incoming candle: all but a replaced last bar. */
  function Earlier(list: seq<Candle>, candle: Candle): (kept: seq<Candle>)
    ensures SameBar(list, candle) ==> kept == list[..|list| - 1]
    ensures !SameBar(list, candle) ==> kept == list
  {
    if SameBar(list, candle) then list[..|list| - 1] else list
  }

  /**
   * The new candle list of a timeframe: the candle replaces the last bar when it
   * has the same open time and is appended otherwise, and then only the last 600
   * candles are kept.
   */
  function UpsertList(list: seq<Candle>, candle: Candle): (r: seq<Candle>)
    ensures 0 < |r| <= MaxCandles
    ensures r[|r| - 1] == candle
    ensures |r| == if |Earlier(list, candle)| + 1 <= MaxCandles then |Earlier(list, candle)| + 1 else MaxCandles
    ensures r[..|r| - 1] == Earlier(list, candle)[|Earlier(list, candle)| - (|r| - 1)..]
  {
    var kept := Earlier(list, candle);
    KeepLastEndsWith(kept, candle, MaxCandles);
    KeepLastPrefix(kept, candle, MaxCandles);
    KeepLast(kept + [candle], MaxCandles)
  }

  /**
   * The state updater run for every kline pushed for timeframe `tf`: copy that
   * timeframe's list, overwrite its last slot or push the candle, and keep the
   * last 600. Every other timeframe keeps its list.
   */
  method UpsertCandle(byTf: map<Timeframe, seq<Candle>>, tf: Timeframe, candle: Candle)
    returns (next: map<Timeframe, seq<Candle>>)
    ensures next == byTf[tf := UpsertList(CandlesOf(byTf, tf), candle)]
    ensures forall t :: t != tf ==> CandlesOf(next, t) == CandlesOf(byTf, t)
    ensures next.Keys == byTf.Keys + {tf}
  {
    var list := if tf in byTf then byTf[tf] else [];
    if |list| > 0 && list[|list| - 1].time == candle.time {
      assert list[..|list| - 1] + [candle] == list[|list| - 1 := candle];
      list := list[|list| - 1 := candle];
    } else {
      list := list + [candle];
    }
    next := byTf[tf := KeepLast(list, MaxCandles)];
  }

  /** A candle for the bar already at the end replaces it: same length, same earlier bars. */
  lemma UpsertSameBar(list: seq<Candle>, candle: Candle)
    requires SameBar(list, candle) && |list| <= MaxCandles
    ensures |UpsertList(list, candle)| == |list|
    ensures UpsertList(list, candle)[..|list| - 1] == list[..|list| - 1]
    ensures UpsertList(list, candle)[|list| - 1] == candle
  {
  }

  /** A candle for a new bar is appended while there is room. */
  lemma UpsertNewBar(list: seq<Candle>, candle: Candle)
    requires !SameBar(list, candle) && |list| < MaxCandles
    ensures UpsertList(list, candle) == list + [candle]
  {
    var r := UpsertList(list, candle);
    assert r == r[..|r| - 1] + [candle];
  }

  /** Folding the same kline in twice is the same as folding it in once. */
  lemma UpsertIdempotent(list: seq<Candle>, candle: Candle)
    ensures UpsertList(UpsertList(list, candle), candle) == UpsertList(list, candle)
  {
    var r := UpsertList(list, candle);
    var r2 := UpsertList(r, candle);
    assert SameBar(r, candle);
    assert |r2| == |r|;
    assert r2[..|r2| - 1] == r[..|r| - 1];
    assert r2 == r2[..|r2| - 1] + [candle];
    assert r == r[..|r| - 1] + [candle];
  }

  /**
   * Only the last bar is compared, so order is kept when the candle is at least
   * as recent as the last bar (and, by `UpsertOlderBreaksOrder`, only then).
   */
  lemma UpsertKeepsOrder(list: seq<Candle>, candle: Candle)
    requires StrictlyIncreasing(list)
    requires |list| == 0 || list[|list| - 1].time <= candle.time
    ensures StrictlyIncreasing(UpsertList(list, candle))
  {
    var kept := Earlier(list, candle);
    if SameBar(list, candle) {
      IncreasingSlice(list, 0, |list| - 1);
      assert list[0..|list| - 1] == kept;
    }
    IncreasingSnoc(kept, candle);
    IncreasingSlice(kept + [candle], |kept| + 1 - |UpsertList(list, candle)|, |kept| + 1);
    assert UpsertList(list, candle) == KeepLast(kept + [candle], MaxCandles);
  }

  /** An older candle is appended after the last bar, out of order: nothing checks for it. */
  lemma UpsertOlderBreaksOrder(list: seq<Candle>, candle: Candle)
    requires |list| > 0 && candle.time < list[|list| - 1].time
    ensures var r := UpsertList(list, candle);
      |r| >= 2 && r[|r| - 2] == list[|list| - 1] && r[|r| - 1] == candle
    ensures !StrictlyIncreasing(UpsertList(list, candle))
  {
    var r := UpsertList(list, candle);
    assert Earlier(list, candle) == list;
    assert r[..|r| - 1][|r| - 2] == r[|r| - 2];
  }

  lemma IncreasingSlice(list: seq<Candle>, a: nat, b: nat)
    requires StrictlyIncreasing(list) && a <= b <= |list|
    ensures StrictlyIncreasing(list[a..b])
  {
    var t := list[a..b];
    forall i, j | 0 <= i < j < |t|
      ensures t[i].time < t[j].time
    {
      assert t[i] == list[a + i] && t[j] == list[a + j];
    }
  }

  /** A candle later than every bar keeps the list ordered when appended. */
  lemma IncreasingSnoc(kept: seq<Candle>, candle: Candle)
    requires StrictlyIncreasing(kept)
    requires |kept| == 0 || kept[|kept| - 1].time < candle.time
    ensures StrictlyIncreasing(kept + [candle])
  {
    var t := kept + [candle];
    forall i, j | 0 <= i < j < |t|
      ensures t[i].time < t[j].time
    {
      if j < |kept| {
        assert t[i] == kept[i] && t[j] == kept[j];
      } else {
        assert t[i] == kept[i];
        assert i == |kept| - 1 || kept[i].time < kept[|kept| - 1].time;
      }
    }
  }

  // ---------------------------------------------------------------------------
  // Signal history

  /**
   * The history after a round of signal generation: unchanged when nothing was
   * generated, otherwise the last generated signal appended and only the last
   * 200 kept.
   */
  function AppendLatest(prev: seq<Signal>, generated: seq<Signal>): (r: seq<Signal>)
    ensures |generated| == 0 ==> r == prev
    ensures |generated| > 0 ==>
      |r| == (if |prev| + 1 <= MaxSignals then |prev| + 1 else MaxSignals) &&
      r[|r| - 1] == generated[|generated| - 1] &&
      r[..|r| - 1] == prev[|prev| - (|r| - 1)..]
  {
    if |generated| == 0 then prev
    else
      var last := generated[|generated| - 1];
      KeepLastEndsWith(prev, last, MaxSignals);
      KeepLastPrefix(prev, last, MaxSignals);
      KeepLast(prev + [last], MaxSignals)
  }

  /** The history never grows past 200 once it is within that bound. */
  lemma AppendLatestBounded(prev: seq<Signal>, generated: seq<Signal>)
    requires |prev| <= MaxSignals
    ensures |AppendLatest(prev, generated)| <= MaxSignals
  {
  }

  /** Nothing checks for repeats: a round whose last signal is already the newest entry appends it again. */
  lemma AppendLatestRepeats(prev: seq<Signal>, generated: seq<Signal>)
    requires |prev| > 0 && |generated| > 0 && prev[|prev| - 1] == generated[|generated| - 1]
    ensures var r := AppendLatest(prev, generated);
      |r| >= 2 && r[|r| - 2] == r[|r| - 1] == prev[|prev| - 1]
  {
    var r := AppendLatest(prev, generated);
    assert r[..|r| - 1][|r| - 2] == r[|r| - 2];
  }

  /** The last signal of every non-empty round, in order. */
  function LastOfEach(rounds: seq<seq<Signal>>): seq<Signal>
    decreases |rounds|
  {
    if |rounds| == 0 then []
    else
      var front, g := LastOfEach(rounds[..|rounds| - 1]), rounds[|rounds| - 1];
      if |g| == 0 then front else front + [g[|g| - 1]]
  }

  /** The history after several rounds of generation, each appended in turn. */
  function Replay(prev: seq<Signal>, rounds: seq<seq<Signal>>): seq<Signal>
    decreases |rounds|
  {
    if |rounds| == 0 then prev
    else AppendLatest(Replay(prev, rounds[..|rounds| - 1]), rounds[|rounds| - 1])
  }

  /**
   * Any run of rounds leaves exactly the last 200 of the earlier history followed
   * by the last signal of each non-empty round.
   */
  lemma {:induction false} ReplayKeepsLatest(prev: seq<Signal>, rounds: seq<seq<Signal>>)
    requires |prev| <= MaxSignals
    ensures Replay(prev, rounds) == KeepLast(prev + LastOfEach(rounds), MaxSignals)
    decreases |rounds|
  {
    if |rounds| == 0 {
      assert prev + [] == prev;
    } else {
      var front := rounds[..|rounds| - 1];
      var g := rounds[|rounds| - 1];
      ReplayKeepsLatest(prev, front);
      var l := LastOfEach(front);
      if |g| > 0 {
        var x := g[|g| - 1];
        KeepLastSnoc(prev + l, x, MaxSignals);
        assert prev + l + [x] == prev + (l + [x]);
      }
    }
  }

  // ---------------------------------------------------------------------------
  // Outcome grading

  /** `findIndex` by open time: the first candle with that time, or -1. */
  function FindIndex(candles: seq<Candle>, time: int): (idx: int)
    ensures -1 <= idx < |candles|
    ensures idx >= 0 ==> candles[idx].time == time
    ensures forall j :: 0 <= j < |candles| && (idx < 0 || j < idx) ==> candles[j].time != time
    decreases |candles|
  {
    if |candles| == 0 then -1
    else if candles[0].time == time then 0
    else
      var k := FindIndex(candles[1..], time);
      if k < 0 then -1 else k + 1
  }

  /** A signal is graded once its bar is found and five more bars follow it. */
  predicate Graded(candles: seq<Candle>, time: int)
  {
    var idx := FindIndex(candles, time);
    0 <= idx && idx + Horizon < |candles|
  }

  /** The bar a graded signal is entered at has a non-zero close: the grading divides by it. */
  predicate EntryCloseNonzero(byTf: map<Timeframe, seq<Candle>>, s: Signal)
  {
    var candles := CandlesOf(byTf, s.timeframe);
    Graded(candles, s.time) ==> candles[FindIndex(candles, s.time)].close != 0.0
  }

  /** +1 for a buy, -1 for a sell. */
  function Direction(kind: SignalType): (d: real)
    ensures d == 1.0 || d == -1.0
    ensures d == 1.0 <==> kind == Buy
  {
    if kind == Buy then 1.0 else -1.0
  }

  /**
   * The relative move of the close from the signal's bar to the bar `Horizon`
   * later, in the signal's direction: 0 while the signal is not graded, and
   * otherwise measured from the first bar with its time.
   */
  function Outcome(byTf: map<Timeframe, seq<Candle>>, s: Signal): (pnl: real)
    requires EntryCloseNonzero(byTf, s)
    ensures !Graded(CandlesOf(byTf, s.timeframe), s.time) ==> pnl == 0.0
    ensures var candles := CandlesOf(byTf, s.timeframe); var idx := FindIndex(candles, s.time);
      Graded(candles, s.time) ==>
        pnl == (candles[idx + Horizon].close - candles[idx].close) / candles[idx].close * Direction(s.kind)
  {
    var candles := CandlesOf(byTf, s.timeframe);
    var idx := FindIndex(candles, s.time);
    if idx < 0 || idx + Horizon >= |candles| then 0.0
    else
      var entry := candles[idx].close;
      var exit := candles[idx + Horizon].close;
      (exit - entry) / entry * Direction(s.kind)
  }

  /** A signal is pending exactly when none of the bars with five more after them has its time. */
  lemma PendingExactly(candles: seq<Candle>, time: int)
    ensures (forall j :: 0 <= j < |candles| - Horizon ==> candles[j].time != time) <==> !Graded(candles, time)
  {
  }

  /** Otherwise it is the forward return from the first bar with the signal's time, signed by direction. */
  lemma GradedOutcome(byTf: map<Timeframe, seq<Candle>>, s: Signal, idx: nat)
    requires EntryCloseNonzero(byTf, s)
    requires var candles := CandlesOf(byTf, s.timeframe);
      idx + Horizon < |candles| && candles[idx].time == s.time &&
      forall j :: 0 <= j < idx ==> candles[j].time != s.time
    ensures var candles := CandlesOf(byTf, s.timeframe);
      candles[idx].close != 0.0 &&
      Outcome(byTf, s) == (candles[idx + Horizon].close - candles[idx].close) / candles[idx].close * Direction(s.kind)
  {
    var candles := CandlesOf(byTf, s.timeframe);
    var k := FindIndex(candles, s.time);
    assert k == idx;
  }

  /** A buy and a sell at the same bar get opposite outcomes. */
  lemma BuySellOpposite(byTf: map<Timeframe, seq<Candle>>, s: Signal)
    requires EntryCloseNonzero(byTf, s)
    ensures Outcome(byTf, s.(kind := Buy)) == -Outcome(byTf, s.(kind := Sell))
  {
  }

  /**
   * Appending bars after a graded signal's list, without the cap of 600, leaves
   * its outcome unchanged.  Through the updater this need not hold: see
   * `CapForgetsEntry` and `OpenExitBarRegraded`.
   */
  lemma OutcomeStable(byTf: map<Timeframe, seq<Candle>>, s: Signal, more: seq<Candle>)
    requires EntryCloseNonzero(byTf, s) && Graded(CandlesOf(byTf, s.timeframe), s.time)
    ensures var ext := byTf[s.timeframe := CandlesOf(byTf, s.timeframe) + more];
      EntryCloseNonzero(ext, s) && Outcome(ext, s) == Outcome(byTf, s)
  {
    var candles := CandlesOf(byTf, s.timeframe);
    var ext := byTf[s.timeframe := candles + more];
    FindIndexPrefix(candles, more, s.time);
    assert CandlesOf(ext, s.timeframe) == candles + more;
  }

  /**
   * The cap of 600 can drop a graded signal's bar: on a full, time-ordered list
   * whose first bar is the signal's, a newer candle pushes that bar out, and the
   * signal is then scored 0 as if it were still pending.
   */
  lemma CapForgetsEntry(byTf: map<Timeframe, seq<Candle>>, s: Signal, candle: Candle)
    requires var list := CandlesOf(byTf, s.timeframe);
      |list| == MaxCandles && StrictlyIncreasing(list) && list[0].time == s.time &&
      list[|list| - 1].time < candle.time
    ensures Graded(CandlesOf(byTf, s.timeframe), s.time)
    ensures var next := byTf[s.timeframe := UpsertList(CandlesOf(byTf, s.timeframe), candle)];
      !Graded(CandlesOf(next, s.timeframe), s.time) && EntryCloseNonzero(next, s) && Outcome(next, s) == 0.0
  {
    var list := CandlesOf(byTf, s.timeframe);
    var r := UpsertList(list, candle);
    var next := byTf[s.timeframe := r];
    assert FindIndex(list, s.time) == 0;
    assert !SameBar(list, candle);
    assert r == list[1..] + [candle] by {
      assert r[..|r| - 1] == list[1..];
      assert r == r[..|r| - 1] + [candle];
    }
    forall j | 0 <= j < |r|
      ensures r[j].time != s.time
    {
      if j < |r| - 1 {
        assert r[j] == list[j + 1];
      }
    }
    assert CandlesOf(next, s.timeframe) == r;
  }

  /**
   * The updater also takes in the still open bar: a candle for the last bar
   * replaces it, so a signal whose exit bar is that bar is graded on its running
   * close, and its outcome moves with every update of the bar.
   */
  lemma OpenExitBarRegraded(byTf: map<Timeframe, seq<Candle>>, s: Signal, candle: Candle)
    requires var list := CandlesOf(byTf, s.timeframe);
      SameBar(list, candle) && |list| <= MaxCandles &&
      0 <= FindIndex(list, s.time) && FindIndex(list, s.time) + Horizon == |list| - 1
    requires EntryCloseNonzero(byTf, s)
    ensures var list := CandlesOf(byTf, s.timeframe);
      var entry := list[FindIndex(list, s.time)].close;
      var next := byTf[s.timeframe := UpsertList(list, candle)];
      EntryCloseNonzero(next, s) &&
      Outcome(next, s) == (candle.close - entry) / entry * Direction(s.kind)
  {
    var list := CandlesOf(byTf, s.timeframe);
    var idx := FindIndex(list, s.time);
    var r := UpsertList(list, candle);
    var next := byTf[s.timeframe := r];
    UpsertSameBar(list, candle);
    assert CandlesOf(next, s.timeframe) == r;
    forall j | 0 <= j <= idx
      ensures r[j] == list[j]
    {
      assert r[..|list| - 1][j] == list[..|list| - 1][j];
    }
    assert FindIndex(r, s.time) == idx;
  }

  /** A match in a prefix is found in the prefix. */
  lemma {:induction false} FindIndexPrefix(candles: seq<Candle>, more: seq<Candle>, time: int)
    requires FindIndex(candles, time) >= 0
    ensures FindIndex(candles + more, time) == FindIndex(candles, time)
    decreases |candles|
  {
    if candles[0].time != time {
      assert (candles + more)[1..] == candles[1..] + more;
      FindIndexPrefix(candles[1..], more, time);
    }
  }

  /** The signals of one pass of the learning loop and their outcomes, position by position. */
  datatype Grading = Grading(recent: seq<Signal>, outcomes: seq<real>)

  /**
   * One pass of the learning loop before the weight update: nothing when learning
   * is off or there are no signals, otherwise the last 20 signals and the outcome
   * of each.
   */
  function GradeRecent(learning: bool, signals: seq<Signal>, byTf: map<Timeframe, seq<Candle>>): (g: Option<Grading>)
    requires forall s :: s in KeepLast(signals, GradedSignals) ==> EntryCloseNonzero(byTf, s)
    ensures g.None? <==> !learning || |signals| == 0
    ensures g.Some? ==>
      var n := if |signals| <= GradedSignals then |signals| else GradedSignals;
      g.value.recent == signals[|signals| - n..] &&
      |g.value.outcomes| == n &&
      forall i :: 0 <= i < n ==> g.value.outcomes[i] == Outcome(byTf, g.value.recent[i])
  {
    if !learning then None
    else
      var recent := KeepLast(signals, GradedSignals);
      if |recent| == 0 then None
      else Some(Grading(recent, seq(|recent|, i requires 0 <= i < |recent| => Outcome(byTf, recent[i]))))
  }
}
