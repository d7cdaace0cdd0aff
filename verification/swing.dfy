/** The monthly swing strategy engine: MonthlySwingStrategy and
    MonthlySwingOptimized as one engine parameterised by entry mode.

    Indicator values (MACD crossover sign, MA60, MA120, RSI, volume average)
    are computed by backtrader and arrive as per-bar inputs; the broker's cash,
    portfolio value and position size arrive as inputs too. */
module Swing {
  import opened Wrappers
  import opened Sizing
  import opened Orders

  // ---------------------------------------------------------------------------
  // Configuration, per-bar inputs and per-position state
  // ---------------------------------------------------------------------------

  /** `strict` requires all three entry conditions; any other mode counts them. */
  datatype EntryMode = Strict | Flexible(minConditions: int)

  /** The strategy parameters the per-bar logic reads. Indicator periods other
      than `maLong` and `volumePeriod` only shape the indicator inputs. */
  datatype Config = Config(
    maLong: int,
    volumePeriod: int,
    volumeThreshold: real,
    rsiOverbought: real,
    stopLossPct: real,
    takeProfitPct: real,
    trailingStopPct: real,
    pullbackPct: real,
    initialPosition: real,
    addPosition: real,
    maxPosition: real,
    mode: EntryMode)

  /** MonthlySwingStrategy's parameter defaults. */
  function StrictDefaults(): Config {
    Config(120, 3, 1.3, 70.0, 0.08, 0.15, 0.05, 0.03, 0.30, 0.20, 0.50, Strict)
  }

  /** MonthlySwingOptimized's parameter defaults: a lower volume threshold and
      two of three entry conditions. */
  function OptimizedDefaults(): Config {
    Config(120, 3, 1.2, 70.0, 0.08, 0.15, 0.05, 0.03, 0.30, 0.20, 0.50, Flexible(2))
  }

  /** The add size divides by `1 - add_position`. */
  predicate ValidConfig(c: Config) {
    c.addPosition != 1.0
  }

  /** One bar as `next` sees it. `barsSeen` is the length of the data feed so
      far (the feed and its volume line have the same length). */
  datatype Bar = Bar(
    barsSeen: int,
    close: real,
    volume: real,
    crossover: real,
    maShort: real,
    maLong: real,
    rsi: real,
    volumeMa: real)

  /** Sizing divides by the close. */
  predicate ValidBar(b: Bar) {
    b.close > 0.0
  }

  /** What the broker reports: position size, cash and total portfolio value. */
  datatype Account = Account(position: int, cash: real, value: real)

  /** The strategy's own fields: the pending order handle, the entry price,
      the highest close since entry, whether an add was placed, and the
      position fraction the strategy believes it holds. */
  datatype State = State(
    order: Option<Request>,
    entryPrice: Option<real>,
    highestPrice: Option<real>,
    hasAdded: bool,
    positionPct: real)

  /** The fields as `__init__` sets them. */
  const Fresh: State := State(None, None, None, false, 0.0)

  /** The prices the checks divide by are positive. */
  predicate PricesPositive(s: State) {
    && (s.entryPrice.Some? ==> s.entryPrice.value > 0.0)
    && (s.highestPrice.Some? ==> s.highestPrice.value > 0.0)
  }

  /** What `check_exit_signal` needs: a held position has a highest price to
      compare with (the source raises a TypeError comparing with `None`). */
  predicate Ready(s: State, a: Account) {
    PricesPositive(s) && (a.position != 0 ==> s.highestPrice.Some?)
  }

  function Max(x: real, y: real): real {
    if x >= y then x else y
  }

  /** `ratio >= threshold` for `ratio = num / den` with a positive denominator,
      stated without division. */
  lemma RatioAtLeast(num: real, den: real, threshold: real)
    requires den > 0.0
    ensures num / den >= threshold <==> num >= threshold * den
  {
    var q := num / den;
    assert q * den == num;
    if q >= threshold {
      MulMonotone(threshold, q, den);
    } else {
      MulMonotone(q, threshold, den);
    }
  }

  // ---------------------------------------------------------------------------
  // Entry signal
  // ---------------------------------------------------------------------------

  /** Condition 1: the MACD line crossed above its signal line on this bar. */
  predicate GoldenCross(b: Bar) {
    b.crossover > 0.0
  }

  /** Condition 2: the close is above the short moving average (MA60). */
  predicate AboveMaShort(b: Bar) {
    b.close > b.maShort
  }

  /** Condition 3: more than `volume_period` bars, and volume above its average
      times the threshold. */
  predicate VolumeSurge(b: Bar, c: Config) {
    b.barsSeen > c.volumePeriod && b.volume > b.volumeMa * c.volumeThreshold
  }

  /** The list `[condition1, condition2, condition3]`. */
  function Conditions(b: Bar, c: Config): (cs: seq<bool>)
    ensures |cs| == 3
  {
    [GoldenCross(b), AboveMaShort(b), VolumeSurge(b, c)]
  }

  /** Python's `sum()` over a list of booleans. */
  function Count(cs: seq<bool>): (n: nat)
    ensures n <= |cs|
    ensures n == |cs| <==> forall i | 0 <= i < |cs| :: cs[i]
  {
    if cs == [] then 0
    else
      var rest := Count(cs[1..]);
      assert forall i | 1 <= i < |cs| :: cs[i] == cs[1..][i - 1];
      (if cs[0] then 1 else 0) + rest
  }

  /** Python's `all()` over a list of booleans. */
  predicate All(cs: seq<bool>) {
    forall i | 0 <= i < |cs| :: cs[i]
  }

  /** `check_entry_signal`: nothing before `ma_long` bars; then all three
      conditions in strict mode, or at least `min_conditions` of them. */
  function CheckEntry(b: Bar, c: Config): (r: bool)
    ensures b.barsSeen < c.maLong ==> !r
    ensures c.mode.Strict? ==>
      (r <==> b.barsSeen >= c.maLong && GoldenCross(b) && AboveMaShort(b) && VolumeSurge(b, c))
    ensures c.mode.Flexible? ==>
      (r <==> b.barsSeen >= c.maLong && Count(Conditions(b, c)) >= c.mode.minConditions)
  {
    if b.barsSeen < c.maLong then false
    else
      var cs := Conditions(b, c);
      assert cs[0] == GoldenCross(b) && cs[1] == AboveMaShort(b) && cs[2] == VolumeSurge(b, c);
      match c.mode
      case Strict => All(cs)
      case Flexible(k) => Count(cs) >= k
  }

  /** MonthlySwingOptimized's `check_entry_signal` as written: once at least
      `min_conditions` conditions hold it logs the ratio `volume / volume_ma`
      before deciding, and that division raises ZeroDivisionError (`None`
      here) when the volume average is 0. Otherwise it decides as
      `CheckEntry`. */
  function CheckEntryAsWritten(b: Bar, c: Config, minConditions: int): (r: Option<bool>)
    requires c.mode.Flexible? ==> minConditions == c.mode.minConditions
    ensures r.None? <==>
      b.barsSeen >= c.maLong && Count(Conditions(b, c)) >= minConditions && b.volumeMa == 0.0
    ensures r.Some? ==> r.value == CheckEntry(b, c)
  {
    if b.barsSeen < c.maLong then Some(false)
    else if Count(Conditions(b, c)) >= minConditions && b.volumeMa == 0.0 then None
    else Some(CheckEntry(b, c))
  }

  /** On a zero-volume bar with a MACD golden cross and the close above MA60,
      the default optimized strategy should enter (two of three conditions
      hold), but the log line's division by the zero volume average raises
      first. */
  lemma ZeroVolumeAverageRaises()
    ensures var b := Bar(120, 10.0, 0.0, 1.0, 9.0, 8.0, 50.0, 0.0);
      CheckEntry(b, OptimizedDefaults()) && CheckEntryAsWritten(b, OptimizedDefaults(), 2).None?
  {
    var b := Bar(120, 10.0, 0.0, 1.0, 9.0, 8.0, 50.0, 0.0);
    TwoOfThree(b, OptimizedDefaults());
  }

  /** Every bar strict mode accepts, flexible mode with at most three required
      conditions accepts too. */
  lemma StrictImpliesFlexible(b: Bar, c: Config, k: int)
    requires k <= 3
    ensures CheckEntry(b, c.(mode := Strict)) ==> CheckEntry(b, c.(mode := Flexible(k)))
  {
    var cs := Conditions(b, c);
    if CheckEntry(b, c.(mode := Strict)) {
      assert cs[0] && cs[1] && cs[2];
      assert Count(cs) == 3;
    }
  }

  /** Lowering `min_conditions` never turns an accepted bar into a rejected one. */
  lemma FlexibleMonotone(b: Bar, c: Config, k: int, k': int)
    requires k' <= k
    ensures CheckEntry(b, c.(mode := Flexible(k))) ==> CheckEntry(b, c.(mode := Flexible(k')))
  {
  }

  /** With `min_conditions = 2` a bar is accepted iff some two of the three
      conditions hold. */
  lemma {:induction false} TwoOfThree(b: Bar, c: Config)
    requires c.mode == Flexible(2)
    ensures CheckEntry(b, c) <==>
      b.barsSeen >= c.maLong &&
      ((GoldenCross(b) && AboveMaShort(b)) ||
       (GoldenCross(b) && VolumeSurge(b, c)) ||
       (AboveMaShort(b) && VolumeSurge(b, c)))
  {
    var cs := Conditions(b, c);
    assert cs[1..][1..][1..] == [];
    assert Count(cs) == (if cs[0] then 1 else 0) + (if cs[1] then 1 else 0) + (if cs[2] then 1 else 0) by {
      assert Count(cs[1..][1..][1..]) == 0;
    }
  }

  /** The count is raw: with `min_conditions = 1` a volume surge alone is
      enough to enter, with no crossover and the close below MA60. */
  lemma VolumeAloneCanEnter(b: Bar, c: Config)
    requires c.mode == Flexible(1) && b.barsSeen >= c.maLong
    requires !GoldenCross(b) && !AboveMaShort(b) && VolumeSurge(b, c)
    ensures CheckEntry(b, c)
  {
    var cs := Conditions(b, c);
    assert cs[2];
  }

  // ---------------------------------------------------------------------------
  // Stop-loss, exit and add-position checks
  // ---------------------------------------------------------------------------

  /** `check_stop_loss`: when holding with an entry price, a loss from entry of
      at least `stop_loss_pct`, or a close below the long moving average. */
  function CheckStopLoss(s: State, b: Bar, a: Account, c: Config): (r: bool)
    requires PricesPositive(s)
    ensures r <==>
      a.position != 0 && s.entryPrice.Some? &&
      (b.close <= s.entryPrice.value * (1.0 - c.stopLossPct) || b.close < b.maLong)
  {
    if a.position == 0 || s.entryPrice.None? then false
    else
      var entry := s.entryPrice.value;
      RatioAtLeast(entry - b.close, entry, c.stopLossPct);
      (entry - b.close) / entry >= c.stopLossPct || b.close < b.maLong
  }

  /** The result of `check_exit_signal`: whether to exit, and the highest price
      after the check's own update. */
  datatype ExitCheck = ExitCheck(exit: bool, highest: Option<real>)

  /** `check_exit_signal`: when holding, first raise the highest price to the
      close, then exit on a MACD death cross with RSI overbought, a drawdown
      from the highest price of at least `trailing_stop_pct`, or a gain from
      entry of at least `take_profit_pct`. */
  function CheckExit(s: State, b: Bar, a: Account, c: Config): (r: ExitCheck)
    requires Ready(s, a)
    ensures a.position == 0 ==> r == ExitCheck(false, s.highestPrice)
    ensures a.position != 0 ==> r.highest == Some(Max(s.highestPrice.value, b.close))
    ensures a.position != 0 ==>
      (r.exit <==>
        (b.crossover < 0.0 && b.rsi > c.rsiOverbought) ||
        b.close <= r.highest.value * (1.0 - c.trailingStopPct) ||
        (s.entryPrice.Some? && b.close >= s.entryPrice.value * (1.0 + c.takeProfitPct)))
  {
    if a.position == 0 then ExitCheck(false, s.highestPrice)
    else
      var high := if b.close > s.highestPrice.value then b.close else s.highestPrice.value;
      RatioAtLeast(high - b.close, high, c.trailingStopPct);
      var deathCross := b.crossover < 0.0 && b.rsi > c.rsiOverbought;
      var trailing := (high - b.close) / high >= c.trailingStopPct;
      var profit :=
        if s.entryPrice.Some? then
          var entry := s.entryPrice.value;
          RatioAtLeast(b.close - entry, entry, c.takeProfitPct);
          (b.close - entry) / entry >= c.takeProfitPct
        else false;
      ExitCheck(deathCross || trailing || profit, Some(high))
  }

  /** The trailing drawdown the exit check measures is never negative, since
      the highest price has just been raised to at least the close. */
  lemma DrawdownNonNegative(s: State, b: Bar, a: Account, c: Config)
    requires Ready(s, a) && ValidBar(b) && a.position != 0
    ensures CheckExit(s, b, a, c).highest.value >= b.close
    ensures (CheckExit(s, b, a, c).highest.value - b.close) / CheckExit(s, b, a, c).highest.value >= 0.0
  {
    var h := CheckExit(s, b, a, c).highest.value;
    RatioAtLeast(h - b.close, h, 0.0);
  }

  /** `check_add_position_signal`: not yet added, holding with an entry price,
      below `max_position`, pulled back from entry by at least `pullback_pct`,
      and the stop-loss would not fire. */
  function CheckAdd(s: State, b: Bar, a: Account, c: Config): (r: bool)
    requires PricesPositive(s)
    ensures r <==>
      !s.hasAdded && a.position != 0 && s.entryPrice.Some? &&
      s.positionPct < c.maxPosition &&
      b.close <= s.entryPrice.value * (1.0 - c.pullbackPct) &&
      !CheckStopLoss(s, b, a, c)
  {
    if s.hasAdded || a.position == 0 || s.entryPrice.None? then false
    else if s.positionPct >= c.maxPosition then false
    else
      var entry := s.entryPrice.value;
      RatioAtLeast(entry - b.close, entry, c.pullbackPct);
      (entry - b.close) / entry >= c.pullbackPct && !CheckStopLoss(s, b, a, c)
  }

  /** An add fires only inside the pullback window: the close has fallen by at
      least `pullback_pct` from entry but by less than `stop_loss_pct` (with the
      defaults, a pullback in [3%, 8%)). */
  lemma AddPullbackWindow(s: State, b: Bar, a: Account, c: Config)
    requires PricesPositive(s) && CheckAdd(s, b, a, c)
    ensures s.entryPrice.value * (1.0 - c.stopLossPct) < b.close <= s.entryPrice.value * (1.0 - c.pullbackPct)
    ensures b.close >= b.maLong
  {
  }

  // ---------------------------------------------------------------------------
  // One bar: `next`
  // ---------------------------------------------------------------------------

  /** What `next` did on one bar. `Waiting`: an order was pending. `Idle`: no
      order was placed (including an add or entry whose size came out as 0). */
  datatype Decision =
    | Waiting
    | StopLoss(size: int)
    | Exit(size: int)
    | Add(size: int)
    | Enter(size: int)
    | Idle

  datatype Outcome = Outcome(state: State, decision: Decision)

  /** The order a decision submits, if any. */
  function OrderOf(d: Decision): Option<Request> {
    match d
    case StopLoss(n) => Some(Request(Sell, Some(n)))
    case Exit(n) => Some(Request(Sell, Some(n)))
    case Add(n) => Some(Request(Buy, Some(n)))
    case Enter(n) => Some(Request(Buy, Some(n)))
    case _ => None
  }

  /** The cash an add may spend: `add_position / (1 - add_position)` of the cash. */
  function AddBudget(a: Account, c: Config): real
    requires ValidConfig(c)
  {
    a.cash * c.addPosition / (1.0 - c.addPosition)
  }

  /** The value an entry may buy: `initial_position` of the portfolio value. */
  function EntryBudget(a: Account, c: Config): real {
    a.value * c.initialPosition
  }

  /** The size `next` computes for an add: `add_position / (1 - add_position)`
      of the cash, in whole lots. */
  function AddSize(b: Bar, a: Account, c: Config): (n: int)
    requires ValidConfig(c) && ValidBar(b)
    ensures n % LotShares == 0
    ensures n > 0 ==> n as real * b.close <= AddBudget(a, c)
    // the largest such lot count: one more lot would exceed the budget
    ensures 0.0 <= AddBudget(a, c) ==> 0 <= n && AddBudget(a, c) < (n + LotShares) as real * b.close
    ensures AddBudget(a, c) < 0.0 ==> n <= 0
  {
    Lots(AddBudget(a, c), b.close)
  }

  /** The size `next` computes for an entry: `initial_position` of the total
      portfolio value, in whole lots. */
  function EntrySize(b: Bar, a: Account, c: Config): (n: int)
    requires ValidBar(b)
    ensures n % LotShares == 0
    ensures n > 0 ==> n as real * b.close <= EntryBudget(a, c)
    // the largest such lot count: one more lot would exceed the budget
    ensures 0.0 <= EntryBudget(a, c) ==> 0 <= n && EntryBudget(a, c) < (n + LotShares) as real * b.close
    ensures EntryBudget(a, c) < 0.0 ==> n <= 0
  {
    Lots(EntryBudget(a, c), b.close)
  }

  /** The add and entry part of `next`, reached when neither stop-loss nor
      exit fired: an add when the add check passes, otherwise an entry when
      flat and the entry check passes, each only with a positive lot size. */
  function Opportunity(s: State, b: Bar, a: Account, c: Config): (o: Outcome)
    requires ValidConfig(c) && ValidBar(b) && PricesPositive(s) && s.order.None?
    ensures o.state.order == OrderOf(o.decision)
    ensures o.decision.Add? || o.decision.Enter? || o.decision.Idle?
    ensures o.decision.Add? ==> CheckAdd(s, b, a, c)
    ensures o.decision.Enter? ==> !CheckAdd(s, b, a, c) && a.position == 0 && CheckEntry(b, c)
    ensures CheckAdd(s, b, a, c) && AddSize(b, a, c) <= 0 ==> o.decision.Idle?
    // an add or entry whose check passes is placed, with the computed size
    ensures CheckAdd(s, b, a, c) && AddSize(b, a, c) > 0 ==> o.decision == Add(AddSize(b, a, c))
    ensures !CheckAdd(s, b, a, c) && a.position == 0 && CheckEntry(b, c) ==>
      o.decision == (if EntrySize(b, a, c) > 0 then Enter(EntrySize(b, a, c)) else Idle)
    ensures !CheckAdd(s, b, a, c) && !(a.position == 0 && CheckEntry(b, c)) ==> o.decision.Idle?
    ensures o.decision.Add? ==>
      o.decision.size > 0 && o.decision.size % LotShares == 0 &&
      o.decision.size as real * b.close <= AddBudget(a, c)
    ensures o.decision.Enter? ==>
      o.decision.size > 0 && o.decision.size % LotShares == 0 &&
      o.decision.size as real * b.close <= EntryBudget(a, c)
    ensures o.decision.Add? ==> o.state.hasAdded && o.state.positionPct == c.maxPosition
    ensures o.decision.Enter? ==> o.state.positionPct == c.initialPosition && o.state.hasAdded == s.hasAdded
    ensures o.decision.Idle? ==> o.state == s
    ensures o.state.entryPrice == s.entryPrice && o.state.highestPrice == s.highestPrice
  {
    if CheckAdd(s, b, a, c) then
      var size := AddSize(b, a, c);
      if size > 0 then
        Outcome(s.(order := OrderOf(Add(size)), hasAdded := true, positionPct := c.maxPosition), Add(size))
      else Outcome(s, Idle)
    else if a.position == 0 && CheckEntry(b, c) then
      var size := EntrySize(b, a, c);
      if size > 0 then
        Outcome(s.(order := OrderOf(Enter(size)), positionPct := c.initialPosition), Enter(size))
      else Outcome(s, Idle)
    else Outcome(s, Idle)
  }

  /** `next`: with an order pending nothing happens; otherwise the first of
      stop-loss, exit, add-position and entry that fires places the one order
      of this bar. */
  function Step(s: State, b: Bar, a: Account, c: Config): (o: Outcome)
    requires ValidConfig(c) && ValidBar(b) && Ready(s, a)
    // a pending order blocks the whole bar
    ensures s.order.Some? ==> o == Outcome(s, Waiting)
    ensures s.order.None? ==> !o.decision.Waiting?
    // the submitted order is recorded as pending, and only it
    ensures s.order.None? ==> o.state.order == OrderOf(o.decision)
    // precedence: stop-loss, then exit, then add, then entry
    ensures s.order.None? ==> (o.decision.StopLoss? <==> CheckStopLoss(s, b, a, c))
    ensures o.decision.Exit? <==>
      s.order.None? && !CheckStopLoss(s, b, a, c) && CheckExit(s, b, a, c).exit
    ensures o.decision.Add? ==>
      !CheckStopLoss(s, b, a, c) && !CheckExit(s, b, a, c).exit && CheckAdd(s, b, a, c)
    ensures o.decision.Enter? ==>
      !CheckStopLoss(s, b, a, c) && !CheckExit(s, b, a, c).exit && !CheckAdd(s, b, a, c) &&
      a.position == 0 && CheckEntry(b, c)
    // sells close the whole position
    ensures o.decision.StopLoss? || o.decision.Exit? ==> o.decision.size == a.position
    // buys are positive whole lots within their budget
    ensures o.decision.Add? ==>
      o.decision.size > 0 && o.decision.size % LotShares == 0 &&
      o.decision.size as real * b.close <= AddBudget(a, c)
    ensures o.decision.Enter? ==>
      o.decision.size > 0 && o.decision.size % LotShares == 0 &&
      o.decision.size as real * b.close <= EntryBudget(a, c)
    // a zero-sized add places nothing and skips the entry check
    ensures (s.order.None? && !CheckStopLoss(s, b, a, c) && !CheckExit(s, b, a, c).exit &&
             CheckAdd(s, b, a, c) && AddSize(b, a, c) <= 0) ==> o.decision.Idle?
    // an add or entry whose check passes is placed, with the computed size
    ensures (s.order.None? && !CheckStopLoss(s, b, a, c) && !CheckExit(s, b, a, c).exit &&
             CheckAdd(s, b, a, c) && AddSize(b, a, c) > 0) ==> o.decision == Add(AddSize(b, a, c))
    ensures (s.order.None? && !CheckStopLoss(s, b, a, c) && !CheckExit(s, b, a, c).exit &&
             !CheckAdd(s, b, a, c) && a.position == 0 && CheckEntry(b, c)) ==>
      o.decision == (if EntrySize(b, a, c) > 0 then Enter(EntrySize(b, a, c)) else Idle)
    ensures (s.order.None? && !CheckStopLoss(s, b, a, c) && !CheckExit(s, b, a, c).exit &&
             !CheckAdd(s, b, a, c) && !(a.position == 0 && CheckEntry(b, c))) ==> o.decision.Idle?
    // the bookkeeping set at submission time
    ensures o.decision.Add? ==> o.state.hasAdded && o.state.positionPct == c.maxPosition
    ensures o.decision.Enter? ==> o.state.positionPct == c.initialPosition && o.state.hasAdded == s.hasAdded
    ensures !o.decision.Add? && !o.decision.Enter? ==>
      o.state.hasAdded == s.hasAdded && o.state.positionPct == s.positionPct
    // the entry price is never touched by `next`
    ensures o.state.entryPrice == s.entryPrice
    // the highest price moves only in the exit check, and only upward
    ensures o.decision.Waiting? || o.decision.StopLoss? ==> o.state.highestPrice == s.highestPrice
    ensures s.highestPrice.Some? ==>
      o.state.highestPrice.Some? && o.state.highestPrice.value >= s.highestPrice.value
    ensures s.highestPrice.None? ==> o.state.highestPrice.None?
    // past the stop-loss, the exit check's raised high is what is remembered
    ensures s.order.None? && !CheckStopLoss(s, b, a, c) ==> o.state.highestPrice == CheckExit(s, b, a, c).highest
  {
    if s.order.Some? then Outcome(s, Waiting)
    else if CheckStopLoss(s, b, a, c) then
      Outcome(s.(order := OrderOf(StopLoss(a.position))), StopLoss(a.position))
    else
      var ex := CheckExit(s, b, a, c);
      var s1 := s.(highestPrice := ex.highest);
      assert CheckAdd(s1, b, a, c) == CheckAdd(s, b, a, c);
      if ex.exit then
        Outcome(s1.(order := OrderOf(Exit(a.position))), Exit(a.position))
      else
        var o := Opportunity(s1, b, a, c);
        assert o.state.highestPrice == ex.highest;
        o
  }

  // ---------------------------------------------------------------------------
  // Notifications
  // ---------------------------------------------------------------------------

  /** `notify_order`: on submitted/accepted nothing changes; a completed buy
      sets the entry and highest price only if there is no entry price yet (an
      add fill leaves the entry price as it was, unaveraged); every other
      status clears the order handle. */
  function NotifyOrder(s: State, st: Status, isBuy: bool, price: real): (r: State)
    ensures InFlight(st) ==> r == s
    ensures !InFlight(st) ==> r.order.None?
    ensures r.hasAdded == s.hasAdded && r.positionPct == s.positionPct
    ensures st == Completed && isBuy && s.entryPrice.None? ==>
      r.entryPrice == Some(price) && r.highestPrice == Some(price)
    ensures !(st == Completed && isBuy && s.entryPrice.None?) ==>
      r.entryPrice == s.entryPrice && r.highestPrice == s.highestPrice
  {
    if InFlight(st) then s
    else
      var s1 :=
        if st == Completed && isBuy && s.entryPrice.None? then
          s.(entryPrice := Some(price), highestPrice := Some(price))
        else s;
      s1.(order := HandleAfter(s.order, st))
  }

  /** The return percentage `notify_trade` logs for a closed trade in
      MonthlySwingOptimized: net profit over trade value, or 0 for a trade of
      value 0. */
  function ReturnPct(pnlComm: real, value: real): (r: real)
    ensures value == 0.0 ==> r == 0.0
    ensures value != 0.0 ==> r * value == pnlComm * 100.0
  {
    if value != 0.0 then pnlComm / value * 100.0 else 0.0
  }

  /** The same percentage as MonthlySwingStrategy computes it, without the
      guard: `None` stands for the ZeroDivisionError raised at value 0. */
  function ReturnPctAsWritten(pnlComm: real, value: real): (r: Option<real>)
    ensures r.None? <==> value == 0.0
    ensures r.Some? ==> r.value * value == pnlComm * 100.0
  {
    if value == 0.0 then None else Some(pnlComm / value * 100.0)
  }

  /** The unguarded division fails on every trade of value 0, where the
      guarded version reports 0. */
  lemma ReturnPctZeroValue(pnlComm: real)
    ensures ReturnPctAsWritten(pnlComm, 0.0).None?
    ensures ReturnPct(pnlComm, 0.0) == 0.0
  {
  }

  /** `notify_trade`: an open-trade notice changes nothing; a closed trade
      resets the four position fields and reports the return percentage. The
      order handle is left alone. */
  function NotifyTrade(s: State, closed: bool, pnlComm: real, value: real): (r: (State, Option<real>))
    ensures !closed ==> r.0 == s && r.1.None?
    ensures closed ==>
      r.0.order == s.order && r.0.entryPrice.None? && r.0.highestPrice.None? &&
      !r.0.hasAdded && r.0.positionPct == 0.0
    ensures closed ==> r.1 == Some(ReturnPct(pnlComm, value))
  {
    if !closed then (s, None)
    else (s.(entryPrice := None, highestPrice := None, hasAdded := false, positionPct := 0.0),
          Some(ReturnPct(pnlComm, value)))
  }

  // ---------------------------------------------------------------------------
  // A whole run: strategy state plus the position the broker holds
  // ---------------------------------------------------------------------------

  /** The strategy's fields together with the broker's position size. */
  datatype Session = Session(state: State, position: int)

  /** What happens between and on bars. `OrderNotice` reports a status change
      of the pending order; a completed market order fills its full size at
      `price`. `pnlComm` and `tradeValue` are the broker's figures for the
      trade that a fill closes. */
  datatype Event =
    | NewBar(bar: Bar, cash: real, value: real)
    | OrderNotice(status: Status, price: real, pnlComm: real, tradeValue: real)

  /** Bars have a positive close and fills a positive price. */
  predicate ValidEvent(e: Event) {
    match e
    case NewBar(b, _, _) => ValidBar(b)
    case OrderNotice(st, price, _, _) => st != Partial && (st == Completed ==> price > 0.0)
  }

  /** The session invariant: entry and highest price are set together, the
      highest price is at least the entry price, a position is held exactly
      when an entry price is recorded, and a pending order has a positive size,
      a pending sell being for the whole position. */
  predicate Inv(ss: Session) {
    var s := ss.state;
    && ss.position >= 0
    && (s.entryPrice.Some? <==> s.highestPrice.Some?)
    && (s.entryPrice.Some? ==> 0.0 < s.entryPrice.value <= s.highestPrice.value)
    && (ss.position != 0 <==> s.entryPrice.Some?)
    && (s.order.Some? ==> s.order.value.size.Some? && s.order.value.size.value > 0)
    && (s.order.Some? && s.order.value.side == Sell ==> s.order.value.size.value == ss.position)
  }

  /** The session every backtest starts from. */
  lemma FreshInv()
    ensures Inv(Session(Fresh, 0))
  {
  }

  /** One event. On a bar, `next` runs against the current position. On an
      order notice, a completed order moves the position first (backtrader
      fills before notifying), then `notify_order` runs, then `notify_trade`
      if the fill took the position back to zero. */
  function Apply(ss: Session, e: Event, c: Config): (r: Session)
    requires ValidConfig(c) && ValidEvent(e) && Inv(ss)
    ensures Inv(r)
    ensures e.NewBar? ==> r.position == ss.position
    ensures e.OrderNotice? && ss.state.order.None? ==> r == ss
  {
    var s := ss.state;
    match e
    case NewBar(b, cash, value) =>
      var o := Step(s, b, Account(ss.position, cash, value), c);
      Session(o.state, ss.position)
    case OrderNotice(st, price, pnlComm, tradeValue) =>
      if s.order.None? then ss
      else
        var req := s.order.value;
        var filled := st == Completed;
        var pos :=
          if !filled then ss.position
          else if req.side == Buy then ss.position + req.size.value
          else ss.position - req.size.value;
        var s1 := NotifyOrder(s, st, req.side == Buy, price);
        var closed := ss.position != 0 && pos == 0;
        Session(NotifyTrade(s1, closed, pnlComm, tradeValue).0, pos)
  }

  /** A sequence of events from a session. */
  function Run(ss: Session, es: seq<Event>, c: Config): (r: Session)
    requires ValidConfig(c) && Inv(ss)
    requires forall i | 0 <= i < |es| :: ValidEvent(es[i])
    ensures Inv(r)
    decreases |es|
  {
    if es == [] then ss
    else Run(Apply(ss, es[0], c), es[1..], c)
  }

  /** Along any run the bar step's requirement holds: whenever a position is
      held, the highest price is known, is positive and is at least the entry
      price, so the trailing drawdown is defined and never negative. */
  lemma RunKeepsHighestAboveEntry(ss: Session, es: seq<Event>, c: Config)
    requires ValidConfig(c) && Inv(ss)
    requires forall i | 0 <= i < |es| :: ValidEvent(es[i])
    ensures var r := Run(ss, es, c);
      r.position != 0 ==>
        r.state.highestPrice.Some? && r.state.entryPrice.Some? &&
        0.0 < r.state.entryPrice.value <= r.state.highestPrice.value
    ensures Ready(Run(ss, es, c).state, Account(Run(ss, es, c).position, 0.0, 0.0))
  {
  }

  /** Because `has_added_position` is set when the add order is submitted, an
      add order that is then canceled still blocks every later add for the
      same position. */
  lemma CanceledAddBlocksLaterAdds(ss: Session, b: Bar, cash: real, value: real, c: Config,
                                   b': Bar, a': Account)
    requires ValidConfig(c) && ValidBar(b) && Inv(ss)
    ensures Step(ss.state, b, Account(ss.position, cash, value), c).decision.Add? ==>
      var after := Apply(Apply(ss, NewBar(b, cash, value), c), OrderNotice(Canceled, 0.0, 0.0, 0.0), c);
      after.position == ss.position && after.state.order.None? &&
      !CheckAdd(after.state, b', a', c)
  {
  }

  /** An add fill moves the position up but keeps the first fill's entry
      price: the entry price is not averaged. */
  lemma AddFillKeepsEntryPrice(ss: Session, price: real, c: Config)
    requires ValidConfig(c) && Inv(ss) && price > 0.0
    requires ss.position > 0 && ss.state.order.Some? && ss.state.order.value.side == Buy
    ensures var r := Apply(ss, OrderNotice(Completed, price, 0.0, 0.0), c);
      r.position == ss.position + ss.state.order.value.size.value &&
      r.state.entryPrice == ss.state.entryPrice &&
      r.state.order.None?
  {
  }

  /** A fill of the pending sell closes the trade and resets the position
      fields. */
  lemma SellFillResets(ss: Session, price: real, pnlComm: real, tradeValue: real, c: Config)
    requires ValidConfig(c) && Inv(ss) && price > 0.0
    requires ss.state.order.Some? && ss.state.order.value.side == Sell
    ensures var r := Apply(ss, OrderNotice(Completed, price, pnlComm, tradeValue), c);
      r.position == 0 && r.state == Fresh
  {
  }
}
