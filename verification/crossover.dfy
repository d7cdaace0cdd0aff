/** The crossover-gated strategies: DualMAStrategy (95% of cash, with a
    pending-order guard and a trade counter), DualMovingAverageStrategy (same
    guard, sizer-chosen order sizes) and SimpleMAStrategy (no guard at all).
    Each is a two-state machine, flat or holding, driven by the sign of the
    moving-average crossover that backtrader computes. */
module Crossover {
  import opened Wrappers
  import opened Sizing
  import opened Orders

  /** What `notify_order` records in both guarded strategies: the pending
      order handle, the last buy fill's price and commission, and the bar on
      which the last order completed. */
  datatype Guarded = Guarded(
    order: Option<Request>,
    buyPrice: Option<real>,
    buyComm: Option<real>,
    barExecuted: Option<int>)

  const NoOrders: Guarded := Guarded(None, None, None, None)

  /** A fill or status change as `notify_order` receives it. */
  datatype Notice = Notice(status: Status, isBuy: bool, price: real, comm: real, barLen: int)

  /** `notify_order` of DualMAStrategy and DualMovingAverageStrategy: nothing
      on submitted/accepted; a completed buy records its price and commission;
      any completed order records the bar; every other status only clears the
      handle. */
  function NotifyOrder(g: Guarded, n: Notice): (r: Guarded)
    ensures InFlight(n.status) ==> r == g
    ensures !InFlight(n.status) ==> r.order.None?
    ensures n.status == Completed && n.isBuy ==> r.buyPrice == Some(n.price) && r.buyComm == Some(n.comm)
    ensures !(n.status == Completed && n.isBuy) ==> r.buyPrice == g.buyPrice && r.buyComm == g.buyComm
    ensures n.status == Completed ==> r.barExecuted == Some(n.barLen)
    ensures n.status != Completed ==> r.barExecuted == g.barExecuted
  {
    if InFlight(n.status) then g
    else if n.status == Completed then
      var g1 := if n.isBuy then g.(buyPrice := Some(n.price), buyComm := Some(n.comm)) else g;
      g1.(barExecuted := Some(n.barLen), order := HandleAfter(g.order, n.status))
    else g.(order := HandleAfter(g.order, n.status))
  }

  // ---------------------------------------------------------------------------
  // DualMAStrategy
  // ---------------------------------------------------------------------------

  /** DualMAStrategy's fields: the guarded order state and the number of
      closed trades. */
  datatype DualMA = DualMA(guard: Guarded, tradeCount: nat)

  /** `position_pct`'s default. */
  const DefaultPositionPct: real := 0.95

  /** DualMAStrategy's `next`: with an order pending nothing; when flat on a
      golden cross, buy `int(cash * position_pct / price)` shares if that is
      positive; when holding on a death cross, sell the whole position. Only
      the buying branch divides by the price: at a zero price it raises
      ZeroDivisionError, which the precondition leaves out; at a negative
      price the quotient truncates toward zero like any other. */
  function DualMANext(s: DualMA, crossover: real, position: int, cash: real, price: real,
                      positionPct: real): (r: (DualMA, Option<Request>))
    requires s.guard.order.None? && position == 0 && crossover > 0.0 ==> price != 0.0
    ensures s.guard.order.Some? ==> r == (s, None)
    ensures r.1.Some? ==> s.guard.order.None? && r.0 == s.(guard := s.guard.(order := r.1))
    ensures r.1.None? ==> r.0 == s
    ensures r.1.Some? && r.1.value.side == Buy ==>
      position == 0 && crossover > 0.0 &&
      r.1.value.size.Some? && r.1.value.size.value > 0 &&
      r.1.value.size.value == Trunc(cash * positionPct / price)
    // at a positive price the buy is the largest share count within budget
    ensures r.1.Some? && r.1.value.side == Buy && price > 0.0 ==>
      r.1.value.size.value as real * price <= cash * positionPct &&
      cash * positionPct < (r.1.value.size.value + 1) as real * price
    ensures r.1.Some? && r.1.value.side == Sell ==>
      position != 0 && crossover < 0.0 && r.1.value.size == Some(position)
    ensures crossover == 0.0 ==> r.1.None?
    ensures s.guard.order.None? && position == 0 && crossover > 0.0 ==>
      (r.1.Some? <==> Trunc(cash * positionPct / price) > 0)
    ensures s.guard.order.None? && position == 0 && crossover > 0.0 && price > 0.0 ==>
      (r.1.Some? <==> Shares(cash * positionPct, price) > 0)
    // a negative price with a non-negative budget never buys
    ensures price < 0.0 && cash * positionPct >= 0.0 ==> r.1.None? || r.1.value.side == Sell
    ensures s.guard.order.None? && position != 0 && crossover < 0.0 ==>
      r.1 == Some(Request(Sell, Some(position)))
  {
    if s.guard.order.Some? then (s, None)
    else if position == 0 then
      if crossover > 0.0 then
        var size := Trunc(cash * positionPct / price);
        assert price > 0.0 ==> size == Shares(cash * positionPct, price);
        if size > 0 then
          var req := Request(Buy, Some(size));
          (s.(guard := s.guard.(order := Some(req))), Some(req))
        else (s, None)
      else (s, None)
    else if crossover < 0.0 then
      var req := Request(Sell, Some(position));
      (s.(guard := s.guard.(order := Some(req))), Some(req))
    else (s, None)
  }

  /** DualMAStrategy's `notify_trade`: a closed trade increments the counter,
      an open-trade notice changes nothing. */
  function DualMATrade(s: DualMA, closed: bool): (r: DualMA)
    ensures closed ==> r.tradeCount == s.tradeCount + 1
    ensures !closed ==> r == s
    ensures r.guard == s.guard
  {
    if closed then s.(tradeCount := s.tradeCount + 1) else s
  }

  /** The trade counter after a sequence of trade notices. */
  function CountTrades(s: DualMA, closes: seq<bool>): (r: DualMA)
    ensures r.guard == s.guard
    decreases |closes|
  {
    if closes == [] then s else CountTrades(DualMATrade(s, closes[0]), closes[1..])
  }

  /** How many of a sequence of notices report a closed trade. */
  function Closed(closes: seq<bool>): nat {
    if closes == [] then 0 else (if closes[0] then 1 else 0) + Closed(closes[1..])
  }

  /** The counter grows by exactly the number of closed-trade notices. */
  lemma {:induction false} CountTradesExact(s: DualMA, closes: seq<bool>)
    ensures CountTrades(s, closes).tradeCount == s.tradeCount + Closed(closes)
    decreases |closes|
  {
    if closes != [] {
      CountTradesExact(DualMATrade(s, closes[0]), closes[1..]);
    }
  }

  // ---------------------------------------------------------------------------
  // DualMovingAverageStrategy
  // ---------------------------------------------------------------------------

  /** DualMovingAverageStrategy's `next`: the same gating as DualMAStrategy,
      but `buy()` and `sell()` leave the size to the broker's sizer. */
  function DualMovingAverageNext(g: Guarded, crossover: real, position: int): (r: (Guarded, Option<Request>))
    ensures g.order.Some? ==> r == (g, None)
    ensures r.1.Some? ==> g.order.None? && r.0 == g.(order := r.1) && r.1.value.size.None?
    ensures r.1.None? ==> r.0 == g
    ensures r.1.Some? && r.1.value.side == Buy <==> g.order.None? && position == 0 && crossover > 0.0
    ensures r.1.Some? && r.1.value.side == Sell <==> g.order.None? && position != 0 && crossover < 0.0
  {
    if g.order.Some? then (g, None)
    else
      var req :=
        if position == 0 then (if crossover > 0.0 then Some(Request(Buy, None)) else None)
        else if crossover < 0.0 then Some(Request(Sell, None))
        else None;
      (if req.Some? then g.(order := req) else g, req)
  }

  // ---------------------------------------------------------------------------
  // SimpleMAStrategy
  // ---------------------------------------------------------------------------

  /** SimpleMAStrategy's `next`: buy when flat on a golden cross, sell when
      holding on a death cross; it keeps no order handle. */
  function SimpleNext(position: int, crossover: real): (r: Option<Request>)
    ensures r.Some? && r.value.side == Buy <==> position == 0 && crossover > 0.0
    ensures r.Some? && r.value.side == Sell <==> position != 0 && crossover < 0.0
    ensures r.Some? ==> r.value.size.None?
  {
    if position == 0 then
      if crossover > 0.0 then Some(Request(Buy, None)) else None
    else if crossover < 0.0 then Some(Request(Sell, None))
    else None
  }

  /** The sign of the crossover value. */
  function Sign(x: real): int {
    if x > 0.0 then 1 else if x < 0.0 then -1 else 0
  }

  /** SimpleMAStrategy's decision depends only on whether a position is held
      and on the sign of the crossover. */
  lemma SimpleDependsOnlyOnSigns(p: int, x: real, p': int, x': real)
    requires (p == 0) == (p' == 0) && Sign(x) == Sign(x')
    ensures SimpleNext(p, x) == SimpleNext(p', x')
  {
  }

  /** The guard makes the difference: while a buy is still unfilled and the
      position still flat, a further golden cross makes SimpleMAStrategy buy
      again, whereas DualMovingAverageStrategy places nothing. */
  lemma GuardStopsSecondOrder(g: Guarded, x: real, x': real)
    requires g.order.None? && x > 0.0 && x' > 0.0
    ensures var (g1, first) := DualMovingAverageNext(g, x, 0);
      first.Some? && DualMovingAverageNext(g1, x', 0).1.None?
    ensures SimpleNext(0, x).Some? && SimpleNext(0, x').Some?
  {
  }
}
