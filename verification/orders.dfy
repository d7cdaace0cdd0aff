/** Orders as the strategies see them through backtrader's notifications. */
module Orders {
  import opened Wrappers

  /** backtrader's order status values. */
  datatype Status =
    | Created
    | Submitted
    | Accepted
    | Partial
    | Completed
    | Canceled
    | Expired
    | Margin
    | Rejected

  datatype Side = Buy | Sell

  /** An order as a strategy submits it. `size` is `None` for `buy()` and
      `sell()` calls without a size, where backtrader's sizer chooses. */
  datatype Request = Request(side: Side, size: Option<int>)

  /** The statuses on which every strategy's `notify_order` returns early and
      keeps its order handle. */
  predicate InFlight(st: Status) {
    st == Submitted || st == Accepted
  }

  /** The order handle after a notification: the strategies keep it while the
      order is submitted or accepted and drop it on every other status. */
  function HandleAfter(handle: Option<Request>, st: Status): (h: Option<Request>)
    ensures h.Some? <==> handle.Some? && (st == Submitted || st == Accepted)
    ensures h.Some? ==> h == handle
  {
    if InFlight(st) then handle else None
  }
}
