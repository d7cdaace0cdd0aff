/** The daily-to-monthly aggregation the monthly swing runners perform before
    backtesting: resample by calendar month taking the first open, the highest
    high, the lowest low, the last close and the total volume, then drop the
    months that lack any of the four prices. */
module Monthly {
  import opened Wrappers

  datatype Date = Date(year: int, month: int, day: int)

  predicate ValidDate(d: Date) {
    1 <= d.month <= 12 && 1 <= d.day <= 31
  }

  /** Calendar order of dates. */
  predicate DateLe(a: Date, b: Date) {
    a.year < b.year || (a.year == b.year && (a.month < b.month || (a.month == b.month && a.day <= b.day)))
  }

  /** The month a date falls in, counted from year 0. */
  function MonthKey(d: Date): int {
    d.year * 12 + (d.month - 1)
  }

  /** Two valid dates share a key exactly when they share year and month. */
  lemma MonthKeyIdentifies(a: Date, b: Date)
    requires ValidDate(a) && ValidDate(b)
    ensures MonthKey(a) == MonthKey(b) <==> a.year == b.year && a.month == b.month
  {
  }

  /** The month key follows calendar order. */
  lemma MonthKeyMonotone(a: Date, b: Date)
    requires ValidDate(a) && ValidDate(b) && DateLe(a, b)
    ensures MonthKey(a) <= MonthKey(b)
  {
  }

  /** One daily row; a price or volume may be missing (NaN). */
  datatype Daily = Daily(date: Date, open: Option<real>, high: Option<real>, low: Option<real>,
                         close: Option<real>, volume: Option<real>)

  /** One monthly bar, labelled by its year and month. */
  datatype Bar = Bar(year: int, month: int, open: real, high: real, low: real, close: real, volume: real)

  function BarKey(b: Bar): int {
    b.year * 12 + (b.month - 1)
  }

  function Key(row: Daily): int {
    MonthKey(row.date)
  }

  /** The rows are in calendar order, as `sort_index` leaves them. */
  ghost predicate Chronological(rows: seq<Daily>) {
    && (forall i | 0 <= i < |rows| :: ValidDate(rows[i].date))
    && (forall i, j | 0 <= i < j < |rows| :: DateLe(rows[i].date, rows[j].date))
  }

  /** Month keys never decrease along the rows. */
  ghost predicate KeysSorted(rows: seq<Daily>) {
    forall i, j | 0 <= i < j < |rows| :: Key(rows[i]) <= Key(rows[j])
  }

  lemma ChronologicalKeysSorted(rows: seq<Daily>)
    requires Chronological(rows)
    ensures KeysSorted(rows)
  {
    forall i, j | 0 <= i < j < |rows|
      ensures Key(rows[i]) <= Key(rows[j])
    {
      MonthKeyMonotone(rows[i].date, rows[j].date);
    }
  }

  // ---------------------------------------------------------------------------
  // The aggregations, skipping missing values as pandas does
  // ---------------------------------------------------------------------------

  datatype Field = Open | High | Low | Close | Volume

  /** A field of a daily row. */
  function Get(row: Daily, f: Field): Option<real> {
    match f
    case Open => row.open
    case High => row.high
    case Low => row.low
    case Close => row.close
    case Volume => row.volume
  }

  /** Some row of the group has the field. */
  predicate Present(g: seq<Daily>, f: Field) {
    exists i | 0 <= i < |g| :: Get(g[i], f).Some?
  }

  /** 'first': the first present value. */
  function FirstSome(g: seq<Daily>, f: Field): (r: Option<real>)
    ensures r.Some? <==> Present(g, f)
    ensures r.Some? ==> exists i | 0 <= i < |g| :: Get(g[i], f) == r && forall j | 0 <= j < i :: Get(g[j], f).None?
  {
    if g == [] then None
    else if Get(g[0], f).Some? then Get(g[0], f)
    else
      var r := FirstSome(g[1..], f);
      assert forall i | 1 <= i < |g| :: g[i] == g[1..][i - 1];
      r
  }

  /** 'last': the last present value. */
  function LastSome(g: seq<Daily>, f: Field): (r: Option<real>)
    ensures r.Some? <==> Present(g, f)
    ensures r.Some? ==> exists i | 0 <= i < |g| :: Get(g[i], f) == r && forall j | i < j < |g| :: Get(g[j], f).None?
  {
    if g == [] then None
    else if Get(g[|g| - 1], f).Some? then Get(g[|g| - 1], f)
    else
      var r := LastSome(g[..|g| - 1], f);
      assert forall i | 0 <= i < |g| - 1 :: g[i] == g[..|g| - 1][i];
      r
  }

  /** 'max': the greatest present value. */
  function MaxSome(g: seq<Daily>, f: Field): (r: Option<real>)
    ensures r.Some? <==> Present(g, f)
    ensures r.Some? ==> exists i | 0 <= i < |g| :: Get(g[i], f) == r
    ensures r.Some? ==> forall i | 0 <= i < |g| && Get(g[i], f).Some? :: Get(g[i], f).value <= r.value
  {
    if g == [] then None
    else
      var rest := MaxSome(g[1..], f);
      assert forall i | 1 <= i < |g| :: g[i] == g[1..][i - 1];
      match Get(g[0], f)
      case None => rest
      case Some(x) => if rest.Some? && rest.value > x then rest else Some(x)
  }

  /** 'min': the least present value. */
  function MinSome(g: seq<Daily>, f: Field): (r: Option<real>)
    ensures r.Some? <==> Present(g, f)
    ensures r.Some? ==> exists i | 0 <= i < |g| :: Get(g[i], f) == r
    ensures r.Some? ==> forall i | 0 <= i < |g| && Get(g[i], f).Some? :: r.value <= Get(g[i], f).value
  {
    if g == [] then None
    else
      var rest := MinSome(g[1..], f);
      assert forall i | 1 <= i < |g| :: g[i] == g[1..][i - 1];
      match Get(g[0], f)
      case None => rest
      case Some(x) => if rest.Some? && rest.value < x then rest else Some(x)
  }

  /** 'sum': the total of the present values, 0 when none is present. */
  function SumSome(g: seq<Daily>, f: Field): (r: real)
    ensures !Present(g, f) ==> r == 0.0
    // a single day contributes its value, or nothing when it has none
    ensures |g| == 1 ==> r == Get(g[0], f).GetOr(0.0)
    ensures (forall i | 0 <= i < |g| && Get(g[i], f).Some? :: Get(g[i], f).value >= 0.0) ==> r >= 0.0
  {
    if g == [] then 0.0
    else
      assert forall i | 1 <= i < |g| :: g[i] == g[1..][i - 1];
      Get(g[0], f).GetOr(0.0) + SumSome(g[1..], f)
  }

  /** The sum over two stretches of days is the sum of their sums. */
  lemma {:induction false} SumSomeAppend(a: seq<Daily>, b: seq<Daily>, f: Field)
    ensures SumSome(a + b, f) == SumSome(a, f) + SumSome(b, f)
    decreases |a|
  {
    if a != [] {
      assert (a + b)[0] == a[0] && (a + b)[1..] == a[1..] + b;
      SumSomeAppend(a[1..], b, f);
    } else {
      assert a + b == b;
    }
  }

  /** The bar of month `key` from that month's rows, or nothing when the
      month has no open, high, low or close (`dropna`); the volume sum is
      never missing. */
  function Aggregate(key: int, g: seq<Daily>): (r: Option<Bar>)
    ensures r.Some? <==> Present(g, Open) && Present(g, High) && Present(g, Low) && Present(g, Close)
    ensures r.Some? ==> BarKey(r.value) == key && 1 <= r.value.month <= 12
  {
    if Present(g, Open) && Present(g, High) && Present(g, Low) && Present(g, Close) then
      Some(Bar(key / 12, key % 12 + 1, FirstSome(g, Open).value, MaxSome(g, High).value,
               MinSome(g, Low).value, LastSome(g, Close).value, SumSome(g, Volume)))
    else None
  }

  /** The ends of a complete month's bar: the open of its first row that has
      one, the close of its last row that has one, and the total volume. */
  lemma AggregateEnds(key: int, g: seq<Daily>)
    requires Aggregate(key, g).Some?
    ensures var b := Aggregate(key, g).value;
      && (exists i | 0 <= i < |g| :: g[i].open == Some(b.open) && forall j | 0 <= j < i :: g[j].open.None?)
      && (exists i | 0 <= i < |g| :: g[i].close == Some(b.close) && forall j | i < j < |g| :: g[j].close.None?)
      && b.volume == SumSome(g, Volume)
  {
    var b := Aggregate(key, g).value;
    var i :| 0 <= i < |g| && Get(g[i], Open) == FirstSome(g, Open) && forall j | 0 <= j < i :: Get(g[j], Open).None?;
    assert g[i].open == Some(b.open) && forall j | 0 <= j < i :: g[j].open.None? by {
      forall j | 0 <= j < i ensures g[j].open.None? { assert Get(g[j], Open).None?; }
    }
    var c :| 0 <= c < |g| && Get(g[c], Close) == LastSome(g, Close) && forall j | c < j < |g| :: Get(g[j], Close).None?;
    assert g[c].close == Some(b.close) && forall j | c < j < |g| :: g[j].close.None? by {
      forall j | c < j < |g| ensures g[j].close.None? { assert Get(g[j], Close).None?; }
    }
  }

  /** The range of a complete month's bar: the highest high and the lowest
      low of its rows, each attained on some day. */
  lemma AggregateExtremes(key: int, g: seq<Daily>)
    requires Aggregate(key, g).Some?
    ensures var b := Aggregate(key, g).value;
      && (exists i | 0 <= i < |g| :: g[i].high == Some(b.high))
      && (forall i | 0 <= i < |g| && g[i].high.Some? :: g[i].high.value <= b.high)
      && (exists i | 0 <= i < |g| :: g[i].low == Some(b.low))
      && (forall i | 0 <= i < |g| && g[i].low.Some? :: b.low <= g[i].low.value)
  {
    var b := Aggregate(key, g).value;
    var h :| 0 <= h < |g| && Get(g[h], High) == MaxSome(g, High);
    assert g[h].high == Some(b.high);
    forall j | 0 <= j < |g| && g[j].high.Some?
      ensures g[j].high.value <= b.high
    {
      assert Get(g[j], High).Some?;
    }
    var l :| 0 <= l < |g| && Get(g[l], Low) == MinSome(g, Low);
    assert g[l].low == Some(b.low);
    forall j | 0 <= j < |g| && g[j].low.Some?
      ensures b.low <= g[j].low.value
    {
      assert Get(g[j], Low).Some?;
    }
  }

  /** With every daily low at most the same day's high, the monthly low is at
      most the monthly high. */
  lemma AggregateRange(key: int, g: seq<Daily>)
    requires forall i | 0 <= i < |g| :: g[i].low.Some? ==> g[i].high.Some? && g[i].low.value <= g[i].high.value
    requires Aggregate(key, g).Some?
    ensures Aggregate(key, g).value.low <= Aggregate(key, g).value.high
  {
    var l :| 0 <= l < |g| && Get(g[l], Low) == MinSome(g, Low);
    assert Get(g[l], High).Some?;
  }

  // ---------------------------------------------------------------------------
  // Grouping
  // ---------------------------------------------------------------------------

  /** The rows of month `k`, in order: the group `resample` forms. */
  function MonthRows(rows: seq<Daily>, k: int): (r: seq<Daily>)
    ensures |r| <= |rows|
    ensures forall x :: x in r <==> x in rows && Key(x) == k
  {
    if rows == [] then []
    else
      assert forall x | x in rows :: x == rows[0] || x in rows[1..];
      (if Key(rows[0]) == k then [rows[0]] else []) + MonthRows(rows[1..], k)
  }

  /** Grouping a concatenation of days concatenates the groups. */
  lemma {:induction false} MonthRowsAppend(a: seq<Daily>, b: seq<Daily>, k: int)
    ensures MonthRows(a + b, k) == MonthRows(a, k) + MonthRows(b, k)
    decreases |a|
  {
    if a != [] {
      assert (a + b)[0] == a[0] && (a + b)[1..] == a[1..] + b;
      MonthRowsAppend(a[1..], b, k);
    } else {
      assert a + b == b;
    }
  }

  /** The rows of every month but `k`, in order. */
  function Others(rows: seq<Daily>, k: int): (r: seq<Daily>)
    ensures |r| <= |rows|
    ensures forall x :: x in r <==> x in rows && Key(x) != k
  {
    if rows == [] then []
    else
      assert forall x | x in rows :: x == rows[0] || x in rows[1..];
      (if Key(rows[0]) != k then [rows[0]] else []) + Others(rows[1..], k)
  }

  /** The tail of sorted rows is sorted, and no row of it precedes the head. */
  lemma KeysSortedTail(rows: seq<Daily>)
    requires rows != [] && KeysSorted(rows)
    ensures KeysSorted(rows[1..])
    ensures forall y | y in rows[1..] :: Key(rows[0]) <= Key(y)
  {
    var tail := rows[1..];
    forall i, j | 0 <= i < j < |tail|
      ensures Key(tail[i]) <= Key(tail[j])
    {
      assert tail[i] == rows[i + 1] && tail[j] == rows[j + 1];
    }
    forall y | y in tail
      ensures Key(rows[0]) <= Key(y)
    {
      var m :| 0 <= m < |tail| && tail[m] == y;
      assert rows[m + 1] == y;
    }
  }

  /** A row no later than any of some sorted rows can go in front of them. */
  lemma KeysSortedCons(x: Daily, rest: seq<Daily>)
    requires KeysSorted(rest)
    requires forall y | y in rest :: Key(x) <= Key(y)
    ensures KeysSorted([x] + rest)
  {
    var r := [x] + rest;
    forall i, j | 0 <= i < j < |r|
      ensures Key(r[i]) <= Key(r[j])
    {
      assert r[j] == rest[j - 1];
      if i > 0 {
        assert r[i] == rest[i - 1];
      } else {
        assert rest[j - 1] in rest;
      }
    }
  }

  /** Dropping a month keeps the remaining rows in key order. */
  lemma {:induction false} OthersKeepsSorted(rows: seq<Daily>, k: int)
    requires KeysSorted(rows)
    ensures KeysSorted(Others(rows, k))
    decreases |rows|
  {
    if rows != [] {
      var tail := rows[1..];
      KeysSortedTail(rows);
      OthersKeepsSorted(tail, k);
      var rest := Others(tail, k);
      if Key(rows[0]) != k {
        KeysSortedCons(rows[0], rest);
        assert [rows[0]] + rest == Others(rows, k);
      } else {
        assert rest == Others(rows, k);
      }
    }
  }

  /** Removing month `k` leaves every other month's rows as they were. */
  lemma {:induction false} MonthRowsOthers(rows: seq<Daily>, k: int, k': int)
    requires k != k'
    ensures MonthRows(Others(rows, k), k') == MonthRows(rows, k')
    decreases |rows|
  {
    if rows != [] {
      var tail := rows[1..];
      MonthRowsOthers(tail, k, k');
      var rest := Others(tail, k);
      if Key(rows[0]) != k {
        var o := [rows[0]] + rest;
        assert Others(rows, k) == o;
        assert o[0] == rows[0] && o[1..] == rest;
        assert MonthRows(o, k') == (if Key(rows[0]) == k' then [rows[0]] else []) + MonthRows(rest, k');
      } else {
        assert Others(rows, k) == rest;
      }
    }
  }

  // ---------------------------------------------------------------------------
  // resample('M').agg(...).dropna()
  // ---------------------------------------------------------------------------

  /** The bars' months strictly increase: one bar per month, in order. */
  ghost predicate Increasing(r: seq<Bar>) {
    forall i, j | 0 <= i < j < |r| :: BarKey(r[i]) < BarKey(r[j])
  }

  /** Each bar is the aggregate of all rows of its month. */
  ghost predicate Aggregates(r: seq<Bar>, rows: seq<Daily>) {
    forall i | 0 <= i < |r| :: Aggregate(BarKey(r[i]), MonthRows(rows, BarKey(r[i]))) == Some(r[i])
  }

  predicate HasBar(r: seq<Bar>, k: int) {
    exists j | 0 <= j < |r| :: BarKey(r[j]) == k
  }

  /** Every month of the rows whose aggregate is complete has a bar. */
  ghost predicate Covers(r: seq<Bar>, rows: seq<Daily>) {
    forall i | 0 <= i < |rows| :: Aggregate(Key(rows[i]), MonthRows(rows, Key(rows[i]))).Some? ==> HasBar(r, Key(rows[i]))
  }

  predicate HasRow(rows: seq<Daily>, k: int) {
    exists i | 0 <= i < |rows| :: Key(rows[i]) == k
  }

  /** Only months with data have a bar. */
  ghost predicate FromData(r: seq<Bar>, rows: seq<Daily>) {
    forall j | 0 <= j < |r| :: HasRow(rows, BarKey(r[j]))
  }

  /** The earliest month's bar, if any, before the others. */
  function Prepend(b: Option<Bar>, rest: seq<Bar>): (r: seq<Bar>)
    ensures b.None? ==> r == rest
    ensures b.Some? ==> |r| == |rest| + 1 && r[0] == b.value && forall j | 1 <= j < |r| :: r[j] == rest[j - 1]
  {
    if b.Some? then [b.value] + rest else rest
  }

  /** The monthly bars of sorted daily rows: the earliest month's bar, if it
      is complete, then the bars of the remaining months. The contract pins the
      result down completely: increasing months, each bar its month's
      aggregate, every complete month present and no month without data. */
  function Resample(rows: seq<Daily>): (r: seq<Bar>)
    requires KeysSorted(rows)
    ensures Increasing(r)
    ensures Aggregates(r, rows)
    ensures Covers(r, rows)
    ensures FromData(r, rows)
    decreases |rows|
  {
    if rows == [] then []
    else
      var k := Key(rows[0]);
      OthersShorter(rows, k);
      OthersKeepsSorted(rows, k);
      var rest := Resample(Others(rows, k));
      var bar := Aggregate(k, MonthRows(rows, k));
      RestIsLater(rows, rest);
      StepOrdered(k, bar, rest);
      StepAggregates(rows, rest);
      StepCovers(rows, rest);
      StepFromData(rows, rest);
      Prepend(bar, rest)
  }

  /** The first row's month is removed, so the rest is shorter. */
  lemma OthersShorter(rows: seq<Daily>, k: int)
    requires rows != [] && Key(rows[0]) == k
    ensures |Others(rows, k)| < |rows|
  {
    assert Others(rows, k) == Others(rows[1..], k);
  }

  /** The bars of the other months all come after the first row's month. */
  lemma RestIsLater(rows: seq<Daily>, rest: seq<Bar>)
    requires rows != [] && KeysSorted(rows)
    requires FromData(rest, Others(rows, Key(rows[0])))
    ensures forall j | 0 <= j < |rest| :: BarKey(rest[j]) > Key(rows[0])
  {
    var k := Key(rows[0]);
    var t := Others(rows, k);
    forall j | 0 <= j < |rest|
      ensures BarKey(rest[j]) > k
    {
      var i :| 0 <= i < |t| && Key(t[i]) == BarKey(rest[j]);
      assert t[i] in t;
      var m :| 0 <= m < |rows| && rows[m] == t[i];
      assert m > 0 ==> Key(rows[0]) <= Key(rows[m]);
    }
  }

  lemma StepOrdered(k: int, bar: Option<Bar>, rest: seq<Bar>)
    requires bar.Some? ==> BarKey(bar.value) == k
    requires forall j | 0 <= j < |rest| :: BarKey(rest[j]) > k
    requires Increasing(rest)
    ensures Increasing(Prepend(bar, rest))
  {
  }

  lemma StepAggregates(rows: seq<Daily>, rest: seq<Bar>)
    requires rows != []
    requires forall j | 0 <= j < |rest| :: BarKey(rest[j]) > Key(rows[0])
    requires Aggregates(rest, Others(rows, Key(rows[0])))
    ensures Aggregates(Prepend(Aggregate(Key(rows[0]), MonthRows(rows, Key(rows[0]))), rest), rows)
  {
    var k := Key(rows[0]);
    var bar := Aggregate(k, MonthRows(rows, k));
    var r := Prepend(bar, rest);
    forall i | 0 <= i < |r|
      ensures Aggregate(BarKey(r[i]), MonthRows(rows, BarKey(r[i]))) == Some(r[i])
    {
      if !(bar.Some? && i == 0) {
        var j := if bar.Some? then i - 1 else i;
        assert r[i] == rest[j];
        MonthRowsOthers(rows, k, BarKey(rest[j]));
      }
    }
  }

  lemma StepCovers(rows: seq<Daily>, rest: seq<Bar>)
    requires rows != []
    requires Covers(rest, Others(rows, Key(rows[0])))
    ensures Covers(Prepend(Aggregate(Key(rows[0]), MonthRows(rows, Key(rows[0]))), rest), rows)
  {
    var r := Prepend(Aggregate(Key(rows[0]), MonthRows(rows, Key(rows[0]))), rest);
    forall i | 0 <= i < |rows| && Aggregate(Key(rows[i]), MonthRows(rows, Key(rows[i]))).Some?
      ensures HasBar(r, Key(rows[i]))
    {
      if Key(rows[i]) == Key(rows[0]) {
        assert BarKey(r[0]) == Key(rows[0]);
      } else {
        CoversOther(rows, rest, i, Aggregate(Key(rows[0]), MonthRows(rows, Key(rows[0]))));
      }
    }
  }

  /** A complete month other than the first one has its bar among the rest. */
  lemma CoversOther(rows: seq<Daily>, rest: seq<Bar>, i: int, bar: Option<Bar>)
    requires 0 <= i < |rows| && Key(rows[i]) != Key(rows[0])
    requires Covers(rest, Others(rows, Key(rows[0])))
    requires Aggregate(Key(rows[i]), MonthRows(rows, Key(rows[i]))).Some?
    ensures HasBar(Prepend(bar, rest), Key(rows[i]))
  {
    var k, k' := Key(rows[0]), Key(rows[i]);
    var t := Others(rows, k);
    var m := OthersIndex(rows, k, i);
    MonthRowsOthers(rows, k, k');
    CoversAt(rest, t, m);
    HasBarPrepend(bar, rest, k');
  }

  /** Where a row of another month sits among the remaining rows. */
  lemma {:induction false} OthersIndex(rows: seq<Daily>, k: int, i: int) returns (m: int)
    requires 0 <= i < |rows| && Key(rows[i]) != k
    ensures 0 <= m < |Others(rows, k)| && Others(rows, k)[m] == rows[i]
    decreases i
  {
    if i == 0 {
      m := 0;
    } else {
      var m' := OthersIndex(rows[1..], k, i - 1);
      m := if Key(rows[0]) != k then m' + 1 else m';
    }
  }

  /** One instance of `Covers`. */
  lemma CoversAt(r: seq<Bar>, rows: seq<Daily>, m: int)
    requires 0 <= m < |rows|
    ensures Covers(r, rows) && Aggregate(Key(rows[m]), MonthRows(rows, Key(rows[m]))).Some? ==>
      HasBar(r, Key(rows[m]))
  {
  }

  lemma HasBarPrepend(b: Option<Bar>, rest: seq<Bar>, k: int)
    requires HasBar(rest, k)
    ensures HasBar(Prepend(b, rest), k)
  {
    var j :| 0 <= j < |rest| && BarKey(rest[j]) == k;
    var r := Prepend(b, rest);
    if b.Some? {
      assert r[j + 1] == rest[j];
    }
  }

  lemma StepFromData(rows: seq<Daily>, rest: seq<Bar>)
    requires rows != []
    requires FromData(rest, Others(rows, Key(rows[0])))
    ensures FromData(Prepend(Aggregate(Key(rows[0]), MonthRows(rows, Key(rows[0]))), rest), rows)
  {
    var k := Key(rows[0]);
    var t := Others(rows, k);
    var bar := Aggregate(k, MonthRows(rows, k));
    var r := Prepend(bar, rest);
    forall j | 0 <= j < |r|
      ensures HasRow(rows, BarKey(r[j]))
    {
      if bar.Some? && j == 0 {
        assert Key(rows[0]) == BarKey(r[0]);
      } else {
        var j' := if bar.Some? then j - 1 else j;
        assert r[j] == rest[j'];
        var i :| 0 <= i < |t| && Key(t[i]) == BarKey(rest[j']);
        assert t[i] in t;
        var m :| 0 <= m < |rows| && rows[m] == t[i];
      }
    }
  }

  /** Month keys of valid months order bars by year, then month. */
  lemma BarKeyOrder(a: Bar, b: Bar)
    requires 1 <= a.month <= 12 && 1 <= b.month <= 12
    requires BarKey(a) < BarKey(b)
    ensures a.year < b.year || (a.year == b.year && a.month < b.month)
  {
  }

  /** On rows in calendar order the bars come out in calendar order of their
      year and month. */
  lemma ResampleChronological(rows: seq<Daily>)
    requires Chronological(rows)
    ensures KeysSorted(rows)
    ensures var r := Resample(rows);
      forall i, j | 0 <= i < j < |r| :: r[i].year < r[j].year || (r[i].year == r[j].year && r[i].month < r[j].month)
  {
    ChronologicalKeysSorted(rows);
    var r := Resample(rows);
    forall i, j | 0 <= i < j < |r|
      ensures r[i].year < r[j].year || (r[i].year == r[j].year && r[i].month < r[j].month)
    {
      assert Aggregate(BarKey(r[i]), MonthRows(rows, BarKey(r[i]))) == Some(r[i]);
      assert Aggregate(BarKey(r[j]), MonthRows(rows, BarKey(r[j]))) == Some(r[j]);
      BarKeyOrder(r[i], r[j]);
    }
  }
}
