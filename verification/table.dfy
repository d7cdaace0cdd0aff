/** CSVDataLoader's table pipeline after the file has been read: renaming,
    date parsing, cleaning (de-duplication, sorting, dropping incomplete
    rows), validation and the projection backtrader consumes.

    A table is a list of column names and a list of rows of cells. Dates are
    numbers once parsed (any order-preserving encoding of the timestamps). */
module Table {
  import opened Wrappers
  import opened Columns

  datatype Cell = Missing | Num(x: real) | Text(s: string)

  type Row = seq<Cell>

  datatype Frame = Frame(columns: seq<string>, rows: seq<Row>)

  /** What the pipeline raises. `KeyNotFound` is pandas' KeyError for a column
      a cleaning step selects; `MissingColumns` is the ValueError of the
      loader's own column checks; `Incomparable` the TypeError of comparing a
      text price with 0; `NotUnique` the ValueError of an operation that
      needs a single column under a name several columns carry
      (`to_datetime`, `sort_values`, the truth value of a comparison);
      `LengthMismatch` the ValueError of naming more selected columns than
      there are names. */
  datatype LoadError =
    | NoDateColumn
    | KeyNotFound(names: seq<string>)
    | MissingColumns(names: seq<string>)
    | EmptyData
    | Incomparable(column: string)
    | NotUnique(column: string)
    | LengthMismatch

  /** At most one column carries `name`. Two raw headings can standardise to
      the same name (`Date` and `date`, `Close` and `close`). */
  predicate AtMostOnce(cols: seq<string>, name: string) {
    forall i, j | 0 <= i < |cols| && 0 <= j < |cols| && cols[i] == name && cols[j] == name :: i == j
  }

  /** No required name is carried by two columns. */
  predicate RequiredUnique(cols: seq<string>) {
    forall x | x in Required :: AtMostOnce(cols, x)
  }

  /** The position of the first column called `name`. */
  function IndexOf(cols: seq<string>, name: string): (r: Option<nat>)
    ensures r.None? <==> name !in cols
    ensures r.Some? ==> r.value < |cols| && cols[r.value] == name
    ensures r.Some? ==> forall j | 0 <= j < r.value :: cols[j] != name
  {
    if cols == [] then None
    else if cols[0] == name then Some(0)
    else
      match IndexOf(cols[1..], name)
      case None => None
      case Some(k) => Some(k + 1)
  }

  /** The first column called `name` of a table that has one: the column
      pandas' `df[name]` selects. */
  function Column(cols: seq<string>, name: string): (k: nat)
    requires name in cols
    ensures k < |cols| && cols[k] == name
    ensures forall j | 0 <= j < k :: cols[j] != name
  {
    IndexOf(cols, name).value
  }

  /** The cell in column `k`, or `Missing` past the end of a short row. */
  function CellAt(row: Row, k: nat): Cell {
    if k < |row| then row[k] else Missing
  }

  // ---------------------------------------------------------------------------
  // clean_data, step 1: drop_duplicates(subset=['date'], keep='last')
  // ---------------------------------------------------------------------------

  /** Row `i` is the last row carrying its date. */
  ghost predicate LastOfDate(rows: seq<Row>, i: int, d: nat)
    requires 0 <= i < |rows|
  {
    forall j | i < j < |rows| :: CellAt(rows[j], d) != CellAt(rows[i], d)
  }

  /** No two rows share a date (missing dates compare equal, as in pandas). */
  ghost predicate DistinctDates(rows: seq<Row>, d: nat) {
    forall i, j | 0 <= i < j < |rows| :: CellAt(rows[i], d) != CellAt(rows[j], d)
  }

  /** Some later row repeats the date of the first row. */
  predicate RepeatedLater(rows: seq<Row>, d: nat)
    requires rows != []
  {
    exists j | 1 <= j < |rows| :: CellAt(rows[j], d) == CellAt(rows[0], d)
  }

  /** Keep the last row of every date, in input order. */
  function KeepLast(rows: seq<Row>, d: nat): (r: seq<Row>)
    ensures |r| <= |rows|
    ensures DistinctDates(r, d)
    ensures forall x | x in r :: x in rows
    ensures forall x | x in r :: exists i | 0 <= i < |rows| :: rows[i] == x && LastOfDate(rows, i, d)
    ensures forall i | 0 <= i < |rows| && LastOfDate(rows, i, d) :: rows[i] in r
    decreases |rows|
  {
    if rows == [] then []
    else
      var rest := KeepLast(rows[1..], d);
      KeepLastStep(rows, d, rest);
      if RepeatedLater(rows, d) then rest else [rows[0]] + rest
  }

  /** Being the last row of a date is the same in the table and in its tail. */
  lemma LastOfDateTail(rows: seq<Row>, d: nat, i: int)
    requires 0 <= i < |rows| - 1
    ensures LastOfDate(rows[1..], i, d) <==> LastOfDate(rows, i + 1, d)
  {
    var tail := rows[1..];
    if LastOfDate(tail, i, d) {
      forall j | i + 1 < j < |rows|
        ensures CellAt(rows[j], d) != CellAt(rows[i + 1], d)
      {
        assert rows[j] == tail[j - 1];
      }
    }
    if LastOfDate(rows, i + 1, d) {
      forall j | i < j < |tail|
        ensures CellAt(tail[j], d) != CellAt(tail[i], d)
      {
        assert tail[j] == rows[j + 1];
      }
    }
  }

  /** The inductive step of `KeepLast`: what holds of the tail's result carries
      over to the whole table. */
  lemma KeepLastStep(rows: seq<Row>, d: nat, rest: seq<Row>)
    requires rows != []
    requires DistinctDates(rest, d)
    requires forall x | x in rest :: x in rows[1..]
    requires forall x | x in rest :: exists i | 0 <= i < |rows[1..]| :: rows[1..][i] == x && LastOfDate(rows[1..], i, d)
    requires forall i | 0 <= i < |rows[1..]| && LastOfDate(rows[1..], i, d) :: rows[1..][i] in rest
    ensures var r := if RepeatedLater(rows, d) then rest else [rows[0]] + rest;
      && DistinctDates(r, d)
      && (forall x | x in r :: x in rows)
      && (forall x | x in r :: exists i | 0 <= i < |rows| :: rows[i] == x && LastOfDate(rows, i, d))
      && (forall i | 0 <= i < |rows| && LastOfDate(rows, i, d) :: rows[i] in r)
  {
    var r := if RepeatedLater(rows, d) then rest else [rows[0]] + rest;
    KeepLastFound(rows, d, rest, r);
    KeepLastComplete(rows, d, rest, r);
    if !RepeatedLater(rows, d) {
      KeepLastDistinct(rows, d, rest);
    }
  }

  /** Every row of the step's result is the last of its date. */
  lemma KeepLastFound(rows: seq<Row>, d: nat, rest: seq<Row>, r: seq<Row>)
    requires rows != []
    requires forall x | x in rest :: exists i | 0 <= i < |rows[1..]| :: rows[1..][i] == x && LastOfDate(rows[1..], i, d)
    requires r == if RepeatedLater(rows, d) then rest else [rows[0]] + rest
    ensures forall x | x in r :: x in rows
    ensures forall x | x in r :: exists i | 0 <= i < |rows| :: rows[i] == x && LastOfDate(rows, i, d)
  {
    var tail := rows[1..];
    forall x | x in r
      ensures exists i | 0 <= i < |rows| :: rows[i] == x && LastOfDate(rows, i, d)
    {
      if x in rest {
        var i :| 0 <= i < |tail| && tail[i] == x && LastOfDate(tail, i, d);
        LastOfDateTail(rows, d, i);
        assert rows[i + 1] == x && LastOfDate(rows, i + 1, d);
      } else {
        assert x == rows[0] && !RepeatedLater(rows, d);
        assert LastOfDate(rows, 0, d);
      }
    }
  }

  /** Every last row of a date is in the step's result. */
  lemma KeepLastComplete(rows: seq<Row>, d: nat, rest: seq<Row>, r: seq<Row>)
    requires rows != []
    requires forall i | 0 <= i < |rows[1..]| && LastOfDate(rows[1..], i, d) :: rows[1..][i] in rest
    requires r == if RepeatedLater(rows, d) then rest else [rows[0]] + rest
    ensures forall i | 0 <= i < |rows| && LastOfDate(rows, i, d) :: rows[i] in r
  {
    var tail := rows[1..];
    forall i | 0 <= i < |rows| && LastOfDate(rows, i, d)
      ensures rows[i] in r
    {
      if i == 0 {
        assert !RepeatedLater(rows, d);
      } else {
        LastOfDateTail(rows, d, i - 1);
        assert tail[i - 1] == rows[i];
      }
    }
  }

  /** Prepending a row whose date does not recur keeps the dates distinct. */
  lemma KeepLastDistinct(rows: seq<Row>, d: nat, rest: seq<Row>)
    requires rows != [] && !RepeatedLater(rows, d)
    requires DistinctDates(rest, d)
    requires forall x | x in rest :: x in rows[1..]
    ensures DistinctDates([rows[0]] + rest, d)
  {
    var r := [rows[0]] + rest;
    var tail := rows[1..];
    forall i, j | 0 <= i < j < |r|
      ensures CellAt(r[i], d) != CellAt(r[j], d)
    {
      assert r[j] == rest[j - 1];
      if i == 0 {
        assert r[j] in rest;
        var k :| 0 <= k < |tail| && tail[k] == r[j];
        assert rows[k + 1] == r[j];
      } else {
        assert r[i] == rest[i - 1];
      }
    }
  }

  // ---------------------------------------------------------------------------
  // clean_data, step 2: sort_values('date'), missing dates last
  // ---------------------------------------------------------------------------

  /** The strict order of parsed date cells: numbers ascending, then missing. */
  predicate Before(a: Cell, b: Cell) {
    (a.Num? && b.Num? && a.x < b.x) || (a.Num? && b.Missing?)
  }

  /** Every date is a number or missing, as `parse_date` leaves them. */
  ghost predicate ParsedDates(rows: seq<Row>, d: nat) {
    forall i | 0 <= i < |rows| :: !CellAt(rows[i], d).Text?
  }

  /** Dates strictly increase along the rows. */
  ghost predicate StrictlySorted(rows: seq<Row>, d: nat) {
    forall i, j | 0 <= i < j < |rows| :: Before(CellAt(rows[i], d), CellAt(rows[j], d))
  }

  /** Insert a row into rows sorted by date, none of which has its date. */
  function Insert(row: Row, sorted: seq<Row>, d: nat): (r: seq<Row>)
    requires StrictlySorted(sorted, d) && ParsedDates(sorted, d) && !CellAt(row, d).Text?
    requires forall x | x in sorted :: CellAt(x, d) != CellAt(row, d)
    ensures StrictlySorted(r, d) && ParsedDates(r, d)
    ensures |r| == |sorted| + 1
    ensures forall x :: x in r <==> x == row || x in sorted
    decreases |sorted|
  {
    if sorted == [] then [row]
    else
      SortedTail(sorted, d);
      if Before(CellAt(row, d), CellAt(sorted[0], d)) then
        SortedCons(row, sorted, d);
        [row] + sorted
      else
        assert sorted[0] in sorted;
        var rest := Insert(row, sorted[1..], d);
        SortedCons(sorted[0], rest, d);
        [sorted[0]] + rest
  }

  /** A row dated before every row of a sorted table can go in front of it. */
  lemma SortedCons(x: Row, rest: seq<Row>, d: nat)
    requires StrictlySorted(rest, d) && ParsedDates(rest, d) && !CellAt(x, d).Text?
    requires forall y | y in rest :: Before(CellAt(x, d), CellAt(y, d))
    ensures StrictlySorted([x] + rest, d) && ParsedDates([x] + rest, d)
  {
    var r := [x] + rest;
    forall i | 0 < i < |r|
      ensures r[i] == rest[i - 1] && r[i] in rest
    {
    }
  }

  /** Insertion sort by date; with distinct dates the sorted order is unique,
      so this is the order `sort_values` produces. */
  function SortByDate(rows: seq<Row>, d: nat): (r: seq<Row>)
    requires DistinctDates(rows, d) && ParsedDates(rows, d)
    ensures StrictlySorted(r, d) && ParsedDates(r, d)
    ensures |r| == |rows|
    ensures forall x :: x in r <==> x in rows
    decreases |rows|
  {
    if rows == [] then []
    else
      var tail := rows[1..];
      assert forall i, j | 0 <= i < j < |tail| :: tail[i] == rows[i + 1] && tail[j] == rows[j + 1];
      var sorted := SortByDate(tail, d);
      assert forall x | x in sorted :: CellAt(x, d) != CellAt(rows[0], d) by {
        forall x | x in sorted
          ensures CellAt(x, d) != CellAt(rows[0], d)
        {
          var k :| 0 <= k < |tail| && tail[k] == x;
          assert rows[k + 1] == x;
        }
      }
      var r := Insert(rows[0], sorted, d);
      assert forall x | x in rows :: x == rows[0] || x in tail by {
        forall x | x in rows
          ensures x == rows[0] || x in tail
        {
          var k :| 0 <= k < |rows| && rows[k] == x;
          if k > 0 { assert tail[k - 1] == x; }
        }
      }
      r
  }

  /** The tail of a date-sorted table is sorted, comes after the head, and
      holds every row but the head. */
  lemma SortedTail(a: seq<Row>, d: nat)
    requires a != [] && StrictlySorted(a, d)
    ensures StrictlySorted(a[1..], d)
    ensures forall x | x in a[1..] :: x in a && Before(CellAt(a[0], d), CellAt(x, d))
    ensures forall x | x in a :: x == a[0] || x in a[1..]
    ensures ParsedDates(a, d) ==> ParsedDates(a[1..], d)
  {
    var t := a[1..];
    assert forall i | 0 <= i < |t| :: t[i] == a[i + 1];
    forall i, j | 0 <= i < j < |t|
      ensures Before(CellAt(t[i], d), CellAt(t[j], d))
    {
      assert t[i] == a[i + 1] && t[j] == a[j + 1];
    }
    forall x | x in t
      ensures x in a && Before(CellAt(a[0], d), CellAt(x, d))
    {
      var k :| 0 <= k < |t| && t[k] == x;
      assert a[k + 1] == x;
    }
    forall x | x in a
      ensures x == a[0] || x in t
    {
      var k :| 0 <= k < |a| && a[k] == x;
      if k > 0 { assert t[k - 1] == x; }
    }
  }

  /** Two date-sorted tables with the same rows start with the same row. */
  lemma SameFirst(a: seq<Row>, b: seq<Row>, d: nat)
    requires a != [] && b != []
    requires StrictlySorted(a, d) && StrictlySorted(b, d)
    requires forall x :: x in a <==> x in b
    ensures a[0] == b[0]
  {
    SortedTail(a, d);
    SortedTail(b, d);
    assert a[0] in b && b[0] in a;
  }

  /** Two tables sorted strictly by date with the same rows are equal: the
      sorted order does not depend on the sorting algorithm. */
  lemma {:induction false} SortedOrderUnique(a: seq<Row>, b: seq<Row>, d: nat)
    requires StrictlySorted(a, d) && StrictlySorted(b, d)
    requires forall x :: x in a <==> x in b
    ensures a == b
    decreases |a|
  {
    assert a != [] ==> a[0] in b;
    assert b != [] ==> b[0] in a;
    if a != [] {
      SameFirst(a, b, d);
      SortedTail(a, d);
      SortedTail(b, d);
      SortedOrderUnique(a[1..], b[1..], d);
      assert a == [a[0]] + a[1..] && b == [b[0]] + b[1..];
    }
  }

  // ---------------------------------------------------------------------------
  // clean_data, step 3: dropna(subset=REQUIRED_COLUMNS)
  // ---------------------------------------------------------------------------

  /** No required cell of the row is missing. */
  predicate Complete(row: Row, required: set<nat>) {
    forall k | k in required :: CellAt(row, k) != Missing
  }

  /** Keep the complete rows, in order. */
  function DropIncomplete(rows: seq<Row>, required: set<nat>): (r: seq<Row>)
    ensures |r| <= |rows|
    ensures forall x :: x in r <==> x in rows && Complete(x, required)
    decreases |rows|
  {
    if rows == [] then []
    else
      var rest := DropIncomplete(rows[1..], required);
      assert forall x | x in rows :: x == rows[0] || x in rows[1..];
      if Complete(rows[0], required) then [rows[0]] + rest else rest
  }

  /** Dropping rows keeps the remaining rows in date order. */
  lemma {:induction false} DropKeepsOrder(rows: seq<Row>, required: set<nat>, d: nat)
    requires StrictlySorted(rows, d)
    ensures StrictlySorted(DropIncomplete(rows, required), d)
    decreases |rows|
  {
    if rows != [] {
      var tail := rows[1..];
      assert StrictlySorted(tail, d) by {
        forall i, j | 0 <= i < j < |tail|
          ensures Before(CellAt(tail[i], d), CellAt(tail[j], d))
        {
          assert tail[i] == rows[i + 1] && tail[j] == rows[j + 1];
        }
      }
      DropKeepsOrder(tail, required, d);
      var rest := DropIncomplete(tail, required);
      if Complete(rows[0], required) {
        var r := [rows[0]] + rest;
        forall i, j | 0 <= i < j < |r|
          ensures Before(CellAt(r[i], d), CellAt(r[j], d))
        {
          if i == 0 {
            assert r[j] in rest && r[j] in tail;
            var k :| 0 <= k < |tail| && tail[k] == r[j];
            assert rows[k + 1] == r[j];
          } else {
            assert r[i] == rest[i - 1] && r[j] == rest[j - 1];
          }
        }
      }
    }
  }

  // ---------------------------------------------------------------------------
  // clean_data
  // ---------------------------------------------------------------------------

  /** The positions of the required columns, first occurrences. */
  function RequiredIndices(cols: seq<string>): (r: seq<nat>)
    requires forall x | x in Required :: x in cols
    ensures |r| == |Required|
    ensures forall i | 0 <= i < |r| :: r[i] == Column(cols, Required[i])
  {
    seq(|Required|, i requires 0 <= i < |Required| => Column(cols, Required[i]))
  }

  /** Every position whose column carries a required name:
      `dropna(subset=REQUIRED_COLUMNS)` inspects all of them. */
  function RequiredPositions(cols: seq<string>): (r: set<nat>)
    ensures forall k: nat :: k in r <==> k < |cols| && cols[k] in Required
  {
    set k: nat | k < |cols| && cols[k] in Required
  }

  /** The date column of a table that has one. */
  function DateIndex(f: Frame): (d: nat)
    requires "date" in f.columns
    ensures d < |f.columns| && f.columns[d] == "date"
  {
    Column(f.columns, "date")
  }

  /** The cells of every column named `date` are numbers or missing. */
  ghost predicate DatesParsed(f: Frame) {
    forall i, k | 0 <= i < |f.rows| && 0 <= k < |f.columns| && f.columns[k] == "date" ::
      !CellAt(f.rows[i], k).Text?
  }

  /** The dates of a table strictly increase and are all present. */
  ghost predicate IncreasingDates(f: Frame)
    requires "date" in f.columns
  {
    var d := DateIndex(f);
    && (forall i | 0 <= i < |f.rows| :: CellAt(f.rows[i], d).Num?)
    && (forall i, j | 0 <= i < j < |f.rows| :: CellAt(f.rows[i], d).x < CellAt(f.rows[j], d).x)
  }

  /** The three cleaning steps on the rows, with the date in column `d` and
      the required values in columns `required`. */
  function CleanRows(rows: seq<Row>, d: nat, required: set<nat>): (kept: seq<Row>)
    requires ParsedDates(rows, d) && d in required
    ensures |kept| <= |rows|
    ensures StrictlySorted(kept, d)
    ensures forall i | 0 <= i < |kept| :: CellAt(kept[i], d).Num?
    ensures forall x | x in kept :: Complete(x, required)
    ensures forall x | x in kept :: exists i | 0 <= i < |rows| :: rows[i] == x && LastOfDate(rows, i, d)
    ensures forall i | 0 <= i < |rows| :: LastOfDate(rows, i, d) && Complete(rows[i], required) ==> rows[i] in kept
  {
    var unique := KeepLast(rows, d);
    KeepLastParsed(rows, d);
    var sorted := SortByDate(unique, d);
    var kept := DropIncomplete(sorted, required);
    DropKeepsOrder(sorted, required, d);
    forall i | 0 <= i < |kept|
      ensures CellAt(kept[i], d).Num?
    {
      assert kept[i] in kept && kept[i] in sorted;
      var k :| 0 <= k < |sorted| && sorted[k] == kept[i];
    }
    kept
  }

  /** De-duplication keeps the dates parsed. */
  lemma KeepLastParsed(rows: seq<Row>, d: nat)
    requires ParsedDates(rows, d)
    ensures ParsedDates(KeepLast(rows, d), d)
  {
    var unique := KeepLast(rows, d);
    forall i | 0 <= i < |unique|
      ensures !CellAt(unique[i], d).Text?
    {
      assert unique[i] in unique;
      var k :| 0 <= k < |rows| && rows[k] == unique[i];
    }
  }

  /** `clean_data`: keep the last row of each date, sort by date, then drop the
      rows missing a required value. Selecting a column the table lacks raises
      a KeyError (the date column first, since de-duplication uses it);
      sorting by a date name two columns carry raises a ValueError before the
      other required columns are selected. */
  function Clean(f: Frame): (r: Result<Frame, LoadError>)
    requires DatesParsed(f)
    ensures r.Failure? <==> MissingRequired(f.columns) != [] || !AtMostOnce(f.columns, "date")
    ensures r.Failure? ==> r.error.KeyNotFound? || r.error == NotUnique("date")
    ensures r.Failure? && r.error == NotUnique("date") <==> "date" in f.columns && !AtMostOnce(f.columns, "date")
    ensures r.Success? ==> r.value.columns == f.columns && |r.value.rows| <= |f.rows|
    ensures r.Success? ==> IncreasingDates(r.value)
    // a kept row has a value in every column carrying a required name
    ensures r.Success? ==> forall x | x in r.value.rows :: Complete(x, RequiredPositions(f.columns))
    // each kept row is the last row of its date in the input
    ensures r.Success? ==> forall x | x in r.value.rows ::
      exists i | 0 <= i < |f.rows| :: f.rows[i] == x && LastOfDate(f.rows, i, DateIndex(f))
    // and every complete last row of a date is kept
    ensures r.Success? ==> forall i | 0 <= i < |f.rows| ::
      LastOfDate(f.rows, i, DateIndex(f)) && Complete(f.rows[i], RequiredPositions(f.columns)) ==>
        f.rows[i] in r.value.rows
  {
    if "date" !in f.columns then Failure(KeyNotFound(["date"]))
    else if !AtMostOnce(f.columns, "date") then Failure(NotUnique("date"))
    else if MissingRequired(f.columns) != [] then Failure(KeyNotFound(MissingRequired(f.columns)))
    else
      var d := DateIndex(f);
      var required := RequiredPositions(f.columns);
      assert d in required;
      var kept := CleanRows(f.rows, d, required);
      Success(Frame(f.columns, kept))
  }

  /** De-duplication runs before incomplete rows are dropped, so a date whose
      last row is incomplete vanishes, whatever its earlier rows hold (a
      complete earlier row of that date is lost too). */
  lemma IncompleteLastRowLosesDate(f: Frame, j: int)
    requires DatesParsed(f) && MissingRequired(f.columns) == [] && AtMostOnce(f.columns, "date")
    requires 0 <= j < |f.rows|
    requires LastOfDate(f.rows, j, DateIndex(f)) && !Complete(f.rows[j], RequiredPositions(f.columns))
    ensures forall x | x in Clean(f).value.rows :: CellAt(x, DateIndex(f)) != CellAt(f.rows[j], DateIndex(f))
  {
    var d := DateIndex(f);
    forall x | x in Clean(f).value.rows
      ensures CellAt(x, d) != CellAt(f.rows[j], d)
    {
      var k :| 0 <= k < |f.rows| && f.rows[k] == x && LastOfDate(f.rows, k, d);
      if k < j {
        assert CellAt(f.rows[j], d) != CellAt(f.rows[k], d);
      } else if k > j {
        assert CellAt(f.rows[k], d) != CellAt(f.rows[j], d);
      }
    }
  }

  // ---------------------------------------------------------------------------
  // validate_data
  // ---------------------------------------------------------------------------

  /** The price columns `validate_data` inspects, in order. */
  const PriceColumns: seq<string> := ["open", "high", "low", "close"]

  /** Some cell of column `k` is a non-positive number. */
  predicate HasNonPositive(f: Frame, k: nat) {
    exists i | 0 <= i < |f.rows| :: CellAt(f.rows[i], k).Num? && CellAt(f.rows[i], k).x <= 0.0
  }

  /** Some cell of column `k` is text. */
  predicate HasText(f: Frame, k: nat) {
    exists i | 0 <= i < |f.rows| :: CellAt(f.rows[i], k).Text?
  }

  /** Some column called `name` holds text: comparing `df[name]` with 0
      compares every such column. */
  predicate TextIn(f: Frame, name: string) {
    exists k | 0 <= k < |f.columns| && f.columns[k] == name :: HasText(f, k)
  }

  /** The warnings of the price loop over `cols`: each column with a
      non-positive number is reported; a column holding text raises on the
      comparison, and a name several columns carry raises on the truth value
      of the comparison's result. */
  function PriceWarnings(f: Frame, cols: seq<string>): (r: Result<seq<string>, LoadError>)
    requires forall c | c in cols :: c in f.columns
    ensures r.Failure? <==> exists c | c in cols :: TextIn(f, c) || !AtMostOnce(f.columns, c)
    ensures r.Failure? ==> r.error.Incomparable? || r.error.NotUnique?
    ensures r.Failure? && r.error.Incomparable? ==> r.error.column in cols && TextIn(f, r.error.column)
    ensures r.Failure? && r.error.NotUnique? ==> r.error.column in cols && !AtMostOnce(f.columns, r.error.column)
    ensures r.Success? ==> forall c :: c in r.value <==> c in cols && HasNonPositive(f, Column(f.columns, c))
    decreases |cols|
  {
    if cols == [] then Success([])
    else
      var k := Column(f.columns, cols[0]);
      assert forall c | c in cols :: c == cols[0] || c in cols[1..];
      if TextIn(f, cols[0]) then Failure(Incomparable(cols[0]))
      else if !AtMostOnce(f.columns, cols[0]) then Failure(NotUnique(cols[0]))
      else
        var rest := PriceWarnings(f, cols[1..]);
        assert forall c | c in cols[1..] :: c in cols;
        if rest.Failure? then rest
        else Success((if HasNonPositive(f, k) then [cols[0]] else []) + rest.value)
  }

  /** `validate_data`: raise on a missing required column, then on an empty
      table; non-positive prices only produce warnings; otherwise true. */
  function Validate(f: Frame): (r: Result<seq<string>, LoadError>)
    ensures r.Failure? && r.error.MissingColumns? <==> MissingRequired(f.columns) != []
    ensures r.Failure? && r.error.MissingColumns? ==> r.error.names == MissingRequired(f.columns)
    ensures r.Failure? && r.error == EmptyData <==> MissingRequired(f.columns) == [] && f.rows == []
    ensures r.Success? ==> f.rows != [] && forall x | x in Required :: x in f.columns
    ensures r.Success? ==> forall c :: c in r.value <==>
      c in PriceColumns && HasNonPositive(f, Column(f.columns, c))
    ensures (MissingRequired(f.columns) == [] && f.rows != [] &&
      forall c | c in PriceColumns :: !TextIn(f, c) && AtMostOnce(f.columns, c)) ==> r.Success?
    ensures r.Success? ==> forall c | c in PriceColumns :: !TextIn(f, c) && AtMostOnce(f.columns, c)
    ensures r.Failure? ==>
      (r.error.MissingColumns? || r.error == EmptyData ||
       ((r.error.Incomparable? || r.error.NotUnique?) && r.error.column in PriceColumns))
  {
    var missing := MissingRequired(f.columns);
    if missing != [] then Failure(MissingColumns(missing))
    else if f.rows == [] then Failure(EmptyData)
    else PriceWarnings(f, PriceColumns)
  }

  // ---------------------------------------------------------------------------
  // convert_to_backtrader_format
  // ---------------------------------------------------------------------------

  /** The data frame backtrader's pandas feed reads: five columns indexed by
      date. */
  datatype BtFrame = BtFrame(columns: seq<string>, index: seq<Cell>, rows: seq<Row>)

  const BtColumns: seq<string> := ["Open", "High", "Low", "Close", "Volume"]

  /** The five backtrader cells of a row, from the columns at `idx[1..6]`. */
  function Project(row: Row, idx: seq<nat>): (r: Row)
    requires |idx| == |Required|
    ensures |r| == |BtColumns|
    ensures forall k | 0 <= k < |BtColumns| :: r[k] == CellAt(row, idx[k + 1])
  {
    [CellAt(row, idx[1]), CellAt(row, idx[2]), CellAt(row, idx[3]), CellAt(row, idx[4]), CellAt(row, idx[5])]
  }

  /** `convert_to_backtrader_format`: raise on a missing required column,
      otherwise project onto date and the five price/volume columns, renamed
      to backtrader's names, with the date as index. Selecting a name two
      columns carry yields more columns than the six new names, which
      raises. */
  function Convert(f: Frame): (r: Result<BtFrame, LoadError>)
    ensures r.Failure? <==> MissingRequired(f.columns) != [] || !RequiredUnique(f.columns)
    ensures r.Failure? && r.error.MissingColumns? <==> MissingRequired(f.columns) != []
    ensures r.Failure? && r.error.MissingColumns? ==> r.error == MissingColumns(MissingRequired(f.columns))
    ensures r.Failure? ==> r.error.MissingColumns? || r.error == LengthMismatch
    ensures r.Success? ==> r.value.columns == BtColumns
    ensures r.Success? ==> |r.value.index| == |r.value.rows| == |f.rows|
    ensures r.Success? ==> forall i | 0 <= i < |f.rows| ::
      r.value.index[i] == CellAt(f.rows[i], Column(f.columns, "date"))
    ensures r.Success? ==> forall i, k | 0 <= i < |f.rows| && 0 <= k < |BtColumns| ::
      |r.value.rows[i]| == |BtColumns| &&
      r.value.rows[i][k] == CellAt(f.rows[i], Column(f.columns, Required[k + 1]))
  {
    var missing := MissingRequired(f.columns);
    if missing != [] then Failure(MissingColumns(missing))
    else if !RequiredUnique(f.columns) then Failure(LengthMismatch)
    else
      var idx := RequiredIndices(f.columns);
      var index := seq(|f.rows|, i requires 0 <= i < |f.rows| => CellAt(f.rows[i], idx[0]));
      var rows := seq(|f.rows|, i requires 0 <= i < |f.rows| => Project(f.rows[i], idx));
      Success(BtFrame(BtColumns, index, rows))
  }

  /** A cleaned table converts exactly when no required name is carried by
      two columns, and then backtrader receives the dates strictly
      increasing. */
  lemma ConvertCleaned(f: Frame)
    requires DatesParsed(f) && MissingRequired(f.columns) == [] && AtMostOnce(f.columns, "date")
    ensures Convert(Clean(f).value).Success? <==> RequiredUnique(f.columns)
    ensures Convert(Clean(f).value).Success? ==>
      var bt := Convert(Clean(f).value).value;
      forall i, j | 0 <= i < j < |bt.index| :: bt.index[i].Num? && bt.index[i].x < bt.index[j].x
  {
    var c := Clean(f).value;
    if Convert(c).Success? {
      var bt := Convert(c).value;
      forall i, j | 0 <= i < j < |bt.index|
        ensures bt.index[i].Num? && bt.index[i].x < bt.index[j].x
      {
        assert bt.index[i] == CellAt(c.rows[i], DateIndex(c));
        assert bt.index[j] == CellAt(c.rows[j], DateIndex(c));
      }
    }
  }

  // ---------------------------------------------------------------------------
  // load_csv, after reading the file
  // ---------------------------------------------------------------------------

  /** `parse_date`'s conversion with `errors='coerce'`: text becomes the
      parsed timestamp or missing; numbers and missing cells stay. The
      timestamp parser itself is a parameter. */
  function ParseCell(c: Cell, parse: string -> Option<real>): (r: Cell)
    ensures !r.Text?
  {
    match c
    case Text(s) => (match parse(s) case Some(t) => Num(t) case None => Missing)
    case _ => c
  }

  /** `parse_date`: raise without a date column; `to_datetime` of two columns
      both called `date` raises as well (it tries to assemble dates from
      duplicate keys); otherwise convert the date cells. */
  function ParseDates(f: Frame, parse: string -> Option<real>): (r: Result<Frame, LoadError>)
    ensures r.Failure? <==> "date" !in f.columns || !AtMostOnce(f.columns, "date")
    ensures r.Failure? ==> r.error == (if "date" !in f.columns then NoDateColumn else NotUnique("date"))
    ensures r.Success? ==> r.value.columns == f.columns && |r.value.rows| == |f.rows| && DatesParsed(r.value)
    ensures r.Success? ==> forall i | 0 <= i < |f.rows| :: |r.value.rows[i]| == |f.rows[i]|
    // a cell of the `date` column is parsed, every other cell is kept
    ensures r.Success? ==> forall i, k | 0 <= i < |f.rows| && 0 <= k < |f.rows[i]| ::
      (k < |f.columns| && f.columns[k] == "date" ==> r.value.rows[i][k] == ParseCell(f.rows[i][k], parse)) &&
      (!(k < |f.columns| && f.columns[k] == "date") ==> r.value.rows[i][k] == f.rows[i][k])
  {
    if "date" !in f.columns then Failure(NoDateColumn)
    else if !AtMostOnce(f.columns, "date") then Failure(NotUnique("date"))
    else
      Success(Frame(f.columns, seq(|f.rows|, i requires 0 <= i < |f.rows| =>
        seq(|f.rows[i]|, k requires 0 <= k < |f.rows[i]| =>
          if k < |f.columns| && f.columns[k] == "date"
          then ParseCell(f.rows[i][k], parse) else f.rows[i][k]))))
  }

  /** `load_csv` once the column names are standardised: parse dates,
      clean, validate. No date column fails in date parsing, and so does a
      repeated one; with one date column, a missing required column fails in
      cleaning with a KeyError, so validation's own missing-column error
      never surfaces. With every required column and one date column the
      load succeeds exactly when cleaning leaves rows and each price name
      labels one column without text, and it yields the cleaned table. */
  function LoadStandardized(f: Frame, parse: string -> Option<real>): (r: Result<Frame, LoadError>)
    ensures r.Failure? ==> !r.error.MissingColumns?
    ensures r.Failure? && r.error == NoDateColumn <==> "date" !in f.columns
    ensures r.Failure? && r.error == NotUnique("date") <==> "date" in f.columns && !AtMostOnce(f.columns, "date")
    ensures r.Failure? && r.error.KeyNotFound? <==>
      "date" in f.columns && AtMostOnce(f.columns, "date") && MissingRequired(f.columns) != []
    ensures MissingRequired(f.columns) == [] && AtMostOnce(f.columns, "date") ==>
      var cleaned := Clean(ParseDates(f, parse).value).value;
      (r.Success? <==>
        (cleaned.rows != [] && forall c | c in PriceColumns :: !TextIn(cleaned, c) && AtMostOnce(f.columns, c))) &&
      (r.Success? ==> r.value == cleaned)
    ensures r.Success? ==> r.value.columns == f.columns && |r.value.rows| <= |f.rows|
  {
    var parsed := ParseDates(f, parse);
    if parsed.Failure? then Failure(parsed.error)
    else
      var cleaned := Clean(parsed.value);
      if cleaned.Failure? then Failure(cleaned.error)
      else
        var checked := Validate(cleaned.value);
        assert "date" !in PriceColumns;
        assert cleaned.value.columns == f.columns && MissingRequired(f.columns) == [];
        if checked.Failure? then Failure(checked.error) else Success(cleaned.value)
  }

  /** `load_csv` from the read table on: standardise the column names, then
      parse dates, clean and validate. A successful load has strictly
      increasing dates, at least one row, every required column, and a single
      column under the date and each price name. */
  function Load(raw: Frame, parse: string -> Option<real>): (r: Result<Frame, LoadError>)
    ensures r.Success? ==> "date" in r.value.columns && IncreasingDates(r.value)
    ensures r.Success? ==> r.value.rows != [] && forall x | x in Required :: x in r.value.columns
    ensures r.Success? ==> |r.value.rows| <= |raw.rows|
    ensures r.Success? ==> r.value.columns == Standardize(raw.columns)
    ensures r.Success? ==> AtMostOnce(r.value.columns, "date")
    ensures r.Success? ==> forall c | c in PriceColumns :: AtMostOnce(r.value.columns, c)
    ensures r == LoadStandardized(Frame(Standardize(raw.columns), raw.rows), parse)
  {
    LoadStandardized(Frame(Standardize(raw.columns), raw.rows), parse)
  }

  /** `Date` beside `date` stops the load in date parsing: both
      standardise to `date`. */
  lemma DuplicateDateFails(rows: seq<Row>, parse: string -> Option<real>)
    ensures Load(Frame(["Date", "date", "open", "high", "low", "close", "volume"], rows), parse) ==
      Failure(NotUnique("date"))
  {
    var cols := ["Date", "date", "open", "high", "low", "close", "volume"];
    assert "Date" in LoaderMapping && LoaderMapping["Date"] == "date";
    LoaderTargetsFixed("date");
    var sc := Standardize(cols);
    assert sc[0] == "date" && sc[1] == "date";
    assert !AtMostOnce(sc, "date");
  }

  /** `Close` beside `close` stops the load in the price check: both
      standardise to `close`. */
  lemma DuplicateCloseFails(rows: seq<Row>, parse: string -> Option<real>)
    ensures Load(Frame(["date", "open", "high", "low", "close", "Close", "volume"], rows), parse).Failure?
  {
    var cols := ["date", "open", "high", "low", "close", "Close", "volume"];
    assert "Close" in LoaderMapping && LoaderMapping["Close"] == "close";
    LoaderTargetsFixed("close");
    var sc := Standardize(cols);
    assert sc[4] == "close" && sc[5] == "close";
    assert !AtMostOnce(sc, "close");
    assert "close" in PriceColumns;
  }

  /** A loaded table converts exactly when a single column is called
      `volume` (the loader checks the others): backtrader then receives at
      least one bar, with the dates strictly increasing. */
  lemma ConvertLoaded(raw: Frame, parse: string -> Option<real>)
    ensures Load(raw, parse).Success? ==>
      (Convert(Load(raw, parse).value).Success? <==> AtMostOnce(Load(raw, parse).value.columns, "volume"))
    ensures Load(raw, parse).Success? && Convert(Load(raw, parse).value).Success? ==>
      var bt := Convert(Load(raw, parse).value).value;
      bt.index != [] &&
      forall i, j | 0 <= i < j < |bt.index| :: bt.index[i].Num? && bt.index[i].x < bt.index[j].x
  {
    var r := Load(raw, parse);
    if r.Success? {
      UniqueExceptVolume(r.value.columns);
      if Convert(r.value).Success? {
        ConvertedIndex(r.value);
      }
    }
  }

  /** With the date and price names unique, the required names are unique
      exactly when `volume` is. */
  lemma UniqueExceptVolume(cols: seq<string>)
    requires AtMostOnce(cols, "date") && forall c | c in PriceColumns :: AtMostOnce(cols, c)
    ensures RequiredUnique(cols) <==> AtMostOnce(cols, "volume")
  {
    assert forall x | x in Required :: x == "date" || x in PriceColumns || x == "volume";
  }

  /** The index of a converted table with increasing dates is strictly
      increasing, and as long as the table. */
  lemma ConvertedIndex(f: Frame)
    requires "date" in f.columns && IncreasingDates(f) && Convert(f).Success?
    ensures |Convert(f).value.index| == |f.rows|
    ensures var bt := Convert(f).value;
      forall i, j | 0 <= i < j < |bt.index| :: bt.index[i].Num? && bt.index[i].x < bt.index[j].x
  {
    var bt := Convert(f).value;
    forall i, j | 0 <= i < j < |bt.index|
      ensures bt.index[i].Num? && bt.index[i].x < bt.index[j].x
    {
      assert bt.index[i] == CellAt(f.rows[i], DateIndex(f));
      assert bt.index[j] == CellAt(f.rows[j], DateIndex(f));
    }
  }
}
