/** Column names of a loaded bar table: CSVDataLoader's renaming to the
    standard names, dual_ma_strategy's own renaming and required-column
    check, and the header-line predicate that decides whether the first line
    of a file is skipped. */
module Columns {
  import opened Wrappers

  /** CSVDataLoader.COLUMN_MAPPING: A-share (Chinese), yfinance and generic
      column names to the standard names. */
  const LoaderMapping: map<string, string> := map[
    "股票代码" := "symbol",
    "股票名称" := "name",
    "交易日期" := "date",
    "开盘价" := "open",
    "最高价" := "high",
    "最低价" := "low",
    "收盘价" := "close",
    "前收盘价" := "pre_close",
    "成交量" := "volume",
    "成交额" := "amount",
    "流通市值" := "float_market_cap",
    "总市值" := "total_market_cap",
    "Symbol" := "symbol",
    "Date" := "date",
    "Datetime" := "date",
    "Open" := "open",
    "High" := "high",
    "Low" := "low",
    "Close" := "close",
    "Volume" := "volume",
    "Dividends" := "dividends",
    "Stock Splits" := "stock_splits",
    "symbol" := "symbol",
    "date" := "date",
    "datetime" := "date",
    "open" := "open",
    "high" := "high",
    "low" := "low",
    "close" := "close",
    "volume" := "volume"
  ]

  /** The mapping `run_backtest` in dual_ma_strategy.py applies. */
  const DualMaMapping: map<string, string> := map[
    "日期" := "date",
    "交易日期" := "date",
    "开盘价" := "open",
    "最高价" := "high",
    "最低价" := "low",
    "收盘价" := "close",
    "前收盘价" := "preclose",
    "成交量" := "volume",
    "成交额" := "amount"
  ]

  /** The six columns every bar table needs, in this order. */
  const Required: seq<string> := ["date", "open", "high", "low", "close", "volume"]

  /** pandas `rename(columns=m)`: a column found in the mapping takes its
      mapped name, any other keeps its own; count and order are preserved. */
  function Rename(m: map<string, string>, cols: seq<string>): (r: seq<string>)
    ensures |r| == |cols|
    ensures forall i | 0 <= i < |cols| :: cols[i] in m ==> r[i] == m[cols[i]]
    ensures forall i | 0 <= i < |cols| :: cols[i] !in m ==> r[i] == cols[i]
  {
    seq(|cols|, i requires 0 <= i < |cols| => if cols[i] in m then m[cols[i]] else cols[i])
  }

  /** A mapping whose every target is either no source or maps to itself, so
      that renaming twice is renaming once. */
  ghost predicate Settled(m: map<string, string>) {
    forall k | k in m :: m[k] !in m || m[m[k]] == m[k]
  }

  /** Renaming with a settled mapping is idempotent. */
  lemma RenameIdempotent(m: map<string, string>, cols: seq<string>)
    requires Settled(m)
    ensures Rename(m, Rename(m, cols)) == Rename(m, cols)
  {
    var once := Rename(m, cols);
    var twice := Rename(m, once);
    forall i | 0 <= i < |cols|
      ensures twice[i] == once[i]
    {
      if cols[i] in m {
        assert once[i] == m[cols[i]];
      }
    }
  }

  /** Every target of COLUMN_MAPPING is either no key or a key that maps to
      itself. */
  lemma LoaderMappingSettled()
    ensures Settled(LoaderMapping)
  {
    var m := LoaderMapping;
    forall k | k in m
      ensures m[k] !in m || m[m[k]] == m[k]
    {
      var v := m[k];
      LoaderTargets(k);
      if v in ["symbol", "date", "open", "high", "low", "close", "volume"] {
        LoaderTargetsFixed(v);
      } else {
        LoaderTargetsNotKeys(v);
      }
    }
  }

  /** The targets of COLUMN_MAPPING that are not themselves keys. */
  lemma LoaderTargetsNotKeys(v: string)
    requires v in ["name", "pre_close", "amount", "float_market_cap", "total_market_cap", "dividends", "stock_splits"]
    ensures v !in LoaderMapping
  {
  }

  /** The targets of COLUMN_MAPPING that map to themselves. */
  lemma LoaderTargetsFixed(v: string)
    requires v in ["symbol", "date", "open", "high", "low", "close", "volume"]
    ensures v in LoaderMapping && LoaderMapping[v] == v
  {
  }

  /** The fourteen standard names COLUMN_MAPPING produces. */
  lemma LoaderTargets(k: string)
    requires k in LoaderMapping
    ensures LoaderMapping[k] in ["symbol", "date", "open", "high", "low", "close", "volume",
      "name", "pre_close", "amount", "float_market_cap", "total_market_cap", "dividends", "stock_splits"]
  {
  }

  /** No target of the dual_ma_strategy mapping is itself a key. */
  lemma DualMaMappingSettled()
    ensures Settled(DualMaMapping)
  {
  }

  /** `standardize_columns`: rename exactly the columns that are keys of
      COLUMN_MAPPING. Applying it to its own output changes nothing. */
  function Standardize(cols: seq<string>): (r: seq<string>)
    ensures |r| == |cols|
    ensures forall i | 0 <= i < |cols| :: cols[i] in LoaderMapping ==> r[i] == LoaderMapping[cols[i]]
    ensures forall i | 0 <= i < |cols| :: cols[i] !in LoaderMapping ==> r[i] == cols[i]
    ensures Rename(LoaderMapping, r) == r
  {
    LoaderMappingSettled();
    RenameIdempotent(LoaderMapping, cols);
    Rename(LoaderMapping, cols)
  }

  /** The required columns absent from `cols`, in the order of the required
      list: `[col for col in REQUIRED_COLUMNS if col not in df.columns]`. */
  function MissingFrom(req: seq<string>, cols: seq<string>): (r: seq<string>)
    ensures forall x :: x in r <==> x in req && x !in cols
    ensures |r| <= |req|
  {
    if req == [] then []
    else (if req[0] !in cols then [req[0]] else []) + MissingFrom(req[1..], cols)
  }

  /** The required columns a table lacks. */
  function MissingRequired(cols: seq<string>): (r: seq<string>)
    ensures r == [] <==> forall x | x in Required :: x in cols
    ensures forall x :: x in r <==> x in Required && x !in cols
  {
    var r := MissingFrom(Required, cols);
    assert r != [] ==> r[0] in r;
    r
  }

  /** `run_backtest` in dual_ma_strategy.py up to the data feed: rename the
      columns, then give up (return `None`) if any required column is missing. */
  function DualMaColumns(cols: seq<string>): (r: Option<seq<string>>)
    ensures r.None? <==> exists x | x in Required :: x !in Rename(DualMaMapping, cols)
    ensures r.Some? ==> r.value == Rename(DualMaMapping, cols) && forall x | x in Required :: x in r.value
  {
    var renamed := Rename(DualMaMapping, cols);
    if MissingRequired(renamed) != [] then None else Some(renamed)
  }

  /** Both Chinese date headings become `date` in dual_ma_strategy.py. */
  lemma DualMaDateAliases(cols: seq<string>, i: int)
    requires 0 <= i < |cols| && (cols[i] == "日期" || cols[i] == "交易日期")
    ensures Rename(DualMaMapping, cols)[i] == "date"
  {
  }

  // ---------------------------------------------------------------------------
  // Header-line detection
  // ---------------------------------------------------------------------------

  /** The characters Python's `str.strip()` removes. */
  predicate IsSpace(ch: char) {
    ch == ' ' || ch == '\t' || ch == '\n' || ch == '\r' || ch == '\U{0B}' || ch == '\U{0C}' ||
    ch == '\U{1C}' || ch == '\U{1D}' || ch == '\U{1E}' || ch == '\U{1F}' ||
    ch == '\U{85}' || ch == '\U{A0}' || ch == '\U{1680}' ||
    ('\U{2000}' <= ch <= '\U{200A}') ||
    ch == '\U{2028}' || ch == '\U{2029}' || ch == '\U{202F}' || ch == '\U{205F}' || ch == '\U{3000}'
  }

  /** `str.strip()`: drop leading and trailing whitespace. What is dropped is
      all whitespace, and what is kept neither starts nor ends with it. */
  function Strip(s: string): (r: string)
    ensures r == s[StripStart(s)..StripEnd(s)]
    ensures forall i | 0 <= i < StripStart(s) :: IsSpace(s[i])
    ensures forall i | StripEnd(s) <= i < |s| :: IsSpace(s[i])
    ensures r != [] ==> !IsSpace(r[0]) && !IsSpace(r[|r| - 1])
  {
    s[StripStart(s)..StripEnd(s)]
  }

  /** Where the stripped text starts. */
  function StripStart(s: string): (a: nat)
    ensures a <= |s|
  {
    LeadingSpaces(s, 0)
  }

  /** Where the stripped text ends. */
  function StripEnd(s: string): (b: nat)
    ensures StripStart(s) <= b <= |s|
  {
    TrailingEnd(s, StripStart(s), |s|)
  }

  /** The index of the first non-space character at or after `i`. */
  function LeadingSpaces(s: string, i: nat): (a: nat)
    requires i <= |s|
    requires forall j | 0 <= j < i :: IsSpace(s[j])
    ensures i <= a <= |s|
    ensures forall j | 0 <= j < a :: IsSpace(s[j])
    ensures a < |s| ==> !IsSpace(s[a])
    decreases |s| - i
  {
    if i == |s| || !IsSpace(s[i]) then i else LeadingSpaces(s, i + 1)
  }

  /** The end of the text before the trailing spaces, searching down from `j`
      but not below `a`. */
  function TrailingEnd(s: string, a: nat, j: nat): (b: nat)
    requires a <= j <= |s|
    requires forall k | j <= k < |s| :: IsSpace(s[k])
    ensures a <= b <= j
    ensures forall k | b <= k < |s| :: IsSpace(s[k])
    ensures b > a ==> !IsSpace(s[b - 1])
    decreases j
  {
    if j == a || !IsSpace(s[j - 1]) then j else TrailingEnd(s, a, j - 1)
  }

  /** `needle` occurs in `hay` starting at index `i`. */
  predicate OccursAt(hay: string, needle: string, i: int) {
    0 <= i && i + |needle| <= |hay| && hay[i..i + |needle|] == needle
  }

  /** `needle in hay` for strings. */
  predicate Contains(hay: string, needle: string) {
    exists i | 0 <= i <= |hay| - |needle| :: OccursAt(hay, needle, i)
  }

  /** The first line as `readline()` returns it: up to and including the first
      newline (text mode has already turned `\r\n` and `\r` into `\n`). */
  function FirstLine(text: string): (r: string)
    ensures r <= text
    ensures forall i | 0 <= i < |r| - 1 :: r[i] != '\n'
    // it ends at the first newline, or is the whole text when there is none
    ensures '\n' in text ==> r != [] && r[|r| - 1] == '\n'
    ensures '\n' !in text ==> r == text
  {
    if text == [] then []
    else if text[0] == '\n' then ['\n']
    else [text[0]] + FirstLine(text[1..])
  }

  /** The notes the A-share files carry on their first line. */
  const HeaderMarkers: seq<string> := ["邢不行", "说明", "数据"]

  /** `detect_skip_rows`: 1 when the stripped first line contains one of the
      markers, otherwise 0, and 0 when the file cannot be read (`None`). */
  function SkipRows(file: Option<string>): (n: int)
    ensures n == 0 || n == 1
    ensures file.None? ==> n == 0
    ensures file.Some? ==>
      (n == 1 <==> exists m | m in HeaderMarkers :: Contains(Strip(FirstLine(file.value)), m))
  {
    match file
    case None => 0
    case Some(text) =>
      var line := Strip(FirstLine(text));
      MarkerHit(line);
      if Contains(line, "邢不行") || Contains(line, "说明") || Contains(line, "数据") then 1 else 0
  }

  /** Containing some marker is containing one of the three literals. */
  lemma MarkerHit(line: string)
    ensures (exists m | m in HeaderMarkers :: Contains(line, m)) <==>
      Contains(line, "邢不行") || Contains(line, "说明") || Contains(line, "数据")
  {
    assert HeaderMarkers == ["邢不行", "说明", "数据"];
    if Contains(line, "邢不行") { assert HeaderMarkers[0] in HeaderMarkers; }
    if Contains(line, "说明") { assert HeaderMarkers[1] in HeaderMarkers; }
    if Contains(line, "数据") { assert HeaderMarkers[2] in HeaderMarkers; }
  }

  /** An occurrence of a needle without whitespace lies between a leading and
      a trailing run of whitespace. */
  lemma OccurrenceInside(s: string, needle: string, i: int, a: int, b: int)
    requires needle != [] && forall k | 0 <= k < |needle| :: !IsSpace(needle[k])
    requires OccursAt(s, needle, i)
    requires 0 <= a <= b <= |s|
    requires forall k | 0 <= k < a :: IsSpace(s[k])
    requires forall k | b <= k < |s| :: IsSpace(s[k])
    ensures a <= i && i + |needle| <= b
  {
    assert s[i..i + |needle|] == needle;
    assert s[i] == needle[0];
    assert s[i + |needle| - 1] == needle[|needle| - 1];
  }

  /** A needle without whitespace is found in a stripped line iff it is found
      in the line itself: the strip never cuts through a marker. */
  lemma StripKeepsMarkers(s: string, needle: string)
    requires needle != [] && forall k | 0 <= k < |needle| :: !IsSpace(needle[k])
    ensures Contains(Strip(s), needle) <==> Contains(s, needle)
  {
    if Contains(Strip(s), needle) {
      StrippedOccurrence(s, needle);
    }
    if Contains(s, needle) {
      RawOccurrence(s, needle);
    }
  }

  /** An occurrence in the stripped line is one in the line. */
  lemma StrippedOccurrence(s: string, needle: string)
    requires Contains(Strip(s), needle)
    ensures Contains(s, needle)
  {
    var r := Strip(s);
    var a, b := StripStart(s), StripEnd(s);
    var i :| 0 <= i <= |r| - |needle| && OccursAt(r, needle, i);
    SliceOfSlice(s, a, b, i, i + |needle|);
    assert OccursAt(s, needle, a + i);
  }

  /** An occurrence of a needle without whitespace in the line survives the
      strip. */
  lemma RawOccurrence(s: string, needle: string)
    requires needle != [] && forall k | 0 <= k < |needle| :: !IsSpace(needle[k])
    requires Contains(s, needle)
    ensures Contains(Strip(s), needle)
  {
    var r := Strip(s);
    var a, b := StripStart(s), StripEnd(s);
    var i :| 0 <= i <= |s| - |needle| && OccursAt(s, needle, i);
    OccurrenceInside(s, needle, i, a, b);
    SliceOfSlice(s, a, b, i - a, i - a + |needle|);
    assert OccursAt(r, needle, i - a);
  }

  /** A slice of a slice is a slice of the original. */
  lemma SliceOfSlice(s: string, a: int, b: int, i: int, j: int)
    requires 0 <= a <= b <= |s| && 0 <= i <= j <= b - a
    ensures s[a..b][i..j] == s[a + i..a + j]
  {
    var x, y := s[a..b][i..j], s[a + i..a + j];
    assert |x| == |y|;
    forall t | 0 <= t < |x|
      ensures x[t] == y[t]
    {
      assert x[t] == s[a..b][i + t] == s[a + i + t];
    }
  }

  /** The header predicate stated on the raw first line: stripping does not
      matter, since no marker contains whitespace. */
  lemma SkipRowsOnRawLine(text: string)
    ensures SkipRows(Some(text)) == 1 <==> exists m | m in HeaderMarkers :: Contains(FirstLine(text), m)
  {
    forall m | m in HeaderMarkers
      ensures Contains(Strip(FirstLine(text)), m) <==> Contains(FirstLine(text), m)
    {
      StripKeepsMarkers(FirstLine(text), m);
    }
  }
}
