# Monthly swing and moving-average strategies on backtrader, in Dafny

This project models the decision logic and data preparation of
GoldenFactor_BackTrader, a set of backtrader strategies for A-share and US
stock data. It covers five parts:

- **`Swing`** (swing.dfy): the monthly swing engine. MonthlySwingStrategy and
  MonthlySwingOptimized are one engine with an entry mode, either `Strict` or
  `Flexible(min_conditions)`. The model covers:
  - the entry, stop-loss, exit and add-position checks;
  - `next`, which orders those checks by precedence and sizes orders in
    100-share lots;
  - `notify_order` and `notify_trade`;
  - a session of bars and order notices, with an invariant that every event
    preserves.
- **`Crossover`** (crossover.dfy): the three crossover strategies.
  DualMAStrategy sizes at 95% of cash, keeps a pending-order guard and counts
  trades. DualMovingAverageStrategy keeps the same guard and lets the sizer
  choose. SimpleMAStrategy has no guard.
- **`Columns`** (columns.dfy): column names. This covers:
  - CSVDataLoader's `COLUMN_MAPPING` and `standardize_columns`;
  - the required-column checks;
  - the renaming and column check in `run_backtest` of dual_ma_strategy.py;
  - the predicate `detect_skip_rows` uses to decide whether to skip the first
    line.
- **`Table`** (table.dfy): CSVDataLoader's table pipeline after the file is
  read. `parse_date` coerces dates. `clean_data` drops duplicates keeping the
  last, sorts by date, then drops incomplete rows. The model also covers
  `validate_data`, `convert_to_backtrader_format`, and the order of the steps
  in `load_csv`.
- **`Monthly`** (monthly.dfy): the daily-to-monthly resampling the two
  monthly runners perform. Each month keeps the first open, the highest high,
  the lowest low, the last close and the volume sum. Months with a missing
  price are dropped.

Shared pieces:

- `Sizing` covers Python's `int()` on a quotient and whole lots.
- `Orders` covers backtrader's order statuses and the rule for keeping the
  order handle.
- `Wrappers` defines `Option` and `Result`.

The model does not compute indicator values: MACD crossover, MA60, MA120,
RSI, volume average and crossover sign are per-bar inputs. The broker's cash,
value and position are inputs too. Prices are exact reals. Dates are numbers
once parsed, and the timestamp parser is a function parameter.

Behaviours of the code that the model makes explicit:

- **Flexible entry is a raw count.** The code only compares
  `sum(conditions)` with `min_conditions`, whichever conditions hold. With
  `min_conditions = 1`, a volume surge alone enters
  (`Swing.VolumeAloneCanEnter`).
- **Entry price is not averaged.** The code records the entry price only on
  the first buy fill. An add fill leaves it as it was
  (`Swing.AddFillKeepsEntryPrice`).

- **`validate_data`'s missing-column error is unreachable from `load_csv`.**
  `clean_data` selects the required columns first and fails with a KeyError.
  `Table.LoadStandardized` states that a failed load never carries the `MissingColumns`
  error.
- **`clean_data` de-duplicates before it drops rows with missing values.** A
  date whose last row is incomplete disappears, even when an earlier row of
  that date was complete (`Table.IncompleteLastRowLosesDate`).
- **Two headings that standardise to one name stop the pipeline.** pandas
  then selects several columns under that name. A repeated `date` makes
  `to_datetime` raise. A repeated price name makes the truth value of the
  price check ambiguous. A repeated `volume` passes the loader, but the
  backtrader conversion then raises on a column-count mismatch
  (`Table.DuplicateDateFails`, `Table.DuplicateCloseFails`,
  `Table.ConvertLoaded`).
- **`has_added_position` is set when the add order is submitted, not when it
  fills.** A canceled add still blocks every later add for the same position
  (`Swing.CanceledAddBlocksLaterAdds`).
- **`notify_order` drops the order handle on every status except submitted
  and accepted.** This includes partial fills and expiry.

## Model

| member | source | states |
|---|---|---|
| Sizing.Trunc | strategies/tesla_dual_ma_strategy.py:128 | `int()` of a float truncates toward zero: the result is the whole part, below it by less than one |
| Sizing.Shares | strategies/tesla_dual_ma_strategy.py:128 | the share count `int(budget / price)` never costs more than the budget, and one more share would exceed a non-negative budget |
| Sizing.Lots | strategies/monthly_swing_strategy.py:351 | `int(budget / price / 100) * 100` is a whole number of 100-share lots, within budget, with one more lot over budget |
| Orders.HandleAfter | strategies/monthly_swing_strategy.py:143-176 | the order handle survives a notification exactly when the status is submitted or accepted |
| Swing.Count | strategies/monthly_swing_optimized.py:190 | the count of satisfied conditions is at most three, and all of them exactly when it reaches the length |
| Swing.CheckEntry | strategies/monthly_swing_optimized.py:178-210 | no entry before `ma_long` bars; strict mode needs MACD golden cross, close above MA60 and a volume surge; flexible mode needs at least `min_conditions` of the three |
| Swing.CheckEntryAsWritten | strategies/monthly_swing_optimized.py:193-202 | the optimized entry check raises exactly when at least `min_conditions` conditions hold on a bar with a zero volume average, and otherwise decides as `Swing.CheckEntry` |
| Swing.ZeroVolumeAverageRaises | strategies/monthly_swing_optimized.py:193-202 | a zero-volume bar with a golden cross and the close above MA60 is an entry under the default two-of-three rule, yet the as-written check raises on it |
| Swing.StrictImpliesFlexible | strategies/monthly_swing_optimized.py:207-210 | every bar the strict mode accepts is accepted by flexible mode with a requirement of at most three |
| Swing.FlexibleMonotone | strategies/monthly_swing_optimized.py:193 | lowering `min_conditions` never rejects a bar that was accepted |
| Swing.TwoOfThree | strategies/monthly_swing_optimized.py:184-210 | with the optimized default of two, a bar enters iff some pair of the three conditions holds |
| Swing.VolumeAloneCanEnter | strategies/monthly_swing_optimized.py:184-190 | with `min_conditions = 1` a volume surge alone, without golden cross and below MA60, enters |
| Swing.CheckStopLoss | strategies/monthly_swing_strategy.py:269-281 | stop-loss fires iff a position with an entry price is held and either the loss from entry reaches `stop_loss_pct` or the close is below MA120 |
| Swing.CheckExit | strategies/monthly_swing_strategy.py:236-262 | when holding, the highest price is first raised to the close; exit iff death cross with RSI overbought, a drawdown from that high of at least `trailing_stop_pct`, or a gain from entry of at least `take_profit_pct`; flat, nothing changes |
| Swing.DrawdownNonNegative | strategies/monthly_swing_strategy.py:240-252 | after the update the highest price is at least the close, so the trailing drawdown is never negative |
| Swing.CheckAdd | strategies/monthly_swing_strategy.py:289-313 | an add fires iff nothing was added yet, a position with an entry price is held, the position fraction is below `max_position`, the pullback from entry reaches `pullback_pct`, and the stop-loss would not fire |
| Swing.AddPullbackWindow | strategies/monthly_swing_strategy.py:301-306 | an add happens only inside the window between the pullback and stop-loss levels, with the close at or above MA120 |
| Swing.AddSize | strategies/monthly_swing_strategy.py:349-351 | the add size is the largest whole number of lots whose cost stays within `add_position / (1 - add_position)` of the cash: one more lot would exceed it, and a negative budget gives no shares |
| Swing.EntrySize | strategies/monthly_swing_strategy.py:364-367 | the entry size is the largest whole number of lots whose cost stays within `initial_position` of the portfolio value: one more lot would exceed it, and a negative budget gives no shares |
| Swing.Opportunity | strategies/monthly_swing_strategy.py:346-376 | an add is placed exactly when the add check passes with a positive add size, and then with that size; a zero-sized add places nothing and skips the entry check; otherwise an entry is placed exactly when flat, the entry check passes and the entry size is positive, with that size; the order is recorded with the fields it sets |
| Swing.Step | strategies/monthly_swing_strategy.py:328-376 | a pending order blocks the bar; otherwise exactly one of stop-loss, exit, add, entry or nothing, by precedence: stop-loss iff its check fires, exit iff its check fires after that, an add of `AddSize` iff the add check passes with a positive size, an entry of `EntrySize` iff flat with a passing entry check and a positive size; sells close the whole position; the entry price never changes; past the stop-loss the highest price becomes the exit check's max(highest, close), and it never falls |
| Swing.NotifyOrder | strategies/monthly_swing_strategy.py:143-176 | submitted/accepted change nothing; only the first completed buy sets the entry and highest price; every other status drops the handle; the add bookkeeping is untouched |
| Swing.ReturnPct | strategies/monthly_swing_optimized.py:159 | the logged return is net profit over trade value in percent, and 0 for a trade of value 0 |
| Swing.ReturnPctAsWritten | strategies/monthly_swing_strategy.py:189 | the unguarded return fails exactly when the trade value is 0, and otherwise is net profit over value in percent |
| Swing.ReturnPctZeroValue | strategies/monthly_swing_strategy.py:189 | on a trade of value 0 the unguarded division fails where the guarded one reports 0 |
| Swing.NotifyTrade | strategies/monthly_swing_strategy.py:183-196 | an open-trade notice changes nothing; a closed trade resets entry price, highest price, add flag and position fraction, keeps the order handle, and reports the guarded return `Swing.ReturnPct` (line 189 divides without the guard; see Findings) |
| Swing.FreshInv | strategies/monthly_swing_strategy.py:80-84 | the fields as `__init__` sets them satisfy the session invariant |
| Swing.Apply | strategies/monthly_swing_strategy.py:138-196 | every bar and every order notice keeps the session invariant: entry and highest price set together with entry ≤ highest, a position held exactly when an entry price is recorded, and a pending sell for the whole position |
| Swing.Run | strategies/monthly_swing_strategy.py:315-376 | the session invariant holds after any sequence of valid events |
| Swing.RunKeepsHighestAboveEntry | strategies/monthly_swing_strategy.py:240-241 | along any run, whenever a position is held the highest price is known and at least the positive entry price, so the exit check's comparison is defined |
| Swing.CanceledAddBlocksLaterAdds | strategies/monthly_swing_strategy.py:355-357 | after an add order is submitted and then canceled, the position is unchanged and no later bar can add again |
| Swing.AddFillKeepsEntryPrice | strategies/monthly_swing_strategy.py:157-162 | an add fill increases the position by the order size and keeps the first entry price |
| Swing.SellFillResets | strategies/monthly_swing_strategy.py:193-196 | a fill of the pending sell flattens the position and returns all strategy fields to their initial values |
| Crossover.NotifyOrder | strategies/tesla_dual_ma_strategy.py:68-96 | submitted/accepted change nothing; a completed buy records price and commission; any completion records the bar; every other status only drops the handle |
| Crossover.DualMANext | strategies/tesla_dual_ma_strategy.py:110-138 | with an order pending nothing; flat on a golden cross buys `int(cash * position_pct / price)` shares iff that is positive, which at a positive price is the largest share count within budget and at a negative price with a non-negative budget is no buy; holding on a death cross sells the whole position; the order is recorded as pending |
| Crossover.DualMATrade | strategies/tesla_dual_ma_strategy.py:97-103 | a closed trade increments the counter by one and an open-trade notice changes nothing |
| Crossover.CountTradesExact | strategies/tesla_dual_ma_strategy.py:97-103 | over any sequence of trade notices the counter grows by exactly the number of closed trades |
| Crossover.DualMovingAverageNext | dual_ma_strategy.py:101-124 | a buy iff no order is pending, flat and golden cross; a sell iff no order is pending, holding and death cross; sizes left to the sizer; the order is recorded as pending |
| Crossover.SimpleNext | simple_example.py:30-39 | a buy iff flat on a golden cross, a sell iff holding on a death cross, sizes left to the sizer |
| Crossover.SimpleDependsOnlyOnSigns | simple_example.py:30-39 | the decision depends only on whether a position is held and on the sign of the crossover |
| Crossover.GuardStopsSecondOrder | dual_ma_strategy.py:109-110 | with a buy still unfilled, a second golden cross places nothing in the guarded strategy, while the unguarded one buys again |
| Columns.Rename | strategies/csv_data_loader.py:122-128 | renaming keeps count and order, maps each column found in the mapping and keeps every other |
| Columns.RenameIdempotent | strategies/csv_data_loader.py:114-130 | renaming twice with a mapping whose targets are fixed points or non-keys equals renaming once |
| Columns.LoaderMappingSettled | strategies/csv_data_loader.py:31-67 | every target of `COLUMN_MAPPING` is either no key or maps to itself |
| Columns.DualMaMappingSettled | dual_ma_strategy.py:168-178 | no target of the dual_ma mapping is itself renamed |
| Columns.Standardize | strategies/csv_data_loader.py:114-130 | standardising renames exactly the mapped columns and standardising its result again changes nothing |
| Columns.MissingFrom | strategies/csv_data_loader.py:165 | the missing list holds exactly the required names absent from the columns |
| Columns.MissingRequired | strategies/csv_data_loader.py:165-167 | the missing list is empty iff all six required columns are present, and holds exactly the absent ones |
| Columns.DualMaColumns | dual_ma_strategy.py:181-189 | the runner gives up iff some required column is absent after its renaming; otherwise it continues with the renamed columns |
| Columns.DualMaDateAliases | dual_ma_strategy.py:169-170 | both Chinese date headings become `date` |
| Columns.FirstLine | strategies/csv_data_loader.py:103 | the first line is the prefix of the text up to and including its first newline, or the whole text when it has no newline |
| Columns.Strip | strategies/csv_data_loader.py:103 | stripping removes only whitespace, and the result neither starts nor ends with whitespace |
| Columns.SkipRows | strategies/csv_data_loader.py:101-111 | one line is skipped iff the stripped first line contains one of the three marker words; an unreadable file skips none |
| Columns.StripKeepsMarkers | strategies/csv_data_loader.py:103-106 | a marker without whitespace occurs in the stripped line iff it occurs in the line |
| Columns.SkipRowsOnRawLine | strategies/csv_data_loader.py:103-107 | the skip decision is the same whether or not the first line is stripped |
| Table.KeepLast | strategies/csv_data_loader.py:190 | de-duplication leaves distinct dates; every kept row is the last input row of its date and every such last row is kept |
| Table.SortByDate | strategies/csv_data_loader.py:193 | sorting gives the same rows with dates strictly increasing, missing dates last |
| Table.SortedOrderUnique | strategies/csv_data_loader.py:193 | two strictly date-sorted tables with the same rows are equal, so any correct sort gives this order |
| Table.DropIncomplete | strategies/csv_data_loader.py:196 | exactly the rows with every required value present remain |
| Table.DropKeepsOrder | strategies/csv_data_loader.py:193-196 | dropping incomplete rows keeps the date order |
| Table.Clean | strategies/csv_data_loader.py:182-198 | cleaning fails iff a required column is missing or two columns are called `date` (the sort raises), the latter reported before other missing columns; on success dates are present and strictly increasing, every row has a value in every column carrying a required name, each row is its date's last input row, and every such complete last row is kept |
| Table.IncompleteLastRowLosesDate | strategies/csv_data_loader.py:190-196 | a date whose last row is incomplete disappears from the cleaned table, so even a complete earlier row of that date is lost |
| Table.PriceWarnings | strategies/csv_data_loader.py:174-177 | the price loop fails iff some price name labels a column holding text or labels two columns (the comparison, or its truth value, raises), naming such a column; otherwise it warns about exactly the columns with a non-positive value |
| Table.Validate | strategies/csv_data_loader.py:157-179 | validation fails on missing columns iff some are missing, naming them; on an empty table iff columns are complete and there are no rows; it succeeds when, beyond that, each price name labels one column without text, and only then; on success the warnings are exactly the non-positive price columns |
| Table.Convert | strategies/csv_data_loader.py:278-302 | conversion fails iff a required column is missing (naming them) or a required name labels two columns (too many columns for the six new names); otherwise each row becomes its Open, High, Low, Close and Volume cells, indexed by its date |
| Table.ConvertCleaned | strategies/csv_data_loader.py:289-300 | a cleaned table converts exactly when no required name labels two columns, and then with a strictly increasing date index |
| Table.ConvertLoaded | strategies/csv_data_loader.py:328-332 | a loaded table converts exactly when a single column is called `volume`, and then to at least one bar with strictly increasing dates |
| Table.DuplicateDateFails | strategies/csv_data_loader.py:133-154 | headings `Date` and `date` both standardise to `date`, so the load fails in date parsing |
| Table.DuplicateCloseFails | strategies/csv_data_loader.py:174-177 | headings `close` and `Close` both standardise to `close`, so the load fails in the price check |
| Table.ParseCell | strategies/csv_data_loader.py:144 | coercing a date cell never leaves text: it becomes a timestamp or missing |
| Table.ParseDates | strategies/csv_data_loader.py:133-154 | date parsing fails iff there is no date column or two columns are called `date`; otherwise it keeps columns, row count and row lengths, replaces each cell of the `date` column by its parsed value and keeps every other cell |
| Table.LoadStandardized | strategies/csv_data_loader.py:246-261 | a missing date column and a repeated one fail in date parsing, other missing required columns fail in cleaning, and never as the validation error; with all required columns and one date column the load succeeds iff cleaning leaves rows and each price name labels one column without text, and then yields the cleaned table |
| Table.Load | strategies/csv_data_loader.py:240-261 | loading is standardising the names and then `Table.LoadStandardized`; a loaded table has standardised columns including all required ones, one column under the date and each price name, at least one row, no more rows than the file, and strictly increasing dates |
| Monthly.MonthKeyIdentifies | strategies/monthly_swing_strategy.py:425 | two valid dates share a month key iff they share year and month |
| Monthly.MonthKeyMonotone | strategies/monthly_swing_strategy.py:425 | the month key follows calendar order |
| Monthly.ChronologicalKeysSorted | strategies/monthly_swing_strategy.py:419 | rows sorted by date have non-decreasing month keys |
| Monthly.FirstSome | strategies/monthly_swing_strategy.py:426 | 'first' is present iff some value is, and is the value of the earliest row that has one |
| Monthly.LastSome | strategies/monthly_swing_strategy.py:429 | 'last' is present iff some value is, and is the value of the latest row that has one |
| Monthly.MaxSome | strategies/monthly_swing_strategy.py:427 | 'max' is present iff some value is, is one of them and bounds all from above |
| Monthly.MinSome | strategies/monthly_swing_strategy.py:428 | 'min' is present iff some value is, is one of them and bounds all from below |
| Monthly.SumSome | strategies/monthly_swing_strategy.py:430 | 'sum' of one day is its value (0 when missing), 0 without values and non-negative over non-negative values; with `Monthly.SumSomeAppend` this fixes the sum of any month |
| Monthly.SumSomeAppend | strategies/monthly_swing_strategy.py:430 | the sum over two stretches of days is the sum of the two sums |
| Monthly.Aggregate | strategies/monthly_swing_strategy.py:425-434 | a month yields a bar iff it has an open, a high, a low and a close, and the bar carries that month |
| Monthly.AggregateEnds | strategies/monthly_swing_strategy.py:426-430 | the bar's open is the first open of the month, its close the last close, its volume the sum of the month's volumes |
| Monthly.AggregateExtremes | strategies/monthly_swing_strategy.py:427-428 | the bar's high is the greatest daily high and its low the least daily low, each attained on some day |
| Monthly.AggregateRange | strategies/monthly_swing_strategy.py:427-428 | when every day's low is at most its high, the month's low is at most its high |
| Monthly.MonthRows | strategies/monthly_swing_strategy.py:425 | a month's group holds exactly the rows of that month |
| Monthly.MonthRowsAppend | strategies/monthly_swing_strategy.py:425 | grouping a concatenation of days by month gives the concatenation of the groups |
| Monthly.MonthRowsOthers | strategies/monthly_swing_strategy.py:425 | removing one month's rows leaves every other month's group unchanged |
| Monthly.Resample | strategies/monthly_swing_strategy.py:425-434 | one bar per month, in increasing month order; each bar is the aggregate of all rows of its month; every month with a complete aggregate has a bar, and only months with data do |
| Monthly.ResampleChronological | strategies/monthly_swing_strategy.py:417-434 | on daily rows in calendar order, the monthly bars come out in increasing (year, month) order |

## Left out

- Indicators are not modelled: MACD, SMA, RSI and `CrossOver` are computed by backtrader. The model takes their values as per-bar inputs in `Swing.Bar` and as the `crossover` argument in `Crossover`.
- Broker mechanics are not modelled: fill prices, commission, slippage, cash and portfolio value. Cash, value and position arrive as inputs. In `Swing.Apply` a completed market order fills its full size.
- Analyzers (Sharpe ratio, drawdown, returns, trade statistics), `stop`, `log` and every print are output only and are not modelled.
- `run_backtest` and `compare_strategies` are not modelled beyond the column handling in `Columns.DualMaColumns` and the resampling in `Monthly`. Cerebro set-up, plotting and file reading are I/O.
- CSVDataLoader's `detect_encoding`, file existence, `pd.read_csv` and `save_standardized_csv` are file I/O. `SkipRows` takes the file's text, or `None` when it cannot be read.
- Timezone stripping in `parse_date` is not modelled, and the timestamp parser is a parameter of `Table.ParseDates` because it is pandas' `to_datetime`.
- stock_data_tool and test_csv.py are outside the modelled core.
- Float arithmetic is modelled by exact reals, so rounding in `int(x / price)` at exact lot boundaries is not modelled.
- Swing.Step: requires `Ready`, i.e. a held position has a highest price. The source would raise a TypeError comparing with `None` otherwise. `Swing.RunKeepsHighestAboveEntry` shows the requirement holds along every run.
- Swing.Apply: partial fills are excluded from the valid events, because the strategies configure no filler and backtrader's default broker fills market orders whole, so a `Partial` notice never arrives.
- Swing.Step: requires a positive close (`ValidBar`), which the sizing divides by, and `add_position != 1` (`ValidConfig`), which the add size divides by.
- Swing.CheckEntry: is the corrected entry check. The optimized strategy's log line divides volume by its average whenever at least `min_conditions` conditions hold, in strict and flexible mode alike, and raises ZeroDivisionError when that average is 0. `Swing.CheckEntryAsWritten` models that path (see Findings); `Swing.Step` uses the corrected check.
- Crossover.DualMANext: requires a non-zero price on the buying branch (no pending order, flat, golden cross), because there `int(cash * position_pct / price)` raises ZeroDivisionError at price 0, which the loader's validation lets through with only a warning. A negative price is modelled: the truncated quotient is then not positive for a non-negative budget, so nothing is bought.
- Monthly.Resample: groups rows by month without modelling the order of same-day duplicates, because `sort_index` does not keep their file order. Empty calendar months, which `resample` creates and `dropna` removes, are simply never produced.
- DualMovingAverageStrategy's `notify_trade` only logs, so it has no model of its own.

## Findings

| source | as written | input that shows it | evidently intended | confidence | as-written member | corrected member |
|---|---|---|---|---|---|---|
| strategies/monthly_swing_strategy.py:189 | the closed-trade log divides `trade.pnlcomm` by `trade.value` without a guard | a closed trade whose `trade.value` is 0 (backtrader values a trade by its remaining size, which is 0 once closed) raises ZeroDivisionError | guard the division as strategies/monthly_swing_optimized.py:159 does, reporting 0 | not executed; backtrader's trade bookkeeping is not part of this model | Swing.ReturnPctAsWritten | Swing.ReturnPct |
| strategies/monthly_swing_optimized.py:202 | the entry-signal log divides `volume[0]` by `volume_ma[0]` without a guard, before the entry decision | a bar past `ma_long` with a MACD golden cross, the close above MA60 and zero volume over the last `volume_period` bars (as in volume-less index data), under the default `min_conditions` 2, raises ZeroDivisionError instead of entering (`Swing.ZeroVolumeAverageRaises`) | log the ratio only when the average is non-zero and decide on the conditions alone | not executed; high, the division is on floats | Swing.CheckEntryAsWritten | Swing.CheckEntry |
