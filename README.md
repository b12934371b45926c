# Trade diary — a Dafny model

This project models the logic of a personal journal for two-legged options trades. Each trade has a call (CE) leg and a put (PE) leg, one direction (BUY or SELL) and one quantity. The model covers:

- the P/L and stop-loss calculators;
- the aggregate figures of the statistics page and the dashboard;
- the cumulative P/L series of the chart;
- the header's date filter;
- the journal's optimistic add/update/delete with rollback;
- the monthly report and its CSV export;
- the trade calendar;
- the add/edit dialog;
- the Google Apps Script backend that keeps the trades as rows of a sheet.

Modules, one per source file, plus the helpers they share:

| module | models |
|---|---|
| `Types` | `types.ts`: `Trade`, `OptionsTradeType`, `DateFilter`, and the profit factor with its `Infinity` case |
| `TradeUtils` | `tradeUtils.ts` |
| `Metrics` | the guarded averages and profit factor that both statistics panels compute |
| `StatsPage`, `DashboardStats` | the `tradeStats` / `stats` memos |
| `TradeChart` | the `chartData` memo: a sort by CE exit moment, then a walk that accumulates the running total |
| `DateUtils` | `getDateRange`, on `JsDate` objects moved with `setDate` / `setHours` |
| `App` | the class `TradeJournal`, holding the component's state |
| `ReportsPage` | the current-month filter, the type/text filter and `exportToCsv` |
| `CalendarPage` | `tradesByDate`, the month grid and the class `Calendar`, whose state is the month on show |
| `AddTradeModal` | the class `TradeForm`, holding the form's fields, with its previews and saves |
| `Backend` | `Code.gs.js`, with the class `Sheet` holding the sheet's rows |
| `Seqs` | `filter` / `map` / `reduce` on sequences |
| `Text` | `String(n)`, `parseInt`, `parseFloat`, `toFixed(2)`, `split`, `join`, `toLowerCase` |
| `Gregorian` | ECMAScript's day arithmetic: `MakeDay`, with month and day roll-over and years 0..99 read as 19xx, and `WeekDay` |
| `JsDates` | mutable `Date` objects |
| `DateText` | `YYYY-MM-DD` text |

Prices are exact reals. The JavaScript quirks and error paths listed here are written out; the ones the model does not capture are listed under "## Left out". Written out:

- `NaN` is `None`;
- `Infinity` is `ProfitFactor.Infinite`;
- an invalid date is `None`;
- `parseInt` and `parseFloat` read the number at the front of the text, while `Number` must read the whole text, and `Number("")` is 0;
- `Date.UTC` cuts fractional parts toward zero and reads years 0..99 as 19xx.

The backend's remote outcome and the clock are parameters.

Two date filters behave in ways a reader may not expect; the model follows the code:

- **last-wk on a Sunday.** The week is meant to start on Monday (the comment "Assuming Monday is the first day" and the `-6` branch for a Sunday at `dateUtils.ts:28`). 'this-wk' does step back six days on a Sunday, but 'last-wk' (`dateUtils.ts:36`) subtracts `day - 1 + 7` with no Sunday branch, so on a Sunday it returns the current week, not the one before; see `DateUtils.LastWeekAsWritten`.
- **last-3-mo.** This filter ends on the last day of the previous month, so it leaves out the current month; see `DateUtils.LastThreeMonthsCovers`.

## Model

| member | source | states |
|---|---|---|
| TradeUtils.Pnl | tradeUtils.ts:3-17 | the trade's P/L is the CE leg's `calculateLegPnl` plus the PE leg's, with the trade's quantity and direction |
| TradeUtils.Sl | tradeUtils.ts:34-37 | the stop-loss is 0 for a non-positive entry and exactly 1.5 × entry for a positive one, so it is never negative and lies above a positive entry |
| TradeUtils.LegPnl | tradeUtils.ts:19-32 | a leg's P/L is 0 for quantity 0 or an unchanged price |
| TradeUtils.LegPnlSign | tradeUtils.ts:19-32 | for a positive quantity, a SELL leg gains iff it closes below entry and loses iff above; a BUY leg the other way round; the SELL P/L is the BUY P/L negated |
| TradeUtils.TradeDay | tradeUtils.ts:39-44 | the day name is "" exactly for an empty date; otherwise it is "Invalid Date" or one of the seven English weekday names |
| TradeUtils.FlipNegatesLeg | tradeUtils.ts:19-32 | a BUY leg's P/L is the negation of the same leg's SELL P/L |
| TradeUtils.FlipNegatesPnl | tradeUtils.ts:3-17 | switching a trade between BUY and SELL negates its total P/L |
| TradeUtils.PnlLinear | tradeUtils.ts:11-15 | P/L is the one-unit P/L times the quantity, and 0 for quantity 0 |
| TradeUtils.ShortWinner | tradeUtils.ts:8-11 | a SELL of positive quantity closed below entry on both legs has positive P/L |
| TradeUtils.TradeDayOfKey | tradeUtils.ts:39-44 | for a valid four-digit-year date written `YYYY-MM-DD`, the name is the weekday of that date's UTC day |
| TradeUtils.TradeDayNext | tradeUtils.ts:42-43 | consecutive dates get consecutive weekday names, with Saturday wrapping to Sunday |
| Gregorian.EpochIsThursday | tradeUtils.ts:42-43 | day 0 is 1970-01-01, and `getDay` gives 4 (Thursday) for it, as ECMAScript's WeekDay does |
| Gregorian.MonthEnd | CalendarPage.tsx:25-27 | day 0 of month `m + 1` is the last day of month `m` |
| Gregorian.MonthCarry | dateUtils.ts:44-45 | `new Date(y, k, d)` with any month number `k` is month `k % 12` of year `y + k / 12` |
| Gregorian.WeekdayNext | dateUtils.ts:28 | consecutive days have consecutive `getDay` values modulo 7 |
| Metrics.Average | StatsPage.tsx:42-43 | the average is 0 without items and never negative for a non-negative total |
| Metrics.ProfitFactorOf | StatsPage.tsx:45 | the profit factor is `Infinity` exactly when the loss is not positive; a finite one is non-negative for a non-negative profit |
| Metrics.AverageTimesCount | DashboardStats.tsx:36-37 | with at least one item, the average times the count gives back the total |
| Metrics.ProfitFactorTimesLoss | DashboardStats.tsx:39 | a finite profit factor times the loss gives back the profit |
| StatsPage.MaxWithZero | StatsPage.tsx:33 | `Math.max(...pnls, 0)` is at least 0 and at least every P/L, and is 0 or one of the P/Ls |
| StatsPage.MinWithZero | StatsPage.tsx:34 | `Math.min(...pnls, 0)` is at most 0 and at most every P/L, and is 0 or one of the P/Ls |
| StatsPage.ProfitFactorShown | StatsPage.tsx:45 | the `∞` symbol is shown exactly for an infinite profit factor; a finite one is shown as its value |
| StatsPage.StatsEmpty | StatsPage.tsx:13-26 | an empty book shows 0 in every figure, and its profit factor is 0, not infinite |
| StatsPage.Stats | StatsPage.tsx:11-59 | the total is the number of trades, and worst ≤ 0 ≤ best |
| StatsPage.BuySellPartition | StatsPage.tsx:28-29 | the buy count plus the sell count is the number of trades |
| StatsPage.BestWorstBounds | StatsPage.tsx:31-34 | worst ≤ 0 ≤ best; every trade's P/L lies between them; each is 0 or some trade's P/L |
| StatsPage.Totals | StatsPage.tsx:36-40 | gross profit is the sum of the winners' P/L; gross loss is minus the losers' sum; both are non-negative |
| StatsPage.Averages | StatsPage.tsx:42-43 | the average win and loss are the totals over their counts (0 without such trades), and neither is negative |
| StatsPage.WinnersAndLosers | StatsPage.tsx:36-37 | a trade counts as a winner iff its P/L is positive and as a loser iff it is negative; a break-even trade is in neither |
| StatsPage.ProfitFactorInfinite | StatsPage.tsx:45 | on a non-empty book, the profit factor is infinite iff no trade lost money; otherwise it is gross profit over gross loss |
| DashboardStats.SummaryEmpty | DashboardStats.tsx:12-20 | an empty book shows 0 on every card, profit factor included |
| DashboardStats.DashboardSummary | DashboardStats.tsx:11-42 | the total P/L is the sum of every trade's `calculatePnl`, and equals the winners' total minus the losers' total magnitude |
| DashboardStats.WinRateBounds | DashboardStats.tsx:31 | the win rate is the winners' share of the trades in percent, between 0 and 100 |
| DashboardStats.AveragesWithoutTrades | DashboardStats.tsx:36-37 | with no winners the average win is 0; with no losers the average loss is 0 |
| DashboardStats.ProfitFactorInfinite | DashboardStats.tsx:39 | on a non-empty book, the profit factor is infinite iff no trade lost money |
| DashboardStats.AgreesWithStatsPage | DashboardStats.tsx:22-41 | the dashboard and the statistics page give the same average win, average loss and profit factor |
| TradeChart.ParseTime | TradeChart.tsx:14 | a readable time of day lies between 0 and 24 hours in milliseconds |
| TradeChart.ParseTimeText | TradeChart.tsx:14 | every `HH:MM:SS` time reads back as its milliseconds since midnight |
| TradeChart.Insert | TradeChart.tsx:14 | inserting adds exactly the one trade: same trades plus `x`, as a multiset |
| TradeChart.SortBy | TradeChart.tsx:14 | the sorted copy is a permutation of the trades |
| TradeChart.InsertInOrder | TradeChart.tsx:14 | inserting into an ordered sequence keeps it ordered by the comparator |
| TradeChart.SortInOrder | TradeChart.tsx:14 | the sorted copy is ordered: no trade is followed by one the comparator puts before it |
| TradeChart.SortedByMoment | TradeChart.tsx:14 | the chart's copy is a permutation of the trades; when every date and exit time reads, the exit moments never decrease |
| TradeChart.ExitMomentOrder | TradeChart.tsx:14 | exit moments order trades by date first, then by CE exit time within a date |
| TradeChart.InsertTotal | TradeChart.tsx:14-19 | inserting a trade adds its value to any total over the sequence |
| TradeChart.SortKeepsTotal | TradeChart.tsx:14-19 | sorting leaves any total over the trades unchanged |
| TradeChart.Accumulate | TradeChart.tsx:16-26 | point `i` is named `Trade i+1` and has the trade's strike, its P/L and the running total through it |
| TradeChart.ChartData | TradeChart.tsx:11-27 | there is one point per trade, in exit order; the last cumulative P/L is the total P/L of all the trades |
| JsDates.Normalise | dateUtils.ts:21-22 | the rolled-over date is a valid calendar date with the same day number as `MakeDay(y, m, d)` |
| JsDates.JsDate.GetDay | dateUtils.ts:28 | `getDay()` is between 0 and 6 |
| JsDates.JsDate.At | dateUtils.ts:4 | `new Date()` holds the given date and time of day |
| JsDates.JsDate.Copy | dateUtils.ts:5-6 | `new Date(now)` is a second object at the same instant |
| JsDates.JsDate.Of | dateUtils.ts:44-45 | `new Date(y, m, d)` is midnight of `MakeDay(FullYear(y), m, d)`, rolling over out-of-range months and days |
| JsDates.JsDate.SetDate | dateUtils.ts:21 | `setDate(d)` lands on day `d` of the old month (rolling over) and keeps the time of day |
| JsDates.JsDate.SetHours | dateUtils.ts:9-12 | `setHours` keeps the date and sets the time of day to the given milliseconds |
| DateUtils.PeriodDays | dateUtils.ts:14-81 | a period's days are undefined exactly for 'all' |
| DateUtils.DateRange | dateUtils.ts:3-82 | `getDateRange` returns `null` exactly for 'all' |
| DateUtils.SetStartOfDay | dateUtils.ts:9 | the date keeps its day and moves to 00:00:00.000 |
| DateUtils.SetEndOfDay | dateUtils.ts:12 | the date keeps its day and moves to 23:59:59.999 |
| DateUtils.Bounds | dateUtils.ts:16-18 | the range runs from the start of `start`'s day to the end of `end`'s day |
| DateUtils.ShiftedRange | dateUtils.ts:15-41 | the `setDate` cases give the range of today, yesterday, this week or last week as `DateRange` defines them |
| DateUtils.MoveWithinMonth | dateUtils.ts:21-24 | `setDate(first)` and `setDate(last)` on copies of now give days counted from the 1st of now's month |
| DateUtils.NewRange | dateUtils.ts:44-48 | two `new Date(y, m, d)` give the range from the first's midnight to the second's 23:59:59.999 |
| DateUtils.CalendarRange | dateUtils.ts:43-76 | the month and year cases give the range `DateRange` defines |
| DateUtils.GetDateRange | dateUtils.ts:3-82 | `getDateRange` at the given clock reading is `DateRange` of the filter and the current date |
| DateUtils.CoversDays | dateUtils.ts:3-82 | a date's midnight lies in a period's range iff its day lies between the period's first and last day |
| DateUtils.TodayCovers | dateUtils.ts:15-18 | 'today' covers exactly the current date |
| DateUtils.YesterdayCovers | dateUtils.ts:20-25 | 'yesterday' covers exactly the previous calendar date, which is the last day of the previous month on a 1st |
| DateUtils.ThisWeekMonday | dateUtils.ts:27-33 | 'this-wk' starts on a Monday, lasts seven days and contains today, reaching back six days on a Sunday |
| DateUtils.LastWeekAsWritten | dateUtils.ts:35-41 | 'last-wk' starts on a Monday and lasts seven days; it is the week before 'this-wk', except on a Sunday, where it equals 'this-wk' |
| DateUtils.ThisMonthCovers | dateUtils.ts:43-48 | 'this-mo' covers exactly the dates of the current month |
| DateUtils.LastMonthCovers | dateUtils.ts:50-55 | 'last-mo' covers exactly the dates of the previous month |
| DateUtils.LastMonthInJanuary | dateUtils.ts:51 | in January, 'last-mo' is December of the previous year |
| DateUtils.LastThreeMonthsCovers | dateUtils.ts:57-62 | 'last-3-mo' covers exactly the three months before the current one, never the current month |
| DateUtils.ThisYearCovers | dateUtils.ts:64-69 | 'this-yr' covers exactly the dates of the current year |
| DateUtils.LastYearCovers | dateUtils.ts:71-76 | 'last-yr' covers exactly the dates of the previous year |
| DateUtils.RangeOrdered | dateUtils.ts:3-82 | every range starts before it ends |
| DateUtils.MonthSpan | dateUtils.ts:44-45 | from `new Date(y, lo, 1)` to `new Date(y, hi + 1, 0)` are exactly the dates of months `lo` to `hi` |
| DateText.ParseIsoDate | App.tsx:96 | a `YYYY-MM-DD` text that reads is a valid calendar date of a year from 0 to 9999 |
| DateText.ParseDateKey | CalendarPage.tsx:59 | every valid date of a four-digit year reads back from the key the calendar writes for it |
| DateText.IsoDateIsKey | CalendarPage.tsx:59-60 | a valid four-digit-year `YYYY-MM-DD` text is the key the calendar writes for its date |
| App.Appended | App.tsx:41 | adding keeps the old trades in place and puts the new one last |
| App.Updated | App.tsx:53-57 | the list keeps its length; each trade carrying the edited id is replaced and every other one is kept |
| App.Deleted | App.tsx:68 | a trade remains iff it was there and has another id; no trade with that id remains |
| App.WithinRange | App.tsx:91-98 | a trade whose date does not read is never within a range; one whose date reads is within it iff its day's midnight lies between the range's start and end |
| App.TradeJournal.constructor | App.tsx:14-21 | the journal starts with no trades, loading, no error, the form closed and the 'all' filter |
| App.TradeJournal.EditTrade | App.tsx:77-80 | opens the form on the trade; only the form's open flag and edited trade change, so the trades, loading flag, error and filter are kept |
| App.TradeJournal.NewTradeClick | App.tsx:143 | opens the form; only the form's open flag changes, so the trade being edited, the trades, loading flag, error and filter are kept |
| App.TradeJournal.CloseModal | App.tsx:82-85 | closes the form and clears the trade being edited; nothing else changes |
| App.TradeJournal.SetFilter | App.tsx:146 | sets the filter; nothing else changes |
| App.TradeJournal.InitialLoad | App.tsx:23-34 | loading ends; a successful fetch replaces the trades and keeps the error, and a failed one keeps the trades and sets the load error message; the filter and the form are untouched |
| App.TradeJournal.AddTrade | App.tsx:36-49 | on success the trade, with the given `Date.now()` id, is appended; on failure the list is as before; only the trades can change |
| App.TradeJournal.UpdateTrade | App.tsx:51-64 | on success the list is `Updated`; on failure it is as before; only the trades can change |
| App.TradeJournal.DeleteTrade | App.tsx:66-75 | on success the list is `Deleted`; on failure it is as before; only the trades can change |
| App.TradeJournal.FilteredTrades | App.tsx:87-99 | 'all' gives every trade; any other filter keeps, in order, the trades whose date lies in the filter's range |
| App.AddKeepsIdsUnique | App.tsx:36-41 | adding a trade with a fresh id keeps ids unique |
| App.DeleteUndoesAdd | App.tsx:41-68 | deleting a just-added trade with a fresh id gives the old list back |
| App.UpdateUndoesUpdate | App.tsx:53-57 | with unique ids, updating and then updating back with the replaced trade gives the list back |
| App.UpdateMissingIsNoOp | App.tsx:53-57 | updating an id no trade carries changes nothing |
| App.UpdateKeepsIds | App.tsx:53-57 | updating never changes any trade's id, so unique ids stay unique |
| App.DeleteKeepsOthers | App.tsx:68 | deleting keeps each other trade exactly as often as before and drops every trade with the id |
| App.DeleteMissingIsNoOp | App.tsx:68 | deleting an id no trade carries changes nothing |
| App.FilteredByPeriod | App.tsx:91-98 | a trade with a valid date survives a filter iff the filter's period covers its date |
| App.InvalidDateFilteredOut | App.tsx:96-97 | a trade whose date is not a valid date is dropped by every filter but 'all' |
| ReportsPage.IsoDateUtc | ReportsPage.tsx:21-22 | a `YYYY-MM-DD` date is read as UTC midnight of that date, with years 0..99 taken as 19xx |
| ReportsPage.TradeDateUtc | ReportsPage.tsx:21-22 | the date reads iff it splits on '-' into at least three parts, each of the first three read by `Number` |
| ReportsPage.FractionalDay | ReportsPage.tsx:21-22 | a day with a fraction (`2024-01-05.5`) is read as the same date as its whole day, because `Date.UTC` cuts it toward zero |
| ReportsPage.FractionalNumber | ReportsPage.tsx:21-22 | `Number` reads digits with a fraction, and cutting it toward zero gives the whole digits' value |
| ReportsPage.DatePartsSplit | ReportsPage.tsx:21 | a dash-separated date splits into its year, month and day parts |
| ReportsPage.CurrentMonthTrades | ReportsPage.tsx:14-25 | a trade is kept iff it is one of the trades and its date reads and lies inside `startOfMonth`..`endOfMonth`; no trade is added |
| ReportsPage.CurrentMonthExactly | ReportsPage.tsx:14-25 | a trade with a valid date of a year from 100 on is a current-month trade iff its year and month are the current ones |
| ReportsPage.InMonthByDay | ReportsPage.tsx:17-23 | a valid date lies between `startOfMonth` and `endOfMonth` iff its day lies between the month's first and last day |
| ReportsPage.ReportTrades | ReportsPage.tsx:27-39 | every kept trade matches the type filter and the lower-cased search text, and no trade is added |
| ReportsPage.ReportedExactly | ReportsPage.tsx:27-39 | a trade is reported iff it is a current-month trade of the chosen type whose strike or lower-cased notes contain the lower-cased search text (an empty search text matches every trade) |
| ReportsPage.NoFilterKeepsAll | ReportsPage.tsx:27-39 | with no search text and every type, the month's trades are kept as they are |
| ReportsPage.EscapeCsvCell | ReportsPage.tsx:54-60 | an absent cell is empty; a cell without comma, quote or newline is unchanged; a cell with one of them is wrapped in quotes with every quote inside doubled |
| ReportsPage.UndoubleDouble | ReportsPage.tsx:57 | undoubling the quotes after doubling them gives the text back |
| ReportsPage.EscapeRoundTrip | ReportsPage.tsx:54-60 | every escaped cell reads back, by the rules of RFC 4180, as the text it came from |
| ReportsPage.ExportCsv | ReportsPage.tsx:41-45 | nothing is exported exactly when there are no trades |
| ReportsPage.CsvRows | ReportsPage.tsx:62-86 | the CSV is the header line followed by line `i + 1` = trade `i`'s record, one per trade, in the trades' order |
| ReportsPage.Record | ReportsPage.tsx:64-85 | a record has the header's 18 columns, and its Total PNL amount is its CE PNL amount plus its PE PNL amount |
| ReportsPage.HeaderColumns | ReportsPage.tsx:47-52 | the header line splits back into the 18 column names |
| ReportsPage.RecordNotes | ReportsPage.tsx:83 | every record's notes cell reads back as the trade's notes |
| CalendarPage.TradesByDate | CalendarPage.tsx:12-22 | there is one bucket per date key that occurs, and it holds that date's trades in their original order |
| CalendarPage.GroupStep | CalendarPage.tsx:14-20 | pushing a trade into its date's bucket keeps the grouping |
| CalendarPage.BucketSizesStep | CalendarPage.tsx:14-20 | one more trade adds one to the bucket sizes exactly when its key is among the counted keys |
| CalendarPage.BucketsHoldEveryTrade | CalendarPage.tsx:12-22 | the buckets of the keys that occur, each counted once, hold every trade exactly once |
| CalendarPage.DayTradesOfKey | CalendarPage.tsx:60 | looking a date up gives that date's trades, and none for a date without trades |
| CalendarPage.TradeOnItsDay | CalendarPage.tsx:15-60 | a trade with a valid four-digit-year date is in the bucket the grid looks up for that date |
| CalendarPage.DayPnl | CalendarPage.tsx:61 | a day without trades has P/L 0 |
| CalendarPage.DayTone | CalendarPage.tsx:63-73 | a day is green iff it has trades and a gain, and red iff it has trades and a loss |
| CalendarPage.GridCells | CalendarPage.tsx:29-32 | the grid has `startDay` blanks, then the days 1 to the month's length, in order |
| CalendarPage.Calendar.constructor | CalendarPage.tsx:10 | the calendar opens on the current date |
| CalendarPage.Calendar.CalendarDays | CalendarPage.tsx:24-32 | there is one blank per weekday before the 1st, then one cell per day of the month on show |
| CalendarPage.Calendar.NextMonth | CalendarPage.tsx:34 | the calendar moves to the 1st of the following month |
| CalendarPage.Calendar.PrevMonth | CalendarPage.tsx:35 | the calendar moves to the 1st of the preceding month |
| CalendarPage.MonthLength | CalendarPage.tsx:25-27 | `new Date(y, m + 1, 0).getDate()` is the length of month `m` |
| CalendarPage.MonthFirst | CalendarPage.tsx:34-35 | the date `new Date(y, k, 1)` names is the 1st of month `y * 12 + k`, whatever the range of `k` |
| CalendarPage.NextThenPrev | CalendarPage.tsx:34-35 | going forward a month and back again gives the 1st of the starting month |
| AddTradeModal.ReadForm | AddTradeModal.tsx:148-169 | the form is refused iff a required field is empty; a read trade has the numbers `parseInt` and `parseFloat` read from the fields |
| AddTradeModal.TradeForm.SetState | AddTradeModal.tsx:49-84 | every field takes the given value |
| AddTradeModal.TradeForm.constructor | AddTradeModal.tsx:30-42 | every field starts empty and the type starts as SELL |
| AddTradeModal.TradeForm.ResetForm | AddTradeModal.tsx:49-68 | the fields are today's date, SELL, quantity 375, entry 09:16:00, exit 14:45:00, and everything else empty |
| AddTradeModal.TradeForm.PopulateForm | AddTradeModal.tsx:70-84 | the fields hold the trade's values as text, with absent notes as "" |
| AddTradeModal.TradeForm.Open | AddTradeModal.tsx:86-94 | opening fills the form from the edited trade, or from the defaults; a closed dialog leaves it alone |
| AddTradeModal.TradeForm.HandleSave | AddTradeModal.tsx:171-182 | a readable form is sent as an update under the edited id, or as a new trade, and the dialog closes iff the form was readable |
| AddTradeModal.TradeForm.HandleSaveAndNew | AddTradeModal.tsx:184-191 | a readable form is sent as a new trade and the form is reset; otherwise nothing is sent and the form is kept |
| AddTradeModal.ResetNeedsInput | AddTradeModal.tsx:49-68 | a freshly reset form cannot be saved |
| AddTradeModal.DefaultTimesOrdered | AddTradeModal.tsx:63-66 | the default entry time 09:16:00 and exit time 14:45:00 both read, and the entry comes first |
| AddTradeModal.ResetShowsToday | AddTradeModal.tsx:96-106 | the reset form's date reads as today, and its labels show today's day and weekday |
| AddTradeModal.ResetPreviews | AddTradeModal.tsx:49-68 | a reset form's quantity reads as 375, both stop-loss previews show "0.00" and the total preview is 0 |
| AddTradeModal.ParsedQuantity | AddTradeModal.tsx:108 | `parseInt(quantity, 10)`, or 0 in its place, is 0 when the text does not read, and otherwise the integer `parseInt` reads |
| AddTradeModal.SlPreview | AddTradeModal.tsx:110-120 | an entry that does not read shows "0.00" |
| AddTradeModal.LegPreview | AddTradeModal.tsx:122-144 | a leg's preview is 0 while either price does not read or the quantity reads as 0 |
| AddTradeModal.PreviewPnl | AddTradeModal.tsx:127-131 | the per-share arithmetic gives 0 for quantity 0 or an unchanged price |
| AddTradeModal.TotalPreview | AddTradeModal.tsx:146 | the total preview is 0 while the quantity reads as 0 |
| AddTradeModal.DayLabels | AddTradeModal.tsx:96-106 | the day label is empty iff the date is, and the weekday label is `getTradeDay` of the date |
| AddTradeModal.ReadFormReady | AddTradeModal.tsx:148-169 | a complete form whose numbers read as a draft's values is read as that draft |
| AddTradeModal.PopulateThenRead | AddTradeModal.tsx:70-169 | filling the form from a trade with prices of at most two decimals and reading it back gives the trade again |
| AddTradeModal.EditUnchangedUpdatesSame | AddTradeModal.tsx:171-182 | saving an unchanged edit updates the same trade under its own id, with the same P/L |
| AddTradeModal.SaveRouting | AddTradeModal.tsx:171-182 | a save sends something iff the form reads; an edit keeps the edited trade's id and the fields read |
| AddTradeModal.PreviewArithmetic | AddTradeModal.tsx:122-144 | the preview's per-share arithmetic agrees with `calculateLegPnl` |
| AddTradeModal.LegPreviewIsLegPnl | AddTradeModal.tsx:122-144 | a leg's preview is `calculateLegPnl` on the prices read, and 0 while a price cannot be read |
| AddTradeModal.PreviewIsSavedPnl | AddTradeModal.tsx:146 | the total shown while typing is the P/L of the trade the form saves |
| AddTradeModal.SlPreviewVersusSl | AddTradeModal.tsx:110-120 | the stop-loss preview is "0.00" for an unreadable entry and `calculateSl` for a non-negative one; a negative entry shows a value `calculateSl` would floor to 0 |
| AddTradeModal.FixedSl | AddTradeModal.tsx:113 | `(x * 1.5).toFixed(2)` is the text of `calculateSl(x)` for a non-negative `x`, and differs from it for a negative one |
| AddTradeModal.SlPreviewReadsBack | AddTradeModal.tsx:110-120 | the stop-loss preview reads back within half a hundredth of 1.5 × entry |
| Text.ParseIntString | AddTradeModal.tsx:72-74 | `parseInt(String(i), 10)` is `i` |
| Text.LeadingInt | AddTradeModal.tsx:108 | `parseInt` reads a number iff, after an optional sign, the text starts with a digit |
| Text.ParseDecimal | AddTradeModal.tsx:111 | `parseFloat` reads a number iff, after an optional sign, the text starts with a digit or with a point and a digit |
| Text.JsNumber | ReportsPage.tsx:21 | `Number("")` is 0, and any other text `Number` reads is the number `parseFloat` reads from it |
| Text.JsNumberDigits | ReportsPage.tsx:21 | `Number` reads a run of digits as its value |
| Text.Truncate | ReportsPage.tsx:22 | the integer part cut toward zero lies within 1 of the number, on the number's side of 0 |
| Text.NumberString | AddTradeModal.tsx:75-78 | `String(x)` is never empty and starts with a digit, or with '-' for a negative number |
| Text.ParseNumberString | AddTradeModal.tsx:75-78 | `parseFloat(String(x))` is `x` for prices of at most two decimals |
| Text.ParseFixedTwo | ReportsPage.tsx:70 | `toFixed(2)` text reads back within half a hundredth, and exactly for two-decimal values |
| Text.FixedTwo | ReportsPage.tsx:70 | `toFixed(2)` text ends with a point and two digits |
| Text.SplitJoin | ReportsPage.tsx:63 | joining separator-free parts and splitting gives the parts back |
| Text.JoinSplit | ReportsPage.tsx:21 | splitting and joining again gives the text back |
| Backend.HeadersDistinct | Code.gs.js:8-12 | the 14 header names are distinct, and 'id' is the first |
| Backend.HeaderRow | Code.gs.js:19 | the header row holds the header names in order |
| Backend.RowObject | Code.gs.js:35-38 | a row's object has exactly one field per header cell's name |
| Backend.RowObjectField | Code.gs.js:36-38 | field `headers[j]` holds cell `j` when no later header repeats the name |
| Backend.SheetDataToObjects | Code.gs.js:31-42 | there is one object per row after the header, in order, each keyed by the header |
| Backend.RowToObject | Code.gs.js:35-38 | the object a row gives is `RowObject` of the header and the row |
| Backend.RowArray | Code.gs.js:45-47 | the row holds the object's fields in header order, with "" for a missing or undefined field |
| Backend.RowRoundTrip | Code.gs.js:31-47 | writing an object as a row and reading it back under the header gives each header field back ("" where missing) |
| Backend.RowRoundTripKeys | Code.gs.js:31-47 | the read-back object has exactly the header fields |
| Backend.TradeObject | Code.gs.js:78-79 | the sent trade has every header field but notes, and has notes iff the trade has them |
| Backend.TradeRoundTrip | Code.gs.js:77-81 | a stored trade reads back with every field it was sent with, and with "" as notes when it had none |
| Backend.FirstMatchFrom | Code.gs.js:89-96 | the found row is the first matching row from `i` on; none means no row from `i` on matches |
| Backend.LastMatchBelow | Code.gs.js:105-111 | the found row is the last matching data row below `i`; none means no data row below `i` matches |
| Backend.ToNumber | Code.gs.js:91 | `Number` of a number cell is itself, of `undefined` NaN, of "" 0, and of other text the number `parseFloat` reads, when it reads one |
| Backend.IdMatches | Code.gs.js:91 | a row matches only when its id cell and the id both read as the same number; an undefined id or cell never matches, since NaN equals nothing |
| Backend.TextIdMatches | Code.gs.js:91 | an id cell holding the digits of `n` matches the numeric id `n` |
| Backend.Sheet.constructor | Code.gs.js:14-23 | a new sheet holds only the header row |
| Backend.Sheet.DoGet | Code.gs.js:51-64 | a sheet with at most the header gives no trades; otherwise there is one object per data row |
| Backend.Sheet.AddRow | Code.gs.js:77-82 | the trade's row is appended, and the answer is success with the trade |
| Backend.WriteCells | Code.gs.js:93 | writing the cells over a row replaces its first cells by them and keeps every later cell |
| Backend.Sheet.UpdateRow | Code.gs.js:84-98 | the first header-width cells of the first matching data row are overwritten and its later cells kept (success); with no match the sheet is unchanged ("Trade not found for update") |
| Backend.Sheet.DeleteRow | Code.gs.js:100-113 | the last matching data row is removed (success); with no match the sheet is unchanged ("Trade not found for deletion") |
| Backend.Sheet.DoPost | Code.gs.js:67-124 | dispatches on the action: 'add' appends the trade's row; 'update' succeeds iff some data row matches and then overwrites the first header-width cells of the first match; 'delete' succeeds iff some data row matches and then removes the last match; a refused request changes nothing; the header row is never touched |
| Backend.UpdateTouchesOneRow | Code.gs.js:89-94 | an update keeps the header and every other row, and the updated row starts with the trade's cells |
| Backend.DeleteRemovesOneRow | Code.gs.js:105-109 | a delete keeps the header and the earlier rows and shifts the later rows up by one; none of them matches |
| Backend.AddThenDelete | Code.gs.js:77-111 | an added trade is the last row matching its id, so a later delete removes that row |
| Backend.TradeObjectId | Code.gs.js:87-91 | the sent trade carries its id as a number |

## Left out

- Time zones: local time is taken as UTC. `new Date(tradeDate)` (`App.tsx:96`) and the local `new Date(y, m, d)` therefore agree, and the time-zone offset in `resetForm` (`AddTradeModal.tsx:52`) is zero.
- Date text is read only in the strict `YYYY-MM-DD` form (and `HH:MM[:SS]` for times). The browser's more lenient date parsing of other forms is not modelled; such text is an invalid date.
- DateText.ParseIsoDate: a day past the end of its month, such as "2024-02-30", is an invalid date, as the ECMAScript date-time string format requires. Some engines (V8) instead roll it over into the next month (1 March 2024).
- `Number` and `parseFloat` are modelled on decimal text: an optional sign, digits, and an optional point with digits. Exponents, surrounding white space, hexadecimal and `Infinity` text are not read: `Number` gives NaN for them, and `parseFloat` stops before them.
- Floating point: prices and P/L are exact reals, so IEEE rounding is not modelled. `toFixed(2)` is modelled as rounding half up on the exact value.
- `String(x)` for a price is modelled for values with at most two decimals. Other values are cut to whole hundredths.
- `toLocaleString`, currency formatting and all rendering are not modelled. The presentational components (`DashboardPage`, `Header`, `Sidebar`, `StatCard`, `TradeLogTable`, `ReportsTable`, `SetupGuide`) are not part of this model.
- `api.ts` (the `fetch` calls), `console`, `alert` and the CSV download through a `Blob` and a link are left out. A backend call is represented by its outcome, which is a parameter.
- The interleaving of asynchronous callbacks is left out. Each optimistic change and its rollback are applied in one step, as if no other change came in between.
- `SpreadsheetApp`, `LockService`, `ContentService` and `JSON.parse` are left out. The sheet is a sequence of rows, and the request is already parsed. The lock's mutual exclusion is the atomicity of each `Sheet` method. The catch-all error response to an exception is not modelled.
- The backend's sheet cells are text or numbers. A `Date` cell is not modelled. Google Sheets may turn date or time text into a `Date` cell, which is read back as a `Date` object (the reason `CalendarPage.tsx:15` splits `tradeDate` at 'T'). So `Backend.TradeRoundTrip` holds only for a sheet that keeps text cells as they were written.
- `getValues` pads every row to the sheet's width with "". The model keeps each row as it was written, so a cell past the end of a shorter row reads as `undefined`. This differs only for sheets whose rows are not all as wide as the header.
- `toLowerCase` lower-cases ASCII letters only.
- `Array.prototype.sort` is modelled as a stable insertion sort. A comparator that returns NaN for a trade whose date or time does not read counts as 0.
- `Date.now()`, the new trade's id, is a parameter of `App.TradeJournal.AddTrade`.
- The `type` field is called `tradeType`. In the dialog, each leg's four inputs are grouped into one field, and the per-input `onChange` setters are replaced by `AddTradeModal.TradeForm.SetState`.
- The browser's `required` and `pattern` checks on the dialog's inputs are not modelled. Only `getTradeData`'s own emptiness check is.
- ReadForm: a completed field that `parseInt` or `parseFloat` cannot read makes `getTradeData` return a trade holding NaN. The model reads such a form as `NotANumber` instead, because NaN prices are outside the exact-real model.
- HandleSaveAndNew: for the same reason, a completed field that cannot be read is refused (nothing sent, form kept), where the source would save a trade holding NaN and reset the form.
- EditUnchangedUpdatesSame: stated only for prices with at most two decimals, because `String(x)` is modelled only for those.
- AddTradeModal.TradeForm.HandleSave: a completed field that `parseInt` or `parseFloat` cannot read would be saved by the source as NaN. The model reads it as `NotANumber`, sends nothing and keeps the dialog open, because NaN prices are outside the exact-real model.
- AddTradeModal.TradeForm.ResetForm: assumes `toISOString` writes a four-digit year, which holds for years 1000 to 9999. The caller passes today's date.
- AddTradeModal.PopulateThenRead: stated only for prices with at most two decimals, because `String(x)` is modelled only for those.
- ReportsPage.CurrentMonthExactly: stated for years from 100 on, because `Date.UTC` reads years 0 to 99 as 1900 to 1999.
- CalendarPage.NextThenPrev: stated for years from 100 on, for the same reason, which applies to the `Date` constructor.
