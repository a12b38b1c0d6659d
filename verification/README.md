# fetcher: a verified model of the pure core

`fetcher` downloads market data from several crypto exchanges (Binance,
bitFlyer, bitbank, Bybit, GMO, FTX, Bitfinex) and turns trades into OHLCV
bars. Around that plumbing sit small pieces of real logic:

- the trade-to-bar aggregation and its gap-fill policies;
- the `np_shift` array shift;
- epoch and date-string arithmetic;
- the Binance page-overlap cleanup and cursor loops;
- the bitFlyer execution-id search;
- order-payload routing and the bounded retry loop of the GMO and FTX wrappers;
- the CSV log rows and the per-day history file cache;
- the logger and notification settings.

This project models those pieces in Dafny and proves what they promise.

## How the model is built

- **Time.** An instant is an integer count of microseconds since the epoch (naive UTC).
  - Python's `int()` of a quotient truncates toward zero, so it is `EpochTime.TruncDiv`.
  - Python's datetime floor arithmetic is Dafny's Euclidean division by a positive divisor.
- **Numbers.** Prices and sizes are integers.
- **Responses.** Every network response is an oracle function parameter: a page per cursor, or a history per `[start, end]` window.
- **Errors and missing values.** An exception is `Result.Raised(message)`; a Python `None` is `Option.None`.
- **Buckets.** A time bucket is a fixed-width window over integer times.
  - pandas `resample` first stable-sorts the rows by time. Its windows are `[o + k·w, o + k·w + w)`, where `o` is the midnight of the earliest row's day (the default `origin='start_day'`).
  - polars `group_by_dynamic` counts its windows `[k·w, k·w + w)` from the epoch.

Modules and their source files:

| module | source |
|---|---|
| `NpShift` | `np_shift` |
| `EpochTime` | `datetime_to_ms`, `datetime_to_timestamp`, `calendar.timegm`, `str_to_datetime` |
| `Buckets` | runs, bins and sums over time-ordered rows |
| `Candles` | bars, `Combine`, side spellings, gap fill |
| `Resampling` | `resample_ohlc`, `trades_to_historical` |
| `Polars` | `_make_ohlcv_from_timestamp`, the day calendars of `bybit_make_ohlcv` and `binance_make_ohlcv` |
| `Binance` | fetcher/binance.py and the Binance methods of wrappy/util.py |
| `BitFlyer` | `bf_search_id`, `bf_get_trades` |
| `Bitbank` | `bitbank_get_trades` strings |
| `Orders` | GMO `replace_order`, FTX `create_order`, retry wrappers, `historical` |
| `LogFile` | `LogBase`, `OrderHistory`, `History` (wrappy/logfile.py, and the same `LogBase` in wrappy/base.py) |
| `Notify` | `Log` settings, `_initialize_logger`, `Notify`, `statusNotify` |
| `Ranges` | start > end guards and the GMO day loop |

Shared helpers live in `Text` (replace, split and join on strings) and `Wrappers` (`Option`, `Result`).

## Model

| member | source | states |
|---|---|---|
| NpShift.Shift | fetcher/util.py:14-24 | length is preserved and slot `i` holds `arr[i - num]` when that index exists, the fill value otherwise |
| NpShift.ShiftRight | wrappy/util.py:108-110 | for `0 < k < n` the first `k` slots are fill and the rest is `arr[:-k]` |
| NpShift.ShiftLeft | wrappy/util.py:111-113 | for `0 < k < n` a shift by `-k` moves `arr[k:]` to the front and fills the last `k` slots |
| NpShift.ShiftBeyondLength | fetcher/util.py:16-21 | a shift by at least the length, either way, leaves only fill values |
| NpShift.ShiftCompose | fetcher/util.py:14-24 | two shifts in the same direction equal one shift by the sum |
| NpShift.ShiftBack | fetcher/util.py:14-24 | shifting back by `k` restores all but the last `k` elements, which become fill |
| EpochTime.TruncDiv | fetcher/util.py:7 | `int(a / b)` truncates toward zero: quotient bounds for negative and non-negative `a` |
| EpochTime.DatetimeToMs | fetcher/util.py:6-7 | the result is `1000·s + m div 1000`, the floor of the instant in milliseconds at or after the epoch, and the ceiling before it |
| EpochTime.DatetimeToMsMonotone | wrappy/util.py:507-508 | the millisecond conversion never reverses the order of two datetimes |
| EpochTime.DatetimeToTimestampAsWritten | fetcher/time_util.py:9-10 | as written, the result is whole seconds plus microseconds div 1000 |
| EpochTime.TimestampAsWrittenOverreads | fetcher/util.py:10-11 | half a second past the epoch gives 500 as written, and 0 when the divisor is one million |
| EpochTime.TimestampAsWrittenAhead | fetcher/util.py:10-11 | from one millisecond past a whole second on, the as-written result is ahead of the true seconds |
| EpochTime.DatetimeToTimestamp | fetcher/util.py:10-11 | the intended result is the floor of the instant in seconds |
| EpochTime.TimestampAgreesWithMs | fetcher/time_util.py:5-10 | the intended seconds are the milliseconds div 1000 |
| EpochTime.TimeGmEpoch | fetcher/util.py:7 | `timegm` of 1970-01-01 00:00:00 is 0 |
| EpochTime.TimeGmNextDay | fetcher/util.py:7 | consecutive calendar days are exactly 86400 seconds apart, across month, year and leap-day boundaries |
| EpochTime.TimeGmMidnight | fetcher/time_util.py:17 | a midnight is a whole number of days after the epoch |
| EpochTime.ParseDate | fetcher/time_util.py:17 | a parse succeeds only on three fields matching `%Y` (four digits), `%m` (`1[0-2]`, `0[1-9]` or `[1-9]`) and `%d` (`3[01]`, `[12]` and a digit, `0[1-9]`, `[1-9]` or a space and `[1-9]`) that form a real date, and gives exactly that date at 00:00:00 |
| EpochTime.MonthRange | fetcher/time_util.py:17 | every month the `%m` directive admits is between 1 and 12 |
| EpochTime.PaddedValue | fetcher/time_util.py:17 | a zero-padded decimal number reads back as the number |
| EpochTime.ParseFormatDate | fetcher/time_util.py:17 | parsing the zero-padded `YYYY<sep>MM<sep>DD` of any date of years 1 to 9999 gives that date back, so every such date is accepted |
| EpochTime.StrToDatetime | fetcher/time_util.py:13-17 | succeeds exactly when the string with `-` turned into `/` parses, and then denotes the midnight of the parsed date |
| EpochTime.StrToDatetimeFormat | fetcher/time_util.py:13-17 | a date written `YYYY-MM-DD` or `YYYY/MM/DD` is read back as the midnight of that date |
| EpochTime.NormaliseDate | fetcher/time_util.py:17 | the normalised string has the same length and no `-` |
| EpochTime.NormaliseDateIdempotent | fetcher/time_util.py:17 | normalising twice is normalising once |
| EpochTime.SeparatorsInterchangeable | fetcher/time_util.py:13-17 | strings that differ only in writing `-` or `/` parse to the same datetime |
| EpochTime.DocstringExample | fetcher/time_util.py:15 | "2023-01-01" and "2023/01/01" give the same datetime |
| EpochTime.DocstringExampleParses | fetcher/time_util.py:15-17 | "2023/01/01" parses to 2023-01-01 00:00:00 |
| Buckets.SumOfGroupsFlatten | fetcher/bybit.py:20-26 | summing group sums equals summing the concatenated groups: grouping neither loses nor invents volume |
| Buckets.Runs | fetcher/bybit.py:19-20 | the runs of equal window number are non-empty, and there are runs exactly when there are rows |
| Buckets.RunsFlatten | fetcher/bybit.py:19-20 | every row lands in exactly one run, in order |
| Buckets.RunsUniform | fetcher/bybit.py:20 | every run has a single window number |
| Buckets.RunsDistinct | fetcher/bybit.py:20 | neighbouring runs have different window numbers |
| Buckets.RunsAscending | fetcher/bybit.py:19-20 | over rows sorted by time the run keys strictly increase |
| Buckets.Resample | fetcher/util.py:48-49 | over time-ordered rows: one bucket per key from the first to the last, the rows partitioned in order, each bucket holding only its own key |
| Buckets.Bins | wrappy/util.py:120-121 | one bucket per key from the smallest to the largest, each exactly the rows with its key in their input order; the resamplers bin the rows after the stable sort by time |
| Buckets.StableSortSorted | wrappy/util.py:120 | the stable sort pandas applies to an unsorted index orders the rows by time |
| Buckets.StableSortPermutes | wrappy/util.py:120 | the sort neither loses nor invents a row |
| Buckets.StableSortStable | wrappy/util.py:120 | rows with equal times keep their input order |
| Buckets.StableSortOfSorted | wrappy/util.py:120 | rows already in time order are left as they are |
| Buckets.SumByStableSort | fetcher/util.py:29 | sorting does not change a sum over the rows |
| Buckets.BinsOfSorted | wrappy/util.py:120-121 | for time-ordered rows the bins equal the runs spread over consecutive keys |
| Buckets.PickGroup | fetcher/util.py:48-52 | in a concatenation of groups with distinct keys, filtering by a key picks out exactly its group |
| Candles.Combine | fetcher/util.py:28-29 | an occupied bucket's bar: open of the first, close of the last, high and low attained and bounding every bar, volume the sum, consistency kept |
| Candles.TradeVolume | fetcher/util.py:49 | a bucket's volume is the summed size of its trades |
| Candles.NormaliseSide | fetcher/util.py:39-44 | the three buy spellings become "buy", the three sell spellings "sell", anything else is unchanged, and no spelling survives |
| Candles.NormaliseSideIdempotent | wrappy/util.py:131-136 | normalising a side twice is normalising it once |
| Candles.SideSplit | fetcher/util.py:46-47 | every trade's size goes to exactly one of buy, sell or neither |
| Candles.BuySellWithinVolume | fetcher/util.py:46-53 | with non-negative sizes buy plus sell volume never exceeds the volume |
| Candles.BuySellMakeUpVolume | wrappy/util.py:138-145 | when every side is classified, buy plus sell is the volume |
| Candles.BuySellFullVolume | wrappy/util.py:138-145 | with positive sizes, buy plus sell equals the volume only if every side is classified |
| Candles.GapBar | fetcher/util.py:30-33 | an empty bucket keeps the previous close with volume 0; open/high/low are that close under `resample_ohlc`, the previous bar's under the `ffill` of `trades_to_historical` |
| Candles.FillFrom | fetcher/util.py:30-33 | the forward fill keeps occupied buckets and fills each empty one from the bar before it |
| Candles.FillForward | wrappy/util.py:122-125 | with an occupied first bucket, occupied buckets are kept and each gap is filled from its predecessor |
| Candles.FillForwardMeaning | fetcher/util.py:30 | a filled close is the close of the last occupied bucket at or before it; under `ffill` so are open, high and low; gaps have volume 0 |
| Candles.FillKeepsConsistent | fetcher/util.py:30-33 | filling never makes an inconsistent bar out of consistent ones |
| Resampling.BucketIsWindow | fetcher/util.py:28 | filtering by bucket number is filtering by the window `[k·w, k·w + w)` |
| Resampling.Aggregate | fetcher/util.py:27-34 | rows stable-sorted by time, then buckets counted from the midnight of the earliest row and consecutive, each aggregating exactly its window of the sorted rows or gap-filled from its predecessor, every row covered |
| Resampling.WindowOfSorted | fetcher/util.py:28 | the window of the sorted rows is the sorted window of the input: a bucket sees its own rows in time order |
| Resampling.AggregateVolume | fetcher/util.py:29 | bucketing neither loses nor invents volume, whatever the order of the rows |
| Resampling.StartsOnEpochGrid | fetcher/util.py:28 | when the width divides a day, every bucket start is a multiple of the width |
| Resampling.SevenMinutesOffGrid | wrappy/util.py:120 | seven-minute buckets are counted from the first day's midnight, so a bar at the second midnight gets a bucket start that is not a multiple of seven minutes |
| Resampling.ResampleOhlc | wrappy/util.py:119-126 | buckets of `timeframe·60` seconds counted from the midnight of the earliest bar and consecutive, each the aggregate of its window of the time-sorted bars or close-filled, every bar covered |
| Resampling.ResampleOhlcVolume | fetcher/util.py:29 | the resampled volume equals the input volume, in whatever order the bars come |
| Resampling.AggregateVolumeAt | fetcher/util.py:29 | every bucket's volume is the summed volume of the input rows in its window, whatever their order |
| Resampling.TradesToHistorical | fetcher/util.py:37-53 | buckets of width `period` counted from the midnight of the earliest trade and consecutive, each the aggregate of its window of the time-sorted trades or the previous bar copied; with a side column, buy and sell flows of the window; without one, no flows |
| Resampling.WindowSumOrderFree | fetcher/util.py:50-51 | the buy or sell volume of a window does not depend on the order of the trades |
| Resampling.HistoricalFlowsWithinVolume | wrappy/util.py:138-145 | with non-negative sizes every row's buy plus sell flow is at most its volume |
| Resampling.WindowKeeps | fetcher/util.py:48 | a window's rows keep any property every input row has |
| Polars.TruncReal | fetcher/bybit.py:12-13 | the cast of a float timestamp to an integer truncates toward zero |
| Polars.MakeOhlcv | fetcher/bybit.py:7-31 | over sorted ticks: no rows exactly when there are no ticks; window starts aligned to `every` and strictly increasing |
| Polars.MakeOhlcvRows | fetcher/bybit.py:15-31 | each row is the first/max/min/last/sum of exactly the ticks of its window plus their buy/sell sums, and every tick lies in some row's window |
| Polars.MakeOhlcvVolume | fetcher/bybit.py:20-26 | the windows partition the ticks: row volumes sum to the total size |
| Polars.MakeOhlcvSides | fetcher/bybit.py:15-28 | per row, buy plus sell is at most the volume, and equal when every side is one of the two labels |
| Polars.RunIsWindow | fetcher/bybit.py:20 | each group of `group_by_dynamic` is exactly the ticks of its window |
| Resampling.Midnight | fetcher/bybit.py:42 | the midnight of a time is a whole day and at most a day before it |
| Polars.DatetimeRange | fetcher/bybit.py:44 | the range holds exactly the grid times from start to end inclusive, strictly increasing |
| Polars.DayCalendar | fetcher/bybit.py:42-44 | the calendar holds exactly the grid times from the first bar's midnight to one second before the midnight after the last bar |
| Polars.BybitMakeOhlcv | fetcher/bybit.py:33-45 | with no trades indexing the first row raises; otherwise the frame is the aggregation with "Buy"/"Sell" and seconds scaled by 1000000, and the calendar spans its days |
| Polars.CalendarCoversBars | fetcher/bybit.py:42-45 | when windows divide a day and are whole seconds, every bar's start is in the calendar |
| Polars.BinanceCalendar | fetcher/binance.py:228-230 | the calendar spans the days of the first and last bar, and raises for an empty frame |
| Binance.ParseYmd | fetcher/binance.py:65-68 | succeeds exactly when the `%Y-%m-%d` parse does, and then gives the midnight of the parsed date |
| Binance.ParseYmdFormat | fetcher/binance.py:65-68 | a `YYYY-MM-DD` date of years 1 to 9999 is read back as its midnight |
| Binance.TradeWindow | fetcher/binance.py:64-68 | without an end the window closes one microsecond before the next midnight; with one, one microsecond before the end date |
| Binance.OneDayBound | fetcher/binance.py:64-73 | for one day the millisecond bound is the start's milliseconds plus 86399999 |
| Binance.FirstId | fetcher/binance.py:26-30 | the first id is that of the first trade answered; an empty answer raises |
| Binance.FetchTrades | fetcher/binance.py:73-84 | every page is non-empty and answers the previous page's last id; every page but the last ends before the bound; the loop stops exactly when the last trade time reaches the bound; an unfinished fetch has spent the whole request budget or met an empty answer at its cursor |
| Binance.PagesOverlap | wrappy/util.py:560-563 | when the exchange answers from the asked id, each page begins with the previous page's last trade |
| Binance.DedupeFromMeaning | wrappy/util.py:576 | deduplication is an order-preserving selection keeping the first row of each id and every id |
| Binance.Trim | wrappy/util.py:549-550 | trimming keeps exactly the rows at or before the bound |
| Binance.TrimOrder | wrappy/util.py:549-550 | trimming keeps the order of the rows it keeps |
| Binance.Cleanup | fetcher/binance.py:92-94 | the cleaned rows have unique ids within the bound, are an order-preserving selection and each is the first row of its id |
| Binance.CleanupKeepsIds | wrappy/util.py:576-577 | a first occurrence within the bound survives the cleanup |
| Binance.CollectHistory | fetcher/binance.py:122-147 | the open-interest loop raises only on an empty first page; otherwise it returns exactly the pages it fetched, oldest first (the first page, preceded by each older page down to the start or an empty answer), and those rows are chronological and within `[start, now]` |
| Binance.BuySellVolStep | fetcher/binance.py:195-211 | an empty page leaves the cursor unchanged; a non-empty one moves it below the page's first timestamp |
| Binance.BuySellVolStalls | fetcher/binance.py:195-211 | once an empty page meets a cursor still at or after the start, the as-written loop never finishes, for any fuel |
| Binance.CollectBuySellVol | fetcher/binance.py:185-211 | with the missing `break`, the taker-volume loop terminates, raises only on an empty first page, and returns exactly the fetched pages oldest first, chronological and within `[start, now]` |
| BitFlyer.FirstAfter | fetcher/bitflyer.py:154-164 | `None` iff no execution is after the target; otherwise the first one after it, with none before it |
| BitFlyer.StepBackFrom | fetcher/bitflyer.py:105-124 | the step-back loop ends at an execution not after the target, at or after the first execution; it raises when every execution is after the target, and succeeds whenever every id from the first execution on is answered and some step back from the first guess reaches an execution not after the target |
| BitFlyer.Narrow | fetcher/bitflyer.py:127-146 | the halving loop keeps its lower end not after the target and its upper end the starting one or not before the target, ends with at most 500 ids between them, and cannot raise when every id from the first execution on is answered |
| BitFlyer.SearchId | fetcher/bitflyer.py:83-164 | an empty newest page raises, and so does a target older than every execution, once stepping back runs past the first one; it succeeds whenever every id from the first execution on is answered and stepping back from the first guess reaches an execution not after the target; on success the lower bound is at or before the target, the window is at most 500 ids, its upper end is the newest id or at or after the target, and the result is the first later execution in it |
| BitFlyer.PageDownFacts | fetcher/bitflyer.py:188-192 | paging down yields descending ids, extends the rows, and adds rows exactly while the start id is at or below the cursor |
| BitFlyer.GetTradesUnique | fetcher/bitflyer.py:181-192 | with the first page's oldest id as the cursor, the rows are strictly ascending in id, so no execution repeats |
| BitFlyer.GetTradesAsWrittenDuplicates | fetcher/bitflyer.py:184 | as written, the first page is fetched twice over: a dense id range yields ids 8 twice, and the corrected paging does not |
| BitFlyer.FileNameFlat | fetcher/bitflyer.py:218 | the file name contains no `/` |
| BitFlyer.OutputPathPlain | fetcher/bitflyer.py:229-230 | a directory not ending in `/` and free of `//` gives `dir/name` |
| BitFlyer.OutputPathTrailingSlash | fetcher/bitflyer.py:229-230 | a directory ending in one `/` gives `dir + name`: the doubled slash is collapsed |
| BitFlyer.DefaultOutputPath | fetcher/bitflyer.py:168-169 | the default path is `./bitflyer/{symbol}/trades/{name}` |
| Bitbank.Dashed | fetcher/bitbank.py:7 | every `/` becomes `-`, nothing else changes, the length is kept |
| Bitbank.CompactIsBare | fetcher/bitbank.py:8 | the compact date has no `/` and no `-` |
| Bitbank.CompactOfDashed | fetcher/bitbank.py:7-8 | the compact date of the dashed date is the compact date of the input |
| Bitbank.CompactExamples | fetcher/bitbank.py:8 | "2023/01/01" and "2023-01-01" both compact to "20230101" |
| Bitbank.CompactMidnight | fetcher/bitbank.py:8 | a ` 00:00:00` suffix after a date without spaces does not change the compact date |
| Bitbank.OutputPathInDir | fetcher/bitbank.py:11-16 | the file is `dir/{dashed}.csv` directly in the directory, and the request asks for the same day |
| Orders.GmoReplaceOrder | wrappy/gmo.py:31-53 | as written: symbol, side and type always; `True` opens with the size; anything else settles through `closeOrder`; `closeBulkOrder` is never reached; price iff LIMIT or STOP |
| Orders.GmoReplaceOrderIntended | wrappy/gmo.py:31-53 | `True` opens, `False` settles one position, `None` settles in bulk, each iff; price iff LIMIT or STOP |
| Orders.GmoCallRouting | wrappy/gmo.py:55-196 | single-position callers route the same either way; a caller reaches `closeBulkOrder` iff it is collective; price iff LIMIT |
| Orders.CollectiveSettlementAsWritten | wrappy/gmo.py:163 | as written a collective settlement goes to `closeOrder` with position id `None` |
| Orders.FtxCreateOrder | src/ftx.py:31-53 | limit and trailing stop without a price raise; the four base fields always; `/orders` iff limit or market, `/conditional_orders` iff stop, take-profit or trailing stop, with the matching price fields; otherwise no url |
| Orders.Retry | wrappy/gmo.py:65-76 | at most 60 attempts; the data of the first success; after 60 failures a notice and a raise |
| Orders.Historical | wrappy/gmo.py:304-316 | one attempt: its data on success, `None` otherwise |
| LogFile.NewLog | wrappy/logfile.py:12-31 | the constructor defaults: append, header, `,` and newline, no columns, no writer |
| LogFile.RowOf | wrappy/logfile.py:64-70 | one cell per header in order, the value when present and not `None`, else "" |
| LogFile.RowIgnoresOtherKeys | wrappy/logfile.py:64-70 | keys that are not headers, and `None` values, do not change the row |
| LogFile.WriteRow | wrappy/base.py:196-203 | raises iff the writer is missing; otherwise appends the row and changes nothing else |
| LogFile.WriteRowByDict | wrappy/logfile.py:57-70 | raises iff the writer is missing; otherwise appends one header-ordered row |
| LogFile.NewRecord | wrappy/logfile.py:100-109 | the keys are the headers; each value is its default or `None` |
| LogFile.NewRecordRow | wrappy/base.py:248-257 | writing a new record writes each default and "" elsewhere |
| LogFile.Open | wrappy/logfile.py:111-123 | a new file starts with the header line iff `with_header`; an existing one keeps its text |
| LogFile.HeaderLineRoundTrip | wrappy/logfile.py:116-123 | with a one-character delimiter no header contains, the header line splits back into the headers |
| LogFile.DefaultHistoryPath | wrappy/logfile.py:139-159 | with an empty config files are `log/Exchange_Bot_order_history_{day}.csv`; a configured bot name replaces only its own part |
| LogFile.DailyPathsDiffer | wrappy/logfile.py:196-198 | two different days are kept in different files |
| LogFile.GetOrCreate | wrappy/logfile.py:190-202 | a cached day returns its file unchanged; a new day opens one file at the daily path and caches it |
| LogFile.GetOrCreateIdempotent | wrappy/logfile.py:199-202 | a second call on the same day opens nothing and returns the same file |
| LogFile.GetOrCreateKeepsPaths | wrappy/logfile.py:190-202 | every cached file stays at the daily path of its day |
| Notify.LogSettingsDefaults | wrappy/base.py:22-38 | an empty config gives Exchange, Bot, DEBUG and log; each key replaces only its own default |
| Notify.InitializeLogger | wrappy/base.py:40-64 | a bot with a logger keeps it and the registry is untouched; otherwise the registry's `{exchange}_{bot}` logger, fetched or created, gets the level and a console handler, plus a 2 MB three-backup file handler iff a log directory is set, appended to the handlers it had; no other logger changes |
| Notify.GetLogger | wrappy/base.py:45 | `getLogger` returns the registered logger of a name, or a fresh one without handlers |
| Notify.FirstLogger | wrappy/base.py:45-64 | the first set-up under a name gives exactly the new handlers |
| Notify.SecondBotDuplicatesHandlers | wrappy/base.py:45-64 | a second bot with the same names reuses the registry's logger and adds its handlers again: every handler is there twice |
| Notify.InitializeLoggerIdempotent | wrappy/base.py:44 | setting the same bot's logger up twice is setting it up once, registry included |
| Notify.NewNotifier | wrappy/base.py:95-108 | a missing LINE token raises; the Discord webhook is present iff configured |
| Notify.DiscordContent | wrappy/base.py:130 | the content is the message with one space on each side |
| Notify.StatusNotify | wrappy/base.py:146-152 | to the webhook with the padded content iff one is configured, otherwise to LINE with the message and the bearer token |
| Ranges.CheckRange | wrappy/util.py:217-218 | raises iff the start is after the end |
| Ranges.DaysClosedForm | wrappy/util.py:485-499 | day `k` of the loop is `k` days after the start, all lie in the range, and their count is the whole days in the range plus one |
| Ranges.GmoKlineDays | wrappy/util.py:482-499 | raises iff start is after end; otherwise requests every day from start to end inclusive, `(end - start) div day + 1` of them |
| Ranges.MidnightRange | wrappy/util.py:485-499 | midnights `n` days apart are walked over `n + 1` days |

## Left out

- HTTP requests, sleeps, directory creation, and CSV reading and writing. Responses are oracle parameters; a file is its opening text plus its rows.
- Floating point. Prices and sizes are integers, `str(float)` is `Orders.Shown`, and `float()` conversions are not modelled.
- Local-time `.timestamp()`, the JST +9 h offsets, and `datetime.now()`/`time.time()`. Clocks are parameters.
- The Binance `'m'` branch of `trades_to_historical` (fetcher/util.py:54-68). Its `is True` compares the whole column, not each cell.
- `pl_merge` and `make_ohlcv_from_timestamp` are not part of this model. `Polars.BybitMakeOhlcv` returns the two frames the merge would join.
- `bf_get_historical`, Bitfinex, fetcher/gmo.py, bitget, analyze_util, `plot_corrcoef`, sample.py and src/base.py. These are pagination or plotting with no further logic. The start > end guards of Bitfinex and FTX are `Ranges.CheckRange`.
- The full ftx.py REST wrapper. Only the src/ftx.py `create_order`, retry and `historical` logic is modelled.
- Progress printing, logging handler formatting, file attachments on LINE and Discord, and the `log_info` after posting.
- The `LogBase` constructor's `FileNotFoundError`/`ValueError` checks and `close`.
- CSV quoting of cells.
- bf_get_trades: the intermediate CSV writes at day changes and the `KeyError` break on an error response.
- bf_date_to_dt: the `KeyError` path that returns `None`.
- Binance.FetchTrades: it takes a request budget, so the loop terminates in the model. The source loops for as long as the exchange answers.
- Binance.FetchTrades: the retry on an exception is left out.
- BitFlyer.SearchId: the ids come from an oracle whose times are monotone in id, as the exchange's are.
- BitFlyer.SearchId: the exchange's history is taken to start at some first id, with nothing answered below it. That is what makes the step-back loop end.
- Binance.CollectHistory: the exchange is taken to answer each `[startTime, endTime]` window with rows inside it, oldest first (`Binance.Answers`). The in-range and order guarantees, and the end of the loop, rest on that.
- Binance.CollectBuySellVol: the same assumption about the taker-volume endpoint (`Binance.Answers`).
- BitFlyer.DefaultOutputPath: it is stated for a non-empty symbol without `/`, where no `//` arises.
- Polars.MakeOhlcv: it requires sorted ticks, because `set_sorted` asserts the order rather than sorting.
- EpochTime.ParseDate: CPython's `\d` also matches non-ASCII decimal digits, which the model does not accept. Only ASCII digits are read.
- NpShift.Shift: the defaults `num=1` and `fill_value=np.nan` are not modelled, and neither is numpy's dtype handling. The fill value has the element type. A NaN fill into an integer array raises `ValueError` in numpy, and the model does not have that case.
- Resampling.TradesToHistorical: the side normalisation and the `buyVol`/`sellVol` columns are written into the caller's frame, which the caller then sees changed. The model is a pure function and does not have that side effect.
- Notify.InitializeLogger: the registry is a map passed in and returned, in place of `logging`'s process-wide state. Formatters are not modelled.
- Orders.Retry: the sleeps between attempts and the logging of each failure are left out. The notices list holds the LINE/Discord messages.

## Findings

| source | as written | input that shows it | evidently intended | confidence | as-written member | corrected member |
|---|---|---|---|---|---|---|
| fetcher/util.py:10-11 | `datetime_to_timestamp` adds `microsecond / 1000` to whole seconds | 1970-01-01 00:00:00.5 gives 500 | add `microsecond / 1000000`, giving 0 | high, not executed | EpochTime.TimestampAsWrittenOverreads | EpochTime.DatetimeToTimestamp |
| wrappy/gmo.py:39-48 | `if create_order: … else: …closeOrder` makes the `None` branch for `closeBulkOrder` unreachable | `create_order=None`, as the collective settlements pass it (wrappy/gmo.py:163) | `None` routes to `closeBulkOrder` | high, not executed | Orders.CollectiveSettlementAsWritten | Orders.GmoReplaceOrderIntended |
| fetcher/binance.py:203-207 | an empty page leaves `last_time` unchanged and there is no `break` | the endpoint answers `[]` while `last_time >= start_date` | `break`, as `binance_get_OI` does at line 145 | high, not executed | Binance.BuySellVolStalls | Binance.CollectBuySellVol |
| fetcher/bitflyer.py:184 | the paging cursor starts at the first page's newest id, `response[0]['id']` | dense ids with `before=10`: the first page 9, 8 is fetched again from 9 and id 8 appears twice | start the cursor at the first page's oldest id, `response[-1]['id']` | medium, not executed | BitFlyer.GetTradesAsWrittenDuplicates | BitFlyer.GetTradesUnique |
