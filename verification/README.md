# vnd-ohlcv-exporter: the resampling and indicator pipeline, in Dafny

vnd-ohlcv-exporter is a small web form. It fetches daily price history (open,
high, low, close, volume) for a Vietnamese stock from the VNDIRECT dchart API.
It can show the rows in a preview table, or export them to an Excel workbook.
The workbook has three price sheets, each enriched with technical
indicators: PriceData holds the rows of the chosen timeframe (daily bars, or
weekly bars in weekly mode), and WeeklyData and MonthlyData resample those
rows weekly and monthly. This project models the data pipeline behind those
views and proves what it does. The pipeline runs in four places.

- **`fetchHistory`** (`src/service/vndirect.ts`) is modelled from the parsed
  response on: `Vndirect.Validate`. It rejects a response whose status is not
  `"ok"`. It also rejects one whose `o, h, l, c, v` columns are not as long as
  `t`. The status check comes first. A response that passes is returned
  unchanged.
- **The form** (`src/components/MarketForm.tsx`), module `MarketForm`:
  - it trims and upper-cases the symbol (`NormalizeSymbol`);
  - in daily mode it zips the response columns into rows (`ZipRows`);
  - in weekly mode it zips them into items, groups those by the Monday of
    their UTC day, sorts each group in place by time and reduces it to one bar
    (`WeeklyFromDaily`);
  - it fails on missing custom dates and on an empty result (`ExportRows`,
    `PreviewRows`, `HandleExport`).
- **The workbook** (`src/utils/excel.ts`):
  - `aggregate` resamples daily rows weekly or monthly (`Aggregation.Aggregate`);
  - `enrich` attaches the library indicators by fixed index offsets, plus an
    OBV and a VWAP computed by loops (`Enrichment.Enrich`);
  - `exportWorkbook` builds the three price sheets (`Enrichment.ExportSheets`).
- **The preview modal** (`src/components/PreviewModal.tsx`), module `Preview`:
  - it filters the rows to one date;
  - it shows a no-data message when none is left;
  - otherwise it attaches the same indicators, unrounded, and classes each
    row up or down.

How the model represents the pipeline:

- Dates are UTC day numbers, counted from 1970-01-01 (`Calendar`).
  - The weekday of day `n` is `(n + 4) % 7`.
  - The weekly key is `n - (weekday + 6) % 7`.
  - The monthly key is the year and month that `toISOString` prints for the
    day, computed by the civil-from-days algorithm and proved to round-trip.
- The grouping loops fill a map and remember first-seen key order, as
  `Object.entries` lists string keys (`Grouping.GroupBy`).
- `Array.prototype.sort` is an insertion sort (`Sorting.SortBy`), stable:
  items with equal keys keep their input order (`Grouping.SortByStable`). Its
  in-place form runs on an `array` (`Sorting.SortInPlace`).
- The OBV and VWAP loops are methods proved against recurrences: `ObvAt`,
  `CumPV`, `CumVol` and `VwapAt`.
- JavaScript's division of the VWAP is `Ohlcv.Divide`. It gives a finite
  quotient, NaN (0/0) or an infinity.
- The `technicalindicators` outputs are parameters (`Series.LibraryOutputs`).
  What is proved is how they are aligned:
  - row `i` reads entry `i - off` of an output with warm-up `off`;
  - the offsets are 19 for SMA20, EMA20 and Bollinger, 49 for SMA50, 13 for
    RSI14 and ATR14, and 25 for MACD;
  - EMA50 is read at offset 19, as both `excel.ts:105` and `PreviewModal.tsx:122`
    do. With a library output of `n - 49` entries, `Enrichment.Ema50Window`
    shows that this fills rows `19 .. n - 31`, not `49 .. n - 1`.
- `toFixed(2)` (`sml`, the VWAP cell) is `Enrichment.Round2`. It rounds to
  the nearest cent on exact reals. As `toFixed` writes the sign and rounds
  the magnitude, a value halfway between two cents goes away from zero:
  0.125 becomes 0.13 and -0.125 becomes -0.13.

Results that relate the copies of the pipeline:

- `MarketForm.WeeklyAgreesWithAggregate`: on items in time order, as the API
  returns them, the form's weekly rows are `aggregate(rows, "weekly")` of the
  daily rows.
- `MarketForm.WeeklyExportFixedPoint`: a weekly export's WeeklyData sheet
  holds exactly the form's weekly rows.
- `Preview.WorkbookRoundsPreview`: each workbook column is the preview column
  rounded to cents.
- `Preview.CrashIff`: the preview throws, on the missing entry
  `macdOut[i - 25]` or `bbOut[i - 19]`, exactly when there are more rows than
  those outputs reach.

## Model

| member | source | states |
|---|---|---|
| Calendar.Epoch | vnd-ohlcv-exporter/src/utils/excel.ts:11-14 | day 0 is 1970-01-01, a Thursday, and 2024-01-01 is day 19723, a Monday, as `new Date` and `getUTCDay` count |
| Calendar.WeekStart | vnd-ohlcv-exporter/src/utils/excel.ts:13-17 | the week key of a day is a Monday, 0 to 6 days on or before the day |
| Calendar.SameWeek | vnd-ohlcv-exporter/src/utils/excel.ts:13-17 | two days get the same week key iff the second lies in the seven days from the first's Monday |
| Calendar.WeekStartOfMonday | vnd-ohlcv-exporter/src/utils/excel.ts:14-16 | a Monday is its own week key |
| Calendar.CivilRoundTrip | vnd-ohlcv-exporter/src/utils/excel.ts:19 | the year, month and day printed for a day number form a valid date (the day within its month's length, February 29 only in Gregorian leap years) whose day number is that day again |
| Calendar.FirstOfMonthRoundTrip | vnd-ohlcv-exporter/src/utils/excel.ts:31 | the date `YYYY-MM-01` printed back gives that year, month and day 1 |
| Calendar.FirstOfMonthBelow | vnd-ohlcv-exporter/src/utils/excel.ts:19 | every day lies on or after the first day of the month printed for it and before the first day of the next month |
| Calendar.MonthLength | vnd-ohlcv-exporter/src/utils/excel.ts:19 | the next month starts exactly the month's number of days after its first day: 30 or 31, and 28 or 29 for February by the Gregorian leap rule |
| Calendar.MonthsInOrder | vnd-ohlcv-exporter/src/utils/excel.ts:19 | a month ends no later than any later month begins |
| Calendar.MonthOfDay | vnd-ohlcv-exporter/src/utils/excel.ts:19 | a month whose days contain a day is the month printed for that day: the `YYYY-MM` key is the one month holding the date |
| Calendar.FirstOfMonthInjective | vnd-ohlcv-exporter/src/utils/excel.ts:31 | distinct months have distinct first days |
| Seqs.MaxOf | vnd-ohlcv-exporter/src/utils/excel.ts:33 | `Math.max(...)` of a non-empty list is one of its values and no value exceeds it |
| Seqs.MinOf | vnd-ohlcv-exporter/src/utils/excel.ts:34 | `Math.min(...)` of a non-empty list is one of its values and no value is below it |
| Sorting.SortBy | vnd-ohlcv-exporter/src/utils/excel.ts:41 | the sort returns a permutation of its input, ascending by the key |
| Sorting.SortByStrict | vnd-ohlcv-exporter/src/utils/excel.ts:41 | on pairwise distinct keys the sorted output is strictly ascending |
| Sorting.SortBySortedIdentity | vnd-ohlcv-exporter/src/utils/excel.ts:41 | an input already in order is returned unchanged |
| Sorting.SortByTotal | vnd-ohlcv-exporter/src/utils/excel.ts:41 | sorting keeps the total of any weight |
| Sorting.SortByEnds | vnd-ohlcv-exporter/src/components/MarketForm.tsx:103-109 | after the sort the first element has the least key and the last the greatest, both taken from the input |
| Sorting.InsertInPlace | vnd-ohlcv-exporter/src/components/MarketForm.tsx:103 | one step of the in-place sort inserts `a[i]` into the sorted prefix and leaves the rest of the array alone |
| Sorting.SortInPlace | vnd-ohlcv-exporter/src/components/MarketForm.tsx:103 | `grp.sort(...)` leaves the array holding the stable sort of its old contents |
| Grouping.Members | vnd-ohlcv-exporter/src/utils/excel.ts:21 | a bucket holds only input items with its key, and no more of them than the input |
| Grouping.Keys | vnd-ohlcv-exporter/src/utils/excel.ts:23 | the listed keys are distinct, and a key is listed iff its bucket is non-empty |
| Grouping.GroupBy | vnd-ohlcv-exporter/src/utils/excel.ts:9-22 | the grouping loop yields the keys in first-seen order and maps each to its bucket |
| Grouping.GroupsMapBuckets | vnd-ohlcv-exporter/src/utils/excel.ts:9-22 | the map the grouping loop builds, one push per item, has exactly the keys seen, each bound to its members in input order |
| Grouping.SortByMembers | vnd-ohlcv-exporter/src/components/MarketForm.tsx:103 | sorting a bucket keeps exactly its members |
| Grouping.SortByStable | vnd-ohlcv-exporter/src/utils/excel.ts:41 | the sort is stable: for every key, the items with that key come out in their input order |
| Grouping.InsertMembers | vnd-ohlcv-exporter/src/utils/excel.ts:41 | one insertion step places the item after every item of equal key and changes no other key's items |
| Grouping.MembersCount | vnd-ohlcv-exporter/src/utils/excel.ts:9-22 | each item lands in the bucket of its own key, as often as it occurs in the input, and in no other bucket |
| Grouping.BucketsPartition | vnd-ohlcv-exporter/src/utils/excel.ts:9-22 | the buckets partition the input: summed over all keys, their totals are the input's total |
| Grouping.SingletonBuckets | vnd-ohlcv-exporter/src/utils/excel.ts:9-22 | with pairwise distinct keys every item forms its own bucket, keys in input order |
| Grouping.MembersSorted | vnd-ohlcv-exporter/src/utils/excel.ts:21 | pushing in input order keeps each bucket in the input's order |
| Grouping.SortedBucketEnds | vnd-ohlcv-exporter/src/utils/excel.ts:32-35 | in an ordered input a bucket's first member is its earliest and its last member its latest |
| Grouping.MembersMap | vnd-ohlcv-exporter/src/components/MarketForm.tsx:91-98 | mapping items before grouping, with a key that agrees, maps each bucket |
| Grouping.KeysMap | vnd-ohlcv-exporter/src/components/MarketForm.tsx:91-98 | mapping items before grouping, with a key that agrees, gives the same keys in the same order |
| Grouping.TotalPerBucket | vnd-ohlcv-exporter/src/utils/excel.ts:36 | values that each carry their bucket's total add up to the totals of all buckets |
| Grouping.MembersConcat | vnd-ohlcv-exporter/src/components/PreviewModal.tsx:46-48 | selecting by key distributes over concatenation |
| Ohlcv.Divide | vnd-ohlcv-exporter/src/utils/excel.ts:94 | JavaScript division: finite iff the divisor is non-zero, NaN iff both are zero, infinite otherwise |
| Series.ComputeObv | vnd-ohlcv-exporter/src/utils/excel.ts:77-85 | the OBV loop pushes one entry per row, each the running signed-volume sum `ObvAt` (0 at row 0) |
| Series.ObvRising | vnd-ohlcv-exporter/src/utils/excel.ts:81 | closes rising at every row with constant volume `v` give OBV `i * v` at row `i` |
| Series.ObvBounded | vnd-ohlcv-exporter/src/utils/excel.ts:79-85 | with non-negative volumes OBV stays within the volume traded after row 0 |
| Series.ComputeVwap | vnd-ohlcv-exporter/src/utils/excel.ts:87-95 | the VWAP loop pushes one entry per row, each the cumulative typical-price volume over the cumulative volume |
| Series.CumPVConstant | vnd-ohlcv-exporter/src/utils/excel.ts:91-93 | a constant typical price `p` gives a cumulative price-volume of `p` times the cumulative volume |
| Series.VwapConstantPrice | vnd-ohlcv-exporter/src/components/PreviewModal.tsx:107-114 | constant `high = low = close = p` with positive volumes give VWAP `p` at every row |
| Series.CumVolPositive | vnd-ohlcv-exporter/src/utils/excel.ts:93 | positive volumes give a positive cumulative volume |
| Series.CumPVBetween | vnd-ohlcv-exporter/src/utils/excel.ts:91-93 | typical prices within `[lo, hi]` keep the cumulative price-volume between `lo` and `hi` times the cumulative volume |
| Series.VwapWithinRange | vnd-ohlcv-exporter/src/utils/excel.ts:94 | once volume has traded, VWAP is finite and within the range of the typical prices seen |
| Series.VwapNaNOnlyWithoutVolume | vnd-ohlcv-exporter/src/utils/excel.ts:87-95 | with non-negative volumes VWAP is NaN exactly while no volume has traded, and never infinite |
| Series.NoVolumeNoPV | vnd-ohlcv-exporter/src/utils/excel.ts:92-93 | no volume traded means no price-volume accumulated |
| Aggregation.WeekKey | vnd-ohlcv-exporter/src/utils/excel.ts:13-17 | the weekly key of a row is the Monday 0 to 6 days on or before its date |
| Aggregation.MonthKey | vnd-ohlcv-exporter/src/utils/excel.ts:19 | the monthly key of a row is the month whose days contain the row's date: on or after its first day, before the next month's first day |
| Aggregation.Aggregate | vnd-ohlcv-exporter/src/utils/excel.ts:8-42 | `aggregate` (grouping loop, reduction, sort) returns `Aggregated(rows, mode)` |
| Aggregation.KeyOfRow | vnd-ohlcv-exporter/src/utils/excel.ts:13-19 | weekly keys are Mondays and monthly keys are months |
| Aggregation.BucketKeyOfMode | vnd-ohlcv-exporter/src/utils/excel.ts:23 | every bucket's key is of the mode's kind |
| Aggregation.KeyDateReadBack | vnd-ohlcv-exporter/src/utils/excel.ts:31 | a bar's emitted date maps back to its bucket's key |
| Aggregation.KeyDateInjective | vnd-ohlcv-exporter/src/utils/excel.ts:31 | distinct keys of one mode give distinct bar dates |
| Aggregation.BarSummary | vnd-ohlcv-exporter/src/utils/excel.ts:30-39 | a bar: dated at its key (a Monday, or the first of the month) on or before every member; open of the first and close of the last member in input order; high and low the members' extremes; volume their sum; first member's symbol; "W" or "M" |
| Aggregation.OutputBarOfBucket | vnd-ohlcv-exporter/src/utils/excel.ts:23-40 | every output bar is the bar of some bucket |
| Aggregation.BucketBarInOutput | vnd-ohlcv-exporter/src/utils/excel.ts:23-40 | one bar per distinct key, and every bucket's bar is in the output |
| Aggregation.AggregatedStrictlyAscending | vnd-ohlcv-exporter/src/utils/excel.ts:41 | the output is strictly ascending by date |
| Aggregation.BarsVolume | vnd-ohlcv-exporter/src/utils/excel.ts:36 | the bars of a list of keys hold the summed volume of those buckets |
| Aggregation.AggregatedVolume | vnd-ohlcv-exporter/src/utils/excel.ts:21-41 | resampling conserves total volume |
| Aggregation.AscendingOpenClose | vnd-ohlcv-exporter/src/utils/excel.ts:32-35 | on date-ordered input a bar's open is the earliest member's open and its close the latest member's close |
| Aggregation.SingletonBar | vnd-ohlcv-exporter/src/utils/excel.ts:30-39 | a bucket holding one row already dated at its key, with the mode's timeframe, reduces to that row |
| Aggregation.AggregateFixedPoint | vnd-ohlcv-exporter/src/utils/excel.ts:8-42 | strictly ascending rows, each dated at its own key with the mode's timeframe, are returned unchanged |
| Aggregation.AggregateIdempotent | vnd-ohlcv-exporter/src/utils/excel.ts:8-42 | resampling twice with the same mode equals resampling once |
| Enrichment.Round2 | vnd-ohlcv-exporter/src/utils/excel.ts:120 | `Number(v.toFixed(2))` is a whole number of cents within half a cent of `v`; a tie goes away from zero (the half-open bound points toward zero) |
| Enrichment.Round2Symmetric | vnd-ohlcv-exporter/src/utils/excel.ts:120 | `toFixed` rounds the magnitude: `-v` rounds to the negation of `v`'s rounding |
| Enrichment.Round2Ties | vnd-ohlcv-exporter/src/utils/excel.ts:120 | 0.125 rounds to 0.13 and -0.125 to -0.13 |
| Enrichment.Round2Idempotent | vnd-ohlcv-exporter/src/utils/excel.ts:120 | rounding a rounded value changes nothing |
| Enrichment.RoundMonotone | vnd-ohlcv-exporter/src/utils/excel.ts:120 | rounding keeps order |
| Enrichment.Sml | vnd-ohlcv-exporter/src/utils/excel.ts:119-121 | undefined in gives undefined out; a value gives a value within half a cent of it |
| Enrichment.VwapCell | vnd-ohlcv-exporter/src/utils/excel.ts:113 | a NaN VWAP is undefined, a finite one rounded, an infinite one kept |
| Enrichment.Enrich | vnd-ohlcv-exporter/src/utils/excel.ts:45-116 | `enrich` (OBV loop, VWAP loop, alignment map) returns `Enriched(rows, lib)` |
| Enrichment.EnrichedKeepsRows | vnd-ohlcv-exporter/src/utils/excel.ts:97-101 | one enriched row per input row, in order, with every original field unchanged |
| Enrichment.EnrichedAlignment | vnd-ohlcv-exporter/src/utils/excel.ts:98-111 | each indicator at row `i` is the rounded library entry `i - off` while it exists and is unset otherwise; MACD and Signal come from the same entry |
| Enrichment.EnrichedWarmUp | vnd-ohlcv-exporter/src/utils/excel.ts:102-111 | nothing is set before its warm-up: 13 for RSI/ATR, 19 for SMA20/EMA20/EMA50/BB, 25 for MACD, 49 for SMA50 |
| Enrichment.EnrichedPairsTogether | vnd-ohlcv-exporter/src/utils/excel.ts:98-111 | both bands are set on exactly the same rows, whatever the library returns; MACD and Signal are too unless the entry read defines only one of them |
| Enrichment.EnrichedBandsOrdered | vnd-ohlcv-exporter/src/utils/excel.ts:110-111 | bands the library orders stay ordered after rounding |
| Enrichment.EnrichedComplete | vnd-ohlcv-exporter/src/utils/excel.ts:98-111 | each library output as long as its warm-up allows leaves no gap in its own column after the warm-up, column by column (EMA50 in `Ema50Window`) |
| Enrichment.Ema50Window | vnd-ohlcv-exporter/src/utils/excel.ts:105 | with `n - 49` EMA50 entries the column is set exactly on rows `19 .. n - 31` |
| Enrichment.EnrichedObvVwap | vnd-ohlcv-exporter/src/utils/excel.ts:112-113 | row `i` carries OBV `ObvAt(rows, i)` and the VWAP cell of `VwapAt(rows, i)` |
| Enrichment.EnrichedVwapDefined | vnd-ohlcv-exporter/src/utils/excel.ts:87-95 | the VWAP cell is unset exactly while no volume has traded, and otherwise lies between the roundings of the least and greatest typical price so far |
| Enrichment.ExportSheets | vnd-ohlcv-exporter/src/utils/excel.ts:123-156 | the PriceData, WeeklyData and MonthlyData sheets are the enriched input rows and their enriched weekly and monthly resamplings; in weekly mode the input rows are already weekly bars, so MonthlyData puts each week in the month of its Monday |
| Enrichment.SheetsAgree | vnd-ohlcv-exporter/src/utils/excel.ts:133-151 | the three price sheets hold the same total volume |
| Vndirect.AllEqual | vnd-ohlcv-exporter/src/service/vndirect.ts:47 | `every(len => len === n)` holds iff every length equals `n` |
| Vndirect.Validate | vnd-ohlcv-exporter/src/service/vndirect.ts:42-51 | accepted iff the status is "ok" and all columns are as long as `t`; the status error takes precedence; an accepted response is returned unchanged |
| Vndirect.ErrorMessagesDistinct | vnd-ohlcv-exporter/src/service/vndirect.ts:42-49 | distinct errors have distinct messages |
| MarketForm.Trim | vnd-ohlcv-exporter/src/components/MarketForm.tsx:76 | `trim()` returns the slice left after dropping white space at both ends, and neither end of it is white space |
| MarketForm.TrimUntrimmed | vnd-ohlcv-exporter/src/components/MarketForm.tsx:76 | a string with no white space at either end is its own trim |
| MarketForm.UpperChar | vnd-ohlcv-exporter/src/components/MarketForm.tsx:76 | `a`..`z` become `A`..`Z`, every other character is unchanged, so no lower-case ASCII letter is left |
| MarketForm.NormalizeSymbol | vnd-ohlcv-exporter/src/components/MarketForm.tsx:76 | the normalised symbol is the trimmed symbol character by character upper-cased: no edge white space, no lower-case letter, no longer than the input |
| MarketForm.NormalizeIdempotent | vnd-ohlcv-exporter/src/components/MarketForm.tsx:111 | normalising a normalised symbol changes nothing |
| MarketForm.DayOf | vnd-ohlcv-exporter/src/components/MarketForm.tsx:128 | the day printed for timestamp `ts` is the UTC day containing `ts` |
| MarketForm.ZipRowsUnzip | vnd-ohlcv-exporter/src/components/MarketForm.tsx:126-137 | one daily row per timestamp; unzipping the rows gives back each column, with the symbol and "D" on every row |
| MarketForm.ZipsAgree | vnd-ohlcv-exporter/src/components/MarketForm.tsx:81-88 | the weekly branch's items are the daily rows before dating |
| MarketForm.ItemWeekKey | vnd-ohlcv-exporter/src/components/MarketForm.tsx:91-98 | an item's week key is a Monday 0 to 6 days on or before its UTC day |
| MarketForm.SortedWeekBar | vnd-ohlcv-exporter/src/components/MarketForm.tsx:102-113 | a bucket copied to an array, sorted there in place and reduced, is `WeekBar` |
| MarketForm.WeekBarsAppend | vnd-ohlcv-exporter/src/components/MarketForm.tsx:101-114 | one more week key adds its bar at the end |
| MarketForm.WeeklyFromDaily | vnd-ohlcv-exporter/src/components/MarketForm.tsx:89-117 | the grouping loop, the in-place bucket sorts, the reduction and the sort by date return `WeeklyRows` |
| MarketForm.WeekBarSummary | vnd-ohlcv-exporter/src/components/MarketForm.tsx:103-113 | whatever the members' order: dated at the Monday, 0 to 6 days before each member; open of an earliest member and close of a latest; high and low the extremes; volume the sum; the form's symbol and "W" |
| MarketForm.WeeklyRowOfWeek | vnd-ohlcv-exporter/src/components/MarketForm.tsx:101-114 | every weekly row is the bar of some week of the input |
| MarketForm.WeekOfWeeklyRow | vnd-ohlcv-exporter/src/components/MarketForm.tsx:101-114 | every week of the input has its bar among the weekly rows |
| MarketForm.WeeklyRowsShape | vnd-ohlcv-exporter/src/components/MarketForm.tsx:101-117 | one row per distinct week, none iff there are no items, each a Monday-dated "W" row with the form's symbol |
| MarketForm.WeeklyStrictlyAscending | vnd-ohlcv-exporter/src/components/MarketForm.tsx:115-117 | the weekly rows are strictly ascending by date |
| MarketForm.WeeklyVolume | vnd-ohlcv-exporter/src/components/MarketForm.tsx:110 | the weekly rows together hold the volume of all daily items |
| MarketForm.WeekBarAgrees | vnd-ohlcv-exporter/src/components/MarketForm.tsx:103-113 | on members in time order the form's weekly bar equals `aggregate`'s bar of their rows |
| MarketForm.WeeklyAgreesWithAggregate | vnd-ohlcv-exporter/src/components/MarketForm.tsx:89-117 | on items in time order the form's weekly rows equal `aggregate(rows, "weekly")` of the daily rows |
| MarketForm.WeeklyExportFixedPoint | vnd-ohlcv-exporter/src/components/MarketForm.tsx:168-174 | resampling the form's weekly rows weekly again, as `exportWorkbook` does, returns them unchanged |
| MarketForm.FormRowsEmpty | vnd-ohlcv-exporter/src/components/MarketForm.tsx:126-137 | the rows are empty iff the response has no timestamp; daily mode gives one row per timestamp; every row has the normalised symbol and the chosen timeframe |
| MarketForm.ExportOutcome | vnd-ohlcv-exporter/src/components/MarketForm.tsx:54-142 | missing custom dates fail before the fetch; fetch errors pass through; success iff the dates are given, the response is valid and it has a timestamp, and then the rows are the zip or the weekly rows |
| MarketForm.PreviewMatchesExport | vnd-ohlcv-exporter/src/components/MarketForm.tsx:182-261 | given the same response, preview and export succeed together with the same rows and fail together, each with its own wording |
| MarketForm.HandleExport | vnd-ohlcv-exporter/src/components/MarketForm.tsx:54-174 | `handleExport` fails exactly as `ExportRows` does; otherwise it yields the three price sheets of those rows |
| Preview.FilterExact | vnd-ohlcv-exporter/src/components/PreviewModal.tsx:46-48 | the date filter keeps every row of that date, as often as it occurs, and nothing else |
| Preview.FilterKeepsOrder | vnd-ohlcv-exporter/src/components/PreviewModal.tsx:46-48 | the filter keeps the original order: filtering two parts is filtering the whole |
| Preview.Render | vnd-ohlcv-exporter/src/components/PreviewModal.tsx:45-131 | the modal's body (filter, no-data branch, OBV and VWAP loops, alignment map) renders `Previewed` |
| Preview.NoDataIffEmpty | vnd-ohlcv-exporter/src/components/PreviewModal.tsx:51-65 | the no-data message is shown iff the filter leaves no row |
| Preview.CrashIff | vnd-ohlcv-exporter/src/components/PreviewModal.tsx:125-128 | the render throws iff there are more rows than 25 plus the MACD output or 19 plus the Bollinger output |
| Preview.NeverCrashes | vnd-ohlcv-exporter/src/components/PreviewModal.tsx:117-131 | outputs as long as their warm-ups allow give a table of one row per shown row |
| Preview.PreviewRowAt | vnd-ohlcv-exporter/src/components/PreviewModal.tsx:117-130 | table row `i` is shown row `i` unchanged, with OBV and raw VWAP at the same index |
| Preview.PreviewAlignment | vnd-ohlcv-exporter/src/components/PreviewModal.tsx:119-128 | each indicator at row `i` is the unrounded library entry `i - off` after its warm-up, with the offsets of the workbook |
| Preview.WorkbookRoundsPreview | vnd-ohlcv-exporter/src/components/PreviewModal.tsx:119-130 | the workbook's enriched row `i` is the preview's row `i` with each indicator rounded to cents and NaN VWAP unset |
| Preview.TableVwapConstant | vnd-ohlcv-exporter/src/components/PreviewModal.tsx:107-114 | constant prices `p` with positive volumes show VWAP `p` on every table row |
| Preview.ClassOf | vnd-ohlcv-exporter/src/components/PreviewModal.tsx:178 | a row is classed up iff its close is at least its open |

## Left out

- The network part of `fetchHistory` is not modelled: the URL, `fetch`, the HTTP status check, `res.text()` and `JSON.parse` with their errors. Each fetch's parsed response is a parameter.
- The dchart JSON numbers are not modelled as numbers: timestamps are integers, and prices and volumes are exact reals.
- Floating point is not modelled: sums, the typical price and the division use exact reals, and `toFixed` uses no binary rounding and no exponent form from 1e21 up.
- Round2: rounds exact reals, ties away from zero; `toFixed` on a binary double rounds the double's exact value, so a value printed as a half (such as 1.005) can round toward zero.
- The numerics of `technicalindicators` (SMA, EMA, RSI, ATR, MACD, Bollinger Bands) are not modelled; their outputs are parameters, and only their alignment is proved.
- The workbook is not modelled: XLSX sheet creation, the Risk_Profile and Market_Context sheets, the file name built from the clock, and `writeFile`.
- The clock and `src/lib/date.ts` are not modelled (`daysAgo`, `parseIsoDate`, the from/to computation). They only feed the fetch, so the range is reduced to whether custom dates are given.
- `setDate` at `excel.ts:16` is modelled as UTC. In a time zone where the local day differs from the UTC day, the weekly key of `aggregate` can differ from that of the form's `setUTCDate`.
- Years outside 0000–9999 are not modelled: `toISOString` prints them with a sign and six digits, and the model's keys are plain year numbers.
- UpperChar: upper-cases only the ASCII letters; full Unicode case mapping (such as `ß` to `SS`) is not modelled.
- React state, JSX, `alert` and the modal's open and close are not modelled. The closed modal (`if (!visible) return null`) is not modelled: `Preview.Previewed` and `Preview.Render` describe the open modal only. The `filterDate` input is a parameter, and the filter is a day number, or none for the empty string.
- Only the class of a table row is modelled; the cell formatting (`toFixed(2) ?? "-"`) and the JSX `key` are not.
