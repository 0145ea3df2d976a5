/**
 * The data shaping of `handleExport` and `handlePreview` in MarketForm.tsx:
 * the symbol as typed is trimmed and upper-cased, the validated response
 * columns are zipped into rows (daily) or into dated items that are grouped
 * into weekly bars, and the empty result and missing custom dates are errors.
 */
module MarketForm {
  import opened Wrappers
  import opened Seqs
  import opened Sorting
  import opened Grouping
  import opened Calendar
  import opened Ohlcv
  import opened Vndirect
  import opened Series
  import opened Aggregation
  import opened Enrichment

  // ------------------------------------------------------------ the symbol

  /** The characters `trim()` removes: the white space and line terminator code points. */
  predicate IsTrimmable(c: char)
  {
    c == '\t' || c == '\n' || c == '\U{000B}' || c == '\U{000C}' || c == '\r' || c == ' '
    || c == '\U{00A0}' || c == '\U{1680}' || ('\U{2000}' <= c <= '\U{200A}')
    || c == '\U{2028}' || c == '\U{2029}' || c == '\U{202F}' || c == '\U{205F}'
    || c == '\U{3000}' || c == '\U{FEFF}'
  }

  /** How many trimmable characters `s` starts with. */
  function LeadingTrimmable(s: string): (n: nat)
    ensures n <= |s|
    ensures forall i :: 0 <= i < n ==> IsTrimmable(s[i])
    ensures n == |s| || !IsTrimmable(s[n])
  {
    if s == [] || !IsTrimmable(s[0]) then 0 else 1 + LeadingTrimmable(s[1..])
  }

  /** How many trimmable characters `s` ends with. */
  function TrailingTrimmable(s: string): (n: nat)
    ensures n <= |s|
    ensures forall i :: |s| - n <= i < |s| ==> IsTrimmable(s[i])
    ensures n == |s| || !IsTrimmable(s[|s| - 1 - n])
  {
    if s == [] || !IsTrimmable(s[|s| - 1]) then 0
    else
      var n := TrailingTrimmable(s[..|s| - 1]);
      assert forall i :: |s| - 1 - n <= i < |s| - 1 ==> s[i] == s[..|s| - 1][i];
      n + 1
  }

  /**
   * `trim()`: the slice of `s` left after dropping the trimmable characters
   * at both ends; it neither starts nor ends with one.
   */
  function Trim(s: string): (r: string)
    ensures r == [] || (!IsTrimmable(r[0]) && !IsTrimmable(r[|r| - 1]))
    ensures LeadingTrimmable(s) + |r| <= |s|
    ensures r == s[LeadingTrimmable(s)..LeadingTrimmable(s) + |r|]
    ensures forall i :: LeadingTrimmable(s) + |r| <= i < |s| ==> IsTrimmable(s[i])
  {
    var a := LeadingTrimmable(s);
    var b := TrailingTrimmable(s[a..]);
    TrailingOfRest(s, a, b);
    s[a..|s| - b]
  }

  /** The trailing trimmable characters of `s[a..]` are those of `s`, stopping at a non-trimmable one or at `a`. */
  lemma TrailingOfRest(s: string, a: nat, b: nat)
    requires a <= |s| && b == TrailingTrimmable(s[a..])
    ensures a + b <= |s|
    ensures forall i :: |s| - b <= i < |s| ==> IsTrimmable(s[i])
    ensures a + b == |s| || !IsTrimmable(s[|s| - 1 - b])
  {
    var t := s[a..];
    forall i | |s| - b <= i < |s| ensures IsTrimmable(s[i]) {
      assert s[i] == t[i - a];
    }
    if a + b < |s| {
      assert s[|s| - 1 - b] == t[|t| - 1 - b];
    }
  }

  /** A string with nothing to trim at either end is its own trim. */
  lemma TrimUntrimmed(s: string)
    requires s == [] || (!IsTrimmable(s[0]) && !IsTrimmable(s[|s| - 1]))
    ensures Trim(s) == s
  {
    if s != [] {
      assert LeadingTrimmable(s) == 0;
      assert TrailingTrimmable(s) == 0;
    }
  }

  /** `toUpperCase()` of one character, on the ASCII letters. */
  function UpperChar(c: char): (u: char)
    ensures !('a' <= u <= 'z')
    ensures IsTrimmable(u) <==> IsTrimmable(c)
    ensures !('a' <= c <= 'z') ==> u == c
    ensures 'a' <= c <= 'z' ==> u == "ABCDEFGHIJKLMNOPQRSTUVWXYZ"[c as int - 'a' as int]
  {
    if 'a' <= c <= 'z' then (c as int - 32) as char else c
  }

  function ToUpper(s: string): string
  {
    MapSeq(s, UpperChar)
  }

  /**
   * `symbol.trim().toUpperCase()`: the characters of the trimmed symbol, each
   * upper-cased; no white space at either end and no lower-case letter.
   */
  function NormalizeSymbol(s: string): (r: string)
    ensures r == [] || (!IsTrimmable(r[0]) && !IsTrimmable(r[|r| - 1]))
    ensures forall i :: 0 <= i < |r| ==> !('a' <= r[i] <= 'z')
    ensures |r| == |Trim(s)| <= |s|
    ensures forall i :: 0 <= i < |r| ==> r[i] == UpperChar(Trim(s)[i])
  {
    ToUpper(Trim(s))
  }

  /** Normalising a normalised symbol changes nothing. */
  lemma NormalizeIdempotent(s: string)
    ensures NormalizeSymbol(NormalizeSymbol(s)) == NormalizeSymbol(s)
  {
    var n := NormalizeSymbol(s);
    TrimUntrimmed(n);
    assert ToUpper(n) == n;
  }

  // --------------------------------------------------------- the zip

  /** An element of `daily`: a timestamp in seconds and the prices and volume at that index. */
  datatype DailyItem = DailyItem(ts: int, open: real, high: real, low: real, close: real, volume: real)

  /** `date.getTime()` is `ts * 1000`, which orders items as `ts` does. */
  function ItemTs(x: DailyItem): int { x.ts }

  function ItemHigh(x: DailyItem): real { x.high }

  function ItemLow(x: DailyItem): real { x.low }

  function ItemVolume(x: DailyItem): real { x.volume }

  /** The UTC day of the instant `ts` seconds after the epoch: the day `toISOString()` prints. */
  function DayOf(ts: int): (d: int)
    ensures d * 86400 <= ts < d * 86400 + 86400
  {
    ts / 86400
  }

  /** `rawDaily.t.map((ts, i) => ({ date: new Date(ts * 1000), open: rawDaily.o[i], ... }))`. */
  function ZipItems(resp: DchartResponse): seq<DailyItem>
    requires ColumnsAligned(resp)
  {
    seq(|resp.t|, i requires 0 <= i < |resp.t| =>
      DailyItem(resp.t[i], resp.o[i], resp.h[i], resp.l[i], resp.c[i], resp.v[i]))
  }

  /** The daily rows: the columns zipped index by index, with the symbol and timeframe "D". */
  function ZipRows(resp: DchartResponse, sym: string): seq<Row>
    requires ColumnsAligned(resp)
  {
    seq(|resp.t|, i requires 0 <= i < |resp.t| =>
      Row(DayOf(resp.t[i]), resp.o[i], resp.h[i], resp.l[i], resp.c[i], resp.v[i], sym, D))
  }

  /** Unzipping the daily rows gives the response's columns back: one row per timestamp, nothing reordered. */
  lemma ZipRowsUnzip(resp: DchartResponse, sym: string)
    requires ColumnsAligned(resp)
    ensures |ZipRows(resp, sym)| == |resp.t|
    ensures MapSeq(ZipRows(resp, sym), RowDate) == MapSeq(resp.t, DayOf)
    ensures MapSeq(ZipRows(resp, sym), RowOpen) == resp.o
    ensures MapSeq(ZipRows(resp, sym), RowHigh) == resp.h
    ensures MapSeq(ZipRows(resp, sym), RowLow) == resp.l
    ensures MapSeq(ZipRows(resp, sym), RowClose) == resp.c
    ensures MapSeq(ZipRows(resp, sym), RowVolume) == resp.v
    ensures forall i :: 0 <= i < |resp.t| ==> ZipRows(resp, sym)[i].symbol == sym && ZipRows(resp, sym)[i].timeframe == D
  {
  }

  /** The row a daily item stands for. */
  function DailyRow(sym: string): DailyItem -> Row
  {
    (x: DailyItem) => Row(DayOf(x.ts), x.open, x.high, x.low, x.close, x.volume, sym, D)
  }

  /** The two zips of the form agree: the daily rows are the daily items, dated by their UTC day. */
  lemma ZipsAgree(resp: DchartResponse, sym: string)
    requires ColumnsAligned(resp)
    ensures ZipRows(resp, sym) == MapSeq(ZipItems(resp), DailyRow(sym))
  {
  }

  // ------------------------------------------------------ weekly bars

  /** The week key of an item: the Monday on or before its UTC day (`setUTCDate`). */
  function ItemWeekKey(x: DailyItem): (k: BucketKey)
    ensures k.Week? && Weekday(k.monday) == 1
    ensures k.monday <= DayOf(x.ts) < k.monday + 7
  {
    Week(WeekStart(DayOf(x.ts)))
  }

  /** The weekly bar of a bucket whose members `g` are already sorted by time. */
  function WeekBarOfSorted(k: BucketKey, g: seq<DailyItem>, sym: string): Row
    requires g != []
  {
    Row(KeyDate(k), g[0].open, MaxOf(g, ItemHigh), MinOf(g, ItemLow), g[|g| - 1].close,
        Total(g, ItemVolume), sym, W)
  }

  /** The weekly bar of bucket `k`: `grp` sorted by time, then reduced. */
  function WeekBar(k: BucketKey, grp: seq<DailyItem>, sym: string): Row
    requires grp != []
  {
    WeekBarOfSorted(k, SortBy(grp, ItemTs), sym)
  }

  function WeekBars(items: seq<DailyItem>, ks: seq<BucketKey>, sym: string): seq<Row>
    requires forall k :: k in ks ==> Members(items, ItemWeekKey, k) != []
  {
    seq(|ks|, i requires 0 <= i < |ks| => WeekBar(ks[i], Members(items, ItemWeekKey, ks[i]), sym))
  }

  /** The weekly rows of the form: one bar per week, sorted by date. */
  function WeeklyRows(items: seq<DailyItem>, sym: string): seq<Row>
  {
    SortBy(WeekBars(items, Keys(items, ItemWeekKey), sym), RowDate)
  }

  /** The bar of one week: its bucket copied into an array, sorted there by time, then reduced. */
  method SortedWeekBar(k: BucketKey, members: seq<DailyItem>, sym: string) returns (bar: Row)
    requires members != []
    ensures bar == WeekBar(k, members, sym)
  {
    var grp := new DailyItem[|members|](j requires 0 <= j < |members| => members[j]);
    assert grp[..] == members;
    SortInPlace(grp, ItemTs);
    bar := WeekBarOfSorted(k, grp[..], sym);
  }

  /** One more key, one more bar at the end. */
  lemma WeekBarsAppend(items: seq<DailyItem>, ks: seq<BucketKey>, k: BucketKey, sym: string)
    requires forall k' :: k' in ks + [k] ==> Members(items, ItemWeekKey, k') != []
    ensures WeekBars(items, ks + [k], sym) == WeekBars(items, ks, sym) + [WeekBar(k, Members(items, ItemWeekKey, k), sym)]
  {
  }

  /**
   * The weekly branch: the grouping loop, then for each week its bucket
   * sorted in place by time and reduced to a bar, then the sort by date.
   */
  method WeeklyFromDaily(items: seq<DailyItem>, sym: string) returns (rows: seq<Row>)
    ensures rows == WeeklyRows(items, sym)
  {
    var order, groups := GroupBy(items, ItemWeekKey);
    var bars: seq<Row> := [];
    for i := 0 to |order|
      invariant bars == WeekBars(items, order[..i], sym)
    {
      var k := order[i];
      var bar := SortedWeekBar(k, groups[k], sym);
      assert bars + [bar] == WeekBars(items, order[..i + 1], sym) by {
        PrefixStep(order, i);
        WeekBarsAppend(items, order[..i], k, sym);
      }
      bars := bars + [bar];
    }
    assert order[..|order|] == order;
    rows := SortBy(bars, RowDate);
  }

  /**
   * A weekly bar, whatever the order of its members: dated at the week's
   * Monday, 0 to 6 days before each member's day; open from a member no
   * later than any other and close from one no earlier than any other;
   * high and low the extremes; volume the sum; the form's symbol and "W".
   */
  lemma WeekBarSummary(k: BucketKey, grp: seq<DailyItem>, sym: string)
    requires grp != []
    requires forall x :: x in grp ==> ItemWeekKey(x) == k
    ensures var b := WeekBar(k, grp, sym);
      && Weekday(b.date) == 1
      && (forall x :: x in grp ==> b.date <= DayOf(x.ts) < b.date + 7)
      && (exists x :: x in grp && x.open == b.open && forall y :: y in grp ==> x.ts <= y.ts)
      && (exists x :: x in grp && x.close == b.close && forall y :: y in grp ==> y.ts <= x.ts)
      && (forall x :: x in grp ==> b.low <= x.low && x.high <= b.high)
      && (exists x :: x in grp && x.high == b.high)
      && (exists x :: x in grp && x.low == b.low)
      && b.volume == Total(grp, ItemVolume)
      && b.symbol == sym && b.timeframe == W
  {
    var g := SortBy(grp, ItemTs);
    assert grp[0] in grp;
    SortByEnds(grp, ItemTs);
    SortByMembers(grp, ItemTs);
    SortByTotal(grp, ItemTs, ItemVolume);
    var b := WeekBar(k, grp, sym);
    assert g[0] in grp && g[0].open == b.open;
    assert g[|g| - 1] in grp && g[|g| - 1].close == b.close;
  }

  /** Every row is the bar of one week of the input. */
  lemma WeeklyRowOfWeek(items: seq<DailyItem>, sym: string, r: Row) returns (k: BucketKey)
    requires r in WeeklyRows(items, sym)
    ensures k in Keys(items, ItemWeekKey)
    ensures r == WeekBar(k, Members(items, ItemWeekKey, k), sym)
  {
    var ks := Keys(items, ItemWeekKey);
    var bars := WeekBars(items, ks, sym);
    assert r in multiset(bars);
    var j :| 0 <= j < |bars| && bars[j] == r;
    k := ks[j];
  }

  /** Every week of the input has its bar among the rows. */
  lemma WeekOfWeeklyRow(items: seq<DailyItem>, sym: string, k: BucketKey)
    requires k in Keys(items, ItemWeekKey)
    ensures WeekBar(k, Members(items, ItemWeekKey, k), sym) in WeeklyRows(items, sym)
  {
    var ks := Keys(items, ItemWeekKey);
    var bars := WeekBars(items, ks, sym);
    var j :| 0 <= j < |ks| && ks[j] == k;
    assert bars[j] in multiset(bars);
  }

  /** The weekly rows: one per distinct week, each a Monday-dated "W" bar with the form's symbol. */
  lemma WeeklyRowsShape(items: seq<DailyItem>, sym: string)
    ensures |WeeklyRows(items, sym)| == |Keys(items, ItemWeekKey)|
    ensures WeeklyRows(items, sym) == [] <==> items == []
    ensures forall r :: r in WeeklyRows(items, sym) ==>
      Weekday(r.date) == 1 && r.symbol == sym && r.timeframe == W
  {
    forall r | r in WeeklyRows(items, sym) ensures Weekday(r.date) == 1 && r.symbol == sym && r.timeframe == W {
      var k := WeeklyRowOfWeek(items, sym, r);
      var ms := Members(items, ItemWeekKey, k);
      assert ms[0] in ms;
    }
    if items != [] {
      MembersCount(items, ItemWeekKey, ItemWeekKey(items[0]), items[0]);
      assert items[0] in multiset(items);
      assert ItemWeekKey(items[0]) in Keys(items, ItemWeekKey);
    }
  }

  /** The weekly rows are strictly ascending by date: no week appears twice. */
  lemma WeeklyStrictlyAscending(items: seq<DailyItem>, sym: string)
    ensures StrictlySortedBy(WeeklyRows(items, sym), RowDate)
  {
    var ks := Keys(items, ItemWeekKey);
    var bars := WeekBars(items, ks, sym);
    forall i, j | 0 <= i < j < |bars| ensures RowDate(bars[i]) != RowDate(bars[j]) {
      var mi := Members(items, ItemWeekKey, ks[i]);
      var mj := Members(items, ItemWeekKey, ks[j]);
      assert mi[0] in mi && mj[0] in mj;
    }
    SortByStrict(bars, RowDate);
  }

  /** Weekly bars conserve volume: together they hold the volume of all daily items. */
  lemma WeeklyVolume(items: seq<DailyItem>, sym: string)
    ensures Total(WeeklyRows(items, sym), RowVolume) == Total(items, ItemVolume)
  {
    var ks := Keys(items, ItemWeekKey);
    var bars := WeekBars(items, ks, sym);
    forall i | 0 <= i < |ks| ensures RowVolume(bars[i]) == Total(Members(items, ItemWeekKey, ks[i]), ItemVolume) {
      SortByTotal(Members(items, ItemWeekKey, ks[i]), ItemTs, ItemVolume);
    }
    TotalPerBucket(bars, RowVolume, ks, items, ItemWeekKey, ItemVolume);
    BucketsPartition(items, ItemWeekKey, ItemVolume);
    SortByTotal(bars, RowDate, RowVolume);
  }

  /** On members already in time order, the form's weekly bar is the bar `aggregate` builds from their rows. */
  lemma WeekBarAgrees(k: BucketKey, ms: seq<DailyItem>, sym: string)
    requires ms != []
    requires SortedBy(ms, ItemTs)
    ensures WeekBar(k, ms, sym) == Reduce(Weekly, k, MapSeq(ms, DailyRow(sym)))
  {
    SortBySortedIdentity(ms, ItemTs);
    MaxOfMap(ms, DailyRow(sym), RowHigh, ItemHigh);
    MinOfMap(ms, DailyRow(sym), RowLow, ItemLow);
    TotalMap(ms, DailyRow(sym), RowVolume, ItemVolume);
  }

  /**
   * The form's weekly rows and `aggregate(rows, "weekly")` of the daily rows
   * agree whenever the items come in time order, as the API returns them.
   */
  lemma WeeklyAgreesWithAggregate(items: seq<DailyItem>, sym: string)
    requires SortedBy(items, ItemTs)
    ensures WeeklyRows(items, sym) == Aggregated(MapSeq(items, DailyRow(sym)), Weekly)
  {
    var f := DailyRow(sym);
    var rows := MapSeq(items, f);
    var key := KeyOf(Weekly);
    assert forall x :: key(f(x)) == ItemWeekKey(x);
    KeysMap(items, f, ItemWeekKey, key);
    var ks := Keys(items, ItemWeekKey);
    assert Keys(rows, key) == ks;
    var mine := WeekBars(items, ks, sym);
    var theirs := Bars(Weekly, rows, ks);
    forall i | 0 <= i < |ks| ensures mine[i] == theirs[i] {
      var ms := Members(items, ItemWeekKey, ks[i]);
      MembersMap(items, f, ItemWeekKey, key, ks[i]);
      MembersSorted(items, ItemWeekKey, ks[i], ItemTs);
      WeekBarAgrees(ks[i], ms, sym);
    }
    assert mine == theirs;
  }

  /**
   * Exporting in weekly mode hands the weekly rows to `exportWorkbook`,
   * whose WeeklyData sheet resamples them weekly again: the sheet holds
   * exactly the form's weekly rows.
   */
  lemma WeeklyExportFixedPoint(items: seq<DailyItem>, sym: string)
    ensures Aggregated(WeeklyRows(items, sym), Weekly) == WeeklyRows(items, sym)
  {
    var rows := WeeklyRows(items, sym);
    WeeklyStrictlyAscending(items, sym);
    WeeklyRowsShape(items, sym);
    forall i | 0 <= i < |rows|
      ensures KeyDate(KeyOf(Weekly)(rows[i])) == rows[i].date
      ensures rows[i].timeframe == TimeframeOf(Weekly)
    {
      assert rows[i] in rows;
      WeekStartOfMonday(rows[i].date);
    }
    AggregateFixedPoint(rows, Weekly);
  }

  // ------------------------------------------------------ the handlers

  /** The range picker: the last `n` days, or two custom date fields ("" when not picked). */
  datatype RangeInput = LastNDays(n: int) | Custom(fromDate: string, toDate: string)

  datatype FormError =
    | MissingExportDates
    | MissingPreviewDates
    | Fetch(cause: FetchError)
    | NoDataReturned
    | NoDataToPreview

  /** The message shown by `alert`. */
  function FormMessage(e: FormError): string
  {
    match e
    case MissingExportDates => "Please select both From and To dates"
    case MissingPreviewDates => "Please pick dates"
    case Fetch(cause) => ErrorMessage(cause)
    case NoDataReturned => "No data returned in selected range"
    case NoDataToPreview => "No data to preview"
  }

  predicate DatesMissing(range: RangeInput)
  {
    range.Custom? && (range.fromDate == "" || range.toDate == "")
  }

  /** The rows built from a validated daily response: weekly bars when the timeframe is "W", else daily rows. */
  function FormRows(tf: Timeframe, resp: DchartResponse, symbol: string): seq<Row>
    requires ColumnsAligned(resp)
  {
    var sym := NormalizeSymbol(symbol);
    if tf == W then WeeklyRows(ZipItems(resp), sym) else ZipRows(resp, sym)
  }

  /** The rows `handleExport` hands to `exportWorkbook`, given the response the daily fetch parses. */
  function ExportRows(range: RangeInput, tf: Timeframe, symbol: string, fetched: DchartResponse): Result<seq<Row>, FormError>
  {
    if DatesMissing(range) then Err(MissingExportDates)
    else
      match Validate(fetched)
      case Err(e) => Err(Fetch(e))
      case Ok(resp) =>
        var rows := FormRows(tf, resp, symbol);
        if rows == [] then Err(NoDataReturned) else Ok(rows)
  }

  /**
   * The rows `handlePreview` shows, given the responses of its two daily
   * fetches: `raw` always, and `rawDaily` again in weekly mode.
   */
  function PreviewRows(range: RangeInput, tf: Timeframe, symbol: string, raw: DchartResponse, rawDaily: DchartResponse): Result<seq<Row>, FormError>
  {
    if DatesMissing(range) then Err(MissingPreviewDates)
    else
      match Validate(raw)
      case Err(e) => Err(Fetch(e))
      case Ok(r) =>
        var fetched := if tf == W then Validate(rawDaily) else Ok(r);
        match fetched
        case Err(e) => Err(Fetch(e))
        case Ok(resp) =>
          var rows := FormRows(tf, resp, symbol);
          if rows == [] then Err(NoDataToPreview) else Ok(rows)
  }

  /** The rows of a validated response are empty exactly when it has no timestamp. */
  lemma FormRowsEmpty(tf: Timeframe, resp: DchartResponse, symbol: string)
    requires ColumnsAligned(resp)
    ensures FormRows(tf, resp, symbol) == [] <==> resp.t == []
    ensures tf != W ==> |FormRows(tf, resp, symbol)| == |resp.t|
    ensures forall r :: r in FormRows(tf, resp, symbol) ==>
      r.symbol == NormalizeSymbol(symbol) && r.timeframe == (if tf == W then W else D)
  {
    var sym := NormalizeSymbol(symbol);
    if tf == W {
      WeeklyRowsShape(ZipItems(resp), sym);
    } else {
      forall r | r in ZipRows(resp, sym) ensures r.symbol == sym && r.timeframe == D {
        var i :| 0 <= i < |resp.t| && ZipRows(resp, sym)[i] == r;
      }
    }
  }

  /**
   * The export outcome: missing custom dates fail before anything is
   * fetched; otherwise the fetch's own errors come through; a response
   * with no timestamp fails with the no-data error; anything else gives
   * non-empty rows with the normalised symbol and the chosen timeframe.
   */
  lemma ExportOutcome(range: RangeInput, tf: Timeframe, symbol: string, fetched: DchartResponse)
    ensures DatesMissing(range) ==> ExportRows(range, tf, symbol, fetched) == Err(MissingExportDates)
    ensures !DatesMissing(range) && Validate(fetched).Err? ==>
      ExportRows(range, tf, symbol, fetched) == Err(Fetch(Validate(fetched).error))
    ensures ExportRows(range, tf, symbol, fetched).Ok? <==>
      !DatesMissing(range) && Validate(fetched).Ok? && fetched.t != []
    ensures ExportRows(range, tf, symbol, fetched).Ok? ==>
      var rows := ExportRows(range, tf, symbol, fetched).value;
      && rows != []
      && (tf != W ==> rows == ZipRows(fetched, NormalizeSymbol(symbol)))
      && (tf == W ==> rows == WeeklyRows(ZipItems(fetched), NormalizeSymbol(symbol)))
      && forall r :: r in rows ==> r.symbol == NormalizeSymbol(symbol) && r.timeframe == (if tf == W then W else D)
  {
    if !DatesMissing(range) && Validate(fetched).Ok? {
      FormRowsEmpty(tf, fetched, symbol);
    }
  }

  /**
   * When both preview fetches return what the export fetch returns, the
   * preview shows the rows the export writes, and fails where the export
   * fails, with its own wording for missing dates and for no data.
   */
  lemma PreviewMatchesExport(range: RangeInput, tf: Timeframe, symbol: string, fetched: DchartResponse)
    ensures var p := PreviewRows(range, tf, symbol, fetched, fetched);
      var e := ExportRows(range, tf, symbol, fetched);
      && (p.Ok? <==> e.Ok?)
      && (p.Ok? ==> p.value == e.value)
      && (e == Err(MissingExportDates) <==> p == Err(MissingPreviewDates))
      && (e == Err(NoDataReturned) <==> p == Err(NoDataToPreview))
      && (forall c :: e == Err(Fetch(c)) <==> p == Err(Fetch(c)))
  {
  }

  /**
   * `handleExport` up to the workbook: the rows (weekly bars built by the
   * grouping loop and the in-place bucket sorts), then the three enriched
   * price sheets of `exportWorkbook`.
   */
  method HandleExport(range: RangeInput, tf: Timeframe, symbol: string, fetched: DchartResponse,
                      libDaily: LibraryOutputs, libWeekly: LibraryOutputs, libMonthly: LibraryOutputs)
    returns (outcome: Result<(seq<EnrichedRow>, seq<EnrichedRow>, seq<EnrichedRow>), FormError>)
    ensures outcome.Err? <==> ExportRows(range, tf, symbol, fetched).Err?
    ensures outcome.Err? ==> outcome.error == ExportRows(range, tf, symbol, fetched).error
    ensures outcome.Ok? ==>
      var rows := ExportRows(range, tf, symbol, fetched).value;
      outcome.value == (Enriched(rows, libDaily),
                        Enriched(Aggregated(rows, Weekly), libWeekly),
                        Enriched(Aggregated(rows, Monthly), libMonthly))
  {
    if DatesMissing(range) {
      return Err(MissingExportDates);
    }
    var checked := Validate(fetched);
    if checked.Err? {
      return Err(Fetch(checked.error));
    }
    var resp := checked.value;
    var sym := NormalizeSymbol(symbol);
    var rows: seq<Row>;
    if tf == W {
      rows := WeeklyFromDaily(ZipItems(resp), sym);
    } else {
      rows := ZipRows(resp, sym);
    }
    if rows == [] {
      return Err(NoDataReturned);
    }
    var priceData, weeklyData, monthlyData := ExportSheets(rows, libDaily, libWeekly, libMonthly);
    outcome := Ok((priceData, weeklyData, monthlyData));
  }
}
