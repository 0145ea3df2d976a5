/**
 * `aggregate` of excel.ts: daily rows resampled into weekly or monthly bars.
 * Rows are bucketed by the Monday of their week or by their calendar month,
 * each bucket is reduced to one bar, and the bars are sorted by date.
 */
module Aggregation {
  import opened Seqs
  import opened Sorting
  import opened Grouping
  import opened Calendar
  import opened Ohlcv

  datatype Mode = Weekly | Monthly

  type MonthNumber = m: int | 1 <= m <= 12 witness 1

  /** A bucket key: the Monday of a week ("YYYY-MM-DD"), or a year and month ("YYYY-MM"). */
  datatype BucketKey = Week(monday: int) | Month(year: int, month: MonthNumber)

  /** The weekly key of a row: the Monday on or before its date. */
  function WeekKey(r: Row): (k: BucketKey)
    ensures k.Week? && Weekday(k.monday) == 1
    ensures k.monday <= r.date < k.monday + 7
  {
    Week(WeekStart(r.date))
  }

  /** The monthly key of a row: the year and month of its date. */
  function MonthKey(r: Row): (k: BucketKey)
    ensures k.Month?
    ensures FirstOfMonth(k.year, k.month) <= r.date < MonthEnd(k.year, k.month)
  {
    FirstOfMonthBelow(r.date);
    var c := CivilFromDays(r.date);
    Month(c.year, c.month)
  }

  function KeyOf(mode: Mode): Row -> BucketKey
  {
    if mode == Weekly then WeekKey else MonthKey
  }

  /** The date a bar is emitted with: the key itself when weekly, `key + "-01"` when monthly. */
  function KeyDate(k: BucketKey): int
  {
    match k
    case Week(monday) => monday
    case Month(y, m) => FirstOfMonth(y, m)
  }

  function TimeframeOf(mode: Mode): Timeframe
  {
    if mode == Weekly then W else M
  }

  /** The keys `mode` produces: Mondays when weekly, months when monthly. */
  ghost predicate KeyOfMode(mode: Mode, k: BucketKey)
  {
    (mode == Weekly ==> k.Week? && Weekday(k.monday) == 1) && (mode == Monthly ==> k.Month?)
  }

  /** The bar of bucket `k` with members `rs` (input order). */
  function Reduce(mode: Mode, k: BucketKey, rs: seq<Row>): Row
    requires rs != []
  {
    Row(KeyDate(k), rs[0].open, MaxOf(rs, RowHigh), MinOf(rs, RowLow), rs[|rs| - 1].close,
        Total(rs, RowVolume), rs[0].symbol, TimeframeOf(mode))
  }

  /** One bar per key of `ks`, in the order of `ks`. */
  function Bars(mode: Mode, rows: seq<Row>, ks: seq<BucketKey>): seq<Row>
    requires forall k :: k in ks ==> Members(rows, KeyOf(mode), k) != []
  {
    seq(|ks|, i requires 0 <= i < |ks| => Reduce(mode, ks[i], Members(rows, KeyOf(mode), ks[i])))
  }

  /** What `aggregate(rows, mode)` returns. */
  function Aggregated(rows: seq<Row>, mode: Mode): seq<Row>
  {
    SortBy(Bars(mode, rows, Keys(rows, KeyOf(mode))), RowDate)
  }

  /** `aggregate`: the grouping loop, the reduction of every bucket, the sort by date. */
  method Aggregate(rows: seq<Row>, mode: Mode) returns (out: seq<Row>)
    ensures out == Aggregated(rows, mode)
  {
    var order, groups := GroupBy(rows, KeyOf(mode));
    var bars := seq(|order|, i requires 0 <= i < |order| => Reduce(mode, order[i], groups[order[i]]));
    assert bars == Bars(mode, rows, order);
    out := SortBy(bars, RowDate);
  }

  // ------------------------------------------------------------ the keys

  /** Every key of a row is a key of the mode's kind. */
  lemma KeyOfRow(mode: Mode, r: Row)
    ensures KeyOfMode(mode, KeyOf(mode)(r))
  {
  }

  /** Every bucket of an aggregation has a key of the mode's kind. */
  lemma BucketKeyOfMode(rows: seq<Row>, mode: Mode, k: BucketKey)
    requires k in Keys(rows, KeyOf(mode))
    ensures KeyOfMode(mode, k)
  {
    var ms := Members(rows, KeyOf(mode), k);
    assert ms[0] in ms;
  }

  /** A bar's date read back gives its bucket's key again. */
  lemma KeyDateReadBack(mode: Mode, k: BucketKey, r: Row)
    requires KeyOfMode(mode, k)
    requires r.date == KeyDate(k)
    ensures KeyOf(mode)(r) == k
  {
    if mode == Weekly {
      WeekStartOfMonday(k.monday);
    } else {
      FirstOfMonthRoundTrip(k.year, k.month);
    }
  }

  /** Different keys of one mode are emitted with different dates. */
  lemma KeyDateInjective(mode: Mode, k1: BucketKey, k2: BucketKey)
    requires KeyOfMode(mode, k1) && KeyOfMode(mode, k2)
    requires k1 != k2
    ensures KeyDate(k1) != KeyDate(k2)
  {
    if mode == Monthly && KeyDate(k1) == KeyDate(k2) {
      FirstOfMonthInjective(k1.year, k1.month, k2.year, k2.month);
    }
  }

  // ------------------------------------------------------------ one bar

  /**
   * The bar of a bucket: dated at the bucket's Monday or first of the month,
   * no later than any member and falling in the same week or month as every
   * member; high and low the extremes of the members; volume their sum;
   * open, close and symbol from the first and last member in input order.
   */
  lemma BarSummary(mode: Mode, k: BucketKey, rs: seq<Row>)
    requires rs != []
    requires forall r :: r in rs ==> KeyOf(mode)(r) == k
    ensures var b := Reduce(mode, k, rs);
      && KeyOf(mode)(b) == k
      && (mode == Weekly ==> Weekday(b.date) == 1)
      && (mode == Monthly ==> CivilFromDays(b.date).day == 1)
      && (forall r :: r in rs ==> b.date <= r.date)
      && (forall r :: r in rs ==> b.low <= r.low && r.high <= b.high)
      && (exists r :: r in rs && b.high == r.high)
      && (exists r :: r in rs && b.low == r.low)
      && b.volume == Total(rs, RowVolume)
      && b.open == rs[0].open && b.close == rs[|rs| - 1].close && b.symbol == rs[0].symbol
      && b.timeframe == TimeframeOf(mode)
  {
    assert rs[0] in rs;
    KeyOfRow(mode, rs[0]);
    var b := Reduce(mode, k, rs);
    KeyDateReadBack(mode, k, b);
    if mode == Monthly {
      FirstOfMonthRoundTrip(k.year, k.month);
    }
  }

  // ------------------------------------------------------- the sequence

  /** Every bar of the output is the bar of one bucket. */
  lemma OutputBarOfBucket(rows: seq<Row>, mode: Mode, i: int) returns (k: BucketKey)
    requires 0 <= i < |Aggregated(rows, mode)|
    ensures k in Keys(rows, KeyOf(mode))
    ensures Aggregated(rows, mode)[i] == Reduce(mode, k, Members(rows, KeyOf(mode), k))
  {
    var ks := Keys(rows, KeyOf(mode));
    var bars := Bars(mode, rows, ks);
    var j := SortedFrom(bars, RowDate, i);
    k := ks[j];
  }

  /** Every bucket has its bar in the output: one bar per distinct key. */
  lemma BucketBarInOutput(rows: seq<Row>, mode: Mode, k: BucketKey)
    requires k in Keys(rows, KeyOf(mode))
    ensures |Aggregated(rows, mode)| == |Keys(rows, KeyOf(mode))|
    ensures Reduce(mode, k, Members(rows, KeyOf(mode), k)) in Aggregated(rows, mode)
  {
    var ks := Keys(rows, KeyOf(mode));
    var bars := Bars(mode, rows, ks);
    var j :| 0 <= j < |ks| && ks[j] == k;
    assert bars[j] in multiset(Aggregated(rows, mode));
  }

  /** The output is strictly ascending by date: no two bars share a date. */
  lemma AggregatedStrictlyAscending(rows: seq<Row>, mode: Mode)
    ensures StrictlySortedBy(Aggregated(rows, mode), RowDate)
  {
    var ks := Keys(rows, KeyOf(mode));
    var bars := Bars(mode, rows, ks);
    forall i, j | 0 <= i < j < |bars| ensures RowDate(bars[i]) != RowDate(bars[j]) {
      BucketKeyOfMode(rows, mode, ks[i]);
      BucketKeyOfMode(rows, mode, ks[j]);
      KeyDateInjective(mode, ks[i], ks[j]);
    }
    SortByStrict(bars, RowDate);
  }

  /** The bars of keys `ks` carry as much volume as their buckets together. */
  lemma BarsVolume(mode: Mode, rows: seq<Row>, ks: seq<BucketKey>)
    requires forall k :: k in ks ==> Members(rows, KeyOf(mode), k) != []
    ensures Total(Bars(mode, rows, ks), RowVolume) == BucketTotals(ks, rows, KeyOf(mode), RowVolume)
  {
    TotalPerBucket(Bars(mode, rows, ks), RowVolume, ks, rows, KeyOf(mode), RowVolume);
  }

  /** Resampling conserves volume: the bars together hold exactly the volume of the input rows. */
  lemma AggregatedVolume(rows: seq<Row>, mode: Mode)
    ensures Total(Aggregated(rows, mode), RowVolume) == Total(rows, RowVolume)
  {
    var ks := Keys(rows, KeyOf(mode));
    SortByTotal(Bars(mode, rows, ks), RowDate, RowVolume);
    BarsVolume(mode, rows, ks);
    BucketsPartition(rows, KeyOf(mode), RowVolume);
  }

  /**
   * On input sorted by date (as the API returns it), a bar opens at the open
   * of the earliest row of its bucket and closes at the close of the latest.
   */
  lemma AscendingOpenClose(rows: seq<Row>, mode: Mode, k: BucketKey)
    requires SortedBy(rows, RowDate)
    requires Members(rows, KeyOf(mode), k) != []
    ensures var ms := Members(rows, KeyOf(mode), k);
      ms[0] in rows && ms[|ms| - 1] in rows
    ensures var ms := Members(rows, KeyOf(mode), k);
      forall x :: x in ms ==> RowDate(ms[0]) <= RowDate(x) <= RowDate(ms[|ms| - 1])
    ensures var ms := Members(rows, KeyOf(mode), k);
      Reduce(mode, k, ms).open == ms[0].open && Reduce(mode, k, ms).close == ms[|ms| - 1].close
  {
    var ms := Members(rows, KeyOf(mode), k);
    assert ms[0] in ms && ms[|ms| - 1] in ms;
    SortedBucketEnds(rows, KeyOf(mode), k, RowDate);
  }

  /** The bar of a bucket holding only `r`, where `r` is dated at its own bucket date, is `r`. */
  lemma SingletonBar(mode: Mode, r: Row)
    requires KeyDate(KeyOf(mode)(r)) == r.date
    requires r.timeframe == TimeframeOf(mode)
    ensures Reduce(mode, KeyOf(mode)(r), [r]) == r
  {
    assert [r][..0] == [];
    assert Total([r], RowVolume) == r.volume;
    assert MaxOf([r], RowHigh) == r.high && MinOf([r], RowLow) == r.low;
  }

  /**
   * Rows that already are bars of `mode` (ascending, each dated at its own
   * bucket date, with the mode's timeframe) come back unchanged.
   */
  lemma AggregateFixedPoint(rows: seq<Row>, mode: Mode)
    requires StrictlySortedBy(rows, RowDate)
    requires forall i :: 0 <= i < |rows| ==> KeyDate(KeyOf(mode)(rows[i])) == rows[i].date
    requires forall i :: 0 <= i < |rows| ==> rows[i].timeframe == TimeframeOf(mode)
    ensures Aggregated(rows, mode) == rows
  {
    var key := KeyOf(mode);
    SingletonBuckets(rows, key);
    var ks := Keys(rows, key);
    var bars := Bars(mode, rows, ks);
    forall i | 0 <= i < |rows| ensures bars[i] == rows[i] {
      SingletonBar(mode, rows[i]);
    }
    assert bars == rows;
    SortBySortedIdentity(rows, RowDate);
  }

  /** Resampling a resampled sequence again with the same mode changes nothing. */
  lemma AggregateIdempotent(rows: seq<Row>, mode: Mode)
    ensures Aggregated(Aggregated(rows, mode), mode) == Aggregated(rows, mode)
  {
    var out := Aggregated(rows, mode);
    AggregatedStrictlyAscending(rows, mode);
    forall i | 0 <= i < |out|
      ensures KeyDate(KeyOf(mode)(out[i])) == out[i].date
      ensures out[i].timeframe == TimeframeOf(mode)
    {
      var k := OutputBarOfBucket(rows, mode, i);
      BucketKeyOfMode(rows, mode, k);
      KeyDateReadBack(mode, k, out[i]);
    }
    AggregateFixedPoint(out, mode);
  }
}
