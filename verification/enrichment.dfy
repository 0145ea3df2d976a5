/**
 * `enrich`, `sml` and `exportWorkbook` of excel.ts: every row gets the
 * library indicators aligned to its index and rounded to cents, plus the
 * hand-computed OBV and VWAP; the workbook holds the enriched daily, weekly
 * and monthly sequences.
 */
module Enrichment {
  import opened Wrappers
  import opened Seqs
  import opened Ohlcv
  import opened Series
  import opened Aggregation

  /**
   * `toFixed(2)` on a non-negative value: the whole number of cents nearest
   * to `y`, the larger one when `y` lies halfway.
   */
  function HalfUp(y: real): (r: real)
    ensures y - 0.005 < r <= y + 0.005
    ensures (r * 100.0).Floor as real == r * 100.0
  {
    ((y * 100.0 + 0.5).Floor as real) / 100.0
  }

  /**
   * `Number(x.toFixed(2))` on an exact value. `toFixed` writes the sign first
   * and rounds the magnitude, so a value halfway between two cents goes to the
   * one farther from zero: 0.125 becomes 0.13 and -0.125 becomes -0.13.
   */
  function Round2(x: real): (r: real)
    ensures x >= 0.0 ==> x - 0.005 < r <= x + 0.005
    ensures x < 0.0 ==> x - 0.005 <= r < x + 0.005
    ensures (r * 100.0).Floor as real == r * 100.0
  {
    if x < 0.0 then
      var h := HalfUp(-x);
      NegatedCents(h);
      -h
    else HalfUp(x)
  }

  /** The negation of a whole number of cents is a whole number of cents. */
  lemma NegatedCents(h: real)
    requires (h * 100.0).Floor as real == h * 100.0
    ensures ((-h) * 100.0).Floor as real == (-h) * 100.0
  {
    var k := (h * 100.0).Floor;
    assert (-h) * 100.0 == (-k) as real;
  }

  /** Rounding depends on the magnitude only: a value and its negation round to opposite cents. */
  lemma Round2Symmetric(x: real)
    ensures Round2(-x) == -Round2(x)
  {
  }

  /** Ties go away from zero on both sides. */
  lemma Round2Ties()
    ensures Round2(0.125) == 0.13 && Round2(-0.125) == -0.13
  {
    assert (0.125 * 100.0 + 0.5).Floor == 13;
  }

  /** A whole number of cents is its own rounding. */
  lemma HalfUpOfCents(c: int)
    requires c >= 0
    ensures HalfUp(c as real / 100.0) == c as real / 100.0
  {
    assert (c as real / 100.0) * 100.0 + 0.5 == c as real + 0.5;
    assert (c as real + 0.5).Floor == c;
  }

  /** Rounding a value already in whole cents leaves it as it is. */
  lemma Round2Idempotent(x: real)
    ensures Round2(Round2(x)) == Round2(x)
  {
    var r := Round2(x);
    var c := (r * 100.0).Floor;
    assert r == c as real / 100.0;
    if c >= 0 {
      HalfUpOfCents(c);
    } else {
      HalfUpOfCents(-c);
      assert -r == (-c) as real / 100.0;
    }
  }

  /** `sml`: undefined stays undefined, a number is rounded to cents. */
  function Sml(v: Option<real>): (r: Option<real>)
    ensures r.Some? <==> v.Some?
    ensures r.Some? ==> v.value - 0.005 <= r.value <= v.value + 0.005
  {
    match v
    case None => None
    case Some(x) => Some(Round2(x))
  }

  /**
   * The VWAP column: `undefined` for NaN, otherwise the value rounded to
   * cents. An infinity stays one, as `Infinity.toFixed(2)` is "Infinity".
   */
  function VwapCell(q: Quotient): (c: Option<Quotient>)
    ensures c.None? <==> q.NaN?
    ensures q.Finite? ==> c == Some(Finite(Round2(q.value)))
    ensures q.Infinite? ==> c == Some(q)
  {
    match q
    case NaN => None
    case Finite(v) => Some(Finite(Round2(v)))
    case Infinite(_) => Some(q)
  }

  /** The indicator fields of row `i`, given the library outputs and the row's OBV and VWAP. */
  function RowIndicators(lib: LibraryOutputs, obv: real, vwap: Quotient, i: nat): Indicators
  {
    var m := Align(lib.macd, 25, i);
    var b := Align(lib.bb, 19, i);
    Indicators(
      sma20 := Sml(Align(lib.sma20, 19, i)),
      sma50 := Sml(Align(lib.sma50, 49, i)),
      ema20 := Sml(Align(lib.ema20, 19, i)),
      ema50 := Sml(Align(lib.ema50, 19, i)),
      rsi14 := Sml(Align(lib.rsi14, 13, i)),
      atr14 := Sml(Align(lib.atr14, 13, i)),
      macd := if m.Some? then Sml(m.value.macd) else None,
      signal := if m.Some? then Sml(m.value.signal) else None,
      bbUpper := if b.Some? then Sml(Some(b.value.upper)) else None,
      bbLower := if b.Some? then Sml(Some(b.value.lower)) else None,
      obv := obv,
      vwap := VwapCell(vwap))
  }

  /** What `enrich(rows)` returns when the indicator library returns `lib`. */
  function Enriched(rows: seq<Row>, lib: LibraryOutputs): seq<EnrichedRow>
  {
    seq(|rows|, i requires 0 <= i < |rows| =>
      EnrichedRow(rows[i], RowIndicators(lib, ObvAt(rows, i), VwapAt(rows, i), i)))
  }

  /** `enrich`: the OBV loop, the VWAP loop, then one enriched row per input row. */
  method Enrich(rows: seq<Row>, lib: LibraryOutputs) returns (out: seq<EnrichedRow>)
    ensures out == Enriched(rows, lib)
  {
    var obv := ComputeObv(rows);
    var vwap := ComputeVwap(rows);
    out := seq(|rows|, i requires 0 <= i < |rows| => EnrichedRow(rows[i], RowIndicators(lib, obv[i], vwap[i], i)));
  }

  /** The rows of an enriched sequence. */
  function SheetRows(sheet: seq<EnrichedRow>): seq<Row>
  {
    MapSeq(sheet, (e: EnrichedRow) => e.row)
  }

  /** Enrichment keeps every row, in order, with its own fields unchanged. */
  lemma EnrichedKeepsRows(rows: seq<Row>, lib: LibraryOutputs)
    ensures |Enriched(rows, lib)| == |rows|
    ensures SheetRows(Enriched(rows, lib)) == rows
  {
  }

  /**
   * The column of an indicator with warm-up `off` at row `i`: the library's
   * entry `i - off` rounded to cents while there is one, undefined before
   * row `off` and past the end of the library's output.
   */
  ghost predicate AlignedColumn(cell: Option<real>, arr: seq<real>, off: nat, i: nat)
  {
    if off <= i < off + |arr| then cell == Some(Round2(arr[i - off])) else cell == None
  }

  /** The alignment of every library indicator, with its warm-up offset. */
  lemma EnrichedAlignment(rows: seq<Row>, lib: LibraryOutputs, i: nat)
    requires i < |rows|
    ensures var ind := Enriched(rows, lib)[i].ind;
      && AlignedColumn(ind.sma20, lib.sma20, 19, i)
      && AlignedColumn(ind.sma50, lib.sma50, 49, i)
      && AlignedColumn(ind.ema20, lib.ema20, 19, i)
      && AlignedColumn(ind.ema50, lib.ema50, 19, i)
      && AlignedColumn(ind.rsi14, lib.rsi14, 13, i)
      && AlignedColumn(ind.atr14, lib.atr14, 13, i)
      && AlignedColumn(ind.bbUpper, MapSeq(lib.bb, (p: BandPoint) => p.upper), 19, i)
      && AlignedColumn(ind.bbLower, MapSeq(lib.bb, (p: BandPoint) => p.lower), 19, i)
      && (if 25 <= i < 25 + |lib.macd|
          then ind.macd == Sml(lib.macd[i - 25].macd) && ind.signal == Sml(lib.macd[i - 25].signal)
          else ind.macd == None && ind.signal == None)
  {
  }

  /** No indicator is set before its warm-up is over. */
  lemma EnrichedWarmUp(rows: seq<Row>, lib: LibraryOutputs, i: nat)
    requires i < |rows|
    ensures var ind := Enriched(rows, lib)[i].ind;
      && (i < 13 ==> ind.rsi14.None? && ind.atr14.None?)
      && (i < 19 ==> ind.sma20.None? && ind.ema20.None? && ind.ema50.None? && ind.bbUpper.None? && ind.bbLower.None?)
      && (i < 25 ==> ind.macd.None? && ind.signal.None?)
      && (i < 49 ==> ind.sma50.None?)
  {
  }

  /**
   * The two Bollinger bands are always set on the same rows; MACD and its
   * signal are too, unless the entry the row reads defines only one of them.
   */
  lemma EnrichedPairsTogether(rows: seq<Row>, lib: LibraryOutputs, i: nat)
    requires i < |rows|
    ensures Enriched(rows, lib)[i].ind.bbUpper.Some? <==> Enriched(rows, lib)[i].ind.bbLower.Some?
    ensures (25 <= i < 25 + |lib.macd| ==> (lib.macd[i - 25].macd.Some? <==> lib.macd[i - 25].signal.Some?))
      ==> (Enriched(rows, lib)[i].ind.macd.Some? <==> Enriched(rows, lib)[i].ind.signal.Some?)
  {
  }

  /** Bands the library orders stay ordered after rounding: the lower band never exceeds the upper. */
  lemma EnrichedBandsOrdered(rows: seq<Row>, lib: LibraryOutputs, i: nat)
    requires i < |rows|
    requires forall j :: 0 <= j < |lib.bb| ==> lib.bb[j].lower <= lib.bb[j].upper
    ensures var ind := Enriched(rows, lib)[i].ind;
      ind.bbUpper.Some? ==> ind.bbLower.Some? && ind.bbLower.value <= ind.bbUpper.value
  {
    if 19 <= i < 19 + |lib.bb| {
      RoundMonotone(lib.bb[i - 19].lower, lib.bb[i - 19].upper);
    }
  }

  /** Rounding to cents keeps order. */
  lemma RoundMonotone(x: real, y: real)
    requires x <= y
    ensures Round2(x) <= Round2(y)
  {
    if 0.0 <= x {
      HalfUpMonotone(x, y);
    } else if y < 0.0 {
      HalfUpMonotone(-y, -x);
    }
  }

  /** HalfUp keeps order. */
  lemma HalfUpMonotone(x: real, y: real)
    requires x <= y
    ensures HalfUp(x) <= HalfUp(y)
  {
    assert (x * 100.0 + 0.5).Floor <= (y * 100.0 + 0.5).Floor;
  }

  /**
   * Each library output as long as its warm-up allows (one entry per row
   * from row `off` on) leaves no gap in its column after the warm-up. Each
   * column is conditioned on its own output only; EMA50, read at offset 19,
   * is covered by Ema50Window.
   */
  lemma EnrichedComplete(rows: seq<Row>, lib: LibraryOutputs)
    ensures |lib.sma20| >= |rows| - 19 ==> forall i :: 19 <= i < |rows| ==> Enriched(rows, lib)[i].ind.sma20.Some?
    ensures |lib.sma50| >= |rows| - 49 ==> forall i :: 49 <= i < |rows| ==> Enriched(rows, lib)[i].ind.sma50.Some?
    ensures |lib.ema20| >= |rows| - 19 ==> forall i :: 19 <= i < |rows| ==> Enriched(rows, lib)[i].ind.ema20.Some?
    ensures |lib.rsi14| >= |rows| - 13 ==> forall i :: 13 <= i < |rows| ==> Enriched(rows, lib)[i].ind.rsi14.Some?
    ensures |lib.atr14| >= |rows| - 13 ==> forall i :: 13 <= i < |rows| ==> Enriched(rows, lib)[i].ind.atr14.Some?
    ensures |lib.bb| >= |rows| - 19 ==> forall i :: 19 <= i < |rows| ==>
      Enriched(rows, lib)[i].ind.bbUpper.Some? && Enriched(rows, lib)[i].ind.bbLower.Some?
    ensures |lib.macd| >= |rows| - 25 ==> forall i :: 25 <= i < |rows| ==>
      (Enriched(rows, lib)[i].ind.macd.Some? <==> lib.macd[i - 25].macd.Some?)
  {
  }

  /**
   * EMA50 is read at offset 19 although a 50-period EMA has only
   * `|rows| - 49` entries: it then appears from row 19 on and stops 30 rows
   * before the end, each value belonging to a row 30 places later.
   */
  lemma Ema50Window(rows: seq<Row>, lib: LibraryOutputs)
    requires |rows| >= 50 && |lib.ema50| == |rows| - 49
    ensures forall i :: 0 <= i < |rows| ==>
      (Enriched(rows, lib)[i].ind.ema50.Some? <==> 19 <= i < |rows| - 30)
  {
  }

  /** OBV and VWAP of every row are the running sums of the rows up to it. */
  lemma EnrichedObvVwap(rows: seq<Row>, lib: LibraryOutputs, i: nat)
    requires i < |rows|
    ensures Enriched(rows, lib)[i].ind.obv == ObvAt(rows, i)
    ensures Enriched(rows, lib)[i].ind.vwap == VwapCell(VwapAt(rows, i))
  {
  }

  /**
   * With non-negative volumes the VWAP column is undefined exactly while no
   * volume has traded, and is otherwise a finite value in whole cents
   * between the roundings of the least and greatest typical price seen so far.
   */
  lemma EnrichedVwapDefined(rows: seq<Row>, lib: LibraryOutputs, i: nat, lo: real, hi: real)
    requires i < |rows|
    requires forall j :: 0 <= j < |rows| ==> rows[j].volume >= 0.0
    requires forall j :: 0 <= j <= i ==> lo <= TypicalPrice(rows[j]) <= hi
    ensures Enriched(rows, lib)[i].ind.vwap.None? <==> CumVol(rows, i) == 0.0
    ensures Enriched(rows, lib)[i].ind.vwap.Some? ==>
      && Enriched(rows, lib)[i].ind.vwap.value.Finite?
      && Round2(lo) <= Enriched(rows, lib)[i].ind.vwap.value.value <= Round2(hi)
  {
    VwapNaNOnlyWithoutVolume(rows, i);
    NoVolumeNoPV(rows, i);
    if CumVol(rows, i) != 0.0 {
      VwapWithinRange(rows, i, lo, hi);
      var v := VwapAt(rows, i).value;
      RoundMonotone(lo, v);
      RoundMonotone(v, hi);
    }
  }

  /**
   * `exportWorkbook`: the PriceData sheet is the enriched daily rows, the
   * WeeklyData and MonthlyData sheets the enriched weekly and monthly bars
   * (each sequence with the library outputs computed from its own closes).
   */
  method ExportSheets(daily: seq<Row>, libDaily: LibraryOutputs, libWeekly: LibraryOutputs, libMonthly: LibraryOutputs)
    returns (priceData: seq<EnrichedRow>, weeklyData: seq<EnrichedRow>, monthlyData: seq<EnrichedRow>)
    ensures priceData == Enriched(daily, libDaily)
    ensures weeklyData == Enriched(Aggregated(daily, Weekly), libWeekly)
    ensures monthlyData == Enriched(Aggregated(daily, Monthly), libMonthly)
  {
    priceData := Enrich(daily, libDaily);
    var weeklyRaw := Aggregate(daily, Weekly);
    weeklyData := Enrich(weeklyRaw, libWeekly);
    var monthlyRaw := Aggregate(daily, Monthly);
    monthlyData := Enrich(monthlyRaw, libMonthly);
  }

  /** The three price sheets report the same total volume: that of the daily rows. */
  lemma SheetsAgree(daily: seq<Row>, libDaily: LibraryOutputs, libWeekly: LibraryOutputs, libMonthly: LibraryOutputs)
    ensures var total := Total(SheetRows(Enriched(daily, libDaily)), RowVolume);
      && Total(SheetRows(Enriched(Aggregated(daily, Weekly), libWeekly)), RowVolume) == total
      && Total(SheetRows(Enriched(Aggregated(daily, Monthly), libMonthly)), RowVolume) == total
      && Total(daily, RowVolume) == total
  {
    EnrichedKeepsRows(daily, libDaily);
    EnrichedKeepsRows(Aggregated(daily, Weekly), libWeekly);
    EnrichedKeepsRows(Aggregated(daily, Monthly), libMonthly);
    AggregatedVolume(daily, Weekly);
    AggregatedVolume(daily, Monthly);
  }
}
