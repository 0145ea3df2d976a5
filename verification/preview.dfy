/**
 * PreviewModal.tsx: the rows shown (optionally filtered to one date), the
 * indicators attached to them without rounding, and the up/down class of a
 * table row. Reading `.MACD` or `.upper` of a library entry that does not
 * exist throws while rendering; that outcome is modelled as `Crashed`.
 */
module Preview {
  import opened Wrappers
  import opened Seqs
  import opened Grouping
  import opened Ohlcv
  import opened Series
  import opened Enrichment

  /** `filterDate ? data.filter(r => r.Date === filterDate) : data`; `None` is the empty filter. */
  function FilterRows(data: seq<Row>, filterDate: Option<int>): seq<Row>
  {
    match filterDate
    case None => data
    case Some(d) => Members(data, RowDate, d)
  }

  /** A date filter keeps every row of that date, as often as it occurs, and no other row. */
  lemma FilterExact(data: seq<Row>, d: int, x: Row)
    ensures multiset(FilterRows(data, Some(d)))[x] == if x.date == d then multiset(data)[x] else 0
  {
    MembersCount(data, RowDate, d, x);
  }

  /** Filtering keeps the original order: filtering two parts one after the other is filtering the whole. */
  lemma FilterKeepsOrder(a: seq<Row>, b: seq<Row>, filterDate: Option<int>)
    ensures FilterRows(a + b, filterDate) == FilterRows(a, filterDate) + FilterRows(b, filterDate)
  {
    if filterDate.Some? {
      MembersConcat(a, b, RowDate, filterDate.value);
    }
  }

  /** Row `i` reads an entry past the end of the MACD or the Bollinger output. */
  predicate ReadsMissingEntry(lib: LibraryOutputs, i: nat)
  {
    (25 <= i && i - 25 >= |lib.macd|) || (19 <= i && i - 19 >= |lib.bb|)
  }

  /** The indicators of row `i` as the modal attaches them: library values as they are, raw VWAP. */
  function PreviewIndicators(lib: LibraryOutputs, obv: real, vwap: Quotient, i: nat): Indicators
    requires !ReadsMissingEntry(lib, i)
  {
    Indicators(
      sma20 := Align(lib.sma20, 19, i),
      sma50 := Align(lib.sma50, 49, i),
      ema20 := Align(lib.ema20, 19, i),
      ema50 := Align(lib.ema50, 19, i),
      rsi14 := Align(lib.rsi14, 13, i),
      atr14 := Align(lib.atr14, 13, i),
      macd := if i >= 25 then lib.macd[i - 25].macd else None,
      signal := if i >= 25 then lib.macd[i - 25].signal else None,
      bbUpper := if i >= 19 then Some(lib.bb[i - 19].upper) else None,
      bbLower := if i >= 19 then Some(lib.bb[i - 19].lower) else None,
      obv := obv,
      vwap := Some(vwap))
  }

  /** What the modal renders: the no-data message, the table, or a thrown TypeError. */
  datatype PreviewView = NoData | Table(rows: seq<EnrichedRow>) | Crashed

  /** The table body: one row per shown row, with its OBV, its raw VWAP and the aligned library values. */
  function PreviewTable(rows: seq<Row>, lib: LibraryOutputs): seq<EnrichedRow>
    requires forall i: nat :: i < |rows| ==> !ReadsMissingEntry(lib, i)
  {
    seq(|rows|, i requires 0 <= i < |rows| =>
      EnrichedRow(rows[i], PreviewIndicators(lib, ObvAt(rows, i), VwapAt(rows, i), i)))
  }

  /** The modal's rendering of `data` under the date filter, given the library outputs for the filtered rows. */
  function Previewed(data: seq<Row>, filterDate: Option<int>, lib: LibraryOutputs): PreviewView
  {
    var rows := FilterRows(data, filterDate);
    if rows == [] then NoData
    else if exists i: nat :: i < |rows| && ReadsMissingEntry(lib, i) then Crashed
    else Table(PreviewTable(rows, lib))
  }

  /** The modal body: the filter, the no-data branch, the OBV and VWAP loops, then the alignment map. */
  method Render(data: seq<Row>, filterDate: Option<int>, lib: LibraryOutputs) returns (view: PreviewView)
    ensures view == Previewed(data, filterDate, lib)
  {
    var rows := FilterRows(data, filterDate);
    if rows == [] {
      return NoData;
    }
    var obv := ComputeObv(rows);
    var vwap := ComputeVwap(rows);
    if exists i: nat :: i < |rows| && ReadsMissingEntry(lib, i) {
      return Crashed;
    }
    view := Table(seq(|rows|, i requires 0 <= i < |rows| =>
      EnrichedRow(rows[i], PreviewIndicators(lib, obv[i], vwap[i], i))));
  }

  /** The no-data branch is taken exactly when the filter leaves no row. */
  lemma NoDataIffEmpty(data: seq<Row>, filterDate: Option<int>, lib: LibraryOutputs)
    ensures Previewed(data, filterDate, lib) == NoData <==> FilterRows(data, filterDate) == []
  {
  }

  /** Rendering throws exactly when there are more rows than the MACD or Bollinger output reaches. */
  lemma CrashIff(data: seq<Row>, filterDate: Option<int>, lib: LibraryOutputs)
    ensures var n := |FilterRows(data, filterDate)|;
      Previewed(data, filterDate, lib) == Crashed <==> n > 25 + |lib.macd| || n > 19 + |lib.bb|
  {
    var n := |FilterRows(data, filterDate)|;
    if n > 25 + |lib.macd| || n > 19 + |lib.bb| {
      assert ReadsMissingEntry(lib, n - 1);
    }
  }

  /** With library outputs as long as their warm-ups allow, a non-empty preview renders the table of the shown rows. */
  lemma NeverCrashes(data: seq<Row>, filterDate: Option<int>, lib: LibraryOutputs)
    requires FilterRows(data, filterDate) != []
    requires |lib.macd| >= |FilterRows(data, filterDate)| - 25
    requires |lib.bb| >= |FilterRows(data, filterDate)| - 19
    ensures Previewed(data, filterDate, lib).Table?
    ensures |Previewed(data, filterDate, lib).rows| == |FilterRows(data, filterDate)|
  {
    CrashIff(data, filterDate, lib);
  }

  /** The cell of an unrounded column with warm-up `off` at row `i`. */
  ghost predicate RawColumn(cell: Option<real>, arr: seq<real>, off: nat, i: nat)
  {
    if off <= i < off + |arr| then cell == Some(arr[i - off]) else cell == None
  }

  /** Table row `i` is the shown row `i`, unchanged, with its running OBV and its raw VWAP. */
  lemma PreviewRowAt(rows: seq<Row>, lib: LibraryOutputs, i: nat)
    requires forall j: nat :: j < |rows| ==> !ReadsMissingEntry(lib, j)
    requires i < |rows|
    ensures |PreviewTable(rows, lib)| == |rows|
    ensures PreviewTable(rows, lib)[i].row == rows[i]
    ensures PreviewTable(rows, lib)[i].ind.obv == ObvAt(rows, i)
    ensures PreviewTable(rows, lib)[i].ind.vwap == Some(VwapAt(rows, i))
  {
    assert !ReadsMissingEntry(lib, i);
  }

  /** Each library indicator of table row `i` is its entry `i - off`, unrounded, once the warm-up `off` is over. */
  lemma PreviewAlignment(rows: seq<Row>, lib: LibraryOutputs, i: nat)
    requires forall j: nat :: j < |rows| ==> !ReadsMissingEntry(lib, j)
    requires i < |rows|
    ensures var ind := PreviewTable(rows, lib)[i].ind;
      && RawColumn(ind.sma20, lib.sma20, 19, i)
      && RawColumn(ind.sma50, lib.sma50, 49, i)
      && RawColumn(ind.ema20, lib.ema20, 19, i)
      && RawColumn(ind.ema50, lib.ema50, 19, i)
      && RawColumn(ind.rsi14, lib.rsi14, 13, i)
      && RawColumn(ind.atr14, lib.atr14, 13, i)
    ensures var ind := PreviewTable(rows, lib)[i].ind;
      if i < 19 then ind.bbUpper == None && ind.bbLower == None
      else i - 19 < |lib.bb| && ind.bbUpper == Some(lib.bb[i - 19].upper) && ind.bbLower == Some(lib.bb[i - 19].lower)
    ensures var ind := PreviewTable(rows, lib)[i].ind;
      if i < 25 then ind.macd == None && ind.signal == None
      else i - 25 < |lib.macd| && ind.macd == lib.macd[i - 25].macd && ind.signal == lib.macd[i - 25].signal
  {
    assert !ReadsMissingEntry(lib, i);
    var ind := PreviewIndicators(lib, ObvAt(rows, i), VwapAt(rows, i), i);
    assert PreviewTable(rows, lib)[i].ind == ind;
  }

  /**
   * The workbook and the preview show the same indicators: on the same rows
   * and library outputs, each column of `enrich` is the preview's value
   * rounded to cents, and a NaN VWAP becomes undefined.
   */
  lemma WorkbookRoundsPreview(rows: seq<Row>, lib: LibraryOutputs, i: nat)
    requires forall j: nat :: j < |rows| ==> !ReadsMissingEntry(lib, j)
    requires i < |rows|
    ensures var p := PreviewTable(rows, lib)[i];
      var w := Enriched(rows, lib)[i];
      && w.row == p.row
      && w.ind.sma20 == Sml(p.ind.sma20) && w.ind.sma50 == Sml(p.ind.sma50)
      && w.ind.ema20 == Sml(p.ind.ema20) && w.ind.ema50 == Sml(p.ind.ema50)
      && w.ind.rsi14 == Sml(p.ind.rsi14) && w.ind.atr14 == Sml(p.ind.atr14)
      && w.ind.macd == Sml(p.ind.macd) && w.ind.signal == Sml(p.ind.signal)
      && w.ind.bbUpper == Sml(p.ind.bbUpper) && w.ind.bbLower == Sml(p.ind.bbLower)
      && w.ind.obv == p.ind.obv
      && w.ind.vwap == VwapCell(p.ind.vwap.value)
  {
    assert !ReadsMissingEntry(lib, i);
  }

  /** With constant prices `p` and positive volumes, every VWAP cell of the table is `p`. */
  lemma TableVwapConstant(rows: seq<Row>, lib: LibraryOutputs, p: real)
    requires forall j: nat :: j < |rows| ==> !ReadsMissingEntry(lib, j)
    requires forall r :: r in rows ==> r.high == p && r.low == p && r.close == p && r.volume > 0.0
    ensures forall e :: e in PreviewTable(rows, lib) ==> e.ind.vwap == Some(Finite(p))
  {
    var out := PreviewTable(rows, lib);
    forall e | e in out ensures e.ind.vwap == Some(Finite(p)) {
      var i :| 0 <= i < |out| && out[i] == e;
      VwapConstantPrice(rows, p, i);
    }
  }

  datatype RowClass = Up | Down

  /** The class of a table row. */
  function ClassOf(r: Row): (c: RowClass)
    ensures c == Up <==> r.close >= r.open
  {
    if r.close >= r.open then Up else Down
  }
}
