/**
 * The records of types.ts. A row's `Date` ("YYYY-MM-DD") is held as its UTC
 * day number, prices and volume as exact reals.
 */
module Ohlcv {
  import opened Wrappers

  /** `Timeframe` is declared as "D" | "W"; the monthly aggregation also emits "M" through a cast. */
  datatype Timeframe = D | W | M

  /** The always-present fields of `OhlcvRow`. */
  datatype Row = Row(
    date: int,
    open: real,
    high: real,
    low: real,
    close: real,
    volume: real,
    symbol: string,
    timeframe: Timeframe)

  /** The sort key of rows. */
  function RowDate(r: Row): int { r.date }

  function RowOpen(r: Row): real { r.open }

  function RowHigh(r: Row): real { r.high }

  function RowLow(r: Row): real { r.low }

  function RowClose(r: Row): real { r.close }

  /** The weight summed by the volume reduction. */
  function RowVolume(r: Row): real { r.volume }

  /** A JavaScript number produced by `/`: finite, NaN (from 0/0) or an infinity (from x/0). */
  datatype Quotient = Finite(value: real) | NaN | Infinite(positive: bool)

  /** `a / b` with JavaScript's rules for a zero divisor. */
  function Divide(a: real, b: real): (q: Quotient)
    ensures q.Finite? <==> b != 0.0
    ensures q.Finite? ==> q.value * b == a
    ensures q.NaN? <==> a == 0.0 && b == 0.0
    ensures q.Infinite? ==> q.positive == (a > 0.0)
  {
    if b != 0.0 then Finite(a / b) else if a == 0.0 then NaN else Infinite(a > 0.0)
  }

  /**
   * The optional indicator fields of `OhlcvRow` (excel.ts) and of
   * `RowWithIndicators` (PreviewModal.tsx); `None` is `undefined`.
   */
  datatype Indicators = Indicators(
    sma20: Option<real>,
    sma50: Option<real>,
    ema20: Option<real>,
    ema50: Option<real>,
    rsi14: Option<real>,
    atr14: Option<real>,
    macd: Option<real>,
    signal: Option<real>,
    bbUpper: Option<real>,
    bbLower: Option<real>,
    obv: real,
    vwap: Option<Quotient>)

  /** `{ ...r, <indicators> }`: the row's own fields, unchanged, plus the indicators. */
  datatype EnrichedRow = EnrichedRow(row: Row, ind: Indicators)
}
