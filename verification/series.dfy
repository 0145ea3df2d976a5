/**
 * The indicator inputs and the two running indicators both excel.ts
 * (`enrich`) and PreviewModal.tsx compute by hand: on-balance volume and
 * volume-weighted average price, each built by one loop over the rows.
 */
module Series {
  import opened Wrappers
  import opened Ohlcv

  /** An entry of the MACD library output; its `MACD` and `signal` fields may be undefined. */
  datatype MacdPoint = MacdPoint(macd: Option<real>, signal: Option<real>)

  /** The two fields used of a Bollinger Bands library output entry. */
  datatype BandPoint = BandPoint(upper: real, lower: real)

  /**
   * The arrays the indicator library returns for one row sequence. They are
   * inputs here: only where each entry lands is modelled, not how it is computed.
   */
  datatype LibraryOutputs = LibraryOutputs(
    sma20: seq<real>,
    sma50: seq<real>,
    ema20: seq<real>,
    ema50: seq<real>,
    rsi14: seq<real>,
    atr14: seq<real>,
    macd: seq<MacdPoint>,
    bb: seq<BandPoint>)

  /** `arr[i - off]` read at row `i`: present from row `off` on, while the entry exists. */
  function Align<T>(arr: seq<T>, off: nat, i: nat): Option<T>
  {
    if off <= i && i - off < |arr| then Some(arr[i - off]) else None
  }

  // ---------------------------------------------------------------- OBV

  /** What row `i` adds to OBV: its volume on a higher close, minus it on a lower close, else nothing. */
  function SignedVolume(rows: seq<Row>, i: nat): real
    requires 0 < i < |rows|
  {
    if rows[i].close > rows[i - 1].close then rows[i].volume
    else if rows[i].close < rows[i - 1].close then -rows[i].volume
    else 0.0
  }

  /** On-balance volume at row `i`: 0 at row 0, then the running sum of signed volumes. */
  function ObvAt(rows: seq<Row>, i: nat): real
    requires i < |rows|
  {
    if i == 0 then 0.0 else ObvAt(rows, i - 1) + SignedVolume(rows, i)
  }

  /** The OBV loop: `prevObv` carried from row to row, one entry pushed per row. */
  method ComputeObv(rows: seq<Row>) returns (obv: seq<real>)
    ensures |obv| == |rows|
    ensures forall i :: 0 <= i < |rows| ==> obv[i] == ObvAt(rows, i)
  {
    obv := [];
    var prevObv := 0.0;
    var i := 0;
    while i < |rows|
      invariant 0 <= i <= |rows|
      invariant |obv| == i
      invariant forall j :: 0 <= j < i ==> obv[j] == ObvAt(rows, j)
      invariant prevObv == if i == 0 then 0.0 else ObvAt(rows, i - 1)
    {
      if i > 0 {
        if rows[i].close > rows[i - 1].close {
          prevObv := prevObv + rows[i].volume;
        } else if rows[i].close < rows[i - 1].close {
          prevObv := prevObv - rows[i].volume;
        }
      }
      assert prevObv == ObvAt(rows, i);
      obv := obv + [prevObv];
      i := i + 1;
    }
  }

  /** Closes that rise at every row, at constant volume `v`, give OBV `i * v` at row `i`. */
  lemma {:induction false} ObvRising(rows: seq<Row>, v: real, i: nat)
    requires i < |rows|
    requires forall j :: 0 < j < |rows| ==> rows[j - 1].close < rows[j].close
    requires forall j :: 0 <= j < |rows| ==> rows[j].volume == v
    ensures ObvAt(rows, i) == (i as real) * v
  {
    if i > 0 {
      ObvRising(rows, v, i - 1);
    }
  }

  /** Volume summed over rows `1..i`, the rows that can move OBV. */
  function VolumeAfterFirst(rows: seq<Row>, i: nat): real
    requires i < |rows|
  {
    if i == 0 then 0.0 else VolumeAfterFirst(rows, i - 1) + rows[i].volume
  }

  /** With non-negative volumes, OBV never moves further from 0 than the volume traded since row 0. */
  lemma {:induction false} ObvBounded(rows: seq<Row>, i: nat)
    requires i < |rows|
    requires forall j :: 0 <= j < |rows| ==> rows[j].volume >= 0.0
    ensures -VolumeAfterFirst(rows, i) <= ObvAt(rows, i) <= VolumeAfterFirst(rows, i)
  {
    if i > 0 {
      ObvBounded(rows, i - 1);
    }
  }

  // --------------------------------------------------------------- VWAP

  /** `(high + low + close) / 3`. */
  function TypicalPrice(r: Row): real
  {
    (r.high + r.low + r.close) / 3.0
  }

  /** `cumPV` after row `i`: the sum of typical price times volume over rows `0..i`. */
  function CumPV(rows: seq<Row>, i: nat): real
    requires i < |rows|
  {
    (if i == 0 then 0.0 else CumPV(rows, i - 1)) + TypicalPrice(rows[i]) * rows[i].volume
  }

  /** `cumVol` after row `i`: the sum of the volumes of rows `0..i`. */
  function CumVol(rows: seq<Row>, i: nat): real
    requires i < |rows|
  {
    (if i == 0 then 0.0 else CumVol(rows, i - 1)) + rows[i].volume
  }

  /** VWAP at row `i`: `cumPV / cumVol` with JavaScript's division. */
  function VwapAt(rows: seq<Row>, i: nat): Quotient
    requires i < |rows|
  {
    Divide(CumPV(rows, i), CumVol(rows, i))
  }

  /** The VWAP loop: `cumPV` and `cumVol` carried from row to row, one ratio pushed per row. */
  method ComputeVwap(rows: seq<Row>) returns (vwap: seq<Quotient>)
    ensures |vwap| == |rows|
    ensures forall i :: 0 <= i < |rows| ==> vwap[i] == VwapAt(rows, i)
  {
    vwap := [];
    var cumPV, cumVol := 0.0, 0.0;
    var i := 0;
    while i < |rows|
      invariant 0 <= i <= |rows|
      invariant |vwap| == i
      invariant forall j :: 0 <= j < i ==> vwap[j] == VwapAt(rows, j)
      invariant cumPV == if i == 0 then 0.0 else CumPV(rows, i - 1)
      invariant cumVol == if i == 0 then 0.0 else CumVol(rows, i - 1)
    {
      var tp := (rows[i].high + rows[i].low + rows[i].close) / 3.0;
      assert tp == TypicalPrice(rows[i]);
      cumPV := cumPV + tp * rows[i].volume;
      cumVol := cumVol + rows[i].volume;
      assert cumPV == CumPV(rows, i) && cumVol == CumVol(rows, i);
      var q := Divide(cumPV, cumVol);
      assert q == VwapAt(rows, i);
      vwap := vwap + [q];
      i := i + 1;
    }
  }

  /** When every typical price is `p`, the cumulative price-volume is `p` times the cumulative volume. */
  lemma {:induction false} CumPVConstant(rows: seq<Row>, p: real, i: nat)
    requires i < |rows|
    requires forall j :: 0 <= j < |rows| ==> TypicalPrice(rows[j]) == p
    ensures CumPV(rows, i) == p * CumVol(rows, i)
  {
    if i > 0 {
      CumPVConstant(rows, p, i - 1);
    }
  }

  /** Constant prices `high = low = close = p` and positive volumes give VWAP `p` at every row. */
  lemma VwapConstantPrice(rows: seq<Row>, p: real, i: nat)
    requires i < |rows|
    requires forall j :: 0 <= j < |rows| ==> rows[j].high == p && rows[j].low == p && rows[j].close == p
    requires forall j :: 0 <= j < |rows| ==> rows[j].volume > 0.0
    ensures VwapAt(rows, i) == Finite(p)
  {
    CumPVConstant(rows, p, i);
    CumVolPositive(rows, i);
  }

  lemma {:induction false} CumVolPositive(rows: seq<Row>, i: nat)
    requires i < |rows|
    requires forall j :: 0 <= j < |rows| ==> rows[j].volume > 0.0
    ensures CumVol(rows, i) > 0.0
  {
    if i > 0 {
      CumVolPositive(rows, i - 1);
    }
  }

  /** The cumulative price-volume lies between `lo` and `hi` times the cumulative volume. */
  lemma {:induction false} CumPVBetween(rows: seq<Row>, i: nat, lo: real, hi: real)
    requires i < |rows|
    requires forall j :: 0 <= j <= i ==> rows[j].volume >= 0.0 && lo <= TypicalPrice(rows[j]) <= hi
    ensures lo * CumVol(rows, i) <= CumPV(rows, i) <= hi * CumVol(rows, i)
  {
    assert rows[i].volume >= 0.0 && lo <= TypicalPrice(rows[i]) <= hi;
    if i > 0 {
      CumPVBetween(rows, i - 1, lo, hi);
    }
    CumPVBetweenStep(rows, i, lo, hi);
  }

  /** The bound on the running sums carries over from row `i - 1` to row `i`. */
  lemma CumPVBetweenStep(rows: seq<Row>, i: nat, lo: real, hi: real)
    requires i < |rows|
    requires rows[i].volume >= 0.0 && lo <= TypicalPrice(rows[i]) <= hi
    requires i > 0 ==> lo * CumVol(rows, i - 1) <= CumPV(rows, i - 1) <= hi * CumVol(rows, i - 1)
    ensures lo * CumVol(rows, i) <= CumPV(rows, i) <= hi * CumVol(rows, i)
  {
    var pv := if i == 0 then 0.0 else CumPV(rows, i - 1);
    var vol := if i == 0 then 0.0 else CumVol(rows, i - 1);
    BetweenStep(lo, hi, pv, vol, TypicalPrice(rows[i]), rows[i].volume, CumPV(rows, i), CumVol(rows, i));
  }

  /** Adding `tp * v`, with `tp` between `lo` and `hi`, keeps a running sum between `lo` and `hi` times the running volume. */
  lemma BetweenStep(lo: real, hi: real, pv: real, vol: real, tp: real, v: real, pv': real, vol': real)
    requires lo * vol <= pv <= hi * vol
    requires v >= 0.0 && lo <= tp <= hi
    requires pv' == pv + tp * v && vol' == vol + v
    ensures lo * vol' <= pv' <= hi * vol'
  {
    ScaledBetween(lo, tp, hi, v);
    Distribute(lo, vol, v);
    Distribute(hi, vol, v);
  }

  lemma ScaledBetween(lo: real, x: real, hi: real, v: real)
    requires v >= 0.0 && lo <= x <= hi
    ensures lo * v <= x * v <= hi * v
  {
    assert (x - lo) * v >= 0.0;
    assert (hi - x) * v >= 0.0;
  }

  lemma Distribute(k: real, a: real, b: real)
    ensures k * (a + b) == k * a + k * b
  {
  }

  /**
   * With non-negative volumes, VWAP is a weighted average: once any volume
   * has traded it is finite and lies between the least and the greatest
   * typical price seen so far.
   */
  lemma VwapWithinRange(rows: seq<Row>, i: nat, lo: real, hi: real)
    requires i < |rows|
    requires forall j :: 0 <= j <= i ==> rows[j].volume >= 0.0 && lo <= TypicalPrice(rows[j]) <= hi
    requires CumVol(rows, i) > 0.0
    ensures VwapAt(rows, i).Finite?
    ensures lo <= VwapAt(rows, i).value <= hi
  {
    var pv, cv := CumPV(rows, i), CumVol(rows, i);
    assert lo * cv <= pv <= hi * cv by {
      CumPVBetween(rows, i, lo, hi);
    }
    var v := Divide(pv, cv);
    assert VwapAt(rows, i) == v;
    QuotientBetween(pv, cv, lo, hi, v.value);
  }

  /** A quotient `q = pv / cv` with `cv > 0` and `lo * cv <= pv <= hi * cv` lies between `lo` and `hi`. */
  lemma QuotientBetween(pv: real, cv: real, lo: real, hi: real, q: real)
    requires cv > 0.0 && lo * cv <= pv <= hi * cv && q * cv == pv
    ensures lo <= q <= hi
  {
    assert (q - lo) * cv == q * cv - lo * cv;
    assert (hi - q) * cv == hi * cv - q * cv;
    NonNegativeFactor(q - lo, cv);
    NonNegativeFactor(hi - q, cv);
  }

  lemma NonNegativeFactor(a: real, b: real)
    requires b > 0.0 && a * b >= 0.0
    ensures a >= 0.0
  {
  }

  /** With non-negative volumes, VWAP is NaN exactly while no volume has traded, and never infinite. */
  lemma {:induction false} VwapNaNOnlyWithoutVolume(rows: seq<Row>, i: nat)
    requires i < |rows|
    requires forall j :: 0 <= j < |rows| ==> rows[j].volume >= 0.0
    ensures VwapAt(rows, i).NaN? <==> CumVol(rows, i) == 0.0
    ensures !VwapAt(rows, i).Infinite?
  {
    NoVolumeNoPV(rows, i);
  }

  lemma {:induction false} NoVolumeNoPV(rows: seq<Row>, i: nat)
    requires i < |rows|
    requires forall j :: 0 <= j < |rows| ==> rows[j].volume >= 0.0
    ensures CumVol(rows, i) >= 0.0
    ensures CumVol(rows, i) == 0.0 ==> CumPV(rows, i) == 0.0
  {
    if i > 0 {
      NoVolumeNoPV(rows, i - 1);
    }
  }
}
