/**
 * The checks `fetchHistory` (vndirect.ts) applies to the parsed dchart
 * response before handing it back: the status must be "ok" and every price
 * and volume column must be as long as the timestamp column.
 */
module Vndirect {
  import opened Wrappers

  /** The parsed response: parallel columns of timestamps (seconds), prices and volumes, and a status. */
  datatype DchartResponse = DchartResponse(
    t: seq<int>,
    o: seq<real>,
    h: seq<real>,
    l: seq<real>,
    c: seq<real>,
    v: seq<real>,
    s: string)

  datatype FetchError = StatusNotOk(status: string) | MismatchedLengths

  /** The message of the error thrown. */
  function ErrorMessage(e: FetchError): string
  {
    match e
    case StatusNotOk(status) => "API status not ok: " + status
    case MismatchedLengths => "Mismatched array lengths in API response"
  }

  /** All six columns have the length of `t`: the zip of the columns is defined at every index. */
  ghost predicate ColumnsAligned(json: DchartResponse)
  {
    |json.o| == |json.t| && |json.h| == |json.t| && |json.l| == |json.t|
    && |json.c| == |json.t| && |json.v| == |json.t|
  }

  /** `lens.every(len => len === n)`. */
  function AllEqual(lens: seq<int>, n: int): (b: bool)
    ensures b <==> forall i :: 0 <= i < |lens| ==> lens[i] == n
  {
    if lens == [] then true else lens[0] == n && AllEqual(lens[1..], n)
  }

  /** The two guards of `fetchHistory`, status first, on an already parsed response. */
  function Validate(json: DchartResponse): (r: Result<DchartResponse, FetchError>)
    ensures r.Ok? <==> json.s == "ok" && ColumnsAligned(json)
    ensures r.Ok? ==> r.value == json
    ensures json.s != "ok" ==> r == Err(StatusNotOk(json.s))
    ensures json.s == "ok" && !ColumnsAligned(json) ==> r == Err(MismatchedLengths)
  {
    if json.s != "ok" then Err(StatusNotOk(json.s))
    else
      var lens := [|json.o|, |json.h|, |json.l|, |json.c|, |json.v|];
      if !AllEqual(lens, |json.t|) then Err(MismatchedLengths)
      else
        assert lens[0] == lens[1] == lens[2] == lens[3] == lens[4] == |json.t|;
        Ok(json)
  }

  /** Any two error messages differ, so the message tells which check failed. */
  lemma ErrorMessagesDistinct(e1: FetchError, e2: FetchError)
    requires e1 != e2
    ensures ErrorMessage(e1) != ErrorMessage(e2)
  {
    var p := "API status not ok: ";
    if e1.StatusNotOk? && e2.StatusNotOk? {
      assert ErrorMessage(e1)[|p|..] == e1.status;
      assert ErrorMessage(e2)[|p|..] == e2.status;
    } else if e1.StatusNotOk? {
      assert ErrorMessage(e1)[0] == 'A' && ErrorMessage(e2)[0] == 'M';
    } else if e2.StatusNotOk? {
      assert ErrorMessage(e2)[0] == 'A' && ErrorMessage(e1)[0] == 'M';
    }
  }
}
