/** The three response envelopes the controller wraps its answers in, and a reader that
    recovers the code (and data) from an envelope. */
module Envelopes {
  import opened Values
  import opened ResponseCodes

  /** `{error_code, error_message}`. The message always comes from the code: the function
      takes no message, so an extra argument a caller passes is ignored. */
  function FailedResponse(code: ResponseCode): (e: Fields)
    ensures e.Keys == {"error_code", "error_message"}
    ensures e["error_code"] == Int(code.Code()) && e["error_message"] == Str(code.Message())
  {
    map["error_code" := Int(code.Code()), "error_message" := Str(code.Message())]
  }

  /** `{code, message}`. */
  function SuccessResponse(code: ResponseCode): (e: Fields)
    ensures e.Keys == {"code", "message"}
    ensures e["code"] == Int(code.Code()) && e["message"] == Str(code.Message())
  {
    map["code" := Int(code.Code()), "message" := Str(code.Message())]
  }

  /** `{code, message, data}`: the success envelope plus the data, unchanged. */
  function SuccessResponseWithData(code: ResponseCode, data: Fields): (e: Fields)
    ensures e.Keys == {"code", "message", "data"}
    ensures e - {"data"} == SuccessResponse(code)
    ensures e["data"] == Arr(data)
  {
    SuccessResponse(code)["data" := Arr(data)]
  }

  /** What a client reads from an envelope. */
  datatype Reading =
    | Failed(code: ResponseCode)
    | Succeeded(code: ResponseCode)
    | SucceededWithData(code: ResponseCode, data: Fields)

  /** The code a value names, when the value is an integer backing a case. */
  function CodeIn(v: Value): Option<ResponseCode>
  {
    if v.Int? then FromCode(v.i) else None
  }

  /** Reads an envelope back: recognises the three shapes by their exact key sets and
      requires the message to be the code's own. */
  function Read(e: Fields): Option<Reading>
  {
    if e.Keys == {"error_code", "error_message"} then
      match CodeIn(e["error_code"])
      case Some(c) => if e["error_message"] == Str(c.Message()) then Some(Failed(c)) else None
      case None => None
    else if e.Keys == {"code", "message"} || e.Keys == {"code", "message", "data"} then
      match CodeIn(e["code"])
      case Some(c) =>
        if e["message"] != Str(c.Message()) then None
        else if "data" !in e then Some(Succeeded(c))
        else if e["data"].Arr? then Some(SucceededWithData(c, e["data"].entries))
        else None
      case None => None
    else None
  }

  lemma FailedResponseRead(code: ResponseCode)
    ensures Read(FailedResponse(code)) == Some(Failed(code))
  {
    FromCodeRoundTrip(code);
  }

  lemma SuccessResponseRead(code: ResponseCode)
    ensures Read(SuccessResponse(code)) == Some(Succeeded(code))
  {
    FromCodeRoundTrip(code);
  }

  lemma SuccessResponseWithDataRead(code: ResponseCode, data: Fields)
    ensures Read(SuccessResponseWithData(code, data)) == Some(SucceededWithData(code, data))
  {
    FromCodeRoundTrip(code);
  }

  /** A failure envelope and a success envelope never coincide, whatever their codes. */
  lemma FailedIsNotSuccess(a: ResponseCode, b: ResponseCode, data: Fields)
    ensures FailedResponse(a) != SuccessResponse(b)
    ensures FailedResponse(a) != SuccessResponseWithData(b, data)
  {
    assert "code" !in FailedResponse(a);
  }
}
