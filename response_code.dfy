/** The integer-backed enum of response codes and the message each one carries. */
module ResponseCodes {
  import opened Values

  datatype ResponseCode =
    | Success
    | Created
    | SystemError
    | NotFound
    | MissingParams
    | ValidationFail
  {
    /** The backing integer of the case. */
    function Code(): (v: int)
      ensures 1000 <= v <= 1406
      ensures (v < 1400) <==> (Success? || Created?)
    {
      match this
      case Success => 1000
      case Created => 1001
      case SystemError => 1400
      case NotFound => 1404
      case MissingParams => 1405
      case ValidationFail => 1406
    }

    /** The human-readable message of the case; a pure function of the case. */
    function Message(): (m: string)
      ensures |m| > 0
    {
      match this
      case Success => "Success"
      case Created => "Created"
      case SystemError => "Internal system error"
      case NotFound => "Content not found"
      case MissingParams => "Missing query params"
      case ValidationFail => "Invalid param"
    }
  }

  /** The case backed by `v`, if any (the `tryFrom` every backed enum has). */
  function FromCode(v: int): (r: Option<ResponseCode>)
    ensures r.Some? ==> r.value.Code() == v
    ensures r.None? ==> forall c: ResponseCode :: c.Code() != v
  {
    if v == 1000 then Some(Success)
    else if v == 1001 then Some(Created)
    else if v == 1400 then Some(SystemError)
    else if v == 1404 then Some(NotFound)
    else if v == 1405 then Some(MissingParams)
    else if v == 1406 then Some(ValidationFail)
    else None
  }

  /** The six cases and their backing values. */
  lemma CodeValues()
    ensures (set c: ResponseCode | true :: c.Code()) == {1000, 1001, 1400, 1404, 1405, 1406}
  {
    var s := set c: ResponseCode | true :: c.Code();
    assert Success.Code() in s && Created.Code() in s && SystemError.Code() in s;
    assert NotFound.Code() in s && MissingParams.Code() in s && ValidationFail.Code() in s;
  }

  /** Distinct cases have distinct values, so a value names at most one case. */
  lemma CodeInjective(a: ResponseCode, b: ResponseCode)
    ensures a.Code() == b.Code() ==> a == b
  {
  }

  /** Reading back the value of a case gives the case. */
  lemma FromCodeRoundTrip(c: ResponseCode)
    ensures FromCode(c.Code()) == Some(c)
  {
  }

  /** Distinct cases carry distinct messages. */
  lemma MessageInjective(a: ResponseCode, b: ResponseCode)
    ensures a.Message() == b.Message() ==> a == b
  {
  }
}
