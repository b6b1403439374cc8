/** The replies of the exchange-rate service as the page sees them, and how
    the page turns a reply into either its payload or the message of the
    error it throws. The HTTP exchange itself is not modelled: a reply is
    an input. */
module RateApi {
  import opened Wrappers
  import opened Text
  import AmountValue

  /** The decoded JSON body: `result` is "success" with a payload, or it is
      not and `error-type` may give a reason; or the body was not JSON. */
  datatype Envelope<T> =
    | Ok(payload: T)
    | NotSuccess(errorType: Option<string>)
    | Unreadable(message: string)

  /** A completed response with its status code, or a request that failed
      before any response arrived. */
  datatype Reply<T> =
    | Response(status: nat, body: Envelope<T>)
    | NetworkFailure(message: string)

  /** The payload, or the message of the error the handler throws. */
  datatype Attempt<T> = Done(value: T) | Threw(message: string)

  /** `response.ok`. */
  predicate ResponseOk(status: nat) {
    200 <= status <= 299
  }

  /** Decimal text of a status code, as template interpolation writes it. */
  function NatText(n: nat): (r: string)
    ensures r != "" && AllDigits(r)
    ensures AmountValue.DigitsValue(r) == n
    ensures |r| > 1 ==> r[0] != '0'
    decreases n
  {
    var digit := ['0' + (n % 10) as char];
    if n < 10 then digit
    else
      var r := NatText(n / 10) + digit;
      assert r[..|r| - 1] == NatText(n / 10);
      r
  }

  const HttpErrorPrefix := "HTTP error! status: "

  /** What a handler makes of a reply: a non-ok status throws before the
      body is read; a body without "success" throws its `error-type`, or the
      handler's fallback when that is missing or empty. */
  function Outcome<T>(reply: Reply<T>, fallback: string): (r: Attempt<T>)
    ensures r.Done? <==> reply.Response? && ResponseOk(reply.status) && reply.body.Ok?
    ensures r.Done? ==> r.value == reply.body.payload
    ensures reply.Response? && !ResponseOk(reply.status) ==>
              r == Threw(HttpErrorPrefix + NatText(reply.status))
    ensures reply.Response? && ResponseOk(reply.status) && reply.body.NotSuccess? ==>
              r.Threw? && (r.message == fallback <==> reply.body.errorType.GetOr("") in {"", fallback})
    ensures (reply.Response? && ResponseOk(reply.status) && reply.body.NotSuccess? &&
             reply.body.errorType.GetOr("") != "") ==> r == Threw(reply.body.errorType.value)
    ensures (reply.Response? && ResponseOk(reply.status) && reply.body.NotSuccess? &&
             reply.body.errorType.GetOr("") == "") ==> r == Threw(fallback)
    ensures reply.Response? && ResponseOk(reply.status) && reply.body.Unreadable? ==>
              r == Threw(reply.body.message)
    ensures reply.NetworkFailure? ==> r == Threw(reply.message)
  {
    match reply
    case NetworkFailure(message) => Threw(message)
    case Response(status, body) =>
      if !ResponseOk(status) then Threw(HttpErrorPrefix + NatText(status))
      else
        match body
        case Ok(payload) => Done(payload)
        case Unreadable(message) => Threw(message)
        case NotSuccess(errorType) =>
          Threw(if errorType.GetOr("") != "" then errorType.GetOr("") else fallback)
  }

  /** The message thrown for a non-ok status names that status: after the
      fixed prefix comes decimal text that reads back as the status code. */
  lemma {:induction false} HttpErrorNamesStatus<T>(status: nat, body: Envelope<T>, fallback: string)
    requires !ResponseOk(status)
    ensures var r := Outcome(Response(status, body), fallback);
      && r.Threw?
      && |r.message| > |HttpErrorPrefix|
      && r.message[..|HttpErrorPrefix|] == HttpErrorPrefix
      && AllDigits(r.message[|HttpErrorPrefix|..])
      && AmountValue.DigitsValue(r.message[|HttpErrorPrefix|..]) == status
  {
    var m := HttpErrorPrefix + NatText(status);
    assert m[..|HttpErrorPrefix|] == HttpErrorPrefix;
    assert m[|HttpErrorPrefix|..] == NatText(status);
  }
}
