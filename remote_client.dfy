/** The two requests the exporter makes to the heating controller, seen only
    through what comes back: the login check (`owz_login`) and the fetch of
    one datapoint (`owz_get_dp`). HTTP, query encoding and JSON decoding are
    not modelled; a reply is an abstract value saying how each of those
    steps ended. */
module RemoteClient {

  datatype Option<+T> = None | Some(value: T)

  /** A JSON value stored under the key "value", as far as `float(value)`
      is concerned. */
  datatype JsonValue =
    | JsonNull              // JSON null, which the decoder turns into None
    | Convertible(x: real)  // a number, or a string that float() accepts
    | Unconvertible         // a string float() rejects, a list, an object

  /** The body of a reply once JSON decoding has been attempted. */
  datatype Body =
    | NotJson                           // `response.json()` raised
    | NotAnObject                       // decoded to something without `.get`
    | Object(value: Option<JsonValue>)  // an object; None when "value" is absent

  /** How one GET request to the controller ended. */
  datatype Response =
    | NoReply                           // connection error, timeout, TLS error
    | Reply(status: int, body: Body)

  /** Why a datapoint fetch raised. The exporter only counts these. */
  datatype FetchError =
    | TransportError
    | StatusError(code: int)
    | InvalidJson
    | NoMapping
    | MissingValue
    | NotNumeric

  datatype FetchResult = Ok(value: real) | Fail(error: FetchError)

  /** The statuses for which `raise_for_status` raises: 4xx and 5xx. */
  predicate ErrorStatus(status: int)
  {
    400 <= status < 600
  }

  /** The request came back and `raise_for_status` let it through. */
  predicate Completed(r: Response)
  {
    r.Reply? && !ErrorStatus(r.status)
  }

  /** The reply hands over x as the datapoint's value. */
  predicate Carries(r: Response, x: real)
  {
    Completed(r) && r.body == Object(Some(Convertible(x)))
  }

  /** `owz_login`: every exception becomes `false`, so it never raises. */
  function Login(r: Response): (ok: bool)
    ensures ok <==> Completed(r)
  {
    match r
    case NoReply => false
    case Reply(status, _) => !ErrorStatus(status)
  }

  /** `owz_get_dp`: the checks run in the source's order (transport, status,
      JSON, the "value" key, float conversion) and the first that fails
      decides the error, which is handed back to the caller. */
  function GetDp(r: Response): (res: FetchResult)
    ensures res.Ok? ==> Carries(r, res.value)
    ensures forall x {:trigger Carries(r, x)} :: Carries(r, x) ==> res == Ok(x)
    ensures r.NoReply? ==> res == Fail(TransportError)
    ensures r.Reply? && ErrorStatus(r.status) ==> res == Fail(StatusError(r.status))
    ensures Completed(r) && r.body.NotJson? ==> res == Fail(InvalidJson)
    ensures Completed(r) && r.body.Object? && r.body.value in {None, Some(JsonNull)}
            ==> res == Fail(MissingValue)
    ensures Completed(r) && r.body.NotAnObject? ==> res == Fail(NoMapping)
    ensures Completed(r) && r.body == Object(Some(Unconvertible)) ==> res == Fail(NotNumeric)
  {
    match r
    case NoReply => Fail(TransportError)
    case Reply(status, body) =>
      if ErrorStatus(status) then Fail(StatusError(status))
      else
        match body
        case NotJson => Fail(InvalidJson)
        case NotAnObject => Fail(NoMapping)
        case Object(None) => Fail(MissingValue)
        case Object(Some(JsonNull)) => Fail(MissingValue)
        case Object(Some(Convertible(x))) => Ok(x)
        case Object(Some(Unconvertible)) => Fail(NotNumeric)
  }

  /** Logging in looks only at the transport and the status: a reply that
      `owz_login` accepts is one on which `owz_get_dp` gets past its
      transport and status checks, whatever the body holds. */
  lemma LoginMatchesFetchGate(r: Response)
    ensures Login(r) <==> !(GetDp(r).Fail? && (GetDp(r).error.TransportError? || GetDp(r).error.StatusError?))
  {
  }

  /** `owz_get_dp` tests `value is None`, not falsiness: a reading of zero
      is a value like any other. */
  lemma ZeroIsAReading(status: int)
    requires !ErrorStatus(status)
    ensures GetDp(Reply(status, Object(Some(Convertible(0.0))))) == Ok(0.0)
  {
  }
}
