/** The listing upload handler (pages/api/uploadEtsyProduct.ts): bearer
    header validation, token extraction, the header forwarded upstream, and
    the mapping from the upstream result to this endpoint's response. */
module EtsyUpload {
  import opened JsValues
  import opened JsStrings

  const BearerPrefix := "Bearer "
  const InvalidAuthorization := "Missing or invalid authorization header."
  const UploadFailed := "Failed to upload product to Etsy."

  /** The response sent: a status and a JSON body. */
  datatype Response = Response(status: int, body: Json)

  /** The body of the upstream response, once read with `.json()`. */
  datatype Parse = Parsed(json: Json) | Unparseable(syntaxError: string)

  /** What the upstream listing call produced: an answer with a status, or a
      thrown error whose `message` may be undefined. */
  datatype Upstream =
    | Answered(status: int, body: Parse)
    | Threw(message: Option<string>)

  /** `Response.ok`: a status in the 2xx range. */
  predicate IsOk(status: int) {
    200 <= status <= 299
  }

  /** The bearer token, or None when the request is refused. */
  function ExtractToken(header: Option<string>): (r: Option<string>)
    ensures r.Some? <==> header.Some? && StartsWith(header.value, BearerPrefix)
    ensures r.Some? ==> r.value == Trim(header.value[|BearerPrefix|..])
    ensures r.Some? ==> IsTrimmed(r.value)
  {
    if header.None? || header.value == "" || !StartsWith(header.value, BearerPrefix) then None
    else
      ReplacePrefix(header.value, BearerPrefix);
      Some(Trim(ReplaceFirst(header.value, BearerPrefix, "")))
  }

  /** The `Authorization` header sent upstream for a token. */
  function Forwarded(token: string): (h: string)
    ensures StartsWith(h, BearerPrefix) && h[|BearerPrefix|..] == token
  {
    BearerPrefix + token
  }

  /** Extracting the token from the forwarded header gives back the token.
      Every extracted token is trimmed, so this covers each token the
      handler forwards. */
  lemma ForwardedRoundTrip(token: string)
    requires IsTrimmed(token)
    ensures ExtractToken(Some(Forwarded(token))) == Some(token)
  {
    TrimFixesTrimmed(token);
  }

  /** The POST handler. `call` is the upstream listing call as a function
      of the `Authorization` header it is sent with. */
  function Handle(header: Option<string>, call: string -> Upstream): (r: Response)
    ensures ExtractToken(header).None? ==> r == Response(401, ErrorBody(JStr(InvalidAuthorization)))
    ensures ExtractToken(header).Some? ==> r == Respond(call(Forwarded(ExtractToken(header).value)))
  {
    match ExtractToken(header)
    case None => Response(401, ErrorBody(JStr(InvalidAuthorization)))
    case Some(token) => Respond(call(Forwarded(token)))
  }

  /** The response for a given upstream result. A failed
      answer mirrors the upstream status with a truthy `error`; a good one
      passes the upstream body through under 200; anything thrown, including
      an unreadable good body, becomes 500 with the error's message. */
  function Respond(u: Upstream): (r: Response)
    ensures u.Answered? && !IsOk(u.status) ==> r.status == u.status && !r.body.JNull? && Fails(r.body)
    ensures (u.Answered? && !IsOk(u.status) && u.body.Parsed? && Truthy(u.body.json)) ==>
      ErrorOf(r.body) == Some(u.body.json)
    ensures (u.Answered? && !IsOk(u.status) && u.body.Parsed? && !Truthy(u.body.json)) ==>
      ErrorOf(r.body) == Some(JStr(UploadFailed))
    ensures (u.Answered? && !IsOk(u.status) && u.body.Unparseable?) ==>
      ErrorOf(r.body) == Some(JObj(map[]))
    ensures u.Answered? && IsOk(u.status) && u.body.Parsed? ==> r == Response(200, u.body.json)
    ensures u.Answered? && IsOk(u.status) && u.body.Unparseable? ==>
      r == Response(500, ErrorBody(JStr(u.body.syntaxError)))
    ensures (u.Answered? && !IsOk(u.status)) ==>
      r == Response(u.status, ErrorBody(
        if u.body.Unparseable? then JObj(map[])
        else if Truthy(u.body.json) then u.body.json
        else JStr(UploadFailed)))
    ensures u.Threw? ==> r == Response(500, ThrownBody(u.message))
    ensures u.Threw? ==>
      (r.status == 500 && !r.body.JNull? &&
       ErrorOf(r.body) == (if u.message.Some? then Some(JStr(u.message.value)) else None))
  {
    match u
    case Threw(message) => Response(500, ThrownBody(message))
    case Answered(status, body) =>
      if !IsOk(status) then
        var error := if body.Parsed? then body.json else JObj(map[]);
        Response(status, ErrorBody(if Truthy(error) then error else JStr(UploadFailed)))
      else if body.Parsed? then Response(200, body.json)
      else Response(500, ThrownBody(Some(body.syntaxError)))
  }

  /** `{ error: e.message }` once serialised: an undefined message is dropped. */
  function ThrownBody(message: Option<string>): (b: Body)
    ensures ErrorOf(b) == (if message.Some? then Some(JStr(message.value)) else None)
  {
    if message.Some? then ErrorBody(JStr(message.value)) else JObj(map[])
  }

  /** A refused header never reaches upstream: the response is the same
      whatever the listing call would do. */
  lemma RefusedHeaderSkipsUpstream(header: Option<string>, c1: string -> Upstream, c2: string -> Upstream)
    requires ExtractToken(header).None?
    ensures Handle(header, c1) == Handle(header, c2)
  {
  }

  /** Upstream sees only `"Bearer " + token`: two listing calls that agree
      on that one header give the same response. */
  lemma OnlyForwardedHeaderReachesUpstream(header: Option<string>, c1: string -> Upstream, c2: string -> Upstream)
    requires ExtractToken(header).Some?
    requires c1(BearerPrefix + ExtractToken(header).value) == c2(BearerPrefix + ExtractToken(header).value)
    ensures Handle(header, c1) == Handle(header, c2)
  {
  }
}
