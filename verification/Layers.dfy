/**
 What each middleware layer and the fused component do to a message, stated on the meaning of header
 lists. The methods that work on the lists themselves are proved against these functions.
 */
module Layers {
  import opened Wrappers
  import opened Utf8
  import opened Headers
  import opened Cors
  import opened Vary
  import opened RequestId
  import opened Authn

  const CONTENT_LENGTH := "content-length"
  const RETRY_AFTER := "retry-after"
  const WWW_AUTHENTICATE := "www-authenticate"
  const CONTENT_TYPE_OPTIONS := "x-content-type-options"
  const REFERRER_POLICY := "referrer-policy"

  const ZERO: Value := Bytes("0")
  const ONE: Value := Bytes("1")
  const NOSNIFF: Value := Bytes("nosniff")
  const STRICT_ORIGIN: Value := Bytes("strict-origin-when-cross-origin")

  /** What a message carries besides headers: a host handle to streams, trailers and the like. */
  datatype Body = Empty | Carried(handle: nat)

  datatype HttpRequest<H> = HttpRequest(verb: string, headers: H, body: Body)

  datatype HttpResponse<H> = HttpResponse(status: nat, headers: H, body: Body)

  datatype ErrorCode = InternalError | Downstream(code: nat)

  /** What comes back, and the request that reached the application, if one did. */
  datatype Outcome<H> = Outcome(response: Result<HttpResponse<H>, ErrorCode>, forwarded: Option<HttpRequest<H>>)

  /** The application sees a request up to the meaning of its headers and answers with a header list. */
  type Application = HttpRequest<HeaderMap> -> Result<HttpResponse<seq<Header>>, ErrorCode>

  /** One deployment: configurations that may have failed to load, and the world around it. */
  datatype Environment = Environment(
    cors: Option<CorsConfig>,
    authn: Option<AuthnConfig>,
    generated: string,
    broker: Broker,
    application: Application)

  // ----- What a message on header lists means -----

  function RequestMeaning(r: HttpRequest<seq<Header>>): HttpRequest<HeaderMap> {
    HttpRequest(r.verb, View(r.headers), r.body)
  }

  function ResponseMeaning(r: HttpResponse<seq<Header>>): HttpResponse<HeaderMap> {
    HttpResponse(r.status, View(r.headers), r.body)
  }

  function Meaning(o: Outcome<seq<Header>>): Outcome<HeaderMap> {
    Outcome(match o.response case Err(e) => Err(e) case Ok(response) => Ok(ResponseMeaning(response)),
            if o.forwarded.None? then None else Some(RequestMeaning(o.forwarded.value)))
  }

  // ----- Shared pieces -----

  /** What `to_header_map` accepts. */
  predicate IsWellFormed(m: HeaderMap) { forall k :: k in m ==> IsHttpToken(k) && AllFieldValues(m[k]) }

  function EmptyResponse(status: nat, headers: HeaderMap): HttpResponse<HeaderMap> {
    HttpResponse(status, if CONTENT_LENGTH in headers then headers else headers[CONTENT_LENGTH := [ZERO]], Empty)
  }

  function Answer(status: nat, headers: HeaderMap): Outcome<HeaderMap> {
    Outcome(Ok(EmptyResponse(status, headers)), None)
  }

  function RetryAfter(): HeaderMap { map[RETRY_AFTER := [ONE]] }

  /** The outcome with other response headers. */
  function Rewritten(o: Outcome<HeaderMap>, headers: HeaderMap): Outcome<HeaderMap>
    requires o.response.Ok?
  {
    o.(response := Ok(o.response.value.(headers := headers)))
  }

  /** The fields of a rejection, apart from the request ID. */
  function RejectionHeaders(rejection: AuthnRejection, realm: string): HeaderMap {
    var challenge := BearerChallenge(rejection, realm);
    var base: HeaderMap := if challenge.Some? then map[WWW_AUTHENTICATE := [Encode(challenge.value)]] else map[];
    if rejection == BrokerUnavailable then base[RETRY_AFTER := [ONE]] else base
  }

  /** The request headers the application may trust. */
  function Trusted(m: HeaderMap, context: Value, id: Value): HeaderMap {
    WithoutPrefix(m - {AUTHORIZATION}, RESERVED)[AUTH_CONTEXT := [context]][REQUEST_ID_HEADER := [id]]
  }

  /** Forwards to the application and hides reserved response fields from the client. */
  function Forward(env: Environment, r: HttpRequest<HeaderMap>): Outcome<HeaderMap> {
    match env.application(r)
    case Err(e) => Outcome(Err(e), Some(r))
    case Ok(response) =>
      var headers := WithoutPrefix(View(response.headers), RESERVED);
      Outcome(Ok(HttpResponse(response.status, headers, response.body)), Some(r))
  }

  // ----- The four layers -----

  /** `authn-policy`, the innermost layer. */
  function AuthnLayer(env: Environment, r: HttpRequest<HeaderMap>): Outcome<HeaderMap> {
    if !IsWellFormed(r.headers) then Answer(400, map[])
    else
      var id := CanonicalInPolicy(r.headers, env.generated);
      if id.None? then Outcome(Err(InternalError), None)
      else if env.authn.None? then Answer(503, WithRequestId(RetryAfter(), Encode(id.value)))
      else
        match Authenticate(r.headers, id.value, env.authn.value, env.broker).0
        case Pass(context) => Forward(env, r.(headers := Trusted(r.headers, context, Encode(id.value))))
        case Reject(rejection) =>
          Answer(RejectionStatus(rejection),
                 WithRequestId(RejectionHeaders(rejection, env.authn.value.serviceId), Encode(id.value)))
  }

  /** The decision's fields written over `m`, with the given value for Vary. */
  function Overlaid(m: HeaderMap, decision: HeaderMap, vary: Value): HeaderMap {
    var base := m + (decision - {VARY});
    if VARY in decision then base[VARY := [vary]] else base
  }

  /** `merge_cors_headers` */
  function MergeCors(m: HeaderMap, decision: HeaderMap): HeaderMap {
    Overlaid(m, decision, MergedVary(Get(m + (decision - {VARY}), VARY)))
  }

  function Merged(o: Outcome<HeaderMap>, decision: HeaderMap): Outcome<HeaderMap> {
    if o.response.Err? then o else Rewritten(o, MergeCors(o.response.value.headers, decision))
  }

  /** `cors` */
  function CorsLayer(env: Environment, r: HttpRequest<HeaderMap>): Outcome<HeaderMap> {
    if env.cors.None? then Answer(503, RetryAfter())
    else if !IsWellFormed(r.headers) || !IsHttpToken(r.verb) then Answer(400, map[])
    else
      var decision := Evaluate(env.cors.value, r.verb, r.headers);
      if decision.Err? then Answer(400, map[])
      else if decision.value.status.Some? then
        Answer(decision.value.status.value, decision.value.responseHeaders)
      else if decision.value.responseHeaders == map[] then AuthnLayer(env, r)
      else Merged(AuthnLayer(env, r), decision.value.responseHeaders)
  }

  function Secured(m: HeaderMap): HeaderMap {
    m[CONTENT_TYPE_OPTIONS := [NOSNIFF]][REFERRER_POLICY := [STRICT_ORIGIN]]
  }

  function SecuredOutcome(o: Outcome<HeaderMap>): Outcome<HeaderMap> {
    if o.response.Err? then o else Rewritten(o, Secured(o.response.value.headers))
  }

  /** `security-headers` */
  function SecurityLayer(env: Environment, r: HttpRequest<HeaderMap>): Outcome<HeaderMap> {
    SecuredOutcome(CorsLayer(env, r))
  }

  function WithRequestId(m: HeaderMap, id: Value): HeaderMap { m[REQUEST_ID_HEADER := [id]] }

  function Identified(o: Outcome<HeaderMap>, id: Value): Outcome<HeaderMap> {
    if o.response.Err? then o else Rewritten(o, WithRequestId(o.response.value.headers, id))
  }

  /** `request-id`, the outermost layer: the whole chain. */
  function Chain(env: Environment, r: HttpRequest<HeaderMap>): Outcome<HeaderMap> {
    var id := Encode(CanonicalInComponent(r.headers, env.generated));
    Identified(SecurityLayer(env, r.(headers := WithRequestId(r.headers, id))), id)
  }

  // ----- The fused component -----

  const POLICY_NAMES: set<string> := {AUTHORIZATION, ORIGIN_HEADER, REQUEST_METHOD, REQUEST_HEADERS}

  /** The four fields the policies read. */
  function PolicyFields(m: HeaderMap): HeaderMap { map k | k in m && k in POLICY_NAMES :: m[k] }

  predicate PolicyFieldsValid(m: HeaderMap) { forall k :: k in m && k in POLICY_NAMES ==> AllFieldValues(m[k]) }

  /** `finalize_response`: deletions and replacements in one edit. */
  function Finalized(m: HeaderMap, decision: HeaderMap, id: Option<Value>): HeaderMap {
    var base := Secured(WithoutPrefix(m, RESERVED));
    var identified := if id.Some? then WithRequestId(base, id.value) else base;
    Overlaid(identified, decision, MergedVary(Get(m, VARY)))
  }

  /** `controlled_response` */
  function Controlled(status: nat, headers: HeaderMap, decision: HeaderMap, id: Option<Value>): Outcome<HeaderMap> {
    var response := EmptyResponse(status, headers);
    Outcome(Ok(response.(headers := Finalized(response.headers, decision, id))), None)
  }

  function FusedForward(env: Environment, r: HttpRequest<HeaderMap>, decision: HeaderMap, id: Value)
    : Outcome<HeaderMap>
  {
    match env.application(r)
    case Err(e) => Outcome(Err(e), Some(r))
    case Ok(response) =>
      var headers := Finalized(View(response.headers), decision, Some(id));
      Outcome(Ok(HttpResponse(response.status, headers, response.body)), Some(r))
  }

  function FusedAuthn(env: Environment, r: HttpRequest<HeaderMap>, decision: HeaderMap, id: string)
    : Outcome<HeaderMap>
  {
    if env.authn.None? then Controlled(503, RetryAfter(), decision, Some(Encode(id)))
    else
      match Authenticate(PolicyFields(r.headers), id, env.authn.value, env.broker).0
      case Pass(context) =>
        FusedForward(env, r.(headers := Trusted(r.headers, context, Encode(id))), decision, Encode(id))
      case Reject(rejection) =>
        Controlled(RejectionStatus(rejection), RejectionHeaders(rejection, env.authn.value.serviceId), decision,
                   Some(Encode(id)))
  }

  /** `secure-defaults` */
  function Fused(env: Environment, r: HttpRequest<HeaderMap>): Outcome<HeaderMap> {
    if !PolicyFieldsValid(r.headers) then Controlled(400, map[], map[], None)
    else
      var id := CanonicalInFused(r.headers, env.generated);
      if id.None? then Outcome(Err(InternalError), None)
      else if env.cors.None? then Controlled(503, RetryAfter(), map[], Some(Encode(id.value)))
      else if !IsHttpToken(r.verb) then Controlled(400, map[], map[], Some(Encode(id.value)))
      else
        var decision := Evaluate(env.cors.value, r.verb, PolicyFields(r.headers));
        if decision.Err? then Controlled(400, map[], map[], Some(Encode(id.value)))
        else if decision.value.status.Some? then
          Controlled(decision.value.status.value, map[], decision.value.responseHeaders, Some(Encode(id.value)))
        else FusedAuthn(env, r, decision.value.responseHeaders, id.value)
  }
}
