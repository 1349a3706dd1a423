/** In-process authentication of a terminal application: sanitize the request, then install a verified context. */
module Terminal {
  import opened Wrappers
  import opened Headers
  import opened Metadata
  import opened MetadataLaws
  import opened MetadataBounds
  import opened Text
  import opened RequestId
  import Authn

  const AUTHORIZATION := Authn.AUTHORIZATION

  datatype Config = Config(serviceId: string, audiences: seq<string>, mode: Authn.AuthnMode)

  /** `AuthenticationConfig::new` keeps the normalized identity of an anonymous context. */
  function NewConfig(serviceId: string, audiences: seq<string>, mode: Authn.AuthnMode): Option<Config> {
    var context := NewAnonymous(serviceId, audiences);
    if context.Err? then None else Some(Config(context.value.serviceId, context.value.audiences, mode))
  }

  predicate ValidDeploymentConfig(config: Config) { ValidDeployment(config.serviceId, config.audiences) }

  /** The constructor yields exactly the configurations whose identity is in normal form. */
  lemma ConfigurableExactlyWhenValid(config: Config)
    ensures ValidDeploymentConfig(config)
            <==> exists audiences :: NewConfig(config.serviceId, audiences, config.mode) == Some(config)
  {
    if ValidDeploymentConfig(config) {
      NormalizedDeployment(config.serviceId, config.audiences);
      assert NewConfig(config.serviceId, config.audiences, config.mode) == Some(config);
    }
    if audiences :| NewConfig(config.serviceId, audiences, config.mode) == Some(config) {
      NormalizedDeployment(config.serviceId, audiences);
    }
  }

  /** Which identities configure, both ways, and as what. */
  lemma ConfiguredExactly(serviceId: string, audiences: seq<string>, mode: Authn.AuthnMode, c: Config)
    ensures NewConfig(serviceId, audiences, mode) == Some(c)
            <==> && IsToken(serviceId) && c.serviceId == serviceId && c.mode == mode
                 && 1 <= |audiences| <= 16 && (forall a :: a in audiences ==> IsAsciiText(a, 256))
                 && NormalForm(c.audiences, audiences)
  {
    DeploymentExactly(serviceId, audiences, (c.serviceId, c.audiences));
    var d := ValidatedDeployment(serviceId, audiences);
    if d.Ok? { DeploymentExactly(serviceId, audiences, d.value); }
  }

  datatype Rejection = InvalidRequest | InvalidBoundary | MissingCredentials | InvalidCredentials | Unavailable

  /** A transport answers with a decision, or fails. */
  type Transport = (string, string) -> Option<Authn.AuthDecision>

  // ----- Reserved headers -----

  /** Names in a header map are lower case, so a plain prefix test is enough. */
  predicate IsReserved(name: string) { RESERVED <= name }

  function WithoutReserved(m: HeaderMap): HeaderMap { map k | k in m && !IsReserved(k) :: m[k] }

  /** What every exit leaves of the request's headers. */
  function Sanitized(m: HeaderMap): HeaderMap { WithoutReserved(m - {AUTHORIZATION}) }

  /** `parse_auth_context` */
  function ParseAuthContext(m: HeaderMap): Result<AuthContext, MetadataError> {
    var values := Get(m, AUTH_CONTEXT);
    if values == [] then Err(MissingHeader)
    else if |values| > 1 then Err(DuplicateHeader)
    else DecodeAuthContext(values[0])
  }

  /** `insert_auth_context`: nothing changes when the context does not encode. */
  function Inserted(m: HeaderMap, context: AuthContext): Result<HeaderMap, MetadataError> {
    var value :- EncodeAuthContext(context);
    Ok(WithoutReserved(m)[AUTH_CONTEXT := [value]])
  }

  // ----- Decisions -----

  /** `validate_lifetime` */
  predicate Unexpired(context: AuthContext, now: u64) {
    context.principal.Some? && context.principal.value.expiresAt.Some? ==>
      now < context.principal.value.expiresAt.value
  }

  function AnonymousOutcome(config: Config): Result<AuthContext, Rejection> {
    if config.mode == Authn.Required then Err(MissingCredentials)
    else
      match NewAnonymous(config.serviceId, config.audiences)
      case Err(_) => Err(Unavailable)
      case Ok(context) => Ok(context)
  }

  function DecisionOutcome(config: Config, decision: Option<Authn.AuthDecision>, now: u64)
    : Result<AuthContext, Rejection>
  {
    match decision
    case None => Err(Unavailable)
    case Some(Unauthenticated) => Err(InvalidCredentials)
    case Some(Unavailable) => Err(Rejection.Unavailable)
    case Some(Allow(claims)) =>
      match Authn.IntoContext(claims, config.serviceId, config.audiences)
      case Err(_) => Err(Rejection.Unavailable)
      case Ok(context) => if Unexpired(context, now) then Ok(context) else Err(InvalidCredentials)
  }

  /** What `authenticate_request` comes to for the headers it was given. */
  function BrokerOutcome(config: Config, m: HeaderMap, transport: Transport, now: u64): Result<AuthContext, Rejection> {
    var authorization := Authn.AuthorizationValue(m);
    if authorization.Err? then Err(InvalidRequest)
    else if authorization.value.None? then AnonymousOutcome(config)
    else
      var id := AcceptedText(Get(m, REQUEST_ID_HEADER));
      if id.None? then Err(InvalidRequest)
      else DecisionOutcome(config, transport(id.value, authorization.value.value), now)
  }

  /** The context is for this service and at least one of its audiences. */
  predicate BoundTo(context: AuthContext, config: Config) {
    context.serviceId == config.serviceId && exists a :: a in config.audiences && a in context.audiences
  }

  /** What `accept_trusted_ingress` comes to. */
  function IngressOutcome(config: Config, m: HeaderMap, now: u64): Result<AuthContext, Rejection> {
    var parsed := ParseAuthContext(m);
    if AUTHORIZATION in m || parsed.Err? || !BoundTo(parsed.value, config) || !Unexpired(parsed.value, now)
    then Err(InvalidBoundary) else Ok(parsed.value)
  }

  // ----- The request, changed in place -----

  class TerminalRequest {
    var headers: HeaderMap
    var extension: Option<AuthContext>

    constructor (headers: HeaderMap)
      ensures this.headers == headers && extension == None
    {
      this.headers := headers;
      extension := None;
    }

    /** `strip_reserved_auth_headers`: collects the reserved names, then removes them one by one. */
    method StripReserved()
      modifies this`headers
      ensures headers == WithoutReserved(old(headers))
    {
      var reserved := set k | k in headers && IsReserved(k);
      while reserved != {}
        invariant reserved == set k | k in headers && IsReserved(k)
        invariant WithoutReserved(headers) == WithoutReserved(old(headers))
        decreases reserved
      {
        var name :| name in reserved;
        assert WithoutReserved(headers - {name}) == WithoutReserved(headers);
        headers := headers - {name};
        reserved := reserved - {name};
      }
      forall k | k in headers ensures !IsReserved(k) { assert k !in reserved; }
      assert WithoutReserved(headers) == headers;
    }

    /** `sanitize_headers` */
    method Sanitize()
      modifies this`headers
      ensures headers == Sanitized(old(headers))
      ensures AUTHORIZATION !in headers && AUTH_CONTEXT !in headers
    {
      headers := headers - {AUTHORIZATION};
      StripReserved();
      assert IsReserved(AUTH_CONTEXT);
    }

    /** `insert_auth_context` */
    method InsertAuthContext(context: AuthContext) returns (r: Result<(), MetadataError>)
      modifies this`headers
      ensures match Inserted(old(headers), context)
              case Ok(m) => r == Ok(()) && headers == m
              case Err(e) => r == Err(e) && headers == old(headers)
    {
      var value := EncodeAuthContext(context);
      if value.Err? { return Err(value.error); }
      StripReserved();
      headers := headers[AUTH_CONTEXT := [value.value]];
      r := Ok(());
    }

    /** `install_verified` */
    method Install(context: AuthContext)
      modifies this`extension
      ensures extension == Some(context)
    {
      extension := Some(context);
    }

    /** `authenticate_request`: every exit leaves the headers sanitized; only success touches the extension. */
    method Authenticate(config: Config, transport: Transport, now: u64) returns (r: Result<AuthContext, Rejection>)
      modifies this
      ensures r == BrokerOutcome(config, old(headers), transport, now)
      ensures headers == Sanitized(old(headers))
      ensures extension == if r.Ok? then Some(r.value) else old(extension)
    {
      var authorization := Authn.AuthorizationValue(headers);
      var id := AcceptedText(Get(headers, REQUEST_ID_HEADER));
      Sanitize();
      if authorization.Err? { return Err(InvalidRequest); }
      if authorization.value.None? {
        if config.mode == Authn.Required { return Err(MissingCredentials); }
        var anonymous := NewAnonymous(config.serviceId, config.audiences);
        if anonymous.Err? { return Err(Unavailable); }
        Install(anonymous.value);
        return Ok(anonymous.value);
      }
      if id.None? { return Err(InvalidRequest); }
      var decision := transport(id.value, authorization.value.value);
      if decision.None? { return Err(Unavailable); }
      match decision.value
      case Unauthenticated => return Err(InvalidCredentials);
      case Unavailable => return Err(Rejection.Unavailable);
      case Allow(claims) =>
        var context := Authn.IntoContext(claims, config.serviceId, config.audiences);
        if context.Err? { return Err(Rejection.Unavailable); }
        if !Unexpired(context.value, now) { return Err(InvalidCredentials); }
        Install(context.value);
        r := Ok(context.value);
    }

    /** `accept_trusted_ingress` */
    method AcceptTrustedIngress(config: Config, now: u64) returns (r: Result<AuthContext, Rejection>)
      modifies this
      ensures r == IngressOutcome(config, old(headers), now)
      ensures headers == Sanitized(old(headers))
      ensures extension == if r.Ok? then Some(r.value) else old(extension)
    {
      var hadAuthorization := AUTHORIZATION in headers;
      var parsed := ParseAuthContext(headers);
      Sanitize();
      if hadAuthorization || parsed.Err? { return Err(InvalidBoundary); }
      if !BoundTo(parsed.value, config) { return Err(InvalidBoundary); }
      if !Unexpired(parsed.value, now) { return Err(InvalidBoundary); }
      Install(parsed.value);
      r := Ok(parsed.value);
    }
  }

  // ----- What success means -----

  /** Claims are built only by validation, so a transport can return no others. */
  ghost predicate HonestTransport(transport: Transport) {
    forall id: string, credential: string ::
      transport(id, credential).Some? && transport(id, credential).value.Allow? ==>
        Authn.ValidClaims(transport(id, credential).value.claims)
  }

  /**
   Broker authentication succeeds exactly in two ways, each with its own context: no Authorization
   field in optional mode, or one credential and one request ID for which the broker granted claims
   that have not expired.
   */
  lemma AuthenticatedExactly(config: Config, m: HeaderMap, transport: Transport, now: u64, context: AuthContext)
    requires ValidDeploymentConfig(config) && HonestTransport(transport)
    ensures BrokerOutcome(config, m, transport, now) == Ok(context)
            <==> || (Get(m, AUTHORIZATION) == [] && config.mode == Authn.Optional
                     && context == AuthContext(Anonymous, config.serviceId, config.audiences, None, None, None))
                 || (exists id, credential, claims ::
                       && Authn.AuthorizationValue(m) == Ok(Some(credential))
                       && AcceptedText(Get(m, REQUEST_ID_HEADER)) == Some(id)
                       && transport(id, credential) == Some(Authn.Allow(claims))
                       && context == Authn.BoundContext(claims, config.serviceId, config.audiences)
                       && Unexpired(context, now))
  {
    NormalizedDeployment(config.serviceId, config.audiences);
    var authorization := Authn.AuthorizationValue(m);
    var id := AcceptedText(Get(m, REQUEST_ID_HEADER));
    if authorization.Ok? && authorization.value.Some? && id.Some? {
      var decision := transport(id.value, authorization.value.value);
      if decision.Some? && decision.value.Allow? {
        Authn.ClaimsAlwaysBind(decision.value.claims, config.serviceId, config.audiences);
      }
    }
  }

  /** Each rejection has its own cause; binding and anonymous construction never fail. */
  lemma RejectedExactly(config: Config, m: HeaderMap, transport: Transport, now: u64)
    requires ValidDeploymentConfig(config) && HonestTransport(transport)
    ensures var outcome := BrokerOutcome(config, m, transport, now);
            var authorization := Authn.AuthorizationValue(m);
            var id := AcceptedText(Get(m, REQUEST_ID_HEADER));
            var asked := authorization.Ok? && authorization.value.Some?;
            && (outcome == Err(InvalidRequest) <==> authorization.Err? || (asked && id.None?))
            && (outcome == Err(MissingCredentials) <==> Get(m, AUTHORIZATION) == [] && config.mode == Authn.Required)
            && (outcome == Err(InvalidCredentials)
                <==> && asked && id.Some?
                     && Refuses(transport(id.value, authorization.value.value), config, now))
            && (outcome == Err(Unavailable)
                <==> && asked && id.Some?
                     && transport(id.value, authorization.value.value) in {None, Some(Authn.Unavailable)})
            && outcome != Err(InvalidBoundary)
  {
    NormalizedDeployment(config.serviceId, config.audiences);
    var authorization := Authn.AuthorizationValue(m);
    var id := AcceptedText(Get(m, REQUEST_ID_HEADER));
    if authorization.Ok? && authorization.value.Some? && id.Some? {
      var decision := transport(id.value, authorization.value.value);
      if decision.Some? && decision.value.Allow? {
        Authn.ClaimsAlwaysBind(decision.value.claims, config.serviceId, config.audiences);
      }
    }
  }

  /** The broker refuses the credential, or grants claims that have expired. */
  predicate Refuses(decision: Option<Authn.AuthDecision>, config: Config, now: u64) {
    && decision.Some?
    && match decision.value
       case Allow(claims) => !Unexpired(Authn.BoundContext(claims, config.serviceId, config.audiences), now)
       case Unauthenticated => true
       case Unavailable => false
  }

  /** Success means a valid context, unexpired and bound to this deployment. */
  lemma AuthenticatedIsBound(config: Config, m: HeaderMap, transport: Transport, now: u64)
    requires ValidDeploymentConfig(config) && HonestTransport(transport)
    requires BrokerOutcome(config, m, transport, now).Ok?
    ensures var context := BrokerOutcome(config, m, transport, now).value;
            && ValidContext(context) && Unexpired(context, now)
            && context.serviceId == config.serviceId && context.audiences == config.audiences
            && (context.state == Anonymous <==> Get(m, AUTHORIZATION) == [])
  {
    var context := BrokerOutcome(config, m, transport, now).value;
    AuthenticatedExactly(config, m, transport, now, context);
    if Get(m, AUTHORIZATION) != [] {
      var id, credential, claims :|
        && Authn.AuthorizationValue(m) == Ok(Some(credential))
        && AcceptedText(Get(m, REQUEST_ID_HEADER)) == Some(id)
        && transport(id, credential) == Some(Authn.Allow(claims))
        && context == Authn.BoundContext(claims, config.serviceId, config.audiences)
        && Unexpired(context, now);
      Authn.ClaimsAlwaysBind(claims, config.serviceId, config.audiences);
    }
  }

  /**
   The ingress hand-over: a context that encodes is accepted again after insertion, and returned
   unchanged, exactly when it is bound, unexpired and no Authorization field survives.
   */
  lemma InsertedIsAcceptedExactly(config: Config, m: HeaderMap, context: AuthContext, now: u64)
    requires ValidContext(context) && EncodeAuthContext(context).Ok?
    ensures Inserted(m, context).Ok?
    ensures IngressOutcome(config, Inserted(m, context).value, now) == Ok(context)
            <==> BoundTo(context, config) && Unexpired(context, now) && AUTHORIZATION !in m
    ensures IngressOutcome(config, Inserted(m, context).value, now).Ok?
            ==> IngressOutcome(config, Inserted(m, context).value, now) == Ok(context)
  {
    EncodeThenDecode(context);
    var after := Inserted(m, context).value;
    assert Get(after, AUTH_CONTEXT) == [EncodeAuthContext(context).value];
    assert ParseAuthContext(after) == Ok(context);
    assert !IsReserved(AUTHORIZATION) by { assert AUTHORIZATION[0] != RESERVED[0]; }
    assert AUTHORIZATION in after <==> AUTHORIZATION in m;
  }

  /** A context for one service and at least one of some audiences, alive at `now`. */
  predicate Fits(context: AuthContext, serviceId: string, audiences: seq<string>, now: u64) {
    && context.serviceId == serviceId
    && (exists a :: a in audiences && a in context.audiences)
    && (match context.principal
        case None => true
        case Some(p) => match p.expiresAt case None => true case Some(t) => t > now)
  }

  /**
   What the trusted ingress accepts, for any headers: no credential, exactly one context field, which
   decodes to a context for this service and one of its audiences that has not expired. Everything else
   is an invalid boundary.
   */
  lemma IngressExactly(config: Config, m: HeaderMap, now: u64, context: AuthContext)
    ensures IngressOutcome(config, m, now) == Ok(context)
            <==> && "authorization" !in m
                 && (exists value :: Get(m, "x-wasi-auth-context") == [value]
                                     && DecodeAuthContext(value) == Ok(context))
                 && Fits(context, config.serviceId, config.audiences, now)
    ensures IngressOutcome(config, m, now).Err? ==> IngressOutcome(config, m, now) == Err(InvalidBoundary)
  {
    var values := Get(m, AUTH_CONTEXT);
    if |values| == 1 { assert values == [values[0]]; }
  }

  /** Without a context field or with several there is nothing to decode. */
  lemma OneFieldIsParsed(m: HeaderMap)
    ensures Get(m, "x-wasi-auth-context") == [] ==> ParseAuthContext(m) == Err(MissingHeader)
    ensures |Get(m, "x-wasi-auth-context")| > 1 ==> ParseAuthContext(m) == Err(DuplicateHeader)
  {
  }

  /** Whatever was inserted before, one reserved field is left. */
  lemma InsertedOnce(m: HeaderMap, context: AuthContext)
    requires Inserted(m, context).Ok?
    ensures var after := Inserted(m, context).value;
            && Get(after, "x-wasi-auth-context") == [EncodeAuthContext(context).value]
            && (forall k :: k in after && "x-wasi-auth-" <= k ==> k == "x-wasi-auth-context")
            && (forall k :: !("x-wasi-auth-" <= k) ==> Get(after, k) == Get(m, k))
            && WithoutReserved(after) == WithoutReserved(m)
  {
    assert IsReserved(AUTH_CONTEXT);
  }

  /** Sanitizing removes exactly the credential and the reserved fields. */
  lemma SanitizedByName(m: HeaderMap, k: string)
    ensures Get(Sanitized(m), k) == if k == "authorization" || "x-wasi-auth-" <= k then [] else Get(m, k)
  {
  }
}
