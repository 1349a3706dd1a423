/** The fail-closed broker authentication: configuration, broker answers and the outcome for a request. */
module Authn {
  import opened Wrappers
  import opened Utf8
  import opened Text
  import opened Json
  import opened JsonObject
  import opened Headers
  import opened Settings
  import opened Metadata
  import opened MetadataLaws

  const AUTHORIZATION := "authorization"
  const MAX_AUTHORIZATION_LEN := 8192
  const MAX_TIMEOUT_MS := 60000
  const MAX_MAX_IN_FLIGHT := 1024

  datatype AuthnMode = Required | Optional

  datatype BrokerTarget = BrokerTarget(scheme: string, authority: string, pathWithQuery: string)

  datatype AuthnConfig = AuthnConfig(
    target: BrokerTarget,
    timeoutNs: u64,
    mode: AuthnMode,
    serviceId: string,
    audiences: seq<string>,
    anonymousContext: Value,
    maxInFlight: nat)

  datatype AuthnConfigError =
    | MissingBrokerUrl | InvalidBrokerUrl | InvalidTimeout | InvalidMode | MissingServiceId | MissingAudiences
    | InvalidDeploymentIdentity | InvalidMaxInFlight | InvalidBoolean | DuplicateEnvironment

  // ----- Configuration -----

  function Setting(environment: EnvironmentList, key: string): Result<Option<string>, AuthnConfigError> {
    EnvironmentValue(environment, key, AuthnConfigError.DuplicateEnvironment)
  }

  function ParseBool(value: Option<string>, default: bool): Result<bool, AuthnConfigError> {
    if value.None? then Ok(default)
    else if value.value == "true" then Ok(true)
    else if value.value == "false" then Ok(false)
    else Err(InvalidBoolean)
  }

  /** `str::parse` for unsigned integers: digits after an optional plus sign. */
  function ParseUnsigned(s: string): Option<nat> {
    var digits := if s != "" && s[0] == '+' then s[1..] else s;
    if digits == "" || DigitRun(digits) != |digits| then None else Some(NatOf(digits))
  }

  /** An optional number with a default, refused outside 1..=maximum. */
  function BoundedNumber(value: Option<string>, default: nat, maximum: nat, error: AuthnConfigError)
    : Result<nat, AuthnConfigError>
  {
    var n := if value.None? then Some(default) else ParseUnsigned(value.value);
    if n.None? || n.value == 0 || n.value > maximum then Err(error) else Ok(n.value)
  }

  function ParseMode(value: Option<string>): Result<AuthnMode, AuthnConfigError> {
    if value.None? || value.value == "required" then Ok(Required)
    else if value.value == "optional" then Ok(Optional)
    else Err(InvalidMode)
  }

  function RequiredValue(environment: EnvironmentList, key: string, missing: AuthnConfigError)
    : Result<string, AuthnConfigError>
  {
    var value :- Setting(environment, key);
    if value.None? then Err(missing) else Ok(value.value)
  }

  /** The deployment identity and its encoded anonymous context. */
  function DeploymentContext(serviceId: string, audiences: seq<string>)
    : Result<(AuthContext, Value), AuthnConfigError>
  {
    var context := NewAnonymous(serviceId, audiences);
    if context.Err? then Err(InvalidDeploymentIdentity)
    else
      var encoded := EncodeAuthContext(context.value);
      if encoded.Err? then Err(InvalidDeploymentIdentity) else Ok((context.value, encoded.value))
  }

  /** Where the broker is, with the URL policy as a parameter. */
  function LoadTarget(environment: EnvironmentList, parseUrl: (string, bool) -> Option<BrokerTarget>)
    : Result<BrokerTarget, AuthnConfigError>
  {
    var loopbackValue :- Setting(environment, "WASI_MIDDLEWARE_AUTHN_ALLOW_INSECURE_LOOPBACK");
    var loopback :- ParseBool(loopbackValue, false);
    var url :- RequiredValue(environment, "WASI_MIDDLEWARE_AUTHN_BROKER_URL", MissingBrokerUrl);
    var target := if url == "" || |Encode(url)| > 2048 then None else parseUrl(url, loopback);
    if target.None? then Err(InvalidBrokerUrl) else Ok(target.value)
  }

  datatype Limits = Limits(timeoutNs: u64, mode: AuthnMode, maxInFlight: nat)

  function LoadLimits(environment: EnvironmentList): Result<Limits, AuthnConfigError> {
    var timeoutValue :- Setting(environment, "WASI_MIDDLEWARE_AUTHN_TIMEOUT_MS");
    var timeout :- BoundedNumber(timeoutValue, 2000, MAX_TIMEOUT_MS, InvalidTimeout);
    var modeValue :- Setting(environment, "WASI_MIDDLEWARE_AUTHN_MODE");
    var mode :- ParseMode(modeValue);
    var inFlightValue :- Setting(environment, "WASI_MIDDLEWARE_AUTHN_MAX_IN_FLIGHT");
    var maxInFlight :- BoundedNumber(inFlightValue, 64, MAX_MAX_IN_FLIGHT, InvalidMaxInFlight);
    Ok(Limits(timeout * 1000000, mode, maxInFlight))
  }

  function LoadDeployment(environment: EnvironmentList): Result<(AuthContext, Value), AuthnConfigError> {
    var serviceId :- RequiredValue(environment, "WASI_MIDDLEWARE_SERVICE_ID", MissingServiceId);
    var audiences :- RequiredValue(environment, "WASI_MIDDLEWARE_AUTHN_AUDIENCES", MissingAudiences);
    DeploymentContext(serviceId, TrimAll(Split(audiences, ',')))
  }

  /** `AuthnConfig::from_environment` */
  function FromEnvironment(environment: EnvironmentList, parseUrl: (string, bool) -> Option<BrokerTarget>)
    : Result<AuthnConfig, AuthnConfigError>
  {
    var target :- LoadTarget(environment, parseUrl);
    var limits :- LoadLimits(environment);
    var deployment :- LoadDeployment(environment);
    Ok(AuthnConfig(target, limits.timeoutNs, limits.mode, deployment.0.serviceId, deployment.0.audiences,
                   deployment.1, limits.maxInFlight))
  }

  function AnonymousContext(c: AuthnConfig): AuthContext {
    AuthContext(Anonymous, c.serviceId, c.audiences, None, None, None)
  }

  predicate ValidAuthnConfig(c: AuthnConfig) {
    && ValidDeployment(c.serviceId, c.audiences)
    && EncodeAuthContext(AnonymousContext(c)) == Ok(c.anonymousContext)
    && 0 < c.timeoutNs <= 60_000_000_000
    && 1 <= c.maxInFlight <= MAX_MAX_IN_FLIGHT
  }

  lemma DeploymentIsValid(serviceId: string, audiences: seq<string>)
    ensures var r := DeploymentContext(serviceId, audiences);
            r.Ok? ==>
              var c := r.value.0;
              && ValidDeployment(c.serviceId, c.audiences)
              && c == AuthContext(Anonymous, c.serviceId, c.audiences, None, None, None)
              && EncodeAuthContext(c) == Ok(r.value.1)
  {
    NormalizedDeployment(serviceId, audiences);
  }

  /** Every accepted configuration is bounded, normalized and carries its own anonymous context. */
  lemma FromEnvironmentIsValid(environment: EnvironmentList, parseUrl: (string, bool) -> Option<BrokerTarget>)
    ensures var r := FromEnvironment(environment, parseUrl); r.Ok? ==> ValidAuthnConfig(r.value)
  {
    var r := FromEnvironment(environment, parseUrl);
    if r.Ok? {
      var serviceId := RequiredValue(environment, "WASI_MIDDLEWARE_SERVICE_ID", MissingServiceId).value;
      var audiences := RequiredValue(environment, "WASI_MIDDLEWARE_AUTHN_AUDIENCES", MissingAudiences).value;
      DeploymentIsValid(serviceId, TrimAll(Split(audiences, ',')));
    }
  }

  // ----- Broker answers -----

  datatype AuthnSuccess = AuthnSuccess(
    version: nat,
    principal: WirePrincipal,
    decisionId: string,
    policyRevision: string)

  datatype Claims = Claims(principal: Principal, decisionId: string, policyRevision: string)

  datatype AuthDecision = Allow(claims: Claims) | Unauthenticated | Unavailable

  const SUCCESS_KEYS: seq<string> := ["version", "subject", "issuer", "tenant_id", "roles", "scopes", "acr", "amr",
                                      "actor", "auth_time", "expires_at", "session_id", "decision_id",
                                      "policy_revision"]

  function ReadSuccess(j: Json): Option<AuthnSuccess> {
    if !j.Obj? || !WellKeyed(j.members, SUCCESS_KEYS) then None
    else
      var m := j.members;
      var version :- ReadU8(Lookup(m, "version"));
      var subject :- ReadString(Lookup(m, "subject"));
      var issuer :- ReadString(Lookup(m, "issuer"));
      var tenantId :- ReadOptString(Lookup(m, "tenant_id"));
      var roles :- ReadDefaultList(Lookup(m, "roles"));
      var scopes :- ReadDefaultList(Lookup(m, "scopes"));
      var acr :- ReadOptString(Lookup(m, "acr"));
      var amr :- ReadDefaultList(Lookup(m, "amr"));
      var actor :- ReadOptActor(Lookup(m, "actor"));
      var authTime :- ReadOptU64(Lookup(m, "auth_time"));
      var expiresAt :- ReadOptU64(Lookup(m, "expires_at"));
      var sessionId :- ReadOptString(Lookup(m, "session_id"));
      var decisionId :- ReadString(Lookup(m, "decision_id"));
      var policyRevision :- ReadString(Lookup(m, "policy_revision"));
      Some(AuthnSuccess(version,
                        WirePrincipal(issuer, subject, tenantId, roles, scopes, acr, amr, actor, authTime, expiresAt,
                                      sessionId),
                        decisionId, policyRevision))
  }

  /** `authenticated_claims`: validated against a placeholder deployment. */
  function AuthenticatedClaims(success: AuthnSuccess): Option<Claims> {
    if success.version != 1 then None
    else
      var principal := PrincipalFromWire(success.principal);
      if principal.Err? then None
      else
        var context := NewAuthenticated("validation", ["validation"], principal.value, success.decisionId,
                                        success.policyRevision);
        if context.Err? then None
        else Some(Claims(principal.value, success.decisionId, success.policyRevision))
  }

  function ParseSuccess(body: seq<byte>): Option<Claims> {
    var text :- Decode(body);
    var json :- Parse(text);
    var success :- ReadSuccess(json);
    AuthenticatedClaims(success)
  }

  /** `parse_authn_response` */
  function ParseAuthnResponse(status: nat, body: seq<byte>): AuthDecision {
    if status == 200 then (var claims := ParseSuccess(body); if claims.None? then Unavailable else Allow(claims.value))
    else if status == 401 then Unauthenticated
    else Unavailable
  }

  /** `into_context` */
  function IntoContext(claims: Claims, serviceId: string, audiences: seq<string>): Result<AuthContext, MetadataError> {
    NewAuthenticated(serviceId, audiences, claims.principal, claims.decisionId, claims.policyRevision)
  }

  predicate ValidClaims(c: Claims) {
    ValidPrincipal(c.principal) && IsText(c.decisionId, MAX_CONTEXT_LEN) && IsText(c.policyRevision, MAX_CONTEXT_LEN)
  }

  lemma ParsedClaimsAreValid(status: nat, body: seq<byte>)
    ensures var d := ParseAuthnResponse(status, body); d.Allow? ==> ValidClaims(d.claims)
  {
    if ParseAuthnResponse(status, body).Allow? {
      var success := ReadSuccess(Parse(Decode(body).value).value).value;
      BuiltPrincipalIsValid(success.principal);
    }
  }

  /** The context that claims become under a deployment. */
  function BoundContext(claims: Claims, serviceId: string, audiences: seq<string>): AuthContext {
    AuthContext(Authenticated, serviceId, audiences, Some(claims.principal), Some(claims.decisionId),
                Some(claims.policyRevision))
  }

  /** Claims that passed validation bind to every configured deployment, unchanged. */
  lemma ClaimsAlwaysBind(claims: Claims, serviceId: string, audiences: seq<string>)
    requires ValidClaims(claims) && ValidDeployment(serviceId, audiences)
    ensures IntoContext(claims, serviceId, audiences) == Ok(BoundContext(claims, serviceId, audiences))
    ensures ValidContext(BoundContext(claims, serviceId, audiences))
  {
    NormalizedDeployment(serviceId, audiences);
  }

  // ----- The outcome for one request -----

  datatype AuthnRejection = InvalidRequest | MissingCredentials | InvalidCredentials | BrokerUnavailable

  datatype AuthnOutcome = Pass(context: Value) | Reject(rejection: AuthnRejection)

  datatype Stage = RequestStage | CredentialsStage | AdmissionStage | TransportStage | DeadlineStage | ProtocolStage
                 | EncodingStage

  datatype BrokerCallError = Serialization | Transport | InvalidStatus | ResponseBody | Deadline

  /** What admission and the broker call come to. */
  datatype Exchange = Saturated | Failed(error: BrokerCallError) | Answered(status: nat, body: seq<byte>)

  /** The exchange for a request ID and a credential. */
  type Broker = (string, string) -> Exchange

  /** `authorization_value` */
  function AuthorizationValue(headers: HeaderMap): Result<Option<string>, ()> {
    var values := Get(headers, AUTHORIZATION);
    if values == [] then Ok(None)
    else if |values| > 1 || ToStr(values[0]).None? || |values[0]| > MAX_AUTHORIZATION_LEN then Err(())
    else Ok(ToStr(values[0]))
  }

  function FailureStage(error: BrokerCallError): Stage {
    match error
    case Transport => TransportStage
    case Deadline => DeadlineStage
    case _ => ProtocolStage
  }

  /** What a broker decision comes to under a configuration. */
  function Conclude(decision: AuthDecision, config: AuthnConfig): (AuthnOutcome, Option<Stage>) {
    match decision
    case Allow(claims) =>
      var context := IntoContext(claims, config.serviceId, config.audiences);
      if context.Err? then (Reject(BrokerUnavailable), Some(EncodingStage))
      else
        var encoded := EncodeAuthContext(context.value);
        if encoded.Err? then (Reject(BrokerUnavailable), Some(EncodingStage)) else (Pass(encoded.value), None)
    case Unauthenticated => (Reject(InvalidCredentials), None)
    case Unavailable => (Reject(BrokerUnavailable), Some(ProtocolStage))
  }

  /** `authenticate_with_diagnostics` */
  function Authenticate(headers: HeaderMap, requestId: string, config: AuthnConfig, broker: Broker)
    : (AuthnOutcome, Option<Stage>)
  {
    var authorization := AuthorizationValue(headers);
    if authorization.Err? then (Reject(InvalidRequest), Some(RequestStage))
    else if authorization.value.None? then
      (if config.mode == Optional then (Pass(config.anonymousContext), None)
       else (Reject(MissingCredentials), Some(CredentialsStage)))
    else
      match broker(requestId, authorization.value.value)
      case Saturated => (Reject(BrokerUnavailable), Some(AdmissionStage))
      case Failed(error) => (Reject(BrokerUnavailable), Some(FailureStage(error)))
      case Answered(status, body) => Conclude(ParseAuthnResponse(status, body), config)
  }

  /** The claims the broker granted for this request, if it was asked and granted any. */
  function GrantedClaims(headers: HeaderMap, requestId: string, broker: Broker): Option<Claims> {
    var authorization := AuthorizationValue(headers);
    if authorization.Err? || authorization.value.None? then None
    else
      match broker(requestId, authorization.value.value)
      case Answered(200, body) => ParseSuccess(body)
      case _ => None
  }

  /**
   When a request passes, both ways: with no Authorization field in optional mode, or with one
   acceptable credential for which the broker granted claims whose context fits its bound.
   */
  lemma PassesExactly(headers: HeaderMap, requestId: string, config: AuthnConfig, broker: Broker)
    requires ValidAuthnConfig(config)
    ensures Authenticate(headers, requestId, config, broker).0.Pass?
            <==> || (Get(headers, AUTHORIZATION) == [] && config.mode == Optional)
                 || var claims := GrantedClaims(headers, requestId, broker);
                    && claims.Some?
                    && |ContextBytes(BoundContext(claims.value, config.serviceId, config.audiences))| <= 6144
  {
    var claims := GrantedClaims(headers, requestId, broker);
    if claims.Some? { GrantedConcludes(headers, requestId, config, broker); }
  }

  lemma GrantedConcludes(headers: HeaderMap, requestId: string, config: AuthnConfig, broker: Broker)
    requires ValidAuthnConfig(config) && GrantedClaims(headers, requestId, broker).Some?
    ensures var claims := GrantedClaims(headers, requestId, broker).value;
            var context := BoundContext(claims, config.serviceId, config.audiences);
            var encoded := EncodeAuthContext(context);
            var outcome := Authenticate(headers, requestId, config, broker);
            && ValidContext(context)
            && (|ContextBytes(context)| <= 6144 ==> encoded.Ok? && outcome == (Pass(encoded.value), None))
            && (|ContextBytes(context)| > 6144 ==> outcome == (Reject(BrokerUnavailable), Some(EncodingStage)))
  {
    var body := broker(requestId, AuthorizationValue(headers).value.value).body;
    var claims := ParseSuccess(body).value;
    assert ParseAuthnResponse(200, body) == Allow(claims);
    ParsedClaimsAreValid(200, body);
    ClaimsAlwaysBind(claims, config.serviceId, config.audiences);
    EncodesExactlyWithinBound(BoundContext(claims, config.serviceId, config.audiences));
  }

  /**
   Every passed header decodes to a context bound to the configured service and audiences. It is
   anonymous exactly when no credential was supplied; otherwise it carries the claims the broker
   granted for that credential, so a supplied credential never becomes anonymous access.
   */
  lemma PassIsBound(headers: HeaderMap, requestId: string, config: AuthnConfig, broker: Broker)
    requires ValidAuthnConfig(config) && Authenticate(headers, requestId, config, broker).0.Pass?
    ensures var decoded := DecodeAuthContext(Authenticate(headers, requestId, config, broker).0.context);
            && decoded.Ok?
            && decoded.value.serviceId == config.serviceId
            && decoded.value.audiences == config.audiences
            && (decoded.value.state == Anonymous <==> Get(headers, AUTHORIZATION) == [])
            && (Get(headers, AUTHORIZATION) == [] ==> config.mode == Optional)
            && (Get(headers, AUTHORIZATION) != [] ==>
                  var claims := GrantedClaims(headers, requestId, broker);
                  claims.Some? && decoded.value == BoundContext(claims.value, config.serviceId, config.audiences))
  {
    if Get(headers, AUTHORIZATION) == [] {
      EncodeThenDecode(AnonymousContext(config));
    } else {
      assert GrantedClaims(headers, requestId, broker).Some?;
      GrantedConcludes(headers, requestId, config, broker);
      var claims := GrantedClaims(headers, requestId, broker).value;
      EncodeThenDecode(BoundContext(claims, config.serviceId, config.audiences));
    }
  }

  /**
   Each rejection has its own cause: an unreadable credential, a missing one, a broker that says 401, and
   every other failure of broker, admission or encoding. No broker failure looks like a bad credential.
   */
  lemma RejectsExactly(headers: HeaderMap, requestId: string, config: AuthnConfig, broker: Broker)
    requires ValidAuthnConfig(config)
    ensures var outcome := Authenticate(headers, requestId, config, broker).0;
            var authorization := AuthorizationValue(headers);
            var asked := authorization.Ok? && authorization.value.Some?;
            && (outcome == Reject(InvalidRequest) <==> authorization.Err?)
            && (outcome == Reject(MissingCredentials) <==> Get(headers, AUTHORIZATION) == [] && config.mode == Required)
            && (outcome == Reject(InvalidCredentials)
                <==> asked && exists body :: broker(requestId, authorization.value.value) == Answered(401, body))
            && (outcome == Reject(BrokerUnavailable)
                <==> && asked
                     && (forall body :: broker(requestId, authorization.value.value) != Answered(401, body))
                     && var claims := GrantedClaims(headers, requestId, broker);
                        claims.Some? ==>
                          |ContextBytes(BoundContext(claims.value, config.serviceId, config.audiences))| > 6144)
  {
    PassesExactly(headers, requestId, config, broker);
    var authorization := AuthorizationValue(headers);
    if authorization.Ok? && authorization.value.Some? {
      var exchange := broker(requestId, authorization.value.value);
      if exchange.Answered? && exchange.status == 401 {
        assert broker(requestId, authorization.value.value) == Answered(401, exchange.body);
      }
    }
  }

  /** The encoding failure stage is reached only through the size bound. */
  lemma EncodingFailsOnlyOnSize(headers: HeaderMap, requestId: string, config: AuthnConfig, broker: Broker)
    requires ValidAuthnConfig(config)
    ensures Authenticate(headers, requestId, config, broker).1 == Some(EncodingStage)
            <==> var claims := GrantedClaims(headers, requestId, broker);
                 && claims.Some?
                 && |ContextBytes(BoundContext(claims.value, config.serviceId, config.audiences))| > 6144
  {
    if GrantedClaims(headers, requestId, broker).Some? { GrantedConcludes(headers, requestId, config, broker); }
  }

  /** Without one acceptable credential the broker has no influence on the outcome. */
  lemma BrokerNotConsulted(headers: HeaderMap, requestId: string, config: AuthnConfig, one: Broker, other: Broker)
    requires !(AuthorizationValue(headers).Ok? && AuthorizationValue(headers).value.Some?)
    ensures Authenticate(headers, requestId, config, one) == Authenticate(headers, requestId, config, other)
  {
  }

  /** Authentication reads one field only. */
  lemma AuthenticateReads(m: HeaderMap, n: HeaderMap, requestId: string, config: AuthnConfig, broker: Broker)
    requires Get(m, AUTHORIZATION) == Get(n, AUTHORIZATION)
    ensures Authenticate(m, requestId, config, broker) == Authenticate(n, requestId, config, broker)
  {
  }

  // ----- What a rejection answers -----

  function RejectionStatus(r: AuthnRejection): nat {
    match r
    case InvalidRequest => 400
    case MissingCredentials => 401
    case InvalidCredentials => 401
    case BrokerUnavailable => 503
  }

  function BearerChallenge(r: AuthnRejection, realm: string): Option<string> {
    match r
    case MissingCredentials => Some("Bearer realm=\"" + realm + "\"")
    case InvalidCredentials => Some("Bearer realm=\"" + realm + "\", error=\"invalid_token\"")
    case InvalidRequest => Some("Bearer realm=\"" + realm + "\", error=\"invalid_request\"")
    case BrokerUnavailable => None
  }
}
