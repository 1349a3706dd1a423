/**
 The version-one authentication context: validating constructors, the wire form and the
 canonical base64url header value.
 */
module Metadata {
  import opened Wrappers
  import opened Utf8
  import opened Text
  import opened Json
  import opened JsonObject
  import opened Ordering
  import Base64Url

  const MAX_ENCODED_LEN := 8192
  const MAX_IDENTITY_LEN := 512
  const MAX_CONTEXT_LEN := 256
  const MAX_SESSION_LEN := 512
  const MAX_ITEMS := 64
  const MAX_AUDIENCES := 16
  const MAX_SCOPE_LEN := 2048

  datatype MetadataError =
    | InvalidText(field: string)
    | InvalidCollection(field: string)
    | InvalidTimeRange
    | DuplicateHeader
    | MissingHeader
    | ContextTooLarge
    | InvalidEncoding
    | InvalidSchema
    | UnsupportedVersion(version: nat)

  datatype Actor = Actor(issuer: string, subject: string)

  datatype Principal = Principal(
    issuer: string,
    subject: string,
    tenantId: Option<string>,
    roles: seq<string>,
    scopes: seq<string>,
    acr: Option<string>,
    amr: seq<string>,
    actor: Option<Actor>,
    authTime: Option<u64>,
    expiresAt: Option<u64>,
    sessionId: Option<string>)

  datatype AuthState = Anonymous | Authenticated

  datatype AuthContext = AuthContext(
    state: AuthState,
    serviceId: string,
    audiences: seq<string>,
    principal: Option<Principal>,
    decisionId: Option<string>,
    policyRevision: Option<string>)

  // ----- Validators -----

  predicate IsText(value: string, maximum: nat) {
    && value != ""
    && |Encode(value)| <= maximum
    && Trim(value) == value
    && forall i :: 0 <= i < |value| ==> !IsControl(value[i])
  }

  predicate IsAsciiText(value: string, maximum: nat) {
    && IsText(value, maximum)
    && forall i :: 0 <= i < |value| ==> value[i] < 0x80 as char && value[i] != ' '
  }

  function ValidateText(field: string, value: string, maximum: nat): Result<string, MetadataError> {
    if IsText(value, maximum) then Ok(value) else Err(InvalidText(field))
  }

  function ValidateOption(field: string, value: Option<string>, maximum: nat)
    : Result<Option<string>, MetadataError>
  {
    if value.Some? && !IsText(value.value, maximum) then Err(InvalidText(field)) else Ok(value)
  }

  predicate AllTokens(values: seq<string>) { forall v :: v in values ==> IsToken(v) }

  function ValidatedTokens(field: string, values: seq<string>): Result<seq<string>, MetadataError> {
    if |values| > MAX_ITEMS || !AllTokens(values) then Err(InvalidCollection(field))
    else Ok(SortDedup(values))
  }

  /** The characters of a space-separated scope list. */
  function TotalLength(values: seq<string>): nat {
    if values == [] then 0 else |values[0]| + TotalLength(values[1..])
  }

  function ScopeLength(values: seq<string>): nat {
    TotalLength(values) + (if values == [] then 0 else |values| - 1)
  }

  function ValidatedScopes(values: seq<string>): Result<seq<string>, MetadataError> {
    var scopes :- ValidatedTokens("scopes", values);
    if ScopeLength(scopes) > MAX_SCOPE_LEN then Err(InvalidCollection("scopes")) else Ok(scopes)
  }

  function ValidatedDeployment(serviceId: string, audiences: seq<string>)
    : Result<(string, seq<string>), MetadataError>
  {
    if !IsToken(serviceId) then Err(InvalidText("service_id"))
    else if audiences == [] || |audiences| > MAX_AUDIENCES then Err(InvalidCollection("audiences"))
    else if exists a :: a in audiences && !IsAsciiText(a, MAX_CONTEXT_LEN) then Err(InvalidText("audience"))
    else Ok((serviceId, SortDedup(audiences)))
  }

  // ----- Constructors -----

  function NewActor(issuer: string, subject: string): Result<Actor, MetadataError> {
    var i :- ValidateText("actor.issuer", issuer, MAX_IDENTITY_LEN);
    var s :- ValidateText("actor.subject", subject, MAX_IDENTITY_LEN);
    Ok(Actor(i, s))
  }

  function NewPrincipal(issuer: string, subject: string): Result<Principal, MetadataError> {
    var i :- ValidateText("issuer", issuer, MAX_IDENTITY_LEN);
    var s :- ValidateText("subject", subject, MAX_IDENTITY_LEN);
    Ok(Principal(i, s, None, [], [], None, [], None, None, None, None))
  }

  function WithTenantId(p: Principal, tenantId: Option<string>): Result<Principal, MetadataError> {
    var v :- ValidateOption("tenant_id", tenantId, MAX_IDENTITY_LEN);
    Ok(p.(tenantId := v))
  }

  function WithRoles(p: Principal, roles: seq<string>): Result<Principal, MetadataError> {
    var v :- ValidatedTokens("roles", roles);
    Ok(p.(roles := v))
  }

  function WithScopes(p: Principal, scopes: seq<string>): Result<Principal, MetadataError> {
    var v :- ValidatedScopes(scopes);
    Ok(p.(scopes := v))
  }

  function WithAcr(p: Principal, acr: Option<string>): Result<Principal, MetadataError> {
    var v :- ValidateOption("acr", acr, MAX_CONTEXT_LEN);
    Ok(p.(acr := v))
  }

  function WithAmr(p: Principal, amr: seq<string>): Result<Principal, MetadataError> {
    var v :- ValidatedTokens("amr", amr);
    Ok(p.(amr := v))
  }

  function WithActor(p: Principal, actor: Option<Actor>): Principal { p.(actor := actor) }

  predicate TimesInOrder(authTime: Option<u64>, expiresAt: Option<u64>) {
    authTime.Some? && expiresAt.Some? ==> authTime.value < expiresAt.value
  }

  function WithTimes(p: Principal, authTime: Option<u64>, expiresAt: Option<u64>)
    : Result<Principal, MetadataError>
  {
    if !TimesInOrder(authTime, expiresAt) then Err(InvalidTimeRange)
    else Ok(p.(authTime := authTime, expiresAt := expiresAt))
  }

  function WithSessionId(p: Principal, sessionId: Option<string>): Result<Principal, MetadataError> {
    var v :- ValidateOption("session_id", sessionId, MAX_SESSION_LEN);
    Ok(p.(sessionId := v))
  }

  function NewAnonymous(serviceId: string, audiences: seq<string>): Result<AuthContext, MetadataError> {
    var d :- ValidatedDeployment(serviceId, audiences);
    Ok(AuthContext(Anonymous, d.0, d.1, None, None, None))
  }

  function NewAuthenticated(serviceId: string, audiences: seq<string>, principal: Principal,
                            decisionId: string, policyRevision: string)
    : Result<AuthContext, MetadataError>
  {
    var d :- ValidatedDeployment(serviceId, audiences);
    var decision :- ValidateText("decision_id", decisionId, MAX_CONTEXT_LEN);
    var revision :- ValidateText("policy_revision", policyRevision, MAX_CONTEXT_LEN);
    Ok(AuthContext(Authenticated, d.0, d.1, Some(principal), Some(decision), Some(revision)))
  }

  // ----- What the constructors guarantee -----

  predicate IsOptText(value: Option<string>, maximum: nat) { value.Some? ==> IsText(value.value, maximum) }

  predicate IsTokenList(values: seq<string>) {
    |values| <= MAX_ITEMS && AllTokens(values) && Increasing(values)
  }

  predicate ValidActor(a: Actor) {
    IsText(a.issuer, MAX_IDENTITY_LEN) && IsText(a.subject, MAX_IDENTITY_LEN)
  }

  predicate ValidPrincipal(p: Principal) {
    && IsText(p.issuer, MAX_IDENTITY_LEN) && IsText(p.subject, MAX_IDENTITY_LEN)
    && IsOptText(p.tenantId, MAX_IDENTITY_LEN)
    && IsTokenList(p.roles)
    && IsTokenList(p.scopes) && ScopeLength(p.scopes) <= MAX_SCOPE_LEN
    && IsOptText(p.acr, MAX_CONTEXT_LEN)
    && IsTokenList(p.amr)
    && (p.actor.Some? ==> ValidActor(p.actor.value))
    && TimesInOrder(p.authTime, p.expiresAt)
    && IsOptText(p.sessionId, MAX_SESSION_LEN)
  }

  predicate ValidDeployment(serviceId: string, audiences: seq<string>) {
    && IsToken(serviceId)
    && 0 < |audiences| <= MAX_AUDIENCES
    && (forall a :: a in audiences ==> IsAsciiText(a, MAX_CONTEXT_LEN))
    && Increasing(audiences)
  }

  predicate ValidContext(c: AuthContext) {
    && ValidDeployment(c.serviceId, c.audiences)
    && match c.state
       case Anonymous => c.principal.None? && c.decisionId.None? && c.policyRevision.None?
       case Authenticated =>
         && c.principal.Some? && ValidPrincipal(c.principal.value)
         && c.decisionId.Some? && IsText(c.decisionId.value, MAX_CONTEXT_LEN)
         && c.policyRevision.Some? && IsText(c.policyRevision.value, MAX_CONTEXT_LEN)
  }

  // ----- The wire form -----

  datatype WireActor = WireActor(issuer: string, subject: string)

  datatype WirePrincipal = WirePrincipal(
    issuer: string,
    subject: string,
    tenantId: Option<string>,
    roles: seq<string>,
    scopes: seq<string>,
    acr: Option<string>,
    amr: seq<string>,
    actor: Option<WireActor>,
    authTime: Option<u64>,
    expiresAt: Option<u64>,
    sessionId: Option<string>)

  datatype WireContext = WireContext(
    version: nat,
    state: AuthState,
    serviceId: string,
    audiences: seq<string>,
    principal: Option<WirePrincipal>,
    decisionId: Option<string>,
    policyRevision: Option<string>)

  function ActorToWire(a: Actor): WireActor { WireActor(a.issuer, a.subject) }

  function PrincipalToWire(p: Principal): WirePrincipal {
    WirePrincipal(p.issuer, p.subject, p.tenantId, p.roles, p.scopes, p.acr, p.amr,
                  if p.actor.None? then None else Some(ActorToWire(p.actor.value)),
                  p.authTime, p.expiresAt, p.sessionId)
  }

  function ContextToWire(c: AuthContext): WireContext {
    WireContext(1, c.state, c.serviceId, c.audiences,
                if c.principal.None? then None else Some(PrincipalToWire(c.principal.value)),
                c.decisionId, c.policyRevision)
  }

  function ActorFromWire(w: WireActor): Result<Actor, MetadataError> { NewActor(w.issuer, w.subject) }

  function OptActorFromWire(w: Option<WireActor>): Result<Option<Actor>, MetadataError> {
    if w.None? then Ok(None) else var a :- ActorFromWire(w.value); Ok(Some(a))
  }

  function PrincipalFromWire(w: WirePrincipal): Result<Principal, MetadataError> {
    var p0 :- NewPrincipal(w.issuer, w.subject);
    var p1 :- WithTenantId(p0, w.tenantId);
    var p2 :- WithRoles(p1, w.roles);
    var p3 :- WithScopes(p2, w.scopes);
    var p4 :- WithAcr(p3, w.acr);
    var p5 :- WithAmr(p4, w.amr);
    var actor :- OptActorFromWire(w.actor);
    var p6 :- WithTimes(WithActor(p5, actor), w.authTime, w.expiresAt);
    WithSessionId(p6, w.sessionId)
  }

  function ContextFromWire(w: WireContext): Result<AuthContext, MetadataError> {
    if w.version != 1 then Err(UnsupportedVersion(w.version))
    else if w.state.Anonymous? && w.principal.None? && w.decisionId.None? && w.policyRevision.None? then
      NewAnonymous(w.serviceId, w.audiences)
    else if w.state.Authenticated? && w.principal.Some? && w.decisionId.Some? && w.policyRevision.Some? then
      var p :- PrincipalFromWire(w.principal.value);
      NewAuthenticated(w.serviceId, w.audiences, p, w.decisionId.value, w.policyRevision.value)
    else Err(InvalidSchema)
  }

  // ----- Serialization -----

  const ACTOR_KEYS: seq<string> := ["issuer", "subject"]
  const PRINCIPAL_KEYS: seq<string> := ["issuer", "subject", "tenant_id", "roles", "scopes", "acr", "amr",
                                        "actor", "auth_time", "expires_at", "session_id"]
  const CONTEXT_KEYS: seq<string> := ["version", "state", "service_id", "audiences", "principal",
                                      "decision_id", "policy_revision"]

  function ActorFields(a: WireActor): Fields {
    [("issuer", Some(Str(a.issuer))), ("subject", Some(Str(a.subject)))]
  }

  function WriteActor(a: WireActor): Json { Obj(Build(ActorFields(a))) }

  function PrincipalFields(p: WirePrincipal): Fields {
    [("issuer", Some(Str(p.issuer))),
     ("subject", Some(Str(p.subject))),
     ("tenant_id", WriteOptString(p.tenantId)),
     ("roles", WriteNonEmpty(p.roles)),
     ("scopes", WriteNonEmpty(p.scopes)),
     ("acr", WriteOptString(p.acr)),
     ("amr", WriteNonEmpty(p.amr)),
     ("actor", if p.actor.None? then None else Some(WriteActor(p.actor.value))),
     ("auth_time", WriteOptU64(p.authTime)),
     ("expires_at", WriteOptU64(p.expiresAt)),
     ("session_id", WriteOptString(p.sessionId))]
  }

  function WritePrincipal(p: WirePrincipal): Json { Obj(Build(PrincipalFields(p))) }

  function StateName(s: AuthState): string {
    match s case Anonymous => "anonymous" case Authenticated => "authenticated"
  }

  function ContextFields(c: WireContext): Fields {
    [("version", Some(Number(c.version))),
     ("state", Some(Str(StateName(c.state)))),
     ("service_id", Some(Str(c.serviceId))),
     ("audiences", Some(WriteList(c.audiences))),
     ("principal", if c.principal.None? then None else Some(WritePrincipal(c.principal.value))),
     ("decision_id", WriteOptString(c.decisionId)),
     ("policy_revision", WriteOptString(c.policyRevision))]
  }

  function WriteContext(c: WireContext): Json { Obj(Build(ContextFields(c))) }

  // ----- Deserialization -----

  function ReadActor(j: Json): Option<WireActor> {
    if !j.Obj? || !WellKeyed(j.members, ACTOR_KEYS) then None
    else
      var m := j.members;
      var issuer :- ReadString(Lookup(m, "issuer"));
      var subject :- ReadString(Lookup(m, "subject"));
      Some(WireActor(issuer, subject))
  }

  function ReadOptActor(o: Option<Json>): Option<Option<WireActor>> {
    if o.None? || o.value.Null? then Some(None) else var a :- ReadActor(o.value); Some(Some(a))
  }

  function ReadPrincipal(j: Json): Option<WirePrincipal> {
    if !j.Obj? || !WellKeyed(j.members, PRINCIPAL_KEYS) then None
    else
      var m := j.members;
      var issuer :- ReadString(Lookup(m, "issuer"));
      var subject :- ReadString(Lookup(m, "subject"));
      var tenantId :- ReadOptString(Lookup(m, "tenant_id"));
      var roles :- ReadDefaultList(Lookup(m, "roles"));
      var scopes :- ReadDefaultList(Lookup(m, "scopes"));
      var acr :- ReadOptString(Lookup(m, "acr"));
      var amr :- ReadDefaultList(Lookup(m, "amr"));
      var actor :- ReadOptActor(Lookup(m, "actor"));
      var authTime :- ReadOptU64(Lookup(m, "auth_time"));
      var expiresAt :- ReadOptU64(Lookup(m, "expires_at"));
      var sessionId :- ReadOptString(Lookup(m, "session_id"));
      Some(WirePrincipal(issuer, subject, tenantId, roles, scopes, acr, amr, actor, authTime, expiresAt, sessionId))
  }

  function ReadOptPrincipal(o: Option<Json>): Option<Option<WirePrincipal>> {
    if o.None? || o.value.Null? then Some(None) else var p :- ReadPrincipal(o.value); Some(Some(p))
  }

  function StateNamed(s: string): Option<AuthState> {
    if s == "anonymous" then Some(Anonymous) else if s == "authenticated" then Some(Authenticated) else None
  }

  /** A unit variant is read from its name, or from an object with that one key and a null. */
  function ReadState(o: Option<Json>): Option<AuthState> {
    match o
    case Some(Str(s)) => StateNamed(s)
    case Some(Obj(Member(key, Null, NoMembers))) => StateNamed(key)
    case _ => None
  }

  function ReadContext(j: Json): Option<WireContext> {
    if !j.Obj? || !WellKeyed(j.members, CONTEXT_KEYS) then None
    else
      var m := j.members;
      var version :- ReadU8(Lookup(m, "version"));
      var state :- ReadState(Lookup(m, "state"));
      var serviceId :- ReadString(Lookup(m, "service_id"));
      var audiences :- ReadList(Lookup(m, "audiences"));
      var principal :- ReadOptPrincipal(Lookup(m, "principal"));
      var decisionId :- ReadOptString(Lookup(m, "decision_id"));
      var policyRevision :- ReadOptString(Lookup(m, "policy_revision"));
      Some(WireContext(version, state, serviceId, audiences, principal, decisionId, policyRevision))
  }

  // ----- The header value -----

  /** The JSON bytes of a context. */
  function ContextBytes(c: AuthContext): seq<byte> { Encode(Print(WriteContext(ContextToWire(c)))) }

  function EncodeAuthContext(c: AuthContext): Result<seq<byte>, MetadataError> {
    var encoded := Base64Url.Encode(ContextBytes(c));
    if |encoded| > MAX_ENCODED_LEN then Err(ContextTooLarge) else Ok(encoded)
  }

  /** `serde_json::from_slice` into the wire struct. */
  function ReadContextBytes(b: seq<byte>): Option<WireContext> {
    var text :- Decode(b);
    var json :- Parse(text);
    ReadContext(json)
  }

  function DecodeAuthContext(value: seq<byte>): Result<AuthContext, MetadataError> {
    if ToStr(value).None? then Err(InvalidEncoding)
    else if |value| > MAX_ENCODED_LEN then Err(ContextTooLarge)
    else if value == [] then Err(InvalidEncoding)
    else
      var decoded := Base64Url.Decode(value);
      if decoded.None? || Base64Url.Encode(decoded.value) != value then Err(InvalidEncoding)
      else
        var wire := ReadContextBytes(decoded.value);
        if wire.None? then Err(InvalidSchema) else ContextFromWire(wire.value)
  }
}
