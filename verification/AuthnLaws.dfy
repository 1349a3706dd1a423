/**
 What broker answers and the environment mean, both ways: which answers grant which claims, which
 environments load as which configuration, and why a request fails.
 */
module AuthnLaws {
  import opened Wrappers
  import opened Utf8
  import opened Text
  import opened Json
  import opened JsonLaws
  import opened JsonObject
  import opened Headers
  import opened Settings
  import opened Metadata
  import opened MetadataLaws
  import opened MetadataBounds
  import opened Authn
  import Base64Url

  // ----- The schema of a successful answer -----

  /** The members of an answer, each under its own name. */
  function SuccessFields(s: AuthnSuccess): JsonObject.Fields {
    [("version", Some(Number(s.version))),
     ("subject", Some(Str(s.principal.subject))),
     ("issuer", Some(Str(s.principal.issuer))),
     ("tenant_id", WriteOptString(s.principal.tenantId)),
     ("roles", WriteNonEmpty(s.principal.roles)),
     ("scopes", WriteNonEmpty(s.principal.scopes)),
     ("acr", WriteOptString(s.principal.acr)),
     ("amr", WriteNonEmpty(s.principal.amr)),
     ("actor", if s.principal.actor.None? then None else Some(WriteActor(s.principal.actor.value))),
     ("auth_time", WriteOptU64(s.principal.authTime)),
     ("expires_at", WriteOptU64(s.principal.expiresAt)),
     ("session_id", WriteOptString(s.principal.sessionId)),
     ("decision_id", Some(Str(s.decisionId))),
     ("policy_revision", Some(Str(s.policyRevision)))]
  }

  function WriteSuccess(s: AuthnSuccess): Json { Obj(Build(SuccessFields(s))) }

  /** `m` carries the answer `s`, member by member. */
  predicate CarriesSuccess(m: Members, s: AuthnSuccess) {
    && CarriesIdentity(m, s.principal) && CarriesSession(m, s.principal)
    && ReadU8(Lookup(m, "version")) == Some(s.version)
    && ReadString(Lookup(m, "decision_id")) == Some(s.decisionId)
    && ReadString(Lookup(m, "policy_revision")) == Some(s.policyRevision)
  }

  /** An answer is read exactly from an object with known, distinct keys that carries it. */
  lemma ReadSuccessExactly(j: Json, s: AuthnSuccess)
    ensures ReadSuccess(j) == Some(s)
            <==> j.Obj? && WellKeyed(j.members, SUCCESS_KEYS) && CarriesSuccess(j.members, s)
  {
  }

  lemma SuccessFieldsFound(s: AuthnSuccess)
    ensures var m := Build(SuccessFields(s));
            && WellKeyed(m, SUCCESS_KEYS) && |SUCCESS_KEYS| == |SuccessFields(s)| == 14
            && forall i :: 0 <= i < 14 ==> Lookup(m, SUCCESS_KEYS[i]) == SuccessFields(s)[i].1
  {
    var f := SuccessFields(s);
    assert forall i :: 0 <= i < 14 ==> f[i].0 == SUCCESS_KEYS[i];
    BuildLookups(f);
    BuildWellKeyed(f, SUCCESS_KEYS);
  }

  lemma WrittenCarriesSuccessIdentity(s: AuthnSuccess)
    ensures CarriesIdentity(Build(SuccessFields(s)), s.principal)
  {
    SuccessFieldsFound(s);
    var m, f, k := Build(SuccessFields(s)), SuccessFields(s), SUCCESS_KEYS;
    ReadWrittenDefaultList(s.principal.roles);
    ReadWrittenDefaultList(s.principal.scopes);
    assert Lookup(m, k[1]) == f[1].1 && Lookup(m, k[2]) == f[2].1 && Lookup(m, k[3]) == f[3].1;
    assert Lookup(m, k[4]) == f[4].1 && Lookup(m, k[5]) == f[5].1;
  }

  lemma WrittenCarriesMethods(s: AuthnSuccess)
    ensures var m := Build(SuccessFields(s));
            && ReadOptString(Lookup(m, "acr")) == Some(s.principal.acr)
            && ReadDefaultList(Lookup(m, "amr")) == Some(s.principal.amr)
            && ReadOptActor(Lookup(m, "actor")) == Some(s.principal.actor)
  {
    SuccessFieldsFound(s);
    var m, f, k := Build(SuccessFields(s)), SuccessFields(s), SUCCESS_KEYS;
    ReadWrittenDefaultList(s.principal.amr);
    if s.principal.actor.Some? { ReadWrittenActor(s.principal.actor.value); }
    assert Lookup(m, k[6]) == f[6].1 && Lookup(m, k[7]) == f[7].1 && Lookup(m, k[8]) == f[8].1;
  }

  lemma WrittenCarriesTimes(s: AuthnSuccess)
    ensures var m := Build(SuccessFields(s));
            && ReadOptU64(Lookup(m, "auth_time")) == Some(s.principal.authTime)
            && ReadOptU64(Lookup(m, "expires_at")) == Some(s.principal.expiresAt)
            && ReadOptString(Lookup(m, "session_id")) == Some(s.principal.sessionId)
  {
    SuccessFieldsFound(s);
    var m, f, k := Build(SuccessFields(s)), SuccessFields(s), SUCCESS_KEYS;
    assert Lookup(m, k[9]) == f[9].1 && Lookup(m, k[10]) == f[10].1 && Lookup(m, k[11]) == f[11].1;
  }

  /** Writing an answer and reading it back gives the answer. */
  lemma ReadWrittenSuccess(s: AuthnSuccess)
    requires s.version < 256
    ensures ReadSuccess(WriteSuccess(s)) == Some(s)
  {
    SuccessFieldsFound(s);
    WrittenCarriesSuccessIdentity(s);
    WrittenCarriesMethods(s);
    WrittenCarriesTimes(s);
    var m, f, k := Build(SuccessFields(s)), SuccessFields(s), SUCCESS_KEYS;
    assert Lookup(m, k[0]) == f[0].1 && Lookup(m, k[12]) == f[12].1 && Lookup(m, k[13]) == f[13].1;
    ReadSuccessExactly(WriteSuccess(s), s);
  }

  // ----- Which answers grant what -----

  predicate AcceptableSuccess(s: AuthnSuccess) {
    && s.version == 1 && AcceptablePrincipal(s.principal)
    && PlainText(s.decisionId, 256) && PlainText(s.policyRevision, 256)
  }

  /** The claims of an answer: its fields, with the three lists in normal form. */
  predicate ClaimsOf(claims: Claims, s: AuthnSuccess) {
    && PrincipalToWire(claims.principal) == NormalizedLists(s.principal)
    && claims.decisionId == s.decisionId && claims.policyRevision == s.policyRevision
  }

  lemma BindsExactly(serviceId: string, audiences: seq<string>, p: Principal, decisionId: string,
                     policyRevision: string)
    requires ValidDeployment(serviceId, audiences)
    ensures NewAuthenticated(serviceId, audiences, p, decisionId, policyRevision).Ok?
            <==> PlainText(decisionId, 256) && PlainText(policyRevision, 256)
  {
    NormalizedDeployment(serviceId, audiences);
    TextExactly(decisionId, 256);
    TextExactly(policyRevision, 256);
  }

  /** The placeholder of claim validation is a deployment like any other. */
  lemma PlaceholderIsValid()
    ensures ValidDeployment("validation", ["validation"])
  {
    assert IsToken("validation");
    AsciiTextExactly("validation", 256);
  }

  lemma WireDetermines(p: Principal, q: Principal)
    requires PrincipalToWire(p) == PrincipalToWire(q)
    ensures p == q
  {
  }

  lemma ClaimsExactly(s: AuthnSuccess, claims: Claims)
    ensures AuthenticatedClaims(s) == Some(claims) <==> AcceptableSuccess(s) && ClaimsOf(claims, s)
  {
    PrincipalAcceptedExactly(s.principal);
    var principal := PrincipalFromWire(s.principal);
    if principal.Ok? {
      BuiltPrincipalFields(s.principal);
      PlaceholderIsValid();
      BindsExactly("validation", ["validation"], principal.value, s.decisionId, s.policyRevision);
      if ClaimsOf(claims, s) { WireDetermines(claims.principal, principal.value); }
    }
  }

  /** `body` is a text in UTF-8 whose JSON object carries `s`. */
  predicate Carries(body: seq<byte>, s: AuthnSuccess) {
    && Decode(body).Some? && Parse(Decode(body).value).Some?
    && var j := Parse(Decode(body).value).value;
       j.Obj? && WellKeyed(j.members, SUCCESS_KEYS) && CarriesSuccess(j.members, s)
  }

  /**
   Which answers grant which claims, both ways: status 200 and an object that carries acceptable fields,
   each under its own name; the claims are those fields.
   */
  lemma AllowedExactly(status: nat, body: seq<byte>, claims: Claims)
    ensures ParseAuthnResponse(status, body) == Allow(claims)
            <==> status == 200 && exists s :: Carries(body, s) && AcceptableSuccess(s) && ClaimsOf(claims, s)
    ensures ParseAuthnResponse(status, body) == Unauthenticated <==> status == 401
  {
    if Decode(body).Some? && Parse(Decode(body).value).Some? {
      var j := Parse(Decode(body).value).value;
      if ReadSuccess(j).Some? {
        var s := ReadSuccess(j).value;
        ReadSuccessExactly(j, s);
        ClaimsExactly(s, claims);
        assert Carries(body, s);
      }
      forall s | Carries(body, s) ensures ReadSuccess(j) == Some(s) { ReadSuccessExactly(j, s); }
    }
  }

  /** The round trip: a written answer grants exactly its fields if they are acceptable, and nothing otherwise. */
  lemma WrittenAnswerGrants(s: AuthnSuccess, claims: Claims)
    requires s.version < 256
    ensures ParseAuthnResponse(200, Encode(Print(WriteSuccess(s)))) == Allow(claims)
            <==> AcceptableSuccess(s) && ClaimsOf(claims, s)
  {
    DecodeEncode(Print(WriteSuccess(s)));
    ParsePrint(WriteSuccess(s));
    ReadWrittenSuccess(s);
    ClaimsExactly(s, claims);
  }

  // ----- The credential -----

  /** Nothing, one visible text of at most 8192 characters, or an error. */
  lemma AuthorizationExactly(headers: HeaderMap, s: string)
    ensures AuthorizationValue(headers) == Ok(None) <==> Get(headers, "authorization") == []
    ensures AuthorizationValue(headers) == Ok(Some(s))
            <==> Get(headers, "authorization") == [Encode(s)] && IsVisible(s) && |s| <= 8192
  {
    var values := Get(headers, AUTHORIZATION);
    if values != [] { ToStrExactly(values[0], s); }
    if IsVisible(s) { EncodeAscii(s); }
  }

  // ----- Where a request failed -----

  /** The broker was asked, and this is what came of it. */
  predicate Asked(headers: HeaderMap, requestId: string, broker: Broker, exchange: Exchange) {
    && AuthorizationValue(headers).Ok? && AuthorizationValue(headers).value.Some?
    && broker(requestId, AuthorizationValue(headers).value.value) == exchange
  }

  /** Every failure is reported at its own stage, success and a broker's 401 at none. */
  lemma StagesExactly(headers: HeaderMap, requestId: string, config: AuthnConfig, broker: Broker)
    requires ValidAuthnConfig(config)
    ensures var (outcome, stage) := Authenticate(headers, requestId, config, broker);
            && (stage == Some(RequestStage) <==> AuthorizationValue(headers).Err?)
            && (stage == Some(CredentialsStage) <==> outcome == Reject(MissingCredentials))
            && (stage == Some(AdmissionStage) <==> Asked(headers, requestId, broker, Saturated))
            && (stage == Some(TransportStage) <==> Asked(headers, requestId, broker, Failed(Transport)))
            && (stage == Some(DeadlineStage) <==> Asked(headers, requestId, broker, Failed(BrokerCallError.Deadline)))
            && (stage == None <==> outcome.Pass? || outcome == Reject(InvalidCredentials))
  {
    if GrantedClaims(headers, requestId, broker).Some? { GrantedConcludes(headers, requestId, config, broker); }
  }

  // ----- Numbers in the environment -----

  function Zeros(k: nat): string { if k == 0 then "" else Zeros(k - 1) + "0" }

  lemma {:induction false} ZerosAreDigits(k: nat)
    ensures forall i :: 0 <= i < |Zeros(k)| ==> Zeros(k)[i] == '0'
    ensures NatOf(Zeros(k)) == 0
  {
    if k == 0 {
    } else {
      ZerosAreDigits(k - 1);
      assert Zeros(k)[..|Zeros(k)| - 1] == Zeros(k - 1);
    }
  }

  /** `s` spells `n` in decimal, after an optional plus sign and leading zeros. */
  ghost predicate SpellsNumber(s: string, n: nat) {
    exists k :: s == Zeros(k) + PrintNat(n) || s == "+" + Zeros(k) + PrintNat(n)
  }

  lemma {:induction false} ZerosThenNumber(k: nat, n: nat)
    ensures AllDigits(Zeros(k) + PrintNat(n)) && NatOf(Zeros(k) + PrintNat(n)) == n
  {
    ZerosAreDigits(k);
    PrintNatDigits(n);
    var ds := Zeros(k) + PrintNat(n);
    if n < 10 {
      assert ds[..|ds| - 1] == Zeros(k);
    } else {
      ZerosThenNumber(k, n / 10);
      assert ds[..|ds| - 1] == Zeros(k) + PrintNat(n / 10);
    }
  }

  /** Every digit string is zeros and then the number it stands for. */
  lemma {:induction false} DigitsAreZerosThenNumber(ds: string) returns (k: nat)
    requires ds != "" && AllDigits(ds)
    ensures ds == Zeros(k) + PrintNat(NatOf(ds))
  {
    var front, last := ds[..|ds| - 1], ds[|ds| - 1];
    assert IsDigit(last) && ds == front + [last];
    if front == "" {
      k := 0;
    } else {
      var j := DigitsAreZerosThenNumber(front);
      if NatOf(front) == 0 {
        k := j + 1;
        assert PrintNat(0) == "0" && front == Zeros(j) + "0";
      } else {
        k := j;
        assert NatOf(ds) / 10 == NatOf(front);
      }
    }
  }

  lemma DigitsRead(digits: string)
    requires digits != "" && AllDigits(digits)
    ensures ParseUnsigned(digits) == Some(NatOf(digits)) && ParseUnsigned("+" + digits) == Some(NatOf(digits))
  {
    DigitRunOf(digits, "");
    assert digits + "" == digits;
    assert IsDigit(digits[0]);
    assert ("+" + digits)[1..] == digits;
  }

  lemma ReadAreDigits(s: string) returns (digits: string)
    requires ParseUnsigned(s).Some?
    ensures digits != "" && AllDigits(digits) && NatOf(digits) == ParseUnsigned(s).value
    ensures s == digits || s == "+" + digits
  {
    digits := if s[0] == '+' then s[1..] else s;
  }

  lemma ReadIsSpelled(s: string)
    requires ParseUnsigned(s).Some?
    ensures SpellsNumber(s, ParseUnsigned(s).value)
  {
    var n := ParseUnsigned(s).value;
    var digits := ReadAreDigits(s);
    var k := DigitsAreZerosThenNumber(digits);
    assert "+" + digits == "+" + Zeros(k) + PrintNat(n);
  }

  lemma SpelledIsRead(s: string, k: nat, n: nat)
    requires s == Zeros(k) + PrintNat(n) || s == "+" + Zeros(k) + PrintNat(n)
    ensures ParseUnsigned(s) == Some(n)
  {
    var digits := Zeros(k) + PrintNat(n);
    ZerosThenNumber(k, n);
    DigitsRead(digits);
    assert "+" + Zeros(k) + PrintNat(n) == "+" + digits;
  }

  /** Numbers are read in that spelling and in no other. */
  lemma NumbersReadExactly(s: string, n: nat)
    ensures ParseUnsigned(s) == Some(n) <==> SpellsNumber(s, n)
  {
    if ParseUnsigned(s) == Some(n) { ReadIsSpelled(s); }
    if SpellsNumber(s, n) {
      var k :| s == Zeros(k) + PrintNat(n) || s == "+" + Zeros(k) + PrintNat(n);
      SpelledIsRead(s, k, n);
    }
  }

  // ----- Which environments load -----

  /** An optional setting that stands for `n`: a number in the environment, or the default. */
  ghost predicate StandsFor(value: Option<string>, default: nat, n: nat) {
    if value.None? then n == default else SpellsNumber(value.value, n)
  }

  lemma BoundedExactly(value: Option<string>, default: nat, maximum: nat, error: AuthnConfigError, n: nat)
    ensures BoundedNumber(value, default, maximum, error) == Ok(n)
            <==> StandsFor(value, default, n) && 1 <= n <= maximum
    ensures BoundedNumber(value, default, maximum, error).Err? ==>
              BoundedNumber(value, default, maximum, error) == Err(error)
  {
    if value.Some? { NumbersReadExactly(value.value, n); }
  }

  lemma ModeExactly(value: Option<string>, mode: AuthnMode)
    ensures ParseMode(value) == Ok(mode)
            <==> match mode
                 case Optional => value == Some("optional")
                 case Required => value == None || value == Some("required")
  {
  }

  /** An identity that normalizes to `c`'s, with an anonymous context that fits. */
  ghost predicate Identifies(serviceId: string, audiences: seq<string>, c: AuthnConfig) {
    && IsToken(serviceId) && c.serviceId == serviceId
    && 1 <= |audiences| <= 16 && (forall a :: a in audiences ==> IsAsciiText(a, 256))
    && NormalForm(c.audiences, audiences)
    && |ContextBytes(AnonymousContext(c))| <= 6144
    && c.anonymousContext == Base64Url.Encode(ContextBytes(AnonymousContext(c)))
  }

  lemma IdentityExactly(serviceId: string, audiences: seq<string>, c: AuthnConfig)
    ensures DeploymentContext(serviceId, audiences) == Ok((AnonymousContext(c), c.anonymousContext))
            <==> Identifies(serviceId, audiences, c)
  {
    DeploymentExactly(serviceId, audiences, (c.serviceId, c.audiences));
    EncodesExactlyWithinBound(AnonymousContext(c));
    var d := ValidatedDeployment(serviceId, audiences);
    if d.Ok? { DeploymentExactly(serviceId, audiences, d.value); }
  }

  const SETTINGS := {"WASI_MIDDLEWARE_AUTHN_ALLOW_INSECURE_LOOPBACK", "WASI_MIDDLEWARE_AUTHN_BROKER_URL",
                     "WASI_MIDDLEWARE_AUTHN_TIMEOUT_MS", "WASI_MIDDLEWARE_AUTHN_MODE",
                     "WASI_MIDDLEWARE_AUTHN_MAX_IN_FLIGHT", "WASI_MIDDLEWARE_SERVICE_ID",
                     "WASI_MIDDLEWARE_AUTHN_AUDIENCES"}

  predicate NoneRepeated(environment: EnvironmentList) {
    forall key :: key in SETTINGS ==> |ValuesOf(environment, key)| <= 1
  }

  predicate Once(environment: EnvironmentList, key: string) { |ValuesOf(environment, key)| <= 1 }

  /** The broker is at an accepted address, with plain loopback addresses only on request. */
  predicate ReachesBroker(environment: EnvironmentList, parseUrl: (string, bool) -> Option<BrokerTarget>,
                          t: BrokerTarget)
  {
    var url := OnlyValue(environment, "WASI_MIDDLEWARE_AUTHN_BROKER_URL");
    var loopback := OnlyValue(environment, "WASI_MIDDLEWARE_AUTHN_ALLOW_INSECURE_LOOPBACK");
    && url.Some? && 1 <= |Encode(url.value)| <= 2048
    && (loopback == None || loopback == Some("true") || loopback == Some("false"))
    && parseUrl(url.value, loopback == Some("true")) == Some(t)
  }

  lemma TargetExactly(environment: EnvironmentList, parseUrl: (string, bool) -> Option<BrokerTarget>, t: BrokerTarget)
    ensures LoadTarget(environment, parseUrl) == Ok(t)
            <==> && Once(environment, "WASI_MIDDLEWARE_AUTHN_ALLOW_INSECURE_LOOPBACK")
                 && Once(environment, "WASI_MIDDLEWARE_AUTHN_BROKER_URL")
                 && ReachesBroker(environment, parseUrl, t)
  {
  }

  /** 2 seconds, 64 calls and required credentials unless the environment says otherwise, within the bounds. */
  ghost predicate HasLimits(environment: EnvironmentList, timeoutNs: nat, mode: AuthnMode, maxInFlight: nat) {
    && timeoutNs % 1000000 == 0 && 1 <= timeoutNs / 1000000 <= 60000
    && StandsFor(OnlyValue(environment, "WASI_MIDDLEWARE_AUTHN_TIMEOUT_MS"), 2000, timeoutNs / 1000000)
    && (match mode
        case Optional => OnlyValue(environment, "WASI_MIDDLEWARE_AUTHN_MODE") == Some("optional")
        case Required => OnlyValue(environment, "WASI_MIDDLEWARE_AUTHN_MODE") in {None, Some("required")})
    && 1 <= maxInFlight <= 1024
    && StandsFor(OnlyValue(environment, "WASI_MIDDLEWARE_AUTHN_MAX_IN_FLIGHT"), 64, maxInFlight)
  }

  /** The limits in terms of their readers. */
  lemma LimitsRead(environment: EnvironmentList, l: Limits)
    ensures LoadLimits(environment) == Ok(l)
            <==> && Once(environment, "WASI_MIDDLEWARE_AUTHN_TIMEOUT_MS")
                 && Once(environment, "WASI_MIDDLEWARE_AUTHN_MODE")
                 && Once(environment, "WASI_MIDDLEWARE_AUTHN_MAX_IN_FLIGHT")
                 && l.timeoutNs % 1000000 == 0
                 && BoundedNumber(OnlyValue(environment, "WASI_MIDDLEWARE_AUTHN_TIMEOUT_MS"), 2000, 60000,
                                  InvalidTimeout) == Ok(l.timeoutNs / 1000000)
                 && ParseMode(OnlyValue(environment, "WASI_MIDDLEWARE_AUTHN_MODE")) == Ok(l.mode)
                 && BoundedNumber(OnlyValue(environment, "WASI_MIDDLEWARE_AUTHN_MAX_IN_FLIGHT"), 64, 1024,
                                  InvalidMaxInFlight) == Ok(l.maxInFlight)
  {
  }

  lemma LimitsExactly(environment: EnvironmentList, l: Limits)
    ensures LoadLimits(environment) == Ok(l)
            <==> && Once(environment, "WASI_MIDDLEWARE_AUTHN_TIMEOUT_MS")
                 && Once(environment, "WASI_MIDDLEWARE_AUTHN_MODE")
                 && Once(environment, "WASI_MIDDLEWARE_AUTHN_MAX_IN_FLIGHT")
                 && HasLimits(environment, l.timeoutNs, l.mode, l.maxInFlight)
  {
    LimitsRead(environment, l);
    BoundedExactly(OnlyValue(environment, "WASI_MIDDLEWARE_AUTHN_TIMEOUT_MS"), 2000, 60000, InvalidTimeout,
                   l.timeoutNs / 1000000);
    BoundedExactly(OnlyValue(environment, "WASI_MIDDLEWARE_AUTHN_MAX_IN_FLIGHT"), 64, 1024, InvalidMaxInFlight,
                   l.maxInFlight);
    ModeExactly(OnlyValue(environment, "WASI_MIDDLEWARE_AUTHN_MODE"), l.mode);
  }

  /** The service ID as given and the trimmed pieces of the audience list, normalized. */
  ghost predicate HasIdentity(environment: EnvironmentList, c: AuthnConfig) {
    var serviceId := OnlyValue(environment, "WASI_MIDDLEWARE_SERVICE_ID");
    var audiences := OnlyValue(environment, "WASI_MIDDLEWARE_AUTHN_AUDIENCES");
    serviceId.Some? && audiences.Some? && Identifies(serviceId.value, TrimAll(Split(audiences.value, ',')), c)
  }

  lemma DeploymentLoadsExactly(environment: EnvironmentList, c: AuthnConfig)
    ensures LoadDeployment(environment) == Ok((AnonymousContext(c), c.anonymousContext))
            <==> && Once(environment, "WASI_MIDDLEWARE_SERVICE_ID")
                 && Once(environment, "WASI_MIDDLEWARE_AUTHN_AUDIENCES")
                 && HasIdentity(environment, c)
  {
    var serviceId := OnlyValue(environment, "WASI_MIDDLEWARE_SERVICE_ID");
    var audiences := OnlyValue(environment, "WASI_MIDDLEWARE_AUTHN_AUDIENCES");
    if serviceId.Some? && audiences.Some? {
      IdentityExactly(serviceId.value, TrimAll(Split(audiences.value, ',')), c);
    }
  }

  lemma LoadedIsAnonymous(environment: EnvironmentList)
    ensures var r := LoadDeployment(environment);
            r.Ok? ==> r.value.0 == AuthContext(Anonymous, r.value.0.serviceId, r.value.0.audiences, None, None, None)
  {
  }

  /** The parts are loaded one after the other. */
  lemma LoadedByPart(environment: EnvironmentList, parseUrl: (string, bool) -> Option<BrokerTarget>, c: AuthnConfig)
    ensures FromEnvironment(environment, parseUrl) == Ok(c)
            <==> && LoadTarget(environment, parseUrl) == Ok(c.target)
                 && LoadLimits(environment) == Ok(Limits(c.timeoutNs, c.mode, c.maxInFlight))
                 && LoadDeployment(environment) == Ok((AnonymousContext(c), c.anonymousContext))
  {
    LoadedIsAnonymous(environment);
  }

  lemma RepetitionByPart(environment: EnvironmentList)
    ensures NoneRepeated(environment)
            <==> && Once(environment, "WASI_MIDDLEWARE_AUTHN_ALLOW_INSECURE_LOOPBACK")
                 && Once(environment, "WASI_MIDDLEWARE_AUTHN_BROKER_URL")
                 && Once(environment, "WASI_MIDDLEWARE_AUTHN_TIMEOUT_MS")
                 && Once(environment, "WASI_MIDDLEWARE_AUTHN_MODE")
                 && Once(environment, "WASI_MIDDLEWARE_AUTHN_MAX_IN_FLIGHT")
                 && Once(environment, "WASI_MIDDLEWARE_SERVICE_ID")
                 && Once(environment, "WASI_MIDDLEWARE_AUTHN_AUDIENCES")
  {
  }

  /**
   Which environments load as which configuration, both ways: no key repeated, an accepted broker
   address, the given or default limits, and the given identity in normal form with its anonymous context.
   */
  lemma LoadsExactly(environment: EnvironmentList, parseUrl: (string, bool) -> Option<BrokerTarget>, c: AuthnConfig)
    ensures FromEnvironment(environment, parseUrl) == Ok(c)
            <==> && NoneRepeated(environment)
                 && ReachesBroker(environment, parseUrl, c.target)
                 && HasLimits(environment, c.timeoutNs, c.mode, c.maxInFlight)
                 && HasIdentity(environment, c)
  {
    LoadedByPart(environment, parseUrl, c);
    TargetExactly(environment, parseUrl, c.target);
    LimitsExactly(environment, Limits(c.timeoutNs, c.mode, c.maxInFlight));
    DeploymentLoadsExactly(environment, c);
    RepetitionByPart(environment);
  }
}
