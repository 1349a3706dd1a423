/** What crosses the middleware: the request the application receives and the response the client gets. */
module Boundary {
  import opened Wrappers
  import opened Utf8
  import opened Text
  import opened Headers
  import opened Metadata
  import opened Cors
  import opened Vary
  import opened RequestId
  import opened Authn
  import opened Layers
  import opened Equivalence

  /** How authentication judges the client's request. */
  function Verdict(env: Environment, r: HttpRequest<HeaderMap>): AuthnOutcome
    requires env.authn.Some?
  {
    Authenticate(r.headers, IdText(env, r), env.authn.value, env.broker).0
  }

  /** CORS has nothing against the request and does not answer it itself. */
  predicate PassesCors(env: Environment, r: HttpRequest<HeaderMap>) {
    && env.cors.Some? && IsHttpToken(r.verb)
    && Evaluate(env.cors.value, r.verb, r.headers).Ok?
    && Evaluate(env.cors.value, r.verb, r.headers).value.status.None?
  }

  lemma FusedAuthnForwards(env: Environment, r: HttpRequest<HeaderMap>, decision: HeaderMap)
    ensures var o := FusedAuthn(env, r, decision, IdText(env, r));
            && (o.forwarded.Some? <==> env.authn.Some? && Verdict(env, r).Pass?)
            && (o.forwarded.Some? ==>
                  o.forwarded.value == r.(headers := Trusted(r.headers, Verdict(env, r).context, IdValue(env, r))))
  {
    if env.authn.Some? {
      AuthenticateReads(PolicyFields(r.headers), r.headers, IdText(env, r), env.authn.value, env.broker);
    }
  }

  /**
   A request reaches the application exactly when its policy fields are well formed, CORS lets it
   through and authentication passes; what arrives differs from what was sent only in the credential,
   the reserved fields, the context and the request ID.
   */
  lemma ForwardedExactly(env: Environment, r: HttpRequest<HeaderMap>)
    requires IsValidRequestId(env.generated)
    ensures Fused(env, r).forwarded.Some?
            <==> PolicyFieldsValid(r.headers) && PassesCors(env, r) && env.authn.Some? && Verdict(env, r).Pass?
    ensures Fused(env, r).forwarded.Some? ==>
              Fused(env, r).forwarded.value
              == r.(headers := Trusted(r.headers, Verdict(env, r).context, IdValue(env, r)))
  {
    SameRequestId(env, r);
    if env.cors.Some? {
      SameDecision(env, r);
      if PassesCors(env, r) {
        FusedAuthnForwards(env, r, Evaluate(env.cors.value, r.verb, r.headers).value.responseHeaders);
      }
    }
  }

  // ----- Toward the application -----

  lemma ThirdLetterDiffers(name: string, prefix: string)
    requires |name| >= 3 && |prefix| >= 3 && LowerChar(name[2]) != LowerChar(prefix[2])
    ensures !HasPrefix(name, prefix)
  {
    if |name| >= |prefix| { assert Lower(name[..|prefix|])[2] != Lower(prefix)[2]; }
  }

  lemma TrustedByName(m: HeaderMap, context: Value, id: Value, k: string)
    ensures var t := Trusted(m, context, id);
            Get(t, k) == if k == REQUEST_ID_HEADER then [id]
                         else if k == AUTH_CONTEXT then [context]
                         else if k == AUTHORIZATION || HasPrefix(k, RESERVED) then []
                         else Get(m, k)
  {
    assert AUTHORIZATION != AUTH_CONTEXT && AUTHORIZATION != REQUEST_ID_HEADER;
  }

  /** A name with the reserved prefix, in any case. */
  predicate IsReservedName(k: string) { "x-wasi-auth-" <= Lower(k) }

  lemma ReservedNames()
    ensures forall k :: IsReservedName(k) <==> HasPrefix(k, RESERVED)
  {
    assert Lower(RESERVED) == RESERVED;
    forall k ensures IsReservedName(k) <==> HasPrefix(k, RESERVED) { HasPrefixExactly(k, RESERVED); }
  }

  /** No credential, one request ID, one context, nothing else reserved, and the rest as the client sent it. */
  ghost predicate OnlyTrustedFields(m: HeaderMap, sent: HeaderMap, id: Value) {
    && Get(m, "x-request-id") == [id]
    && |Get(m, "x-wasi-auth-context")| == 1
    && (forall k :: k in m && IsReservedName(k) ==> k == "x-wasi-auth-context")
    && "authorization" !in m
    && (forall k :: k !in {"x-request-id", "authorization"} && !IsReservedName(k) ==> Get(m, k) == Get(sent, k))
  }

  lemma TrustedFieldsOnly(sent: HeaderMap, context: Value, id: Value)
    ensures OnlyTrustedFields(Trusted(sent, context, id), sent, id)
    ensures Get(Trusted(sent, context, id), AUTH_CONTEXT) == [context]
  {
    var m := Trusted(sent, context, id);
    ThirdLetterDiffers(REQUEST_ID_HEADER, RESERVED);
    ReservedNames();
    assert Lower(AUTH_CONTEXT)[..|RESERVED|] == RESERVED;
    assert AUTHORIZATION != AUTH_CONTEXT && AUTHORIZATION != REQUEST_ID_HEADER && AUTH_CONTEXT != REQUEST_ID_HEADER;
    forall k ensures Get(m, k) == if k == REQUEST_ID_HEADER then [id]
                                  else if k == AUTH_CONTEXT then [context]
                                  else if k == AUTHORIZATION || HasPrefix(k, RESERVED) then []
                                  else Get(sent, k)
    {
      TrustedByName(sent, context, id, k);
    }
  }

  /** Every request that reaches the application carries only fields it may trust or that the client sent. */
  lemma ApplicationSeesOnlyTrustedFields(env: Environment, r: HttpRequest<HeaderMap>)
    requires IsValidRequestId(env.generated) && Fused(env, r).forwarded.Some?
    ensures OnlyTrustedFields(Fused(env, r).forwarded.value.headers, r.headers, IdValue(env, r))
  {
    ForwardedExactly(env, r);
    TrustedFieldsOnly(r.headers, Verdict(env, r).context, IdValue(env, r));
  }

  /** The context field decodes to a context for this deployment, anonymous exactly without a credential. */
  predicate ContextIsBound(value: Value, sent: HeaderMap, config: AuthnConfig) {
    var context := DecodeAuthContext(value);
    && context.Ok?
    && context.value.serviceId == config.serviceId
    && context.value.audiences == config.audiences
    && (context.value.state == Anonymous <==> Get(sent, AUTHORIZATION) == [])
    && (context.value.state == Anonymous ==> config.mode == Optional)
  }

  /** Every request that reaches the application carries exactly one context, issued for it by this deployment. */
  lemma ApplicationContextIsBound(env: Environment, r: HttpRequest<HeaderMap>)
    requires IsValidRequestId(env.generated) && Fused(env, r).forwarded.Some?
    requires env.authn.Some? ==> ValidAuthnConfig(env.authn.value)
    ensures env.authn.Some?
    ensures var values := Get(Fused(env, r).forwarded.value.headers, AUTH_CONTEXT);
            |values| == 1 && ContextIsBound(values[0], r.headers, env.authn.value)
  {
    ForwardedExactly(env, r);
    TrustedFieldsOnly(r.headers, Verdict(env, r).context, IdValue(env, r));
    VerdictIsBound(env, r);
  }

  lemma VerdictIsBound(env: Environment, r: HttpRequest<HeaderMap>)
    requires env.authn.Some? && ValidAuthnConfig(env.authn.value) && Verdict(env, r).Pass?
    ensures ContextIsBound(Verdict(env, r).context, r.headers, env.authn.value)
  {
    PassIsBound(r.headers, IdText(env, r), env.authn.value, env.broker);
  }

  // ----- Toward the client -----

  lemma ResponseNamesAreNotReserved()
    ensures !HasPrefix(CONTENT_TYPE_OPTIONS, RESERVED) && !HasPrefix(REFERRER_POLICY, RESERVED)
    ensures !HasPrefix(REQUEST_ID_HEADER, RESERVED) && !HasPrefix(VARY, RESERVED)
    ensures !HasPrefix(ALLOW_ORIGIN, RESERVED) && !HasPrefix(ALLOW_CREDENTIALS, RESERVED)
    ensures !HasPrefix(ALLOW_METHODS, RESERVED) && !HasPrefix(ALLOW_HEADERS, RESERVED)
  {
    ThirdLetterDiffers(CONTENT_TYPE_OPTIONS, RESERVED);
    ThirdLetterDiffers(REQUEST_ID_HEADER, RESERVED);
    FirstLetterDiffers(REFERRER_POLICY, RESERVED);
    FirstLetterDiffers(VARY, RESERVED);
    FirstLetterDiffers(ALLOW_ORIGIN, RESERVED);
    FirstLetterDiffers(ALLOW_CREDENTIALS, RESERVED);
    FirstLetterDiffers(ALLOW_METHODS, RESERVED);
    FirstLetterDiffers(ALLOW_HEADERS, RESERVED);
  }

  lemma OverlaidElsewhere(m: HeaderMap, decision: HeaderMap, vary: Value, k: string)
    requires IsDecision(decision)
    requires k !in {ALLOW_ORIGIN, ALLOW_CREDENTIALS, ALLOW_METHODS, ALLOW_HEADERS, VARY}
    ensures Get(Overlaid(m, decision, vary), k) == Get(m, k)
  {
  }

  lemma OverlaidHasNoReserved(m: HeaderMap, decision: HeaderMap, vary: Value)
    requires IsDecision(decision) && NoReserved(m)
    ensures NoReserved(Overlaid(m, decision, vary))
  {
    ResponseNamesAreNotReserved();
  }

  /** A response without reserved fields, with both security fields and, when given, the request ID. */
  predicate IsClean(h: HeaderMap, id: Option<Value>) {
    && (forall k :: k in h ==> !IsReservedName(k))
    && Get(h, "x-content-type-options") == [Bytes("nosniff")]
    && Get(h, "referrer-policy") == [Bytes("strict-origin-when-cross-origin")]
    && (id.Some? ==> Get(h, "x-request-id") == [id.value])
  }

  lemma NoReservedNames(h: HeaderMap)
    ensures NoReserved(h) <==> forall k :: k in h ==> !IsReservedName(k)
  {
    ReservedNames();
  }

  lemma SecuredIsClean(m: HeaderMap, id: Option<Value>)
    ensures var base := Secured(WithoutPrefix(m, RESERVED));
            IsClean(if id.Some? then WithRequestId(base, id.value) else base, id)
  {
    ResponseNamesAreNotReserved();
    assert CONTENT_TYPE_OPTIONS != REQUEST_ID_HEADER && REFERRER_POLICY != REQUEST_ID_HEADER;
    assert CONTENT_TYPE_OPTIONS != REFERRER_POLICY;
    var base := Secured(WithoutPrefix(m, RESERVED));
    NoReservedNames(if id.Some? then WithRequestId(base, id.value) else base);
  }

  lemma FinalizedIsClean(m: HeaderMap, decision: HeaderMap, id: Option<Value>)
    requires IsDecision(decision)
    ensures IsClean(Finalized(m, decision, id), id)
  {
    var base := Secured(WithoutPrefix(m, RESERVED));
    var identified := if id.Some? then WithRequestId(base, id.value) else base;
    var vary := MergedVary(Get(m, VARY));
    SecuredIsClean(m, id);
    FinalNamesDiffer();
    NoReservedNames(identified);
    OverlaidHasNoReserved(identified, decision, vary);
    NoReservedNames(Overlaid(identified, decision, vary));
    OverlaidElsewhere(identified, decision, vary, CONTENT_TYPE_OPTIONS);
    OverlaidElsewhere(identified, decision, vary, REFERRER_POLICY);
    OverlaidElsewhere(identified, decision, vary, REQUEST_ID_HEADER);
    assert Finalized(m, decision, id) == Overlaid(identified, decision, vary);
  }

  lemma FusedAuthnIsFinalized(env: Environment, r: HttpRequest<HeaderMap>, decision: HeaderMap, id: string)
    ensures var o := FusedAuthn(env, r, decision, id);
            o.response.Ok? ==> exists m :: o.response.value.headers == Finalized(m, decision, Some(Encode(id)))
  {
  }

  /** Whatever the application answers, the client gets no reserved field, both security fields and the request ID. */
  lemma ClientSeesFinalizedResponses(env: Environment, r: HttpRequest<HeaderMap>)
    requires IsValidRequestId(env.generated)
    requires Fused(env, r).response.Ok?
    ensures IsClean(Fused(env, r).response.value.headers,
                    if PolicyFieldsValid(r.headers) then Some(IdValue(env, r)) else None)
  {
    SameRequestId(env, r);
    var id := if PolicyFieldsValid(r.headers) then Some(IdValue(env, r)) else None;
    if PassesCors(env, r) && id.Some? {
      SameDecision(env, r);
      DecisionShape(env.cors.value, r.verb, r.headers);
      var d := Evaluate(env.cors.value, r.verb, r.headers).value.responseHeaders;
      FusedAuthnIsFinalized(env, r, d, IdText(env, r));
      var m :| Fused(env, r).response.value.headers == Finalized(m, d, id);
      FinalizedIsClean(m, d, id);
    } else {
      ControlledIsClean(env, r, id);
    }
  }

  lemma ControlledIsClean(env: Environment, r: HttpRequest<HeaderMap>, id: Option<Value>)
    requires IsValidRequestId(env.generated)
    requires id == if PolicyFieldsValid(r.headers) then Some(IdValue(env, r)) else None
    requires !(PassesCors(env, r) && id.Some?)
    ensures Fused(env, r).response.Ok? && IsClean(Fused(env, r).response.value.headers, id)
  {
    SameRequestId(env, r);
    var status, headers, decision := 400, map[], map[];
    if id.Some? {
      if env.cors.None? {
        status, headers := 503, RetryAfter();
      } else if IsHttpToken(r.verb) && Evaluate(env.cors.value, r.verb, r.headers).Ok? {
        DecisionShape(env.cors.value, r.verb, r.headers);
        var d := Evaluate(env.cors.value, r.verb, r.headers).value;
        status, decision := d.status.value, d.responseHeaders;
      }
      if env.cors.Some? { SameDecision(env, r); }
    }
    assert Fused(env, r) == Controlled(status, headers, decision, id);
    FinalizedIsClean(EmptyResponse(status, headers).headers, decision, id);
  }

  // ----- Which answer for which request -----

  lemma FinalizedElsewhere(m: HeaderMap, decision: HeaderMap, id: Option<Value>, k: string)
    requires IsDecision(decision) && !HasPrefix(k, RESERVED)
    requires k !in {ALLOW_ORIGIN, ALLOW_CREDENTIALS, ALLOW_METHODS, ALLOW_HEADERS, VARY}
    requires k !in {CONTENT_TYPE_OPTIONS, REFERRER_POLICY, REQUEST_ID_HEADER}
    ensures Get(Finalized(m, decision, id), k) == Get(m, k)
  {
    var base := Secured(WithoutPrefix(m, RESERVED));
    OverlaidElsewhere(if id.Some? then WithRequestId(base, id.value) else base, decision, MergedVary(Get(m, VARY)), k);
  }

  /** A controlled answer keeps its challenge and its retry hint, and is empty. */
  lemma ControlledKeeps(status: nat, headers: HeaderMap, decision: HeaderMap, id: Option<Value>)
    requires IsDecision(decision) && CONTENT_LENGTH !in headers
    ensures var o := Controlled(status, headers, decision, id).response;
            && o.Ok? && o.value.status == status && o.value.body == Empty
            && Get(o.value.headers, WWW_AUTHENTICATE) == Get(headers, WWW_AUTHENTICATE)
            && Get(o.value.headers, RETRY_AFTER) == Get(headers, RETRY_AFTER)
            && Get(o.value.headers, CONTENT_LENGTH) == [ZERO]
  {
    AnswerNamesAreNotReserved();
    assert WWW_AUTHENTICATE != CONTENT_LENGTH && RETRY_AFTER != CONTENT_LENGTH;
    var m := EmptyResponse(status, headers).headers;
    FinalizedElsewhere(m, decision, id, WWW_AUTHENTICATE);
    FinalizedElsewhere(m, decision, id, RETRY_AFTER);
    FinalizedElsewhere(m, decision, id, CONTENT_LENGTH);
  }

  /** Status, challenge and retry hint of an empty response. */
  predicate Answers(o: Outcome<HeaderMap>, status: nat, challenge: Option<string>, retry: bool) {
    && o.forwarded.None? && o.response.Ok? && o.response.value.status == status
    && o.response.value.body == Empty && Get(o.response.value.headers, "content-length") == [Bytes("0")]
    && Get(o.response.value.headers, "www-authenticate")
       == (if challenge.None? then [] else [Encode(challenge.value)])
    && Get(o.response.value.headers, "retry-after") == if retry then [Bytes("1")] else []
  }

  /** The answer to a rejected credential: RFC 6750 challenges, and a retry hint when unavailable. */
  predicate AnswersRejection(o: Outcome<HeaderMap>, rejection: AuthnRejection, service: string) {
    var realm := "Bearer realm=\"" + service + "\"";
    match rejection
    case InvalidRequest => Answers(o, 400, Some(realm + ", error=\"invalid_request\""), false)
    case MissingCredentials => Answers(o, 401, Some(realm), false)
    case InvalidCredentials => Answers(o, 401, Some(realm + ", error=\"invalid_token\""), false)
    case BrokerUnavailable => Answers(o, 503, None, true)
  }

  lemma ControlledRejection(rejection: AuthnRejection, service: string, decision: HeaderMap, id: Option<Value>)
    requires IsDecision(decision)
    ensures AnswersRejection(Controlled(RejectionStatus(rejection), RejectionHeaders(rejection, service), decision, id),
                             rejection, service)
  {
    ControlledKeeps(RejectionStatus(rejection), RejectionHeaders(rejection, service), decision, id);
    RejectionHeadersByName(rejection, service);
  }

  /** Behind CORS the fused component authenticates. */
  lemma FusedAuthenticates(env: Environment, r: HttpRequest<HeaderMap>)
    requires IsValidRequestId(env.generated) && PolicyFieldsValid(r.headers) && PassesCors(env, r)
    ensures var d := Evaluate(env.cors.value, r.verb, r.headers).value.responseHeaders;
            IsDecision(d) && Fused(env, r) == FusedAuthn(env, r, d, IdText(env, r))
  {
    SameRequestId(env, r);
    SameDecision(env, r);
    DecisionShape(env.cors.value, r.verb, r.headers);
  }

  lemma FusedAuthnRejects(env: Environment, r: HttpRequest<HeaderMap>, decision: HeaderMap)
    requires env.authn.Some? && Verdict(env, r).Reject?
    ensures var rejection, service := Verdict(env, r).rejection, env.authn.value.serviceId;
            FusedAuthn(env, r, decision, IdText(env, r))
            == Controlled(RejectionStatus(rejection), RejectionHeaders(rejection, service), decision,
                          Some(IdValue(env, r)))
  {
    AuthenticateReads(PolicyFields(r.headers), r.headers, IdText(env, r), env.authn.value, env.broker);
  }

  /** How each rejection of a credential is answered. */
  lemma RejectionsAnswer(env: Environment, r: HttpRequest<HeaderMap>)
    requires IsValidRequestId(env.generated) && PolicyFieldsValid(r.headers) && PassesCors(env, r)
    requires env.authn.Some? && Verdict(env, r).Reject?
    ensures AnswersRejection(Fused(env, r), Verdict(env, r).rejection, env.authn.value.serviceId)
  {
    var d := Evaluate(env.cors.value, r.verb, r.headers).value.responseHeaders;
    FusedAuthenticates(env, r);
    FusedAuthnRejects(env, r, d);
    ControlledRejection(Verdict(env, r).rejection, env.authn.value.serviceId, d, Some(IdValue(env, r)));
  }

  lemma RejectionHeadersByName(rejection: AuthnRejection, service: string)
    ensures var realm := "Bearer realm=\"" + service + "\"";
            Get(RejectionHeaders(rejection, service), WWW_AUTHENTICATE)
            == match rejection
               case InvalidRequest => [Encode(realm + ", error=\"invalid_request\"")]
               case MissingCredentials => [Encode(realm)]
               case InvalidCredentials => [Encode(realm + ", error=\"invalid_token\"")]
               case BrokerUnavailable => []
    ensures Get(RejectionHeaders(rejection, service), RETRY_AFTER)
            == if rejection == BrokerUnavailable then [ONE] else []
  {
    assert WWW_AUTHENTICATE != RETRY_AFTER;
    var open := "Bearer realm=\"" + service;
    assert open + "\", error=\"invalid_token\"" == open + "\"" + ", error=\"invalid_token\"";
    assert open + "\", error=\"invalid_request\"" == open + "\"" + ", error=\"invalid_request\"";
  }

  /** The answers given before authentication: malformed fields, no configuration, CORS. */
  lemma EarlyAnswers(env: Environment, r: HttpRequest<HeaderMap>)
    requires IsValidRequestId(env.generated)
    ensures !PolicyFieldsValid(r.headers) ==> Answers(Fused(env, r), 400, None, false)
    ensures PolicyFieldsValid(r.headers) && env.cors.None? ==> Answers(Fused(env, r), 503, None, true)
    ensures PolicyFieldsValid(r.headers) && env.cors.Some?
            && (!IsHttpToken(r.verb) || Evaluate(env.cors.value, r.verb, r.headers).Err?)
            ==> Answers(Fused(env, r), 400, None, false)
    ensures PolicyFieldsValid(r.headers) && PassesCors(env, r) && env.authn.None?
            ==> Answers(Fused(env, r), 503, None, true)
  {
    SameRequestId(env, r);
    var id := Some(IdValue(env, r));
    ControlledKeeps(400, map[], map[], None);
    ControlledKeeps(400, map[], map[], id);
    ControlledKeeps(503, RetryAfter(), map[], id);
    if env.cors.Some? {
      SameDecision(env, r);
      if PassesCors(env, r) {
        DecisionShape(env.cors.value, r.verb, r.headers);
        ControlledKeeps(503, RetryAfter(), Evaluate(env.cors.value, r.verb, r.headers).value.responseHeaders, id);
      }
    }
  }

  /** A request that CORS settles is answered with the status of the decision. */
  lemma CorsAnswers(env: Environment, r: HttpRequest<HeaderMap>, status: nat)
    requires IsValidRequestId(env.generated) && PolicyFieldsValid(r.headers) && env.cors.Some? && IsHttpToken(r.verb)
    requires Evaluate(env.cors.value, r.verb, r.headers).Ok?
    requires Evaluate(env.cors.value, r.verb, r.headers).value.status == Some(status)
    ensures Answers(Fused(env, r), status, None, false)
  {
    SameRequestId(env, r);
    SameDecision(env, r);
    DecisionShape(env.cors.value, r.verb, r.headers);
    ControlledKeeps(status, map[], Evaluate(env.cors.value, r.verb, r.headers).value.responseHeaders,
                    Some(IdValue(env, r)));
  }
}
