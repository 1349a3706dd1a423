/** The fused component against the four-layer chain. */
module Equivalence {
  import opened Wrappers
  import opened Utf8
  import opened Text
  import opened Headers
  import opened Cors
  import opened Vary
  import opened RequestId
  import opened Authn
  import opened Layers

  /** Every field but the request ID, which the outermost layer replaces, is well formed. */
  predicate OtherFieldsWellFormed(m: HeaderMap) {
    forall k :: k in m && k != REQUEST_ID_HEADER ==> IsHttpToken(k) && AllFieldValues(m[k])
  }

  /** The answer is settled before the chain would first look at fields outside the policies. */
  predicate SettledEarly(env: Environment, r: HttpRequest<HeaderMap>) {
    env.cors.None? || !IsHttpToken(r.verb) || Evaluate(env.cors.value, r.verb, r.headers).Err?
  }

  /** Malformed fields are absent, or make no difference. */
  predicate Harmless(env: Environment, r: HttpRequest<HeaderMap>) {
    PolicyFieldsValid(r.headers) && (OtherFieldsWellFormed(r.headers) || SettledEarly(env, r))
  }

  // ----- Names -----

  lemma PolicyNamesDiffer()
    ensures REQUEST_ID_HEADER !in POLICY_NAMES
  {
  }

  // ----- The response headers come out the same -----

  lemma FirstLetterDiffers(name: string, prefix: string)
    requires name != "" && prefix != "" && LowerChar(name[0]) != LowerChar(prefix[0])
    ensures !HasPrefix(name, prefix)
  {
    if |name| >= |prefix| { assert Lower(name[..|prefix|])[0] != Lower(prefix)[0]; }
  }

  lemma AnswerNamesAreNotReserved()
    ensures !HasPrefix(CONTENT_LENGTH, RESERVED) && !HasPrefix(RETRY_AFTER, RESERVED)
    ensures !HasPrefix(WWW_AUTHENTICATE, RESERVED) && !HasPrefix(VARY, RESERVED)
  {
    FirstLetterDiffers(CONTENT_LENGTH, RESERVED);
    FirstLetterDiffers(RETRY_AFTER, RESERVED);
    FirstLetterDiffers(WWW_AUTHENTICATE, RESERVED);
    FirstLetterDiffers(VARY, RESERVED);
  }

  predicate NoReserved(m: HeaderMap) { forall k :: k in m ==> !HasPrefix(k, RESERVED) }

  lemma NoReservedUnchanged(m: HeaderMap)
    requires NoReserved(m)
    ensures WithoutPrefix(m, RESERVED) == m
  {
  }

  lemma FinalNamesDiffer()
    ensures CONTENT_TYPE_OPTIONS != VARY && REFERRER_POLICY != VARY && REQUEST_ID_HEADER != VARY
    ensures {CONTENT_TYPE_OPTIONS, REFERRER_POLICY, REQUEST_ID_HEADER, CONTENT_LENGTH}
            !! {ALLOW_ORIGIN, ALLOW_CREDENTIALS, ALLOW_METHODS, ALLOW_HEADERS, VARY}
    ensures VARY !in {CONTENT_LENGTH, RETRY_AFTER, WWW_AUTHENTICATE}
  {
  }

  predicate IsDecision(d: HeaderMap) { d == map[] || DecisionHeaders(d) }

  lemma WriteCommutes(m: HeaderMap, decision: HeaderMap, vary: Value, name: string, value: Value)
    requires name !in decision && name != VARY
    ensures Overlaid(m, decision, vary)[name := [value]] == Overlaid(m[name := [value]], decision, vary)
  {
  }

  /** Fixed fields may be written before or after an overlay that does not name them. */
  lemma WritesCommute(m: HeaderMap, decision: HeaderMap, vary: Value, id: Value)
    requires IsDecision(decision)
    ensures WithRequestId(Secured(Overlaid(m, decision, vary)), id)
            == Overlaid(WithRequestId(Secured(m), id), decision, vary)
  {
    FinalNamesDiffer();
    var typed := m[CONTENT_TYPE_OPTIONS := [NOSNIFF]];
    WriteCommutes(m, decision, vary, CONTENT_TYPE_OPTIONS, NOSNIFF);
    WriteCommutes(typed, decision, vary, REFERRER_POLICY, STRICT_ORIGIN);
    WriteCommutes(Secured(m), decision, vary, REQUEST_ID_HEADER, id);
  }

  lemma VaryUntouched(m: HeaderMap, decision: HeaderMap)
    ensures Get(WithoutPrefix(m, RESERVED) + (decision - {VARY}), VARY) == Get(m, VARY)
  {
    AnswerNamesAreNotReserved();
  }

  /** Unwinding through cors, security-headers and request-id is one finalization. */
  lemma UnwindingIsFinalizing(m: HeaderMap, decision: HeaderMap, id: Value)
    requires IsDecision(decision)
    ensures WithRequestId(Secured(MergeCors(WithoutPrefix(m, RESERVED), decision)), id)
            == Finalized(m, decision, Some(id))
  {
    VaryUntouched(m, decision);
    WritesCommute(WithoutPrefix(m, RESERVED), decision, MergedVary(Get(m, VARY)), id);
  }

  lemma MergeNothing(m: HeaderMap)
    ensures MergeCors(m, map[]) == m
  {
  }

  /** Decision headers sent as they are equal the same headers merged into an empty response. */
  lemma DecisionAsResponse(decision: HeaderMap)
    requires DecisionHeaders(decision)
    ensures MergeCors(map[CONTENT_LENGTH := [ZERO]], decision) == decision[CONTENT_LENGTH := [ZERO]]
    ensures CONTENT_LENGTH !in decision
  {
    FinalNamesDiffer();
    PolicyNamesDiffer();
    var base := map[CONTENT_LENGTH := [ZERO]] + (decision - {VARY});
    assert Get(base, VARY) == [];
    assert MergedVary([]) == ORIGIN_VALUE by {
      assert MergedTokens([]) == [ORIGIN];
      assert Join([ORIGIN]) == ORIGIN;
    }
  }

  // ----- Each way a request can end -----

  /** The chain's treatment of what the innermost layer returned. */
  function Unwound(o: Outcome<HeaderMap>, decision: HeaderMap, id: Value): Outcome<HeaderMap> {
    Identified(SecuredOutcome(Merged(o, decision)), id)
  }

  /** An ID written early is only written again at the end. */
  lemma IdOverwritten(m: HeaderMap, decision: HeaderMap, id: Value)
    requires IsDecision(decision)
    ensures WithRequestId(Secured(MergeCors(WithRequestId(m, id), decision)), id)
            == WithRequestId(Secured(MergeCors(m, decision)), id)
  {
    FinalNamesDiffer();
    PolicyNamesDiffer();
    assert Get(WithRequestId(m, id) + (decision - {VARY}), VARY) == Get(m + (decision - {VARY}), VARY);
    OverlayOverwritten(m, decision, MergedVary(Get(m + (decision - {VARY}), VARY)), id);
  }

  lemma WrittenTwice(m: HeaderMap, id: Value)
    ensures WithRequestId(Secured(WithRequestId(m, id)), id) == WithRequestId(Secured(m), id)
  {
  }

  lemma OverlayOverwritten(m: HeaderMap, decision: HeaderMap, vary: Value, id: Value)
    requires IsDecision(decision)
    ensures WithRequestId(Secured(Overlaid(WithRequestId(m, id), decision, vary)), id)
            == WithRequestId(Secured(Overlaid(m, decision, vary)), id)
  {
    FinalNamesDiffer();
    WriteCommutes(m, decision, vary, REQUEST_ID_HEADER, id);
    WrittenTwice(Overlaid(m, decision, vary), id);
  }

  lemma EmptyResponseFacts(status: nat, headers: HeaderMap, id: Value)
    requires NoReserved(headers)
    ensures NoReserved(EmptyResponse(status, headers).headers)
    ensures EmptyResponse(status, WithRequestId(headers, id)).headers
            == WithRequestId(EmptyResponse(status, headers).headers, id)
  {
    AnswerNamesAreNotReserved();
    assert CONTENT_LENGTH != REQUEST_ID_HEADER;
  }

  lemma UnwoundHeaders(response: HttpResponse<HeaderMap>, forwarded: Option<HttpRequest<HeaderMap>>,
                       decision: HeaderMap, id: Value)
    ensures Unwound(Outcome(Ok(response), forwarded), decision, id)
            == Outcome(Ok(response.(headers := WithRequestId(Secured(MergeCors(response.headers, decision)), id))),
                       forwarded)
  {
  }

  /** A controlled answer: made by the innermost layer or by the fused component. */
  lemma AnswersAgree(status: nat, headers: HeaderMap, decision: HeaderMap, id: Value)
    requires IsDecision(decision) && NoReserved(headers)
    ensures Unwound(Answer(status, headers), decision, id) == Controlled(status, headers, decision, Some(id))
    ensures Unwound(Answer(status, WithRequestId(headers, id)), decision, id)
            == Controlled(status, headers, decision, Some(id))
  {
    var plain := EmptyResponse(status, headers);
    var identified := EmptyResponse(status, WithRequestId(headers, id));
    EmptyResponseFacts(status, headers, id);
    NoReservedUnchanged(plain.headers);
    UnwindingIsFinalizing(plain.headers, decision, id);
    IdOverwritten(plain.headers, decision, id);
    UnwoundHeaders(plain, None, decision, id);
    UnwoundHeaders(identified, None, decision, id);
  }

  lemma RejectionHasNoReserved(rejection: AuthnRejection, realm: string)
    ensures NoReserved(RejectionHeaders(rejection, realm))
    ensures NoReserved(RetryAfter()) && NoReserved(map[])
  {
    AnswerNamesAreNotReserved();
  }

  // ----- The chain, request by request -----

  /** What the layers behind `request-id` see. */
  function Inner(env: Environment, r: HttpRequest<HeaderMap>): HttpRequest<HeaderMap> {
    r.(headers := WithRequestId(r.headers, IdValue(env, r)))
  }

  function IdText(env: Environment, r: HttpRequest<HeaderMap>): string {
    CanonicalInComponent(r.headers, env.generated)
  }

  function IdValue(env: Environment, r: HttpRequest<HeaderMap>): Value { Encode(IdText(env, r)) }

  /** Both sides settle on the same request ID, and the chain's inner canonicalizer keeps it. */
  lemma SameRequestId(env: Environment, r: HttpRequest<HeaderMap>)
    requires IsValidRequestId(env.generated)
    ensures CanonicalInFused(r.headers, env.generated) == Some(IdText(env, r))
    ensures CanonicalInPolicy(Inner(env, r).headers, env.generated) == Some(IdText(env, r))
    ensures IsValidRequestId(IdText(env, r))
  {
    RequestIdHeaderIsLower();
    CanonicalizersAgree(r.headers, env.generated);
    WrittenIdIsKept(r.headers, IdText(env, r), env.generated);
  }

  lemma ValidIdIsFieldValue(id: string)
    requires IsValidRequestId(id)
    ensures IsFieldValue(Encode(id))
  {
    EncodeAscii(id);
  }

  lemma InnerIsWellFormed(env: Environment, r: HttpRequest<HeaderMap>)
    requires IsValidRequestId(env.generated)
    ensures IsWellFormed(Inner(env, r).headers) <==> OtherFieldsWellFormed(r.headers)
  {
    var m := Inner(env, r).headers;
    SameRequestId(env, r);
    ValidIdIsFieldValue(IdText(env, r));
    assert IsHttpToken(REQUEST_ID_HEADER);
    assert AllFieldValues(m[REQUEST_ID_HEADER]);
    if IsWellFormed(m) {
      forall k | k in r.headers && k != REQUEST_ID_HEADER ensures IsHttpToken(k) && AllFieldValues(r.headers[k]) {
        assert k in m && m[k] == r.headers[k];
      }
    }
  }

  lemma SameDecision(env: Environment, r: HttpRequest<HeaderMap>)
    requires env.cors.Some?
    ensures Evaluate(env.cors.value, r.verb, Inner(env, r).headers) == Evaluate(env.cors.value, r.verb, r.headers)
    ensures Evaluate(env.cors.value, r.verb, PolicyFields(r.headers)) == Evaluate(env.cors.value, r.verb, r.headers)
  {
    PolicyNamesDiffer();
    EvaluateReads(env.cors.value, r.verb, Inner(env, r).headers, r.headers);
    EvaluateReads(env.cors.value, r.verb, PolicyFields(r.headers), r.headers);
  }

  lemma SameAuthentication(env: Environment, r: HttpRequest<HeaderMap>, id: string)
    requires env.authn.Some?
    ensures Authenticate(Inner(env, r).headers, id, env.authn.value, env.broker)
            == Authenticate(PolicyFields(r.headers), id, env.authn.value, env.broker)
  {
    PolicyNamesDiffer();
    AuthenticateReads(Inner(env, r).headers, PolicyFields(r.headers), id, env.authn.value, env.broker);
  }

  lemma SameTrustedHeaders(m: HeaderMap, context: Value, id: Value)
    ensures Trusted(WithRequestId(m, id), context, id) == Trusted(m, context, id)
  {
  }

  lemma UnwoundNothing(o: Outcome<HeaderMap>, id: Value)
    ensures Unwound(o, map[], id) == Identified(SecuredOutcome(o), id)
  {
    if o.response.Ok? { MergeNothing(o.response.value.headers); }
  }

  /** Behind the CORS decision, authentication and the application come out the same. */
  lemma AuthenticationAgrees(env: Environment, r: HttpRequest<HeaderMap>, decision: HeaderMap)
    requires IsValidRequestId(env.generated) && OtherFieldsWellFormed(r.headers) && IsDecision(decision)
    ensures Unwound(AuthnLayer(env, Inner(env, r)), decision, IdValue(env, r))
            == FusedAuthn(env, r, decision, IdText(env, r))
  {
    var id, inner := IdValue(env, r), Inner(env, r);
    SameRequestId(env, r);
    InnerIsWellFormed(env, r);
    if env.authn.None? {
      RejectionHasNoReserved(BrokerUnavailable, "");
      AnswersAgree(503, RetryAfter(), decision, id);
    } else {
      SameAuthentication(env, r, IdText(env, r));
      match Authenticate(inner.headers, IdText(env, r), env.authn.value, env.broker).0
      case Pass(context) =>
        SameTrustedHeaders(r.headers, context, id);
        ForwardingAgrees(env, inner.(headers := Trusted(inner.headers, context, id)), decision, id);
      case Reject(rejection) =>
        RejectionHasNoReserved(rejection, env.authn.value.serviceId);
        AnswersAgree(RejectionStatus(rejection), RejectionHeaders(rejection, env.authn.value.serviceId), decision, id);
    }
  }

  lemma ForwardingAgrees(env: Environment, r: HttpRequest<HeaderMap>, decision: HeaderMap, id: Value)
    requires IsDecision(decision)
    ensures Unwound(Forward(env, r), decision, id) == FusedForward(env, r, decision, id)
  {
    match env.application(r)
    case Err(_) =>
    case Ok(response) => UnwindingIsFinalizing(View(response.headers), decision, id);
  }

  /** A decision that answers by itself. */
  lemma DecisionAnswersAgree(status: nat, decision: HeaderMap, id: Value)
    requires DecisionHeaders(decision)
    ensures Identified(SecuredOutcome(Answer(status, decision)), id) == Controlled(status, map[], decision, Some(id))
  {
    DecisionAsResponse(decision);
    AnswerNamesAreNotReserved();
    AnswersAgree(status, map[], decision, id);
    assert EmptyResponse(status, map[]).headers == map[CONTENT_LENGTH := [ZERO]];
    assert Answer(status, decision) == Merged(Answer(status, map[]), decision);
  }

  /** A plain answer, made before any decision. */
  lemma PlainAnswersAgree(status: nat, headers: HeaderMap, id: Value)
    requires NoReserved(headers)
    ensures Identified(SecuredOutcome(Answer(status, headers)), id) == Controlled(status, headers, map[], Some(id))
  {
    AnswersAgree(status, headers, map[], id);
    UnwoundNothing(Answer(status, headers), id);
  }

  /** With well-formed fields the two are one and the same. */
  lemma AgreeWhenWellFormed(env: Environment, r: HttpRequest<HeaderMap>)
    requires IsValidRequestId(env.generated)
    requires PolicyFieldsValid(r.headers) && OtherFieldsWellFormed(r.headers)
    requires !SettledEarly(env, r)
    ensures Fused(env, r) == Chain(env, r)
  {
    var id, inner := IdValue(env, r), Inner(env, r);
    SameRequestId(env, r);
    InnerIsWellFormed(env, r);
    SameDecision(env, r);
    var d := Evaluate(env.cors.value, r.verb, r.headers).value;
    DecisionShape(env.cors.value, r.verb, r.headers);
    assert Chain(env, r) == Identified(SecuredOutcome(CorsLayer(env, inner)), id);
    if d.status.Some? {
      DecisionAnswersAgree(d.status.value, d.responseHeaders, id);
    } else {
      AuthenticationAgrees(env, r, d.responseHeaders);
      if d.responseHeaders == map[] { UnwoundNothing(AuthnLayer(env, inner), id); }
    }
  }

  /** When the answer is settled early, malformed fields outside the policies make no difference. */
  lemma AgreeWhenSettled(env: Environment, r: HttpRequest<HeaderMap>)
    requires IsValidRequestId(env.generated)
    requires PolicyFieldsValid(r.headers) && SettledEarly(env, r)
    ensures Fused(env, r) == Chain(env, r)
  {
    SameRequestId(env, r);
    RejectionHasNoReserved(BrokerUnavailable, "");
    if env.cors.None? {
      PlainAnswersAgree(503, RetryAfter(), IdValue(env, r));
    } else {
      SameDecision(env, r);
      PlainAnswersAgree(400, map[], IdValue(env, r));
    }
  }

  // ----- Where they part -----

  lemma ChainAnswersCarryAnId(env: Environment, r: HttpRequest<HeaderMap>)
    ensures Chain(env, r).response.Ok? ==> REQUEST_ID_HEADER in Chain(env, r).response.value.headers
  {
  }

  /** The early 400 of the fused component has no request ID. */
  lemma EarlyRejectionHasNoId()
    ensures REQUEST_ID_HEADER !in Finalized(EmptyResponse(400, map[]).headers, map[], None)
  {
    FinalNamesDiffer();
    assert CONTENT_LENGTH != REQUEST_ID_HEADER;
    assert CONTENT_TYPE_OPTIONS != REQUEST_ID_HEADER && REFERRER_POLICY != REQUEST_ID_HEADER;
  }

  lemma ChallengeSurvives(headers: HeaderMap, decision: HeaderMap, id: Value)
    requires IsDecision(decision) && WWW_AUTHENTICATE in headers
    ensures WWW_AUTHENTICATE in Finalized(headers, decision, Some(id))
  {
    AnswerNamesAreNotReserved();
  }

  lemma PlainRejectionHasNoChallenge(id: Value)
    ensures WWW_AUTHENTICATE !in WithRequestId(Secured(EmptyResponse(400, map[]).headers), id)
  {
    assert WWW_AUTHENTICATE != CONTENT_LENGTH && WWW_AUTHENTICATE != CONTENT_TYPE_OPTIONS;
    assert WWW_AUTHENTICATE != REFERRER_POLICY && WWW_AUTHENTICATE != REQUEST_ID_HEADER;
  }

  /** With well-formed policy fields and an unsettled answer the fused component never sends a bare 400. */
  lemma FusedAnswerIsNoBare400(env: Environment, r: HttpRequest<HeaderMap>, decision: HeaderMap, id: string)
    requires IsDecision(decision)
    ensures var o := FusedAuthn(env, r, decision, id);
            o.forwarded.Some?
            || (o.response.Ok?
                && (o.response.value.status != 400 || WWW_AUTHENTICATE in o.response.value.headers))
  {
    if env.authn.Some? {
      match Authenticate(PolicyFields(r.headers), id, env.authn.value, env.broker).0
      case Pass(context) =>
      case Reject(rejection) =>
        var headers := RejectionHeaders(rejection, env.authn.value.serviceId);
        if rejection == InvalidRequest {
          ChallengeSurvives(EmptyResponse(400, headers).headers, decision, Encode(id));
        }
    }
  }

  lemma DifferOnMalformedOthers(env: Environment, r: HttpRequest<HeaderMap>)
    requires IsValidRequestId(env.generated)
    requires PolicyFieldsValid(r.headers) && !OtherFieldsWellFormed(r.headers) && !SettledEarly(env, r)
    ensures Fused(env, r) != Chain(env, r)
  {
    SameRequestId(env, r);
    InnerIsWellFormed(env, r);
    SameDecision(env, r);
    var d := Evaluate(env.cors.value, r.verb, r.headers).value;
    DecisionShape(env.cors.value, r.verb, r.headers);
    assert Chain(env, r) == Identified(SecuredOutcome(Answer(400, map[])), IdValue(env, r));
    PlainRejectionHasNoChallenge(IdValue(env, r));
    if d.status.None? { FusedAnswerIsNoBare400(env, r, d.responseHeaders, IdText(env, r)); }
  }

  /**
   The claim of the fused component, with its exact extent: for every deployment, application and
   broker, it forwards the same request (or none) and answers with the same status, body and ordered
   values under every name as the chain, if and only if malformed fields are absent or harmless.
   */
  lemma FusedIsTheChainExactly(env: Environment, r: HttpRequest<HeaderMap>)
    requires IsValidRequestId(env.generated)
    ensures Fused(env, r) == Chain(env, r) <==> Harmless(env, r)
  {
    if !PolicyFieldsValid(r.headers) {
      ChainAnswersCarryAnId(env, r);
      EarlyRejectionHasNoId();
    } else if SettledEarly(env, r) {
      AgreeWhenSettled(env, r);
    } else if OtherFieldsWellFormed(r.headers) {
      AgreeWhenWellFormed(env, r);
    } else {
      DifferOnMalformedOthers(env, r);
    }
  }

  /** In particular, for every request whose fields are all well formed. */
  lemma FusedIsTheChainOnWellFormedRequests(env: Environment, r: HttpRequest<HeaderMap>, prefix: Prefix, sequence: u64)
    requires env.generated == RequestIdOf(prefix, sequence)
    requires IsWellFormed(r.headers)
    ensures Fused(env, r) == Chain(env, r)
  {
    GeneratedIsValid(prefix, sequence);
    FusedIsTheChainExactly(env, r);
  }

  // ----- Requests on which the two differ -----

  lemma ControlByteIsMalformed()
    ensures !IsFieldValue([1])
  {
    var v: Value := [1];
    assert v[0] == 1;
  }

  /** A control byte in a policy field: only the chain's 400 carries the request ID, in every deployment. */
  lemma MalformedOriginDiffers(env: Environment)
    requires IsValidRequestId(env.generated)
    ensures var r := HttpRequest("GET", map[ORIGIN_HEADER := [[1]]], Empty);
            Fused(env, r) != Chain(env, r)
  {
    var r := HttpRequest("GET", map[ORIGIN_HEADER := [[1]]], Empty);
    ControlByteIsMalformed();
    assert !AllFieldValues(r.headers[ORIGIN_HEADER]) by { assert r.headers[ORIGIN_HEADER][0] == [1]; }
    assert ORIGIN_HEADER in POLICY_NAMES;
    FusedIsTheChainExactly(env, r);
  }

  const OPEN_CORS := CorsConfig(["*"], ["GET"], [], false)

  lemma OpenCorsIsAccepted(uriOrigin: string -> bool)
    ensures NewCorsConfig(["*"], ["GET"], [], false, uriOrigin) == Ok(OPEN_CORS)
  {
    TrimOfTrimmed("*");
    TrimOfTrimmed("GET");
    assert Tokens(["*"]) == ["*"] + Tokens([]);
    assert TrimAll(["GET"]) == ["GET"] && Lowered(TrimAll([])) == [];
    assert IsHttpToken("GET");
  }

  /** The same byte in any other field: only the chain refuses, with a plain 400. */
  lemma MalformedNoteDiffers(env: Environment)
    requires IsValidRequestId(env.generated) && env.cors == Some(OPEN_CORS)
    ensures var r := HttpRequest("GET", map["x-note" := [[1]]], Empty);
            && PolicyFieldsValid(r.headers)
            && Fused(env, r) != Chain(env, r)
            && Chain(env, r).forwarded.None?
            && Chain(env, r).response.Ok? && Chain(env, r).response.value.status == 400
  {
    var r := HttpRequest("GET", map["x-note" := [[1]]], Empty);
    assert "x-note" !in POLICY_NAMES && "x-note" != REQUEST_ID_HEADER && "x-note" != ORIGIN_HEADER;
    ControlByteIsMalformed();
    assert !AllFieldValues(r.headers["x-note"]) by { assert r.headers["x-note"][0] == [1]; }
    assert IsHttpToken("GET");
    assert Evaluate(OPEN_CORS, "GET", r.headers) == Ok(PassThrough());
    FusedIsTheChainExactly(env, r);
    InnerIsWellFormed(env, r);
    SameDecision(env, r);
  }
}
