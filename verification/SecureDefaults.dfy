/** The fused component as it runs, proved to mean exactly `Layers.Fused`. */
module SecureDefaults {
  import opened Wrappers
  import opened Utf8
  import opened Text
  import opened Headers
  import opened HeaderEdits
  import opened Cors
  import opened Vary
  import opened RequestId
  import opened Authn
  import opened Layers
  import opened Support

  // ----- Projection to the policy fields -----

  lemma PolicyStep(m: HeaderMap, name: string, value: Value)
    ensures PolicyFields(Add(m, name, value))
            == if Lower(name) in POLICY_NAMES then Add(PolicyFields(m), name, value) else PolicyFields(m)
    ensures PolicyFieldsValid(m) && (Lower(name) in POLICY_NAMES ==> IsFieldValue(value))
            ==> PolicyFieldsValid(Add(m, name, value))
    ensures !PolicyFieldsValid(m) || (Lower(name) in POLICY_NAMES && !IsFieldValue(value))
            ==> !PolicyFieldsValid(Add(m, name, value))
  {
    var key, grown := Lower(name), Add(m, name, value);
    assert grown[key][|grown[key]| - 1] == value;
    if !PolicyFieldsValid(m) {
      var k :| k in m && k in POLICY_NAMES && !AllFieldValues(m[k]);
      var i :| 0 <= i < |m[k]| && !IsFieldValue(m[k][i]);
      assert k in grown && grown[k][i] == m[k][i];
    }
    assert key in grown;
  }

  lemma {:induction false} PolicyFaultStays(h: seq<Header>, i: nat)
    requires i <= |h| && !PolicyFieldsValid(View(h[..i]))
    ensures !PolicyFieldsValid(View(h))
    decreases |h| - i
  {
    if i < |h| {
      assert h[..i + 1] == h[..i] + [h[i]];
      ViewPush(h[..i], h[i].name, h[i].value);
      PolicyStep(View(h[..i]), h[i].name, h[i].value);
      PolicyFaultStays(h, i + 1);
    } else {
      assert h[..i] == h;
    }
  }

  /** Which of the four policy names a field carries, if any. */
  function Selected(name: string): Option<string> {
    if EqIgnoreCase(name, AUTHORIZATION) then Some(AUTHORIZATION)
    else if EqIgnoreCase(name, ORIGIN_HEADER) then Some(ORIGIN_HEADER)
    else if EqIgnoreCase(name, REQUEST_METHOD) then Some(REQUEST_METHOD)
    else if EqIgnoreCase(name, REQUEST_HEADERS) then Some(REQUEST_HEADERS)
    else None
  }

  lemma SelectedIsThePolicyName(name: string)
    ensures Selected(name) == if Lower(name) in POLICY_NAMES then Some(Lower(name)) else None
  {
    NamesAreLower();
    PolicyNamesAreLower();
  }

  /** `policy_headers` */
  method PolicyHeaders(fields: seq<Header>) returns (r: Result<HeaderMap, ()>)
    ensures r == if PolicyFieldsValid(View(fields)) then Ok(PolicyFields(View(fields))) else Err(())
  {
    var headers: HeaderMap := map[];
    for i := 0 to |fields|
      invariant headers == PolicyFields(View(fields[..i])) && PolicyFieldsValid(View(fields[..i]))
    {
      var f := fields[i];
      assert fields[..i + 1] == fields[..i] + [f];
      ViewPush(fields[..i], f.name, f.value);
      PolicyStep(View(fields[..i]), f.name, f.value);
      SelectedIsThePolicyName(f.name);
      var selected := Selected(f.name);
      if selected.Some? {
        if !IsFieldValue(f.value) {
          PolicyFaultStays(fields, i + 1);
          return Err(());
        }
        LowerIdempotent(f.name);
        headers := Add(headers, selected.value, f.value);
      }
    }
    assert fields[..|fields|] == fields;
    r := Ok(headers);
  }

  // ----- Deletions -----

  /** The names of the fields that carry the reserved prefix. */
  function ReservedNames(h: seq<Header>): seq<string> {
    if h == [] then []
    else
      var front, last := ReservedNames(h[..|h| - 1]), h[|h| - 1];
      if HasPrefix(last.name, RESERVED) then front + [last.name] else front
  }

  lemma {:induction false} ReservedNamesAreTheReservedKeys(h: seq<Header>)
    ensures LowerNames(ReservedNames(h)) == set k | k in View(h) && HasPrefix(k, RESERVED)
  {
    if h == [] {
    } else {
      var front, last := h[..|h| - 1], h[|h| - 1];
      ReservedNamesAreTheReservedKeys(front);
      HasPrefixLower(last.name, RESERVED);
      LowerNamesPush(ReservedNames(front), last.name);
    }
  }

  lemma DeletingReserved(h: seq<Header>, m: HeaderMap)
    requires m == View(h)
    ensures m - LowerNames(ReservedNames(h)) == WithoutPrefix(m, RESERVED)
  {
    ReservedNamesAreTheReservedKeys(h);
  }

  // ----- Finalization -----

  /** `cors_replacements`: the decision's fields, with Vary merged into the original one. */
  method CorsReplacements(original: seq<Header>, source: HeaderMap) returns (replacements: seq<Header>)
    requires NoEmptyLists(source) && LowerKeys(source)
    ensures View(replacements)
            == if VARY in source then (source - {VARY})[VARY := [MergedVary(Get(View(original), VARY))]]
               else source - {VARY}
  {
    replacements := PushFields(source, {VARY});
    if VARY in source {
      VaryIsLower();
      var merged := MergedVaryOrigin(original);
      ViewPush(replacements, VARY, merged);
      replacements := replacements + [Header(VARY, merged)];
      assert [] + [merged] == [merged];
    }
  }

  function Fixed(id: Option<Value>): HeaderMap {
    var base: HeaderMap := map[CONTENT_TYPE_OPTIONS := [NOSNIFF], REFERRER_POLICY := [STRICT_ORIGIN]];
    if id.Some? then WithRequestId(base, id.value) else base
  }

  /** The replacements every response gets. */
  method FixedReplacements(id: Option<Value>) returns (replacements: seq<Header>)
    ensures View(replacements) == Fixed(id)
  {
    replacements := [Header(CONTENT_TYPE_OPTIONS, NOSNIFF), Header(REFERRER_POLICY, STRICT_ORIGIN)];
    SecurityFieldsView();
    if id.Some? {
      NamesAreLower();
      RequestIdApart();
      ViewPush(replacements, REQUEST_ID_HEADER, id.value);
      replacements := replacements + [Header(REQUEST_ID_HEADER, id.value)];
      assert [] + [id.value] == [id.value];
    }
  }

  lemma SecurityFieldsView()
    ensures View([Header(CONTENT_TYPE_OPTIONS, NOSNIFF), Header(REFERRER_POLICY, STRICT_ORIGIN)]) == Fixed(None)
  {
    SecurityNamesAreLower();
    var first := [Header(CONTENT_TYPE_OPTIONS, NOSNIFF)];
    ViewPush([], CONTENT_TYPE_OPTIONS, NOSNIFF);
    assert [] + first == first && [] + [NOSNIFF] == [NOSNIFF];
    ViewPush(first, REFERRER_POLICY, STRICT_ORIGIN);
    assert [] + [STRICT_ORIGIN] == [STRICT_ORIGIN];
    assert first + [Header(REFERRER_POLICY, STRICT_ORIGIN)]
           == [Header(CONTENT_TYPE_OPTIONS, NOSNIFF), Header(REFERRER_POLICY, STRICT_ORIGIN)];
  }

  lemma RequestIdApart()
    ensures REQUEST_ID_HEADER != CONTENT_TYPE_OPTIONS && REQUEST_ID_HEADER != REFERRER_POLICY
    ensures CONTENT_TYPE_OPTIONS != REFERRER_POLICY
  {
    assert |REQUEST_ID_HEADER| != |CONTENT_TYPE_OPTIONS| && |REQUEST_ID_HEADER| != |REFERRER_POLICY|;
  }

  lemma FixedApart(decision: HeaderMap, id: Option<Value>)
    requires decision == map[] || DecisionHeaders(decision)
    ensures Fixed(id).Keys !! decision.Keys && VARY !in Fixed(id)
  {
    assert {CONTENT_TYPE_OPTIONS, REFERRER_POLICY, REQUEST_ID_HEADER}
           !! {ALLOW_ORIGIN, ALLOW_CREDENTIALS, ALLOW_METHODS, ALLOW_HEADERS, VARY};
  }

  lemma EditsFinalize(kept: HeaderMap, decision: HeaderMap, id: Option<Value>, vary: Value)
    requires VARY !in Fixed(id)
    ensures kept + (Fixed(id) + (if VARY in decision then (decision - {VARY})[VARY := [vary]] else decision - {VARY}))
            == Overlaid(if id.Some? then WithRequestId(Secured(kept), id.value) else Secured(kept), decision, vary)
  {
    FixedWrites(kept, id);
  }

  lemma FixedWrites(kept: HeaderMap, id: Option<Value>)
    ensures kept + Fixed(id) == if id.Some? then WithRequestId(Secured(kept), id.value) else Secured(kept)
  {
  }

  /** `finalize_response` */
  method FinalizeResponse(response: Response, decision: HeaderMap, id: Option<Value>) returns (final: Response)
    requires decision == map[] || DecisionHeaders(decision)
    ensures ResponseMeaning(final)
            == ResponseMeaning(response).(headers := Finalized(View(response.headers), decision, id))
  {
    DecisionIsLower(decision);
    var original := response.headers;
    var deletes := ReservedNames(original);
    var cors := CorsReplacements(original, decision);
    var replacements := FixedReplacements(id);
    FixedApart(decision, id);
    ViewConcat(replacements, cors);
    DeletingReserved(original, View(original));
    EditsFinalize(WithoutPrefix(View(original), RESERVED), decision, id, MergedVary(Get(View(original), VARY)));
    UnionAssociates(WithoutPrefix(View(original), RESERVED), View(replacements), View(cors));
    final := EditResponseHeaders(response, deletes, replacements + cors);
  }

  lemma UnionAssociates(a: HeaderMap, b: HeaderMap, c: HeaderMap)
    ensures a + b + c == a + (b + c)
  {
  }

  /** `controlled_response` */
  method ControlledResponse(status: nat, headers: seq<Header>, decision: HeaderMap, id: Option<Value>)
    returns (fate: Fate)
    requires decision == map[] || DecisionHeaders(decision)
    ensures Meaning(fate) == Controlled(status, View(headers), decision, id)
  {
    var empty := EmptyResponseFor(status, headers);
    var response := FinalizeResponse(empty, decision, id);
    fate := Outcome(Ok(response), None);
  }

  // ----- The handler -----

  lemma AuthorizationMentioned(fields: seq<Header>)
    ensures ContainsFold(Names(fields), AUTHORIZATION) <==> AUTHORIZATION in View(fields)
  {
    NamesAreLower();
    ViewKeys(fields);
    MentionsIsMembership(Names(fields), AUTHORIZATION);
  }

  lemma {:induction false} LowerNamesConcat(a: seq<string>, b: seq<string>)
    ensures LowerNames(a + b) == LowerNames(a) + LowerNames(b)
  {
    if b == [] {
      assert a + b == a;
    } else {
      LowerNamesConcat(a, b[..|b| - 1]);
      LowerNamesPush(a + b[..|b| - 1], b[|b| - 1]);
      LowerNamesPush(b[..|b| - 1], b[|b| - 1]);
      assert a + b == a + b[..|b| - 1] + [b[|b| - 1]];
      assert b == b[..|b| - 1] + [b[|b| - 1]];
    }
  }

  /** The edits that turn the client's request into the trusted one. */
  method TrustedEdits(fields: seq<Header>, context: Value, id: Value)
    returns (deletes: seq<string>, replacements: seq<Header>)
    ensures Edited(View(fields), deletes, View(replacements)) == Trusted(View(fields), context, id)
  {
    NamesAreLower();
    AuthorizationMentioned(fields);
    deletes := [];
    var present := Mentions(Names(fields), AUTHORIZATION);
    if present { deletes := [AUTHORIZATION]; }
    ghost var first := deletes;
    assert LowerNames(first) == if present then {AUTHORIZATION} else {} by {
      if present { LowerNamesPush([], AUTHORIZATION); assert [] + [AUTHORIZATION] == [AUTHORIZATION]; }
    }
    deletes := deletes + ReservedNames(fields);
    LowerNamesConcat(first, ReservedNames(fields));
    replacements := [Header(AUTH_CONTEXT, context), Header(REQUEST_ID_HEADER, id)];
    TrustedReplacements(context, id);
    DeletingReserved(fields, View(fields));
    DeletesAreTrusted(View(fields), LowerNames(first), LowerNames(ReservedNames(fields)), context, id);
  }

  lemma TrustedReplacements(context: Value, id: Value)
    ensures View([Header(AUTH_CONTEXT, context), Header(REQUEST_ID_HEADER, id)])
            == map[AUTH_CONTEXT := [context], REQUEST_ID_HEADER := [id]]
  {
    NamesAreLower();
    var one := [Header(AUTH_CONTEXT, context)];
    ViewPush([], AUTH_CONTEXT, context);
    assert [] + one == one && [] + [context] == [context] && [] + [id] == [id];
    ViewPush(one, REQUEST_ID_HEADER, id);
    assert one + [Header(REQUEST_ID_HEADER, id)] == [Header(AUTH_CONTEXT, context), Header(REQUEST_ID_HEADER, id)];
    assert AUTH_CONTEXT != REQUEST_ID_HEADER;
  }

  lemma DeletesAreTrusted(m: HeaderMap, credential: set<string>, reserved: set<string>, context: Value, id: Value)
    requires credential == if AUTHORIZATION in m then {AUTHORIZATION} else {}
    requires m - reserved == WithoutPrefix(m, RESERVED)
    ensures m - (credential + reserved) + map[AUTH_CONTEXT := [context], REQUEST_ID_HEADER := [id]]
            == Trusted(m, context, id)
  {
    assert m - (credential + reserved) == m - reserved - {AUTHORIZATION};
    assert WithoutPrefix(m, RESERVED) - {AUTHORIZATION} == WithoutPrefix(m - {AUTHORIZATION}, RESERVED);
    assert AUTH_CONTEXT != REQUEST_ID_HEADER;
  }

  method FusedReject(rejection: AuthnRejection, realm: string, decision: HeaderMap, id: Value) returns (fate: Fate)
    requires decision == map[] || DecisionHeaders(decision)
    ensures Meaning(fate)
            == Controlled(RejectionStatus(rejection), RejectionHeaders(rejection, realm), decision, Some(id))
  {
    var headers := RejectionFields(rejection, realm, []);
    assert map[] + RejectionHeaders(rejection, realm) == RejectionHeaders(rejection, realm);
    fate := ControlledResponse(RejectionStatus(rejection), headers, decision, Some(id));
  }

  method FusedPass(env: Environment, request: Request, context: Value, decision: HeaderMap, id: Value)
    returns (fate: Fate)
    requires decision == map[] || DecisionHeaders(decision)
    ensures var r := RequestMeaning(request);
            Meaning(fate) == FusedForward(env, r.(headers := Trusted(r.headers, context, id)), decision, id)
  {
    var deletes, replacements := TrustedEdits(request.headers, context, id);
    var forwarded := EditRequestHeaders(request, deletes, replacements);
    var result := env.application(RequestMeaning(forwarded));
    if result.Err? { return Outcome(Err(result.error), Some(forwarded)); }
    var response := FinalizeResponse(result.value, decision, Some(id));
    fate := Outcome(Ok(response), Some(forwarded));
  }

  method AuthenticateFused(env: Environment, request: Request, headers: HeaderMap, decision: HeaderMap, id: string)
    returns (fate: Fate)
    requires headers == PolicyFields(View(request.headers))
    requires decision == map[] || DecisionHeaders(decision)
    ensures Meaning(fate) == FusedAuthn(env, RequestMeaning(request), decision, id)
  {
    if env.authn.None? {
      RetryAfterView();
      fate := ControlledResponse(503, [Header(RETRY_AFTER, ONE)], decision, Some(Encode(id)));
      return;
    }
    var (outcome, _) := Authenticate(headers, id, env.authn.value, env.broker);
    match outcome
    case Pass(context) => fate := FusedPass(env, request, context, decision, Encode(id));
    case Reject(rejection) => fate := FusedReject(rejection, env.authn.value.serviceId, decision, Encode(id));
  }

  /** `canonical_request_id`: the generator's product is checked. */
  method CanonicalChecked(fields: seq<Header>, generated: string) returns (id: Option<string>)
    ensures id == CanonicalInFused(View(fields), generated)
  {
    id := CanonicalFromList(fields, generated);
    if id.None? && IsValidRequestId(generated) { id := Some(generated); }
  }

  method FusedHandle(env: Environment, request: Request) returns (fate: Fate)
    ensures Meaning(fate) == Fused(env, RequestMeaning(request))
  {
    var headers := PolicyHeaders(request.headers);
    if headers.Err? {
      fate := ControlledResponse(400, [], map[], None);
      return;
    }
    var id := CanonicalChecked(request.headers, env.generated);
    if id.None? { return Outcome(Err(InternalError), None); }
    if env.cors.None? {
      RetryAfterView();
      fate := ControlledResponse(503, [Header(RETRY_AFTER, ONE)], map[], Some(Encode(id.value)));
      return;
    }
    if !IsHttpToken(request.verb) {
      fate := ControlledResponse(400, [], map[], Some(Encode(id.value)));
      return;
    }
    var decision := Evaluate(env.cors.value, request.verb, headers.value);
    if decision.Err? {
      fate := ControlledResponse(400, [], map[], Some(Encode(id.value)));
      return;
    }
    DecisionShape(env.cors.value, request.verb, headers.value);
    var CorsDecision(responseHeaders, status) := decision.value;
    if status.Some? {
      fate := ControlledResponse(status.value, [], responseHeaders, Some(Encode(id.value)));
      return;
    }
    fate := AuthenticateFused(env, request, headers.value, responseHeaders, id.value);
  }
}
