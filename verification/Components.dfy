/**
 The four layered components as they run: each copies, edits and rebuilds header lists through the host
 resource. Every one is proved to mean exactly the corresponding function of `Layers`.
 */
module Components {
  import opened Wrappers
  import opened Utf8
  import opened Text
  import opened Headers
  import opened Cors
  import opened Vary
  import opened RequestId
  import opened Authn
  import opened Layers
  import opened Support

  // ----- request-id -----

  method RequestIdHandle(env: Environment, request: Request) returns (fate: Fate)
    ensures Meaning(fate) == Chain(env, RequestMeaning(request))
  {
    NamesAreLower();
    var headers := request.headers;
    var accepted := CanonicalFromList(headers, env.generated);
    var id := Encode(if accepted.Some? then accepted.value else env.generated);
    ViewSetHeader(headers, REQUEST_ID_HEADER, id);
    headers := SetHeader(headers, REQUEST_ID_HEADER, id);
    var inner := ReplaceRequestHeaders(request, headers);

    fate := SecurityHandle(env, inner);
    if fate.response.Err? { return; }
    var fields := fate.response.value.headers;
    ViewSetHeader(fields, REQUEST_ID_HEADER, id);
    fields := SetHeader(fields, REQUEST_ID_HEADER, id);
    var response := ReplaceResponseHeaders(fate.response.value, fields);
    fate := Outcome(Ok(response), fate.forwarded);
  }

  // ----- security-headers -----

  method SecurityHandle(env: Environment, request: Request) returns (fate: Fate)
    ensures Meaning(fate) == SecurityLayer(env, RequestMeaning(request))
  {
    SecurityNamesAreLower();
    fate := CorsHandle(env, request);
    if fate.response.Err? { return; }
    var headers := fate.response.value.headers;
    ViewSetHeader(headers, CONTENT_TYPE_OPTIONS, NOSNIFF);
    headers := SetHeader(headers, CONTENT_TYPE_OPTIONS, NOSNIFF);
    ViewSetHeader(headers, REFERRER_POLICY, STRICT_ORIGIN);
    headers := SetHeader(headers, REFERRER_POLICY, STRICT_ORIGIN);
    var response := ReplaceResponseHeaders(fate.response.value, headers);
    fate := Outcome(Ok(response), fate.forwarded);
  }

  // ----- cors -----

  method Respond(status: nat, headers: seq<Header>) returns (fate: Fate)
    ensures Meaning(fate) == Answer(status, View(headers))
  {
    var response := EmptyResponseFor(status, headers);
    fate := Outcome(Ok(response), None);
  }

  /** Replaces one name by the values of the decision. */
  method ReplaceValues(target: seq<Header>, name: string, values: seq<Value>) returns (fields: seq<Header>)
    requires values != [] && Lower(name) == name
    ensures View(fields) == View(target)[name := values]
  {
    ViewRemoveHeader(target, name);
    var kept := RemoveHeader(target, name);
    fields := kept;
    var j := 0;
    while j < |values|
      invariant j <= |values| && fields == kept + Repeated(name, values[..j])
    {
      fields := fields + [Header(name, values[j])];
      assert Repeated(name, values[..j + 1]) == Repeated(name, values[..j]) + [Header(name, values[j])];
      j := j + 1;
    }
    assert values[..j] == values;
    PushedGroup(kept, name, values);
    ReplaceKey(View(target), name, values);
  }

  lemma OverwriteStep(m: HeaderMap, source: HeaderMap, done: set<string>, key: string)
    requires key in source && key !in done
    ensures m + Only(source, done + {key}) == (m + Only(source, done))[key := source[key]]
  {
  }

  /** `merge_cors_headers` */
  method MergeCorsHeaders(target: seq<Header>, source: HeaderMap) returns (fields: seq<Header>)
    requires NoEmptyLists(source) && LowerKeys(source)
    ensures View(fields) == MergeCors(View(target), source)
  {
    fields := target;
    var names := source.Keys - {VARY};
    ghost var done: set<string> := {};
    assert View(target) + Only(source, {}) == View(target);
    while names != {}
      invariant names !! done && names + done == source.Keys - {VARY}
      invariant View(fields) == View(target) + Only(source, done)
      decreases names
    {
      var name :| name in names;
      OverwriteStep(View(target), source, done, name);
      fields := ReplaceValues(fields, name, source[name]);
      names := names - {name};
      done := done + {name};
    }
    assert Only(source, done) == source - {VARY};
    if VARY in source {
      VaryIsLower();
      fields := MergeVaryOrigin(fields);
    }
  }

  method CorsHandle(env: Environment, request: Request) returns (fate: Fate)
    ensures Meaning(fate) == CorsLayer(env, RequestMeaning(request))
  {
    if env.cors.None? {
      RetryAfterView();
      fate := Respond(503, [Header(RETRY_AFTER, ONE)]);
      return;
    }
    var headers := ToHeaderMap(request.headers);
    if headers.Err? || !IsHttpToken(request.verb) {
      fate := Respond(400, []);
      return;
    }
    var decision := Evaluate(env.cors.value, request.verb, headers.value);
    if decision.Err? {
      fate := Respond(400, []);
      return;
    }
    DecisionShape(env.cors.value, request.verb, headers.value);
    fate := CorsContinue(env, request, decision.value);
  }

  /** The rest of the layer once the decision is made. */
  method CorsContinue(env: Environment, request: Request, decision: CorsDecision) returns (fate: Fate)
    requires decision.responseHeaders == map[] || DecisionHeaders(decision.responseHeaders)
    ensures Meaning(fate)
            == if decision.status.Some? then Answer(decision.status.value, decision.responseHeaders)
               else if decision.responseHeaders == map[] then AuthnLayer(env, RequestMeaning(request))
               else Merged(AuthnLayer(env, RequestMeaning(request)), decision.responseHeaders)
  {
    DecisionIsLower(decision.responseHeaders);
    if decision.status.Some? {
      var list := PushFields(decision.responseHeaders, {});
      assert decision.responseHeaders - {} == decision.responseHeaders;
      fate := Respond(decision.status.value, list);
      return;
    }
    fate := AuthnHandle(env, request);
    if fate.response.Err? || decision.responseHeaders == map[] { return; }
    var fields := MergeCorsHeaders(fate.response.value.headers, decision.responseHeaders);
    var response := ReplaceResponseHeaders(fate.response.value, fields);
    fate := Outcome(Ok(response), fate.forwarded);
  }

  // ----- authn-policy -----

  lemma IdFirst(id: Value)
    ensures View([Header(REQUEST_ID_HEADER, id)]) == map[REQUEST_ID_HEADER := [id]]
  {
    NamesAreLower();
    ViewPush([], REQUEST_ID_HEADER, id);
    assert [] + [Header(REQUEST_ID_HEADER, id)] == [Header(REQUEST_ID_HEADER, id)];
    assert [] + [id] == [id];
  }

  lemma IdFirstOrLast(id: Value, rest: HeaderMap)
    requires REQUEST_ID_HEADER !in rest
    ensures map[REQUEST_ID_HEADER := [id]] + rest == WithRequestId(rest, id)
  {
  }

  method AuthnReject(rejection: AuthnRejection, realm: string, id: Value) returns (fate: Fate)
    ensures Meaning(fate)
            == Answer(RejectionStatus(rejection), WithRequestId(RejectionHeaders(rejection, realm), id))
  {
    IdFirst(id);
    assert REQUEST_ID_HEADER != WWW_AUTHENTICATE && REQUEST_ID_HEADER != RETRY_AFTER;
    var headers := RejectionFields(rejection, realm, [Header(REQUEST_ID_HEADER, id)]);
    IdFirstOrLast(id, RejectionHeaders(rejection, realm));
    fate := Respond(RejectionStatus(rejection), headers);
  }

  /** `configuration_failure_response` */
  method ConfigurationFailure(id: Value) returns (fate: Fate)
    ensures Meaning(fate) == Answer(503, WithRequestId(RetryAfter(), id))
  {
    NamesAreLower();
    IdFirst(id);
    var list := [Header(REQUEST_ID_HEADER, id)];
    ViewPush(list, RETRY_AFTER, ONE);
    assert REQUEST_ID_HEADER != RETRY_AFTER;
    assert [] + [ONE] == [ONE];
    IdFirstOrLast(id, RetryAfter());
    assert map[REQUEST_ID_HEADER := [id]] + RetryAfter() == map[REQUEST_ID_HEADER := [id]][RETRY_AFTER := [ONE]];
    fate := Respond(503, list + [Header(RETRY_AFTER, ONE)]);
  }

  /** The rewriting of the forwarded request, step by step. */
  method TrustedFields(fields: seq<Header>, context: Value, id: Value) returns (trusted: seq<Header>)
    ensures View(trusted) == Trusted(View(fields), context, id)
  {
    NamesAreLower();
    ViewRemoveHeader(fields, AUTHORIZATION);
    trusted := RemoveHeader(fields, AUTHORIZATION);
    ViewRemovePrefix(trusted, RESERVED);
    trusted := RemoveHeadersWithPrefix(trusted, RESERVED);
    ViewSetHeader(trusted, AUTH_CONTEXT, context);
    trusted := SetHeader(trusted, AUTH_CONTEXT, context);
    ViewSetHeader(trusted, REQUEST_ID_HEADER, id);
    trusted := SetHeader(trusted, REQUEST_ID_HEADER, id);
  }

  /** Calls the application and strips reserved fields from what it returns. */
  method ForwardStripped(env: Environment, request: Request) returns (fate: Fate)
    ensures Meaning(fate) == Forward(env, RequestMeaning(request))
  {
    var result := env.application(RequestMeaning(request));
    if result.Err? { return Outcome(Err(result.error), Some(request)); }
    var fields := result.value.headers;
    ViewRemovePrefix(fields, RESERVED);
    fields := RemoveHeadersWithPrefix(fields, RESERVED);
    var response := ReplaceResponseHeaders(result.value, fields);
    fate := Outcome(Ok(response), Some(request));
  }

  method AuthnHandle(env: Environment, request: Request) returns (fate: Fate)
    ensures Meaning(fate) == AuthnLayer(env, RequestMeaning(request))
  {
    var headers := ToHeaderMap(request.headers);
    if headers.Err? {
      fate := Respond(400, []);
      return;
    }
    var id := CanonicalInPolicy(headers.value, env.generated);
    if id.None? { return Outcome(Err(InternalError), None); }
    if env.authn.None? {
      fate := ConfigurationFailure(Encode(id.value));
      return;
    }
    var (outcome, _) := Authenticate(headers.value, id.value, env.authn.value, env.broker);
    match outcome
    case Pass(context) =>
      var fields := TrustedFields(request.headers, context, Encode(id.value));
      var forwarded := ReplaceRequestHeaders(request, fields);
      fate := ForwardStripped(env, forwarded);
    case Reject(rejection) =>
      fate := AuthnReject(rejection, env.authn.value.serviceId, Encode(id.value));
  }
}
