/** The list and message helpers of the component support library, proved against the meaning of lists. */
module Support {
  import opened Wrappers
  import opened Utf8
  import opened Text
  import opened Headers
  import opened HeaderEdits
  import opened Cors
  import opened RequestId
  import opened Authn
  import opened Layers

  type Request = HttpRequest<seq<Header>>
  type Response = HttpResponse<seq<Header>>
  type Fate = Outcome<seq<Header>>

  predicate LowerKeys(m: HeaderMap) { forall k :: k in m ==> Lower(k) == k }

  lemma WellFormedStep(m: HeaderMap, name: string, value: Value)
    requires IsWellFormed(m)
    ensures IsWellFormed(Add(m, name, value)) <==> IsHttpToken(name) && IsFieldValue(value)
  {
    TokensFoldCase(name);
    var key, grown := Lower(name), Add(m, name, value);
    var values := grown[key];
    assert values[|values| - 1] == value;
    assert key in grown && grown[key] == values;
    if IsHttpToken(name) && IsFieldValue(value) {
      forall k | k in grown ensures IsHttpToken(k) && AllFieldValues(grown[k]) {
        if k in m { assert IsHttpToken(k) && AllFieldValues(m[k]); }
      }
    }
  }

  lemma {:induction false} WellFormedPrefix(h: seq<Header>, i: nat)
    requires i <= |h| && !IsWellFormed(View(h[..i]))
    ensures !IsWellFormed(View(h))
    decreases |h| - i
  {
    if i < |h| {
      assert h[..i + 1] == h[..i] + [h[i]];
      ViewPush(h[..i], h[i].name, h[i].value);
      var m := View(h[..i]);
      var k :| k in m && !(IsHttpToken(k) && AllFieldValues(m[k]));
      GrowthKeepsFaults(m, h[i].name, h[i].value, k);
      WellFormedPrefix(h, i + 1);
    } else {
      assert h[..i] == h;
    }
  }

  lemma GrowthKeepsFaults(m: HeaderMap, name: string, value: Value, k: string)
    requires k in m && !(IsHttpToken(k) && AllFieldValues(m[k]))
    ensures !IsWellFormed(Add(m, name, value))
  {
    var grown := Add(m, name, value);
    if IsHttpToken(k) {
      var i :| 0 <= i < |m[k]| && !IsFieldValue(m[k][i]);
      assert grown[k][i] == m[k][i];
    }
    assert k in grown && !(IsHttpToken(k) && AllFieldValues(grown[k]));
  }

  /** `to_header_map`: every field is converted, duplicates are kept, the first invalid one refuses all. */
  method ToHeaderMap(fields: seq<Header>) returns (r: Result<HeaderMap, ()>)
    ensures r == if IsWellFormed(View(fields)) then Ok(View(fields)) else Err(())
  {
    var output: HeaderMap := map[];
    for i := 0 to |fields|
      invariant output == View(fields[..i]) && IsWellFormed(output)
    {
      var f := fields[i];
      assert fields[..i + 1] == fields[..i] + [f];
      ViewPush(fields[..i], f.name, f.value);
      WellFormedStep(output, f.name, f.value);
      if !IsHttpToken(f.name) || !IsFieldValue(f.value) {
        WellFormedPrefix(fields, i + 1);
        return Err(());
      }
      output := Add(output, f.name, f.value);
    }
    assert fields[..|fields|] == fields;
    r := Ok(output);
  }

  /** A part of a map. */
  function Only(m: HeaderMap, names: set<string>): HeaderMap { map k | k in m && k in names :: m[k] }

  lemma OnlyStep(m: HeaderMap, names: set<string>, key: string)
    requires key in m && key !in names
    ensures Only(m, names + {key}) == Only(m, names) + map[key := m[key]]
  {
  }

  /** Pushes the values of every name but the skipped ones, names in any order. */
  method PushFields(m: HeaderMap, skip: set<string>) returns (output: seq<Header>)
    requires NoEmptyLists(m) && LowerKeys(m)
    ensures View(output) == m - skip
  {
    output := [];
    var names := m.Keys - skip;
    ghost var done: set<string> := {};
    while names != {}
      invariant names !! done && names + done == m.Keys - skip
      invariant View(output) == Only(m, done)
      decreases names
    {
      var name :| name in names;
      ghost var before := output;
      var j := 0;
      while j < |m[name]|
        invariant j <= |m[name]|
        invariant output == before + Repeated(name, m[name][..j])
      {
        output := output + [Header(name, m[name][j])];
        assert Repeated(name, m[name][..j + 1]) == Repeated(name, m[name][..j]) + [Header(name, m[name][j])];
        j := j + 1;
      }
      assert m[name][..j] == m[name];
      PushedGroup(before, name, m[name]);
      OnlyStep(m, done, name);
      names := names - {name};
      done := done + {name};
    }
  }

  lemma PushedGroup(before: seq<Header>, name: string, values: seq<Value>)
    requires name !in View(before) && values != [] && Lower(name) == name
    ensures View(before + Repeated(name, values)) == View(before) + map[name := values]
  {
    ViewRepeated(name, values);
    ViewConcat(before, Repeated(name, values));
  }

  // ----- Whole messages -----

  /** `replace_request_headers`: everything but the headers is carried over. */
  method ReplaceRequestHeaders(request: HttpRequest<seq<Header>>, headers: seq<Header>)
    returns (forwarded: HttpRequest<seq<Header>>)
    ensures RequestMeaning(forwarded) == RequestMeaning(request).(headers := View(headers))
  {
    var fields := new Fields.FromList(request.headers);
    ApplyHeaderDiff(fields, request.headers, headers);
    var list := fields.CopyAll();
    forwarded := HttpRequest(request.verb, list, request.body);
  }

  /** `edit_request_headers` */
  method EditRequestHeaders(request: HttpRequest<seq<Header>>, deletes: seq<string>, replacements: seq<Header>)
    returns (forwarded: HttpRequest<seq<Header>>)
    ensures RequestMeaning(forwarded)
            == RequestMeaning(request).(headers := Edited(View(request.headers), deletes, View(replacements)))
  {
    var fields := new Fields.FromList(request.headers);
    ApplyHeaderEdits(fields, deletes, replacements);
    var list := fields.CopyAll();
    forwarded := HttpRequest(request.verb, list, request.body);
  }

  /** `replace_response_headers` */
  method ReplaceResponseHeaders(response: HttpResponse<seq<Header>>, headers: seq<Header>)
    returns (forwarded: HttpResponse<seq<Header>>)
    ensures ResponseMeaning(forwarded) == ResponseMeaning(response).(headers := View(headers))
  {
    var fields := new Fields.FromList(response.headers);
    ApplyHeaderDiff(fields, response.headers, headers);
    var list := fields.CopyAll();
    forwarded := HttpResponse(response.status, list, response.body);
  }

  /** `edit_response_headers_from_original` */
  method EditResponseHeaders(response: HttpResponse<seq<Header>>, deletes: seq<string>, replacements: seq<Header>)
    returns (forwarded: HttpResponse<seq<Header>>)
    ensures ResponseMeaning(forwarded)
            == ResponseMeaning(response).(headers := Edited(View(response.headers), deletes, View(replacements)))
  {
    var fields := new Fields.FromList(response.headers);
    ApplyHeaderEdits(fields, deletes, replacements);
    var list := fields.CopyAll();
    forwarded := HttpResponse(response.status, list, response.body);
  }

  lemma ContentLengthIsLower()
    ensures Lower(CONTENT_LENGTH) == CONTENT_LENGTH
  {
  }

  /** `empty_response`: a length of zero unless the caller gave one. */
  method EmptyResponseFor(status: nat, headers: seq<Header>) returns (response: HttpResponse<seq<Header>>)
    ensures ResponseMeaning(response) == EmptyResponse(status, View(headers))
  {
    var list := headers;
    ContentLengthIsLower();
    ViewKeys(headers);
    MentionsIsMembership(Names(headers), CONTENT_LENGTH);
    var given := Mentions(Names(headers), CONTENT_LENGTH);
    if !given {
      ViewPush(list, CONTENT_LENGTH, ZERO);
      list := list + [Header(CONTENT_LENGTH, ZERO)];
      assert [] + [ZERO] == [ZERO];
    }
    response := HttpResponse(status, list, Empty);
  }

  // ----- Names are lower case -----

  lemma NamesAreLower()
    ensures Lower(AUTHORIZATION) == AUTHORIZATION && Lower(AUTH_CONTEXT) == AUTH_CONTEXT
    ensures Lower(REQUEST_ID_HEADER) == REQUEST_ID_HEADER && Lower(RETRY_AFTER) == RETRY_AFTER
    ensures Lower(WWW_AUTHENTICATE) == WWW_AUTHENTICATE && Lower(VARY) == VARY
  {
  }

  lemma SecurityNamesAreLower()
    ensures Lower(CONTENT_TYPE_OPTIONS) == CONTENT_TYPE_OPTIONS && Lower(REFERRER_POLICY) == REFERRER_POLICY
  {
  }

  lemma PolicyNamesAreLower()
    ensures Lower(ORIGIN_HEADER) == ORIGIN_HEADER && Lower(REQUEST_METHOD) == REQUEST_METHOD
    ensures Lower(REQUEST_HEADERS) == REQUEST_HEADERS
  {
  }

  lemma AllowNamesAreLower()
    ensures Lower(ALLOW_ORIGIN) == ALLOW_ORIGIN && Lower(ALLOW_METHODS) == ALLOW_METHODS
    ensures Lower(ALLOW_HEADERS) == ALLOW_HEADERS
  {
  }

  lemma AllowCredentialsIsLower()
    ensures Lower(ALLOW_CREDENTIALS) == ALLOW_CREDENTIALS
  {
  }

  lemma DecisionIsLower(decision: HeaderMap)
    requires decision == map[] || DecisionHeaders(decision)
    ensures LowerKeys(decision) && NoEmptyLists(decision)
  {
    AllowNamesAreLower();
    AllowCredentialsIsLower();
    NamesAreLower();
  }

  // ----- What several components build -----

  /** `canonical_request_id` over the list. */
  method CanonicalFromList(headers: seq<Header>, generated: string) returns (accepted: Option<string>)
    ensures accepted == AcceptedUtf8(Get(View(headers), REQUEST_ID_HEADER))
  {
    NamesAreLower();
    HeaderValuesAreTheView(headers, REQUEST_ID_HEADER);
    var value := SingleHeaderValue(headers, REQUEST_ID_HEADER);
    if value.Some? {
      var text := Decode(value.value);
      if text.Some? && IsValidRequestId(text.value) { return text; }
    }
    accepted := None;
  }

  lemma RetryAfterView()
    ensures View([Header(RETRY_AFTER, ONE)]) == RetryAfter()
  {
    NamesAreLower();
    ViewPush([], RETRY_AFTER, ONE);
    assert [] + [Header(RETRY_AFTER, ONE)] == [Header(RETRY_AFTER, ONE)];
    assert [] + [ONE] == [ONE];
  }

  lemma PushOne(headers: seq<Header>, name: string, value: Value)
    requires Lower(name) == name && name !in View(headers)
    ensures View(headers + [Header(name, value)]) == View(headers)[name := [value]]
  {
    ViewPush(headers, name, value);
    assert [] + [value] == [value];
  }

  /** `rejection_response`: challenge and Retry-After, behind the fields given. */
  method RejectionFields(rejection: AuthnRejection, realm: string, prefix: seq<Header>) returns (headers: seq<Header>)
    requires View(prefix).Keys !! {WWW_AUTHENTICATE, RETRY_AFTER}
    ensures View(headers) == View(prefix) + RejectionHeaders(rejection, realm)
  {
    RejectionNames();
    headers := prefix;
    var challenge := BearerChallenge(rejection, realm);
    if challenge.Some? {
      PushOne(headers, WWW_AUTHENTICATE, Encode(challenge.value));
      headers := headers + [Header(WWW_AUTHENTICATE, Encode(challenge.value))];
    }
    if rejection == BrokerUnavailable {
      PushOne(headers, RETRY_AFTER, ONE);
      headers := headers + [Header(RETRY_AFTER, ONE)];
    }
  }

  lemma RejectionNames()
    ensures Lower(WWW_AUTHENTICATE) == WWW_AUTHENTICATE && Lower(RETRY_AFTER) == RETRY_AFTER
    ensures WWW_AUTHENTICATE != RETRY_AFTER
  {
    NamesAreLower();
  }
}
