/** The CORS policy: its validated configuration and the decision for one request. */
module Cors {
  import opened Wrappers
  import opened Utf8
  import opened Text
  import opened Headers
  import opened Settings
  import opened Ordering

  const ORIGIN_HEADER := "origin"
  const REQUEST_METHOD := "access-control-request-method"
  const REQUEST_HEADERS := "access-control-request-headers"
  const ALLOW_ORIGIN := "access-control-allow-origin"
  const ALLOW_CREDENTIALS := "access-control-allow-credentials"
  const ALLOW_METHODS := "access-control-allow-methods"
  const ALLOW_HEADERS := "access-control-allow-headers"
  const ORIGIN_VALUE: Value := Encode(ORIGIN)
  const TRUE_VALUE: Value := Encode("true")

  datatype PolicyError = InvalidConfiguration(reason: string) | InvalidHeader

  /** The ordered sets of the policy, each as the list it iterates as. */
  datatype CorsConfig = CorsConfig(
    origins: seq<string>,
    methods: seq<string>,
    headers: seq<string>,
    allowCredentials: bool)

  datatype CorsDecision = CorsDecision(responseHeaders: HeaderMap, status: Option<nat>)

  /** The token characters of section 5.6.2 of RFC 9110, which methods and field names consist of. */
  predicate IsTchar(c: char) {
    IsAlphanumeric(c) || c in {'!', '#', '$', '%', '&', '\'', '*', '+', '-', '.', '^', '_', '`', '|', '~'}
  }

  predicate IsHttpToken(s: string) { s != "" && forall i :: 0 <= i < |s| ==> IsTchar(s[i]) }

  /** The same section's other description: visible ASCII except the delimiters. */
  lemma TcharExactly(c: char)
    ensures IsTchar(c) <==> '!' <= c <= '~' && c !in "\"(),/:;<=>?@[\\]{}"
  {
  }

  lemma TokensFoldCase(name: string)
    ensures IsHttpToken(Lower(name)) <==> IsHttpToken(name)
  {
    assert forall c: char :: IsTchar(LowerChar(c)) <==> IsTchar(c);
    if IsHttpToken(Lower(name)) {
      forall i | 0 <= i < |name| ensures IsTchar(name[i]) { assert IsTchar(Lower(name)[i]); }
    }
  }

  // ----- Configuration -----

  /** `is_valid_cors_origin`, with the URI test as a parameter. */
  predicate IsValidOrigin(origin: string, uriOrigin: string -> bool) {
    || origin == "*" || origin == "null"
    || ((forall i :: 0 <= i < |origin| ==> ' ' <= origin[i] <= '~') && uriOrigin(origin))
  }

  function Lowered(list: seq<string>): (r: seq<string>)
    ensures |r| == |list|
  {
    seq(|list|, i requires 0 <= i < |list| => Lower(list[i]))
  }

  predicate AllHttpTokens(list: seq<string>) { forall s :: s in list ==> IsHttpToken(s) }

  function NewCorsConfig(origins: seq<string>, methods: seq<string>, headers: seq<string>,
                         allowCredentials: bool, uriOrigin: string -> bool)
    : Result<CorsConfig, PolicyError>
  {
    var allOrigins := SortDedup(Tokens(origins));
    if allOrigins == [] then Err(InvalidConfiguration("at least one CORS origin is required"))
    else if allowCredentials && "*" in allOrigins then
      Err(InvalidConfiguration("wildcard CORS origin cannot allow credentials"))
    else if exists o :: o in allOrigins && !IsValidOrigin(o, uriOrigin) then
      Err(InvalidConfiguration("invalid CORS origin"))
    else
      var allMethods := TrimAll(methods);
      if !AllHttpTokens(allMethods) then Err(InvalidConfiguration("invalid CORS method"))
      else if allMethods == [] then Err(InvalidConfiguration("at least one CORS method is required"))
      else
        var allHeaders := Lowered(TrimAll(headers));
        if !AllHttpTokens(allHeaders) then Err(InvalidConfiguration("invalid CORS header"))
        else Ok(CorsConfig(allOrigins, SortDedup(allMethods), SortDedup(allHeaders), allowCredentials))
  }

  function MethodsText(value: Option<string>): string { if value.Some? then value.value else "GET,HEAD,POST" }

  function HeadersText(value: Option<string>): string {
    if value.Some? then value.value else "content-type,authorization"
  }

  /** `CorsConfig::from_values` */
  function ValuesToConfig(origins: string, methods: Option<string>, headers: Option<string>,
                          allowCredentials: Option<string>, uriOrigin: string -> bool)
    : Result<CorsConfig, PolicyError>
  {
    var c := if allowCredentials.Some? then allowCredentials.value else "false";
    if c != "true" && c != "false" then
      Err(InvalidConfiguration("CORS credentials must be true or false"))
    else
      NewCorsConfig(SplitCsv(origins), SplitCsv(MethodsText(methods)), SplitCsv(HeadersText(headers)), c == "true",
                    uriOrigin)
  }

  datatype CorsConfigError = MissingOrigins | DuplicateEnvironment | InvalidPolicy

  function Setting(environment: EnvironmentList, key: string): Result<Option<string>, CorsConfigError> {
    EnvironmentValue(environment, key, CorsConfigError.DuplicateEnvironment)
  }

  const ORIGINS := "WASI_MIDDLEWARE_CORS_ORIGINS"
  const METHODS := "WASI_MIDDLEWARE_CORS_METHODS"
  const HEADERS := "WASI_MIDDLEWARE_CORS_HEADERS"
  const CREDENTIALS := "WASI_MIDDLEWARE_CORS_ALLOW_CREDENTIALS"

  /** `load_config` of the CORS component and `load_cors_config` of the fused one. */
  function LoadCorsConfig(environment: EnvironmentList, uriOrigin: string -> bool)
    : Result<CorsConfig, CorsConfigError>
  {
    var origins :- Setting(environment, ORIGINS);
    if origins.None? then Err(MissingOrigins)
    else
      var methods :- Setting(environment, METHODS);
      var headers :- Setting(environment, HEADERS);
      var credentials :- Setting(environment, CREDENTIALS);
      match ValuesToConfig(origins.value, methods, headers, credentials, uriOrigin)
      case Err(_) => Err(InvalidPolicy)
      case Ok(config) => Ok(config)
  }

  /** What every accepted configuration satisfies. */
  predicate ValidConfig(c: CorsConfig) {
    && c.origins != [] && c.methods != []
    && !(c.allowCredentials && "*" in c.origins)
    && AllHttpTokens(c.methods) && AllHttpTokens(c.headers)
    && (forall h :: h in c.headers ==> Lower(h) == h)
  }

  lemma NewConfigIsValid(origins: seq<string>, methods: seq<string>, headers: seq<string>,
                         allowCredentials: bool, uriOrigin: string -> bool)
    ensures var r := NewCorsConfig(origins, methods, headers, allowCredentials, uriOrigin);
            r.Ok? ==>
              && ValidConfig(r.value)
              && (forall o :: o in r.value.origins <==> o in Tokens(origins))
              && (forall m :: m in r.value.methods <==> m in TrimAll(methods))
              && (forall h :: h in r.value.headers <==> h in Lowered(TrimAll(headers)))
              && r.value.allowCredentials == allowCredentials
  {
    var allHeaders := Lowered(TrimAll(headers));
    SortDedupMembers(Tokens(origins));
    SortDedupMembers(TrimAll(methods));
    SortDedupMembers(allHeaders);
    forall h | h in allHeaders ensures Lower(h) == h {
      var i :| 0 <= i < |allHeaders| && allHeaders[i] == h;
      LowerIdempotent(TrimAll(headers)[i]);
    }
  }

  lemma {:induction false} ListTokensUnchanged(list: seq<string>)
    requires AllListTokens(list)
    ensures Tokens(list) == list && TrimAll(list) == list
  {
    forall t | t in list ensures Trim(t) == t { TrimOfTrimmed(t); }
    if list == [] {
    } else {
      ListTokensUnchanged(list[1..]);
      assert list[0] in list;
    }
  }

  lemma CsvTokensUnchanged(s: string)
    ensures Tokens(SplitCsv(s)) == SplitCsv(s) && TrimAll(SplitCsv(s)) == SplitCsv(s)
  {
    SplitCsvYieldsListTokens(s);
    ListTokensUnchanged(SplitCsv(s));
  }

  /** The origins, methods and lower-cased headers of a configuration are those of three comma-separated lists. */
  ghost predicate HoldsLists(c: CorsConfig, origins: string, methods: string, headers: string) {
    && (forall o :: o in c.origins <==> o in SplitCsv(origins))
    && (forall m :: m in c.methods <==> m in SplitCsv(methods))
    && (forall h :: h in c.headers <==> h in Lowered(SplitCsv(headers)))
  }

  lemma ListedConfigIsValid(origins: string, methods: string, headers: string, allowCredentials: bool,
                            uriOrigin: string -> bool)
    ensures var r := NewCorsConfig(SplitCsv(origins), SplitCsv(methods), SplitCsv(headers), allowCredentials,
                                   uriOrigin);
            r.Ok? ==>
              && ValidConfig(r.value) && r.value.allowCredentials == allowCredentials
              && HoldsLists(r.value, origins, methods, headers)
  {
    NewConfigIsValid(SplitCsv(origins), SplitCsv(methods), SplitCsv(headers), allowCredentials, uriOrigin);
    CsvTokensUnchanged(origins);
    CsvTokensUnchanged(methods);
    CsvTokensUnchanged(headers);
  }

  lemma LoweredTokens(list: seq<string>)
    ensures AllHttpTokens(Lowered(list)) <==> AllHttpTokens(list)
  {
    forall s | s in list ensures Lower(s) in Lowered(list) && (IsHttpToken(Lower(s)) <==> IsHttpToken(s)) {
      LoweredMembers(list);
      TokensFoldCase(s);
    }
    LoweredMembers(list);
    if AllHttpTokens(list) {
      forall s | s in Lowered(list) ensures IsHttpToken(s) {
        var t :| t in list && Lower(t) == s;
      }
    }
  }

  /** An origin is a wildcard, `null`, or printable ASCII that passes the URI test. */
  predicate AcceptableOrigin(origin: string, uriOrigin: string -> bool) {
    origin == "*" || origin == "null" || (uriOrigin(origin) && forall c :: c in origin ==> ' ' <= c <= '~')
  }

  lemma OriginsAcceptedExactly(origin: string, uriOrigin: string -> bool)
    ensures IsValidOrigin(origin, uriOrigin) <==> AcceptableOrigin(origin, uriOrigin)
  {
    if forall i :: 0 <= i < |origin| ==> ' ' <= origin[i] <= '~' {
      forall c | c in origin ensures ' ' <= c <= '~' { var i :| 0 <= i < |origin| && origin[i] == c; }
    }
    if forall c :: c in origin ==> ' ' <= c <= '~' {
      forall i | 0 <= i < |origin| ensures ' ' <= origin[i] <= '~' { assert origin[i] in origin; }
    }
  }

  function ValueOr(value: Option<string>, default: string): string {
    if value.Some? then value.value else default
  }

  /** Which lists make a policy, both ways. */
  predicate AcceptableLists(origins: seq<string>, methods: seq<string>, headers: seq<string>, allowCredentials: bool,
                            uriOrigin: string -> bool)
  {
    && Tokens(origins) != []
    && (allowCredentials ==> "*" !in Tokens(origins))
    && (forall o :: o in Tokens(origins) ==> AcceptableOrigin(o, uriOrigin))
    && methods != [] && AllHttpTokens(TrimAll(methods)) && AllHttpTokens(TrimAll(headers))
  }

  lemma ConfigAcceptedExactly(origins: seq<string>, methods: seq<string>, headers: seq<string>,
                              allowCredentials: bool, uriOrigin: string -> bool)
    ensures NewCorsConfig(origins, methods, headers, allowCredentials, uriOrigin).Ok?
            <==> AcceptableLists(origins, methods, headers, allowCredentials, uriOrigin)
  {
    var os := Tokens(origins);
    SortDedupMembers(os);
    assert SortDedup(os) == [] <==> os == [];
    forall o | o in os ensures IsValidOrigin(o, uriOrigin) <==> AcceptableOrigin(o, uriOrigin) {
      OriginsAcceptedExactly(o, uriOrigin);
    }
    LoweredTokens(TrimAll(headers));
  }

  lemma ValuesAcceptedExactly(origins: string, methods: Option<string>, headers: Option<string>,
                              credentials: Option<string>, uriOrigin: string -> bool)
    ensures ValuesToConfig(origins, methods, headers, credentials, uriOrigin).Ok?
            <==> && (credentials == None || credentials == Some("true") || credentials == Some("false"))
                 && AcceptableLists(SplitCsv(origins), SplitCsv(ValueOr(methods, "GET,HEAD,POST")),
                                    SplitCsv(ValueOr(headers, "content-type,authorization")),
                                    credentials == Some("true"), uriOrigin)
  {
    ConfigAcceptedExactly(SplitCsv(origins), SplitCsv(MethodsText(methods)), SplitCsv(HeadersText(headers)),
                          credentials == Some("true"), uriOrigin);
  }

  lemma ValuesConfigIsValid(origins: string, methods: Option<string>, headers: Option<string>,
                            credentials: Option<string>, uriOrigin: string -> bool)
    ensures var r := ValuesToConfig(origins, methods, headers, credentials, uriOrigin);
            r.Ok? ==>
              && ValidConfig(r.value) && (r.value.allowCredentials <==> credentials == Some("true"))
              && HoldsLists(r.value, origins, ValueOr(methods, "GET,HEAD,POST"),
                            ValueOr(headers, "content-type,authorization"))
  {
    ListedConfigIsValid(origins, MethodsText(methods), HeadersText(headers), credentials == Some("true"), uriOrigin);
  }

  const CORS_KEYS := {"WASI_MIDDLEWARE_CORS_ORIGINS", "WASI_MIDDLEWARE_CORS_METHODS",
                      "WASI_MIDDLEWARE_CORS_HEADERS", "WASI_MIDDLEWARE_CORS_ALLOW_CREDENTIALS"}

  lemma SettingExactly(environment: EnvironmentList, key: string)
    ensures Setting(environment, key)
            == if |ValuesOf(environment, key)| > 1 then Err(CorsConfigError.DuplicateEnvironment)
               else Ok(OnlyValue(environment, key))
  {
  }

  predicate AnyRepeated(environment: EnvironmentList) {
    exists key :: key in CORS_KEYS && |ValuesOf(environment, key)| > 1
  }

  lemma RepeatedByKey(environment: EnvironmentList)
    ensures AnyRepeated(environment)
            <==> || |ValuesOf(environment, ORIGINS)| > 1 || |ValuesOf(environment, METHODS)| > 1
                 || |ValuesOf(environment, HEADERS)| > 1 || |ValuesOf(environment, CREDENTIALS)| > 1
  {
  }

  /** The four settings, if none is repeated and origins are given. */
  function Settled(environment: EnvironmentList): Option<(string, Option<string>, Option<string>, Option<string>)> {
    var origins := OnlyValue(environment, "WASI_MIDDLEWARE_CORS_ORIGINS");
    if AnyRepeated(environment) || origins.None? then None
    else
      Some((origins.value, OnlyValue(environment, "WASI_MIDDLEWARE_CORS_METHODS"),
            OnlyValue(environment, "WASI_MIDDLEWARE_CORS_HEADERS"),
            OnlyValue(environment, "WASI_MIDDLEWARE_CORS_ALLOW_CREDENTIALS")))
  }

  /** A policy loads exactly when no key repeats, origins are given and the values make a policy; then it is theirs. */
  lemma LoadsExactly(environment: EnvironmentList, uriOrigin: string -> bool, c: CorsConfig)
    ensures LoadCorsConfig(environment, uriOrigin) == Ok(c)
            <==> var s := Settled(environment);
                 s.Some? && ValuesToConfig(s.value.0, s.value.1, s.value.2, s.value.3, uriOrigin) == Ok(c)
  {
    RepeatedByKey(environment);
    SettingExactly(environment, ORIGINS);
    SettingExactly(environment, METHODS);
    SettingExactly(environment, HEADERS);
    SettingExactly(environment, CREDENTIALS);
  }

  /**
   Whatever the environment holds, a configuration that loads is valid: no key is repeated, it has
   exactly the listed origins, the listed or default methods and lower-cased headers, and credentials
   only when asked for.
   */
  lemma LoadedConfigIsValid(environment: EnvironmentList, uriOrigin: string -> bool)
    requires LoadCorsConfig(environment, uriOrigin).Ok?
    ensures Settled(environment).Some?
    ensures var (origins, methods, headers, credentials) := Settled(environment).value;
            var c := LoadCorsConfig(environment, uriOrigin).value;
            && ValidConfig(c) && (c.allowCredentials <==> credentials == Some("true"))
            && HoldsLists(c, origins, ValueOr(methods, "GET,HEAD,POST"),
                          ValueOr(headers, "content-type,authorization"))
  {
    var c := LoadCorsConfig(environment, uriOrigin).value;
    LoadsExactly(environment, uriOrigin, c);
    var (origins, methods, headers, credentials) := Settled(environment).value;
    ValuesConfigIsValid(origins, methods, headers, credentials, uriOrigin);
  }

  // ----- The decision -----

  /** `single_text_header` */
  function SingleText(headers: HeaderMap, name: string): Result<Option<string>, PolicyError> {
    var values := Get(headers, name);
    if values == [] then Ok(None)
    else if |values| > 1 || ToStr(values[0]).None? then Err(InvalidHeader)
    else Ok(ToStr(values[0]))
  }

  /** Nothing, one visible text, or an error: several fields and unreadable ones alike. */
  lemma SingleTextExactly(headers: HeaderMap, name: string, s: string)
    ensures SingleText(headers, name) == Ok(None) <==> Get(headers, name) == []
    ensures SingleText(headers, name) == Ok(Some(s)) <==> Get(headers, name) == [Encode(s)] && IsVisible(s)
  {
    var values := Get(headers, name);
    if values != [] { ToStrExactly(values[0], s); }
  }

  /** `HeaderValue::from_str` */
  function TextValue(s: string): Result<Value, PolicyError> {
    if IsVisible(s) then Ok(Encode(s)) else Err(InvalidHeader)
  }

  function PassThrough(): CorsDecision { CorsDecision(map[], None) }

  function Rejected(): CorsDecision { CorsDecision(map[VARY := [ORIGIN_VALUE]], Some(403)) }

  /** Headers common to every answer for an allowed origin. */
  function AllowedHeaders(c: CorsConfig, origin: string): Result<HeaderMap, PolicyError> {
    var allowed :- TextValue(if "*" in c.origins then "*" else origin);
    var base: HeaderMap := map[ALLOW_ORIGIN := [allowed], VARY := [ORIGIN_VALUE]];
    Ok(if c.allowCredentials then base[ALLOW_CREDENTIALS := [TRUE_VALUE]] else base)
  }

  /** The method a preflight asks for; the caller has seen that the field is present. */
  function RequestedMethod(headers: HeaderMap): Result<string, PolicyError> {
    var text :- SingleText(headers, REQUEST_METHOD);
    if text.None? || !IsHttpToken(text.value) then Err(InvalidHeader) else Ok(text.value)
  }

  /** The lower-case field names a preflight asks for. */
  function RequestedHeaders(headers: HeaderMap): Result<seq<string>, PolicyError> {
    var text :- SingleText(headers, REQUEST_HEADERS);
    var list := if text.None? then [] else SplitCsv(text.value);
    if AllHttpTokens(list) then Ok(Lowered(list)) else Err(InvalidHeader)
  }

  function PreflightHeaders(c: CorsConfig, base: HeaderMap): Result<HeaderMap, PolicyError> {
    var methods :- TextValue(Join(c.methods));
    var withMethods := base[ALLOW_METHODS := [methods]];
    if c.headers == [] then Ok(withMethods)
    else
      var names :- TextValue(Join(c.headers));
      Ok(withMethods[ALLOW_HEADERS := [names]])
  }

  predicate AllIn(list: seq<string>, allowed: seq<string>) { forall s :: s in list ==> s in allowed }

  function Preflight(c: CorsConfig, headers: HeaderMap, base: HeaderMap): Result<CorsDecision, PolicyError> {
    var requestedMethod :- RequestedMethod(headers);
    if requestedMethod !in c.methods then Ok(Rejected())
    else
      var requested :- RequestedHeaders(headers);
      if !AllIn(requested, c.headers) then Ok(Rejected())
      else
        var all :- PreflightHeaders(c, base);
        Ok(CorsDecision(all, Some(204)))
  }

  predicate OriginAllowed(c: CorsConfig, origin: string) { "*" in c.origins || origin in c.origins }

  predicate IsPreflight(verb: string, headers: HeaderMap) {
    verb == "OPTIONS" && REQUEST_METHOD in headers
  }

  /** `CorsConfig::evaluate` */
  function Evaluate(c: CorsConfig, verb: string, headers: HeaderMap): Result<CorsDecision, PolicyError> {
    var origin :- SingleText(headers, ORIGIN_HEADER);
    if origin.None? then Ok(PassThrough())
    else if !OriginAllowed(c, origin.value) then Ok(Rejected())
    else
      var base :- AllowedHeaders(c, origin.value);
      if !IsPreflight(verb, headers) then Ok(CorsDecision(base, None))
      else Preflight(c, headers, base)
  }

  // ----- What the decision guarantees -----

  lemma SingleTextIsVisible(headers: HeaderMap, name: string)
    ensures var r := SingleText(headers, name); r.Ok? && r.value.Some? ==> IsVisible(r.value.value)
  {
    var r := SingleText(headers, name);
    if r.Ok? && r.value.Some? {
      var s, v := r.value.value, Get(headers, name)[0];
      forall i | 0 <= i < |s| ensures ' ' <= s[i] <= '~' || s[i] == '\t' { assert s[i] as int == v[i]; }
    }
  }

  lemma {:induction false} JoinOfTokensIsVisible(list: seq<string>)
    requires AllHttpTokens(list)
    ensures IsVisible(Join(list))
  {
    if list == [] {
    } else {
      assert list[0] in list;
      assert forall i :: 0 <= i < |list[0]| ==> IsTchar(list[0][i]) && ' ' <= list[0][i] <= '~';
      JoinOfTokensIsVisible(list[1..]);
      assert IsVisible(", ");
    }
  }

  /** The single origin of a request, when the policy can read it. */
  predicate HasOrigin(headers: HeaderMap, origin: string) {
    SingleText(headers, ORIGIN_HEADER) == Ok(Some(origin))
  }

  /** An origin is allowed by name or by the wildcard. */
  predicate Allows(c: CorsConfig, origin: string) { exists o :: o in c.origins && o in ["*", origin] }

  lemma AllowsExactly(c: CorsConfig)
    ensures forall origin :: OriginAllowed(c, origin) <==> Allows(c, origin)
  {
    forall origin ensures OriginAllowed(c, origin) <==> Allows(c, origin) {
      if origin in c.origins { assert origin in ["*", origin]; }
    }
  }

  predicate Preflights(verb: string, headers: HeaderMap) {
    verb == "OPTIONS" && "access-control-request-method" in headers
  }

  /** What a preflight must ask for to be granted. */
  predicate AsksOnlyForAllowed(c: CorsConfig, headers: HeaderMap) {
    && (exists m :: m in c.methods && SingleText(headers, "access-control-request-method") == Ok(Some(m)))
    && var list := SingleText(headers, "access-control-request-headers");
       && list.Ok?
       && (list.value.Some? ==>
             forall h :: h in SplitCsv(list.value.value) ==> IsHttpToken(h) && Lower(h) in c.headers)
  }

  lemma LoweredMembers(list: seq<string>)
    ensures forall s :: s in list ==> Lower(s) in Lowered(list)
    ensures forall s :: s in Lowered(list) ==> exists t :: t in list && Lower(t) == s
  {
    forall s | s in list ensures Lower(s) in Lowered(list) {
      var i :| 0 <= i < |list| && list[i] == s;
      assert Lowered(list)[i] == Lower(s);
    }
    forall s | s in Lowered(list) ensures exists t :: t in list && Lower(t) == s {
      var i :| 0 <= i < |list| && Lowered(list)[i] == s;
      assert list[i] in list;
    }
  }

  lemma RequestedHeadersAllowed(c: CorsConfig, headers: HeaderMap)
    ensures (RequestedHeaders(headers).Ok? && AllIn(RequestedHeaders(headers).value, c.headers))
            <==> var list := SingleText(headers, REQUEST_HEADERS);
                 && list.Ok?
                 && (list.value.Some? ==>
                       forall h :: h in SplitCsv(list.value.value) ==> IsHttpToken(h) && Lower(h) in c.headers)
  {
    var text := SingleText(headers, REQUEST_HEADERS);
    if text.Ok? {
      LoweredMembers(if text.value.None? then [] else SplitCsv(text.value.value));
    }
  }

  /**
   A preflight is granted exactly when its single origin, its single method and every requested field
   name are allowed; nothing else is ever answered with 204.
   */
  lemma GrantedExactly(c: CorsConfig, verb: string, headers: HeaderMap)
    requires ValidConfig(c)
    ensures (Evaluate(c, verb, headers).Ok? && Evaluate(c, verb, headers).value.status == Some(204))
            <==> && verb == "OPTIONS"
                 && (exists origin :: HasOrigin(headers, origin) && Allows(c, origin))
                 && AsksOnlyForAllowed(c, headers)
  {
    AllowsExactly(c);
    var origin := SingleText(headers, ORIGIN_HEADER);
    if origin.Ok? && origin.value.Some? && OriginAllowed(c, origin.value.value) {
      assert HasOrigin(headers, origin.value.value);
      SingleTextIsVisible(headers, ORIGIN_HEADER);
      assert IsVisible("*");
      var base := AllowedHeaders(c, origin.value.value);
      PreflightGrantedExactly(c, headers, base.value);
    }
  }

  lemma PreflightGrantedExactly(c: CorsConfig, headers: HeaderMap, base: HeaderMap)
    requires ValidConfig(c)
    ensures (Preflight(c, headers, base).Ok? && Preflight(c, headers, base).value.status == Some(204))
            <==> AsksOnlyForAllowed(c, headers)
    ensures AsksOnlyForAllowed(c, headers) ==> "access-control-request-method" in headers
  {
    MethodAllowed(c, headers);
    RequestedHeadersAllowed(c, headers);
    JoinOfTokensIsVisible(c.methods);
    JoinOfTokensIsVisible(c.headers);
  }

  lemma MethodAllowed(c: CorsConfig, headers: HeaderMap)
    requires ValidConfig(c)
    ensures (RequestedMethod(headers).Ok? && RequestedMethod(headers).value in c.methods)
            <==> exists m :: m in c.methods && SingleText(headers, REQUEST_METHOD) == Ok(Some(m))
  {
    var text := SingleText(headers, REQUEST_METHOD);
    if text.Ok? && text.value.Some? && text.value.value in c.methods {
      assert IsHttpToken(text.value.value);
    }
  }

  /** A readable preflight that asks for a method or a field name that is not allowed. */
  predicate AsksForMore(c: CorsConfig, headers: HeaderMap) {
    var verb := SingleText(headers, "access-control-request-method");
    var list := SingleText(headers, "access-control-request-headers");
    && verb.Ok? && verb.value.Some? && IsHttpToken(verb.value.value)
    && (|| verb.value.value !in c.methods
        || (&& list.Ok? && list.value.Some? && AllHttpTokens(SplitCsv(list.value.value))
            && exists h :: h in SplitCsv(list.value.value) && Lower(h) !in c.headers))
  }

  /**
   A request is refused with 403 exactly when its origin is not allowed, or it is a preflight from an
   allowed origin that asks for more than is allowed; an unreadable preflight is an error instead.
   */
  lemma RefusedExactly(c: CorsConfig, verb: string, headers: HeaderMap)
    requires ValidConfig(c)
    ensures (Evaluate(c, verb, headers).Ok? && Evaluate(c, verb, headers).value.status == Some(403))
            <==> exists origin ::
                   && HasOrigin(headers, origin)
                   && (!Allows(c, origin) || (Preflights(verb, headers) && AsksForMore(c, headers)))
  {
    AllowsExactly(c);
    var origin := SingleText(headers, ORIGIN_HEADER);
    if origin.Ok? && origin.value.Some? {
      assert HasOrigin(headers, origin.value.value);
      SingleTextIsVisible(headers, ORIGIN_HEADER);
      assert IsVisible("*");
      if OriginAllowed(c, origin.value.value) && IsPreflight(verb, headers) {
        PreflightRefusedExactly(c, headers, AllowedHeaders(c, origin.value.value).value);
      }
    }
  }

  lemma PreflightRefusedExactly(c: CorsConfig, headers: HeaderMap, base: HeaderMap)
    requires ValidConfig(c)
    ensures (Preflight(c, headers, base).Ok? && Preflight(c, headers, base).value.status == Some(403))
            <==> AsksForMore(c, headers)
  {
    var list := SingleText(headers, REQUEST_HEADERS);
    if list.Ok? { LoweredMembers(if list.value.None? then [] else SplitCsv(list.value.value)); }
    JoinOfTokensIsVisible(c.methods);
    JoinOfTokensIsVisible(c.headers);
  }

  /** The list that a single response field carries. */
  function ListGranted(h: HeaderMap, name: string): Option<seq<string>> {
    var values := Get(h, name);
    if |values| != 1 || Decode(values[0]).None? then None else Some(SplitCsv(Decode(values[0]).value))
  }

  lemma JoinedReadsBack(list: seq<string>)
    requires AllHttpTokens(list)
    ensures Decode(Encode(Join(list))) == Some(Join(list)) && SplitCsv(Join(list)) == list
  {
    forall t | t in list ensures IsListToken(t) {
      assert IsTchar(t[0]) && IsTchar(t[|t| - 1]);
    }
    SplitCsvOfJoin(list);
    DecodeEncode(Join(list));
  }

  lemma PreflightListsReadBack(c: CorsConfig, base: HeaderMap)
    requires AllHttpTokens(c.methods) && AllHttpTokens(c.headers)
    requires PreflightHeaders(c, base).Ok? && ALLOW_HEADERS !in base
    ensures var h := PreflightHeaders(c, base).value;
            && ListGranted(h, ALLOW_METHODS) == Some(c.methods)
            && ListGranted(h, ALLOW_HEADERS) == if c.headers == [] then None else Some(c.headers)
  {
    JoinedReadsBack(c.methods);
    JoinedReadsBack(c.headers);
  }

  /** A client that reads the granted lists reads exactly the configured methods and field names. */
  lemma GrantedListsReadBack(c: CorsConfig, verb: string, headers: HeaderMap)
    requires ValidConfig(c)
    requires Evaluate(c, verb, headers).Ok? && Evaluate(c, verb, headers).value.status == Some(204)
    ensures var h := Evaluate(c, verb, headers).value.responseHeaders;
            && ListGranted(h, "access-control-allow-methods") == Some(c.methods)
            && ListGranted(h, "access-control-allow-headers") == if c.headers == [] then None else Some(c.headers)
  {
    var base := AllowedHeaders(c, SingleText(headers, ORIGIN_HEADER).value.value).value;
    PreflightListsReadBack(c, base);
  }

  /** Downstream runs exactly without an origin, or for an allowed one outside a preflight. */
  lemma PassesExactlyAllowedOrigins(c: CorsConfig, verb: string, headers: HeaderMap)
    ensures (Evaluate(c, verb, headers).Ok? && Evaluate(c, verb, headers).value.status.None?)
            <==> || Get(headers, "origin") == []
                 || (&& (exists origin :: HasOrigin(headers, origin) && Allows(c, origin))
                     && !Preflights(verb, headers))
  {
    AllowsExactly(c);
    var origin := SingleText(headers, ORIGIN_HEADER);
    if origin.Ok? && origin.value.Some? {
      assert HasOrigin(headers, origin.value.value);
      SingleTextIsVisible(headers, ORIGIN_HEADER);
      assert IsVisible("*");
    }
  }

  /** A preflight whose requested method or, once that is allowed, whose list of field names cannot be read. */
  predicate AsksUnreadably(c: CorsConfig, headers: HeaderMap) {
    var verb := SingleText(headers, "access-control-request-method");
    || verb.Err? || verb.value.None? || !IsHttpToken(verb.value.value)
    || (verb.value.value in c.methods
        && var list := SingleText(headers, "access-control-request-headers");
           list.Err? || (list.value.Some? && !AllHttpTokens(SplitCsv(list.value.value))))
  }

  /**
   The remaining case: evaluation fails exactly on an unreadable origin, or on an unreadable preflight
   from an allowed one. Every valid configuration can always write its own answer.
   */
  lemma FailsExactly(c: CorsConfig, verb: string, headers: HeaderMap)
    requires ValidConfig(c)
    ensures Evaluate(c, verb, headers).Err?
            <==> || SingleText(headers, "origin").Err?
                 || (&& (exists origin :: HasOrigin(headers, origin) && Allows(c, origin))
                     && Preflights(verb, headers) && AsksUnreadably(c, headers))
  {
    AllowsExactly(c);
    var origin := SingleText(headers, ORIGIN_HEADER);
    if origin.Ok? && origin.value.Some? {
      assert HasOrigin(headers, origin.value.value);
      SingleTextIsVisible(headers, ORIGIN_HEADER);
      assert IsVisible("*");
      if OriginAllowed(c, origin.value.value) {
        PreflightFailsExactly(c, headers, AllowedHeaders(c, origin.value.value).value);
      }
    }
  }

  lemma PreflightFailsExactly(c: CorsConfig, headers: HeaderMap, base: HeaderMap)
    requires ValidConfig(c)
    ensures Preflight(c, headers, base).Err? <==> AsksUnreadably(c, headers)
  {
    JoinOfTokensIsVisible(c.methods);
    JoinOfTokensIsVisible(c.headers);
  }

  /** The headers of a decision: `Vary: Origin` alone or with allow headers, one value each. */
  predicate DecisionHeaders(h: HeaderMap) {
    && VARY in h && h[VARY] == [ORIGIN_VALUE]
    && h.Keys <= {ALLOW_ORIGIN, ALLOW_CREDENTIALS, ALLOW_METHODS, ALLOW_HEADERS, VARY}
    && NoEmptyLists(h)
  }

  lemma AllowedHeadersShape(c: CorsConfig, origin: string)
    requires AllowedHeaders(c, origin).Ok?
    ensures var h := AllowedHeaders(c, origin).value;
            && DecisionHeaders(h)
            && Get(h, ALLOW_ORIGIN) == [Encode(if "*" in c.origins then "*" else origin)]
            && (ALLOW_CREDENTIALS in h <==> c.allowCredentials)
  {
  }

  lemma PreflightShape(c: CorsConfig, headers: HeaderMap, base: HeaderMap)
    requires DecisionHeaders(base) && Preflight(c, headers, base).Ok?
    ensures var d := Preflight(c, headers, base).value;
            && DecisionHeaders(d.responseHeaders)
            && (d.status == Some(204) || d.status == Some(403))
            && (ALLOW_ORIGIN in d.responseHeaders ==>
                  && Get(d.responseHeaders, ALLOW_ORIGIN) == Get(base, ALLOW_ORIGIN)
                  && (ALLOW_CREDENTIALS in d.responseHeaders <==> ALLOW_CREDENTIALS in base))
            && (ALLOW_ORIGIN !in d.responseHeaders && ALLOW_ORIGIN in base ==>
                  ALLOW_CREDENTIALS !in d.responseHeaders)
  {
    if PreflightHeaders(c, base).Ok? { PreflightHeadersShape(c, base); }
  }

  lemma PreflightHeadersShape(c: CorsConfig, base: HeaderMap)
    requires DecisionHeaders(base) && PreflightHeaders(c, base).Ok?
    ensures var h := PreflightHeaders(c, base).value;
            && DecisionHeaders(h)
            && Get(h, ALLOW_ORIGIN) == Get(base, ALLOW_ORIGIN)
            && (ALLOW_CREDENTIALS in h <==> ALLOW_CREDENTIALS in base)
            && (ALLOW_ORIGIN in h <==> ALLOW_ORIGIN in base)
  {
  }

  /**
   What an allowed origin is told, on a simple request and on a granted preflight alike: itself or the
   wildcard, credentials exactly if configured, and that the answer depends on the origin.
   */
  lemma AllowedOriginIsTold(c: CorsConfig, verb: string, headers: HeaderMap, origin: string)
    requires Evaluate(c, verb, headers).Ok? && Evaluate(c, verb, headers).value.status != Some(403)
    requires HasOrigin(headers, origin)
    ensures var h := Evaluate(c, verb, headers).value.responseHeaders;
            && Get(h, "access-control-allow-origin") == [Encode(if "*" in c.origins then "*" else origin)]
            && Get(h, "access-control-allow-credentials") == (if c.allowCredentials then [Encode("true")] else [])
            && Get(h, "vary") == [Encode("Origin")]
  {
    var base := AllowedHeaders(c, origin).value;
    assert ALLOW_ORIGIN != VARY && ALLOW_CREDENTIALS != VARY && ALLOW_ORIGIN != ALLOW_CREDENTIALS;
    if IsPreflight(verb, headers) {
      PreflightKeeps(c, base, ALLOW_ORIGIN);
      PreflightKeeps(c, base, ALLOW_CREDENTIALS);
      PreflightKeeps(c, base, VARY);
    }
  }

  lemma PreflightKeeps(c: CorsConfig, base: HeaderMap, k: string)
    requires PreflightHeaders(c, base).Ok? && k != ALLOW_METHODS && k != ALLOW_HEADERS
    ensures Get(PreflightHeaders(c, base).value, k) == Get(base, k)
  {
  }

  /** A refusal says only that it depends on the origin; without an origin nothing is said; lists go with a grant. */
  lemma OthersAreToldNothing(c: CorsConfig, verb: string, headers: HeaderMap)
    requires Evaluate(c, verb, headers).Ok?
    ensures var d := Evaluate(c, verb, headers).value;
            && (d.status == Some(403) ==> d.responseHeaders == map["vary" := [Encode("Origin")]])
            && (Get(headers, "origin") == [] ==> d.responseHeaders == map[])
            && (d.status != Some(204) ==>
                  Get(d.responseHeaders, "access-control-allow-methods") == []
                  && Get(d.responseHeaders, "access-control-allow-headers") == [])
  {
    assert {ALLOW_METHODS, ALLOW_HEADERS} !! {ALLOW_ORIGIN, ALLOW_CREDENTIALS, VARY};
  }

  /** The shape of every decision, whatever the configuration. */
  lemma DecisionShape(c: CorsConfig, verb: string, headers: HeaderMap)
    requires Evaluate(c, verb, headers).Ok?
    ensures var d := Evaluate(c, verb, headers).value;
            && (d.status.Some? ==> d.status.value == 204 || d.status.value == 403)
            && (d == PassThrough() || DecisionHeaders(d.responseHeaders))
  {
    var origin := SingleText(headers, ORIGIN_HEADER).value;
    if origin.Some? && OriginAllowed(c, origin.value) {
      AllowedHeadersShape(c, origin.value);
      if IsPreflight(verb, headers) { PreflightShape(c, headers, AllowedHeaders(c, origin.value).value); }
    }
  }

  /** Wildcard allow-origin never goes with allow-credentials, and an origin is echoed only if allowed. */
  lemma NoWildcardWithCredentials(c: CorsConfig, verb: string, headers: HeaderMap)
    requires ValidConfig(c) && Evaluate(c, verb, headers).Ok?
    ensures var h := Evaluate(c, verb, headers).value.responseHeaders;
            && !(Get(h, "access-control-allow-origin") == [Encode("*")] && "access-control-allow-credentials" in h)
            && ("access-control-allow-credentials" in h ==> c.allowCredentials && "*" !in c.origins)
            && ("access-control-allow-origin" in h ==>
                  exists origin :: HasOrigin(headers, origin) && Allows(c, origin)
                                   && h["access-control-allow-origin"]
                                      == [Encode(if "*" in c.origins then "*" else origin)])
  {
    AllowsExactly(c);
    var origin := SingleText(headers, ORIGIN_HEADER).value;
    if origin.Some? && OriginAllowed(c, origin.value) {
      assert HasOrigin(headers, origin.value);
      AllowedHeadersShape(c, origin.value);
      var base := AllowedHeaders(c, origin.value).value;
      DecodeEncode(origin.value);
      DecodeEncode("*");
      assert Get(base, ALLOW_ORIGIN) == [Encode("*")] ==> "*" in c.origins;
      if IsPreflight(verb, headers) { PreflightShape(c, headers, base); }
    }
  }

  /** The decision reads three fields only. */
  lemma EvaluateReads(c: CorsConfig, verb: string, m: HeaderMap, n: HeaderMap)
    requires Get(m, ORIGIN_HEADER) == Get(n, ORIGIN_HEADER)
    requires Get(m, REQUEST_METHOD) == Get(n, REQUEST_METHOD)
    requires Get(m, REQUEST_HEADERS) == Get(n, REQUEST_HEADERS)
    requires REQUEST_METHOD in m <==> REQUEST_METHOD in n
    ensures Evaluate(c, verb, m) == Evaluate(c, verb, n)
  {
    assert SingleText(m, ORIGIN_HEADER) == SingleText(n, ORIGIN_HEADER);
    assert RequestedMethod(m) == RequestedMethod(n);
    assert RequestedHeaders(m) == RequestedHeaders(n);
  }
}
