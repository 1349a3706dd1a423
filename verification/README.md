# Verification of the WASI HTTP middleware

A Dafny model of the HTTP middleware stack: four layered components (`request-id`,
`security-headers`, `cors`, `authn-policy`), the fused component `secure-defaults` that replaces them,
the header editing they share, the versioned authentication context, broker authentication with its
admission counter and deadline, the policy path normalizer and the in-process authentication of a
terminal application. `dafny verify dfyconfig.toml` checks everything.

## How the model is laid out

| module | content |
|---|---|
| `Utf8`, `Text`, `Base64Url`, `Ordering` | UTF-8, ASCII text, base64url without padding, sorting with deduplication in byte order |
| `Json`, `JsonLaws`, `JsonObject` | a JSON reader and compact printer, their round trip, objects with named fields |
| `Metadata`, `MetadataLaws`, `MetadataBounds` | principals and contexts, their validating constructors, wire form and codec laws, and what is accepted, both ways |
| `Headers`, `HeaderEdits`, `Vary`, `Support` | header lists, the host resource, diff and edit engine, Vary merge, rebuilding messages |
| `Settings`, `RequestId`, `Cors`, `Authn`, `AuthnLaws` | environment lookup, the three policies with their configurations, and which answers and environments are accepted as what |
| `Layers`, `Components`, `SecureDefaults` | what each component does to the meaning of a message, and each component as it runs |
| `Equivalence`, `Boundary` | the fused component against the chain, and what crosses the middleware |
| `Admission`, `Deadline` | the counter as a state machine over all interleavings, the response loop under its deadline |
| `PolicyPath`, `Terminal` | path normalization, in-process authentication |

A header list means a map from lower-case names to ordered value lists (`Headers.View`). Two messages
are compared by method, status, body and that map, so case-insensitively and with the order of values
under every name. `Components` and `SecureDefaults` hold the step-by-step code on lists and on the host
resource; each method is proved to mean the function of the same component in `Layers`, and the
theorems are about those functions.

The application is an arbitrary function from requests to results, the broker an arbitrary function from
request ID and credential to an exchange, and configurations may have failed to load. Both sides of the
equivalence get the same generated request ID. `Body` stands for the body stream, trailers, request
options, scheme, authority and path, which pass through untouched. Claims are built only by the broker
answer parser, so a transport of the in-process authenticator returns no others (`Terminal.HonestTransport`).

## Where the code and its documentation differ

- `components/secure-defaults/src/lib.rs:3-5` claims equivalence with the chain without a condition. It
  holds exactly when malformed fields are absent or make no difference (`Equivalence.Harmless`): the four
  policy fields are well formed, and either all other fields except `x-request-id` are too, or the answer is
  settled before the chain converts them (no CORS configuration, a malformed method, a CORS error).
  Otherwise the two sides differ: the early 400 of the fused component carries no request ID, and a
  malformed field outside the policies makes only the chain answer a plain 400. A control byte in `Origin`
  tells them apart in every deployment (`Equivalence.MalformedOriginDiffers`), the same byte in any other
  field under an open CORS policy (`Equivalence.MalformedNoteDiffers`). Whether a component can be handed
  such a field is the host's choice: the interface hands values over as raw bytes because they are not always
  well formed (`wit/deps/http.wit:196-198`), and promises to refuse syntactically invalid entries only where a
  component builds or edits a field list (200-203). Both sides have explicit branches for the case.
- `docs/CONFIGURATION.md:37-38` says that existing Vary tokens are never discarded. They are when a value that
  is not UTF-8 comes before any wildcard: then only `Origin` remains (`Vary.CacheKeysSurviveExactly`, with
  `Vary.AcceptIsLost` for `Accept` followed by the byte 255).
- A Vary wildcard does not always win: after an unreadable value the merged field is `Origin`
  (`Vary.FirstOddValueDecides`, with
  `Vary.WildcardIsLost`). Bytes above 127 are legal in a field value (section 5.5 of RFC 9110), so an application
  can send both.

## Model

| member | source | states |
|---|---|---|
| Equivalence.FusedIsTheChainExactly | components/secure-defaults/src/lib.rs:61-149 | for every deployment, request, application and broker, the fused component forwards the same request (or none) and answers with the same status, body and ordered values under every name as the four-layer chain, if and only if malformed fields are absent or harmless |
| Equivalence.FusedIsTheChainOnWellFormedRequests | components/secure-defaults/src/lib.rs:3-5 | the documented equivalence, for every request whose fields are well formed and every generated ID |
| Equivalence.UnwindingIsFinalizing | components/secure-defaults/src/lib.rs:241-274 | stripping, CORS merge, security fields and request ID applied layer by layer on the way out equal one finalizing edit |
| Equivalence.AnswersAgree | components/secure-defaults/src/lib.rs:231-239 | an answer made by the innermost layer and unwound through the others equals the controlled answer of the fused component, with or without an early request ID |
| Equivalence.AuthenticationAgrees | components/authn-policy/src/lib.rs:37-83 | behind any CORS decision, configuration failure, rejection and forwarding come out the same on both sides |
| Equivalence.DifferOnMalformedOthers | crates/component-support/src/lib.rs:198-209 | a malformed field outside the policies changes the outcome whenever the answer is not settled early |
| Equivalence.MalformedOriginDiffers | components/secure-defaults/src/lib.rs:64-66 | a request on which the documented equivalence fails in every deployment: a control byte in `Origin` |
| Equivalence.MalformedNoteDiffers | components/cors/src/lib.rs:57-60 | a request on which it fails under an accepted CORS policy: the chain answers 400 and forwards nothing for a control byte in a field outside the policies, the fused component's outcome is another |
| Equivalence.OpenCorsIsAccepted | crates/policy-core/src/lib.rs:129-183 | the policy of that example is what the constructor builds |
| Boundary.ForwardedExactly | components/secure-defaults/src/lib.rs:62-133 | a request reaches the application exactly when its policy fields are well formed, CORS passes it and authentication passes it, and what arrives is the trusted rewriting of what was sent |
| Boundary.ApplicationSeesOnlyTrustedFields | components/secure-defaults/src/lib.rs:106-133 | every forwarded name that begins with `x-wasi-auth-` in any case is `x-wasi-auth-context`, with one value; one request ID, no credential, every other field as the client sent it |
| Boundary.ApplicationContextIsBound | components/secure-defaults/src/lib.rs:104-133 | the one context that reaches the application decodes to this deployment and is anonymous exactly when the client sent no Authorization field, which needs optional mode |
| Boundary.ClientSeesFinalizedResponses | components/secure-defaults/src/lib.rs:241-274 | whatever the application or broker does, no name the client sees begins with `x-wasi-auth-` in any case, both security fields have their fixed values, and (unless a policy field is malformed) the request ID is there |
| Boundary.RejectionsAnswer | components/secure-defaults/src/lib.rs:215-229 | a rejected credential is answered with 400 `invalid_request`, 401, 401 `invalid_token` or 503, each with its literal Bearer challenge or, for 503 alone, the retry hint, and nothing is forwarded |
| Boundary.EarlyAnswers | components/secure-defaults/src/lib.rs:62-102 | malformed policy fields, a missing configuration, a malformed method and a CORS error: the status of each and whether it invites a retry |
| Boundary.CorsAnswers | components/secure-defaults/src/lib.rs:82-90 | a request that CORS settles gets the status of the decision and no challenge |
| Components.RequestIdHandle | components/request-id/src/lib.rs:24-36 | the outermost component, run over lists and host edits with the others inside it, means the whole chain |
| Components.SecurityHandle | components/security-headers/src/lib.rs:21-37 | the second component with those inside it means its layer |
| Components.CorsHandle | components/cors/src/lib.rs:48-83 | the CORS component means its layer: 503 without configuration, 400 on malformed input, preflight answers, pass-through, merge |
| Components.MergeCorsHeaders | components/cors/src/lib.rs:125-139 | removing and pushing name by name overwrites exactly the decision's names and merges Vary last |
| Components.AuthnHandle | components/authn-policy/src/lib.rs:36-84 | the innermost component means its layer |
| Components.TrustedFields | components/authn-policy/src/lib.rs:55-69 | the step-by-step rewriting of the request list leaves the trusted headers |
| Components.AuthnReject | components/authn-policy/src/lib.rs:111-128 | a rejection carries the request ID, the challenge if any, and Retry-After exactly when unavailable |
| SecureDefaults.FusedHandle | components/secure-defaults/src/lib.rs:61-149 | the fused component over lists and host edits means the fused function on every exit |
| SecureDefaults.PolicyHeaders | components/secure-defaults/src/lib.rs:189-213 | the loop projects to the four policy names with all values in order, and fails exactly when one of those values is malformed |
| SecureDefaults.FinalizeResponse | components/secure-defaults/src/lib.rs:241-274 | one set of deletions and replacements strips, secures, identifies and applies the CORS decision |
| SecureDefaults.CorsReplacements | components/secure-defaults/src/lib.rs:296-311 | the replacements carry the decision's values, with Vary merged into the original one |
| SecureDefaults.TrustedEdits | components/secure-defaults/src/lib.rs:106-128 | the deletions and replacements of the forwarded request amount to the trusted headers |
| HeaderEdits.ApplyHeaderDiff | crates/component-support/src/lib.rs:501-518 | a resource holding the original list ends with exactly the desired values under every name, and exactly the names that disagree are operated on |
| HeaderEdits.PatchedOriginalIsDesired | crates/component-support/src/lib.rs:501-518 | the difference of two lists leads from one to the other |
| HeaderEdits.ApplyHeaderEdits | crates/component-support/src/lib.rs:520-535 | deletes, then clears and appends the replacements: the edited map |
| HeaderEdits.EditedByName | crates/component-support/src/lib.rs:302-308 | every replaced name has exactly its supplied values, even if also deleted, every other deleted name none, the rest is untouched |
| HeaderEdits.EditsAgreeWithDiff | crates/component-support/src/lib.rs:520-535 | edits and a diff against the list built by removing and pushing are the same rewrite |
| HeaderEdits.HeaderValuesEqual | crates/component-support/src/lib.rs:582-598 | the two filtered scans agree exactly when the ordered values under the name agree |
| Headers.UniqueNames | crates/component-support/src/lib.rs:537-574 | the first spelling of each name, in order, distinct ignoring case and covering every name |
| Headers.ViewSetHeader | crates/component-support/src/lib.rs:148-151 | `set_header` leaves one value under the name and the rest alone |
| Headers.ViewRemoveHeader | crates/component-support/src/lib.rs:133-135 | `remove_header` empties one case-insensitive name and nothing else |
| Headers.ViewRemovePrefix | crates/component-support/src/lib.rs:139-145 | the list operation means removing from the map the names that pass the prefix test; which these are says Headers.RemovedByPrefix |
| Headers.RemovedByPrefix | crates/component-support/src/lib.rs:139-145 | a name is emptied exactly when its lower-case form begins with the lower-case prefix; every other name keeps its values |
| Headers.MalformedExactly | crates/component-support/src/lib.rs:198-209 | a value is malformed exactly when it holds a control byte other than a tab (section 5.5 of RFC 9110) |
| Headers.HeaderValuesAreTheView | crates/component-support/src/lib.rs:111-117 | scanning the list gives the ordered values of the map |
| Headers.Fields.Set | wit/deps/http.wit:212-219 | the host operation replaces all values of one name, by none if none are given, and counts as touching it |
| Headers.Fields.Append | wit/deps/http.wit:232-239 | the host operation adds a value after the existing ones |
| Headers.Fields.Delete | wit/deps/http.wit:222-224 | the host operation removes all values of one name |
| Support.ToHeaderMap | crates/component-support/src/lib.rs:198-209 | conversion keeps every value in order and fails exactly when some name or value is malformed |
| Support.PushFields | crates/component-support/src/lib.rs:220-228 | listing a header map means the map, without the skipped names |
| Support.EmptyResponseFor | crates/component-support/src/lib.rs:469-484 | an empty response gets a zero Content-Length unless one is given |
| Vary.MergedVaryOrigin | components/secure-defaults/src/lib.rs:313-343 | the returned-value loop computes the merged Vary value |
| Vary.MergeVaryOrigin | components/cors/src/lib.rs:141-172 | the in-place loop writes that same value as the only Vary field |
| Vary.PlainValuesAreListed | components/cors/src/lib.rs:147-164 | for readable values without wildcard the tokens are the first spellings, in order |
| Vary.PlainMergeExactly | components/cors/src/lib.rs:147-171 | for such values the merged field is these spellings, then `Origin` unless it is among them in some case |
| Vary.FirstOddValueDecides | components/cors/src/lib.rs:144-157 | the first unreadable or wildcard value decides alone between `Origin` and `*` |
| Vary.MergedTokensShape | components/cors/src/lib.rs:141-172 | the result is `*` alone, or distinct tokens with Origin exactly once |
| Vary.MergedReadsBack | components/cors/src/lib.rs:147-171 | splitting and trimming the merged field gives back its tokens |
| Vary.MergeIsIdempotent | components/cors/src/lib.rs:141-172 | merging twice is merging once |
| Vary.CacheKeysSurviveExactly | docs/CONFIGURATION.md:37-38 | existing cache keys survive if and only if no unreadable value precedes a wildcard (or there is nothing but Origin to lose) |
| Vary.AcceptIsLost | components/secure-defaults/src/lib.rs:315-319 | two legal field values after which the cache key `Accept` is gone |
| Vary.WildcardIsLost | components/cors/src/lib.rs:143-147 | two legal field values whose wildcard does not win |
| MetadataLaws.ConstructibleExactlyWhenValid | crates/metadata/src/lib.rs:809-840 | validation yields exactly the contexts in normal form |
| MetadataLaws.BuiltPrincipalIsValid | crates/metadata/src/lib.rs:123-278 | every principal that the builders accept satisfies all bounds, with sorted distinct lists |
| MetadataLaws.BuiltPrincipalFields | crates/metadata/src/lib.rs:123-278 | a built principal carries the wire fields, with its three lists normalized and nothing else changed |
| MetadataLaws.RebuiltContext | crates/metadata/src/lib.rs:704-716 | rebuilding from the wire form inverts making it, on every valid context |
| MetadataLaws.OptionalsExactly | crates/metadata/src/lib.rs:842-876 | an actor or principal may be absent or `null`, and is otherwise an object with known, distinct keys that carries it |
| MetadataLaws.NormalizedDeployment | crates/metadata/src/lib.rs:622-641 | deployment validation normalizes, and leaves normal forms unchanged |
| MetadataLaws.NormalizedTokens | crates/metadata/src/lib.rs:643-654 | token validation sorts and deduplicates, and leaves normal forms unchanged |
| MetadataBounds.PrincipalAcceptedExactly | crates/metadata/src/lib.rs:123-278 | a principal builds if and only if each field is within its bound: trimmed text without control characters, counted in UTF-8 bytes, token lists of at most 64 members in any order, scopes of at most 2048 with their separators, login before expiry |
| MetadataBounds.ContextAcceptedExactly | crates/metadata/src/lib.rs:809-840 | validation accepts exactly version 1 with a token as service, 1 to 16 plain ASCII audiences, and principal, decision and revision all absent (anonymous) or all present and within their bounds |
| MetadataBounds.SortDedupExactly | crates/metadata/src/lib.rs:638-639 | the normal form is the only strictly increasing list with the given members |
| MetadataBounds.TextExactly | crates/metadata/src/lib.rs:656-666 | text is accepted exactly when it is not empty, within the bound in bytes, without white space at its ends and without control characters |
| MetadataBounds.ScopesExactly | crates/metadata/src/lib.rs:185-204 | scopes are accepted exactly as at most 64 tokens whose normal form, joined by spaces, has at most 2048 characters |
| MetadataBounds.StateExactly | crates/metadata/src/lib.rs:799-807 | a state is one of two names, as a string or as the only key of an object |
| MetadataBounds.VersionErrorExactly | crates/metadata/src/lib.rs:812-815 | another version is reported as such, before anything else and in no other case |
| MetadataLaws.EncodeThenDecode | crates/metadata/src/lib.rs:548-587 | every constructible context that encodes decodes to itself |
| MetadataLaws.EncodesExactlyWithinBound | crates/metadata/src/lib.rs:551-556 | encoding fails exactly when the JSON exceeds 6144 bytes, and only as too large |
| MetadataLaws.AcceptedReencodes | fuzz/fuzz_targets/auth_context.rs:13-17 | every accepted value, however spelled, re-encodes in no more characters and decodes to the same context |
| MetadataBounds.DecodedExactly | crates/metadata/src/lib.rs:569-587 | a value decodes to a context exactly when it is the unpadded base64url of the UTF-8 of some JSON text that spells the context, and at most 8192 characters long |
| MetadataBounds.TooLargeExactly | crates/metadata/src/lib.rs:569-587 | too large is reported exactly for visible text of more than 8192 characters |
| MetadataBounds.MalformedExactly | crates/metadata/src/lib.rs:569-587 | a malformed encoding is reported exactly for an empty or unreadable value and for text that is not canonical base64url |
| JsonLaws.ParsePrint | crates/metadata/src/lib.rs:549-550 | the compact print of any JSON value parses back to it |
| JsonLaws.ParsedIsNoShorter | crates/metadata/src/lib.rs:584-586 | no accepted JSON text is shorter, in UTF-8 bytes, than the compact print of its value |
| JsonLaws.PairEscapeReads | crates/metadata/src/lib.rs:584-586 | a surrogate pair of escapes reads as the one character it stands for (section 7 of RFC 8259) |
| JsonLaws.BasicEscapeReads | crates/metadata/src/lib.rs:584-586 | four hexadecimal digits in either case read as the character with that number, if it is not a surrogate |
| JsonLaws.SlashEscapeReads | crates/metadata/src/lib.rs:584-586 | a slash may be escaped (section 7 of RFC 8259) |
| JsonLaws.BadCharactersRefused | crates/metadata/src/lib.rs:584-586 | raw control characters and lone surrogates are refused (section 7 of RFC 8259) |
| JsonLaws.BadNumbersRefused | crates/metadata/src/lib.rs:584-586 | leading zeros, fractions and exponents are refused |
| JsonLaws.NoTrailingComma | crates/metadata/src/lib.rs:584-586 | a comma must be followed by an item or a member (sections 4 and 5 of RFC 8259) |
| JsonObject.BuildIsShortest | crates/metadata/src/lib.rs:734-757 | an object of the present fields only is no longer than any object that carries them |
| JsonObject.WellKeyedExactly | crates/metadata/src/lib.rs:797-807 | an object is accepted exactly when its keys are pairwise different and all known |
| JsonObject.ListsExactly | crates/metadata/src/lib.rs:842-860 | a list field is absent (the empty list) or an array of strings; `null` is not a list |
| JsonObject.ReadersExactly | crates/metadata/src/lib.rs:797-860 | absent and `null` are alike for an optional field and refused for a required one; numbers fit 8 or 64 bits |
| Base64Url.AcceptedExactly | crates/metadata/src/lib.rs:578-583 | the decoder accepts a text for given bytes exactly when it is their encoding |
| Base64Url.AcceptedTexts | crates/metadata/src/lib.rs:578-583 | acceptance without reference to the decoder (`IsCanonical`): alphabet only, no padding, no lone character, zero trailing bits (sections 3.5 and 5 of RFC 4648) |
| Base64Url.EncodedLength | crates/metadata/src/lib.rs:551-554 | n bytes take ceil(4n/3) characters of the alphabet |
| Ordering.SortDedupMembers | crates/metadata/src/lib.rs:638-639 | sorting with deduplication keeps exactly the members |
| Ordering.SameElementsSameNormalForm | crates/metadata/src/lib.rs:638-639 | lists with the same members have the same normal form, whatever their order and repetitions |
| Ordering.OrderIsByteOrder | crates/metadata/src/lib.rs:638-639 | the order of lists in normal form is the order of their UTF-8 bytes, as the source compares strings |
| RequestId.EncodeRequestId | crates/component-support/src/lib.rs:182-190 | the loop prints prefix and big-endian sequence as lower-case hexadecimal |
| RequestId.Generator.Generate | crates/component-support/src/lib.rs:160-164 | each call yields the ID of the current sequence number, always acceptable, and advances it with wrap-around |
| RequestId.GeneratedIsValid | crates/component-support/src/lib.rs:153-159 | generated IDs have 48 characters and pass the validator |
| RequestId.GeneratedInOrder | crates/component-support/src/lib.rs:182-190 | for one prefix, IDs sort lexicographically as their sequence numbers do |
| RequestId.ConsecutiveCallsDiffer | crates/component-support/src/lib.rs:153-164 | any two of 2^64 consecutive calls differ, across the wrap too |
| RequestId.AcceptedEitherWay | components/request-id/src/lib.rs:38-46 | reading the field as UTF-8 and as visible text accepts the same IDs |
| RequestId.ValidExactly | crates/policy-core/src/lib.rs:92-99 | an ID is valid exactly if it is 1 to 128 bytes of letters, digits and `-_.:/` |
| RequestId.AcceptedExactly | crates/policy-core/src/lib.rs:72-86 | an ID is accepted exactly from a single field whose bytes are a valid ID |
| RequestId.CanonicalExactly | components/request-id/src/lib.rs:38-46 | the ID of a request is that of its only field if valid and the generated one in every other case |
| RequestId.IdsDetermineTheirOrigin | crates/component-support/src/lib.rs:153-190 | equal generated IDs have the same instance prefix and the same sequence number |
| RequestId.CanonicalizersAgree | crates/policy-core/src/lib.rs:67-99 | the canonicalizers of the request-ID component, of the fused component and of the policy settle on the same ID, a valid one |
| RequestId.WrittenIdIsKept | components/secure-defaults/src/lib.rs:176-187 | an ID written by `set_header` is what all four canonicalizers return, the in-process one included |
| Cors.NewConfigIsValid | crates/policy-core/src/lib.rs:129-183 | accepted configurations have exactly the given origins, methods and lower-case headers, at least one origin and method, only tokens, and no wildcard with credentials |
| Cors.ConfigAcceptedExactly | crates/policy-core/src/lib.rs:129-183 | lists make a policy if and only if some origin remains after trimming, each is `*`, `null` or printable and a URI origin, methods and field names are HTTP tokens with at least one method, and credentials are not combined with the wildcard |
| Cors.LoadedConfigIsValid | components/secure-defaults/src/lib.rs:151-174 | whatever the environment holds, a configuration that loads is valid, has exactly the listed origins, the listed or default methods and lower-cased headers, and allows credentials only when told `true` |
| Cors.LoadsExactly | components/secure-defaults/src/lib.rs:151-174 | a policy loads if and only if no key is repeated, origins are given and the four values make that policy |
| Cors.ValuesConfigIsValid | crates/policy-core/src/lib.rs:191-214 | the same from the four values, with defaults for methods and headers |
| Cors.ValuesAcceptedExactly | crates/policy-core/src/lib.rs:191-214 | values make a policy if and only if credentials are absent, `true` or `false` and the split lists make one |
| Cors.GrantedExactly | crates/policy-core/src/lib.rs:228-318 | 204 is answered exactly to an OPTIONS preflight whose single origin, single method and every header token are allowed |
| Cors.RefusedExactly | crates/policy-core/src/lib.rs:228-285 | 403 is answered exactly to an origin that is not allowed, and to a readable preflight from an allowed one that asks for a method or field name that is not |
| Cors.GrantedListsReadBack | crates/policy-core/src/lib.rs:287-312 | the granted lists, split and trimmed, are exactly the configured methods and field names |
| Cors.PassesExactlyAllowedOrigins | crates/policy-core/src/lib.rs:228-261 | downstream runs exactly without an origin, or for an allowed one outside a preflight; what the browser is then told says Cors.AllowedOriginIsTold |
| Cors.AllowedOriginIsTold | crates/policy-core/src/lib.rs:228-261 | on a simple request and on a granted preflight alike, the decision names the origin or `*`, allows credentials exactly if configured, and varies by `Origin` |
| Cors.OthersAreToldNothing | crates/policy-core/src/lib.rs:228-285 | a refusal says only that it varies by `Origin`, a request without an origin gets no field, and method and field lists come with a 204 only |
| Cors.SingleTextExactly | crates/policy-core/src/lib.rs:609-621 | a field reads as one text exactly when it is single and visible ASCII, and as absent exactly when there is none |
| Cors.TcharExactly | crates/policy-core/src/lib.rs:146-160 | method and field names are made of visible ASCII without delimiters (section 5.6.2 of RFC 9110) |
| Cors.FailsExactly | crates/policy-core/src/lib.rs:228-312 | evaluation fails exactly on an unreadable origin, or on an unreadable preflight from an allowed one; writing the answer never fails |
| Cors.NoWildcardWithCredentials | crates/policy-core/src/lib.rs:232-252 | allow-origin `*` and allow-credentials never appear together |
| Cors.DecisionShape | crates/policy-core/src/lib.rs:323-344 | a decision writes only CORS fields and Vary, each with one value |
| Cors.EvaluateReads | crates/policy-core/src/lib.rs:228-318 | a decision depends on the method and three request fields only |
| Authn.FromEnvironmentIsValid | crates/authn-runtime/src/lib.rs:110-170 | every accepted configuration is bounded, its deployment normalized and its anonymous context encoded |
| AuthnLaws.LoadsExactly | crates/authn-runtime/src/lib.rs:110-170 | an environment loads as a configuration if and only if no key is repeated, the broker is at an accepted address, the mode is optional exactly when set so and required by default, timeout and maximum are the numbers spelled out or 2000 ms and 64, and service and trimmed audiences are the given ones |
| AuthnLaws.NumbersReadExactly | crates/authn-runtime/src/lib.rs:119-127 | a number is read exactly from its decimal digits after leading zeros and an optional plus sign |
| Authn.ParsedClaimsAreValid | crates/policy-core/src/lib.rs:562-607 | claims of an accepted broker answer satisfy every bound of an authenticated context |
| AuthnLaws.AllowedExactly | crates/policy-core/src/lib.rs:562-607 | claims are granted if and only if the status is 200 and the body is an object that carries acceptable fields, each under its own name, and the claims are those fields |
| AuthnLaws.WrittenAnswerGrants | crates/policy-core/src/lib.rs:562-607 | the round trip: an answer written with its member names grants exactly its own fields with normalized lists if they are acceptable, and nothing otherwise |
| AuthnLaws.ReadSuccessExactly | crates/policy-core/src/lib.rs:446-475 | an answer is read exactly from an object with known, distinct keys that carries it member by member |
| Authn.ClaimsAlwaysBind | crates/policy-core/src/lib.rs:498-510 | such claims bind unchanged to every configured deployment, though validated against a placeholder |
| Authn.PassesExactly | crates/authn-runtime/src/lib.rs:351-416 | a request passes exactly without Authorization in optional mode, or with one credential the broker granted claims for whose context fits |
| Authn.RejectsExactly | crates/authn-runtime/src/lib.rs:351-416 | the cause of each rejection, both ways: an unreadable credential, a missing one in required mode, a broker answer of 401, and as unavailable every other exchange that grants no claims or too large ones |
| AuthnLaws.AuthorizationExactly | crates/policy-core/src/lib.rs:544-560 | a credential is read exactly from a single visible field of at most 8192 characters |
| AuthnLaws.StagesExactly | crates/authn-runtime/src/lib.rs:351-416 | each failure is reported at its own stage, both ways, and success and a 401 of the broker at none |
| Authn.PassIsBound | crates/authn-runtime/src/lib.rs:351-416 | a passed value decodes to this deployment, anonymous exactly without a credential, otherwise with the granted claims |
| Authn.EncodingFailsOnlyOnSize | crates/authn-runtime/src/lib.rs:396-406 | the context-encoding stage is reported exactly when granted claims exceed the size bound |
| Authn.BrokerNotConsulted | crates/authn-runtime/src/lib.rs:328-333 | without one acceptable credential the broker has no influence |
| Admission.CounterIsLiveGuards | crates/authn-runtime/src/lib.rs:432-458 | in every interleaving, with stale loads and spurious failures, the counter is the number of live guards and at most the maximum |
| Admission.NeverUnderflows | crates/authn-runtime/src/lib.rs:454-458 | no release wraps the counter |
| Admission.RefusedOnlyWhenFull | crates/authn-runtime/src/lib.rs:438-440 | a refused caller read a value at which exactly the maximum of guards were held, and holds none |
| Admission.FreeSlotIsObtainable | crates/authn-runtime/src/lib.rs:435-452 | capacity is never leaked: below the maximum, an unraced newcomer is admitted |
| Admission.FullIsRefused | crates/authn-runtime/src/lib.rs:435-441 | with the maximum of guards held, a newcomer that reads the latest value is refused, and the guards stay |
| Admission.LoopDecides | crates/authn-runtime/src/lib.rs:437-451 | a caller that read below the maximum tries and is not refused; one that read the maximum only gives up |
| Admission.SchedulerIsFree | crates/authn-runtime/src/lib.rs:435-458 | the state machine assumes nothing: any value ever held may be loaded, an exchange may fail whenever it is tried, a guard may be dropped at any time |
| Deadline.Collect | crates/authn-runtime/src/lib.rs:566-616 | the loop returns the verdict of the one deciding round, arms a timer for what is left of the budget at each earlier round, and none once it is spent |
| Deadline.WithDeadline | crates/authn-runtime/src/lib.rs:598-616 | without budget no timer and a deadline error; otherwise one timer for exactly the rest, and the race decides |
| Deadline.OneAbsoluteDeadline | crates/authn-runtime/src/lib.rs:598-616 | every timer expires at start plus timeout, plus only the lag of arming that timer, and is armed only while budget is left |
| Deadline.RemainingExactly | crates/authn-runtime/src/lib.rs:598-616 | budget is left exactly before the absolute deadline, and all of it while the clock is behind the start |
| Deadline.DecidingRoundIsUnique | crates/authn-runtime/src/lib.rs:574-595 | no later round is reached once one decides |
| Deadline.SucceedsExactly | crates/authn-runtime/src/lib.rs:566-596 | the body is returned exactly when the stream closes in time and the chunks total at most 65536 bytes, and is their concatenation |
| Deadline.UnacknowledgedNeverSucceeds | crates/authn-runtime/src/lib.rs:588-596 | a closed stream without its acknowledgement and a cancelled one end in an error, never in a body |
| Deadline.DeadlineErrorExactly | crates/authn-runtime/src/lib.rs:566-616 | a deadline error means exactly that the deciding round had no budget left or lost the race against its timer |
| Deadline.ClosedRunIsDecided | crates/authn-runtime/src/lib.rs:574-595 | a run that closes in time is decided, at the closing round or at an earlier one over the bound, with the body if the total fits and a refusal otherwise |
| Deadline.ChunkingIsIrrelevant | crates/authn-runtime/src/lib.rs:574-595 | two runs that close in time with equal totals are decided alike, whichever rounds decide them: the body within the bound, a refusal over it |
| PolicyPath.NormalizePolicyPath | crates/policy-core/src/lib.rs:379-434 | the byte loop and the checks after it accept exactly the paths whose single decoding is clean and escapes no slash, and return that decoding |
| PolicyPath.NormalizesExactly | crates/policy-core/src/lib.rs:379-434 | a path normalizes to p if and only if p is unambiguous and the path is p with some bytes but no slash escaped (or nothing, for the root), followed by any query |
| PolicyPath.CleanExactly | crates/policy-core/src/lib.rs:405-434 | the checks after decoding mean: a leading slash, UTF-8, at most 8192 bytes, no control byte, none of `%?#\`, no dot segment and no empty segment but the last |
| PolicyPath.SegmentsExactly | crates/policy-core/src/lib.rs:425-431 | splitting at slashes is undone by joining and leaves no slash in a segment |
| PolicyPath.DotSegmentsAgree | crates/policy-core/src/lib.rs:425-431 | splitting at slashes finds a dot segment exactly when one stands between slashes |
| PolicyPath.NormalizedIsClean | fuzz/fuzz_targets/path.rs:7-11 | every output is clean |
| PolicyPath.FixpointsAreTheOutputs | crates/policy-core/src/lib.rs:379-434 | the fixpoints are the clean paths, and these are exactly the outputs |
| PolicyPath.NormalizeIsIdempotent | fuzz/fuzz_targets/path.rs:12-12 | normalizing twice is normalizing once (decode-once, section 2.4 of RFC 3986) |
| PolicyPath.SpellingsNormalizeAlike | crates/policy-core/src/lib.rs:390-443 | escaping any bytes but slashes, in either hexadecimal case, and adding any query leads back to the same path within the bound |
| PolicyPath.AcceptedPathsAreSpellings | crates/policy-core/src/lib.rs:390-443 | every accepted path is such a spelling of its normal form |
| Terminal.TerminalRequest.Authenticate | crates/authn/src/lib.rs:143-188 | every exit leaves the headers sanitized; success installs the returned context, failure leaves the extension alone |
| Terminal.TerminalRequest.AcceptTrustedIngress | crates/authn/src/lib.rs:220-242 | the same for the trusted ingress |
| Terminal.TerminalRequest.StripReserved | crates/metadata/src/lib.rs:531-540 | removing the collected names one by one removes exactly the reserved fields |
| Terminal.TerminalRequest.InsertAuthContext | crates/metadata/src/lib.rs:595-603 | the one context replaces all reserved fields; a context that does not encode changes nothing |
| Terminal.SanitizedByName | crates/authn/src/lib.rs:274-278 | sanitizing empties Authorization and the reserved prefix and nothing else |
| Terminal.ConfigurableExactlyWhenValid | crates/authn/src/lib.rs:50-62 | the constructor yields exactly the configurations in normal form |
| Terminal.ConfiguredExactly | crates/authn/src/lib.rs:50-62 | an identity configures if and only if the service is a token and there are 1 to 16 plain ASCII audiences, and as exactly these in normal form |
| Terminal.AuthenticatedExactly | crates/authn/src/lib.rs:143-188 | success, both ways: anonymous in optional mode without a credential, or one credential and one request ID with unexpired granted claims |
| Terminal.RejectedExactly | crates/authn/src/lib.rs:143-188 | the cause of each rejection, both ways; building the anonymous context and binding claims never fail |
| Terminal.AuthenticatedIsBound | crates/authn/src/lib.rs:143-188 | success yields a valid, unexpired context of this deployment, anonymous exactly without a credential |
| Terminal.InsertedIsAcceptedExactly | crates/authn/src/lib.rs:220-242 | an inserted context is accepted again, unchanged, exactly when it is bound, unexpired and no credential survives |
| Terminal.IngressExactly | crates/authn/src/lib.rs:220-242 | for any headers, a context is accepted if and only if there is no Authorization field and exactly one context field, which decodes to it, and it is for this service, for one of the configured audiences and not expired; everything else is an invalid boundary |
| Terminal.OneFieldIsParsed | crates/metadata/src/lib.rs:611-620 | no context field and several are told apart as missing and duplicate |
| Terminal.InsertedOnce | crates/metadata/src/lib.rs:595-620 | insertion leaves one reserved field and touches no other name |
| Utf8.DecodeEncode | crates/metadata/src/lib.rs:584-584 | every text survives UTF-8 encoding |
| Utf8.EncodeDecode | components/cors/src/lib.rs:144-147 | one byte string per text: overlong and surrogate forms are not accepted |
| Text.SplitCsvOfJoin | crates/policy-core/src/lib.rs:623-629 | splitting a joined list of trimmed tokens gives it back |
| Text.TokenExactly | crates/metadata/src/lib.rs:681-687 | a token is 1 to 128 bytes of letters, digits and `-_.:/` |
| Text.TrimExactly | crates/policy-core/src/lib.rs:623-629 | trimming removes white space at both ends and nothing else |
| Text.WhiteSpaceExactly | crates/policy-core/src/lib.rs:623-629 | white space is the 25 code points of the Unicode property White_Space |
| Text.SplitExactly | crates/policy-core/src/lib.rs:623-629 | splitting is undone by putting the separators back, and leaves none in a piece |
| Text.TokensExactly | crates/policy-core/src/lib.rs:623-629 | each piece of a list stands for itself, trimmed, and is left out if nothing remains |
| Text.EqIgnoreCaseExactly | crates/component-support/src/lib.rs:111-117 | names agree ignoring case exactly when they agree letter by letter up to ASCII case |
| Settings.RepetitionFound | components/secure-defaults/src/lib.rs:161-174 | a key is repeated exactly when it stands in two places, with equal values or not |
| Text.HexValueExactly | crates/policy-core/src/lib.rs:436-443 | a character has the value of a hexadecimal digit exactly if it is that digit in lower or upper case |

## Left out

- Body streams, trailers, relays of transmission results and spawned tasks: host runtime; `Body` is passed through.
- Building and sending the broker request, and which status codes are read at all (crates/authn-runtime/src/lib.rs:460-564): the broker is an arbitrary source of exchanges.
- Parsing of URIs, broker addresses and CORS origins: parameters (`parseUrl`, `uriOrigin`).
- JSON booleans, fractions and negative numbers: no field of the schema accepts them.
- The array form in which serde also accepts structs: the codec laws are about the object form.
- Failures of host edits (immutable or oversized headers) and the length limit of header names: host limits.
- Environment access, caching of loaded configurations, random prefix generation and the clock: inputs.
- One generator per component instance: both sides of the equivalence are given one generated ID; an ID written by the outermost layer is kept whatever the inner generator would produce.
- Iteration order of the hash map and of the method set: results are compared per name, and methods are listed in string order.
- Memory ordering between the counter and other locations: one counter, coherent, with stale reads.
- Deadline.OneAbsoluteDeadline: the time between reading the clock and arming a timer is part of the statement, because the code computes a relative duration.
- That the credential is removed before the broker is first polled: one call has no inside in this model; the state after every exit is stated.
- Sensitive marks, debug redaction, error texts and diagnostic labels: single-branch facts.
- `merge_header_map`, the passthrough component, fixtures, fuzz harnesses and scripts: plumbing.
