/**
 The codec laws of the authentication context: the constructors build exactly the valid contexts, a
 context that encodes decodes to itself, and every accepted header value re-encodes to one that is no
 longer and decodes to the same context.
 */
module MetadataLaws {
  import opened Wrappers
  import opened Utf8
  import opened Text
  import opened Json
  import opened JsonLaws
  import opened JsonObject
  import opened Ordering
  import opened Metadata

  // ----- The constructors build exactly the valid contexts -----

  lemma NormalizedTokens(field: string, values: seq<string>)
    ensures ValidatedTokens(field, values).Ok? ==> IsTokenList(ValidatedTokens(field, values).value)
    ensures IsTokenList(values) ==> ValidatedTokens(field, values) == Ok(values)
  {
    SortDedupMembers(values);
    SortDedupIncreasing(values);
    if Increasing(values) { SortDedupOfIncreasing(values); }
  }

  lemma NormalizedDeployment(serviceId: string, audiences: seq<string>)
    ensures ValidatedDeployment(serviceId, audiences).Ok? ==>
              var d := ValidatedDeployment(serviceId, audiences).value;
              d.0 == serviceId && d.1 == SortDedup(audiences) && ValidDeployment(d.0, d.1)
    ensures ValidDeployment(serviceId, audiences) ==>
              ValidatedDeployment(serviceId, audiences) == Ok((serviceId, audiences))
  {
    SortDedupMembers(audiences);
    SortDedupIncreasing(audiences);
    if Increasing(audiences) { SortDedupOfIncreasing(audiences); }
  }

  /** Each builder step keeps a principal valid, whatever it is given and in whatever order. */
  lemma TextBuildersKeepPrincipalsValid(p: Principal, value: Option<string>)
    requires ValidPrincipal(p)
    ensures var r := WithTenantId(p, value); r.Ok? ==> ValidPrincipal(r.value)
    ensures var r := WithAcr(p, value); r.Ok? ==> ValidPrincipal(r.value)
    ensures var r := WithSessionId(p, value); r.Ok? ==> ValidPrincipal(r.value)
  {
  }

  lemma ListBuildersKeepPrincipalsValid(p: Principal, list: seq<string>)
    requires ValidPrincipal(p)
    ensures var r := WithRoles(p, list); r.Ok? ==> ValidPrincipal(r.value)
    ensures var r := WithScopes(p, list); r.Ok? ==> ValidPrincipal(r.value)
    ensures var r := WithAmr(p, list); r.Ok? ==> ValidPrincipal(r.value)
  {
    NormalizedTokens("roles", list);
    NormalizedTokens("scopes", list);
    NormalizedTokens("amr", list);
  }

  lemma OtherBuildersKeepPrincipalsValid(p: Principal, actor: Option<Actor>, authTime: Option<u64>,
                                         expiresAt: Option<u64>)
    requires ValidPrincipal(p) && (actor.Some? ==> ValidActor(actor.value))
    ensures ValidPrincipal(WithActor(p, actor))
    ensures var r := WithTimes(p, authTime, expiresAt); r.Ok? ==> ValidPrincipal(r.value)
  {
  }

  lemma NewPrincipalIsValid(issuer: string, subject: string)
    ensures var r := NewPrincipal(issuer, subject); r.Ok? ==> ValidPrincipal(r.value)
    ensures var r := NewActor(issuer, subject); r.Ok? ==> ValidActor(r.value)
  {
  }

  lemma BuiltPrincipalIsValid(w: WirePrincipal)
    requires PrincipalFromWire(w).Ok?
    ensures ValidPrincipal(PrincipalFromWire(w).value)
  {
    var p0 := NewPrincipal(w.issuer, w.subject).value;
    NewPrincipalIsValid(w.issuer, w.subject);
    var p1 := WithTenantId(p0, w.tenantId).value;
    TextBuildersKeepPrincipalsValid(p0, w.tenantId);
    var p2 := WithRoles(p1, w.roles).value;
    ListBuildersKeepPrincipalsValid(p1, w.roles);
    var p3 := WithScopes(p2, w.scopes).value;
    ListBuildersKeepPrincipalsValid(p2, w.scopes);
    var p4 := WithAcr(p3, w.acr).value;
    TextBuildersKeepPrincipalsValid(p3, w.acr);
    var p5 := WithAmr(p4, w.amr).value;
    ListBuildersKeepPrincipalsValid(p4, w.amr);
    var actor := OptActorFromWire(w.actor).value;
    if w.actor.Some? { NewPrincipalIsValid(w.actor.value.issuer, w.actor.value.subject); }
    OtherBuildersKeepPrincipalsValid(p5, actor, w.authTime, w.expiresAt);
    var p6 := WithActor(p5, actor);
    OtherBuildersKeepPrincipalsValid(p6, actor, w.authTime, w.expiresAt);
    var p7 := WithTimes(p6, w.authTime, w.expiresAt).value;
    TextBuildersKeepPrincipalsValid(p7, w.sessionId);
  }

  function NormalizedLists(w: WirePrincipal): WirePrincipal {
    w.(roles := SortDedup(w.roles), scopes := SortDedup(w.scopes), amr := SortDedup(w.amr))
  }

  /** The fields of a built principal are the wire fields, with the three lists normalized. */
  lemma BuiltPrincipalFields(w: WirePrincipal)
    requires PrincipalFromWire(w).Ok?
    ensures PrincipalToWire(PrincipalFromWire(w).value)
            == NormalizedLists(w)
  {
    var p2 := WithRoles(WithTenantId(NewPrincipal(w.issuer, w.subject).value, w.tenantId).value, w.roles).value;
    BuiltIdentity(w);
    var p5 := WithAmr(WithAcr(WithScopes(p2, w.scopes).value, w.acr).value, w.amr).value;
    BuiltLists(p2, w);
    BuiltSession(p5, w);
  }

  lemma BuiltIdentity(w: WirePrincipal)
    requires NewPrincipal(w.issuer, w.subject).Ok?
    requires WithTenantId(NewPrincipal(w.issuer, w.subject).value, w.tenantId).Ok?
    requires WithRoles(WithTenantId(NewPrincipal(w.issuer, w.subject).value, w.tenantId).value, w.roles).Ok?
    ensures WithRoles(WithTenantId(NewPrincipal(w.issuer, w.subject).value, w.tenantId).value, w.roles).value
            == Principal(w.issuer, w.subject, w.tenantId, SortDedup(w.roles), [], None, [], None, None, None, None)
  {
  }

  lemma BuiltLists(p: Principal, w: WirePrincipal)
    requires WithScopes(p, w.scopes).Ok?
    requires WithAcr(WithScopes(p, w.scopes).value, w.acr).Ok?
    requires WithAmr(WithAcr(WithScopes(p, w.scopes).value, w.acr).value, w.amr).Ok?
    ensures WithAmr(WithAcr(WithScopes(p, w.scopes).value, w.acr).value, w.amr).value
            == p.(scopes := SortDedup(w.scopes), acr := w.acr, amr := SortDedup(w.amr))
  {
  }

  lemma BuiltSession(p: Principal, w: WirePrincipal)
    requires OptActorFromWire(w.actor).Ok?
    requires var q := WithActor(p, OptActorFromWire(w.actor).value);
             && WithTimes(q, w.authTime, w.expiresAt).Ok?
             && WithSessionId(WithTimes(q, w.authTime, w.expiresAt).value, w.sessionId).Ok?
    ensures var q := WithActor(p, OptActorFromWire(w.actor).value);
            WithSessionId(WithTimes(q, w.authTime, w.expiresAt).value, w.sessionId).value
            == p.(actor := OptActorFromWire(w.actor).value, authTime := w.authTime, expiresAt := w.expiresAt,
                  sessionId := w.sessionId)
    ensures OptActorFromWire(w.actor).value.None? <==> w.actor.None?
    ensures w.actor.Some? ==>
              OptActorFromWire(w.actor).value == Some(Actor(w.actor.value.issuer, w.actor.value.subject))
  {
  }

  lemma RebuiltPrincipal(p: Principal)
    requires ValidPrincipal(p)
    ensures PrincipalFromWire(PrincipalToWire(p)) == Ok(p)
  {
    NormalizedTokens("roles", p.roles);
    NormalizedTokens("scopes", p.scopes);
    NormalizedTokens("amr", p.amr);
  }

  lemma BuiltContextIsValid(w: WireContext)
    requires ContextFromWire(w).Ok?
    ensures ValidContext(ContextFromWire(w).value)
  {
    NormalizedDeployment(w.serviceId, w.audiences);
    if w.state.Authenticated? { BuiltPrincipalIsValid(w.principal.value); }
  }

  /** Validating the wire form of a valid context changes nothing. */
  lemma RebuiltContext(c: AuthContext)
    requires ValidContext(c)
    ensures ContextFromWire(ContextToWire(c)) == Ok(c)
  {
    NormalizedDeployment(c.serviceId, c.audiences);
    if c.state.Authenticated? { RebuiltPrincipal(c.principal.value); }
  }

  /** Both ways: a context is valid exactly when validation of some wire form yields it. */
  lemma ConstructibleExactlyWhenValid(c: AuthContext)
    ensures ValidContext(c) <==> exists w :: ContextFromWire(w) == Ok(c)
  {
    if ValidContext(c) {
      RebuiltContext(c);
    } else {
      forall w | ContextFromWire(w) == Ok(c) ensures false { BuiltContextIsValid(w); }
    }
  }

  // ----- The wire form survives JSON -----

  lemma ReadWrittenActor(a: WireActor)
    ensures ReadActor(WriteActor(a)) == Some(a)
  {
    var f := ActorFields(a);
    BuildLookups(f);
    BuildWellKeyed(f, ACTOR_KEYS);
    assert f[0].0 == "issuer" && f[1].0 == "subject";
  }

  lemma ReadWrittenDefaultList(s: seq<string>)
    ensures ReadDefaultList(WriteNonEmpty(s)) == Some(s)
  {
    ReadWrittenStrings(s);
  }

  lemma PrincipalFieldsFound(p: WirePrincipal)
    ensures var m := Build(PrincipalFields(p));
            && WellKeyed(m, PRINCIPAL_KEYS)
            && DistinctKeys(PrincipalFields(p))
            && forall i :: 0 <= i < 11 ==> Lookup(m, PRINCIPAL_KEYS[i]) == PrincipalFields(p)[i].1
  {
    var f := PrincipalFields(p);
    assert forall i :: 0 <= i < 11 ==> f[i].0 == PRINCIPAL_KEYS[i];
    BuildLookups(f);
    BuildWellKeyed(f, PRINCIPAL_KEYS);
  }

  /** `m` carries the wire principal `p`, member by member. */
  predicate CarriesPrincipal(m: Members, p: WirePrincipal) { CarriesIdentity(m, p) && CarriesSession(m, p) }

  predicate CarriesIdentity(m: Members, p: WirePrincipal) {
    && ReadString(Lookup(m, "issuer")) == Some(p.issuer)
    && ReadString(Lookup(m, "subject")) == Some(p.subject)
    && ReadOptString(Lookup(m, "tenant_id")) == Some(p.tenantId)
    && ReadDefaultList(Lookup(m, "roles")) == Some(p.roles)
    && ReadDefaultList(Lookup(m, "scopes")) == Some(p.scopes)
  }

  predicate CarriesSession(m: Members, p: WirePrincipal) {
    && ReadOptString(Lookup(m, "acr")) == Some(p.acr)
    && ReadDefaultList(Lookup(m, "amr")) == Some(p.amr)
    && ReadOptActor(Lookup(m, "actor")) == Some(p.actor)
    && ReadOptU64(Lookup(m, "auth_time")) == Some(p.authTime)
    && ReadOptU64(Lookup(m, "expires_at")) == Some(p.expiresAt)
    && ReadOptString(Lookup(m, "session_id")) == Some(p.sessionId)
  }

  lemma ReadPrincipalExactly(j: Json, p: WirePrincipal)
    ensures ReadPrincipal(j) == Some(p)
            <==> j.Obj? && WellKeyed(j.members, PRINCIPAL_KEYS) && CarriesPrincipal(j.members, p)
  {
  }

  lemma WrittenCarriesIdentity(p: WirePrincipal)
    ensures CarriesIdentity(Build(PrincipalFields(p)), p)
  {
    PrincipalFieldsFound(p);
    var m, f, k := Build(PrincipalFields(p)), PrincipalFields(p), PRINCIPAL_KEYS;
    ReadWrittenDefaultList(p.roles);
    ReadWrittenDefaultList(p.scopes);
    assert Lookup(m, k[0]) == f[0].1 && Lookup(m, k[1]) == f[1].1 && Lookup(m, k[2]) == f[2].1;
    assert Lookup(m, k[3]) == f[3].1 && Lookup(m, k[4]) == f[4].1;
  }

  lemma WrittenCarriesSession(p: WirePrincipal)
    ensures CarriesSession(Build(PrincipalFields(p)), p)
  {
    PrincipalFieldsFound(p);
    var m, f, k := Build(PrincipalFields(p)), PrincipalFields(p), PRINCIPAL_KEYS;
    ReadWrittenDefaultList(p.amr);
    if p.actor.Some? { ReadWrittenActor(p.actor.value); }
    assert Lookup(m, k[5]) == f[5].1 && Lookup(m, k[6]) == f[6].1 && Lookup(m, k[7]) == f[7].1;
    assert Lookup(m, k[8]) == f[8].1 && Lookup(m, k[9]) == f[9].1 && Lookup(m, k[10]) == f[10].1;
  }

  lemma ReadWrittenPrincipal(p: WirePrincipal)
    ensures ReadPrincipal(WritePrincipal(p)) == Some(p)
  {
    PrincipalFieldsFound(p);
    WrittenCarriesIdentity(p);
    WrittenCarriesSession(p);
    ReadPrincipalExactly(WritePrincipal(p), p);
  }

  lemma ContextFieldsFound(c: WireContext)
    ensures var m := Build(ContextFields(c));
            && WellKeyed(m, CONTEXT_KEYS)
            && DistinctKeys(ContextFields(c))
            && forall i :: 0 <= i < 7 ==> Lookup(m, CONTEXT_KEYS[i]) == ContextFields(c)[i].1
  {
    var f := ContextFields(c);
    assert forall i :: 0 <= i < 7 ==> f[i].0 == CONTEXT_KEYS[i];
    BuildLookups(f);
    BuildWellKeyed(f, CONTEXT_KEYS);
  }

  predicate CarriesContext(m: Members, c: WireContext) {
    && ReadU8(Lookup(m, "version")) == Some(c.version)
    && ReadState(Lookup(m, "state")) == Some(c.state)
    && ReadString(Lookup(m, "service_id")) == Some(c.serviceId)
    && ReadList(Lookup(m, "audiences")) == Some(c.audiences)
    && ReadOptPrincipal(Lookup(m, "principal")) == Some(c.principal)
    && ReadOptString(Lookup(m, "decision_id")) == Some(c.decisionId)
    && ReadOptString(Lookup(m, "policy_revision")) == Some(c.policyRevision)
  }

  /** An actor or a principal may be absent or `null`; if not, it is an object that carries one. */
  lemma OptionalsExactly(o: Option<Json>, a: WireActor, p: WirePrincipal)
    ensures ReadOptActor(o) == Some(None) <==> o == None || o == Some(Null)
    ensures ReadOptPrincipal(o) == Some(None) <==> o == None || o == Some(Null)
    ensures ReadOptActor(o) == Some(Some(a))
            <==> && o.Some? && o.value.Obj? && WellKeyed(o.value.members, ["issuer", "subject"])
                 && Lookup(o.value.members, "issuer") == Some(Str(a.issuer))
                 && Lookup(o.value.members, "subject") == Some(Str(a.subject))
    ensures ReadOptPrincipal(o) == Some(Some(p))
            <==> && o.Some? && o.value.Obj? && WellKeyed(o.value.members, PRINCIPAL_KEYS)
                 && CarriesPrincipal(o.value.members, p)
  {
    if o.Some? { ReadPrincipalExactly(o.value, p); }
  }

  lemma ReadContextExactly(j: Json, c: WireContext)
    ensures ReadContext(j) == Some(c)
            <==> j.Obj? && WellKeyed(j.members, CONTEXT_KEYS) && CarriesContext(j.members, c)
  {
  }

  lemma WrittenCarriesContext(c: WireContext)
    requires c.version < 256
    ensures CarriesContext(Build(ContextFields(c)), c)
  {
    ContextFieldsFound(c);
    var m, f, k := Build(ContextFields(c)), ContextFields(c), CONTEXT_KEYS;
    ReadWrittenStrings(c.audiences);
    if c.principal.Some? { ReadWrittenPrincipal(c.principal.value); }
    assert Lookup(m, k[0]) == f[0].1 && Lookup(m, k[1]) == f[1].1 && Lookup(m, k[2]) == f[2].1;
    assert Lookup(m, k[3]) == f[3].1 && Lookup(m, k[4]) == f[4].1 && Lookup(m, k[5]) == f[5].1;
    assert Lookup(m, k[6]) == f[6].1;
  }

  lemma ReadWrittenContext(c: WireContext)
    requires c.version < 256
    ensures ReadContext(WriteContext(c)) == Some(c)
  {
    ContextFieldsFound(c);
    WrittenCarriesContext(c);
    ReadContextExactly(WriteContext(c), c);
  }

  lemma ReadContextBytesOf(c: AuthContext)
    ensures ReadContextBytes(ContextBytes(c)) == Some(ContextToWire(c))
  {
    var wire := ContextToWire(c);
    DecodeEncode(Print(WriteContext(wire)));
    ParsePrint(WriteContext(wire));
    ReadWrittenContext(wire);
  }

  // ----- Round trip -----

  lemma EncodedIsVisible(b: seq<byte>)
    ensures ToStr(Base64Url.Encode(b)).Some?
  {
    Base64Url.EncodedLength(b);
    var t := Base64Url.Encode(b);
    forall i | 0 <= i < |t| ensures 32 <= t[i] < 127 { assert Base64Url.SixBits(t[i]) >= 0; }
  }

  lemma {:induction false} PrintIsNotEmpty(j: Json)
    ensures Encode(Print(j)) != []
  {
    PrintStarts(j);
    SizeIsEncodedLength(Print(j));
    SizeAtLeastLength(Print(j));
  }

  /** Every context the constructors can build comes back exactly, whenever it encodes at all. */
  lemma EncodeThenDecode(c: AuthContext)
    requires ValidContext(c) && EncodeAuthContext(c).Ok?
    ensures DecodeAuthContext(EncodeAuthContext(c).value) == Ok(c)
  {
    var bytes := ContextBytes(c);
    var value := Base64Url.Encode(bytes);
    PrintIsNotEmpty(WriteContext(ContextToWire(c)));
    Base64Url.EncodedLength(bytes);
    Base64Url.DecodeEncode(bytes);
    EncodedIsVisible(bytes);
    ReadContextBytesOf(c);
    RebuiltContext(c);
  }

  /** The 8192-character limit admits exactly the contexts whose JSON takes at most 6144 bytes. */
  lemma EncodesExactlyWithinBound(c: AuthContext)
    ensures EncodeAuthContext(c).Ok? <==> |ContextBytes(c)| <= 6144
    ensures EncodeAuthContext(c).Err? ==> EncodeAuthContext(c) == Err(ContextTooLarge)
  {
    Base64Url.EncodedLength(ContextBytes(c));
  }

  // ----- An accepted value re-encodes within its own length -----

  lemma {:induction false} ReadStringsExact(items: Items)
    requires ReadStrings(items).Some?
    ensures items == StringItems(ReadStrings(items).value)
  {
    if items.NoItems? {
    } else {
      ReadStringsExact(items.tail);
    }
  }

  function ListSize(s: seq<string>): nat { Size(PrintItems(StringItems(s))) }

  lemma ListSizeCons(x: string, s: seq<string>)
    ensures ListSize([x] + s) == 1 + Size(Print(Str(x))) + ListSize(s)
    ensures ListSize([]) == 1
  {
    assert ([x] + s)[1..] == s;
    PrintedItemSizes(Str(x), StringItems(s));
  }

  lemma {:induction false} InsertSize(x: string, s: seq<string>)
    ensures ListSize(Insert(x, s)) <= 1 + Size(Print(Str(x))) + ListSize(s)
  {
    ListSizeCons(x, s);
    if s == [] {
      assert [x] + s == [x];
    } else if x != s[0] && !Less(x, s[0]) {
      InsertSize(x, s[1..]);
      ListSizeCons(s[0], s[1..]);
      ListSizeCons(s[0], Insert(x, s[1..]));
      assert [s[0]] + s[1..] == s;
    }
  }

  lemma {:induction false} NormalFormSize(s: seq<string>)
    ensures ListSize(SortDedup(s)) <= ListSize(s)
  {
    if s == [] {
    } else {
      NormalFormSize(s[1..]);
      InsertSize(s[0], SortDedup(s[1..]));
      ListSizeCons(s[0], s[1..]);
      assert [s[0]] + s[1..] == s;
    }
  }

  /** A normalized list prints no longer than the array it was read from. */
  lemma ListIsNoLonger(items: Items)
    requires ReadStrings(items).Some?
    ensures Size(Print(WriteList(SortDedup(ReadStrings(items).value)))) <= Size(Print(Arr(items)))
  {
    var s := ReadStrings(items).value;
    ReadStringsExact(items);
    NormalFormSize(s);
    PrintedContainers(items, NoMembers);
    PrintedContainers(StringItems(SortDedup(s)), NoMembers);
  }

  predicate NoLonger(written: Option<Json>, found: Option<Json>) {
    written.Some? ==> found.Some? && Size(Print(written.value)) <= Size(Print(found.value))
  }

  lemma DefaultListIsNoLonger(o: Option<Json>)
    requires ReadDefaultList(o).Some?
    ensures NoLonger(WriteNonEmpty(SortDedup(ReadDefaultList(o).value)), o)
  {
    if o.Some? { ListIsNoLonger(o.value.items); }
  }

  lemma ActorIsNoLonger(j: Json)
    requires ReadActor(j).Some?
    ensures Size(Print(WriteActor(ReadActor(j).value))) <= Size(Print(j))
  {
    var f := ActorFields(ReadActor(j).value);
    assert f[0].0 == "issuer" && f[1].0 == "subject";
    BuildObjectIsShortest(f, j.members);
  }

  lemma OptActorIsNoLonger(o: Option<Json>)
    requires ReadOptActor(o).Some?
    ensures var a := ReadOptActor(o).value;
            NoLonger(if a.None? then None else Some(WriteActor(a.value)), o)
  {
    if o.Some? && !o.value.Null? { ActorIsNoLonger(o.value); }
  }

  /** Field by field, named as the schema names them, the print is no longer than what `m` holds. */
  predicate AllNoLonger(f: Fields, keys: seq<string>, m: Members) {
    |f| == |keys| && forall i :: 0 <= i < |f| ==> f[i].0 == keys[i] && NoLonger(f[i].1, Lookup(m, keys[i]))
  }

  lemma ObjectIsNoLonger(f: Fields, keys: seq<string>, m: Members)
    requires DistinctKeys(f) && AllNoLonger(f, keys, m)
    ensures Size(Print(Obj(Build(f)))) <= Size(Print(Obj(m)))
  {
    BuildObjectIsShortest(f, m);
  }

  lemma ScalarsAreNoLonger(o: Option<Json>)
    ensures ReadString(o).Some? ==> NoLonger(Some(Str(ReadString(o).value)), o)
    ensures ReadOptString(o).Some? ==> NoLonger(WriteOptString(ReadOptString(o).value), o)
    ensures ReadOptU64(o).Some? ==> NoLonger(WriteOptU64(ReadOptU64(o).value), o)
    ensures ReadU8(o).Some? ==> NoLonger(Some(Number(ReadU8(o).value)), o)
  {
  }

  /** The fields from `from` up to `to` are no longer than what `m` holds. */
  predicate SomeNoLonger(f: Fields, keys: seq<string>, m: Members, from: nat, to: nat) {
    to <= |f| == |keys| && forall i :: from <= i < to ==> NoLonger(f[i].1, Lookup(m, keys[i]))
  }

  lemma PrincipalDominatedHead(m: Members, w: WirePrincipal)
    requires CarriesIdentity(m, w)
    ensures SomeNoLonger(PrincipalFields(NormalizedLists(w)), PRINCIPAL_KEYS, m, 0, 5)
  {
    var k := PRINCIPAL_KEYS;
    ScalarsAreNoLonger(Lookup(m, k[0]));
    ScalarsAreNoLonger(Lookup(m, k[1]));
    ScalarsAreNoLonger(Lookup(m, k[2]));
    DefaultListIsNoLonger(Lookup(m, k[3]));
    DefaultListIsNoLonger(Lookup(m, k[4]));
  }

  lemma PrincipalDominatedTail(m: Members, w: WirePrincipal)
    requires CarriesSession(m, w)
    ensures SomeNoLonger(PrincipalFields(NormalizedLists(w)), PRINCIPAL_KEYS, m, 5, 11)
  {
    var k := PRINCIPAL_KEYS;
    ScalarsAreNoLonger(Lookup(m, k[5]));
    DefaultListIsNoLonger(Lookup(m, k[6]));
    OptActorIsNoLonger(Lookup(m, k[7]));
    ScalarsAreNoLonger(Lookup(m, k[8]));
    ScalarsAreNoLonger(Lookup(m, k[9]));
    ScalarsAreNoLonger(Lookup(m, k[10]));
  }

  lemma AllNoLongerFrom(f: Fields, keys: seq<string>, m: Members, split: nat)
    requires forall i :: 0 <= i < |f| == |keys| ==> f[i].0 == keys[i]
    requires SomeNoLonger(f, keys, m, 0, split) && SomeNoLonger(f, keys, m, split, |f|)
    ensures AllNoLonger(f, keys, m)
  {
  }

  lemma PrincipalDominated(m: Members, w: WirePrincipal)
    requires CarriesPrincipal(m, w)
    ensures AllNoLonger(PrincipalFields(NormalizedLists(w)), PRINCIPAL_KEYS, m)
  {
    PrincipalDominatedHead(m, w);
    PrincipalDominatedTail(m, w);
    AllNoLongerFrom(PrincipalFields(NormalizedLists(w)), PRINCIPAL_KEYS, m, 5);
  }

  lemma PrincipalIsNoLonger(j: Json, p: Principal)
    requires ReadPrincipal(j).Some? && PrincipalFromWire(ReadPrincipal(j).value) == Ok(p)
    ensures Size(Print(WritePrincipal(PrincipalToWire(p)))) <= Size(Print(j))
  {
    var w := ReadPrincipal(j).value;
    ReadPrincipalExactly(j, w);
    BuiltPrincipalFields(w);
    NormalizedIsNoLonger(j.members, w);
  }

  lemma NormalizedIsNoLonger(m: Members, w: WirePrincipal)
    requires CarriesPrincipal(m, w)
    ensures Size(Print(WritePrincipal(NormalizedLists(w)))) <= Size(Print(Obj(m)))
  {
    PrincipalDominated(m, w);
    PrincipalFieldsFound(NormalizedLists(w));
    ObjectIsNoLonger(PrincipalFields(NormalizedLists(w)), PRINCIPAL_KEYS, m);
  }

  lemma StateIsNoLonger(o: Option<Json>)
    requires ReadState(o).Some?
    ensures NoLonger(Some(Str(StateName(ReadState(o).value))), o)
  {
    var name := StateName(ReadState(o).value);
    match o
    case Some(Str(s)) => assert s == name;
    case Some(Obj(Member(key, Null, NoMembers))) =>
      PrintedContainers(NoItems, o.value.members);
      PrintedMemberSizes(name, Null, NoMembers);
      SizeConcat("\"", PrintChars(name));
      SizeOfAscii("\"");
  }

  lemma OptPrincipalIsNoLonger(o: Option<Json>, p: Option<Principal>)
    requires ReadOptPrincipal(o).Some?
    requires var w := ReadOptPrincipal(o).value;
             if w.None? then p == None else p.Some? && PrincipalFromWire(w.value) == Ok(p.value)
    ensures NoLonger(if p.None? then None else Some(WritePrincipal(PrincipalToWire(p.value))), o)
  {
    if p.Some? { PrincipalIsNoLonger(o.value, p.value); }
  }

  /** The fields of a built context are the wire fields, with principal and audiences normalized. */
  predicate BuiltFrom(w: WireContext, c: AuthContext) {
    && w.version == 1 && c.state == w.state && c.serviceId == w.serviceId
    && c.audiences == SortDedup(w.audiences)
    && c.decisionId == w.decisionId && c.policyRevision == w.policyRevision
    && if w.principal.None? then c.principal == None
       else c.principal.Some? && PrincipalFromWire(w.principal.value) == Ok(c.principal.value)
  }

  lemma BuiltContextFields(w: WireContext, c: AuthContext)
    requires ContextFromWire(w) == Ok(c)
    ensures BuiltFrom(w, c)
  {
    NormalizedDeployment(w.serviceId, w.audiences);
  }

  lemma AudiencesDominated(m: Members, w: WireContext, c: AuthContext)
    requires CarriesContext(m, w) && BuiltFrom(w, c)
    ensures NoLonger(Some(WriteList(c.audiences)), Lookup(m, "audiences"))
    ensures NoLonger(Some(Str(StateName(c.state))), Lookup(m, "state"))
  {
    ListIsNoLonger(Lookup(m, "audiences").value.items);
    StateIsNoLonger(Lookup(m, "state"));
  }

  lemma ContextDominatedHead(m: Members, c: AuthContext)
    requires ReadU8(Lookup(m, "version")) == Some(1)
    requires ReadString(Lookup(m, "service_id")) == Some(c.serviceId)
    requires NoLonger(Some(WriteList(c.audiences)), Lookup(m, "audiences"))
    requires NoLonger(Some(Str(StateName(c.state))), Lookup(m, "state"))
    ensures SomeNoLonger(ContextFields(ContextToWire(c)), CONTEXT_KEYS, m, 0, 4)
  {
    ScalarsAreNoLonger(Lookup(m, "version"));
    ScalarsAreNoLonger(Lookup(m, "service_id"));
  }

  lemma ContextDominatedTail(m: Members, w: WireContext, c: AuthContext)
    requires CarriesContext(m, w) && BuiltFrom(w, c)
    ensures SomeNoLonger(ContextFields(ContextToWire(c)), CONTEXT_KEYS, m, 4, 7)
  {
    var k := CONTEXT_KEYS;
    OptPrincipalIsNoLonger(Lookup(m, k[4]), c.principal);
    ScalarsAreNoLonger(Lookup(m, k[5]));
    ScalarsAreNoLonger(Lookup(m, k[6]));
  }

  lemma ContextKeysMatch(w: WireContext)
    ensures |ContextFields(w)| == 7 == |CONTEXT_KEYS|
    ensures forall i :: 0 <= i < 7 ==> ContextFields(w)[i].0 == CONTEXT_KEYS[i]
  {
  }

  lemma ContextDominated(m: Members, w: WireContext, c: AuthContext)
    requires CarriesContext(m, w) && BuiltFrom(w, c)
    ensures AllNoLonger(ContextFields(ContextToWire(c)), CONTEXT_KEYS, m)
  {
    AudiencesDominated(m, w, c);
    ContextDominatedHead(m, c);
    ContextDominatedTail(m, w, c);
    ContextKeysMatch(ContextToWire(c));
    AllNoLongerFrom(ContextFields(ContextToWire(c)), CONTEXT_KEYS, m, 4);
  }

  lemma ContextIsNoLonger(j: Json, c: AuthContext)
    requires ReadContext(j).Some? && ContextFromWire(ReadContext(j).value) == Ok(c)
    ensures Size(Print(WriteContext(ContextToWire(c)))) <= Size(Print(j))
  {
    var w := ReadContext(j).value;
    ReadContextExactly(j, w);
    BuiltContextFields(w, c);
    ContextDominated(j.members, w, c);
    ContextFieldsFound(ContextToWire(c));
    ObjectIsNoLonger(ContextFields(ContextToWire(c)), CONTEXT_KEYS, j.members);
  }

  lemma BytesAreNoLonger(b: seq<byte>, c: AuthContext)
    requires ReadContextBytes(b).Some? && ContextFromWire(ReadContextBytes(b).value) == Ok(c)
    ensures |ContextBytes(c)| <= |b|
  {
    var text := Decode(b).value;
    var json := Parse(text).value;
    EncodeDecode(b);
    SizeIsEncodedLength(text);
    ParsedIsNoShorter(text);
    ContextIsNoLonger(json, c);
    SizeIsEncodedLength(Print(WriteContext(ContextToWire(c))));
  }

  /**
   Whatever spelling an accepted value uses (white space, escapes, nulls, repetitions, any key order),
   its context is valid, encodes again in no more characters, and the new value decodes to it.
   */
  lemma AcceptedReencodes(value: seq<byte>)
    requires DecodeAuthContext(value).Ok?
    ensures var c := DecodeAuthContext(value).value;
            && ValidContext(c)
            && EncodeAuthContext(c).Ok?
            && |EncodeAuthContext(c).value| <= |value| <= MAX_ENCODED_LEN
            && DecodeAuthContext(EncodeAuthContext(c).value) == Ok(c)
  {
    var c := DecodeAuthContext(value).value;
    var bytes := Base64Url.Decode(value).value;
    Base64Url.EncodedLength(bytes);
    Base64Url.EncodedLength(ContextBytes(c));
    BytesAreNoLonger(bytes, c);
    BuiltContextIsValid(ReadContextBytes(bytes).value);
    EncodeThenDecode(c);
  }
}
