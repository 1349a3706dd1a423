/**
 What the validators and the decoder of authentication contexts accept, both ways, with every limit
 written out.
 */
module MetadataBounds {
  import opened Wrappers
  import opened Utf8
  import opened Text
  import opened Json
  import opened Ordering
  import opened Metadata
  import opened MetadataLaws
  import Base64Url

  // ----- Text -----

  /** Between 1 and `maximum` bytes, no white space at either end, no control character. */
  predicate PlainText(v: string, maximum: nat) {
    && 1 <= |Encode(v)| <= maximum
    && IsTrimmed(v)
    && forall i :: 0 <= i < |v| ==> v[i] as int >= 32 && !(127 <= v[i] as int < 160)
  }

  lemma TextExactly(v: string, maximum: nat)
    ensures IsText(v, maximum) <==> PlainText(v, maximum)
  {
    TrimIsTrimmed(v);
    if IsTrimmed(v) { TrimOfTrimmed(v); }
  }

  /** An audience: visible ASCII without blanks. */
  lemma AsciiTextExactly(v: string, maximum: nat)
    ensures IsAsciiText(v, maximum) <==> 1 <= |v| <= maximum && forall i :: 0 <= i < |v| ==> '!' <= v[i] <= '~'
  {
    TextExactly(v, maximum);
    if forall i :: 0 <= i < |v| ==> v[i] < 0x80 as char { EncodeAscii(v); }
  }

  // ----- Lists -----

  /** The normal form of a list: increasing, with the same members. */
  ghost predicate NormalForm(r: seq<string>, values: seq<string>) {
    Increasing(r) && forall v :: v in r <==> v in values
  }

  lemma SortDedupExactly(values: seq<string>, r: seq<string>)
    ensures r == SortDedup(values) <==> NormalForm(r, values)
  {
    SortDedupMembers(values);
    SortDedupIncreasing(values);
    if NormalForm(r, values) { IncreasingUnique(r, SortDedup(values)); }
  }

  /** At most 64 tokens, sorted or not, repeated or not; the result is their normal form. */
  lemma TokenListExactly(field: string, values: seq<string>, r: seq<string>)
    ensures ValidatedTokens(field, values) == Ok(r)
            <==> |values| <= 64 && (forall v :: v in values ==> IsToken(v)) && NormalForm(r, values)
  {
    SortDedupExactly(values, r);
  }

  /** A token and 1 to 16 audiences of at most 256 characters; the result is their normal form. */
  lemma DeploymentExactly(serviceId: string, audiences: seq<string>, r: (string, seq<string>))
    ensures ValidatedDeployment(serviceId, audiences) == Ok(r)
            <==> && IsToken(serviceId) && r.0 == serviceId
                 && 1 <= |audiences| <= 16 && (forall a :: a in audiences ==> IsAsciiText(a, 256))
                 && NormalForm(r.1, audiences)
  {
    SortDedupExactly(audiences, r.1);
  }

  function SpaceJoined(values: seq<string>): string {
    if values == [] then "" else if |values| == 1 then values[0] else values[0] + " " + SpaceJoined(values[1..])
  }

  /** The scope length is that of the space-separated list. */
  lemma {:induction false} ScopeLengthExactly(values: seq<string>)
    ensures ScopeLength(values) == |SpaceJoined(values)|
  {
    if |values| <= 1 {
    } else {
      ScopeLengthExactly(values[1..]);
    }
  }

  lemma ScopesExactly(values: seq<string>, r: seq<string>)
    ensures ValidatedScopes(values) == Ok(r)
            <==> |values| <= 64 && (forall v :: v in values ==> IsToken(v)) && NormalForm(r, values)
                 && |SpaceJoined(r)| <= 2048
  {
    TokenListExactly("scopes", values, r);
    ScopeLengthExactly(r);
    if ValidatedTokens("scopes", values).Ok? {
      TokenListExactly("scopes", values, ValidatedTokens("scopes", values).value);
    }
  }

  // ----- Principals and contexts -----

  predicate OptPlainText(v: Option<string>, maximum: nat) { v.Some? ==> PlainText(v.value, maximum) }

  predicate TokenList(values: seq<string>) { |values| <= 64 && forall v :: v in values ==> IsToken(v) }

  /** What a wire principal must satisfy. */
  predicate AcceptablePrincipal(w: WirePrincipal) {
    && PlainText(w.issuer, 512) && PlainText(w.subject, 512)
    && OptPlainText(w.tenantId, 512)
    && TokenList(w.roles) && TokenList(w.scopes) && TokenList(w.amr)
    && |SpaceJoined(SortDedup(w.scopes))| <= 2048
    && OptPlainText(w.acr, 256)
    && (w.actor.Some? ==> PlainText(w.actor.value.issuer, 512) && PlainText(w.actor.value.subject, 512))
    && (w.authTime.Some? && w.expiresAt.Some? ==> w.authTime.value < w.expiresAt.value)
    && OptPlainText(w.sessionId, 512)
  }

  lemma OptTextExactly(field: string, v: Option<string>, maximum: nat)
    ensures ValidateOption(field, v, maximum).Ok? <==> OptPlainText(v, maximum)
  {
    if v.Some? { TextExactly(v.value, maximum); }
  }

  /** Which principals validation accepts; BuiltPrincipalFields says what it makes of them. */
  lemma PrincipalAcceptedExactly(w: WirePrincipal)
    ensures PrincipalFromWire(w).Ok? <==> AcceptablePrincipal(w)
  {
    TextExactly(w.issuer, 512);
    TextExactly(w.subject, 512);
    OptTextExactly("tenant_id", w.tenantId, 512);
    OptTextExactly("acr", w.acr, 256);
    OptTextExactly("session_id", w.sessionId, 512);
    ScopeLengthExactly(SortDedup(w.scopes));
    if w.actor.Some? {
      TextExactly(w.actor.value.issuer, 512);
      TextExactly(w.actor.value.subject, 512);
    }
  }

  /** What a wire context must satisfy: an anonymous one has no identity, an authenticated one all of it. */
  predicate AcceptableContext(w: WireContext) {
    && w.version == 1
    && IsToken(w.serviceId) && 1 <= |w.audiences| <= 16 && (forall a :: a in w.audiences ==> IsAsciiText(a, 256))
    && match w.state
       case Anonymous => w.principal == None && w.decisionId == None && w.policyRevision == None
       case Authenticated =>
         && w.principal.Some? && AcceptablePrincipal(w.principal.value)
         && w.decisionId.Some? && PlainText(w.decisionId.value, 256)
         && w.policyRevision.Some? && PlainText(w.policyRevision.value, 256)
  }

  /** Which contexts validation accepts; BuiltContextFields says what it makes of them. */
  lemma ContextAcceptedExactly(w: WireContext)
    ensures ContextFromWire(w).Ok? <==> AcceptableContext(w)
  {
    if w.principal.Some? { PrincipalAcceptedExactly(w.principal.value); }
    if w.decisionId.Some? { TextExactly(w.decisionId.value, 256); }
    if w.policyRevision.Some? { TextExactly(w.policyRevision.value, 256); }
  }

  // ----- The header value -----

  /** `text` is a JSON object that carries `c`, in whatever spelling. */
  predicate Spells(text: string, c: AuthContext) {
    && Parse(text).Some? && ReadContext(Parse(text).value).Some?
    && ContextFromWire(ReadContext(Parse(text).value).value) == Ok(c)
  }

  /** A value decodes to a context exactly when it is the canonical encoding of a text that spells the context. */
  lemma DecodedExactly(value: seq<byte>, c: AuthContext)
    ensures DecodeAuthContext(value) == Ok(c)
            <==> |value| <= 8192 && exists text :: value == Base64Url.Encode(Encode(text)) && Spells(text, c)
  {
    if DecodeAuthContext(value) == Ok(c) {
      var bytes := Base64Url.Decode(value).value;
      var text := Decode(bytes).value;
      EncodeDecode(bytes);
      assert value == Base64Url.Encode(Encode(text)) && Spells(text, c);
    }
    if text :| value == Base64Url.Encode(Encode(text)) && Spells(text, c) {
      SpelledIsDecoded(value, text, c);
    }
  }

  lemma SpelledIsDecoded(value: seq<byte>, text: string, c: AuthContext)
    requires value == Base64Url.Encode(Encode(text)) && Spells(text, c)
    ensures |value| <= 8192 ==> DecodeAuthContext(value) == Ok(c)
  {
    DecodeEncode(text);
    Base64Url.DecodeEncode(Encode(text));
    EncodedIsVisible(Encode(text));
    Base64Url.EncodedLength(Encode(text));
  }

  /** Why a value is refused: over 8192 characters... */
  lemma TooLargeExactly(value: seq<byte>)
    ensures DecodeAuthContext(value) == Err(ContextTooLarge) <==> ToStr(value).Some? && |value| > 8192
  {
    if ToStr(value).Some? && |value| <= 8192 { NotTooLarge(value); }
  }

  lemma NotTooLarge(value: seq<byte>)
    requires ToStr(value).Some? && |value| <= 8192
    ensures DecodeAuthContext(value) != Err(ContextTooLarge)
  {
    if Base64Url.Decode(value).Some? {
      var wire := ReadContextBytes(Base64Url.Decode(value).value);
      if wire.Some? { ValidationErrors(wire.value); }
    }
  }

  lemma ValidationErrors(w: WireContext)
    ensures ContextFromWire(w).Err? ==>
              ContextFromWire(w).error != ContextTooLarge && ContextFromWire(w).error != InvalidEncoding
  {
    if w.principal.Some? { PrincipalErrors(w.principal.value); }
  }

  /** Another version is reported before anything else, and only another version. */
  lemma VersionErrorExactly(w: WireContext, version: nat)
    ensures ContextFromWire(w) == Err(UnsupportedVersion(version)) <==> w.version == version != 1
  {
  }

  /** The two names of a state, as a string or as the only key of an object. */
  lemma StateExactly(o: Option<Json>, s: AuthState)
    ensures ReadState(o) == Some(s)
            <==> var name := if s == Anonymous then "anonymous" else "authenticated";
                 o == Some(Str(name)) || o == Some(Obj(Member(name, Null, NoMembers)))
  {
  }

  lemma PrincipalErrors(w: WirePrincipal)
    ensures PrincipalFromWire(w).Err? ==>
              PrincipalFromWire(w).error != ContextTooLarge && PrincipalFromWire(w).error != InvalidEncoding
  {
  }

  /** ... or not canonical base64url at all; everything else is a matter of the schema or of a field. */
  lemma MalformedExactly(value: seq<byte>)
    ensures DecodeAuthContext(value) == Err(InvalidEncoding)
            <==> ToStr(value).None? || value == [] || (|value| <= 8192 && !Base64Url.IsCanonical(value))
  {
    Base64Url.AcceptedTexts(value);
    if Base64Url.Decode(value).Some? {
      Base64Url.EncodeDecode(value);
      var wire := ReadContextBytes(Base64Url.Decode(value).value);
      if wire.Some? { ValidationErrors(wire.value); }
    }
  }
}
