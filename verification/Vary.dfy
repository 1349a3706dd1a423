/** Merging `Origin` into the Vary field (section 12.5.5 of RFC 9110). */
module Vary {
  import opened Wrappers
  import opened Utf8
  import opened Text
  import opened Headers

  const WILDCARD := "*"

  /** How far reading has come: still listing tokens, or ended for good. */
  datatype Scan = Listed(tokens: seq<string>) | Wildcard | Undecodable

  function ScanList(tokens: seq<string>, list: seq<string>): Scan {
    if list == [] then Listed(tokens)
    else
      var scan, last := ScanList(tokens, list[..|list| - 1]), list[|list| - 1];
      if !scan.Listed? then scan
      else if last == WILDCARD then Wildcard
      else if ContainsFold(scan.tokens, last) then scan
      else Listed(scan.tokens + [last])
  }

  function ScanValues(values: seq<Value>): Scan {
    if values == [] then Listed([])
    else
      var scan, text := ScanValues(values[..|values| - 1]), Decode(values[|values| - 1]);
      if !scan.Listed? then scan
      else if text.None? then Undecodable
      else ScanList(scan.tokens, SplitCsv(text.value))
  }

  function WithOrigin(tokens: seq<string>): seq<string> {
    if ContainsFold(tokens, ORIGIN) then tokens else tokens + [ORIGIN]
  }

  /** The tokens of the merged field. */
  function MergedTokens(values: seq<Value>): seq<string> {
    match ScanValues(values)
    case Listed(tokens) => WithOrigin(tokens)
    case Wildcard => [WILDCARD]
    case Undecodable => [ORIGIN]
  }

  /** The single merged Vary value. */
  function MergedVary(values: seq<Value>): Value { Encode(Join(MergedTokens(values))) }

  // ----- The two implementations compute the same value -----

  lemma ScanListStep(tokens: seq<string>, list: seq<string>, i: nat)
    requires i < |list|
    ensures var scan := ScanList(tokens, list[..i]);
            ScanList(tokens, list[..i + 1])
            == if !scan.Listed? then scan
               else if list[i] == WILDCARD then Wildcard
               else if ContainsFold(scan.tokens, list[i]) then scan
               else Listed(scan.tokens + [list[i]])
  {
    assert list[..i + 1][..i] == list[..i];
  }

  lemma ScanValuesStep(values: seq<Value>, i: nat)
    requires i < |values|
    ensures var scan := ScanValues(values[..i]);
            ScanValues(values[..i + 1])
            == if !scan.Listed? then scan
               else if Decode(values[i]).None? then Undecodable
               else ScanList(scan.tokens, SplitCsv(Decode(values[i]).value))
  {
    assert values[..i + 1][..i] == values[..i];
  }

  lemma {:induction false} ScanListEnded(tokens: seq<string>, list: seq<string>, i: nat)
    requires i <= |list| && !ScanList(tokens, list[..i]).Listed?
    ensures ScanList(tokens, list) == ScanList(tokens, list[..i])
    decreases |list| - i
  {
    if i < |list| {
      ScanListStep(tokens, list, i);
      ScanListEnded(tokens, list, i + 1);
    } else {
      assert list[..i] == list;
    }
  }

  lemma {:induction false} ScanValuesEnded(values: seq<Value>, i: nat)
    requires i <= |values| && !ScanValues(values[..i]).Listed?
    ensures ScanValues(values) == ScanValues(values[..i])
    decreases |values| - i
  {
    if i < |values| {
      ScanValuesStep(values, i);
      ScanValuesEnded(values, i + 1);
    } else {
      assert values[..i] == values;
    }
  }

  /** The token loop: `*` ends everything, a token spelled before in any case is skipped. */
  method ReadTokens(tokens: seq<string>, list: seq<string>) returns (scan: Scan)
    ensures scan == ScanList(tokens, list)
  {
    var merged := tokens;
    for i := 0 to |list|
      invariant ScanList(tokens, list[..i]) == Listed(merged)
    {
      ScanListStep(tokens, list, i);
      if list[i] == WILDCARD {
        ScanListEnded(tokens, list, i + 1);
        return Wildcard;
      }
      var known := Mentions(merged, list[i]);
      if !known { merged := merged + [list[i]]; }
    }
    assert list[..|list|] == list;
    scan := Listed(merged);
  }

  /** One value: not UTF-8, or the token loop over its pieces. */
  method ReadValue(tokens: seq<string>, value: Value) returns (scan: Scan)
    ensures scan == if Decode(value).None? then Undecodable else ScanList(tokens, SplitCsv(Decode(value).value))
  {
    var text := Decode(value);
    if text.None? { return Undecodable; }
    scan := ReadTokens(tokens, SplitCsv(text.value));
  }

  lemma Advance(values: seq<Value>, i: nat, tokens: seq<string>)
    requires i < |values| && ScanValues(values[..i]) == Listed(tokens)
    ensures var text := Decode(values[i]);
            var scan := if text.None? then Undecodable else ScanList(tokens, SplitCsv(text.value));
            if scan.Listed? then ScanValues(values[..i + 1]) == scan else ScanValues(values) == scan
  {
    ScanValuesStep(values, i);
    if !ScanValues(values[..i + 1]).Listed? { ScanValuesEnded(values, i + 1); }
  }

  lemma ListedAtEnd(values: seq<Value>, tokens: seq<string>)
    requires ScanValues(values[..|values|]) == Listed(tokens)
    ensures MergedTokens(values) == WithOrigin(tokens)
  {
    assert values[..|values|] == values;
  }

  lemma UndecodableAtEnd(values: seq<Value>)
    requires ScanValues(values) == Undecodable
    ensures MergedTokens(values) == WithOrigin([])
  {
    assert [] + [ORIGIN] == [ORIGIN];
  }

  lemma WildcardAtEnd(values: seq<Value>)
    requires ScanValues(values) == Wildcard
    ensures MergedVary(values) == Encode(WILDCARD)
  {
  }

  lemma VaryIsLower()
    ensures Lower(VARY) == VARY
  {
  }

  /** `merged_vary_origin`: the merged value is returned. */
  method MergedVaryOrigin(headers: seq<Header>) returns (merged: Value)
    ensures merged == MergedVary(Get(View(headers), VARY))
  {
    VaryIsLower();
    HeaderValuesAreTheView(headers, VARY);
    var values := HeaderValues(headers, VARY);
    var tokens: seq<string> := [];
    var i := 0;
    while i < |values|
      invariant i <= |values| && ScanValues(values[..i]) == Listed(tokens)
    {
      var scan := ReadValue(tokens, values[i]);
      Advance(values, i, tokens);
      if scan.Undecodable? {
        tokens := [];
        UndecodableAtEnd(values);
        break;
      }
      if scan.Wildcard? {
        WildcardAtEnd(values);
        return Encode(WILDCARD);
      }
      tokens := scan.tokens;
      i := i + 1;
    }
    if i == |values| { ListedAtEnd(values, tokens); }
    var known := Mentions(tokens, ORIGIN);
    if !known { tokens := tokens + [ORIGIN]; }
    merged := Encode(Join(tokens));
  }

  /** `merge_vary_origin`: the list itself is rewritten, on every exit through `set_header`. */
  method MergeVaryOrigin(headers: seq<Header>) returns (rewritten: seq<Header>)
    ensures View(rewritten) == Put(View(headers), VARY, MergedVary(Get(View(headers), VARY)))
  {
    VaryIsLower();
    HeaderValuesAreTheView(headers, VARY);
    ViewSetHeader(headers, VARY, MergedVary(Get(View(headers), VARY)));
    var values := HeaderValues(headers, VARY);
    var tokens: seq<string> := [];
    var i := 0;
    while i < |values|
      invariant i <= |values| && ScanValues(values[..i]) == Listed(tokens)
    {
      var scan := ReadValue(tokens, values[i]);
      Advance(values, i, tokens);
      if scan.Undecodable? {
        tokens := [];
        UndecodableAtEnd(values);
        break;
      }
      if scan.Wildcard? {
        WildcardAtEnd(values);
        return SetHeader(headers, VARY, Encode(WILDCARD));
      }
      tokens := scan.tokens;
      i := i + 1;
    }
    if i == |values| { ListedAtEnd(values, tokens); }
    var known := Mentions(tokens, ORIGIN);
    if !known { tokens := tokens + [ORIGIN]; }
    rewritten := SetHeader(headers, VARY, Encode(Join(tokens)));
  }

  // ----- What the merge keeps -----

  /** UTF-8 text without a wildcard token. */
  predicate IsPlain(value: Value) {
    Decode(value).Some? && "*" !in SplitCsv(Decode(value).value)
  }

  predicate AllPlain(values: seq<Value>) { forall i :: 0 <= i < |values| ==> IsPlain(values[i]) }

  /** The tokens of the readable values, in order and with repetitions. */
  function AllTokens(values: seq<Value>): seq<string> {
    if values == [] then []
    else
      var text := Decode(values[|values| - 1]);
      AllTokens(values[..|values| - 1]) + (if text.None? then [] else SplitCsv(text.value))
  }

  lemma {:induction false} FirstSpellingsExtend(tokens: seq<string>, list: seq<string>)
    requires WILDCARD !in list
    ensures ScanList(FirstSpellings(tokens), list) == Listed(FirstSpellings(tokens + list))
  {
    if list == [] {
      assert tokens + list == tokens;
    } else {
      var front, last := list[..|list| - 1], list[|list| - 1];
      FirstSpellingsExtend(tokens, front);
      assert (tokens + list)[..|tokens + list| - 1] == tokens + front;
      assert (tokens + list)[|tokens + list| - 1] == last && last in list;
    }
  }

  /** Without wildcards and unreadable values, the first spelling of every token, in order. */
  lemma {:induction false} PlainValuesAreListed(values: seq<Value>)
    requires AllPlain(values)
    ensures ScanValues(values) == Listed(FirstSpellings(AllTokens(values)))
  {
    if values == [] {
    } else {
      var front, last := values[..|values| - 1], values[|values| - 1];
      PlainValuesAreListed(front);
      assert IsPlain(last);
      FirstSpellingsExtend(AllTokens(front), SplitCsv(Decode(last).value));
    }
  }

  /** Then the merged field lists them, with Origin at the end unless it is among them. */
  lemma PlainMergeExactly(values: seq<Value>)
    requires AllPlain(values)
    ensures var first := FirstSpellings(AllTokens(values));
            MergedTokens(values)
            == first + (if exists t :: t in first && EqIgnoreCase(t, "Origin") then [] else ["Origin"])
  {
    PlainValuesAreListed(values);
    var first := FirstSpellings(AllTokens(values));
    if ContainsFold(first, ORIGIN) {
      var i :| 0 <= i < |first| && EqIgnoreCase(first[i], ORIGIN);
      assert first[i] in first;
      assert first + [] == first;
    }
  }

  lemma {:induction false} WildcardEnds(tokens: seq<string>, list: seq<string>)
    requires WILDCARD in list
    ensures ScanList(tokens, list) == Wildcard
  {
    var front, last := list[..|list| - 1], list[|list| - 1];
    if WILDCARD in front {
      WildcardEnds(tokens, front);
    } else {
      assert list == front + [last];
      NoWildcardListed(tokens, front);
    }
  }

  lemma {:induction false} NoWildcardListed(tokens: seq<string>, list: seq<string>)
    requires WILDCARD !in list
    ensures ScanList(tokens, list).Listed?
  {
    if list == [] {
    } else {
      NoWildcardListed(tokens, list[..|list| - 1]);
      assert list[|list| - 1] in list;
    }
  }

  /** The first value that is not plain decides: unreadable collapses to `Origin`, a wildcard to `*`. */
  lemma FirstOddValueDecides(values: seq<Value>, k: nat)
    requires k < |values| && AllPlain(values[..k]) && !IsPlain(values[k])
    ensures MergedTokens(values) == if Decode(values[k]).None? then ["Origin"] else ["*"]
  {
    PlainValuesAreListed(values[..k]);
    ScanValuesStep(values, k);
    if Decode(values[k]).Some? {
      WildcardEnds(FirstSpellings(AllTokens(values[..k])), SplitCsv(Decode(values[k]).value));
    }
    ScanValuesEnded(values, k + 1);
  }

  lemma {:induction false} AllTokensAreListTokens(values: seq<Value>)
    ensures AllListTokens(AllTokens(values))
  {
    if values == [] {
    } else {
      AllTokensAreListTokens(values[..|values| - 1]);
      var text := Decode(values[|values| - 1]);
      if text.Some? { SplitCsvYieldsListTokens(text.value); }
    }
  }

  lemma {:induction false} FirstOddValue(values: seq<Value>) returns (k: nat)
    requires !AllPlain(values)
    ensures k < |values| && AllPlain(values[..k]) && !IsPlain(values[k])
  {
    if AllPlain(values[..|values| - 1]) {
      k := |values| - 1;
      assert forall i :: 0 <= i < k ==> values[i] == values[..k][i];
    } else {
      k := FirstOddValue(values[..|values| - 1]);
      assert values[..|values| - 1][..k] == values[..k];
    }
  }

  lemma OriginIsAToken()
    ensures IsListToken(ORIGIN) && IsListToken(WILDCARD)
    ensures !EqIgnoreCase(ORIGIN, WILDCARD)
  {
    assert |Lower(ORIGIN)| == 6 && |Lower(WILDCARD)| == 1;
  }

  /** The merged tokens are list tokens, distinct ignoring case, with `Origin` among them or a lone `*`. */
  lemma MergedTokensShape(values: seq<Value>)
    ensures AllListTokens(MergedTokens(values)) && DistinctFold(MergedTokens(values))
    ensures MergedTokens(values) == ["*"]
            || ("*" !in MergedTokens(values) && ContainsFold(MergedTokens(values), "Origin"))
  {
    OriginIsAToken();
    if AllPlain(values) {
      PlainValuesAreListed(values);
      var all := AllTokens(values);
      AllTokensAreListTokens(values);
      FirstSpellingsCover(all);
      PlainHasNoWildcard(values);
      var tokens := FirstSpellings(all);
      if !ContainsFold(tokens, ORIGIN) { assert (tokens + [ORIGIN])[|tokens|] == ORIGIN; }
    } else {
      var k := FirstOddValue(values);
      FirstOddValueDecides(values, k);
      assert [ORIGIN][0] == ORIGIN;
    }
  }

  lemma {:induction false} PlainHasNoWildcard(values: seq<Value>)
    requires AllPlain(values)
    ensures WILDCARD !in AllTokens(values)
  {
    if values == [] {
    } else {
      PlainHasNoWildcard(values[..|values| - 1]);
      assert IsPlain(values[|values| - 1]);
    }
  }

  /** The merged field reads back as its own token list: splitting and trimming undo the join. */
  lemma MergedReadsBack(values: seq<Value>)
    ensures Decode(MergedVary(values)).Some?
    ensures SplitCsv(Decode(MergedVary(values)).value) == MergedTokens(values)
  {
    MergedTokensShape(values);
    DecodeEncode(Join(MergedTokens(values)));
    SplitCsvOfJoin(MergedTokens(values));
  }

  /** Merging a merged field again changes nothing. */
  lemma MergeIsIdempotent(values: seq<Value>)
    ensures MergedVary([MergedVary(values)]) == MergedVary(values)
  {
    var again, tokens := [MergedVary(values)], MergedTokens(values);
    MergedReadsBack(values);
    MergedTokensShape(values);
    if tokens == [WILDCARD] {
      assert again[..0] == [] && !IsPlain(again[0]) by { assert tokens[0] == WILDCARD; }
      FirstOddValueDecides(again, 0);
    } else {
      assert AllPlain(again);
      PlainValuesAreListed(again);
      assert again[..0] == [];
      assert AllTokens(again) == [] + tokens == tokens;
      FirstSpellingsOfDistinct(tokens);
    }
  }

  /** Some token of the merged field equals `token`, ignoring case. */
  predicate Kept(values: seq<Value>, token: string) {
    MergedTokens(values) == ["*"] || ContainsFold(MergedTokens(values), token)
  }

  /** An unreadable value is met before any wildcard. */
  predicate Unreadable(values: seq<Value>) {
    exists k :: 0 <= k < |values| && AllPlain(values[..k]) && Decode(values[k]).None?
  }

  /**
   When the existing cache keys survive the merge, both ways: always, unless a value that is not
   UTF-8 comes before any wildcard; then every token other than Origin is lost.
   */
  lemma CacheKeysSurviveExactly(values: seq<Value>)
    ensures (forall t :: t in AllTokens(values) ==> Kept(values, t))
            <==> !Unreadable(values) || forall t :: t in AllTokens(values) ==> EqIgnoreCase(t, "Origin")
  {
    if AllPlain(values) {
      PlainValuesAreListed(values);
      forall t | t in AllTokens(values) ensures Kept(values, t) {
        FirstSpellingsCover(AllTokens(values));
        SurvivesFolding(AllTokens(values), t);
      }
      assert !Unreadable(values) by {
        forall k | 0 <= k < |values| ensures Decode(values[k]).Some? { assert IsPlain(values[k]); }
      }
    } else {
      var k := FirstOddValue(values);
      FirstOddValueDecides(values, k);
      if Decode(values[k]).None? {
        assert Unreadable(values);
        forall t ensures Kept(values, t) <==> EqIgnoreCase(t, ORIGIN) {
          assert [ORIGIN][0] == ORIGIN;
        }
      } else {
        if Unreadable(values) {
          var j :| 0 <= j < |values| && AllPlain(values[..j]) && Decode(values[j]).None?;
          FirstOddValueIsUnique(values, k, j);
        }
      }
    }
  }

  lemma AcceptIsPlain()
    ensures IsFieldValue(Encode("Accept")) && IsPlain(Encode("Accept"))
    ensures AllTokens([Encode("Accept")]) == ["Accept"]
  {
    EncodeAscii("Accept");
    DecodeEncode("Accept");
    assert Join(["Accept"]) == "Accept";
    SplitCsvOfJoin(["Accept"]);
    var values := [Encode("Accept")];
    assert values[..0] == [] && AllTokens(values) == [] + ["Accept"];
  }

  /** Any readable value loses its tokens to an unreadable one behind it. */
  lemma UnreadableBehind(first: Value)
    requires IsPlain(first)
    ensures Unreadable([first, [255]]) && AllTokens([first, [255]]) == AllTokens([first])
    ensures MergedTokens([first, [255]]) == [ORIGIN]
  {
    var values: seq<Value> := [first, [255]];
    assert values[..1] == [first];
    assert AllPlain(values[..1]) && Decode(values[1]).None?;
    assert AllTokens(values) == AllTokens([first]) + [];
    FirstOddValueDecides(values, 1);
  }

  /** The loss is real: these are legal field values, and `Accept` does not survive. */
  lemma AcceptIsLost()
    ensures IsFieldValue(Encode("Accept")) && IsFieldValue([255])
    ensures var values: seq<Value> := [Encode("Accept"), [255]];
            && Unreadable(values) && "Accept" in AllTokens(values)
            && MergedTokens(values) == [ORIGIN] && !Kept(values, "Accept")
  {
    AcceptIsPlain();
    UnreadableBehind(Encode("Accept"));
    assert !EqIgnoreCase("Accept", ORIGIN) by { assert Lower("Accept")[0] != Lower(ORIGIN)[0]; }
  }

  /** A wildcard does not always win: after an unreadable value the merged field is `Origin`. */
  lemma WildcardIsLost()
    ensures var values: seq<Value> := [[255], Encode("*")];
            && AllFieldValues(values)
            && (exists i :: 0 <= i < |values| && Decode(values[i]) == Some("*"))
            && MergedTokens(values) == ["Origin"] && MergedVary(values) == Encode("Origin")
  {
    var values: seq<Value> := [[255], Encode(WILDCARD)];
    EncodeAscii(WILDCARD);
    DecodeEncode(WILDCARD);
    assert Decode(values[1]) == Some(WILDCARD);
    assert Decode(values[0]).None?;
    FirstOddValueDecides(values, 0);
    assert Join([ORIGIN]) == ORIGIN;
  }

  lemma PlainAt(values: seq<Value>, k: nat, j: nat)
    requires j < k <= |values| && AllPlain(values[..k])
    ensures IsPlain(values[j])
  {
    assert values[..k][j] == values[j];
  }

  lemma FirstOddValueIsUnique(values: seq<Value>, k: nat, j: nat)
    requires k < |values| && AllPlain(values[..k]) && !IsPlain(values[k])
    requires j < |values| && AllPlain(values[..j]) && !IsPlain(values[j])
    ensures j == k
  {
    if j < k { PlainAt(values, k, j); } else if k < j { PlainAt(values, j, k); }
  }

  lemma SurvivesFolding(all: seq<string>, token: string)
    requires token in all
    ensures ContainsFold(FirstSpellings(all), token) && ContainsFold(WithOrigin(FirstSpellings(all)), token)
  {
    var first := FirstSpellings(all);
    FirstSpellingsCover(all);
    var i :| 0 <= i < |all| && all[i] == token;
    assert Lower(all[i]) in LowerNames(all);
    var j :| 0 <= j < |first| && Lower(first[j]) == Lower(token);
    assert WithOrigin(first)[j] == first[j];
  }
}
