/**
 Header lists and the host's header resource. A list means, for each case-insensitive name, the
 ordered values it holds; that meaning is a `HeaderMap`.
 */
module Headers {
  import opened Wrappers
  import opened Utf8
  import opened Text

  type Value = seq<byte>

  datatype Header = Header(name: string, value: Value)

  /** The prefix of the names reserved for trusted metadata, and the one such name in use. */
  const RESERVED := "x-wasi-auth-"
  const AUTH_CONTEXT := "x-wasi-auth-context"

  /** The field that names what a response depends on, and the token CORS adds to it. */
  const VARY := "vary"
  const ORIGIN := "Origin"

  /** `HeaderValue::from_bytes` */
  predicate IsFieldValue(v: Value) { forall i :: 0 <= i < |v| ==> (32 <= v[i] && v[i] != 127) || v[i] == 9 }

  /** A value is malformed exactly when it holds a control byte other than a tab. */
  lemma MalformedExactly(v: Value)
    ensures !IsFieldValue(v) <==> exists i :: 0 <= i < |v| && (v[i] < 9 || 9 < v[i] < 32 || v[i] == 127)
  {
  }

  predicate AllFieldValues(values: seq<Value>) { forall i :: 0 <= i < |values| ==> IsFieldValue(values[i]) }

  /** Ordered values by lower-case name; a name that is present has at least one value. */
  type HeaderMap = map<string, seq<Value>>

  /** A byte-string literal. */
  function Bytes(s: string): Value { seq(|s|, i requires 0 <= i < |s| => s[i] as int % 256) }

  predicate NoEmptyLists(m: HeaderMap) { forall k :: k in m ==> m[k] != [] }

  function Get(m: HeaderMap, key: string): seq<Value> { if key in m then m[key] else [] }

  /** `HeaderMap::append` */
  function Add(m: HeaderMap, name: string, value: Value): HeaderMap {
    m[Lower(name) := Get(m, Lower(name)) + [value]]
  }

  /** `HeaderMap::insert` */
  function Put(m: HeaderMap, name: string, value: Value): HeaderMap { m[Lower(name) := [value]] }

  /** What a list means. */
  function View(h: seq<Header>): HeaderMap {
    if h == [] then map[] else Add(View(h[..|h| - 1]), h[|h| - 1].name, h[|h| - 1].value)
  }

  lemma ViewPush(h: seq<Header>, name: string, value: Value)
    ensures View(h + [Header(name, value)]) == Add(View(h), name, value)
  {
    assert (h + [Header(name, value)])[..|h|] == h;
  }

  lemma {:induction false} ViewHasNoEmptyLists(h: seq<Header>)
    ensures NoEmptyLists(View(h))
  {
    if h == [] {
    } else {
      ViewHasNoEmptyLists(h[..|h| - 1]);
    }
  }

  function Names(h: seq<Header>): (r: seq<string>)
    ensures |r| == |h|
  {
    seq(|h|, i requires 0 <= i < |h| => h[i].name)
  }

  /** The case-insensitive names in a list of names. */
  function LowerNames(names: seq<string>): set<string> {
    set i | 0 <= i < |names| :: Lower(names[i])
  }

  lemma LowerNamesPush(names: seq<string>, name: string)
    ensures LowerNames(names + [name]) == LowerNames(names) + {Lower(name)}
  {
    var all := names + [name];
    forall k | k in LowerNames(names) + {Lower(name)} ensures k in LowerNames(all) {
      if k == Lower(name) { assert all[|names|] == name; }
      else { var i :| 0 <= i < |names| && k == Lower(names[i]); assert all[i] == names[i]; }
    }
    forall k | k in LowerNames(all) ensures k in LowerNames(names) + {Lower(name)} {
      var i :| 0 <= i < |all| && k == Lower(all[i]);
      assert i < |names| ==> all[i] == names[i];
    }
  }

  lemma LowerNamesStep(names: seq<string>, i: nat)
    requires i < |names|
    ensures LowerNames(names[..i + 1]) == LowerNames(names[..i]) + {Lower(names[i])}
  {
    LowerNamesPush(names[..i], names[i]);
    assert names[..i + 1] == names[..i] + [names[i]];
  }

  lemma {:induction false} ViewKeys(h: seq<Header>)
    ensures View(h).Keys == LowerNames(Names(h))
  {
    if h == [] {
    } else {
      var front, last := h[..|h| - 1], h[|h| - 1];
      ViewKeys(front);
      LowerNamesPush(Names(front), last.name);
      assert Names(h) == Names(front) + [last.name];
    }
  }

  // ----- List operations of the component support library -----

  /** `header_values` */
  function HeaderValues(h: seq<Header>, name: string): seq<Value> {
    if h == [] then []
    else
      var front, last := HeaderValues(h[..|h| - 1], name), h[|h| - 1];
      if EqIgnoreCase(last.name, name) then front + [last.value] else front
  }

  lemma {:induction false} HeaderValuesAreTheView(h: seq<Header>, name: string)
    ensures HeaderValues(h, name) == Get(View(h), Lower(name))
  {
    if h == [] {
    } else {
      HeaderValuesAreTheView(h[..|h| - 1], name);
    }
  }

  /** `single_header_value` */
  function SingleHeaderValue(h: seq<Header>, name: string): Option<Value> {
    var values := HeaderValues(h, name);
    if |values| == 1 then Some(values[0]) else None
  }

  /** `remove_header` */
  function RemoveHeader(h: seq<Header>, name: string): seq<Header> {
    if h == [] then []
    else
      var front, last := RemoveHeader(h[..|h| - 1], name), h[|h| - 1];
      if EqIgnoreCase(last.name, name) then front else front + [last]
  }

  lemma RemoveAfterAdd(m: HeaderMap, name: string, value: Value, key: string)
    ensures Add(m, name, value) - {key}
            == if Lower(name) == key then m - {key} else Add(m - {key}, name, value)
  {
  }

  lemma {:induction false} ViewRemoveHeader(h: seq<Header>, name: string)
    ensures View(RemoveHeader(h, name)) == View(h) - {Lower(name)}
  {
    if h == [] {
      assert View(h) - {Lower(name)} == map[];
    } else {
      var front, last := h[..|h| - 1], h[|h| - 1];
      ViewRemoveHeader(front, name);
      ViewPush(RemoveHeader(front, name), last.name, last.value);
      RemoveAfterAdd(View(front), last.name, last.value, Lower(name));
    }
  }

  /** `name.get(..prefix.len())` equal to the prefix, ignoring case. */
  predicate HasPrefix(name: string, prefix: string) {
    |name| >= |prefix| && EqIgnoreCase(name[..|prefix|], prefix)
  }

  lemma HasPrefixLower(name: string, prefix: string)
    ensures HasPrefix(Lower(name), prefix) == HasPrefix(name, prefix)
  {
    if |name| >= |prefix| {
      assert Lower(name)[..|prefix|] == Lower(name[..|prefix|]);
      LowerIdempotent(name[..|prefix|]);
    }
  }

  /** Comparing the first characters is comparing the lower-case names. */
  lemma HasPrefixExactly(name: string, prefix: string)
    ensures HasPrefix(name, prefix) <==> Lower(prefix) <= Lower(name)
  {
    if |name| >= |prefix| { assert Lower(name)[..|prefix|] == Lower(name[..|prefix|]); }
  }

  /** `remove_headers_with_prefix` */
  function RemoveHeadersWithPrefix(h: seq<Header>, prefix: string): seq<Header> {
    if h == [] then []
    else
      var front, last := RemoveHeadersWithPrefix(h[..|h| - 1], prefix), h[|h| - 1];
      if HasPrefix(last.name, prefix) then front else front + [last]
  }

  function WithoutPrefix(m: HeaderMap, prefix: string): HeaderMap {
    map k | k in m && !HasPrefix(k, prefix) :: m[k]
  }

  /** Without the prefix, name by name. */
  lemma WithoutPrefixByName(m: HeaderMap, prefix: string, k: string)
    ensures Get(WithoutPrefix(m, prefix), k) == if Lower(prefix) <= Lower(k) then [] else Get(m, k)
  {
    HasPrefixExactly(k, prefix);
  }

  /** The list operation by name: every name that begins with the prefix in any case is emptied, no other. */
  lemma RemovedByPrefix(h: seq<Header>, prefix: string, k: string)
    ensures Get(View(RemoveHeadersWithPrefix(h, prefix)), k)
            == if Lower(prefix) <= Lower(k) then [] else Get(View(h), k)
  {
    ViewRemovePrefix(h, prefix);
    WithoutPrefixByName(View(h), prefix, k);
  }

  lemma {:induction false} ViewRemovePrefix(h: seq<Header>, prefix: string)
    ensures View(RemoveHeadersWithPrefix(h, prefix)) == WithoutPrefix(View(h), prefix)
  {
    if h == [] {
    } else {
      var front, last := h[..|h| - 1], h[|h| - 1];
      ViewRemovePrefix(front, prefix);
      ViewPush(RemoveHeadersWithPrefix(front, prefix), last.name, last.value);
      HasPrefixLower(last.name, prefix);
    }
  }

  /** `set_header` */
  function SetHeader(h: seq<Header>, name: string, value: Value): seq<Header> {
    RemoveHeader(h, name) + [Header(Lower(name), value)]
  }

  lemma ViewSetHeader(h: seq<Header>, name: string, value: Value)
    ensures View(SetHeader(h, name, value)) == Put(View(h), name, value)
  {
    ViewRemoveHeader(h, name);
    ViewPush(RemoveHeader(h, name), Lower(name), value);
    LowerIdempotent(name);
    assert Get(View(h) - {Lower(name)}, Lower(name)) == [];
    assert [] + [value] == [value];
    assert (View(h) - {Lower(name)})[Lower(name) := [value]] == View(h)[Lower(name) := [value]];
  }

  lemma AddToUnion(m: HeaderMap, n: HeaderMap, name: string, value: Value)
    requires Lower(name) !in m
    ensures Add(m + n, name, value) == m + Add(n, name, value)
  {
  }

  lemma {:induction false} ViewConcat(h: seq<Header>, g: seq<Header>)
    requires View(h).Keys !! View(g).Keys
    ensures View(h + g) == View(h) + View(g)
  {
    if g == [] {
      assert h + g == h;
      assert View(h) + map[] == View(h);
    } else {
      var front, last := g[..|g| - 1], g[|g| - 1];
      ViewConcat(h, front);
      assert h + g == h + front + [last];
      ViewPush(h + front, last.name, last.value);
      AddToUnion(View(h), View(front), last.name, last.value);
    }
  }

  lemma ReplaceKey(m: HeaderMap, key: string, values: seq<Value>)
    ensures (m - {key}) + map[key := values] == m[key := values]
  {
  }

  /** One field per value, all under one name. */
  function Repeated(name: string, values: seq<Value>): seq<Header> {
    seq(|values|, i requires 0 <= i < |values| => Header(name, values[i]))
  }

  lemma {:induction false} ViewRepeated(name: string, values: seq<Value>)
    ensures View(Repeated(name, values)) == if values == [] then map[] else map[Lower(name) := values]
  {
    if values == [] {
    } else {
      var front, last := values[..|values| - 1], values[|values| - 1];
      ViewRepeated(name, front);
      assert Repeated(name, values) == Repeated(name, front) + [Header(name, last)];
      ViewPush(Repeated(name, front), name, last);
      assert front + [last] == values;
      assert Get(View(Repeated(name, front)), Lower(name)) == front;
    }
  }

  // ----- First occurrences, ignoring case -----

  predicate ContainsFold(names: seq<string>, name: string) {
    exists i :: 0 <= i < |names| && EqIgnoreCase(names[i], name)
  }

  /** The first spelling of each name, in order. */
  function FirstSpellings(names: seq<string>): seq<string> {
    if names == [] then []
    else
      var front, last := FirstSpellings(names[..|names| - 1]), names[|names| - 1];
      if ContainsFold(front, last) then front else front + [last]
  }

  predicate DistinctFold(names: seq<string>) {
    forall i, j :: 0 <= i < j < |names| ==> !EqIgnoreCase(names[i], names[j])
  }

  lemma {:induction false} FirstSpellingsCover(names: seq<string>)
    ensures DistinctFold(FirstSpellings(names))
    ensures LowerNames(FirstSpellings(names)) == LowerNames(names)
    ensures forall s :: s in FirstSpellings(names) ==> s in names
  {
    if names == [] {
    } else {
      var front, last := names[..|names| - 1], names[|names| - 1];
      FirstSpellingsCover(front);
      LowerNamesPush(front, last);
      LowerNamesPush(FirstSpellings(front), last);
      assert names == front + [last];
    }
  }

  lemma {:induction false} FirstSpellingsOfDistinct(names: seq<string>)
    requires DistinctFold(names)
    ensures FirstSpellings(names) == names
  {
    if names == [] {
    } else {
      FirstSpellingsOfDistinct(names[..|names| - 1]);
    }
  }

  lemma FirstSpellingsStep(names: seq<string>, i: nat)
    requires i < |names|
    ensures FirstSpellings(names[..i + 1])
            == if ContainsFold(FirstSpellings(names[..i]), names[i]) then FirstSpellings(names[..i])
               else FirstSpellings(names[..i]) + [names[i]]
  {
    assert names[..i + 1][..i] == names[..i];
  }

  /** `any(|existing| existing.eq_ignore_ascii_case(name))` */
  method Mentions(names: seq<string>, name: string) returns (found: bool)
    ensures found <==> ContainsFold(names, name)
  {
    found := false;
    for i := 0 to |names|
      invariant !found && !ContainsFold(names[..i], name)
    {
      if EqIgnoreCase(names[i], name) { return true; }
    }
    assert names[..|names|] == names;
  }

  /** `unique_names`, and with the names of a list `unique_header_names` and `unique_replacement_names`. */
  method UniqueNames(names: seq<string>) returns (unique: seq<string>)
    ensures unique == FirstSpellings(names)
    ensures DistinctFold(unique) && LowerNames(unique) == LowerNames(names)
  {
    unique := [];
    for i := 0 to |names|
      invariant unique == FirstSpellings(names[..i])
    {
      FirstSpellingsStep(names, i);
      var known := Mentions(unique, names[i]);
      if !known { unique := unique + [names[i]]; }
    }
    assert names[..|names|] == names;
    FirstSpellingsCover(names);
  }

  // ----- The host resource -----

  /**
   The `fields` resource. Its operations promise only what the interface definition does: the values
   under each case-insensitive name. `touched` records the names that were operated on.
   */
  class Fields {
    var entries: seq<Header>
    ghost var touched: set<string>

    constructor FromList(list: seq<Header>)
      ensures entries == list && touched == {}
    {
      entries := list;
      touched := {};
    }

    ghost function Contents(): HeaderMap reads this { View(entries) }

    method CopyAll() returns (list: seq<Header>)
      ensures View(list) == Contents()
    {
      list := entries;
    }

    method Delete(name: string)
      modifies this
      ensures Contents() == old(Contents()) - {Lower(name)}
      ensures touched == old(touched) + {Lower(name)}
    {
      ViewRemoveHeader(entries, name);
      entries := RemoveHeader(entries, name);
      touched := touched + {Lower(name)};
    }

    method Append(name: string, value: Value)
      modifies this
      ensures Contents() == Add(old(Contents()), name, value)
      ensures touched == old(touched) + {Lower(name)}
    {
      ViewPush(entries, name, value);
      entries := entries + [Header(name, value)];
      touched := touched + {Lower(name)};
    }

    /** Without values this is a deletion. */
    method Set(name: string, values: seq<Value>)
      modifies this
      ensures Contents()
              == if values == [] then old(Contents()) - {Lower(name)} else old(Contents())[Lower(name) := values]
      ensures touched == old(touched) + {Lower(name)}
    {
      if values == [] {
        Delete(name);
        return;
      }
      ViewRemoveHeader(entries, name);
      ViewRepeated(name, values);
      ViewConcat(RemoveHeader(entries, name), Repeated(name, values));
      ReplaceKey(View(entries), Lower(name), values);
      entries := RemoveHeader(entries, name) + Repeated(name, values);
      touched := touched + {Lower(name)};
    }
  }
}
