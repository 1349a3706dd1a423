/**
 Objects as serde reads and writes structs: members in declaration order with absent ones skipped on
 the way out; any order, no unknown key and no repeated key on the way in.
 */
module JsonObject {
  import opened Wrappers
  import opened Json
  import opened JsonLaws

  /** The fields of a struct in declaration order; `None` is skipped when serializing. */
  type Fields = seq<(string, Option<Json>)>

  function Build(fields: Fields): Members {
    if fields == [] then NoMembers
    else if fields[0].1.None? then Build(fields[1..])
    else Member(fields[0].0, fields[0].1.value, Build(fields[1..]))
  }

  function Lookup(m: Members, key: string): Option<Json> {
    match m
    case NoMembers => None
    case Member(k, value, rest) => if k == key then Some(value) else Lookup(rest, key)
  }

  predicate NoDuplicates(m: Members) {
    m.Member? ==> Lookup(m.rest, m.key).None? && NoDuplicates(m.rest)
  }

  predicate Known(m: Members, keys: seq<string>) {
    m.Member? ==> m.key in keys && Known(m.rest, keys)
  }

  /** What `deny_unknown_fields` and the duplicate-field check let through. */
  predicate WellKeyed(m: Members, keys: seq<string>) { NoDuplicates(m) && Known(m, keys) }

  function KeysOf(m: Members): seq<string> {
    match m case NoMembers => [] case Member(key, _, rest) => [key] + KeysOf(rest)
  }

  lemma {:induction false} FoundExactly(m: Members, key: string)
    ensures Lookup(m, key).Some? <==> key in KeysOf(m)
  {
    if m.NoMembers? {
    } else {
      FoundExactly(m.rest, key);
    }
  }

  predicate AllDifferent(keys: seq<string>) { forall i, j :: 0 <= i < j < |keys| ==> keys[i] != keys[j] }

  /** An object is accepted for a struct exactly when its keys are known and all different. */
  lemma {:induction false} WellKeyedExactly(m: Members, keys: seq<string>)
    ensures WellKeyed(m, keys) <==> AllDifferent(KeysOf(m)) && forall k :: k in KeysOf(m) ==> k in keys
  {
    if m.NoMembers? {
    } else {
      var rest := KeysOf(m.rest);
      WellKeyedExactly(m.rest, keys);
      FoundExactly(m.rest, m.key);
      assert KeysOf(m) == [m.key] + rest;
      if AllDifferent(KeysOf(m)) {
        forall i, j | 0 <= i < j < |rest| ensures rest[i] != rest[j] {
          assert KeysOf(m)[i + 1] == rest[i] && KeysOf(m)[j + 1] == rest[j];
        }
        forall i | 0 <= i < |rest| ensures rest[i] != m.key {
          assert KeysOf(m)[0] == m.key && KeysOf(m)[i + 1] == rest[i];
        }
      }
    }
  }

  predicate DistinctKeys(fields: Fields) {
    forall i, j :: 0 <= i < j < |fields| ==> fields[i].0 != fields[j].0
  }

  predicate KeysAmong(fields: Fields, keys: seq<string>) {
    forall i :: 0 <= i < |fields| ==> fields[i].0 in keys
  }

  // ----- Readers for the field types of the schemas -----

  function ReadString(o: Option<Json>): Option<string> {
    match o
    case Some(Str(s)) => Some(s)
    case _ => None
  }

  /** `Option<String>`: an absent member and `null` both read as `None`. */
  function ReadOptString(o: Option<Json>): Option<Option<string>> {
    match o
    case None => Some(None)
    case Some(Null) => Some(None)
    case Some(Str(s)) => Some(Some(s))
    case _ => None
  }

  /** `Option<u64>`: a larger number is not a u64 to serde_json. */
  function ReadOptU64(o: Option<Json>): Option<Option<u64>> {
    match o
    case None => Some(None)
    case Some(Null) => Some(None)
    case Some(Number(n)) => if n < 0x1_0000_0000_0000_0000 then Some(Some(n)) else None
    case _ => None
  }

  /** `u8` */
  function ReadU8(o: Option<Json>): Option<nat> {
    match o
    case Some(Number(n)) => if n < 256 then Some(n) else None
    case _ => None
  }

  function ReadStrings(items: Items): Option<seq<string>> {
    match items
    case NoItems => Some([])
    case Item(Str(s), tail) => (var rest :- ReadStrings(tail); Some([s] + rest))
    case Item(_, _) => None
  }

  function ReadList(o: Option<Json>): Option<seq<string>> {
    match o
    case Some(Arr(items)) => ReadStrings(items)
    case _ => None
  }

  /** `Vec<String>` under `#[serde(default)]`: absent reads as empty, `null` is refused. */
  function ReadDefaultList(o: Option<Json>): Option<seq<string>> {
    if o.None? then Some([]) else ReadList(o)
  }

  /** What each reader takes: absent and null are alike for an option, and only there. */
  lemma ReadersExactly(o: Option<Json>, s: string, n: nat)
    ensures ReadString(o) == Some(s) <==> o == Some(Str(s))
    ensures ReadOptString(o) == Some(None) <==> o == None || o == Some(Null)
    ensures ReadOptString(o) == Some(Some(s)) <==> o == Some(Str(s))
    ensures ReadOptU64(o) == Some(None) <==> o == None || o == Some(Null)
    ensures n < 0x1_0000_0000_0000_0000 ==> (ReadOptU64(o) == Some(Some(n)) <==> o == Some(Number(n)))
    ensures n >= 0x1_0000_0000_0000_0000 ==> ReadOptU64(Some(Number(n))) == None
    ensures ReadU8(o) == Some(n) <==> o == Some(Number(n)) && n <= 255
  {
  }

  lemma {:induction false} ReadStringsExactly(items: Items, list: seq<string>)
    ensures ReadStrings(items) == Some(list) <==> items == StringItems(list)
  {
    match items
    case NoItems =>
    case Item(head, tail) =>
      if list == [] {
      } else {
        ReadStringsExactly(tail, list[1..]);
        assert list == [list[0]] + list[1..];
        if ReadStrings(items) == Some(list) { assert ReadStrings(tail).value == list[1..]; }
      }
  }

  /** A list is read from an array of strings; under a default also from nothing, but not from null. */
  lemma ListsExactly(o: Option<Json>, list: seq<string>)
    ensures ReadList(o) == Some(list) <==> o == Some(WriteList(list))
    ensures ReadDefaultList(o) == Some(list) <==> o == Some(WriteList(list)) || (o == None && list == [])
  {
    if o.Some? && o.value.Arr? { ReadStringsExactly(o.value.items, list); }
  }

  // ----- Writers -----

  function StringItems(s: seq<string>): Items {
    if s == [] then NoItems else Item(Str(s[0]), StringItems(s[1..]))
  }

  function WriteList(s: seq<string>): Json { Arr(StringItems(s)) }

  function WriteOptString(o: Option<string>): Option<Json> {
    if o.None? then None else Some(Str(o.value))
  }

  function WriteOptU64(o: Option<u64>): Option<Json> {
    if o.None? then None else Some(Number(o.value))
  }

  function WriteNonEmpty(s: seq<string>): Option<Json> {
    if s == [] then None else Some(WriteList(s))
  }

  lemma {:induction false} ReadWrittenStrings(s: seq<string>)
    ensures ReadStrings(StringItems(s)) == Some(s)
  {
    if s == [] {
    } else {
      ReadWrittenStrings(s[1..]);
      assert [s[0]] + s[1..] == s;
    }
  }

  // ----- What was built is read back -----

  lemma {:induction false} BuildMissing(fields: Fields, key: string)
    requires forall i :: 0 <= i < |fields| ==> fields[i].0 != key
    ensures Lookup(Build(fields), key) == None
  {
    if fields == [] {
    } else {
      BuildMissing(fields[1..], key);
    }
  }

  lemma {:induction false} BuildLookup(fields: Fields, i: nat)
    requires DistinctKeys(fields) && i < |fields|
    ensures Lookup(Build(fields), fields[i].0) == fields[i].1
  {
    if i == 0 {
      BuildMissing(fields[1..], fields[0].0);
    } else {
      BuildLookup(fields[1..], i - 1);
    }
  }

  /** Every field of a struct is found under its own key in the object built from it. */
  lemma BuildLookups(fields: Fields)
    requires DistinctKeys(fields)
    ensures forall i :: 0 <= i < |fields| ==> Lookup(Build(fields), fields[i].0) == fields[i].1
  {
    forall i | 0 <= i < |fields| ensures Lookup(Build(fields), fields[i].0) == fields[i].1 {
      BuildLookup(fields, i);
    }
  }

  lemma {:induction false} BuildWellKeyed(fields: Fields, keys: seq<string>)
    requires DistinctKeys(fields) && KeysAmong(fields, keys)
    ensures WellKeyed(Build(fields), keys)
  {
    if fields == [] {
    } else {
      BuildWellKeyed(fields[1..], keys);
      BuildMissing(fields[1..], fields[0].0);
    }
  }

  // ----- The built object is the shortest one -----

  function Remove(m: Members, key: string): Members {
    match m
    case NoMembers => NoMembers
    case Member(k, value, rest) => if k == key then rest else Member(k, value, Remove(rest, key))
  }

  lemma {:induction false} RemoveSize(m: Members, key: string)
    requires Lookup(m, key).Some?
    ensures Size(PrintMembers(m))
            == 1 + Size(PrintMember(key, Lookup(m, key).value)) + Size(PrintMembers(Remove(m, key)))
  {
    PrintedMemberSizes(m.key, m.value, m.rest);
    if m.key != key {
      RemoveSize(m.rest, key);
      PrintedMemberSizes(m.key, m.value, Remove(m.rest, key));
    }
  }

  lemma {:induction false} RemoveKeepsOthers(m: Members, key: string, other: string)
    requires key != other
    ensures Lookup(Remove(m, key), other) == Lookup(m, other)
  {
    if m.NoMembers? || m.key == key {
    } else {
      RemoveKeepsOthers(m.rest, key, other);
    }
  }

  /** Each present field is also in `m`, with a value whose print is no shorter. */
  predicate Dominates(m: Members, fields: Fields) {
    forall i :: 0 <= i < |fields| && fields[i].1.Some? ==>
                  Lookup(m, fields[i].0).Some?
                  && Size(Print(fields[i].1.value)) <= Size(Print(Lookup(m, fields[i].0).value))
  }

  lemma {:induction false} BuildIsShortest(fields: Fields, m: Members)
    requires DistinctKeys(fields) && Dominates(m, fields)
    ensures Size(PrintMembers(Build(fields))) <= Size(PrintMembers(m))
  {
    if fields == [] {
      PrintedMemberSizes("", Null, NoMembers);
      if m.Member? { PrintedMemberSizes(m.key, m.value, m.rest); }
    } else if fields[0].1.None? {
      BuildIsShortest(fields[1..], m);
    } else {
      var (key, value) := (fields[0].0, fields[0].1.value);
      var others := Remove(m, key);
      RemoveSize(m, key);
      forall i | 1 <= i < |fields| ensures Lookup(others, fields[i].0) == Lookup(m, fields[i].0) {
        RemoveKeepsOthers(m, key, fields[i].0);
      }
      BuildIsShortest(fields[1..], others);
      PrintedMemberSizes(key, value, Build(fields[1..]));
      PrintedMemberSizes(key, Lookup(m, key).value, others);
    }
  }

  /** The object built from the fields prints no longer than any object they could be read from. */
  lemma BuildObjectIsShortest(fields: Fields, m: Members)
    requires DistinctKeys(fields) && Dominates(m, fields)
    ensures Size(Print(Obj(Build(fields)))) <= Size(Print(Obj(m)))
  {
    BuildIsShortest(fields, m);
    PrintedContainers(NoItems, m);
    PrintedContainers(NoItems, Build(fields));
    PrintedMemberSizes("", Null, NoMembers);
    if m.Member? { PrintedMemberSizes(m.key, m.value, m.rest); }
    if Build(fields).Member? {
      PrintedMemberSizes(Build(fields).key, Build(fields).value, Build(fields).rest);
    }
  }
}
