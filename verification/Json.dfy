/**
 The part of JSON (RFC 8259) that can reach a struct of the wire schemas: null, unsigned integers,
 strings, arrays and objects. Any other value (a boolean, a negative or fractional number) makes the
 deserializers fail wherever it stands, so the parser refuses it as well.
 */
module Json {
  import opened Wrappers
  import opened Text

  datatype Json =
    | Null
    | Number(n: nat)
    | Str(s: string)
    | Arr(items: Items)
    | Obj(members: Members)

  datatype Items = NoItems | Item(head: Json, tail: Items)

  datatype Members = NoMembers | Member(key: string, value: Json, rest: Members)

  // ----- The compact printer of serde_json::to_vec -----

  function Digit(d: nat): char requires d < 10 { ('0' as int + d) as char }

  function PrintNat(n: nat): (s: string)
    ensures |s| >= 1
  {
    if n < 10 then [Digit(n)] else PrintNat(n / 10) + [Digit(n % 10)]
  }

  function EscapeChar(c: char): string {
    if c == '\"' then "\\\""
    else if c == '\\' then "\\\\"
    else if c == 8 as char then "\\b"
    else if c == 9 as char then "\\t"
    else if c == 10 as char then "\\n"
    else if c == 12 as char then "\\f"
    else if c == 13 as char then "\\r"
    else if c < 32 as char then "\\u00" + [HexDigit(c as int / 16), HexDigit(c as int % 16)]
    else [c]
  }

  /** The characters of a string, escaped, and the closing quote. */
  function PrintChars(s: string): string {
    if s == "" then "\"" else EscapeChar(s[0]) + PrintChars(s[1..])
  }

  function Print(j: Json): string
    decreases j, 0
  {
    match j
    case Null => "null"
    case Number(n) => PrintNat(n)
    case Str(s) => "\"" + PrintChars(s)
    case Arr(NoItems) => "[]"
    case Arr(Item(head, tail)) => "[" + Print(head) + PrintItems(tail)
    case Obj(NoMembers) => "{}"
    case Obj(Member(key, value, rest)) => "{" + PrintMember(key, value) + PrintMembers(rest)
  }

  function PrintMember(key: string, value: Json): string
    decreases value, 1
  {
    "\"" + PrintChars(key) + ":" + Print(value)
  }

  /** What follows the first item, up to the closing bracket. */
  function PrintItems(items: Items): (s: string)
    ensures s != "" && (s[0] == ',' || s[0] == ']')
  {
    match items
    case NoItems => "]"
    case Item(head, tail) => "," + Print(head) + PrintItems(tail)
  }

  function PrintMembers(members: Members): (s: string)
    ensures s != "" && (s[0] == ',' || s[0] == '}')
  {
    match members
    case NoMembers => "}"
    case Member(key, value, rest) => "," + PrintMember(key, value) + PrintMembers(rest)
  }

  // ----- The parser of serde_json::from_slice -----

  predicate IsDigit(c: char) { '0' <= c <= '9' }

  predicate IsSpace(c: char) { c == ' ' || c == '\t' || c == '\n' || c == '\r' }

  function SkipSpace(s: string): (t: string)
    ensures |t| <= |s|
    ensures t != "" ==> !IsSpace(t[0])
  {
    if s != "" && IsSpace(s[0]) then SkipSpace(s[1..]) else s
  }

  function DigitRun(s: string): (n: nat)
    ensures n <= |s|
    ensures forall i :: 0 <= i < n ==> IsDigit(s[i])
    ensures n < |s| ==> !IsDigit(s[n])
  {
    if s != "" && IsDigit(s[0]) then 1 + DigitRun(s[1..]) else 0
  }

  function NatOf(ds: string): nat
    requires forall i :: 0 <= i < |ds| ==> IsDigit(ds[i])
  {
    if ds == "" then 0
    else
      var last := ds[|ds| - 1];
      assert IsDigit(last);
      NatOf(ds[..|ds| - 1]) * 10 + (last as int - '0' as int)
  }

  /** Unsigned integers only: no leading zero, no fraction, no exponent. */
  function ParseNumber(s: string): (r: Option<(nat, string)>)
    ensures r.Some? ==> |r.value.1| < |s|
  {
    var n := DigitRun(s);
    if n == 0 || (n > 1 && s[0] == '0') then None
    else if n < |s| && (s[n] == '.' || s[n] == 'e' || s[n] == 'E') then None
    else Some((NatOf(s[..n]), s[n..]))
  }

  /** Four hexadecimal digits, or -1. */
  function Hex4(s: string): (v: int)
    ensures -1 <= v < 65536
    ensures v >= 0 ==> |s| >= 4
  {
    if |s| < 4 || HexValue(s[0]) < 0 || HexValue(s[1]) < 0 || HexValue(s[2]) < 0 || HexValue(s[3]) < 0 then -1
    else ((HexValue(s[0]) * 16 + HexValue(s[1])) * 16 + HexValue(s[2])) * 16 + HexValue(s[3])
  }

  /** A \u escape after the `u`: one scalar value, or a surrogate pair. */
  function ParseUnicode(s: string): (r: Option<(char, string)>)
    ensures r.Some? ==> |r.value.1| < |s|
  {
    var high := Hex4(s);
    if high < 0 || 0xDC00 <= high < 0xE000 then None
    else if high < 0xD800 || 0xE000 <= high then Some((high as char, s[4..]))
    else if |s| < 6 || s[4] != '\\' || s[5] != 'u' then None
    else
      var low := Hex4(s[6..]);
      if low < 0xDC00 || 0xE000 <= low then None
      else Some(((0x10000 + (high - 0xD800) * 1024 + (low - 0xDC00)) as char, s[10..]))
  }

  /** What a backslash introduces. */
  function ParseEscape(s: string): (r: Option<(char, string)>)
    ensures r.Some? ==> |r.value.1| < |s|
  {
    if s == "" then None
    else if s[0] == '\"' || s[0] == '\\' || s[0] == '/' then Some((s[0], s[1..]))
    else if s[0] == 'b' then Some((8 as char, s[1..]))
    else if s[0] == 't' then Some((9 as char, s[1..]))
    else if s[0] == 'n' then Some((10 as char, s[1..]))
    else if s[0] == 'f' then Some((12 as char, s[1..]))
    else if s[0] == 'r' then Some((13 as char, s[1..]))
    else if s[0] == 'u' then ParseUnicode(s[1..])
    else None
  }

  /** One character of a string literal; raw control characters are refused. */
  function ParseChar(s: string): (r: Option<(char, string)>)
    requires s != ""
    ensures r.Some? ==> |r.value.1| < |s|
  {
    if s[0] == '\\' then ParseEscape(s[1..])
    else if s[0] < 32 as char then None
    else Some((s[0], s[1..]))
  }

  /** The characters of a string literal, up to and over the closing quote. */
  function ParseChars(s: string): (r: Option<(string, string)>)
    ensures r.Some? ==> |r.value.1| < |s|
    decreases |s|
  {
    if s == "" then None
    else if s[0] == '\"' then Some(("", s[1..]))
    else
      var first := ParseChar(s);
      if first.None? then None
      else
        var more := ParseChars(first.value.1);
        if more.None? then None else Some(([first.value.0] + more.value.0, more.value.1))
  }

  function ParseValue(s: string): (r: Option<(Json, string)>)
    ensures r.Some? ==> |r.value.1| < |s|
    decreases |s|, 1
  {
    var t := SkipSpace(s);
    if t == "" then None
    else if t[0] == 'n' then (if "null" <= t then Some((Null, t[4..])) else None)
    else if t[0] == '\"' then
      var chars := ParseChars(t[1..]);
      if chars.None? then None else Some((Str(chars.value.0), chars.value.1))
    else if t[0] == '[' then ParseArray(t[1..])
    else if t[0] == '{' then ParseObject(t[1..])
    else
      var number := ParseNumber(t);
      if number.None? then None else Some((Number(number.value.0), number.value.1))
  }

  /** An array after its opening bracket. */
  function ParseArray(s: string): (r: Option<(Json, string)>)
    ensures r.Some? ==> |r.value.1| < |s|
    decreases |s|, 3
  {
    var t := SkipSpace(s);
    if t != "" && t[0] == ']' then Some((Arr(NoItems), t[1..]))
    else
      var head := ParseValue(t);
      if head.None? then None
      else
        var tail := ParseItems(head.value.1);
        if tail.None? then None else Some((Arr(Item(head.value.0, tail.value.0)), tail.value.1))
  }

  function ParseItems(s: string): (r: Option<(Items, string)>)
    ensures r.Some? ==> |r.value.1| < |s|
    decreases |s|, 2
  {
    var t := SkipSpace(s);
    if t == "" then None
    else if t[0] == ']' then Some((NoItems, t[1..]))
    else if t[0] != ',' then None
    else
      var head := ParseValue(t[1..]);
      if head.None? then None
      else
        var tail := ParseItems(head.value.1);
        if tail.None? then None else Some((Item(head.value.0, tail.value.0), tail.value.1))
  }

  /** A key, a colon and a value. */
  function ParseMember(s: string): (r: Option<((string, Json), string)>)
    ensures r.Some? ==> |r.value.1| < |s|
    decreases |s|, 2
  {
    var t := SkipSpace(s);
    if t == "" || t[0] != '\"' then None
    else
      var key := ParseChars(t[1..]);
      if key.None? then None
      else
        var u := SkipSpace(key.value.1);
        if u == "" || u[0] != ':' then None
        else
          var value := ParseValue(u[1..]);
          if value.None? then None else Some(((key.value.0, value.value.0), value.value.1))
  }

  /** An object after its opening brace. */
  function ParseObject(s: string): (r: Option<(Json, string)>)
    ensures r.Some? ==> |r.value.1| < |s|
    decreases |s|, 3
  {
    var t := SkipSpace(s);
    if t != "" && t[0] == '}' then Some((Obj(NoMembers), t[1..]))
    else
      var first := ParseMember(t);
      if first.None? then None
      else
        var rest := ParseMembers(first.value.1);
        if rest.None? then None
        else Some((Obj(Member(first.value.0.0, first.value.0.1, rest.value.0)), rest.value.1))
  }

  function ParseMembers(s: string): (r: Option<(Members, string)>)
    ensures r.Some? ==> |r.value.1| < |s|
    decreases |s|, 3
  {
    var t := SkipSpace(s);
    if t == "" then None
    else if t[0] == '}' then Some((NoMembers, t[1..]))
    else if t[0] != ',' then None
    else
      var first := ParseMember(t[1..]);
      if first.None? then None
      else
        var rest := ParseMembers(first.value.1);
        if rest.None? then None
        else Some((Member(first.value.0.0, first.value.0.1, rest.value.0), rest.value.1))
  }

  /** A whole document: one value, then nothing but white space. */
  function Parse(s: string): Option<Json> {
    var value := ParseValue(s);
    if value.None? || SkipSpace(value.value.1) != "" then None else Some(value.value.0)
  }
}
