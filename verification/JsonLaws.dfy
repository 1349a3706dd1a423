/**
 The two laws that tie the JSON printer and parser together: what is printed parses back to the same
 value, and no accepted text is shorter, in bytes, than the compact print of its value.
 */
module JsonLaws {
  import opened Wrappers
  import opened Utf8
  import opened Text
  import opened Json

  // ----- Printed text parses back -----

  lemma SkipNothing(s: string)
    requires s == "" || !IsSpace(s[0])
    ensures SkipSpace(s) == s
  {
  }

  lemma Hex4OfControl(c: char, rest: string)
    requires c < 32 as char
    ensures Hex4("00" + [HexDigit(c as int / 16), HexDigit(c as int % 16)] + rest) == c as int
  {
    var s := "00" + [HexDigit(c as int / 16), HexDigit(c as int % 16)] + rest;
    assert s[0] == '0' && s[1] == '0';
    assert HexValue(s[2]) == c as int / 16 && HexValue(s[3]) == c as int % 16;
  }

  lemma ParsePrintedChar(c: char, rest: string)
    ensures ParseChar(EscapeChar(c) + rest) == Some((c, rest))
    ensures (EscapeChar(c) + rest)[0] != '\"'
  {
    var s := EscapeChar(c) + rest;
    if |EscapeChar(c)| == 1 {
      assert s[1..] == rest;
    } else if |EscapeChar(c)| == 2 {
      assert s[0] == '\\' && s[1] == EscapeChar(c)[1] && s[1..][1..] == rest;
    } else {
      var hex := "00" + [HexDigit(c as int / 16), HexDigit(c as int % 16)];
      assert s[0] == '\\' && s[1] == 'u' && s[1..][1..] == hex + rest;
      Hex4OfControl(c, rest);
      assert (hex + rest)[4..] == rest;
    }
  }

  lemma {:induction false} ParsePrintedChars(s: string, rest: string)
    ensures ParseChars(PrintChars(s) + rest) == Some((s, rest))
  {
    var t := PrintChars(s) + rest;
    if s == "" {
      assert t[0] == '\"' && t[1..] == rest;
    } else {
      var more := PrintChars(s[1..]) + rest;
      assert t == EscapeChar(s[0]) + more;
      ParsePrintedChar(s[0], more);
      ParsePrintedChars(s[1..], rest);
      assert [s[0]] + s[1..] == s;
    }
  }

  predicate AllDigits(ds: string) { forall i :: 0 <= i < |ds| ==> IsDigit(ds[i]) }

  lemma {:induction false} DigitRunOf(ds: string, rest: string)
    requires AllDigits(ds) && (rest == "" || !IsDigit(rest[0]))
    ensures DigitRun(ds + rest) == |ds|
  {
    if ds == "" {
      assert ds + rest == rest;
    } else {
      assert (ds + rest)[1..] == ds[1..] + rest;
      DigitRunOf(ds[1..], rest);
    }
  }

  lemma {:induction false} PrintNatDigits(n: nat)
    ensures AllDigits(PrintNat(n)) && NatOf(PrintNat(n)) == n
    ensures PrintNat(n)[0] == '0' ==> n == 0
  {
    var ds := PrintNat(n);
    if n >= 10 {
      PrintNatDigits(n / 10);
      assert ds[..|ds| - 1] == PrintNat(n / 10);
      assert ds[0] == PrintNat(n / 10)[0];
    } else {
      assert ds[..0] == "";
    }
  }

  /** The character after a number must not continue it. */
  predicate EndsNumber(rest: string) {
    rest == "" || !(IsDigit(rest[0]) || rest[0] == '.' || rest[0] == 'e' || rest[0] == 'E')
  }

  lemma ParsePrintedNat(n: nat, rest: string)
    requires EndsNumber(rest)
    ensures ParseNumber(PrintNat(n) + rest) == Some((n, rest))
  {
    var ds := PrintNat(n);
    PrintNatDigits(n);
    DigitRunOf(ds, rest);
    assert (ds + rest)[..|ds|] == ds && (ds + rest)[|ds|..] == rest;
  }

  lemma ParsePrintedNumber(n: nat, rest: string)
    requires EndsNumber(rest)
    ensures ParseValue(PrintNat(n) + rest) == Some((Number(n), rest))
  {
    var t := PrintNat(n) + rest;
    PrintNatDigits(n);
    assert t[0] == PrintNat(n)[0] && IsDigit(t[0]);
    SkipNothing(t);
    ParsePrintedNat(n, rest);
  }

  lemma ParsePrintedStr(s: string, rest: string)
    ensures ParseValue("\"" + PrintChars(s) + rest) == Some((Str(s), rest))
  {
    var t := "\"" + PrintChars(s) + rest;
    assert t[0] == '\"' && t[1..] == PrintChars(s) + rest;
    SkipNothing(t);
    ParsePrintedChars(s, rest);
  }

  lemma ParsePrintedNull(rest: string)
    ensures ParseValue("null" + rest) == Some((Null, rest))
  {
    var t := "null" + rest;
    assert t[0] == 'n' && "null" <= t && t[4..] == rest;
    SkipNothing(t);
  }

  lemma ParseBracketed(open: char, body: string, rest: string)
    requires open == '[' || open == '{'
    ensures ParseValue([open] + body + rest)
            == if open == '[' then ParseArray(body + rest) else ParseObject(body + rest)
  {
    var t := [open] + body + rest;
    assert t[0] == open && t[1..] == body + rest;
    SkipNothing(t);
  }

  lemma ParsePrintedContainer(items: Items, members: Members, rest: string)
    ensures ParseValue(Print(Arr(items)) + rest) == ParseArray(ArrayBody(items) + rest)
    ensures ParseValue(Print(Obj(members)) + rest) == ParseObject(ObjectBody(members) + rest)
  {
    PrintedContainerText(items, members);
    ParseBracketed('[', ArrayBody(items), rest);
    ParseBracketed('{', ObjectBody(members), rest);
  }

  lemma PrintedContainerText(items: Items, members: Members)
    ensures Print(Arr(items)) == ['['] + ArrayBody(items)
    ensures Print(Obj(members)) == ['{'] + ObjectBody(members)
  {
  }

  lemma {:induction false} ParsePrinted(j: Json, rest: string)
    requires EndsNumber(rest)
    ensures ParseValue(Print(j) + rest) == Some((j, rest))
    decreases j, 0
  {
    match j
    case Null => ParsePrintedNull(rest);
    case Number(n) => ParsePrintedNumber(n, rest);
    case Str(s) => ParsePrintedStr(s, rest);
    case Arr(items) =>
      ParsePrintedContainer(items, NoMembers, rest);
      ParsePrintedArray(items, rest);
    case Obj(members) =>
      ParsePrintedContainer(NoItems, members, rest);
      ParsePrintedObject(members, rest);
  }

  /** A printed array after its opening bracket. */
  function ArrayBody(items: Items): string {
    match items
    case NoItems => "]"
    case Item(head, tail) => Print(head) + PrintItems(tail)
  }

  function ObjectBody(members: Members): string {
    match members
    case NoMembers => "}"
    case Member(key, value, rest) => PrintMember(key, value) + PrintMembers(rest)
  }

  lemma PrintStarts(j: Json)
    ensures Print(j) != "" && !IsSpace(Print(j)[0]) && Print(j)[0] != ']'
  {
    if j.Number? { PrintNatDigits(j.n); }
  }

  lemma {:induction false} ParsePrintedArray(items: Items, rest: string)
    ensures ParseArray(ArrayBody(items) + rest) == Some((Arr(items), rest))
    decreases items, 1
  {
    var t := ArrayBody(items) + rest;
    match items
    case NoItems =>
      assert t[0] == ']' && t[1..] == rest;
    case Item(head, tail) =>
      var more := PrintItems(tail) + rest;
      assert t == Print(head) + more;
      PrintStarts(head);
      SkipNothing(t);
      ParsePrinted(head, more);
      ParsePrintedItems(tail, rest);
  }

  lemma {:induction false} ParsePrintedItems(items: Items, rest: string)
    ensures ParseItems(PrintItems(items) + rest) == Some((items, rest))
    decreases items, 0
  {
    var t := PrintItems(items) + rest;
    SkipNothing(t);
    match items
    case NoItems =>
      assert t[1..] == rest;
    case Item(head, tail) =>
      var more := PrintItems(tail) + rest;
      assert t[1..] == Print(head) + more;
      ParsePrinted(head, more);
      ParsePrintedItems(tail, rest);
  }

  lemma ParseMemberSteps(key: string, u: string)
    ensures ParseMember("\"" + PrintChars(key) + ":" + u)
            == match ParseValue(u) case None => None case Some(v) => Some(((key, v.0), v.1))
  {
    var t := "\"" + PrintChars(key) + ":" + u;
    var after := ":" + u;
    SkipNothing(t);
    assert t[0] == '\"' && t[1..] == PrintChars(key) + after;
    ParsePrintedChars(key, after);
    SkipNothing(after);
    assert after[1..] == u;
  }

  lemma {:induction false} ParsePrintedMember(key: string, value: Json, rest: string)
    requires EndsNumber(rest)
    ensures ParseMember(PrintMember(key, value) + rest) == Some(((key, value), rest))
    decreases value, 1
  {
    var front, text := "\"" + PrintChars(key) + ":", Print(value);
    assert (front + text) + rest == front + (text + rest);
    ParsePrinted(value, rest);
    ParseMemberSteps(key, text + rest);
  }

  lemma {:induction false} ParsePrintedObject(members: Members, rest: string)
    ensures ParseObject(ObjectBody(members) + rest) == Some((Obj(members), rest))
    decreases members, 1
  {
    var t := ObjectBody(members) + rest;
    SkipNothing(t);
    match members
    case NoMembers =>
      assert t[0] == '}' && t[1..] == rest;
    case Member(key, value, others) =>
      var more := PrintMembers(others) + rest;
      assert t == PrintMember(key, value) + more;
      assert t[0] == '\"';
      ParsePrintedMember(key, value, more);
      ParsePrintedMembers(others, rest);
  }

  lemma {:induction false} ParsePrintedMembers(members: Members, rest: string)
    ensures ParseMembers(PrintMembers(members) + rest) == Some((members, rest))
    decreases members, 0
  {
    var t := PrintMembers(members) + rest;
    SkipNothing(t);
    match members
    case NoMembers =>
      assert t[1..] == rest;
    case Member(key, value, others) =>
      var more := PrintMembers(others) + rest;
      assert t[1..] == PrintMember(key, value) + more;
      ParsePrintedMember(key, value, more);
      ParsePrintedMembers(others, rest);
  }

  /** The printer is inverted by the parser on every value. */
  lemma ParsePrint(j: Json)
    ensures Parse(Print(j)) == Some(j)
  {
    ParsePrinted(j, "");
    assert Print(j) + "" == Print(j);
  }

  // ----- Other spellings -----

  /** Before a token any of the four white space characters are skipped, and nothing else. */
  lemma {:induction false} SkipSpaceExactly(s: string) returns (i: nat)
    ensures i <= |s| && SkipSpace(s) == s[i..]
    ensures forall k :: 0 <= k < i ==> s[k] in " \t\n\r"
    ensures i < |s| ==> s[i] !in " \t\n\r"
  {
    if s == "" || !IsSpace(s[0]) {
      i := 0;
    } else {
      var j := SkipSpaceExactly(s[1..]);
      i := j + 1;
      forall k | 0 <= k < i ensures s[k] in " \t\n\r" { if k > 0 { assert s[k] == s[1..][k - 1]; } }
    }
  }

  /** The four digits, in either case, of a number below 65536. */
  predicate Digits4(t: string, n: nat) {
    && |t| == 4 && HexValue(t[0]) >= 0 && HexValue(t[1]) >= 0 && HexValue(t[2]) >= 0 && HexValue(t[3]) >= 0
    && n == HexValue(t[0]) * 4096 + HexValue(t[1]) * 256 + HexValue(t[2]) * 16 + HexValue(t[3])
  }

  lemma Hex4OfDigits(t: string, n: nat, rest: string)
    requires Digits4(t, n)
    ensures Hex4(t + rest) == n && (t + rest)[4..] == rest
  {
  }

  /** Any character of the basic plane can be spelled as an escape, in either case of the digits. */
  lemma BasicEscapeReads(c: char, t: string, rest: string)
    requires Digits4(t, c as nat)
    ensures ParseChar("\\u" + t + rest) == Some((c, rest))
  {
    Hex4OfDigits(t, c as nat, rest);
    assert ("\\u" + t + rest)[1..] == "u" + t + rest && ("u" + t + rest)[1..] == t + rest;
  }

  /** The two halves of a surrogate pair. */
  function HighHalf(n: nat): nat requires 0x10000 <= n { 0xD800 + (n - 0x10000) / 1024 }
  function LowHalf(n: nat): nat requires 0x10000 <= n { 0xDC00 + (n - 0x10000) % 1024 }

  lemma PairJoins(u: string, n: nat)
    requires 0x10000 <= n < 0x110000
    requires Hex4(u) == HighHalf(n) && |u| >= 6 && u[4] == '\\' && u[5] == 'u' && Hex4(u[6..]) == LowHalf(n)
    ensures ParseUnicode(u) == Some((n as char, u[10..]))
  {
    var k := n - 0x10000;
    assert k == k / 1024 * 1024 + k % 1024 && k / 1024 < 1024;
  }

  /** Any other as a surrogate pair of them. */
  lemma PairEscapeReads(c: char, high: string, low: string, rest: string)
    requires c as nat >= 0x10000 && Digits4(high, HighHalf(c as nat)) && Digits4(low, LowHalf(c as nat))
    ensures ParseChar("\\u" + high + "\\u" + low + rest) == Some((c, rest))
  {
    var tail := "\\u" + low + rest;
    var u := high + tail;
    Hex4OfDigits(high, HighHalf(c as nat), tail);
    Hex4OfDigits(low, LowHalf(c as nat), rest);
    assert u[6..] == low + rest && u[10..] == rest;
    PairJoins(u, c as nat);
    UnicodeEscape(u);
    assert "\\u" + high + "\\u" + low + rest == "\\u" + u;
  }

  lemma UnicodeEscape(u: string)
    ensures ParseChar("\\u" + u) == ParseUnicode(u)
  {
    assert ("\\u" + u)[1..] == "u" + u && ("u" + u)[1..] == u;
  }

  /** What strings refuse: raw control characters and lone surrogates. */
  lemma BadCharactersRefused(c: char, n: nat, rest: string)
    ensures c < ' ' ==> ParseChar([c] + rest) == None
    ensures Hex4(rest) == n && 0xDC00 <= n < 0xE000 ==> ParseUnicode(rest) == None
    ensures Hex4(rest) == n && 0xD800 <= n < 0xDC00 && !("\\u" <= rest[4..]) ==> ParseUnicode(rest) == None
  {
  }

  /** What numbers refuse: leading zeros, fractions and exponents. */
  lemma BadNumbersRefused(digits: string, rest: string)
    requires digits != "" && AllDigits(digits)
    ensures ParseNumber("0" + digits + rest) == None
    ensures rest != "" && rest[0] in ".eE" ==> ParseNumber(digits + rest) == None
  {
    var t := "0" + digits + rest;
    assert IsDigit(digits[0]) && t[1..] == digits + rest && t[1..][0] == digits[0];
    if rest != "" && rest[0] in ".eE" { DigitRunOf(digits, rest); }
  }

  /** A comma needs a successor. */
  lemma NoTrailingComma(rest: string)
    ensures ParseItems("," + "]" + rest) == None && ParseMembers("," + "}" + rest) == None
  {
    assert ("," + "]" + rest)[1..] == "]" + rest && ("," + "}" + rest)[1..] == "}" + rest;
  }

  /** A slash may be escaped. */
  lemma SlashEscapeReads(rest: string)
    ensures ParseChar("\\/" + rest) == Some(('/', rest))
  {
    assert ("\\/" + rest)[1..] == "/" + rest && ("/" + rest)[1..] == rest;
  }

  // ----- No accepted text is shorter than the compact print -----

  /** Bytes of a text in UTF-8. */
  function Size(s: string): nat {
    if s == "" then 0 else |EncodeChar(s[0])| + Size(s[1..])
  }

  lemma {:induction false} SizeIsEncodedLength(s: string)
    ensures |Encode(s)| == Size(s)
  {
    if s == "" {
    } else {
      SizeIsEncodedLength(s[1..]);
    }
  }

  lemma {:induction false} SizeConcat(s: string, t: string)
    ensures Size(s + t) == Size(s) + Size(t)
  {
    if s == "" {
      assert s + t == t;
    } else {
      assert (s + t)[1..] == s[1..] + t;
      SizeConcat(s[1..], t);
    }
  }

  lemma SizeSplit(s: string, k: nat)
    requires k <= |s|
    ensures Size(s) == Size(s[..k]) + Size(s[k..])
    ensures Size(s[k..]) <= Size(s)
  {
    var front, back := s[..k], s[k..];
    assert s == front + back;
    SizeConcat(front, back);
  }

  lemma {:induction false} SizeAtLeastLength(s: string)
    ensures Size(s) >= |s|
  {
    if s == "" {
    } else {
      SizeAtLeastLength(s[1..]);
    }
  }

  lemma {:induction false} SizeOfAscii(s: string)
    requires forall i :: 0 <= i < |s| ==> s[i] < 0x80 as char
    ensures Size(s) == |s|
  {
    if s == "" {
    } else {
      SizeOfAscii(s[1..]);
    }
  }

  lemma {:induction false} SkipSpaceShrinks(s: string)
    ensures Size(SkipSpace(s)) <= Size(s)
  {
    if s == "" || !IsSpace(s[0]) {
    } else {
      SkipSpaceShrinks(s[1..]);
    }
  }

  lemma EscapedSize(c: char)
    ensures Size(EscapeChar(c)) == if |EscapeChar(c)| == 1 then |EncodeChar(c)| else |EscapeChar(c)|
    ensures Size(EscapeChar(c)) <= 6
    ensures c >= 32 as char ==> Size(EscapeChar(c)) <= 4
    ensures c >= 32 as char && c != '\"' && c != '\\' ==> Size(EscapeChar(c)) == |EncodeChar(c)|
  {
    if |EscapeChar(c)| == 1 {
      assert EscapeChar(c)[1..] == "";
    } else {
      SizeOfAscii(EscapeChar(c));
    }
  }

  lemma CompactUnicode(s: string)
    requires ParseUnicode(s).Some?
    ensures Size(s) + 2 >= Size(EscapeChar(ParseUnicode(s).value.0)) + Size(ParseUnicode(s).value.1)
  {
    var (c, rest) := ParseUnicode(s).value;
    var width := |s| - |rest|;
    EscapedSize(c);
    assert rest == s[width..];
    SizeSplit(s, width);
    SizeAtLeastLength(s[..width]);
  }

  lemma CompactEscape(s: string)
    requires ParseEscape(s).Some?
    ensures Size(s) + 1 >= Size(EscapeChar(ParseEscape(s).value.0)) + Size(ParseEscape(s).value.1)
  {
    var c := ParseEscape(s).value.0;
    EscapedSize(c);
    if s[0] == 'u' {
      CompactUnicode(s[1..]);
    } else {
      assert |EncodeChar(c)| == 1 && |EscapeChar(c)| <= 2;
    }
  }

  lemma CompactChar(s: string)
    requires s != "" && s[0] != '\"' && ParseChar(s).Some?
    ensures Size(s) >= Size(EscapeChar(ParseChar(s).value.0)) + Size(ParseChar(s).value.1)
  {
    if s[0] == '\\' {
      CompactEscape(s[1..]);
    } else {
      EscapedSize(s[0]);
    }
  }

  lemma {:induction false} CompactChars(s: string)
    requires ParseChars(s).Some?
    ensures Size(s) >= Size(PrintChars(ParseChars(s).value.0)) + Size(ParseChars(s).value.1)
    decreases |s|
  {
    if s[0] != '\"' {
      var (c, rest) := ParseChar(s).value;
      CompactChar(s);
      CompactChars(rest);
      var more := ParseChars(rest).value.0;
      assert ([c] + more)[1..] == more;
      SizeConcat(EscapeChar(c), PrintChars(more));
    } else {
      assert Size("\"") == 1;
    }
  }

  lemma {:induction false} PrintOfDigits(ds: string)
    requires ds != "" && AllDigits(ds) && (|ds| > 1 ==> ds[0] != '0')
    ensures PrintNat(NatOf(ds)) == ds
    ensures |ds| > 1 ==> NatOf(ds) >= 10
    ensures |ds| == 1 ==> NatOf(ds) < 10
    ensures ds[0] != '0' ==> NatOf(ds) >= 1
  {
    var front, last := ds[..|ds| - 1], ds[|ds| - 1];
    assert IsDigit(last);
    if |ds| == 1 {
      assert front == "" && ds == [last];
    } else {
      PrintOfDigits(front);
      var d := last as int - '0' as int;
      assert NatOf(ds) == NatOf(front) * 10 + d;
      assert NatOf(ds) / 10 == NatOf(front) && NatOf(ds) % 10 == d;
      assert ds == front + [last];
    }
  }

  lemma CompactNumber(s: string)
    requires ParseNumber(s).Some?
    ensures Size(s) >= Size(PrintNat(ParseNumber(s).value.0)) + Size(ParseNumber(s).value.1)
  {
    var n := DigitRun(s);
    assert s[..n][0] == s[0];
    PrintOfDigits(s[..n]);
    SizeSplit(s, n);
  }

  /** The byte count of a printed value, part by part. */
  lemma PrintedItemSizes(value: Json, tail: Items)
    ensures Size(PrintItems(NoItems)) == 1
    ensures Size(PrintItems(Item(value, tail))) == 1 + Size(Print(value)) + Size(PrintItems(tail))
  {
    SizeConcat("," + Print(value), PrintItems(tail));
    SizeConcat(",", Print(value));
    assert Size(",") == Size("]") == 1;
  }

  lemma PrintedMemberSizes(key: string, value: Json, rest: Members)
    ensures Size(PrintMembers(NoMembers)) == 1
    ensures Size(PrintMember(key, value)) == 2 + Size(PrintChars(key)) + Size(Print(value))
    ensures Size(PrintMembers(Member(key, value, rest)))
            == 1 + Size(PrintMember(key, value)) + Size(PrintMembers(rest))
  {
    SizeConcat("\"" + PrintChars(key) + ":", Print(value));
    SizeConcat("\"" + PrintChars(key), ":");
    SizeConcat("\"", PrintChars(key));
    SizeConcat("," + PrintMember(key, value), PrintMembers(rest));
    SizeConcat(",", PrintMember(key, value));
    assert Size(",") == Size(":") == Size("\"") == Size("}") == 1;
  }

  /** An opening bracket costs what a comma costs. */
  lemma PrintedContainers(items: Items, members: Members)
    ensures Size(Print(Arr(items))) == if items.NoItems? then 2 else Size(PrintItems(items))
    ensures Size(Print(Obj(members))) == if members.NoMembers? then 2 else Size(PrintMembers(members))
  {
    SizeOfAscii("[]");
    SizeOfAscii("{}");
    SizeOfAscii("[");
    SizeOfAscii("{");
    if items.Item? {
      PrintedItemSizes(items.head, items.tail);
      SizeConcat("[" + Print(items.head), PrintItems(items.tail));
      SizeConcat("[", Print(items.head));
    }
    if members.Member? {
      PrintedMemberSizes(members.key, members.value, members.rest);
      SizeConcat("{" + PrintMember(members.key, members.value), PrintMembers(members.rest));
      SizeConcat("{", PrintMember(members.key, members.value));
    }
  }

  lemma {:induction false} CompactValue(s: string)
    requires ParseValue(s).Some?
    ensures Size(s) >= Size(Print(ParseValue(s).value.0)) + Size(ParseValue(s).value.1)
    decreases |s|, 1
  {
    var t := SkipSpace(s);
    SkipSpaceShrinks(s);
    if t[0] == 'n' {
      SizeSplit(t, 4);
      assert t[..4] == "null";
    } else if t[0] == '\"' {
      var chars := ParseChars(t[1..]).value.0;
      CompactChars(t[1..]);
      SizeConcat("\"", PrintChars(chars));
      SizeOfAscii("\"");
    } else if t[0] == '[' {
      CompactArray(t[1..]);
    } else if t[0] == '{' {
      CompactObject(t[1..]);
    } else {
      CompactNumber(t);
    }
  }

  lemma {:induction false} CompactArray(s: string)
    requires ParseArray(s).Some?
    ensures 1 + Size(s) >= Size(Print(ParseArray(s).value.0)) + Size(ParseArray(s).value.1)
    decreases |s|, 3
  {
    var t := SkipSpace(s);
    SkipSpaceShrinks(s);
    PrintedContainers(ParseArray(s).value.0.items, NoMembers);
    if !(t != "" && t[0] == ']') {
      var (head, more) := ParseValue(t).value;
      CompactValue(t);
      CompactItems(more);
      PrintedItemSizes(head, ParseItems(more).value.0);
    }
  }

  lemma {:induction false} CompactItems(s: string)
    requires ParseItems(s).Some?
    ensures Size(s) >= Size(PrintItems(ParseItems(s).value.0)) + Size(ParseItems(s).value.1)
    decreases |s|, 2
  {
    var t := SkipSpace(s);
    SkipSpaceShrinks(s);
    if t[0] == ']' {
      PrintedItemSizes(Null, NoItems);
    } else {
      var (head, more) := ParseValue(t[1..]).value;
      CompactValue(t[1..]);
      CompactItems(more);
      PrintedItemSizes(head, ParseItems(more).value.0);
    }
  }

  lemma {:induction false} CompactMember(s: string)
    requires ParseMember(s).Some?
    ensures var ((key, value), rest) := ParseMember(s).value;
            Size(s) >= Size(PrintMember(key, value)) + Size(rest)
    decreases |s|, 2
  {
    var ((key, value), rest) := ParseMember(s).value;
    var t := SkipSpace(s);
    SkipSpaceShrinks(s);
    CompactChars(t[1..]);
    var after := ParseChars(t[1..]).value.1;
    SkipSpaceShrinks(after);
    CompactValue(SkipSpace(after)[1..]);
    PrintedMemberSizes(key, value, NoMembers);
  }

  lemma {:induction false} CompactObject(s: string)
    requires ParseObject(s).Some?
    ensures 1 + Size(s) >= Size(Print(ParseObject(s).value.0)) + Size(ParseObject(s).value.1)
    decreases |s|, 3
  {
    var t := SkipSpace(s);
    SkipSpaceShrinks(s);
    PrintedContainers(NoItems, ParseObject(s).value.0.members);
    if !(t != "" && t[0] == '}') {
      var ((key, value), more) := ParseMember(t).value;
      CompactMember(t);
      CompactMembers(more);
      PrintedMemberSizes(key, value, ParseMembers(more).value.0);
    }
  }

  lemma {:induction false} CompactMembers(s: string)
    requires ParseMembers(s).Some?
    ensures Size(s) >= Size(PrintMembers(ParseMembers(s).value.0)) + Size(ParseMembers(s).value.1)
    decreases |s|, 3
  {
    var t := SkipSpace(s);
    SkipSpaceShrinks(s);
    if t[0] == '}' {
      PrintedMemberSizes("", Null, NoMembers);
    } else {
      var ((key, value), more) := ParseMember(t[1..]).value;
      CompactMember(t[1..]);
      CompactMembers(more);
      PrintedMemberSizes(key, value, ParseMembers(more).value.0);
    }
  }

  /** Whatever spelling a document uses, its compact print needs no more bytes. */
  lemma ParsedIsNoShorter(s: string)
    requires Parse(s).Some?
    ensures Size(Print(Parse(s).value)) <= Size(s)
  {
    CompactValue(s);
  }
}
