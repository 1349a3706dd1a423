/** The operations on text that the policies use: case folding, trimming, splitting, joining. */
module Text {
  import opened Wrappers
  import opened Utf8

  function LowerChar(c: char): char {
    if 'A' <= c <= 'Z' then (c as int + 32) as char else c
  }

  /** `to_ascii_lowercase`. */
  function Lower(s: string): (r: string)
    ensures |r| == |s|
  {
    seq(|s|, i requires 0 <= i < |s| => LowerChar(s[i]))
  }

  /** `eq_ignore_ascii_case`. */
  predicate EqIgnoreCase(a: string, b: string) { Lower(a) == Lower(b) }

  lemma LowerIdempotent(s: string)
    ensures Lower(Lower(s)) == Lower(s)
  {
  }

  /** The same character, or the two cases of one ASCII letter. */
  predicate SameLetter(x: char, y: char) {
    || x == y
    || ('A' <= x <= 'Z' && y as int == x as int + 32)
    || ('A' <= y <= 'Z' && x as int == y as int + 32)
  }

  /** Only ASCII letters fold. */
  lemma EqIgnoreCaseExactly(a: string, b: string)
    ensures EqIgnoreCase(a, b) <==> |a| == |b| && forall i :: 0 <= i < |a| ==> SameLetter(a[i], b[i])
  {
    if EqIgnoreCase(a, b) {
      forall i | 0 <= i < |a| ensures SameLetter(a[i], b[i]) { assert Lower(a)[i] == Lower(b)[i]; }
    }
  }

  /** `char::is_whitespace`: the Unicode White_Space property. */
  predicate IsWhiteSpace(c: char) {
    var n := c as int;
    9 <= n <= 13 || n == 0x20 || n == 0x85 || n == 0xA0 || n == 0x1680 || 0x2000 <= n <= 0x200A
    || n == 0x2028 || n == 0x2029 || n == 0x202F || n == 0x205F || n == 0x3000
  }

  /** `char::is_control`: the Unicode Cc category. */
  /** The code points with the Unicode property White_Space. */
  lemma WhiteSpaceExactly(c: char)
    ensures IsWhiteSpace(c)
            <==> c in "\t\n\U{B}\U{C}\r \U{85}\U{A0}\U{1680}" || '\U{2000}' <= c <= '\U{200A}'
                 || c in "\U{2028}\U{2029}\U{202F}\U{205F}\U{3000}"
  {
  }

  predicate IsControl(c: char) {
    var n := c as int;
    n < 0x20 || 0x7F <= n < 0xA0
  }

  predicate IsAlphanumeric(c: char) { '0' <= c <= '9' || 'a' <= c <= 'z' || 'A' <= c <= 'Z' }

  predicate IsTokenChar(c: char) {
    IsAlphanumeric(c) || c == '-' || c == '_' || c == '.' || c == ':' || c == '/'
  }

  /**
   The one token form of the system: deployment names, roles, scopes and request IDs alike. Token
   characters are ASCII, so the bound of 128 bytes is a bound on characters.
   */
  predicate IsToken(value: string) {
    0 < |value| <= 128 && forall i :: 0 <= i < |value| ==> IsTokenChar(value[i])
  }

  /** A lower-case hexadecimal digit. */
  function HexDigit(d: nat): char requires d < 16 {
    if d < 10 then ('0' as int + d) as char else ('a' as int + d - 10) as char
  }

  /** The value of a hexadecimal digit in either case, or -1. */
  function HexValue(c: char): (v: int)
    ensures -1 <= v < 16
  {
    if '0' <= c <= '9' then c as int - '0' as int
    else if 'a' <= c <= 'f' then c as int - 'a' as int + 10
    else if 'A' <= c <= 'F' then c as int - 'A' as int + 10
    else -1
  }

  /** Both directions of the digits: lower case as printed, upper case by its distance to lower case. */
  lemma HexValueExactly(c: char, d: nat)
    requires d < 16
    ensures HexValue(c) == d <==> c == HexDigit(d) || (d >= 10 && c as int == HexDigit(d) as int - 32)
  {
  }

  function TrimStart(s: string): string {
    if s != "" && IsWhiteSpace(s[0]) then TrimStart(s[1..]) else s
  }

  function TrimEnd(s: string): string {
    if s != "" && IsWhiteSpace(s[|s| - 1]) then TrimEnd(s[..|s| - 1]) else s
  }

  /** `str::trim`. */
  function Trim(s: string): string { TrimEnd(TrimStart(s)) }

  predicate IsTrimmed(s: string) {
    s == "" || (!IsWhiteSpace(s[0]) && !IsWhiteSpace(s[|s| - 1]))
  }

  /** `str::split` on one character; there is always at least one piece. */
  function Split(s: string, sep: char): (r: seq<string>)
    ensures |r| >= 1
  {
    if s == "" then [""]
    else
      var rest := Split(s[1..], sep);
      if s[0] == sep then [""] + rest else [[s[0]] + rest[0]] + rest[1..]
  }

  function TrimAll(list: seq<string>): (r: seq<string>)
    ensures |r| == |list|
  {
    seq(|list|, i requires 0 <= i < |list| => Trim(list[i]))
  }

  /** Trims every piece and drops the empty ones. */
  function Tokens(pieces: seq<string>): seq<string> {
    if pieces == [] then []
    else
      var t := Trim(pieces[0]);
      (if t == "" then [] else [t]) + Tokens(pieces[1..])
  }

  /** `split_csv`. */
  function SplitCsv(s: string): seq<string> { Tokens(Split(s, ',')) }

  /** `join(", ")`. */
  function Join(tokens: seq<string>): string {
    if tokens == [] then ""
    else if |tokens| == 1 then tokens[0]
    else tokens[0] + ", " + Join(tokens[1..])
  }

  /** `HeaderValue::to_str`: text only when every byte is visible ASCII or a tab. */
  function ToStr(value: seq<byte>): (r: Option<string>)
    ensures r.Some? ==> |r.value| == |value|
                        && forall i :: 0 <= i < |value| ==> r.value[i] as int == value[i]
  {
    if forall i :: 0 <= i < |value| ==> 32 <= value[i] < 127 || value[i] == 9
    then Some(seq(|value|, i requires 0 <= i < |value| => value[i] as char))
    else None
  }

  predicate IsVisible(s: string) { forall i :: 0 <= i < |s| ==> ' ' <= s[i] <= '~' || s[i] == '\t' }

  /** Text is read from a value exactly when it is visible ASCII and the value is its bytes. */
  lemma ToStrExactly(value: seq<byte>, s: string)
    ensures ToStr(value) == Some(s) <==> value == Encode(s) && IsVisible(s)
  {
    if IsVisible(s) {
      EncodeAscii(s);
      if value == Encode(s) {
        forall i | 0 <= i < |value| ensures 32 <= value[i] < 127 || value[i] == 9 { assert value[i] == s[i] as int; }
        assert ToStr(value).value == s;
      }
    }
    if ToStr(value) == Some(s) {
      forall i | 0 <= i < |s| ensures ' ' <= s[i] <= '~' || s[i] == '\t' { assert s[i] as int == value[i]; }
      EncodeAscii(s);
      assert value == Encode(s);
    }
  }

  predicate IsTokenByte(b: byte) {
    48 <= b <= 57 || 65 <= b <= 90 || 97 <= b <= 122 || b in {45, 46, 47, 58, 95}
  }

  /** The check on characters is the check on bytes: 1 to 128 of them, letters, digits and five others. */
  lemma TokenExactly(s: string)
    ensures IsToken(s)
            <==> 1 <= |Encode(s)| <= 128 && forall i :: 0 <= i < |Encode(s)| ==> IsTokenByte(Encode(s)[i])
  {
    if IsToken(s) {
      EncodeAscii(s);
      forall i | 0 <= i < |Encode(s)| ensures IsTokenByte(Encode(s)[i]) { assert IsTokenChar(s[i]); }
    }
    if forall i :: 0 <= i < |Encode(s)| ==> IsTokenByte(Encode(s)[i]) {
      AsciiBytes(s);
      EncodeAscii(s);
      forall i | 0 <= i < |s| ensures IsTokenChar(s[i]) { assert IsTokenByte(Encode(s)[i]); }
    }
  }

  // ----- Facts about trimming -----

  lemma {:induction false} TrimStartSuffix(s: string)
    ensures exists k :: 0 <= k <= |s| && TrimStart(s) == s[k..]
    ensures TrimStart(s) != "" ==> !IsWhiteSpace(TrimStart(s)[0])
  {
    if s != "" && IsWhiteSpace(s[0]) {
      TrimStartSuffix(s[1..]);
      var k :| 0 <= k <= |s[1..]| && TrimStart(s[1..]) == s[1..][k..];
      assert s[1..][k..] == s[k + 1..];
    } else {
      assert s == s[0..];
    }
  }

  lemma {:induction false} TrimEndPrefix(s: string)
    ensures TrimEnd(s) <= s
    ensures TrimEnd(s) != "" ==> !IsWhiteSpace(TrimEnd(s)[|TrimEnd(s)| - 1])
  {
    if s == "" || !IsWhiteSpace(s[|s| - 1]) {
    } else {
      TrimEndPrefix(s[..|s| - 1]);
    }
  }

  /** Trimming yields trimmed text made of characters of the input. */
  lemma TrimIsTrimmed(s: string)
    ensures IsTrimmed(Trim(s))
    ensures forall c :: c in Trim(s) ==> c in s
  {
    TrimStartSuffix(s);
    TrimEndPrefix(TrimStart(s));
    var k :| 0 <= k <= |s| && TrimStart(s) == s[k..];
  }

  lemma TrimOfTrimmed(s: string)
    requires IsTrimmed(s)
    ensures Trim(s) == s && Trim(" " + s) == s
  {
    assert (" " + s)[1..] == s;
    assert TrimStart(" " + s) == TrimStart(s) == s;
  }

  lemma {:induction false} TrimStartDropsSpace(s: string) returns (i: nat)
    ensures i <= |s| && TrimStart(s) == s[i..] && forall k :: 0 <= k < i ==> IsWhiteSpace(s[k])
  {
    if s == "" || !IsWhiteSpace(s[0]) {
      i := 0;
    } else {
      var j := TrimStartDropsSpace(s[1..]);
      i := j + 1;
      forall k | 0 <= k < i ensures IsWhiteSpace(s[k]) { if k > 0 { assert s[k] == s[1..][k - 1]; } }
    }
  }

  lemma {:induction false} TrimEndDropsSpace(s: string) returns (j: nat)
    ensures j <= |s| && TrimEnd(s) == s[..j] && forall k :: j <= k < |s| ==> IsWhiteSpace(s[k])
  {
    if s == "" || !IsWhiteSpace(s[|s| - 1]) {
      j := |s|;
      assert s[..j] == s;
    } else {
      var front := s[..|s| - 1];
      j := TrimEndDropsSpace(front);
      assert front[..j] == s[..j];
      forall k | j <= k < |s| ensures IsWhiteSpace(s[k]) { if k < |front| { assert s[k] == front[k]; } }
    }
  }

  /** Trimming removes white space at both ends, and only that. */
  lemma TrimExactly(s: string) returns (i: nat, j: nat)
    ensures i <= j <= |s| && Trim(s) == s[i..j] && IsTrimmed(Trim(s))
    ensures forall k :: 0 <= k < i || j <= k < |s| ==> IsWhiteSpace(s[k])
  {
    TrimIsTrimmed(s);
    i := TrimStartDropsSpace(s);
    var rest := s[i..];
    var n := TrimEndDropsSpace(rest);
    j := i + n;
    forall k | j <= k < |s| ensures IsWhiteSpace(s[k]) { assert s[k] == rest[k - i]; }
  }

  // ----- Splitting undoes joining -----

  predicate HasNo(s: string, sep: char) { sep !in s }

  lemma {:induction false} SplitAtSeparator(s: string, sep: char, rest: string)
    requires HasNo(s, sep)
    ensures Split(s + [sep] + rest, sep) == [s] + Split(rest, sep)
    ensures Split(s, sep) == [s]
  {
    if s == "" {
      assert s + [sep] + rest == [sep] + rest;
    } else {
      SplitAtSeparator(s[1..], sep, rest);
      assert (s + [sep] + rest)[1..] == s[1..] + [sep] + rest;
      assert [s[0]] + s[1..] == s;
    }
  }

  lemma {:induction false} SplitPieces(s: string, sep: char)
    ensures forall i :: 0 <= i < |Split(s, sep)| ==>
                          HasNo(Split(s, sep)[i], sep) && forall c :: c in Split(s, sep)[i] ==> c in s
  {
    if s == "" {
    } else {
      SplitPieces(s[1..], sep);
    }
  }

  function Separated(pieces: seq<string>, sep: char): string
    requires pieces != []
  {
    if |pieces| == 1 then pieces[0] else pieces[0] + [sep] + Separated(pieces[1..], sep)
  }

  /** Splitting is undone by putting the separators back, and leaves none in a piece. */
  lemma {:induction false} SplitExactly(s: string, sep: char)
    ensures Separated(Split(s, sep), sep) == s
    ensures forall i :: 0 <= i < |Split(s, sep)| ==> sep !in Split(s, sep)[i]
  {
    if s == "" {
    } else {
      SplitExactly(s[1..], sep);
      var rest := Split(s[1..], sep);
      if s[0] == sep {
        assert ([""] + rest)[1..] == rest;
      } else {
        assert Split(s, sep)[1..] == rest[1..];
      }
      assert s == [s[0]] + s[1..];
    }
  }

  lemma TokensOfFirst(piece: string, rest: seq<string>)
    ensures Tokens([piece] + rest) == (if Trim(piece) == "" then [] else [Trim(piece)]) + Tokens(rest)
  {
    assert ([piece] + rest)[1..] == rest;
  }

  /** Each piece stands for itself: trimmed, and left out if nothing remains. */
  lemma {:induction false} TokensExactly(before: seq<string>, piece: string, after: seq<string>)
    ensures Tokens(before + [piece] + after)
            == Tokens(before) + (if Trim(piece) == "" then [] else [Trim(piece)]) + Tokens(after)
  {
    if before == [] {
      assert before + [piece] + after == [piece] + after;
      TokensOfFirst(piece, after);
    } else {
      var rest := before[1..] + [piece] + after;
      TokensExactly(before[1..], piece, after);
      assert before == [before[0]] + before[1..] && before + [piece] + after == [before[0]] + rest;
      TokensOfFirst(before[0], before[1..]);
      TokensOfFirst(before[0], rest);
    }
  }

  /** A token as the comma-separated lists produce it. */
  predicate IsListToken(t: string) { t != "" && IsTrimmed(t) && HasNo(t, ',') }

  predicate AllListTokens(ts: seq<string>) { forall t :: t in ts ==> IsListToken(t) }

  lemma {:induction false} TokensAreListTokens(pieces: seq<string>)
    requires forall i :: 0 <= i < |pieces| ==> HasNo(pieces[i], ',')
    ensures AllListTokens(Tokens(pieces))
  {
    if pieces == [] {
    } else {
      TrimIsTrimmed(pieces[0]);
      TokensAreListTokens(pieces[1..]);
    }
  }

  lemma SplitCsvYieldsListTokens(s: string)
    ensures AllListTokens(SplitCsv(s))
  {
    SplitPieces(s, ',');
    TokensAreListTokens(Split(s, ','));
  }

  lemma TokensCons(piece: string, t: string, rest: seq<string>)
    requires IsListToken(t) && (piece == t || piece == " " + t)
    ensures Tokens([piece] + rest) == [t] + Tokens(rest)
  {
    TrimOfTrimmed(t);
    assert ([piece] + rest)[1..] == rest;
  }

  lemma SplitJoinStep(t: string, lead: string, rest: string)
    requires IsListToken(t) && (lead == "" || lead == " ")
    ensures Tokens(Split(lead + t + [','] + rest, ',')) == [t] + Tokens(Split(rest, ','))
    ensures Tokens(Split(lead + t, ',')) == [t]
  {
    var piece := lead + t;
    assert HasNo(piece, ',');
    assert piece == t || piece == " " + t;
    SplitAtSeparator(piece, ',', rest);
    TokensCons(piece, t, Split(rest, ','));
    TokensCons(piece, t, []);
    assert [piece] + [] == [piece];
  }

  lemma {:induction false} SplitJoinLead(tokens: seq<string>, lead: string)
    requires AllListTokens(tokens) && tokens != [] && (lead == "" || lead == " ")
    ensures Tokens(Split(lead + Join(tokens), ',')) == tokens
  {
    var t, more := tokens[0], tokens[1..];
    assert IsListToken(t);
    if more == [] {
      SplitJoinStep(t, lead, "");
    } else {
      var rest := " " + Join(more);
      SplitJoinLead(more, " ");
      SplitJoinStep(t, lead, rest);
      JoinCons(tokens, lead);
    }
  }

  lemma JoinCons(tokens: seq<string>, lead: string)
    requires |tokens| > 1
    ensures lead + Join(tokens) == lead + tokens[0] + [','] + (" " + Join(tokens[1..]))
  {
  }

  /** Splitting and trimming a joined list gives the list back. */
  lemma SplitCsvOfJoin(tokens: seq<string>)
    requires AllListTokens(tokens)
    ensures SplitCsv(Join(tokens)) == tokens
  {
    if tokens == [] {
      assert Split("", ',') == [""] && Trim("") == "";
      assert Tokens([""]) == [] + Tokens([]);
    } else {
      SplitJoinLead(tokens, "");
      assert "" + Join(tokens) == Join(tokens);
    }
  }
}
