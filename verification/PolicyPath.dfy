/**
 The policy path normalizer: the query is dropped, percent escapes (section 2.1 of RFC 3986) are
 decoded exactly once (section 2.4), and ambiguous paths are refused.
 */
module PolicyPath {
  import opened Wrappers
  import opened Utf8
  import opened Text

  const MAX_PATH_LEN := 8192
  const SLASH: byte := 47
  const DOT: byte := 46
  const PERCENT: byte := 37
  const QUESTION: byte := 63
  const BACKSLASH: byte := 92
  const HASH: byte := 35

  /** `is_ascii_control` */
  predicate IsControlByte(b: byte) { b < 32 || b == 127 }

  /** `hex_value` */
  function HexByte(b: byte): int { HexValue(b as char) }

  // ----- Percent decoding, once, with no judgement on the result -----

  /** One decoded byte, and whether an escape produced it. */
  datatype Unit = Unit(b: byte, escaped: bool)

  /** The first unit of a raw path and how many bytes it takes; nothing for a malformed escape. */
  function FirstUnit(raw: seq<byte>): (r: Option<(Unit, nat)>)
    ensures r.Some? ==> 1 <= r.value.1 <= |raw|
  {
    if raw == [] then None
    else if raw[0] != PERCENT then Some((Unit(raw[0], false), 1))
    else if |raw| < 3 || HexByte(raw[1]) < 0 || HexByte(raw[2]) < 0 then None
    else Some((Unit(HexByte(raw[1]) * 16 + HexByte(raw[2]), true), 3))
  }

  function Percent(raw: seq<byte>): (r: Option<seq<Unit>>)
    ensures r.Some? ==> |r.value| <= |raw|
  {
    if raw == [] then Some([])
    else
      var first :- FirstUnit(raw);
      var rest :- Percent(raw[first.1..]);
      Some([first.0] + rest)
  }

  function BytesOf(units: seq<Unit>): (r: seq<byte>)
    ensures |r| == |units|
  {
    seq(|units|, i requires 0 <= i < |units| => units[i].b)
  }

  // ----- What makes a path clean -----

  predicate IsCleanByte(b: byte) {
    b != PERCENT && b != QUESTION && b != HASH && b != BACKSLASH && !IsControlByte(b)
  }

  /** Two slashes in a row somewhere. */
  predicate HasEmptySegment(p: seq<byte>) {
    exists i :: 0 <= i < |p| - 1 && p[i] == SLASH && p[i + 1] == SLASH
  }

  /** From `start` on, the path is a dot segment: one or two dots up to a slash or the end. */
  predicate DotSegmentAt(p: seq<byte>, start: nat) {
    || (start < |p| && p[start] == DOT && (start + 1 == |p| || p[start + 1] == SLASH))
    || (start + 1 < |p| && p[start] == DOT && p[start + 1] == DOT && (start + 2 == |p| || p[start + 2] == SLASH))
  }

  predicate HasDotSegment(p: seq<byte>) {
    exists i :: 0 <= i < |p| && p[i] == SLASH && DotSegmentAt(p, i + 1)
  }

  predicate IsClean(p: seq<byte>) {
    && p != [] && p[0] == SLASH
    && |p| <= MAX_PATH_LEN
    && (forall i :: 0 <= i < |p| ==> IsCleanByte(p[i]))
    && !HasEmptySegment(p) && !HasDotSegment(p)
    && Decode(p).Some?
  }

  /** The path without its query. */
  function Unqueried(path: seq<byte>): (r: seq<byte>)
    ensures r <= path
    ensures forall i :: 0 <= i < |r| ==> r[i] != QUESTION
  {
    if path == [] || path[0] == QUESTION then [] else [path[0]] + Unqueried(path[1..])
  }

  predicate NoEscapedSlash(units: seq<Unit>) {
    forall i :: 0 <= i < |units| && units[i].escaped ==> units[i].b != SLASH
  }

  /**
   The normal form of a path: an empty path is the root; any other is accepted exactly when it starts
   with a slash, is within the bound, decodes once to a clean path and escapes no slash.
   */
  function Normalize(path: seq<byte>): Option<seq<byte>> {
    var raw := Unqueried(path);
    if raw == [] then Some([SLASH])
    else if raw[0] != SLASH || |raw| > MAX_PATH_LEN then None
    else
      var units := Percent(raw);
      if units.Some? && NoEscapedSlash(units.value) && IsClean(BytesOf(units.value))
      then Some(BytesOf(units.value)) else None
  }

  // ----- The implementation -----

  /** What the byte loop refuses, escape by escape and byte by byte. */
  predicate UnitRefused(u: Unit) {
    if u.escaped then
      u.b == PERCENT || u.b == SLASH || u.b == BACKSLASH || u.b == QUESTION || u.b == HASH || IsControlByte(u.b)
    else u.b == BACKSLASH || u.b == HASH || IsControlByte(u.b)
  }

  predicate NoneRefused(units: seq<Unit>) { forall i :: 0 <= i < |units| ==> !UnitRefused(units[i]) }

  /** The unit that starts at `index`, as the loop reads it. */
  function UnitAt(input: seq<byte>, index: nat): Option<(Unit, nat)>
    requires index < |input|
  {
    if input[index] != PERCENT then Some((Unit(input[index], false), 1))
    else if index + 2 >= |input| || HexByte(input[index + 1]) < 0 || HexByte(input[index + 2]) < 0 then None
    else Some((Unit(HexByte(input[index + 1]) * 16 + HexByte(input[index + 2]), true), 3))
  }

  function Prefixed(units: seq<Unit>, rest: Option<seq<Unit>>): Option<seq<Unit>> {
    if rest.None? then None else Some(units + rest.value)
  }

  lemma UnitAtIsTheFirst(input: seq<byte>, index: nat)
    requires index < |input|
    ensures FirstUnit(input[index..]) == UnitAt(input, index)
  {
    var rest := input[index..];
    assert rest[0] == input[index];
    if |rest| >= 3 { assert rest[1] == input[index + 1] && rest[2] == input[index + 2]; }
  }

  lemma PercentStep(raw: seq<byte>)
    requires raw != []
    ensures Percent(raw)
            == match FirstUnit(raw) case None => None case Some(first) => Prefixed([first.0], Percent(raw[first.1..]))
  {
  }

  lemma PercentAt(input: seq<byte>, index: nat)
    requires index < |input|
    ensures UnitAt(input, index).None? ==> Percent(input[index..]).None?
    ensures UnitAt(input, index).Some? ==>
              var (u, width) := UnitAt(input, index).value;
              index + width <= |input| && Percent(input[index..]) == Prefixed([u], Percent(input[index + width..]))
  {
    var rest := input[index..];
    UnitAtIsTheFirst(input, index);
    PercentStep(rest);
    if UnitAt(input, index).Some? {
      var width := UnitAt(input, index).value.1;
      assert rest[width..] == input[index + width..];
    }
  }

  lemma Regroup(units: seq<Unit>, u: Unit, rest: Option<seq<Unit>>)
    ensures Prefixed(units, Prefixed([u], rest)) == Prefixed(units + [u], rest)
  {
    if rest.Some? { assert units + ([u] + rest.value) == units + [u] + rest.value; }
  }

  /** One round of reading: `all` is what the whole input decodes to. */
  lemma ReadStep(input: seq<byte>, index: nat, units: seq<Unit>, all: Option<seq<Unit>>)
    requires index < |input| && all == Prefixed(units, Percent(input[index..]))
    ensures UnitAt(input, index).None? ==> all.None?
    ensures UnitAt(input, index).Some? ==>
              var (u, width) := UnitAt(input, index).value;
              index + width <= |input| && all == Prefixed(units + [u], Percent(input[index + width..]))
  {
    PercentAt(input, index);
    if UnitAt(input, index).Some? {
      var (u, width) := UnitAt(input, index).value;
      Regroup(units, u, Percent(input[index + width..]));
    }
  }

  lemma RefusalStays(units: seq<Unit>, u: Unit, rest: Option<seq<Unit>>)
    requires UnitRefused(u)
    ensures var all := Prefixed(units + [u], rest); all.Some? ==> !NoneRefused(all.value)
  {
    if rest.Some? { assert (units + [u] + rest.value)[|units|] == u; }
  }

  lemma NothingRead(input: seq<byte>)
    ensures Percent(input) == Prefixed([], Percent(input[0..]))
  {
    assert input[0..] == input;
    if Percent(input).Some? { assert [] + Percent(input).value == Percent(input).value; }
  }

  lemma AllRead(input: seq<byte>, units: seq<Unit>)
    ensures Prefixed(units, Percent(input[|input|..])) == Some(units)
  {
    assert input[|input|..] == [];
    assert units + [] == units;
  }

  lemma Appended(units: seq<Unit>, u: Unit)
    requires NoneRefused(units) && !UnitRefused(u)
    ensures NoneRefused(units + [u]) && BytesOf(units + [u]) == BytesOf(units) + [u.b]
  {
  }

  /** The loop over the bytes: decodes each escape once and refuses at the first offending unit. */
  method DecodeOnce(input: seq<byte>) returns (decoded: Option<seq<byte>>, ghost units: seq<Unit>)
    ensures decoded.Some? <==> Percent(input).Some? && NoneRefused(Percent(input).value)
    ensures decoded.Some? ==> Percent(input) == Some(units) && decoded.value == BytesOf(units)
  {
    var output: seq<byte> := [];
    units := [];
    var index := 0;
    NothingRead(input);
    while index < |input|
      invariant index <= |input| && NoneRefused(units) && output == BytesOf(units)
      invariant Percent(input) == Prefixed(units, Percent(input[index..]))
    {
      ReadStep(input, index, units, Percent(input));
      var unit := UnitAt(input, index);
      if unit.None? { return None, units; }
      var (u, width) := unit.value;
      if UnitRefused(u) {
        RefusalStays(units, u, Percent(input[index + width..]));
        return None, units;
      }
      Appended(units, u);
      units := units + [u];
      output := output + [u.b];
      index := index + width;
    }
    AllRead(input, units);
    decoded := Some(output);
  }

  /** `split('/')` */
  function Segments(p: seq<byte>): (r: seq<seq<byte>>)
    ensures |r| >= 1
  {
    if p == [] then [[]]
    else
      var rest := Segments(p[1..]);
      if p[0] == SLASH then [[]] + rest else [[p[0]] + rest[0]] + rest[1..]
  }

  predicate IsDots(segment: seq<byte>) { segment == [DOT] || segment == [DOT, DOT] }

  /** Some segment from index `from` on is a dot segment. */
  predicate AnyDots(segments: seq<seq<byte>>, from: nat) {
    exists i :: from <= i < |segments| && IsDots(segments[i])
  }

  /** `normalize_policy_path` */
  method NormalizePolicyPath(path: seq<byte>) returns (normalized: Option<seq<byte>>)
    ensures normalized == Normalize(path)
  {
    var raw := Unqueried(path);
    if raw == [] { return Some([SLASH]); }
    if raw[0] != SLASH || |raw| > MAX_PATH_LEN { return None; }
    var decoded, units := DecodeOnce(raw);
    if Percent(raw).Some? { RefusedOrUnclean(raw); }
    if decoded.None? { return None; }
    var p := decoded.value;
    if Decode(p).None? { return None; }
    var segments := Segments(p);
    DotSegmentsAgree(p);
    if |p| > MAX_PATH_LEN || HasEmptySegment(p) || AnyDots(segments, 1) { return None; }
    normalized := Some(p);
  }

  lemma {:induction false} UnescapedUnits(raw: seq<byte>)
    requires Percent(raw).Some?
    ensures forall i :: 0 <= i < |Percent(raw).value| && !Percent(raw).value[i].escaped ==>
                          Percent(raw).value[i].b != PERCENT && Percent(raw).value[i].b in raw
  {
    if raw == [] {
    } else {
      UnescapedUnits(raw[FirstUnit(raw).value.1..]);
    }
  }

  /** The loop refuses exactly the escaped slashes and the unclean bytes. */
  lemma RefusedOrUnclean(raw: seq<byte>)
    requires raw != [] && raw[0] == SLASH && QUESTION !in raw && Percent(raw).Some?
    ensures var units := Percent(raw).value;
            && units != [] && BytesOf(units)[0] == SLASH
            && (NoneRefused(units)
                <==> NoEscapedSlash(units) && forall i :: 0 <= i < |units| ==> IsCleanByte(BytesOf(units)[i]))
  {
    var units := Percent(raw).value;
    UnescapedUnits(raw);
    assert units[0] == Unit(SLASH, false);
    if NoEscapedSlash(units) && forall i :: 0 <= i < |units| ==> IsCleanByte(BytesOf(units)[i]) {
      forall i | 0 <= i < |units| ensures !UnitRefused(units[i]) { assert BytesOf(units)[i] == units[i].b; }
    }
  }

  lemma FirstSegment(p: seq<byte>)
    ensures Segments(p)[0] == if p == [] || p[0] == SLASH then [] else [p[0]] + Segments(p[1..])[0]
  {
  }

  lemma FirstSegmentIsDots(p: seq<byte>)
    ensures IsDots(Segments(p)[0]) <==> DotSegmentAt(p, 0)
  {
    FirstSegment(p);
    if p != [] && p[0] != SLASH {
      var q := p[1..];
      FirstSegment(q);
      if q != [] && q[0] != SLASH {
        FirstSegment(q[1..]);
        assert q[0] == p[1] && (|p| > 2 ==> q[1..][0] == p[2]);
      }
    }
  }

  /** A dot segment of `p` is one of its tail, or starts right after a leading slash. */
  lemma TailShift(p: seq<byte>)
    requires p != []
    ensures HasDotSegment(p) <==> HasDotSegment(p[1..]) || (p[0] == SLASH && DotSegmentAt(p[1..], 0))
  {
    var q := p[1..];
    if HasDotSegment(p) {
      var i :| 0 <= i < |p| && p[i] == SLASH && DotSegmentAt(p, i + 1);
      if i > 0 { assert q[i - 1] == SLASH && DotSegmentAt(q, i - 1 + 1); }
    }
    if HasDotSegment(q) {
      var i :| 0 <= i < |q| && q[i] == SLASH && DotSegmentAt(q, i + 1);
      assert p[i + 1] == SLASH && DotSegmentAt(p, i + 1 + 1);
    }
    if p[0] == SLASH && DotSegmentAt(q, 0) { assert DotSegmentAt(p, 0 + 1); }
  }

  lemma SegmentShift(p: seq<byte>)
    requires p != []
    ensures AnyDots(Segments(p), 1)
            <==> AnyDots(Segments(p[1..]), 1) || (p[0] == SLASH && IsDots(Segments(p[1..])[0]))
  {
    var s, t := Segments(p), Segments(p[1..]);
    var shift := if p[0] == SLASH then 1 else 0;
    assert forall i :: 1 - shift <= i < |t| ==> s[i + shift] == t[i];
    if AnyDots(s, 1) {
      var i :| 1 <= i < |s| && IsDots(s[i]);
      assert IsDots(t[i - shift]);
    }
    if AnyDots(t, 1) {
      var i :| 1 <= i < |t| && IsDots(t[i]);
      assert IsDots(s[i + shift]);
    }
    if p[0] == SLASH && IsDots(t[0]) { assert IsDots(s[1]); }
  }

  /** Splitting at slashes finds a dot segment exactly when the indices show one. */
  lemma {:induction false} DotSegmentsAgree(p: seq<byte>)
    ensures AnyDots(Segments(p), 1) <==> HasDotSegment(p)
  {
    if p == [] {
    } else {
      DotSegmentsAgree(p[1..]);
      FirstSegmentIsDots(p[1..]);
      TailShift(p);
      SegmentShift(p);
    }
  }

  // ----- Normal forms -----

  lemma RootIsClean()
    ensures IsClean([SLASH])
  {
  }

  /** Every output is clean. */
  lemma NormalizedIsClean(path: seq<byte>)
    requires Normalize(path).Some?
    ensures IsClean(Normalize(path).value)
  {
    RootIsClean();
  }

  // ----- Spellings -----

  /** How one byte is spelled: as itself, or escaped with the given digits in upper or lower case. */
  datatype Spelling = Plain | Escaped(upperHigh: bool, upperLow: bool)

  function HexDigitByte(d: nat, upper: bool): byte requires d < 16 {
    if d < 10 then 48 + d else if upper then 65 + (d - 10) else 97 + (d - 10)
  }

  function Spell(b: byte, s: Spelling): (r: seq<byte>)
    ensures r != []
  {
    match s
    case Plain => [b]
    case Escaped(high, low) => [PERCENT, HexDigitByte(b / 16, high), HexDigitByte(b % 16, low)]
  }

  function SpellAll(p: seq<byte>, how: seq<Spelling>): seq<byte>
    requires |p| == |how|
  {
    if p == [] then [] else Spell(p[0], how[0]) + SpellAll(p[1..], how[1..])
  }

  /** Every slash is spelled as itself. */
  predicate SlashesPlain(p: seq<byte>, how: seq<Spelling>)
    requires |p| == |how|
  {
    forall i :: 0 <= i < |p| && p[i] == SLASH ==> how[i] == Plain
  }

  function UnitsOf(p: seq<byte>, how: seq<Spelling>): (r: seq<Unit>)
    requires |p| == |how|
    ensures |r| == |p|
  {
    seq(|p|, i requires 0 <= i < |p| => Unit(p[i], how[i].Escaped?))
  }

  lemma SpelledDigit(d: nat, upper: bool)
    requires d < 16
    ensures HexByte(HexDigitByte(d, upper)) == d && HexDigitByte(d, upper) != QUESTION
  {
  }

  lemma FirstOfSpelled(b: byte, s: Spelling, rest: seq<byte>)
    requires IsCleanByte(b)
    ensures FirstUnit(Spell(b, s) + rest) == Some((Unit(b, s.Escaped?), |Spell(b, s)|))
    ensures QUESTION !in Spell(b, s)
  {
    if s.Escaped? {
      SpelledDigit(b / 16, s.upperHigh);
      SpelledDigit(b % 16, s.upperLow);
    }
  }

  lemma {:induction false} PercentOfSpelled(p: seq<byte>, how: seq<Spelling>)
    requires |p| == |how| && forall i :: 0 <= i < |p| ==> IsCleanByte(p[i])
    ensures Percent(SpellAll(p, how)) == Some(UnitsOf(p, how))
    ensures QUESTION !in SpellAll(p, how)
  {
    if p == [] {
    } else {
      var front, rest := Spell(p[0], how[0]), SpellAll(p[1..], how[1..]);
      PercentOfSpelled(p[1..], how[1..]);
      FirstOfSpelled(p[0], how[0], rest);
      PercentStep(front + rest);
      assert (front + rest)[|front|..] == rest;
      assert UnitsOf(p, how) == [Unit(p[0], how[0].Escaped?)] + UnitsOf(p[1..], how[1..]);
    }
  }

  lemma {:induction false} UnqueriedPrefix(raw: seq<byte>, query: seq<byte>)
    requires QUESTION !in raw && (query == [] || query[0] == QUESTION)
    ensures Unqueried(raw + query) == raw
  {
    if raw == [] {
      assert raw + query == query;
    } else {
      assert (raw + query)[1..] == raw[1..] + query;
      UnqueriedPrefix(raw[1..], query);
      assert [raw[0]] + raw[1..] == raw;
    }
  }

  /**
   Every spelling of a clean path, with any subset of its other bytes escaped in either case and any
   query after it, normalizes to that path.
   */
  lemma SpellingsNormalizeAlike(p: seq<byte>, how: seq<Spelling>, query: seq<byte>)
    requires IsClean(p) && |p| == |how| && SlashesPlain(p, how)
    requires |SpellAll(p, how)| <= MAX_PATH_LEN
    requires query == [] || query[0] == QUESTION
    ensures Normalize(SpellAll(p, how) + query) == Some(p)
  {
    var raw, units := SpellAll(p, how), UnitsOf(p, how);
    PercentOfSpelled(p, how);
    UnqueriedPrefix(raw, query);
    assert raw[0] == SLASH;
    assert BytesOf(units) == p;
  }

  /** The spelling of the first unit of a raw path. */
  function FirstSpelling(raw: seq<byte>): Spelling
    requires FirstUnit(raw).Some?
  {
    if raw[0] != PERCENT then Plain else Escaped(65 <= raw[1] <= 70, 65 <= raw[2] <= 70)
  }

  /** The spelling that a raw path uses. */
  function SpellingOf(raw: seq<byte>): (how: seq<Spelling>)
    requires Percent(raw).Some?
    ensures |how| == |Percent(raw).value|
  {
    if raw == [] then [] else [FirstSpelling(raw)] + SpellingOf(raw[FirstUnit(raw).value.1..])
  }

  lemma DigitSpelled(b: byte)
    requires HexByte(b) >= 0
    ensures HexDigitByte(HexByte(b), 65 <= b <= 70) == b
  {
  }

  lemma HexPair(high: int, low: int)
    requires 0 <= high < 16 && 0 <= low < 16
    ensures (high * 16 + low) / 16 == high && (high * 16 + low) % 16 == low
  {
  }

  lemma FirstSpelled(raw: seq<byte>)
    requires FirstUnit(raw).Some?
    ensures var (u, width) := FirstUnit(raw).value;
            Spell(u.b, FirstSpelling(raw)) == raw[..width] && FirstSpelling(raw).Escaped? == u.escaped
  {
    if raw[0] == PERCENT {
      HexPair(HexByte(raw[1]), HexByte(raw[2]));
      DigitSpelled(raw[1]);
      DigitSpelled(raw[2]);
    }
  }

  lemma SpellingStep(raw: seq<byte>)
    requires raw != [] && Percent(raw).Some?
    ensures FirstUnit(raw).Some?
    ensures var (u, width) := FirstUnit(raw).value;
            && Percent(raw[width..]).Some?
            && Percent(raw).value == [u] + Percent(raw[width..]).value
            && SpellingOf(raw) == [FirstSpelling(raw)] + SpellingOf(raw[width..])
  {
  }

  lemma {:induction false} SpellingRecovered(raw: seq<byte>)
    requires Percent(raw).Some?
    ensures SpellAll(BytesOf(Percent(raw).value), SpellingOf(raw)) == raw
  {
    if raw == [] {
    } else {
      SpellingStep(raw);
      var (u, width) := FirstUnit(raw).value;
      FirstSpelled(raw);
      SpellingRecovered(raw[width..]);
      Respelled(raw, width, u, FirstSpelling(raw), Percent(raw[width..]).value, SpellingOf(raw[width..]));
    }
  }

  lemma Respelled(raw: seq<byte>, width: nat, u: Unit, s: Spelling, units: seq<Unit>, how: seq<Spelling>)
    requires width <= |raw| && |units| == |how|
    requires Spell(u.b, s) == raw[..width] && SpellAll(BytesOf(units), how) == raw[width..]
    ensures SpellAll(BytesOf([u] + units), [s] + how) == raw
  {
    SpellAllCons(u, units, s, how);
    assert raw == raw[..width] + raw[width..];
  }

  lemma SpellAllCons(u: Unit, units: seq<Unit>, s: Spelling, how: seq<Spelling>)
    requires |units| == |how|
    ensures SpellAll(BytesOf([u] + units), [s] + how) == Spell(u.b, s) + SpellAll(BytesOf(units), how)
  {
    assert BytesOf([u] + units) == [u.b] + BytesOf(units);
    assert ([s] + how)[1..] == how && ([u.b] + BytesOf(units))[1..] == BytesOf(units);
  }

  lemma {:induction false} EscapesRecovered(raw: seq<byte>)
    requires Percent(raw).Some?
    ensures forall i :: 0 <= i < |SpellingOf(raw)| ==> SpellingOf(raw)[i].Escaped? == Percent(raw).value[i].escaped
  {
    if raw == [] {
    } else {
      var units, how := Percent(raw).value, SpellingOf(raw);
      FirstSpelled(raw);
      EscapesRecovered(raw[FirstUnit(raw).value.1..]);
      forall i | 1 <= i < |how| ensures how[i].Escaped? == units[i].escaped {
        assert how[i] == how[1..][i - 1] && units[i] == units[1..][i - 1];
      }
    }
  }

  /** Conversely, an accepted non-empty path is such a spelling of its normal form, and nothing else. */
  lemma AcceptedPathsAreSpellings(path: seq<byte>)
    requires Normalize(path).Some? && Unqueried(path) != []
    ensures var raw, p := Unqueried(path), Normalize(path).value;
            exists how :: |how| == |p| && SlashesPlain(p, how) && SpellAll(p, how) == raw
  {
    var raw, p := Unqueried(path), Normalize(path).value;
    SpellingRecovered(raw);
    EscapesRecovered(raw);
    var how := SpellingOf(raw);
    forall i | 0 <= i < |p| && p[i] == SLASH ensures how[i] == Plain {
      assert Percent(raw).value[i].b == SLASH;
    }
    assert |how| == |p| && SlashesPlain(p, how) && SpellAll(p, how) == raw;
  }

  lemma {:induction false} PlainSpelling(p: seq<byte>, how: seq<Spelling>)
    requires |how| == |p| && forall i :: 0 <= i < |p| ==> how[i] == Plain
    ensures SpellAll(p, how) == p
  {
    if p == [] {
    } else {
      PlainSpelling(p[1..], how[1..]);
      assert [p[0]] + p[1..] == p;
    }
  }

  /** The fixpoints are the clean paths, and these are the outputs. */
  lemma FixpointsAreTheOutputs(p: seq<byte>)
    ensures IsClean(p) <==> Normalize(p) == Some(p)
    ensures Normalize(p) == Some(p) <==> exists path :: Normalize(path) == Some(p)
  {
    if IsClean(p) {
      var how := seq(|p|, _ => Plain);
      PlainSpelling(p, how);
      SpellingsNormalizeAlike(p, how, []);
      assert p + [] == p;
    }
    if path :| Normalize(path) == Some(p) { NormalizedIsClean(path); }
  }

  /** Normalizing twice is normalizing once. */
  lemma NormalizeIsIdempotent(path: seq<byte>)
    requires Normalize(path).Some?
    ensures Normalize(Normalize(path).value) == Normalize(path)
  {
    FixpointsAreTheOutputs(Normalize(path).value);
  }

  // ----- The normalizer, both ways, in terms of segments -----

  function JoinedSegments(segments: seq<seq<byte>>): seq<byte>
    requires segments != []
  {
    if |segments| == 1 then segments[0] else segments[0] + [47] + JoinedSegments(segments[1..])
  }

  /** Splitting at slashes is undone by joining, and leaves none inside a segment. */
  lemma {:induction false} SegmentsExactly(p: seq<byte>)
    ensures JoinedSegments(Segments(p)) == p
    ensures forall i :: 0 <= i < |Segments(p)| ==> 47 !in Segments(p)[i]
  {
    if p == [] {
    } else {
      var s, rest := Segments(p), Segments(p[1..]);
      SegmentsExactly(p[1..]);
      if p[0] == SLASH {
        assert s[1..] == rest;
        assert p == [] + [47] + p[1..];
      } else {
        assert s[1..] == rest[1..] && s[0] == [p[0]] + rest[0];
        assert p == [p[0]] + p[1..];
        if |rest| > 1 {
          assert s[0] + [47] + JoinedSegments(s[1..]) == [p[0]] + (rest[0] + [47] + JoinedSegments(rest[1..]));
        }
      }
      forall i | 0 <= i < |s| ensures 47 !in s[i] {
        if p[0] == SLASH && i > 0 { assert s[i] == rest[i - 1]; }
        if p[0] != SLASH && i > 0 { assert s[i] == rest[i]; }
      }
    }
  }

  /** Some segment that is neither first nor last is empty. */
  predicate HasEmptyInner(segments: seq<seq<byte>>) { exists i :: 1 <= i < |segments| - 1 && segments[i] == [] }

  lemma EmptyShift(p: seq<byte>)
    requires p != []
    ensures HasEmptyInner(Segments(p))
            <==> HasEmptyInner(Segments(p[1..])) || (p[0] == SLASH && p[1..] != [] && p[1] == SLASH)
  {
    var s, t := Segments(p), Segments(p[1..]);
    var shift := if p[0] == SLASH then 1 else 0;
    assert forall i :: 1 - shift <= i < |t| ==> s[i + shift] == t[i];
    FirstSegment(p[1..]);
    if HasEmptyInner(s) {
      var i :| 1 <= i < |s| - 1 && s[i] == [];
      assert t[i - shift] == [];
    }
    if HasEmptyInner(t) {
      var i :| 1 <= i < |t| - 1 && t[i] == [];
      assert s[i + shift] == [];
    }
    if p[0] == SLASH && p[1..] != [] && p[1] == SLASH { assert t[0] == [] && s[1] == [] && |t| >= 2; }
  }

  lemma EmptySegmentTail(p: seq<byte>)
    requires p != []
    ensures HasEmptySegment(p)
            <==> HasEmptySegment(p[1..]) || (p[0] == SLASH && p[1..] != [] && p[1] == SLASH)
  {
    var q := p[1..];
    if HasEmptySegment(p) {
      var i :| 0 <= i < |p| - 1 && p[i] == SLASH && p[i + 1] == SLASH;
      if i > 0 { assert q[i - 1] == SLASH && q[i - 1 + 1] == SLASH; }
    }
    if HasEmptySegment(q) {
      var i :| 0 <= i < |q| - 1 && q[i] == SLASH && q[i + 1] == SLASH;
      assert p[i + 1] == SLASH && p[i + 1 + 1] == SLASH;
    }
    if p[0] == SLASH && q != [] && p[1] == SLASH { assert p[0] == SLASH && p[0 + 1] == SLASH; }
  }

  /** Two slashes in a row are an empty inner segment. */
  lemma {:induction false} EmptySegmentsAgree(p: seq<byte>)
    ensures HasEmptySegment(p) <==> HasEmptyInner(Segments(p))
  {
    if p == [] {
    } else {
      EmptySegmentsAgree(p[1..]);
      EmptyShift(p);
      EmptySegmentTail(p);
    }
  }

  /**
   A path without ambiguity: a leading slash, at most 8192 bytes, UTF-8, no control byte and none of
   `%?#\`, and segments that are not dots and, but for the last, not empty.
   */
  predicate IsUnambiguous(p: seq<byte>) {
    && 1 <= |p| <= 8192 && p[0] == 47 && Decode(p).Some?
    && (forall i :: 0 <= i < |p| ==> p[i] >= 32 && p[i] !in {127, 37, 63, 35, 92})
    && (forall i :: 1 <= i < |Segments(p)| ==> Segments(p)[i] != [46] && Segments(p)[i] != [46, 46])
    && (forall i :: 1 <= i < |Segments(p)| - 1 ==> Segments(p)[i] != [])
  }

  lemma CleanExactly(p: seq<byte>)
    ensures IsClean(p) <==> IsUnambiguous(p)
  {
    DotSegmentsAgree(p);
    EmptySegmentsAgree(p);
    if forall i :: 0 <= i < |p| ==> p[i] >= 32 && p[i] !in {127, 37, 63, 35, 92} {
      forall i | 0 <= i < |p| ensures IsCleanByte(p[i]) {}
    }
    if forall i :: 0 <= i < |p| ==> IsCleanByte(p[i]) {
      forall i | 0 <= i < |p| ensures p[i] >= 32 && p[i] !in {127, 37, 63, 35, 92} { assert IsCleanByte(p[i]); }
    }
  }

  /** `raw` spells `p` with some of its bytes but no slash escaped, or is empty for the root. */
  ghost predicate Writes(raw: seq<byte>, p: seq<byte>) {
    || (raw == [] && p == [47])
    || (|raw| <= 8192 && exists how :: |how| == |p| && SlashesPlain(p, how) && SpellAll(p, how) == raw)
  }

  lemma {:induction false} QueryFollows(path: seq<byte>)
    ensures var query := path[|Unqueried(path)|..]; query == [] || query[0] == 63
  {
    if path == [] || path[0] == QUESTION {
    } else {
      QueryFollows(path[1..]);
      assert path[|Unqueried(path)|..] == path[1..][|Unqueried(path[1..])|..];
    }
  }

  lemma AcceptedIsWritten(path: seq<byte>, p: seq<byte>)
    requires Normalize(path) == Some(p)
    ensures IsUnambiguous(p) && Writes(Unqueried(path), p)
  {
    NormalizedIsClean(path);
    CleanExactly(p);
    if Unqueried(path) != [] { AcceptedPathsAreSpellings(path); }
  }

  lemma WrittenIsAccepted(raw: seq<byte>, query: seq<byte>, p: seq<byte>)
    requires 63 !in raw && (query == [] || query[0] == 63)
    requires IsUnambiguous(p) && Writes(raw, p)
    ensures Normalize(raw + query) == Some(p)
  {
    UnqueriedPrefix(raw, query);
    CleanExactly(p);
    if raw != [] {
      var how :| |how| == |p| && SlashesPlain(p, how) && SpellAll(p, how) == raw;
      SpellingsNormalizeAlike(p, how, query);
    }
  }

  /** Which paths normalize to what, both ways: a raw path that writes an unambiguous one, then any query. */
  lemma NormalizesExactly(path: seq<byte>, p: seq<byte>)
    ensures Normalize(path) == Some(p)
            <==> && IsUnambiguous(p)
                 && exists raw, query :: path == raw + query && 63 !in raw && (query == [] || query[0] == 63)
                                         && Writes(raw, p)
  {
    if Normalize(path) == Some(p) {
      var raw, query := Unqueried(path), path[|Unqueried(path)|..];
      AcceptedIsWritten(path, p);
      QueryFollows(path);
      assert path == raw + query && 63 !in raw && (query == [] || query[0] == 63) && Writes(raw, p);
    }
    forall raw, query | path == raw + query && 63 !in raw && (query == [] || query[0] == 63)
                        && IsUnambiguous(p) && Writes(raw, p)
      ensures Normalize(path) == Some(p)
    {
      WrittenIsAccepted(raw, query, p);
    }
  }
}
