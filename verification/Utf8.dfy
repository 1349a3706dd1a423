/**
 UTF-8 (section 3 of RFC 3629) between Rust `String`s, modelled as sequences of Unicode
 scalar values, and the byte strings the host and the wire carry.
 */
module Utf8 {
  import opened Wrappers

  type byte = b: int | 0 <= b < 256

  function EncodeChar(c: char): (b: seq<byte>)
    ensures 1 <= |b| <= 4
  {
    var n := c as int;
    if n < 0x80 then [n]
    else if n < 0x800 then [0xC0 + n / 64, 0x80 + n % 64]
    else if n < 0x10000 then [0xE0 + n / 64 / 64, 0x80 + n / 64 % 64, 0x80 + n % 64]
    else [0xF0 + n / 64 / 64 / 64, 0x80 + n / 64 / 64 % 64, 0x80 + n / 64 % 64, 0x80 + n % 64]
  }

  function Encode(s: string): seq<byte> {
    if s == "" then [] else EncodeChar(s[0]) + Encode(s[1..])
  }

  predicate IsContinuation(b: byte) { 0x80 <= b < 0xC0 }

  /** The scalar value carried by a two-, three- or four-byte form. */
  function Join2(x: int, y: int): int { (x - 0xC0) * 64 + (y - 0x80) }
  function Join3(x: int, y: int, z: int): int { Join2(x - 0x20, y) * 64 + (z - 0x80) }
  function Join4(w: int, x: int, y: int, z: int): int {
    Join3(w - 0x10, x, y) * 64 + (z - 0x80)
  }

  /** The first scalar value of `b` and its width; overlong forms and surrogates are refused. */
  function DecodeFirst(b: seq<byte>): (r: Option<(char, nat)>)
    ensures r.Some? ==> 1 <= r.value.1 <= |b|
  {
    if b == [] then None
    else if b[0] < 0x80 then Some((b[0] as char, 1))
    else if 0xC2 <= b[0] < 0xE0 && |b| >= 2 && IsContinuation(b[1]) then
      Some((Join2(b[0], b[1]) as char, 2))
    else if 0xE0 <= b[0] < 0xF0 && |b| >= 3 && IsContinuation(b[1]) && IsContinuation(b[2]) then
      var n := Join3(b[0], b[1], b[2]);
      if n < 0x800 || 0xD800 <= n < 0xE000 then None else Some((n as char, 3))
    else if 0xF0 <= b[0] < 0xF5 && |b| >= 4
            && IsContinuation(b[1]) && IsContinuation(b[2]) && IsContinuation(b[3]) then
      var n := Join4(b[0], b[1], b[2], b[3]);
      if n < 0x10000 || n >= 0x110000 then None else Some((n as char, 4))
    else None
  }

  /** `str::from_utf8`. */
  function Decode(b: seq<byte>): Option<string> {
    if b == [] then Some("")
    else
      var first := DecodeFirst(b);
      if first.None? then None
      else
        var rest := Decode(b[first.value.1..]);
        if rest.None? then None else Some([first.value.0] + rest.value)
  }

  lemma DecodeFirstOfEncoded(c: char, rest: seq<byte>)
    ensures DecodeFirst(EncodeChar(c) + rest) == Some((c, |EncodeChar(c)|))
  {
    var e, n := EncodeChar(c), c as int;
    var b := e + rest;
    assert forall i :: 0 <= i < |e| ==> b[i] == e[i];
    if 0x80 <= n < 0x800 {
      assert Join2(b[0], b[1]) == n;
    } else if 0x800 <= n < 0x10000 {
      assert Join3(b[0], b[1], b[2]) == n;
    } else if 0x10000 <= n {
      assert Join4(b[0], b[1], b[2], b[3]) == n;
    }
  }

  /** Base-64 digits are recovered by division. */
  lemma Digit(q: int, r: int)
    requires 0 <= r < 64
    ensures (q * 64 + r) / 64 == q && (q * 64 + r) % 64 == r
  {
  }

  lemma EncodeOfDecodedFirst(b: seq<byte>)
    requires DecodeFirst(b).Some?
    ensures EncodeChar(DecodeFirst(b).value.0) == b[..DecodeFirst(b).value.1]
  {
    var (c, width) := DecodeFirst(b).value;
    if width == 1 {
    } else if width == 2 {
      Digit(b[0] - 0xC0, b[1] - 0x80);
      assert EncodeChar(c) == [b[0], b[1]];
    } else if width == 3 {
      Digit(Join2(b[0] - 0x20, b[1]), b[2] - 0x80);
      Digit(b[0] - 0xE0, b[1] - 0x80);
      assert EncodeChar(c) == [b[0], b[1], b[2]];
    } else {
      Digit(Join3(b[0] - 0x10, b[1], b[2]), b[3] - 0x80);
      Digit(Join2(b[0] - 0x30, b[1]), b[2] - 0x80);
      Digit(b[0] - 0xF0, b[1] - 0x80);
      assert EncodeChar(c) == [b[0], b[1], b[2], b[3]];
    }
  }

  /** Every string survives encoding. */
  lemma {:induction false} DecodeEncode(s: string)
    ensures Decode(Encode(s)) == Some(s)
  {
    if s == "" {
    } else {
      DecodeFirstOfEncoded(s[0], Encode(s[1..]));
      DecodeEncode(s[1..]);
      assert [s[0]] + s[1..] == s;
      assert Encode(s)[|EncodeChar(s[0])|..] == Encode(s[1..]);
    }
  }

  lemma EncodeCons(c: char, s: string)
    ensures Encode([c] + s) == EncodeChar(c) + Encode(s)
  {
    assert ([c] + s)[1..] == s;
  }

  /** Only one byte string decodes to a given text. */
  lemma {:induction false} EncodeDecode(b: seq<byte>)
    requires Decode(b).Some?
    ensures Encode(Decode(b).value) == b
  {
    if b == [] {
    } else {
      var (c, width) := DecodeFirst(b).value;
      var rest := b[width..];
      EncodeOfDecodedFirst(b);
      EncodeDecode(rest);
      Recomposed(b, c, width, Decode(rest).value);
    }
  }

  lemma Recomposed(b: seq<byte>, c: char, width: nat, s: string)
    requires width <= |b| && EncodeChar(c) == b[..width] && Encode(s) == b[width..]
    ensures Encode([c] + s) == b
  {
    EncodeCons(c, s);
    assert b == b[..width] + b[width..];
  }

  /** Bytes below 128 come from ASCII text only. */
  lemma {:induction false} AsciiBytes(s: string)
    requires forall i :: 0 <= i < |Encode(s)| ==> Encode(s)[i] < 0x80
    ensures forall i :: 0 <= i < |s| ==> s[i] < 0x80 as char
  {
    if s == "" {
    } else {
      var first, rest := EncodeChar(s[0]), Encode(s[1..]);
      assert Encode(s)[0] == first[0];
      forall i | 0 <= i < |rest| ensures rest[i] < 0x80 { assert Encode(s)[|first| + i] == rest[i]; }
      AsciiBytes(s[1..]);
      forall i | 0 <= i < |s| ensures s[i] < 0x80 as char { if i > 0 { assert s[i] == s[1..][i - 1]; } }
    }
  }

  /** An ASCII text and its bytes have the same codes. */
  lemma {:induction false} EncodeAscii(s: string)
    requires forall i :: 0 <= i < |s| ==> s[i] < 0x80 as char
    ensures |Encode(s)| == |s|
    ensures forall i :: 0 <= i < |s| ==> Encode(s)[i] == s[i] as int
  {
    if s == "" {
    } else {
      EncodeAscii(s[1..]);
      assert Encode(s) == [s[0] as int] + Encode(s[1..]);
      forall i | 0 <= i < |s| ensures Encode(s)[i] == s[i] as int {
        if i > 0 { assert Encode(s)[i] == Encode(s[1..])[i - 1] && s[1..][i - 1] == s[i]; }
      }
    }
  }
}
