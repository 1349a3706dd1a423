/** Base64url without padding (section 5 of RFC 4648) with strict trailing bits (section 3.5). */
module Base64Url {
  import opened Wrappers
  import opened Utf8

  /** The alphabet character for one six-bit value. */
  function Symbol(v: int): byte
    requires 0 <= v < 64
  {
    if v < 26 then 65 + v
    else if v < 52 then 97 + (v - 26)
    else if v < 62 then 48 + (v - 52)
    else if v == 62 then 45 else 95
  }

  /** The six-bit value of a character, or -1 outside the alphabet. */
  function SixBits(c: byte): (v: int)
    ensures -1 <= v < 64
  {
    if 65 <= c <= 90 then c - 65
    else if 97 <= c <= 122 then c - 97 + 26
    else if 48 <= c <= 57 then c - 48 + 52
    else if c == 45 then 62 else if c == 95 then 63 else -1
  }

  function Encode(b: seq<byte>): seq<byte> {
    if b == [] then []
    else if |b| == 1 then [Symbol(b[0] / 4), Symbol(b[0] % 4 * 16)]
    else if |b| == 2 then [Symbol(b[0] / 4), Symbol(b[0] % 4 * 16 + b[1] / 16), Symbol(b[1] % 16 * 4)]
    else
      [Symbol(b[0] / 4), Symbol(b[0] % 4 * 16 + b[1] / 16),
       Symbol(b[1] % 16 * 4 + b[2] / 64), Symbol(b[2] % 64)] + Encode(b[3..])
  }

  function Byte1(v: int, w: int): byte requires 0 <= v < 64 && 0 <= w < 64 { v * 4 + w / 16 }
  function Byte2(w: int, x: int): byte requires 0 <= w < 64 && 0 <= x < 64 { w % 16 * 16 + x / 4 }
  function Byte3(x: int, y: int): byte requires 0 <= x < 64 && 0 <= y < 64 { x % 4 * 64 + y }

  predicate InAlphabet(t: seq<byte>) { forall i :: 0 <= i < |t| ==> SixBits(t[i]) >= 0 }

  /** The strict decoder: four characters at a time, and no stray bits after the last byte. */
  function Decode(t: seq<byte>): Option<seq<byte>> {
    if t == [] then Some([])
    else if |t| == 1 || SixBits(t[0]) < 0 || SixBits(t[1]) < 0 then None
    else
      var v, w := SixBits(t[0]), SixBits(t[1]);
      if |t| == 2 then (if w % 16 == 0 then Some([Byte1(v, w)]) else None)
      else if SixBits(t[2]) < 0 then None
      else
        var x := SixBits(t[2]);
        if |t| == 3 then (if x % 4 == 0 then Some([Byte1(v, w), Byte2(w, x)]) else None)
        else if SixBits(t[3]) < 0 then None
        else
          var rest := Decode(t[4..]);
          if rest.None? then None
          else Some([Byte1(v, w), Byte2(w, x), Byte3(x, SixBits(t[3]))] + rest.value)
  }

  lemma SymbolRoundTrip()
    ensures forall v :: 0 <= v < 64 ==> SixBits(Symbol(v)) == v
    ensures forall c: byte :: SixBits(c) >= 0 ==> Symbol(SixBits(c)) == c
  {
  }

  /** The three bytes of a group are recovered from its four six-bit values... */
  lemma BytesOfGroup(a: byte, b: byte, c: byte)
    ensures Byte1(a / 4, a % 4 * 16 + b / 16) == a
    ensures Byte2(a % 4 * 16 + b / 16, b % 16 * 4 + c / 64) == b
    ensures Byte3(b % 16 * 4 + c / 64, c % 64) == c
    ensures a % 4 * 16 % 16 == 0 && b % 16 * 4 % 4 == 0
  {
    var w, x := a % 4 * 16 + b / 16, b % 16 * 4 + c / 64;
    assert w / 16 == a % 4 && w % 16 == b / 16;
    assert x / 4 == b % 16 && x % 4 == c / 64;
  }

  /** ... and the six-bit values from the bytes. */
  lemma GroupOfBytes(v: int, w: int, x: int, y: int)
    requires 0 <= v < 64 && 0 <= w < 64 && 0 <= x < 64 && 0 <= y < 64
    ensures Byte1(v, w) / 4 == v
    ensures Byte1(v, w) % 4 * 16 + Byte2(w, x) / 16 == w
    ensures Byte2(w, x) % 16 * 4 + Byte3(x, y) / 64 == x
    ensures Byte3(x, y) % 64 == y
  {
    assert Byte1(v, w) % 4 == w / 16;
    assert Byte2(w, x) / 16 == w % 16 && Byte2(w, x) % 16 == x / 4;
    assert Byte3(x, y) / 64 == x % 4;
  }

  /** The four characters of three bytes. */
  function Group(a: byte, b: byte, c: byte): seq<byte> {
    [Symbol(a / 4), Symbol(a % 4 * 16 + b / 16), Symbol(b % 16 * 4 + c / 64), Symbol(c % 64)]
  }

  lemma DecodeGroup(a: byte, b: byte, c: byte, rest: seq<byte>)
    requires Decode(rest).Some?
    ensures Decode(Group(a, b, c) + rest) == Some([a, b, c] + Decode(rest).value)
  {
    SymbolRoundTrip();
    BytesOfGroup(a, b, c);
    var t := Group(a, b, c) + rest;
    assert SixBits(t[0]) == a / 4 && SixBits(t[1]) == a % 4 * 16 + b / 16;
    assert SixBits(t[2]) == b % 16 * 4 + c / 64 && SixBits(t[3]) == c % 64;
    assert t[4..] == rest;
  }

  /** Decoding gives back exactly the bytes that were encoded. */
  lemma {:induction false} DecodeEncode(b: seq<byte>)
    ensures Decode(Encode(b)) == Some(b)
  {
    if |b| == 1 {
      DecodeEncodeOne(b, b[0]);
    } else if |b| == 2 {
      DecodeEncodeTwo(b, b[0], b[1]);
    } else if |b| >= 3 {
      DecodeEncode(b[3..]);
      DecodeGroup(b[0], b[1], b[2], Encode(b[3..]));
      assert b == [b[0], b[1], b[2]] + b[3..];
    }
  }

  lemma DecodeShort(v: int, w: int, x: int)
    requires 0 <= v < 64 && 0 <= w < 64 && 0 <= x < 64
    ensures w % 16 == 0 ==> Decode([Symbol(v), Symbol(w)]) == Some([Byte1(v, w)])
    ensures x % 4 == 0 ==> Decode([Symbol(v), Symbol(w), Symbol(x)]) == Some([Byte1(v, w), Byte2(w, x)])
  {
    SymbolRoundTrip();
    assert SixBits(Symbol(v)) == v && SixBits(Symbol(w)) == w && SixBits(Symbol(x)) == x;
  }

  lemma DecodeEncodeOne(b: seq<byte>, a: byte)
    requires b == [a]
    ensures Decode(Encode(b)) == Some(b)
  {
    var v, w := a / 4, a % 4 * 16;
    BytesOfGroup(a, 0, 0);
    DecodeShort(v, w, 0);
    assert Encode(b) == [Symbol(v), Symbol(w)];
  }

  lemma DecodeEncodeTwo(b: seq<byte>, a: byte, c: byte)
    requires b == [a, c]
    ensures Decode(Encode(b)) == Some(b)
  {
    var v, w, x := a / 4, a % 4 * 16 + c / 16, c % 16 * 4;
    BytesOfGroup(a, c, 0);
    DecodeShort(v, w, x);
    assert Encode(b) == [Symbol(v), Symbol(w), Symbol(x)];
  }

  /** Encoding the bytes of one decoded group, and more, gives the group's characters first. */
  lemma GroupRecovered(v: int, w: int, x: int, y: int, rest: seq<byte>)
    requires 0 <= v < 64 && 0 <= w < 64 && 0 <= x < 64 && 0 <= y < 64
    ensures Encode([Byte1(v, w), Byte2(w, x), Byte3(x, y)] + rest)
            == [Symbol(v), Symbol(w), Symbol(x), Symbol(y)] + Encode(rest)
  {
    GroupOfBytes(v, w, x, y);
    assert ([Byte1(v, w), Byte2(w, x), Byte3(x, y)] + rest)[3..] == rest;
  }

  lemma SymbolsRecovered(t: seq<byte>)
    requires InAlphabet(t)
    ensures forall i :: 0 <= i < |t| ==> Symbol(SixBits(t[i])) == t[i]
  {
    SymbolRoundTrip();
  }

  lemma OneByteRecovered(v: int, w: int)
    requires 0 <= v < 64 && 0 <= w < 64 && w % 16 == 0
    ensures Encode([Byte1(v, w)]) == [Symbol(v), Symbol(w)]
  {
    assert Byte1(v, w) / 4 == v && Byte1(v, w) % 4 == w / 16;
  }

  lemma TwoBytesRecovered(v: int, w: int, x: int)
    requires 0 <= v < 64 && 0 <= w < 64 && 0 <= x < 64 && x % 4 == 0
    ensures Encode([Byte1(v, w), Byte2(w, x)]) == [Symbol(v), Symbol(w), Symbol(x)]
  {
    GroupOfBytes(v, w, x, 0);
    assert Byte2(w, x) % 16 == x / 4;
  }

  lemma EncodeDecodeShort(t: seq<byte>)
    requires Decode(t).Some? && |t| < 4
    ensures Encode(Decode(t).value) == t
  {
    if |t| == 3 {
      SymbolsRecovered(t);
      TwoBytesRecovered(SixBits(t[0]), SixBits(t[1]), SixBits(t[2]));
      assert t == [t[0], t[1], t[2]];
    } else if |t| == 2 {
      SymbolsRecovered(t);
      OneByteRecovered(SixBits(t[0]), SixBits(t[1]));
      assert t == [t[0], t[1]];
    }
  }

  lemma DecodedGroup(t: seq<byte>)
    requires Decode(t).Some? && |t| >= 4
    ensures InAlphabet(t[..4]) && Decode(t[4..]).Some?
    ensures var v, w, x, y := SixBits(t[0]), SixBits(t[1]), SixBits(t[2]), SixBits(t[3]);
            Decode(t).value == [Byte1(v, w), Byte2(w, x), Byte3(x, y)] + Decode(t[4..]).value
  {
    var v, w, x, y := SixBits(t[0]), SixBits(t[1]), SixBits(t[2]), SixBits(t[3]);
    assert v >= 0 && w >= 0 && x >= 0 && y >= 0;
    var rest := Decode(t[4..]);
    assert Decode(t) == if rest.None? then None else Some([Byte1(v, w), Byte2(w, x), Byte3(x, y)] + rest.value);
  }

  /** Each byte string has one accepted text, the one `Encode` prints. */
  lemma {:induction false} EncodeDecode(t: seq<byte>)
    requires Decode(t).Some?
    ensures Encode(Decode(t).value) == t
  {
    if |t| < 4 {
      EncodeDecodeShort(t);
    } else {
      DecodedGroup(t);
      EncodeDecode(t[4..]);
      SymbolsRecovered(t[..4]);
      GroupRecovered(SixBits(t[0]), SixBits(t[1]), SixBits(t[2]), SixBits(t[3]), Decode(t[4..]).value);
      assert t == [t[0], t[1], t[2], t[3]] + t[4..];
    }
  }

  /** Acceptance, both ways: the decoder takes `t` for `b` exactly when `t` is the encoding of `b`. */
  lemma AcceptedExactly(t: seq<byte>, b: seq<byte>)
    ensures Decode(t) == Some(b) <==> t == Encode(b)
  {
    DecodeEncode(b);
    if Decode(t) == Some(b) { EncodeDecode(t); }
  }

  /**
   What an accepted text looks like: alphabet characters only (so no `=` padding), never one leftover
   character, and no nonzero trailing bits.
   */
  predicate IsCanonical(t: seq<byte>) {
    && InAlphabet(t)
    && |t| % 4 != 1
    && (|t| % 4 == 2 ==> SixBits(t[|t| - 1]) % 16 == 0)
    && (|t| % 4 == 3 ==> SixBits(t[|t| - 1]) % 4 == 0)
  }

  lemma AlphabetOfGroup(t: seq<byte>)
    requires |t| >= 4
    ensures InAlphabet(t) <==>
            && SixBits(t[0]) >= 0 && SixBits(t[1]) >= 0 && SixBits(t[2]) >= 0 && SixBits(t[3]) >= 0
            && InAlphabet(t[4..])
  {
    var rest := t[4..];
    assert forall i :: 4 <= i < |t| ==> t[i] == rest[i - 4];
    if InAlphabet(t) {
      forall i | 0 <= i < |rest| ensures SixBits(rest[i]) >= 0 { assert rest[i] == t[i + 4]; }
    }
  }

  lemma CanonicalGroup(t: seq<byte>)
    requires |t| >= 4
    ensures IsCanonical(t) <==>
            && SixBits(t[0]) >= 0 && SixBits(t[1]) >= 0 && SixBits(t[2]) >= 0 && SixBits(t[3]) >= 0
            && IsCanonical(t[4..])
  {
    AlphabetOfGroup(t);
    assert |t[4..]| % 4 == |t| % 4;
    if |t| > 4 { assert t[4..][|t| - 5] == t[|t| - 1]; }
  }

  /** Which texts are accepted at all, without reference to the decoder. */
  lemma {:induction false} AcceptedTexts(t: seq<byte>)
    ensures Decode(t).Some? <==> IsCanonical(t)
  {
    if |t| < 4 {
      AcceptedShortTexts(t);
    } else {
      AcceptedTexts(t[4..]);
      CanonicalGroup(t);
      AcceptedGroup(t);
    }
  }

  lemma AcceptedShortTexts(t: seq<byte>)
    requires |t| < 4
    ensures Decode(t).Some? <==> IsCanonical(t)
  {
    if |t| == 2 {
      assert InAlphabet(t) <==> SixBits(t[0]) >= 0 && SixBits(t[1]) >= 0;
    } else if |t| == 3 {
      assert InAlphabet(t) <==> SixBits(t[0]) >= 0 && SixBits(t[1]) >= 0 && SixBits(t[2]) >= 0;
    }
  }

  lemma AcceptedGroup(t: seq<byte>)
    requires |t| >= 4
    ensures Decode(t).Some? <==>
            && SixBits(t[0]) >= 0 && SixBits(t[1]) >= 0 && SixBits(t[2]) >= 0 && SixBits(t[3]) >= 0
            && Decode(t[4..]).Some?
  {
  }

  /** The encoding of three bytes and more: four characters of the alphabet first. */
  lemma EncodeGroup(b: seq<byte>)
    requires |b| >= 3
    ensures |Encode(b)| == 4 + |Encode(b[3..])| && Encode(b)[4..] == Encode(b[3..])
    ensures InAlphabet(Encode(b)[..4])
  {
    SymbolRoundTrip();
  }

  /** `n` bytes take ceil(4n/3) characters. */
  lemma {:induction false} EncodedLength(b: seq<byte>)
    ensures |Encode(b)| == (4 * |b| + 2) / 3
    ensures InAlphabet(Encode(b))
  {
    if |b| < 3 {
      SymbolRoundTrip();
    } else {
      EncodedLength(b[3..]);
      EncodeGroup(b);
      InAlphabetTogether(Encode(b), 4);
    }
  }

  lemma InAlphabetTogether(t: seq<byte>, k: nat)
    requires k <= |t| && InAlphabet(t[..k]) && InAlphabet(t[k..])
    ensures InAlphabet(t)
  {
    forall i | 0 <= i < |t| ensures SixBits(t[i]) >= 0 {
      assert if i < k then t[i] == t[..k][i] else t[i] == t[k..][i - k];
    }
  }
}
