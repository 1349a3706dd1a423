/** Request correlation IDs: which are accepted, how one is generated, and the three canonicalizers. */
module RequestId {
  import opened Wrappers
  import opened Utf8
  import opened Text
  import opened Headers
  import opened Ordering

  const REQUEST_ID_HEADER := "x-request-id"
  const SEQUENCES := 0x1_0000_0000_0000_0000

  /** `is_valid_request_id` */
  predicate IsValidRequestId(value: string) { IsToken(value) }

  // ----- Generation -----

  /** 1 to 128 bytes: letters, digits and five others. */
  lemma ValidExactly(id: string)
    ensures IsValidRequestId(id)
            <==> && 1 <= |Encode(id)| <= 128
                 && forall i :: 0 <= i < |Encode(id)| ==>
                      var b := Encode(id)[i];
                      48 <= b <= 57 || 65 <= b <= 90 || 97 <= b <= 122 || b as char in "-_.:/"
  {
    TokenExactly(id);
  }

  function HexText(bytes: seq<byte>): (s: string)
    ensures |s| == 2 * |bytes|
  {
    if bytes == [] then ""
    else
      var last := bytes[|bytes| - 1];
      HexText(bytes[..|bytes| - 1]) + [HexDigit(last / 16), HexDigit(last % 16)]
  }

  /** `to_be_bytes` */
  function BigEndian(n: nat, width: nat): (b: seq<byte>)
    ensures |b| == width
  {
    if width == 0 then [] else BigEndian(n / 256, width - 1) + [n % 256]
  }

  type Prefix = p: seq<byte> | |p| == 16 witness [0, 0, 0, 0, 0, 0, 0, 0, 0, 0, 0, 0, 0, 0, 0, 0]

  /** The ID for one prefix and sequence number. */
  function RequestIdOf(prefix: Prefix, sequence: u64): string { HexText(prefix + BigEndian(sequence, 8)) }

  /** `encode_request_id` */
  method EncodeRequestId(prefix: Prefix, sequence: u64) returns (output: string)
    ensures output == RequestIdOf(prefix, sequence)
  {
    var bytes := prefix + BigEndian(sequence, 8);
    output := "";
    for i := 0 to |bytes|
      invariant output == HexText(bytes[..i])
    {
      assert bytes[..i + 1][..i] == bytes[..i];
      output := output + [HexDigit(bytes[i] / 16)];
      output := output + [HexDigit(bytes[i] % 16)];
    }
    assert bytes[..|bytes|] == bytes;
  }

  /** One component instance: a fixed prefix and a wrapping sequence counter. */
  class Generator {
    const prefix: Prefix
    var sequence: u64

    constructor (prefix: Prefix)
      ensures this.prefix == prefix && sequence == 0
    {
      this.prefix := prefix;
      sequence := 0;
    }

    /** `generated_request_id` with `fetch_add`, which wraps. */
    method Generate() returns (id: string)
      modifies this
      ensures id == RequestIdOf(prefix, old(sequence)) && IsValidRequestId(id)
      ensures sequence == (old(sequence) + 1) % SEQUENCES
    {
      GeneratedIsValid(prefix, sequence);
      id := EncodeRequestId(prefix, sequence);
      sequence := if sequence + 1 == SEQUENCES then 0 else sequence + 1;
    }
  }

  lemma {:induction false} HexTextIsToken(bytes: seq<byte>)
    ensures forall i :: 0 <= i < |HexText(bytes)| ==> IsTokenChar(HexText(bytes)[i])
  {
    if bytes == [] {
    } else {
      HexTextIsToken(bytes[..|bytes| - 1]);
    }
  }

  /** A generated ID always passes the validator. */
  lemma GeneratedIsValid(prefix: Prefix, sequence: u64)
    ensures IsValidRequestId(RequestIdOf(prefix, sequence)) && |RequestIdOf(prefix, sequence)| == 48
    ensures forall i :: 0 <= i < 48 ==> RequestIdOf(prefix, sequence)[i] in "0123456789abcdef"
  {
    HexTextIsLowerHex(prefix + BigEndian(sequence, 8));
    HexTextIsToken(prefix + BigEndian(sequence, 8));
  }

  /** 48 lower-case hexadecimal digits. */
  lemma {:induction false} HexTextIsLowerHex(bytes: seq<byte>)
    ensures forall i :: 0 <= i < |HexText(bytes)| ==> HexText(bytes)[i] in "0123456789abcdef"
  {
    if bytes == [] {
    } else {
      HexTextIsLowerHex(bytes[..|bytes| - 1]);
    }
  }

  lemma {:induction false} HexTextDetermines(a: seq<byte>, b: seq<byte>)
    requires HexText(a) == HexText(b)
    ensures a == b
  {
    assert |a| == |b|;
    if a == [] {
    } else {
      var front, other := a[..|a| - 1], b[..|b| - 1];
      var n := |HexText(front)|;
      assert HexText(a)[n] == HexText(b)[n] && HexText(a)[n + 1] == HexText(b)[n + 1];
      assert HexText(front) == HexText(a)[..n] == HexText(b)[..n] == HexText(other);
      HexTextDetermines(front, other);
      HexDigitDetermines(a[|a| - 1] / 16, b[|b| - 1] / 16);
      HexDigitDetermines(a[|a| - 1] % 16, b[|b| - 1] % 16);
      assert a == front + [a[|a| - 1]] && b == other + [b[|b| - 1]];
    }
  }

  lemma HexDigitDetermines(d: nat, e: nat)
    requires d < 16 && e < 16 && HexDigit(d) == HexDigit(e)
    ensures d == e
  {
  }

  /** An ID tells both the instance and the call it comes from. */
  lemma IdsDetermineTheirOrigin(p: Prefix, m: u64, q: Prefix, n: u64)
    requires RequestIdOf(p, m) == RequestIdOf(q, n)
    ensures p == q && m == n
  {
    var a, b := p + BigEndian(m, 8), q + BigEndian(n, 8);
    HexTextDetermines(a, b);
    assert a[..16] == p && b[..16] == q;
    if m < n {
      GeneratedInOrder(p, m, n);
      LessStrict(RequestIdOf(p, m), RequestIdOf(p, n));
    } else if n < m {
      GeneratedInOrder(p, n, m);
      LessStrict(RequestIdOf(p, n), RequestIdOf(p, m));
    }
  }

  lemma {:induction false} LessSnoc(a: string, b: string, x: char, y: char)
    requires |a| == |b|
    ensures Less(a + [x], b + [y]) <==> Less(a, b) || (a == b && x < y)
  {
    if a == "" {
      assert a + [x] == [x] && b + [y] == [y];
    } else {
      assert (a + [x])[1..] == a[1..] + [x] && (b + [y])[1..] == b[1..] + [y];
      LessSnoc(a[1..], b[1..], x, y);
      assert a == [a[0]] + a[1..] && b == [b[0]] + b[1..];
    }
  }

  lemma HexDigitsOrdered(m: byte, n: byte, a: string, b: string)
    requires |a| == |b| && (Less(a, b) || (a == b && m < n))
    ensures Less(a + [HexDigit(m / 16), HexDigit(m % 16)], b + [HexDigit(n / 16), HexDigit(n % 16)])
  {
    var x, y := [HexDigit(m / 16)], [HexDigit(n / 16)];
    LessSnoc(a, b, x[0], y[0]);
    LessSnoc(a + x, b + y, HexDigit(m % 16), HexDigit(n % 16));
    assert a + [HexDigit(m / 16), HexDigit(m % 16)] == a + x + [HexDigit(m % 16)];
    assert b + [HexDigit(n / 16), HexDigit(n % 16)] == b + y + [HexDigit(n % 16)];
  }

  lemma HexTextSnoc(bytes: seq<byte>, last: byte)
    ensures HexText(bytes + [last]) == HexText(bytes) + [HexDigit(last / 16), HexDigit(last % 16)]
  {
    assert (bytes + [last])[..|bytes|] == bytes;
  }

  /** 256 to the given power. */
  function Power(width: nat): nat {
    if width == 0 then 1 else Power(width - 1) * 256
  }

  lemma HexTextOfSequence(prefix: seq<byte>, n: nat, width: nat)
    requires width > 0
    ensures HexText(prefix + BigEndian(n, width))
            == HexText(prefix + BigEndian(n / 256, width - 1)) + [HexDigit(n % 256 / 16), HexDigit(n % 256 % 16)]
  {
    var front := prefix + BigEndian(n / 256, width - 1);
    assert prefix + BigEndian(n, width) == front + [n % 256];
    HexTextSnoc(front, n % 256);
  }

  lemma DigitsOrdered(m: nat, n: nat, width: nat)
    requires m < n < Power(width)
    ensures width > 0 && n / 256 < Power(width - 1)
    ensures m / 256 < n / 256 || (m / 256 == n / 256 && m % 256 < n % 256)
  {
  }

  lemma {:induction false} SequenceOrdered(prefix: seq<byte>, m: nat, n: nat, width: nat)
    requires m < n < Power(width)
    ensures Less(HexText(prefix + BigEndian(m, width)), HexText(prefix + BigEndian(n, width)))
  {
    DigitsOrdered(m, n, width);
    var a := HexText(prefix + BigEndian(m / 256, width - 1));
    var b := HexText(prefix + BigEndian(n / 256, width - 1));
    if m / 256 < n / 256 {
      SequenceOrdered(prefix, m / 256, n / 256, width - 1);
    }
    HexTextOfSequence(prefix, m, width);
    HexTextOfSequence(prefix, n, width);
    HexDigitsOrdered(m % 256, n % 256, a, b);
  }

  /** IDs from one prefix sort as their sequence numbers do. */
  lemma GeneratedInOrder(prefix: Prefix, m: u64, n: u64)
    requires m < n
    ensures Less(RequestIdOf(prefix, m), RequestIdOf(prefix, n))
  {
    assert Power(8) == SEQUENCES by {
      assert Power(4) == 0x1_0000_0000;
    }
    SequenceOrdered(prefix, m, n, 8);
  }

  /** Any two of 2^64 consecutive calls give different IDs, across the wrap too. */
  lemma ConsecutiveCallsDiffer(prefix: Prefix, start: u64, i: nat, j: nat)
    requires i < j < SEQUENCES
    ensures RequestIdOf(prefix, (start + i) % SEQUENCES) != RequestIdOf(prefix, (start + j) % SEQUENCES)
  {
    var m, n := (start + i) % SEQUENCES, (start + j) % SEQUENCES;
    assert m != n;
    if m < n {
      GeneratedInOrder(prefix, m, n);
      LessStrict(RequestIdOf(prefix, m), RequestIdOf(prefix, n));
    } else {
      GeneratedInOrder(prefix, n, m);
      LessStrict(RequestIdOf(prefix, n), RequestIdOf(prefix, m));
    }
  }

  // ----- Canonicalization -----

  /** The component canonicalizers: exactly one field, UTF-8, valid. */
  function AcceptedUtf8(values: seq<Value>): Option<string> {
    if |values| == 1 && Decode(values[0]).Some? && IsValidRequestId(Decode(values[0]).value)
    then Decode(values[0]) else None
  }

  /** The policy and in-process canonicalizers: exactly one field, visible ASCII, valid. */
  function AcceptedText(values: seq<Value>): Option<string> {
    if |values| == 1 && ToStr(values[0]).Some? && IsValidRequestId(ToStr(values[0]).value)
    then ToStr(values[0]) else None
  }

  /** `canonical_request_id` of the request-ID component. */
  function CanonicalInComponent(headers: HeaderMap, generated: string): string {
    var accepted := AcceptedUtf8(Get(headers, REQUEST_ID_HEADER));
    if accepted.Some? then accepted.value else generated
  }

  /** `canonical_request_id` of the fused component, which checks the generator. */
  function CanonicalInFused(headers: HeaderMap, generated: string): Option<string> {
    var accepted := AcceptedUtf8(Get(headers, REQUEST_ID_HEADER));
    if accepted.Some? then accepted
    else if IsValidRequestId(generated) then Some(generated)
    else None
  }

  /** `RequestIdPolicy::canonicalize`; `None` when the generator broke its contract. */
  function CanonicalInPolicy(headers: HeaderMap, generated: string): Option<string> {
    var accepted := AcceptedText(Get(headers, REQUEST_ID_HEADER));
    if accepted.Some? then accepted
    else if IsValidRequestId(generated) then Some(generated)
    else None
  }

  lemma AcceptedEitherWay(values: seq<Value>)
    ensures AcceptedUtf8(values) == AcceptedText(values)
  {
    if |values| == 1 {
      if AcceptedUtf8(values).Some? { Utf8IsText(values[0]); }
      if AcceptedText(values).Some? { TextIsUtf8(values[0]); }
    }
  }

  lemma Utf8IsText(v: Value)
    requires Decode(v).Some? && IsValidRequestId(Decode(v).value)
    ensures ToStr(v) == Decode(v)
  {
    var s := Decode(v).value;
    EncodeDecode(v);
    EncodeAscii(s);
    assert ToStr(v).value == s;
  }

  lemma TextIsUtf8(v: Value)
    requires ToStr(v).Some? && IsValidRequestId(ToStr(v).value)
    ensures Decode(v) == ToStr(v)
  {
    var s := ToStr(v).value;
    EncodeAscii(s);
    assert Encode(s) == v;
    DecodeEncode(s);
  }

  /** A field is accepted exactly when it is the only one and its bytes are those of a valid ID. */
  lemma AcceptedExactly(values: seq<Value>, id: string)
    ensures AcceptedText(values) == Some(id) <==> values == [Encode(id)] && IsValidRequestId(id)
  {
    if |values| == 1 { ToStrExactly(values[0], id); }
    if IsValidRequestId(id) {
      forall i | 0 <= i < |id| ensures ' ' <= id[i] <= '~' { assert IsTokenChar(id[i]); }
    }
  }

  /** The ID of a request is that of its only field if valid, and a fresh one in every other case. */
  lemma CanonicalExactly(headers: HeaderMap, generated: string)
    ensures forall id :: Get(headers, "x-request-id") == [Encode(id)] && IsValidRequestId(id) ==>
                           CanonicalInComponent(headers, generated) == id
    ensures (forall id :: Get(headers, "x-request-id") == [Encode(id)] ==> !IsValidRequestId(id)) ==>
              CanonicalInComponent(headers, generated) == generated
  {
    var values := Get(headers, REQUEST_ID_HEADER);
    AcceptedEitherWay(values);
    forall id ensures AcceptedText(values) == Some(id) <==> values == [Encode(id)] && IsValidRequestId(id) {
      AcceptedExactly(values, id);
    }
  }

  /** The canonicalizers agree on every header map, given a generator that keeps its contract. */
  lemma CanonicalizersAgree(headers: HeaderMap, generated: string)
    requires IsValidRequestId(generated)
    ensures CanonicalInPolicy(headers, generated) == Some(CanonicalInComponent(headers, generated))
    ensures CanonicalInFused(headers, generated) == Some(CanonicalInComponent(headers, generated))
    ensures IsValidRequestId(CanonicalInComponent(headers, generated))
  {
    AcceptedEitherWay(Get(headers, REQUEST_ID_HEADER));
  }

  lemma RequestIdHeaderIsLower()
    ensures Lower(REQUEST_ID_HEADER) == REQUEST_ID_HEADER
  {
  }

  /** Once written by `set_header`, an ID is what every canonicalizer returns. */
  lemma WrittenIdIsKept(headers: HeaderMap, id: string, generated: string)
    requires IsValidRequestId(id)
    ensures var written := Put(headers, REQUEST_ID_HEADER, Encode(id));
            && CanonicalInComponent(written, generated) == id
            && CanonicalInPolicy(written, generated) == Some(id)
            && CanonicalInFused(written, generated) == Some(id)
            && AcceptedText(Get(written, REQUEST_ID_HEADER)) == Some(id)
  {
    RequestIdHeaderIsLower();
    DecodeEncode(id);
    AcceptedEitherWay([Encode(id)]);
  }
}
