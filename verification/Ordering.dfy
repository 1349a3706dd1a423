/** `sort_unstable` followed by `dedup` on string lists: the strictly increasing list of their elements. */
module Ordering {
  import opened Utf8

  /** The order of Rust strings; by bytes in UTF-8, which is by scalar value. */
  predicate Less(a: string, b: string) {
    b != "" && (a == "" || a[0] < b[0] || (a[0] == b[0] && Less(a[1..], b[1..])))
  }

  lemma {:induction false} LessTotal(a: string, b: string)
    ensures Less(a, b) || Less(b, a) || a == b
  {
    if a == "" || b == "" || a[0] != b[0] {
    } else {
      LessTotal(a[1..], b[1..]);
      if a[1..] == b[1..] { assert a == [a[0]] + a[1..] && b == [b[0]] + b[1..]; }
    }
  }

  lemma {:induction false} LessStrict(a: string, b: string)
    requires Less(a, b)
    ensures !Less(b, a) && a != b
  {
    if a == "" || a[0] != b[0] {
    } else {
      LessStrict(a[1..], b[1..]);
    }
  }

  lemma {:induction false} LessTransitive(a: string, b: string, c: string)
    requires Less(a, b) && Less(b, c)
    ensures Less(a, c)
  {
    if a == "" || a[0] != b[0] || b[0] != c[0] {
    } else {
      LessTransitive(a[1..], b[1..], c[1..]);
    }
  }

  /** Lexicographic order on bytes, as Rust compares strings. */
  predicate BytesLess(a: seq<byte>, b: seq<byte>) {
    b != [] && (a == [] || a[0] < b[0] || (a[0] == b[0] && BytesLess(a[1..], b[1..])))
  }

  lemma {:induction false} BytesLessAfter(front: seq<byte>, a: seq<byte>, b: seq<byte>)
    ensures BytesLess(front + a, front + b) <==> BytesLess(a, b)
  {
    if front == [] {
      assert front + a == a && front + b == b;
    } else {
      assert (front + a)[1..] == front[1..] + a && (front + b)[1..] == front[1..] + b;
      BytesLessAfter(front[1..], a, b);
    }
  }

  /** The encodings of two characters first differ where the smaller one has the smaller byte. */
  lemma CharsOrdered(c: char, d: char) returns (k: nat)
    requires c < d
    ensures k < |EncodeChar(c)| && k < |EncodeChar(d)|
    ensures EncodeChar(c)[..k] == EncodeChar(d)[..k] && EncodeChar(c)[k] < EncodeChar(d)[k]
  {
    var e, f := EncodeChar(c), EncodeChar(d);
    k := 0;
    if |e| == |f| {
      if |e| > 1 && e[0] == f[0] {
        k := 1;
        if |e| > 2 && e[1] == f[1] {
          k := 2;
          if |e| > 3 && e[2] == f[2] { k := 3; }
        }
      }
    }
    assert e[..k] == f[..k];
  }

  lemma SmallerCharFirst(c: char, d: char, a: seq<byte>, b: seq<byte>)
    requires c < d
    ensures BytesLess(EncodeChar(c) + a, EncodeChar(d) + b) && !BytesLess(EncodeChar(d) + b, EncodeChar(c) + a)
  {
    var k := CharsOrdered(c, d);
    var x, y := EncodeChar(c) + a, EncodeChar(d) + b;
    var front := EncodeChar(c)[..k];
    assert x == front + x[k..] && y == front + y[k..];
    BytesLessAfter(front, x[k..], y[k..]);
    BytesLessAfter(front, y[k..], x[k..]);
    assert x[k..][0] == EncodeChar(c)[k] && y[k..][0] == EncodeChar(d)[k];
  }

  /** UTF-8 keeps the order: comparing characters is comparing bytes. */
  lemma {:induction false} OrderIsByteOrder(a: string, b: string)
    ensures Less(a, b) <==> BytesLess(Encode(a), Encode(b))
  {
    if a == "" || b == "" {
    } else if a[0] == b[0] {
      OrderIsByteOrder(a[1..], b[1..]);
      BytesLessAfter(EncodeChar(a[0]), Encode(a[1..]), Encode(b[1..]));
    } else if a[0] < b[0] {
      SmallerCharFirst(a[0], b[0], Encode(a[1..]), Encode(b[1..]));
    } else {
      SmallerCharFirst(b[0], a[0], Encode(b[1..]), Encode(a[1..]));
    }
  }

  predicate Increasing(s: seq<string>) {
    |s| <= 1 || (Less(s[0], s[1]) && Increasing(s[1..]))
  }

  function Insert(x: string, s: seq<string>): (r: seq<string>)
    ensures |r| <= |s| + 1 && r != []
  {
    if s == [] then [x]
    else if x == s[0] then s
    else if Less(x, s[0]) then [x] + s
    else [s[0]] + Insert(x, s[1..])
  }

  function SortDedup(s: seq<string>): (r: seq<string>)
    ensures |r| <= |s| && (s != [] ==> r != [])
  {
    if s == [] then [] else Insert(s[0], SortDedup(s[1..]))
  }

  lemma {:induction false} InsertMembers(x: string, s: seq<string>)
    ensures forall y :: y in Insert(x, s) <==> y == x || y in s
  {
    if s == [] || x == s[0] || Less(x, s[0]) {
    } else {
      InsertMembers(x, s[1..]);
      assert s == [s[0]] + s[1..];
    }
  }

  lemma {:induction false} SortDedupMembers(s: seq<string>)
    ensures forall y :: y in SortDedup(s) <==> y in s
  {
    if s == [] {
    } else {
      SortDedupMembers(s[1..]);
      InsertMembers(s[0], SortDedup(s[1..]));
      assert s == [s[0]] + s[1..];
    }
  }

  lemma {:induction false} InsertIncreasing(x: string, s: seq<string>)
    requires Increasing(s)
    ensures Increasing(Insert(x, s))
  {
    if s != [] && x != s[0] {
      LessTotal(x, s[0]);
      if Less(x, s[0]) {
        assert ([x] + s)[1..] == s;
      } else {
        InsertIncreasing(x, s[1..]);
        var r := Insert(x, s);
        assert r[1..] == Insert(x, s[1..]);
      }
    }
  }

  lemma {:induction false} SortDedupIncreasing(s: seq<string>)
    ensures Increasing(SortDedup(s))
  {
    if s == [] {
    } else {
      SortDedupIncreasing(s[1..]);
      InsertIncreasing(s[0], SortDedup(s[1..]));
    }
  }

  /** Normal forms are left alone. */
  lemma {:induction false} SortDedupOfIncreasing(s: seq<string>)
    requires Increasing(s)
    ensures SortDedup(s) == s
  {
    if s == [] {
    } else {
      SortDedupOfIncreasing(s[1..]);
      if |s| > 1 { LessStrict(s[0], s[1]); }
      assert [s[0]] + s[1..] == s;
    }
  }

  lemma {:induction false} FirstIsLeast(s: seq<string>, y: string)
    requires Increasing(s) && y in s && y != s[0]
    ensures Less(s[0], y)
  {
    assert s == [s[0]] + s[1..];
    assert y in s[1..];
    if y != s[1] {
      FirstIsLeast(s[1..], y);
      LessTransitive(s[0], s[1], y);
    }
  }

  /** An increasing list is determined by its elements, so the normal form is too. */
  lemma {:induction false} IncreasingUnique(s: seq<string>, t: seq<string>)
    requires Increasing(s) && Increasing(t)
    requires forall y :: y in s <==> y in t
    ensures s == t
  {
    assert s != [] ==> s[0] in s;
    assert t != [] ==> t[0] in t;
    if s == [] {
    } else {
      if s[0] != t[0] {
        FirstIsLeast(t, s[0]);
        FirstIsLeast(s, t[0]);
        LessStrict(s[0], t[0]);
        assert false;
      }
      forall y ensures y in s[1..] <==> y in t[1..] {
        TailMembers(s, y);
        TailMembers(t, y);
      }
      IncreasingUnique(s[1..], t[1..]);
      assert s == [s[0]] + s[1..] && t == [t[0]] + t[1..];
    }
  }

  lemma TailMembers(s: seq<string>, y: string)
    requires Increasing(s) && s != []
    ensures y in s[1..] <==> y in s && y != s[0]
  {
    assert s == [s[0]] + s[1..];
    if s[0] in s[1..] {
      if s[0] == s[1] { LessStrict(s[0], s[1]); } else { FirstIsLeast(s[1..], s[0]); LessStrict(s[0], s[1]); }
    }
  }

  /** The order and the repetitions of the input do not show in the normal form. */
  lemma SameElementsSameNormalForm(s: seq<string>, t: seq<string>)
    requires forall y :: y in s <==> y in t
    ensures SortDedup(s) == SortDedup(t)
  {
    SortDedupMembers(s);
    SortDedupMembers(t);
    SortDedupIncreasing(s);
    SortDedupIncreasing(t);
    IncreasingUnique(SortDedup(s), SortDedup(t));
  }
}
