/** UTF-8 as defined in section 4 of RFC 3629, and the decoding of a whole byte string. */
module Utf8 {
  type Byte = b: int | 0 <= b < 256

  predicate Between(lo: int, b: int, hi: int) {
    lo <= b <= hi
  }

  predicate Tail(b: int) {
    Between(0x80, b, 0xBF)
  }

  /** One character: the productions UTF8-1, UTF8-2, UTF8-3 and UTF8-4. */
  predicate WellFormed(s: seq<Byte>) {
    || (|s| == 1 && Between(0x00, s[0], 0x7F))
    || (|s| == 2 && Between(0xC2, s[0], 0xDF) && Tail(s[1]))
    || (|s| == 3 && s[0] == 0xE0 && Between(0xA0, s[1], 0xBF) && Tail(s[2]))
    || (|s| == 3 && Between(0xE1, s[0], 0xEC) && Tail(s[1]) && Tail(s[2]))
    || (|s| == 3 && s[0] == 0xED && Between(0x80, s[1], 0x9F) && Tail(s[2]))
    || (|s| == 3 && Between(0xEE, s[0], 0xEF) && Tail(s[1]) && Tail(s[2]))
    || (|s| == 4 && s[0] == 0xF0 && Between(0x90, s[1], 0xBF) && Tail(s[2]) && Tail(s[3]))
    || (|s| == 4 && Between(0xF1, s[0], 0xF3) && Tail(s[1]) && Tail(s[2]) && Tail(s[3]))
    || (|s| == 4 && s[0] == 0xF4 && Between(0x80, s[1], 0x8F) && Tail(s[2]) && Tail(s[3]))
  }

  /** The character a well-formed sequence stands for (section 3). */
  function Scalar(s: seq<Byte>): (c: int)
    requires WellFormed(s)
  {
    if |s| == 1 then s[0]
    else if |s| == 2 then (s[0] as int - 0xC0) * 64 + (s[1] as int - 0x80)
    else if |s| == 3 then (s[0] as int - 0xE0) * 4096 + (s[1] as int - 0x80) * 64 + (s[2] as int - 0x80)
    else (s[0] as int - 0xF0) * 262144 + (s[1] as int - 0x80) * 4096 + (s[2] as int - 0x80) * 64 + (s[3] as int - 0x80)
  }

  predicate IsScalar(c: int) {
    0 <= c < 0xD800 || 0xE000 <= c <= 0x10FFFF
  }

  function Encode(c: int): (s: seq<Byte>)
    requires IsScalar(c)
  {
    if c < 0x80 then [c]
    else if c < 0x800 then [0xC0 + c / 64, 0x80 + c % 64]
    else if c < 0x10000 then [0xE0 + c / 4096, 0x80 + c / 64 % 64, 0x80 + c % 64]
    else [0xF0 + c / 262144, 0x80 + c / 4096 % 64, 0x80 + c / 64 % 64, 0x80 + c % 64]
  }

  /** The grammar admits exactly the encodings of the scalar values, one each. */
  lemma EncodeWellFormed(c: int)
    requires IsScalar(c)
    ensures WellFormed(Encode(c)) && Scalar(Encode(c)) == c
  {
    assert c / 4096 == c / 64 / 64;
    assert c / 262144 == c / 4096 / 64;
  }

  /** The base-64 digits of a number. */
  lemma Digits(a: int, b: int, c: int, d: int, n: int)
    requires a >= 0 && 0 <= b < 64 && 0 <= c < 64 && 0 <= d < 64
    requires n == a * 262144 + b * 4096 + c * 64 + d
    ensures n % 64 == d && n / 64 % 64 == c && n / 4096 % 64 == b && n / 262144 == a
  {
    assert n / 64 == a * 4096 + b * 64 + c;
    assert n / 4096 == a * 64 + b;
  }

  lemma WellFormedEncodes(s: seq<Byte>)
    requires WellFormed(s)
    ensures IsScalar(Scalar(s)) && Encode(Scalar(s)) == s
  {
    if |s| == 2 {
      Digits(0, 0, s[0] as int - 0xC0, s[1] as int - 0x80, Scalar(s));
    } else if |s| == 3 {
      ThreeBytesEncode(s);
    } else if |s| == 4 {
      FourBytesEncode(s);
    }
  }

  lemma ThreeBytesEncode(s: seq<Byte>)
    requires WellFormed(s) && |s| == 3
    ensures IsScalar(Scalar(s)) && Encode(Scalar(s)) == s
  {
    Digits(0, s[0] as int - 0xE0, s[1] as int - 0x80, s[2] as int - 0x80, Scalar(s));
  }

  lemma FourBytesEncode(s: seq<Byte>)
    requires WellFormed(s) && |s| == 4
    ensures IsScalar(Scalar(s)) && Encode(Scalar(s)) == s
  {
    Digits(s[0] as int - 0xF0, s[1] as int - 0x80, s[2] as int - 0x80, s[3] as int - 0x80, Scalar(s));
  }

  /** No character is a proper prefix of another. */
  lemma PrefixFree(a: seq<Byte>, b: seq<Byte>)
    requires WellFormed(a) && WellFormed(b) && a <= b
    ensures a == b
  {
    assert a[0] == b[0];
    assert |a| == |b|;
  }

  // ---------------------------------------------------------------- the first character of a string

  /** The length of the character at the start of p, or 0. */
  function Head(p: seq<Byte>): (k: nat)
    ensures k <= |p| && k <= 4
    ensures k > 0 ==> WellFormed(p[..k])
  {
    if |p| >= 1 && WellFormed(p[..1]) then 1
    else if |p| >= 2 && WellFormed(p[..2]) then 2
    else if |p| >= 3 && WellFormed(p[..3]) then 3
    else if |p| >= 4 && WellFormed(p[..4]) then 4
    else 0
  }

  lemma WellFormedLength(s: seq<Byte>)
    requires WellFormed(s)
    ensures 1 <= |s| <= 4
    ensures 0 in s ==> s == [0]
  {
  }

  lemma HeadIs(p: seq<Byte>, k: nat)
    requires k <= |p| && WellFormed(p[..k])
    ensures Head(p) == k > 0
  {
    hide *;
    WellFormedLength(p[..k]);
    var h := Head(p);
    HeadNonZero(p, k);
    if h < k {
      assert p[..h] <= p[..k];
      PrefixFree(p[..h], p[..k]);
    } else {
      assert p[..k] <= p[..h];
      PrefixFree(p[..k], p[..h]);
    }
  }

  lemma HeadNonZero(p: seq<Byte>, k: nat)
    requires 1 <= k <= 4 && k <= |p| && WellFormed(p[..k])
    ensures Head(p) > 0
  {
    hide WellFormed;
  }

  /** x can still become a character. */
  ghost predicate ProperPrefix(x: seq<Byte>) {
    exists w: seq<Byte> :: WellFormed(w) && x < w
  }

  lemma ProperPrefixFacts(x: seq<Byte>)
    requires ProperPrefix(x)
    ensures |x| < 4 && Head(x) == 0 && 0 !in x
  {
    hide WellFormed;
    hide Head;
    var w: seq<Byte> :| WellFormed(w) && x < w;
    WellFormedLength(w);
    assert forall i :: 0 <= i < |x| ==> x[i] == w[i];
    if Head(x) > 0 {
      assert x[..Head(x)] <= w;
      PrefixFree(x[..Head(x)], w);
      assert false;
    }
  }

  /** A string that starts with a character keeps it whatever follows. */
  lemma HeadAppend(a: seq<Byte>, b: seq<Byte>)
    requires Head(a) > 0
    ensures Head(a + b) == Head(a)
    ensures (a + b)[..Head(a)] == a[..Head(a)]
    ensures (a + b)[Head(a)..] == a[Head(a)..] + b
  {
    hide WellFormed;
    hide Head;
    assert (a + b)[..Head(a)] == a[..Head(a)];
    HeadIs(a + b, Head(a));
  }

  lemma ProperPrefixShrinks(x: seq<Byte>, more: seq<Byte>)
    requires ProperPrefix(x + more)
    ensures ProperPrefix(x)
  {
    hide WellFormed;
    var w: seq<Byte> :| WellFormed(w) && x + more < w;
    assert x < w;
  }

  lemma HeadShrinks(x: seq<Byte>, more: seq<Byte>)
    requires Head(x + more) > 0
    ensures Head(x) > 0 || ProperPrefix(x)
  {
    hide WellFormed;
    hide Head;
    var p := x + more;
    var k := Head(p);
    if k <= |x| {
      assert p[..k] == x[..k];
      HeadIs(x, k);
    } else {
      assert x < p[..k];
    }
  }

  /** Once a string neither starts with a character nor can become one, more bytes do not help. */
  lemma BadStaysBad(x: seq<Byte>, more: seq<Byte>)
    requires Head(x) == 0 && !ProperPrefix(x)
    ensures Head(x + more) == 0 && !ProperPrefix(x + more)
  {
    hide *;
    if Head(x + more) > 0 {
      HeadShrinks(x, more);
    }
    if ProperPrefix(x + more) {
      ProperPrefixShrinks(x, more);
    }
  }

  // ---------------------------------------------------------------- order

  /** The byte strings x and y differ first where x has the smaller byte. */
  predicate Before(x: seq<Byte>, y: seq<Byte>) {
    |x| > 0 && |y| > 0 && (x[0] < y[0] || (x[0] == y[0] && Before(x[1..], y[1..])))
  }

  lemma BeforeAt(x: seq<Byte>, y: seq<Byte>, k: nat)
    requires k < |x| && k < |y| && x[..k] == y[..k] && x[k] < y[k]
    ensures Before(x, y)
    decreases k
  {
    if k > 0 {
      assert x[0] == x[..k][0] == y[..k][0] == y[0];
      assert x[1..][..k - 1] == x[..k][1..] && y[1..][..k - 1] == y[..k][1..];
      BeforeAt(x[1..], y[1..], k - 1);
    }
  }

  /** Encodings are ordered as the characters are. With the grammar this leaves no other encoding: both are the same
      finite sets in their order. */
  lemma EncodeKeepsOrder(c: int, d: int)
    requires IsScalar(c) && IsScalar(d) && c < d
    ensures Before(Encode(c), Encode(d))
  {
    if c < 0x80 || (c < 0x800 <= d) || (c < 0x10000 <= d) {
      LongerLater(c, d);
    } else if d < 0x800 {
      TwoInOrder(c, d);
    } else if d < 0x10000 {
      ThreeInOrder(c, d);
    } else {
      FourInOrder(c, d);
    }
  }

  lemma LongerLater(c: int, d: int)
    requires IsScalar(c) && IsScalar(d) && c < d && (c < 0x80 || (c < 0x800 <= d) || (c < 0x10000 <= d))
    ensures Before(Encode(c), Encode(d))
  {
    hide Before;
    assert Encode(c)[0] < Encode(d)[0];
    BeforeAt(Encode(c), Encode(d), 0);
  }

  lemma TwoInOrder(c: int, d: int)
    requires 0x80 <= c < d < 0x800
    ensures Before(Encode(c), Encode(d))
  {
    hide Before;
    BeforeAt(Encode(c), Encode(d), if c / 64 < d / 64 then 0 else 1);
  }

  /** To the base 64, the first place that differs decides. */
  lemma NextPlace(c: nat, d: nat)
    requires c <= d
    ensures c / 64 <= d / 64
    ensures c / 64 == d / 64 && c < d ==> c % 64 < d % 64
  {
  }

  lemma Places(c: nat)
    ensures c / 4096 == c / 64 / 64 && c / 262144 == c / 64 / 64 / 64
  {
  }

  lemma ThreeInOrder(c: int, d: int)
    requires IsScalar(c) && IsScalar(d) && 0x800 <= c < d < 0x10000
    ensures Before(Encode(c), Encode(d))
  {
    Places(c);
    Places(d);
    NextPlace(c, d);
    NextPlace(c / 64, d / 64);
    ThreeBytesInOrder(c / 64 / 64, c / 64 % 64, c % 64, d / 64 / 64, d / 64 % 64, d % 64, Encode(c), Encode(d));
  }

  lemma ThreeBytesInOrder(c2: int, c1: int, c0: int, d2: int, d1: int, d0: int, x: seq<Byte>, y: seq<Byte>)
    requires x == [0xE0 + c2, 0x80 + c1, 0x80 + c0] && y == [0xE0 + d2, 0x80 + d1, 0x80 + d0]
    requires c2 < d2 || (c2 == d2 && (c1 < d1 || (c1 == d1 && c0 < d0)))
    ensures Before(x, y)
  {
    hide Before;
    BeforeAt(x, y, if c2 < d2 then 0 else if c1 < d1 then 1 else 2);
  }

  lemma FourInOrder(c: int, d: int)
    requires IsScalar(c) && IsScalar(d) && 0x10000 <= c < d
    ensures Before(Encode(c), Encode(d))
  {
    Places(c);
    Places(d);
    NextPlace(c, d);
    NextPlace(c / 64, d / 64);
    NextPlace(c / 64 / 64, d / 64 / 64);
    FourBytesInOrder(c / 64 / 64 / 64, c / 64 / 64 % 64, c / 64 % 64, c % 64,
                     d / 64 / 64 / 64, d / 64 / 64 % 64, d / 64 % 64, d % 64, Encode(c), Encode(d));
  }

  lemma FourBytesInOrder(c3: int, c2: int, c1: int, c0: int, d3: int, d2: int, d1: int, d0: int, x: seq<Byte>, y: seq<Byte>)
    requires x == [0xF0 + c3, 0x80 + c2, 0x80 + c1, 0x80 + c0] && y == [0xF0 + d3, 0x80 + d2, 0x80 + d1, 0x80 + d0]
    requires c3 < d3 || (c3 == d3 && (c2 < d2 || (c2 == d2 && (c1 < d1 || (c1 == d1 && c0 < d0)))))
    ensures Before(x, y)
  {
    hide Before;
    BeforeAt(x, y, if c3 < d3 then 0 else if c2 < d2 then 1 else if c1 < d1 then 2 else 3);
  }

  // ---------------------------------------------------------------- a whole string at once

  /** The characters of a string up to the first byte that does not continue the decoding, and what is left there. */
  datatype Decoded = Decoded(chars: seq<int>, rest: seq<Byte>)

  function Decode(s: seq<Byte>): (d: Decoded)
    ensures Head(d.rest) == 0
    decreases |s|
  {
    var k := Head(s);
    if k == 0 then Decoded([], s)
    else
      var d := Decode(s[k..]);
      Decoded([Scalar(s[..k])] + d.chars, d.rest)
  }

  /** The bytes of some characters. */
  function EncodeAll(chars: seq<int>): (s: seq<Byte>)
    requires forall c :: c in chars ==> IsScalar(c)
  {
    if |chars| == 0 then [] else Encode(chars[0]) + EncodeAll(chars[1..])
  }

  lemma {:induction false} DecodeScalars(s: seq<Byte>)
    ensures forall c :: c in Decode(s).chars ==> IsScalar(c)
    decreases |s|
  {
    hide WellFormed;
    hide Head;
    hide Scalar;
    hide Encode;
    hide IsScalar;
    var k := Head(s);
    if k > 0 {
      DecodeScalars(s[k..]);
      WellFormedEncodes(s[..k]);
    }
  }

  /** Decoding loses nothing: the characters found, encoded again, and the rest are the string. */
  lemma {:induction false} DecodeKeepsBytes(s: seq<Byte>)
    requires forall c :: c in Decode(s).chars ==> IsScalar(c)
    ensures EncodeAll(Decode(s).chars) + Decode(s).rest == s
    decreases |s|
  {
    hide WellFormed;
    hide Head;
    hide Scalar;
    hide Encode;
    hide IsScalar;
    var k := Head(s);
    if k > 0 {
      var e := Decode(s[k..]);
      assert Decode(s) == Decoded([Scalar(s[..k])] + e.chars, e.rest);
      TailScalars(Scalar(s[..k]), e.chars);
      DecodeKeepsBytes(s[k..]);
      WellFormedEncodes(s[..k]);
      KeepsHead(s, k, Scalar(s[..k]), e.chars, e.rest);
    }
  }

  lemma TailScalars(c: int, chars: seq<int>)
    requires forall x :: x in [c] + chars ==> IsScalar(x)
    ensures IsScalar(c) && forall x :: x in chars ==> IsScalar(x)
  {
    assert forall x :: x in chars ==> x in [c] + chars;
  }

  lemma KeepsHead(s: seq<Byte>, k: nat, c: int, chars: seq<int>, rest: seq<Byte>)
    requires k <= |s| && forall x :: x in [c] + chars ==> IsScalar(x)
    requires forall x :: x in chars ==> IsScalar(x)
    requires IsScalar(c) && Encode(c) == s[..k] && EncodeAll(chars) + rest == s[k..]
    ensures EncodeAll([c] + chars) + rest == s
  {
    hide Encode;
    hide IsScalar;
    assert ([c] + chars)[1..] == chars;
    assert s == s[..k] + s[k..];
  }

  /** Every sequence of characters is what its encoding decodes to. */
  lemma {:induction false} EncodeThenDecode(chars: seq<int>)
    requires forall c :: c in chars ==> IsScalar(c)
    ensures Decode(EncodeAll(chars)) == Decoded(chars, [])
  {
    hide WellFormed;
    hide Scalar;
    hide Encode;
    hide IsScalar;
    if |chars| > 0 {
      hide Head;
      EncodeThenDecode(chars[1..]);
      EncodeWellFormed(chars[0]);
      var e, more := Encode(chars[0]), EncodeAll(chars[1..]);
      var s := e + more;
      assert s[..|e|] == e && s[|e|..] == more;
      HeadIs(s, |e|);
      assert chars == [chars[0]] + chars[1..];
    }
  }

  /** Decoding a string in two parts: the second part is decoded with the rest of the first in front. */
  lemma {:induction false} DecodeAppend(a: seq<Byte>, b: seq<Byte>)
    ensures var d, e := Decode(a), Decode(Decode(a).rest + b);
            Decode(a + b) == Decoded(d.chars + e.chars, e.rest)
    decreases |a|
  {
    hide WellFormed;
    hide Head;
    hide Scalar;
    if Head(a) > 0 {
      HeadAppend(a, b);
      DecodeAppend(a[Head(a)..], b);
    }
  }
}
