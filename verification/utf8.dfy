/**
 UTF-8 as Python's strict `bytes.decode("utf-8")` accepts it: the byte
 grammar of section 4 of RFC 3629 (no overlong forms, no surrogates, nothing
 above U+10FFFF), a decoder on well-formed byte strings and the matching
 encoder, proved to be inverse to each other.
 */
module Utf8 {

  newtype byte = b: int | 0 <= b < 0x100

  /** UTF8-tail of RFC 3629: a continuation byte. */
  predicate IsTail(b: byte) {
    0x80 <= b <= 0xBF
  }

  /**
   Number of bytes announced by a lead byte: 1 for UTF8-1, 2 to 4 for the
   first byte of UTF8-2 to UTF8-4, and 0 for a byte no character starts with
   (continuation bytes, C0, C1 and F5 to FF).
   */
  function LeadWidth(b: byte): (w: nat)
    ensures w <= 4
  {
    if b <= 0x7F then 1
    else if 0xC2 <= b <= 0xDF then 2
    else if 0xE0 <= b <= 0xEF then 3
    else if 0xF0 <= b <= 0xF4 then 4
    else 0
  }

  /**
   The range RFC 3629 allows for the byte after lead byte `b0`: narrower than
   UTF8-tail after E0, ED, F0 and F4, which rules out overlong forms,
   surrogates and values above U+10FFFF.
   */
  predicate SecondOk(b0: byte, b1: byte) {
    if b0 == 0xE0 then 0xA0 <= b1 <= 0xBF
    else if b0 == 0xED then 0x80 <= b1 <= 0x9F
    else if b0 == 0xF0 then 0x90 <= b1 <= 0xBF
    else if b0 == 0xF4 then 0x80 <= b1 <= 0x8F
    else IsTail(b1)
  }

  /**
   Length of the well-formed character encoding at the front of `s`
   (UTF8-1 to UTF8-4 of RFC 3629), or 0 when `s` does not start with one.
   */
  function CharLen(s: seq<byte>): (n: nat)
    ensures n <= 4 && n <= |s|
    ensures n > 0 ==> |s| > 0
  {
    if |s| == 0 then 0
    else
      var w := LeadWidth(s[0]);
      if w == 1 then 1
      else if w >= 2 && |s| >= w && SecondOk(s[0], s[1])
              && (w < 3 || IsTail(s[2])) && (w < 4 || IsTail(s[3])) then w
      else 0
  }

  /** `s` is a sequence of well-formed character encodings (UTF8-octets). */
  predicate Valid(s: seq<byte>)
    decreases |s|
  {
    |s| == 0 || (CharLen(s) > 0 && Valid(s[CharLen(s)..]))
  }

  /** The scalar value encoded at the front of `s`. */
  function DecodeChar(s: seq<byte>): char
    requires CharLen(s) > 0
  {
    var n := CharLen(s);
    var cp :=
      if n == 1 then s[0] as int
      else if n == 2 then (s[0] as int - 0xC0) * 64 + (s[1] as int - 0x80)
      else if n == 3 then
        (s[0] as int - 0xE0) * 4096 + (s[1] as int - 0x80) * 64 + (s[2] as int - 0x80)
      else
        (s[0] as int - 0xF0) * 0x40000 + (s[1] as int - 0x80) * 4096
        + (s[2] as int - 0x80) * 64 + (s[3] as int - 0x80);
    cp as char
  }

  /** Python's `bytes.decode("utf-8")` on input it does not reject. */
  function Decode(s: seq<byte>): (r: string)
    requires Valid(s)
    ensures |r| <= |s|
    ensures |r| == 0 <==> |s| == 0
    decreases |s|
  {
    if |s| == 0 then [] else [DecodeChar(s)] + Decode(s[CharLen(s)..])
  }

  /** Python's `str.encode("utf-8")` on one character. */
  function EncodeChar(c: char): (r: seq<byte>)
    ensures 1 <= |r| <= 4
  {
    var n := c as int;
    if n < 0x80 then [n as byte]
    else if n < 0x800 then Encode2(n)
    else if n < 0x1_0000 then Encode3(n)
    else Encode4(n)
  }

  /** The encoding of a character is one well-formed character encoding, and decodes back to it. */
  lemma DecodeEncodeChar(c: char)
    ensures CharLen(EncodeChar(c)) == |EncodeChar(c)|
    ensures DecodeChar(EncodeChar(c)) == c
  {
    var n := c as int;
    if n < 0x80 {
    } else if n < 0x800 {
      var r := Encode2(n);
      assert CharLen(r) == 2;
    } else if n < 0x1_0000 {
      var r := Encode3(n);
      assert CharLen(r) == 3;
    } else {
      var r := Encode4(n);
      assert CharLen(r) == 4;
    }
  }

  /** The two-byte form, for scalar values from U+0080 to U+07FF. */
  function Encode2(n: int): (r: seq<byte>)
    requires 0x80 <= n < 0x800
    ensures |r| == 2
    ensures (r[0] as int - 0xC0) * 64 + (r[1] as int - 0x80) == n
  {
    var a, b := n / 64, n % 64;
    assert n == a * 64 + b;
    [(0xC0 + a) as byte, (0x80 + b) as byte]
  }

  /** The three-byte form, for scalar values from U+0800 to U+FFFF other than surrogates. */
  function Encode3(n: int): (r: seq<byte>)
    requires 0x800 <= n < 0x1_0000 && !(0xD800 <= n < 0xE000)
    ensures |r| == 3
    ensures (r[0] as int - 0xE0) * 4096 + (r[1] as int - 0x80) * 64 + (r[2] as int - 0x80) == n
  {
    var q1 := n / 64;
    var a, b, c := q1 / 64, q1 % 64, n % 64;
    assert n == q1 * 64 + c && q1 == a * 64 + b;
    assert n == a * 4096 + b * 64 + c;
    [(0xE0 + a) as byte, (0x80 + b) as byte, (0x80 + c) as byte]
  }

  /** The four-byte form, for scalar values from U+10000 to U+10FFFF. */
  function Encode4(n: int): (r: seq<byte>)
    requires 0x1_0000 <= n < 0x11_0000
    ensures |r| == 4
    ensures (r[0] as int - 0xF0) * 0x40000 + (r[1] as int - 0x80) * 4096
            + (r[2] as int - 0x80) * 64 + (r[3] as int - 0x80) == n
  {
    var q1 := n / 64;
    var q2 := q1 / 64;
    var a, b, c, d := q2 / 64, q2 % 64, q1 % 64, n % 64;
    assert n == q1 * 64 + d && q1 == q2 * 64 + c && q2 == a * 64 + b;
    assert n == a * 0x40000 + b * 4096 + c * 64 + d;
    [(0xF0 + a) as byte, (0x80 + b) as byte, (0x80 + c) as byte, (0x80 + d) as byte]
  }

  /** Python's `str.encode("utf-8")`. */
  function Encode(s: string): (r: seq<byte>)
    ensures |s| <= |r|
    decreases |s|
  {
    if |s| == 0 then [] else EncodeChar(s[0]) + Encode(s[1..])
  }

  /** The character length at the front of `a` does not look past it. */
  lemma CharLenPrefix(a: seq<byte>, b: seq<byte>)
    requires CharLen(a) > 0
    ensures CharLen(a + b) == CharLen(a)
    ensures DecodeChar(a + b) == DecodeChar(a)
  {
    var n := CharLen(a);
    assert forall i :: 0 <= i < |a| ==> (a + b)[i] == a[i];
  }

  /** Well-formed strings concatenate to a well-formed string. */
  lemma {:induction false} AppendValid(a: seq<byte>, b: seq<byte>)
    requires Valid(a) && Valid(b)
    ensures Valid(a + b)
    decreases |a|
  {
    if |a| == 0 {
      assert a + b == b;
    } else {
      var n := CharLen(a);
      CharLenPrefix(a, b);
      assert (a + b)[n..] == a[n..] + b;
      AppendValid(a[n..], b);
    }
  }

  /** Decoding maps concatenation of well-formed strings to concatenation of texts. */
  lemma {:induction false} DecodeAppend(a: seq<byte>, b: seq<byte>)
    requires Valid(a) && Valid(b)
    ensures Valid(a + b)
    ensures Decode(a + b) == Decode(a) + Decode(b)
    decreases |a|
  {
    AppendValid(a, b);
    if |a| == 0 {
      assert a + b == b;
    } else {
      var n := CharLen(a);
      DecodeAppend(a[n..], b);
      DecodeAppendStep(a, b, n);
    }
  }

  /** One step of `DecodeAppend`: the first character of `a` is the first of `a + b`. */
  lemma DecodeAppendStep(a: seq<byte>, b: seq<byte>, n: nat)
    requires Valid(a) && Valid(b) && |a| > 0 && n == CharLen(a)
    requires Valid(a[n..] + b) && Decode(a[n..] + b) == Decode(a[n..]) + Decode(b)
    ensures Valid(a + b) && Decode(a + b) == Decode(a) + Decode(b)
  {
    var c, x, y := DecodeChar(a), Decode(a[n..]), Decode(b);
    DecodeFrontAppend(a, b, n);
    assert [c] + (x + y) == ([c] + x) + y;
  }

  lemma DecodeFrontAppend(a: seq<byte>, b: seq<byte>, n: nat)
    requires |a| > 0 && n == CharLen(a) && n > 0 && Valid(a[n..] + b)
    ensures Valid(a + b) && Decode(a + b) == [DecodeChar(a)] + Decode(a[n..] + b)
  {
    CharLenPrefix(a, b);
    assert (a + b)[n..] == a[n..] + b;
  }

  /**
   The rest of a well-formed string after a well-formed prefix is itself
   well-formed: a decoder never has to look back across a character boundary.
   */
  lemma {:induction false} ValidSuffix(a: seq<byte>, b: seq<byte>)
    requires Valid(a + b) && Valid(a)
    ensures Valid(b)
    decreases |a|
  {
    if |a| == 0 {
      assert a + b == b;
    } else {
      var n := CharLen(a);
      CharLenPrefix(a, b);
      assert (a + b)[n..] == a[n..] + b;
      ValidSuffix(a[n..], b);
    }
  }

  /** Encoding yields well-formed UTF-8 that decodes back to the string. */
  lemma {:induction false} DecodeEncode(s: string)
    ensures Valid(Encode(s))
    ensures Decode(Encode(s)) == s
    decreases |s|
  {
    if |s| > 0 {
      var e := EncodeChar(s[0]);
      DecodeEncodeChar(s[0]);
      DecodeEncode(s[1..]);
      CharLenPrefix(e, Encode(s[1..]));
      assert (e + Encode(s[1..]))[|e|..] == Encode(s[1..]);
    }
  }

  /** The character at the front of `s` re-encodes to exactly the bytes it was decoded from. */
  lemma EncodeDecodeChar(s: seq<byte>)
    requires CharLen(s) > 0
    ensures EncodeChar(DecodeChar(s)) == s[..CharLen(s)]
  {
    var n := CharLen(s);
    if n == 1 {
    } else if n == 2 {
      EncodeDecode2(s);
    } else if n == 3 {
      EncodeDecode3(s);
    } else {
      EncodeDecode4(s);
    }
  }

  lemma EncodeDecode2(s: seq<byte>)
    requires CharLen(s) == 2
    ensures EncodeChar(DecodeChar(s)) == s[..2]
  {
    var a, b := s[0] as int - 0xC0, s[1] as int - 0x80;
    var cp := a * 64 + b;
    assert DecodeChar(s) as int == cp;
    DivModUnique(cp, 64, a, b);
    assert Encode2(cp) == [(0xC0 + a) as byte, (0x80 + b) as byte];
  }

  lemma EncodeDecode3(s: seq<byte>)
    requires CharLen(s) == 3
    ensures EncodeChar(DecodeChar(s)) == s[..3]
  {
    var a, b, c := s[0] as int - 0xE0, s[1] as int - 0x80, s[2] as int - 0x80;
    var cp := a * 4096 + b * 64 + c;
    assert DecodeChar(s) as int == cp;
    assert 0x800 <= cp < 0x1_0000;
    DivModUnique(cp, 64, a * 64 + b, c);
    DivModUnique(cp / 64, 64, a, b);
    assert Encode3(cp) == [(0xE0 + a) as byte, (0x80 + b) as byte, (0x80 + c) as byte];
  }

  lemma EncodeDecode4(s: seq<byte>)
    requires CharLen(s) == 4
    ensures EncodeChar(DecodeChar(s)) == s[..4]
  {
    var a, b, c, d := s[0] as int - 0xF0, s[1] as int - 0x80, s[2] as int - 0x80, s[3] as int - 0x80;
    var cp := a * 0x40000 + b * 4096 + c * 64 + d;
    assert DecodeChar(s) as int == cp;
    DivModUnique(cp, 64, a * 4096 + b * 64 + c, d);
    DivModUnique(cp / 64, 64, a * 64 + b, c);
    DivModUnique(cp / 64 / 64, 64, a, b);
    var e := Encode4(cp);
    assert e == [(0xF0 + a) as byte, (0x80 + b) as byte, (0x80 + c) as byte, (0x80 + d) as byte];
  }

  /** Quotient and remainder are unique. */
  lemma DivModUnique(x: int, k: int, q: int, r: int)
    requires k > 0 && 0 <= r < k && x == q * k + r
    ensures x / k == q && x % k == r
  {
    var q', r' := x / k, x % k;
    assert (q - q') * k == r' - r;
    if q > q' {
      MulAtLeast(q - q', k);
    } else if q < q' {
      MulAtLeast(q' - q, k);
    }
  }

  lemma MulAtLeast(m: int, k: int)
    requires m >= 1 && k > 0
    ensures m * k >= k
  {
  }

  /** Decoding loses nothing: re-encoding a well-formed byte string gives it back. */
  lemma {:induction false} EncodeDecode(s: seq<byte>)
    requires Valid(s)
    ensures Encode(Decode(s)) == s
    decreases |s|
  {
    if |s| > 0 {
      var n := CharLen(s);
      EncodeDecode(s[n..]);
      EncodeDecodeStep(s, n);
    }
  }

  /** One step of `EncodeDecode`: the first character re-encodes to the first n bytes. */
  lemma EncodeDecodeStep(s: seq<byte>, n: nat)
    requires Valid(s) && |s| > 0 && n == CharLen(s)
    requires Encode(Decode(s[n..])) == s[n..]
    ensures Encode(Decode(s)) == s
  {
    var c, rest := DecodeChar(s), Decode(s[n..]);
    assert Decode(s) == [c] + rest;
    EncodeCons(c, rest);
    EncodeDecodeChar(s);
    SplitAt(s, n, EncodeChar(c), Encode(rest), Encode(Decode(s)));
  }

  lemma SplitAt(s: seq<byte>, n: nat, x: seq<byte>, y: seq<byte>, xy: seq<byte>)
    requires n <= |s| && x == s[..n] && y == s[n..] && xy == x + y
    ensures xy == s
  {
    assert s == s[..n] + s[n..];
  }

  lemma EncodeCons(c: char, rest: string)
    ensures Encode([c] + rest) == EncodeChar(c) + Encode(rest)
  {
    assert ([c] + rest)[1..] == rest;
  }
}
