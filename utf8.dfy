/**
  UTF-8 as RFC 3629 defines it, and the decoder of the WHATWG Encoding
  Standard ("UTF-8 decode", section 4.1 of the Encoding Standard) that
  replaces each maximal ill-formed subsequence by U+FFFD.

  Both URI handling functions of ECMA-262 and the
  application/x-www-form-urlencoded parser of the WHATWG URL Standard turn
  percent-escapes into bytes and those bytes into characters with UTF-8.
*/
module Utf8 {
  import opened Seqs

  type byte = b: int | 0 <= b < 256

  /** Bytes of the form 10xxxxxx, which continue a multi-byte sequence. */
  predicate IsContinuation(b: byte)
  {
    0x80 <= b < 0xC0
  }

  /** The one to four bytes RFC 3629 assigns to a scalar value. */
  function EncodeChar(c: char): (bs: seq<byte>)
    ensures 1 <= |bs| <= 4
    ensures |bs| == 1 <==> c as int < 0x80
    ensures |bs| == 1 ==> bs[0] == c as int
    ensures |bs| == 2 ==> 0xC2 <= bs[0] <= 0xDF
    ensures |bs| == 3 ==> 0xE0 <= bs[0] <= 0xEF
    ensures |bs| == 4 ==> 0xF0 <= bs[0] <= 0xF4
    ensures forall k :: 1 <= k < |bs| ==> IsContinuation(bs[k])
  {
    var n := c as int;
    if n < 0x80 then [n]
    else if n < 0x800 then [0xC0 + n / 64, 0x80 + n % 64]
    else if n < 0x10000 then [0xE0 + n / 64 / 64, 0x80 + n / 64 % 64, 0x80 + n % 64]
    else [0xF0 + n / 64 / 64 / 64, 0x80 + n / 64 / 64 % 64, 0x80 + n / 64 % 64, 0x80 + n % 64]
  }

  /** UTF-8 encoding of a whole string. */
  function Encode(s: string): (bs: seq<byte>)
    ensures |bs| >= |s|
  {
    if s == [] then [] else EncodeChar(s[0]) + Encode(s[1..])
  }

  /** The outcome of decoding the bytes at the front of a byte sequence. */
  datatype Step =
    | Decoded(c: char, len: nat)   // a well-formed sequence of `len` bytes encoding `c`
    | Malformed(len: nat)          // an ill-formed subsequence of `len` bytes

  /**
    One step of the WHATWG UTF-8 decoder: a well-formed sequence at the
    front decodes to its scalar value; otherwise the longest prefix that
    could still have begun a well-formed sequence (at least one byte) is
    one error. The ranges of the second byte after E0, ED, F0 and F4 rule
    out overlong forms, surrogates and values above U+10FFFF.
  */
  function DecodeFirst(bs: seq<byte>): (st: Step)
    requires |bs| > 0
    ensures 1 <= st.len <= |bs| && st.len <= 4
  {
    var b0: int := bs[0];
    if b0 < 0x80 then
      Decoded(b0 as char, 1)
    else if 0xC2 <= b0 <= 0xDF then
      if |bs| < 2 || !IsContinuation(bs[1]) then Malformed(1)
      else Decoded(((b0 - 0xC0) * 64 + (bs[1] as int - 0x80)) as char, 2)
    else if 0xE0 <= b0 <= 0xEF then
      var lo := if b0 == 0xE0 then 0xA0 else 0x80;
      var hi := if b0 == 0xED then 0x9F else 0xBF;
      if |bs| < 2 || !(lo <= bs[1] <= hi) then Malformed(1)
      else if |bs| < 3 || !IsContinuation(bs[2]) then Malformed(2)
      else Decoded(((b0 - 0xE0) * 4096 + (bs[1] as int - 0x80) * 64 + (bs[2] as int - 0x80)) as char, 3)
    else if 0xF0 <= b0 <= 0xF4 then
      var lo := if b0 == 0xF0 then 0x90 else 0x80;
      var hi := if b0 == 0xF4 then 0x8F else 0xBF;
      if |bs| < 2 || !(lo <= bs[1] <= hi) then Malformed(1)
      else if |bs| < 3 || !IsContinuation(bs[2]) then Malformed(2)
      else if |bs| < 4 || !IsContinuation(bs[3]) then Malformed(3)
      else Decoded(((b0 - 0xF0) * 0x40000 + (bs[1] as int - 0x80) * 4096
                    + (bs[2] as int - 0x80) * 64 + (bs[3] as int - 0x80)) as char, 4)
    else
      Malformed(1)
  }

  /** "UTF-8 decode without BOM" in replacement mode: every error becomes U+FFFD. */
  function DecodeReplace(bs: seq<byte>): (s: string)
    ensures |s| <= |bs|
    decreases |bs|
  {
    if bs == [] then []
    else
      var st := DecodeFirst(bs);
      (if st.Decoded? then [st.c] else ['\U{FFFD}']) + DecodeReplace(bs[st.len..])
  }

  // ---------------------------------------------------------------------------
  // Arithmetic helpers
  // ---------------------------------------------------------------------------

  /** Division by 64 is determined by quotient and remainder. */
  lemma {:induction false} DivMod64(x: int, q: int, r: int)
    requires x == 64 * q + r && 0 <= r < 64
    ensures x / 64 == q && x % 64 == r
  {
  }

  // ---------------------------------------------------------------------------
  // Encoding and decoding are inverse
  // ---------------------------------------------------------------------------

  lemma {:induction false} DecodeEncodeTwo(c: char, rest: seq<byte>)
    requires 0x80 <= c as int < 0x800
    ensures DecodeFirst(EncodeChar(c) + rest) == Decoded(c, 2)
  {
    var n := c as int;
    var bs: seq<int> := EncodeChar(c) + rest;
    assert bs[0] == 0xC0 + n / 64 && bs[1] == 0x80 + n % 64;
    assert (bs[0] - 0xC0) * 64 + (bs[1] as int - 0x80) == n;
  }

  lemma {:induction false} DecodeEncodeThree(c: char, rest: seq<byte>)
    requires 0x800 <= c as int < 0x10000
    ensures DecodeFirst(EncodeChar(c) + rest) == Decoded(c, 3)
  {
    var n := c as int;
    var bs: seq<int> := EncodeChar(c) + rest;
    var q1, q2 := n / 64, n / 64 / 64;
    assert n == 64 * q1 + n % 64;
    assert q1 == 64 * q2 + q1 % 64;
    assert bs[0] == 0xE0 + q2 && bs[1] == 0x80 + q1 % 64 && bs[2] == 0x80 + n % 64;
    assert (bs[0] - 0xE0) * 4096 + (bs[1] as int - 0x80) * 64 + (bs[2] as int - 0x80) == n;
  }

  lemma {:induction false} DecodeEncodeFour(c: char, rest: seq<byte>)
    requires 0x10000 <= c as int
    ensures DecodeFirst(EncodeChar(c) + rest) == Decoded(c, 4)
  {
    var n := c as int;
    var bs: seq<int> := EncodeChar(c) + rest;
    var q1, q2, q3 := n / 64, n / 64 / 64, n / 64 / 64 / 64;
    assert n == 64 * q1 + n % 64;
    assert q1 == 64 * q2 + q1 % 64;
    assert q2 == 64 * q3 + q2 % 64;
    assert bs[0] == 0xF0 + q3 && bs[1] == 0x80 + q2 % 64;
    assert bs[2] == 0x80 + q1 % 64 && bs[3] == 0x80 + n % 64;
    assert (bs[0] - 0xF0) * 0x40000 + (bs[1] as int - 0x80) * 4096 + (bs[2] as int - 0x80) * 64 + (bs[3] as int - 0x80) == n;
  }

  /** The decoder reads back exactly the character the encoder wrote, whatever follows it. */
  lemma {:induction false} DecodeEncodeChar(c: char, rest: seq<byte>)
    ensures DecodeFirst(EncodeChar(c) + rest) == Decoded(c, |EncodeChar(c)|)
  {
    var n := c as int;
    if n < 0x80 {
    } else if n < 0x800 {
      DecodeEncodeTwo(c, rest);
    } else if n < 0x10000 {
      DecodeEncodeThree(c, rest);
    } else {
      DecodeEncodeFour(c, rest);
    }
  }

  /**
    The decoder accepts only the encoder's output: a well-formed sequence
    at the front of `bs` is the UTF-8 encoding of the character it decodes to.
  */
  lemma {:induction false} DecodedIsEncoding(bs: seq<byte>)
    requires |bs| > 0 && DecodeFirst(bs).Decoded?
    ensures bs[..DecodeFirst(bs).len] == EncodeChar(DecodeFirst(bs).c)
  {
    var st := DecodeFirst(bs);
    if st.len == 1 {
      assert bs[..1] == [bs[0]];
    } else if st.len == 2 {
      DecodedTwo(bs, st.c);
    } else if st.len == 3 {
      DecodedThree(bs, st.c);
    } else {
      DecodedFour(bs, st.c);
    }
  }

  lemma {:induction false} DecodedTwo(bs: seq<byte>, c: char)
    requires |bs| > 0 && DecodeFirst(bs) == Decoded(c, 2)
    ensures bs[..2] == EncodeChar(c)
  {
    var b: seq<int> := bs;
    var n := c as int;
    assert n == (b[0] - 0xC0) * 64 + (b[1] - 0x80);
    DivMod64(n, b[0] - 0xC0, b[1] - 0x80);
    assert bs[..2] == [b[0], b[1]];
  }

  lemma {:induction false} DecodedThree(bs: seq<byte>, c: char)
    requires |bs| > 0 && DecodeFirst(bs) == Decoded(c, 3)
    ensures bs[..3] == EncodeChar(c)
  {
    var b: seq<int> := bs;
    var n := c as int;
    var q1 := (b[0] - 0xE0) * 64 + (b[1] - 0x80);
    assert n == q1 * 64 + (b[2] - 0x80);
    DivMod64(n, q1, b[2] - 0x80);
    DivMod64(q1, b[0] - 0xE0, b[1] - 0x80);
    assert bs[..3] == [b[0], b[1], b[2]];
  }

  lemma {:induction false} DecodedFour(bs: seq<byte>, c: char)
    requires |bs| > 0 && DecodeFirst(bs) == Decoded(c, 4)
    ensures bs[..4] == EncodeChar(c)
  {
    var b: seq<int> := bs;
    var n := c as int;
    var q2 := (b[0] - 0xF0) * 64 + (b[1] - 0x80);
    var q1 := q2 * 64 + (b[2] - 0x80);
    assert n == q1 * 64 + (b[3] - 0x80);
    DivMod64(n, q1, b[3] - 0x80);
    DivMod64(q1, q2, b[2] - 0x80);
    DivMod64(q2, b[0] - 0xF0, b[1] - 0x80);
    assert bs[..4] == [b[0], b[1], b[2], b[3]];
  }

  /** Encoding distributes over concatenation. */
  lemma {:induction false} EncodeAppend(a: string, b: string)
    ensures Encode(a + b) == Encode(a) + Encode(b)
  {
    if a == [] {
      assert a + b == b;
    } else {
      assert (a + b)[1..] == a[1..] + b;
      EncodeAppend(a[1..], b);
    }
  }

  /** One step of `DecodeReplace` over a well-formed sequence at the front. */
  lemma {:induction false} DecodeReplaceStep(bs: seq<byte>, c: char, len: nat)
    requires |bs| > 0 && DecodeFirst(bs) == Decoded(c, len)
    ensures DecodeReplace(bs) == [c] + DecodeReplace(bs[len..])
  {
  }

  /** Decoding the encoding of `s` yields `s` and then whatever the rest decodes to. */
  lemma {:induction false} DecodeReplaceEncode(s: string, rest: seq<byte>)
    ensures DecodeReplace(Encode(s) + rest) == s + DecodeReplace(rest)
  {
    if s == [] {
      assert Encode(s) + rest == rest;
    } else {
      var e, tail := EncodeChar(s[0]), Encode(s[1..]) + rest;
      var bs := Encode(s) + rest;
      AppendAssoc(e, Encode(s[1..]), rest);
      DecodeEncodeChar(s[0], tail);
      DropFront(e, tail);
      DecodeReplaceStep(bs, s[0], |e|);
      DecodeReplaceEncode(s[1..], rest);
      var d := DecodeReplace(rest);
      assert DecodeReplace(bs) == [s[0]] + DecodeReplace(tail);
      assert DecodeReplace(tail) == s[1..] + d;
      ConsAppend(s, d);
    }
  }

  /** UTF-8 round trip: decoding an encoding gives back the string. */
  lemma {:induction false} DecodeReplaceRoundTrip(s: string)
    ensures DecodeReplace(Encode(s)) == s
  {
    DecodeReplaceEncode(s, []);
    assert Encode(s) + [] == Encode(s);
  }
}
