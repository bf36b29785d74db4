/**
  `encodeURIComponent` and `decodeURIComponent`, the URI handling functions
  of ECMA-262 (section 19.2.6 of the 2022 edition), over strings of Unicode
  scalar values. `decodeURIComponent` throws a URIError on a malformed
  escape; here that is `None`.
*/
module UriCodec {
  import opened Wrappers
  import opened Utf8
  import opened Percent
  import opened Seqs

  /** uriUnescaped: the characters `encodeURIComponent` leaves as they are. */
  predicate IsUriUnescaped(c: char)
  {
    || ('A' <= c <= 'Z') || ('a' <= c <= 'z') || ('0' <= c <= '9')
    || c == '-' || c == '_' || c == '.' || c == '!' || c == '~' || c == '*'
    || c == '\'' || c == '(' || c == ')'
  }

  /** What `encodeURIComponent` writes for one character. */
  function EncodeUnit(c: char): (t: string)
    ensures |t| >= 1
    ensures forall k :: 0 <= k < |t| ==> IsUriUnescaped(t[k]) || t[k] == '%'
  {
    if IsUriUnescaped(c) then [c] else Triplets(EncodeChar(c))
  }

  /**
    `encodeURIComponent(s)`: every character outside uriUnescaped becomes
    the percent-escapes of its UTF-8 bytes. The result consists of
    uriUnescaped characters and "%" only, so it never holds a separator
    such as "|", "&", "=", "+", "?" or "#".
  */
  function EncodeUriComponent(s: string): (r: string)
    ensures |r| >= |s|
    ensures forall k :: 0 <= k < |r| ==> IsUriUnescaped(r[k]) || r[k] == '%'
  {
    if s == [] then [] else EncodeUnit(s[0]) + EncodeUriComponent(s[1..])
  }

  /**
    The number of leading one bits of an octet: 0 for ASCII, 1 for a
    continuation octet, 2 to 4 for the first octet of a 2 to 4 octet
    sequence, more for octets UTF-8 never uses.
  */
  function LeadingOnes(b: byte): nat
  {
    if b < 0x80 then 0
    else if b < 0xC0 then 1
    else if b < 0xE0 then 2
    else if b < 0xF0 then 3
    else if b < 0xF8 then 4
    else if b < 0xFC then 5
    else if b < 0xFE then 6
    else if b < 0xFF then 7
    else 8
  }

  /** The octet of a well-formed "%XY" at the front of `s`. */
  function ReadTriplet(s: string): (r: Option<byte>)
    ensures r.Some? ==> |s| >= 3
  {
    if |s| >= 3 && s[0] == '%' && IsHexDigit(s[1]) && IsHexDigit(s[2])
    then Some(HexValue(s[1]) * 16 + HexValue(s[2]))
    else None
  }

  /** The octets of `n` consecutive well-formed triplets at the front of `s`. */
  function ReadTriplets(s: string, n: nat): (r: Option<seq<byte>>)
    ensures r.Some? ==> |r.value| == n && |s| >= 3 * n
  {
    if n == 0 then Some([])
    else
      var b :- ReadTriplet(s);
      var more :- ReadTriplets(s[3..], n - 1);
      Some([b] + more)
  }

  /**
    `decodeURIComponent(s)`, following the Decode operation of ECMA-262 with
    an empty reserved set: characters other than "%" are copied; "%XY"
    below 0x80 is that character; an octet with n leading one bits
    (2 <= n <= 4) must be followed by n - 1 further triplets, and the n
    octets together must be a well-formed UTF-8 sequence. Anything else is
    a URIError.
  */
  function DecodeUriComponent(s: string): (r: Option<string>)
    ensures r.Some? ==> |r.value| <= |s|
    ensures r.Some? ==> (r.value == [] <==> s == [])
    decreases |s|
  {
    if s == [] then Some([])
    else if s[0] != '%' then
      var tail :- DecodeUriComponent(s[1..]);
      Some([s[0]] + tail)
    else if |s| < 3 || !IsHexDigit(s[1]) || !IsHexDigit(s[2]) then None
    else
      var b := HexValue(s[1]) * 16 + HexValue(s[2]);
      var n := LeadingOnes(b);
      if n == 0 then
        var tail :- DecodeUriComponent(s[3..]);
        Some([b as char] + tail)
      else if n == 1 || n > 4 || |s| < 3 * n then None
      else
        var more :- ReadTriplets(s[3..], n - 1);
        var st := DecodeFirst([b] + more);
        if st.Decoded? && st.len == n then
          var tail :- DecodeUriComponent(s[3 * n..]);
          Some([st.c] + tail)
        else None
  }

  // ---------------------------------------------------------------------------
  // Lemmas
  // ---------------------------------------------------------------------------

  /** Text made of uriUnescaped characters and "%" only, as `encodeURIComponent` writes it. */
  predicate IsEscapedText(s: string)
  {
    forall k :: 0 <= k < |s| ==> IsUriUnescaped(s[k]) || s[k] == '%'
  }

  /** Two such texts, one after the other, are such a text. */
  lemma {:induction false} EscapedTextAppend(a: string, b: string)
    requires IsEscapedText(a) && IsEscapedText(b)
    ensures IsEscapedText(a + b)
  {
    forall k | 0 <= k < |a + b| ensures IsUriUnescaped((a + b)[k]) || (a + b)[k] == '%' {
      if k >= |a| {
        assert (a + b)[k] == b[k - |a|];
      }
    }
  }

  /** A character that `encodeURIComponent` escapes, other than "%", never occurs in its output. */
  lemma {:induction false} EncodedLacks(s: string, c: char)
    requires !IsUriUnescaped(c) && c != '%'
    ensures c !in EncodeUriComponent(s)
  {
    var e := EncodeUriComponent(s);
    forall k | 0 <= k < |e| ensures e[k] != c {
      assert IsUriUnescaped(e[k]) || e[k] == '%';
    }
  }

  /** A string without "%" decodes to itself. */
  lemma {:induction false} DecodeWithoutPercent(s: string)
    requires '%' !in s
    ensures DecodeUriComponent(s) == Some(s)
  {
    if s != [] {
      DecodeWithoutPercent(s[1..]);
      assert [s[0]] + s[1..] == s;
    }
  }

  /** The triplets of some octets read back as those octets. */
  lemma {:induction false} ReadTripletsOf(bs: seq<byte>, rest: string)
    ensures ReadTriplets(Triplets(bs) + rest, |bs|) == Some(bs)
  {
    if bs != [] {
      var s := Triplets(bs) + rest;
      assert s[..3] == Triplet(bs[0]);
      assert s[3..] == Triplets(bs[1..]) + rest;
      ReadTripletsOf(bs[1..], rest);
      assert [bs[0]] + bs[1..] == bs;
    }
  }

  /** `c` in front of a decoded string; a URIError stays a URIError. */
  function Prepend(c: char, r: Option<string>): Option<string>
  {
    match r
    case Some(t) => Some([c] + t)
    case None => None
  }

  /** The step of `DecodeUriComponent` over a multi-octet escape. */
  lemma {:induction false} DecodeMultiStep(s: string, b: byte, more: seq<byte>, c: char)
    requires |s| >= 3 && s[0] == '%' && IsHexDigit(s[1]) && IsHexDigit(s[2])
    requires b == HexValue(s[1]) * 16 + HexValue(s[2])
    requires 2 <= LeadingOnes(b) <= 4 && |s| >= 3 * LeadingOnes(b)
    requires ReadTriplets(s[3..], LeadingOnes(b) - 1) == Some(more)
    requires DecodeFirst([b] + more) == Decoded(c, LeadingOnes(b))
    ensures DecodeUriComponent(s) == Prepend(c, DecodeUriComponent(s[3 * LeadingOnes(b)..]))
  {
  }

  /** The step of `DecodeUriComponent` over a single-octet escape. */
  lemma {:induction false} DecodeAsciiStep(s: string, b: byte)
    requires |s| >= 3 && s[0] == '%' && IsHexDigit(s[1]) && IsHexDigit(s[2])
    requires b == HexValue(s[1]) * 16 + HexValue(s[2]) && b < 0x80
    ensures DecodeUriComponent(s) == Prepend(b as char, DecodeUriComponent(s[3..]))
  {
  }

  /** The front of the triplets of some octets, followed by anything. */
  lemma {:induction false} TripletsFront(e: seq<byte>, rest: string)
    requires |e| >= 1
    ensures var s := Triplets(e) + rest;
      && |s| >= 3 && s[0] == '%' && IsHexDigit(s[1]) && IsHexDigit(s[2])
      && HexValue(s[1]) * 16 + HexValue(s[2]) == e[0]
      && s[3..] == Triplets(e[1..]) + rest
      && s[3 * |e|..] == rest
  {
    var t, u := Triplet(e[0]), Triplets(e[1..]);
    assert Triplets(e) + rest == t + (u + rest);
    SplitThree(t, u + rest);
    assert (u + rest)[|u|..] == rest;
  }

  /** The first octet of a multi-octet UTF-8 sequence has as many leading ones as the sequence has octets. */
  lemma {:induction false} LeadingOnesOfEncoding(c: char)
    ensures var e := EncodeChar(c);
      |e| >= 2 ==> LeadingOnes(e[0]) == |e|
  {
  }

  /**
    Decoding the triplets of the UTF-8 encoding `e` of `c`, followed by
    anything; `e` is described by the facts the decoder relies on.
  */
  lemma {:induction false} DecodeTripletsOfChar(e: seq<byte>, c: char, rest: string)
    requires 1 <= |e| <= 4
    requires |e| == 1 ==> e[0] < 0x80 && e[0] as char == c
    requires |e| >= 2 ==> LeadingOnes(e[0]) == |e| && DecodeFirst(e) == Decoded(c, |e|)
    ensures DecodeUriComponent(Triplets(e) + rest) == Prepend(c, DecodeUriComponent(rest))
  {
    var s := Triplets(e) + rest;
    TripletsFront(e, rest);
    if |e| == 1 {
      DecodeAsciiStep(s, e[0]);
    } else {
      ReadTripletsOf(e[1..], rest);
      assert [e[0]] + e[1..] == e;
      DecodeMultiStep(s, e[0], e[1..], c);
    }
  }

  /** Decoding an escaped character, followed by anything. */
  lemma {:induction false} DecodeEscaped(c: char, rest: string)
    requires !IsUriUnescaped(c)
    ensures DecodeUriComponent(Triplets(EncodeChar(c)) + rest) == Prepend(c, DecodeUriComponent(rest))
  {
    var e := EncodeChar(c);
    LeadingOnesOfEncoding(c);
    DecodeEncodeChar(c, []);
    assert e + [] == e;
    DecodeTripletsOfChar(e, c, rest);
  }

  /** Decoding one encoded character, followed by anything. */
  lemma {:induction false} DecodeEncodeUnit(c: char, rest: string)
    ensures DecodeUriComponent(EncodeUnit(c) + rest) == Prepend(c, DecodeUriComponent(rest))
  {
    if IsUriUnescaped(c) {
      var s := EncodeUnit(c) + rest;
      assert s[0] == c && s[1..] == rest;
    } else {
      DecodeEscaped(c, rest);
    }
  }

  /** Round trip: `decodeURIComponent(encodeURIComponent(s)) === s` for every string. */
  lemma {:induction false} DecodeEncode(s: string)
    ensures DecodeUriComponent(EncodeUriComponent(s)) == Some(s)
  {
    if s != [] {
      DecodeEncode(s[1..]);
      DecodeEncodeUnit(s[0], EncodeUriComponent(s[1..]));
      assert [s[0]] + s[1..] == s;
    }
  }
}
