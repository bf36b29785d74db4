/**
  The application/x-www-form-urlencoded parser and serializer of the WHATWG
  URL Standard (sections 5.1 and 5.2), which `URLSearchParams` uses: the
  constructor, `get`, `getAll` and `toString`.
*/
module FormUrlEncoded {
  import opened Wrappers
  import opened Utf8
  import opened Percent
  import opened Seqs
  import JsText

  /** One name-value tuple of a URLSearchParams list. */
  datatype Pair = Pair(name: string, value: string)

  // ---------------------------------------------------------------------------
  // Parsing
  // ---------------------------------------------------------------------------

  /**
    Percent-decoding of a byte sequence (URL Standard section 1.3): "%"
    followed by two hexadecimal digits becomes the byte they denote; every
    other byte, including a "%" that does not start such a triplet, is kept.
  */
  function PercentDecode(bs: seq<byte>): (r: seq<byte>)
    ensures |r| <= |bs|
  {
    if bs == [] then []
    else if bs[0] == 0x25 && |bs| >= 3 && IsHexDigit(bs[1] as char) && IsHexDigit(bs[2] as char) then
      [HexValue(bs[1] as char) * 16 + HexValue(bs[2] as char)] + PercentDecode(bs[3..])
    else
      [bs[0]] + PercentDecode(bs[1..])
  }

  /**
    Replaces every "+" by a space. The standard replaces the byte 0x2B
    after UTF-8 encoding; 0x2B never occurs inside a multi-byte sequence, so
    replacing the character first gives the same bytes.
  */
  function ReplacePlus(s: string): (r: string)
    ensures |r| == |s|
    ensures forall k :: 0 <= k < |s| ==> r[k] == (if s[k] == '+' then ' ' else s[k])
  {
    if s == [] then [] else [if s[0] == '+' then ' ' else s[0]] + ReplacePlus(s[1..])
  }

  /** A name or value as the parser delivers it: "+" to space, percent-decode, UTF-8 decode with replacement. */
  function DecodeComponent(s: string): string
  {
    DecodeReplace(PercentDecode(Encode(ReplacePlus(s))))
  }

  /** One non-empty "name=value" piece; without "=", all of it is the name and the value is empty. */
  function ParsePiece(piece: string): Pair
  {
    if '=' in piece then
      var i := JsText.IndexOf(piece, '=');
      Pair(DecodeComponent(piece[..i]), DecodeComponent(piece[i + 1..]))
    else
      Pair(DecodeComponent(piece), [])
  }

  /** The tuples of the pieces between "&"s, skipping empty pieces. */
  function ParsePieces(pieces: seq<string>): (r: seq<Pair>)
    ensures |r| <= |pieces|
  {
    if pieces == [] then []
    else (if pieces[0] == [] then [] else [ParsePiece(pieces[0])]) + ParsePieces(pieces[1..])
  }

  /** The application/x-www-form-urlencoded parser. */
  function Parse(input: string): seq<Pair>
  {
    ParsePieces(JsText.Split(input, '&'))
  }

  /** `new URLSearchParams(init)` for a string `init`: a leading "?" is dropped, the rest is parsed. */
  function SearchParams(init: string): seq<Pair>
  {
    Parse(if |init| > 0 && init[0] == '?' then init[1..] else init)
  }

  /**
    The pieces on either side of an "&" are parsed on their own: the tuples
    of `x&y` are those of `x` followed by those of `y`.
  */
  lemma {:induction false} ParseAppend(x: string, y: string)
    ensures Parse(x + "&" + y) == Parse(x) + Parse(y)
  {
    JsText.SplitAppend(x, '&', y);
    ParsePiecesAppend(JsText.Split(x, '&'), JsText.Split(y, '&'));
  }

  /** The constructor drops one leading "?": `location.search` and its query without the "?" give the same tuples. */
  lemma {:induction false} SearchParamsMark(q: string)
    ensures SearchParams("?" + q) == Parse(q)
    ensures q == [] || q[0] != '?' ==> SearchParams(q) == Parse(q)
  {
    assert ("?" + q)[1..] == q;
  }

  /** `params.getAll(name)`: the values of all tuples with that name, in list order. */
  function GetAll(params: seq<Pair>, name: string): (r: seq<string>)
    ensures |r| <= |params|
    ensures (forall i :: 0 <= i < |params| ==> params[i].name != name) ==> r == []
  {
    if params == [] then []
    else (if params[0].name == name then [params[0].value] else []) + GetAll(params[1..], name)
  }

  /** `params.get(name)`: the value of the first tuple with that name, or null. */
  function Get(params: seq<Pair>, name: string): (r: Option<string>)
    ensures r.None? <==> forall i :: 0 <= i < |params| ==> params[i].name != name
    ensures r.Some? ==> GetAll(params, name) != [] && r.value == GetAll(params, name)[0]
  {
    if params == [] then None
    else if params[0].name == name then Some(params[0].value)
    else Get(params[1..], name)
  }

  /** `getAll` returns a value exactly when some tuple carries it under that name. */
  lemma {:induction false} GetAllMember(params: seq<Pair>, name: string, v: string)
    ensures v in GetAll(params, name) <==> exists i :: 0 <= i < |params| && params[i] == Pair(name, v)
  {
    if params != [] {
      GetAllMember(params[1..], name, v);
      var head := if params[0].name == name then [params[0].value] else [];
      InAppend(v, head, GetAll(params[1..], name));
      if exists i :: 1 <= i < |params| && params[i] == Pair(name, v) {
        var i :| 1 <= i < |params| && params[i] == Pair(name, v);
        assert params[1..][i - 1] == params[i];
      }
      if exists i :: 0 <= i < |params[1..]| && params[1..][i] == Pair(name, v) {
        var i :| 0 <= i < |params[1..]| && params[1..][i] == Pair(name, v);
        assert params[i + 1] == params[1..][i];
      }
    }
  }

  /** `getAll` keeps list order: the values of consecutive lists are those of each list in turn. */
  lemma {:induction false} GetAllAppend(a: seq<Pair>, b: seq<Pair>, name: string)
    ensures GetAll(a + b, name) == GetAll(a, name) + GetAll(b, name)
  {
    if a == [] {
      assert a + b == b;
    } else {
      assert (a + b)[0] == a[0] && (a + b)[1..] == a[1..] + b;
      GetAllAppend(a[1..], b, name);
      var head := if a[0].name == name then [a[0].value] else [];
      AppendAssoc(head, GetAll(a[1..], name), GetAll(b, name));
    }
  }

  // ---------------------------------------------------------------------------
  // Serializing
  // ---------------------------------------------------------------------------

  /** Characters outside the application/x-www-form-urlencoded percent-encode set. */
  predicate IsFormSafe(c: char)
  {
    ('A' <= c <= 'Z') || ('a' <= c <= 'z') || ('0' <= c <= '9')
    || c == '*' || c == '-' || c == '.' || c == '_'
  }

  /** What the serializer writes for one character: space as "+", safe characters as they are, others percent-encoded. */
  function SerializeUnit(c: char): (t: string)
    ensures forall k :: 0 <= k < |t| ==> IsFormSafe(t[k]) || t[k] == '%' || t[k] == '+'
  {
    if c == ' ' then "+"
    else if IsFormSafe(c) then [c]
    else Triplets(EncodeChar(c))
  }

  /** Percent-encode after encoding with UTF-8, space as plus. */
  function SerializeComponent(s: string): (r: string)
    ensures forall k :: 0 <= k < |r| ==> IsFormSafe(r[k]) || r[k] == '%' || r[k] == '+'
  {
    if s == [] then [] else SerializeUnit(s[0]) + SerializeComponent(s[1..])
  }

  /** The "name=value" pieces the serializer joins with "&". */
  function SerializePieces(params: seq<Pair>): (r: seq<string>)
    ensures |r| == |params|
  {
    if params == [] then []
    else
      var piece := SerializeComponent(params[0].name) + "=" + SerializeComponent(params[0].value);
      [piece] + SerializePieces(params[1..])
  }

  /** `params.toString()`, the application/x-www-form-urlencoded serializer: "" exactly for an empty list. */
  function Serialize(params: seq<Pair>): (r: string)
    ensures r == [] <==> params == []
  {
    var pieces := SerializePieces(params);
    if params == [] then JsText.Join(pieces, '&')
    else
      SerializedPieceShape(params, 0);
      JsText.JoinNonEmpty(pieces, '&');
      JsText.Join(pieces, '&')
  }

  // ---------------------------------------------------------------------------
  // Percent-decoding of encoded text
  // ---------------------------------------------------------------------------

  /** Bytes without "%" pass through percent-decoding. */
  lemma {:induction false} PercentDecodeVerbatim(bs: seq<byte>, rest: seq<byte>)
    requires 0x25 !in bs
    ensures PercentDecode(bs + rest) == bs + PercentDecode(rest)
  {
    if bs == [] {
      assert bs + rest == rest;
    } else {
      assert (bs + rest)[1..] == bs[1..] + rest;
      PercentDecodeVerbatim(bs[1..], rest);
      ConsAppend(bs, PercentDecode(rest));
    }
  }

  /** The three characters of a triplet are ASCII and encode to one byte each. */
  lemma {:induction false} EncodeTriplet(b: byte)
    ensures var t := Triplet(b);
      Encode(t) == [t[0] as int, t[1] as int, t[2] as int]
  {
    var t := Triplet(b);
    assert t[1..][1..] == [t[2]];
    assert Encode([t[2]]) == EncodeChar(t[2]) + Encode([]);
  }

  /** One triplet, followed by anything, percent-decodes to its octet. */
  lemma {:induction false} PercentDecodeTriplet(b: byte, y: seq<byte>)
    ensures PercentDecode(Encode(Triplet(b)) + y) == [b] + PercentDecode(y)
  {
    var t := Triplet(b);
    EncodeTriplet(b);
    var x := Encode(t) + y;
    assert x[0] == 0x25 && x[1] as char == t[1] && x[2] as char == t[2];
    assert x[3..] == y;
  }

  /** Triplets percent-decode to the bytes they stand for. */
  lemma {:induction false} PercentDecodeTriplets(bs: seq<byte>, rest: seq<byte>)
    ensures PercentDecode(Encode(Triplets(bs)) + rest) == bs + PercentDecode(rest)
  {
    if bs == [] {
      assert Encode(Triplets(bs)) + rest == rest;
    } else {
      var t := Triplet(bs[0]);
      var y := Encode(Triplets(bs[1..])) + rest;
      EncodeAppend(t, Triplets(bs[1..]));
      assert Encode(Triplets(bs)) + rest == Encode(t) + y;
      PercentDecodeTriplet(bs[0], y);
      PercentDecodeTriplets(bs[1..], rest);
      ConsAppend(bs, PercentDecode(rest));
    }
  }

  /** A character without "%" encodes to bytes without "%". */
  lemma {:induction false} NoPercentByte(c: char)
    requires c != '%'
    ensures 0x25 !in EncodeChar(c)
  {
    var e := EncodeChar(c);
    if |e| > 1 {
      forall k | 0 <= k < |e| ensures e[k] != 0x25 {
        if k > 0 { assert IsContinuation(e[k]); }
      }
    }
  }

  /** Text without "%" percent-decodes to its own UTF-8 bytes. */
  lemma {:induction false} PercentDecodePlain(s: string, rest: seq<byte>)
    requires '%' !in s
    ensures PercentDecode(Encode(s) + rest) == Encode(s) + PercentDecode(rest)
  {
    if s == [] {
      assert Encode(s) + rest == rest;
    } else {
      var e := EncodeChar(s[0]);
      NoPercentByte(s[0]);
      AppendAssoc(e, Encode(s[1..]), rest);
      PercentDecodeVerbatim(e, Encode(s[1..]) + rest);
      PercentDecodePlain(s[1..], rest);
    }
  }

  /** Text without "%" or "+" is delivered unchanged by the parser. */
  lemma {:induction false} DecodeComponentPlain(s: string)
    requires '%' !in s && '+' !in s
    ensures DecodeComponent(s) == s
  {
    assert ReplacePlus(s) == s;
    PercentDecodePlain(s, []);
    assert Encode(s) + [] == Encode(s);
    DecodeReplaceRoundTrip(s);
  }

  // ---------------------------------------------------------------------------
  // The serializer's output parses back
  // ---------------------------------------------------------------------------

  /** After "+" is turned back into space, a serialized character percent-decodes to its UTF-8 bytes. */
  lemma {:induction false} PercentDecodeSerializedUnit(c: char, rest: seq<byte>)
    ensures PercentDecode(Encode(ReplacePlus(SerializeUnit(c))) + rest) == EncodeChar(c) + PercentDecode(rest)
  {
    var u := SerializeUnit(c);
    if c == ' ' || IsFormSafe(c) {
      assert ReplacePlus(u) == [c];
      assert Encode([c]) == EncodeChar(c) + Encode([]);
      NoPercentByte(c);
      PercentDecodeVerbatim(EncodeChar(c), rest);
    } else {
      assert forall k :: 0 <= k < |u| ==> u[k] != '+';
      assert ReplacePlus(u) == u;
      PercentDecodeTriplets(EncodeChar(c), rest);
    }
  }

  lemma {:induction false} ReplacePlusAppend(a: string, b: string)
    ensures ReplacePlus(a + b) == ReplacePlus(a) + ReplacePlus(b)
  {
  }

  /** The bytes the parser percent-decodes, for a serialized component, character by character. */
  lemma {:induction false} SerializedBytes(s: string)
    requires s != []
    ensures Encode(ReplacePlus(SerializeComponent(s)))
         == Encode(ReplacePlus(SerializeUnit(s[0]))) + Encode(ReplacePlus(SerializeComponent(s[1..])))
  {
    var u, t := SerializeUnit(s[0]), SerializeComponent(s[1..]);
    ReplacePlusAppend(u, t);
    EncodeAppend(ReplacePlus(u), ReplacePlus(t));
  }

  /** Percent-decoding two consecutive pieces whose decodings are known. */
  lemma {:induction false} PercentDecodeChain(a: seq<byte>, b: seq<byte>, rest: seq<byte>, ea: seq<byte>, eb: seq<byte>)
    requires PercentDecode(a + (b + rest)) == ea + PercentDecode(b + rest)
    requires PercentDecode(b + rest) == eb + PercentDecode(rest)
    ensures PercentDecode((a + b) + rest) == (ea + eb) + PercentDecode(rest)
  {
    assert (a + b) + rest == a + (b + rest);
  }

  /** A serialized component percent-decodes to the UTF-8 bytes of the original text. */
  lemma {:induction false} PercentDecodeSerialized(s: string, rest: seq<byte>)
    ensures PercentDecode(Encode(ReplacePlus(SerializeComponent(s))) + rest) == Encode(s) + PercentDecode(rest)
  {
    if s == [] {
      assert Encode(ReplacePlus(SerializeComponent(s))) + rest == rest;
    } else {
      var a := Encode(ReplacePlus(SerializeUnit(s[0])));
      var b := Encode(ReplacePlus(SerializeComponent(s[1..])));
      SerializedBytes(s);
      PercentDecodeSerializedUnit(s[0], b + rest);
      PercentDecodeSerialized(s[1..], rest);
      PercentDecodeChain(a, b, rest, EncodeChar(s[0]), Encode(s[1..]));
    }
  }

  /** The parser delivers a serialized component as the original text. */
  lemma {:induction false} DecodeSerialized(s: string)
    ensures DecodeComponent(SerializeComponent(s)) == s
  {
    PercentDecodeSerialized(s, []);
    assert Encode(ReplacePlus(SerializeComponent(s))) + [] == Encode(ReplacePlus(SerializeComponent(s)));
    assert Encode(s) + [] == Encode(s);
    DecodeReplaceRoundTrip(s);
  }

  /** A "name=value" piece whose name has no "=" parses into that name and value. */
  lemma {:induction false} ParsePieceAt(name: string, value: string)
    requires '=' !in name
    ensures ParsePiece(name + "=" + value) == Pair(DecodeComponent(name), DecodeComponent(value))
  {
    var piece := name + "=" + value;
    assert piece[|name|] == '=';
    var i := JsText.IndexOf(piece, '=');
    assert i == |name|;
    assert piece[..i] == name;
    assert piece[i + 1..] == value;
  }

  /** Non-empty pieces without "&", joined with "&", parse piece by piece. */
  lemma {:induction false} ParseJoined(pieces: seq<string>)
    requires |pieces| >= 1
    requires forall i :: 0 <= i < |pieces| ==> pieces[i] != [] && '&' !in pieces[i]
    ensures Parse(JsText.Join(pieces, '&')) == ParsePieces(pieces)
  {
    JsText.SplitJoin(pieces, '&');
  }

  lemma {:induction false} ParsePiecesSerialized(params: seq<Pair>)
    ensures ParsePieces(SerializePieces(params)) == params
  {
    if params != [] {
      var p := params[0];
      var n, v := SerializeComponent(p.name), SerializeComponent(p.value);
      assert '=' !in n by {
        forall k | 0 <= k < |n| ensures n[k] != '=' {
          assert IsFormSafe(n[k]) || n[k] == '%' || n[k] == '+';
        }
      }
      ParsePieceAt(n, v);
      DecodeSerialized(p.name);
      DecodeSerialized(p.value);
      assert n + "=" + v != [];
      ParsePiecesSerialized(params[1..]);
    }
  }

  /**
    `new URLSearchParams(params.toString())` holds the same tuples, in the
    same order: the serializer and the parser are inverse.
  */
  lemma {:induction false} ParseSerialize(params: seq<Pair>)
    ensures Parse(Serialize(params)) == params
  {
    var pieces := SerializePieces(params);
    if params == [] {
      assert Serialize(params) == [];
      assert JsText.Split([], '&') == [[]];
    } else {
      forall i | 0 <= i < |pieces|
        ensures pieces[i] != [] && '&' !in pieces[i]
      {
        SerializedPieceShape(params, i);
        assert forall k :: 0 <= k < |pieces[i]| ==> IsPieceChar(pieces[i][k]);
      }
      ParseJoined(pieces);
      ParsePiecesSerialized(params);
    }
  }

  /** The characters a serialized "name=value" piece consists of. */
  predicate IsPieceChar(c: char)
  {
    IsFormSafe(c) || c == '%' || c == '+' || c == '='
  }

  /** Each serialized piece is non-empty and holds only form-safe characters, "%", "+" and "=", so no "&" or "#". */
  lemma {:induction false} SerializedPieceShape(params: seq<Pair>, i: nat)
    requires i < |params|
    ensures SerializePieces(params)[i] != []
    ensures forall k :: 0 <= k < |SerializePieces(params)[i]| ==> IsPieceChar(SerializePieces(params)[i][k])
  {
    if i == 0 {
      var n, v := SerializeComponent(params[0].name), SerializeComponent(params[0].value);
      assert SerializePieces(params)[0] == n + "=" + v;
      JoinedPieceChars(n, v);
    } else {
      SerializedPieceShape(params[1..], i - 1);
    }
  }

  /** "name=value" from serialized components consists of piece characters only. */
  lemma {:induction false} JoinedPieceChars(n: string, v: string)
    requires forall k :: 0 <= k < |n| ==> IsFormSafe(n[k]) || n[k] == '%' || n[k] == '+'
    requires forall k :: 0 <= k < |v| ==> IsFormSafe(v[k]) || v[k] == '%' || v[k] == '+'
    ensures forall k :: 0 <= k < |n + "=" + v| ==> IsPieceChar((n + "=" + v)[k])
  {
    var s := n + "=" + v;
    forall k | 0 <= k < |s| ensures IsPieceChar(s[k]) {
      if k < |n| {
        assert s[k] == n[k];
      } else if k > |n| {
        assert s[k] == v[k - |n| - 1];
      }
    }
  }

  /** Parsing consecutive lists of pieces is parsing each, one after the other. */
  lemma {:induction false} ParsePiecesAppend(a: seq<string>, b: seq<string>)
    ensures ParsePieces(a + b) == ParsePieces(a) + ParsePieces(b)
  {
    if a == [] {
      assert a + b == b;
    } else {
      assert (a + b)[0] == a[0] && (a + b)[1..] == a[1..] + b;
      ParsePiecesAppend(a[1..], b);
    }
  }
}
