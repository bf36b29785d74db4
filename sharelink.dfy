/**
  `buildShareUrl`: the link that opens the page with the current memo text
  and launch buttons in its query string, and what the page reads back
  from that link.
*/
module ShareLink {
  import opened Wrappers
  import opened Seqs
  import opened Utf8
  import opened Percent
  import opened JsText
  import opened UriCodec
  import opened FormUrlEncoded
  import opened LaunchButtons
  import opened MemoText

  // ---------------------------------------------------------------------------
  // Building the link
  // ---------------------------------------------------------------------------

  /** The buttons the builder keeps: those with a non-empty title and an http(s) url, in order, untrimmed. */
  function Kept(buttons: seq<Button>): (r: seq<Button>)
    ensures |r| <= |buttons|
    ensures forall i :: 0 <= i < |r| ==> IsValid(r[i]) && r[i] in buttons
  {
    if buttons == [] then []
    else (if IsValid(buttons[0]) then [buttons[0]] else []) + Kept(buttons[1..])
  }

  /**
    `${encodeURIComponent(title)}%7C${encodeURIComponent(url)}`: the `|`
    between the halves is written as "%7C", so the value holds only
    uriUnescaped characters and "%".
  */
  function BtnValue(title: string, url: string): (r: string)
    ensures forall k :: 0 <= k < |r| ==> IsUriUnescaped(r[k]) || r[k] == '%'
  {
    var a, b := EncodeUriComponent(title), EncodeUriComponent(url);
    assert IsEscapedText("%7C") by {
      assert IsUriUnescaped('7') && IsUriUnescaped('C');
    }
    EscapedTextAppend(a, "%7C");
    EscapedTextAppend(a + "%7C", b);
    a + "%7C" + b
  }

  /** One `btn=...` piece per kept button, in order. */
  function BtnParams(kept: seq<Button>): (r: seq<string>)
    ensures |r| == |kept|
  {
    if kept == [] then []
    else ["btn=" + BtnValue(kept[0].title, kept[0].url)] + BtnParams(kept[1..])
  }

  /**
    `params.set('text', v)` with `v` the trimmed memo, when the box is
    ticked and `v` is non-empty: at most one tuple, named "text".
  */
  function TextParams(includeText: bool, memo: string): (r: seq<Pair>)
    ensures |r| <= 1
    ensures r != [] <==> includeText && Trim(memo) != []
    ensures forall i :: 0 <= i < |r| ==> r[i] == Pair("text", Trim(memo))
  {
    var v := Trim(memo);
    if includeText && v != [] then [Pair("text", v)] else []
  }

  /**
    The glue: "?" when there is anything to add, "&" when there are both
    parts. The result starts with the base and is the base alone exactly
    when both parts are empty.
  */
  function Assemble(base: string, qsMain: string, qsBtns: string): (r: string)
    ensures |r| >= |base| && r[..|base|] == base
    ensures r == base <==> qsMain == [] && qsBtns == []
  {
    var glue := if qsMain != [] || qsBtns != [] then "?" else "";
    var amp := if qsMain != [] && qsBtns != [] then "&" else "";
    base + glue + qsMain + amp + qsBtns
  }

  /**
    A link from a base, the `text` tuples and the `btn=` pieces: "" exactly
    when the trimmed base is empty; otherwise it starts with the trimmed
    base and is that base alone when there is nothing to add.
  */
  function Link(baseUrl: string, textParams: seq<Pair>, btnParams: seq<string>): (r: string)
    ensures r == [] <==> Trim(baseUrl) == []
    ensures Trim(baseUrl) != [] ==> |r| >= |Trim(baseUrl)| && r[..|Trim(baseUrl)|] == Trim(baseUrl)
    ensures Trim(baseUrl) != [] ==> (r == Trim(baseUrl) <==> Serialize(textParams) == [] && Join(btnParams, '&') == [])
  {
    var base := Trim(baseUrl);
    if base == [] then [] else Assemble(base, Serialize(textParams), Join(btnParams, '&'))
  }

  /**
    `buildShareUrl({ baseUrl, includeText, includeBtns })`, with the memo
    text and the buttons on the page passed in. It is "" exactly when the
    trimmed base is blank; otherwise it starts with the trimmed base, and is
    that base alone exactly when there is no text to share and no valid
    button (or buttons are not included).
  */
  function ShareUrl(baseUrl: string, includeText: bool, includeBtns: bool, memo: string, buttons: seq<Button>): (r: string)
    ensures r == [] <==> Trim(baseUrl) == []
    ensures Trim(baseUrl) != [] ==> |r| >= |Trim(baseUrl)| && r[..|Trim(baseUrl)|] == Trim(baseUrl)
    ensures Trim(baseUrl) != [] ==>
      (r == Trim(baseUrl) <==> TextParams(includeText, memo) == [] && (!includeBtns || Kept(buttons) == []))
  {
    var kept := Kept(buttons);
    BtnParamsJoinEmpty(kept);
    Link(baseUrl, TextParams(includeText, memo), if includeBtns then BtnParams(Kept(buttons)) else [])
  }

  /** The builder's filter, over consecutive lists, is the filter of each list in turn. */
  lemma {:induction false} KeptAppend(a: seq<Button>, b: seq<Button>)
    ensures Kept(a + b) == Kept(a) + Kept(b)
  {
    if a == [] {
      assert a + b == b;
    } else {
      assert (a + b)[0] == a[0] && (a + b)[1..] == a[1..] + b;
      KeptAppend(a[1..], b);
      var head := if IsValid(a[0]) then [a[0]] else [];
      assert Kept(a + b) == head + (Kept(a[1..]) + Kept(b));
      AppendAssoc(head, Kept(a[1..]), Kept(b));
    }
  }

  /** The builder keeps a button exactly when it is one of the buttons given and it is valid. */
  lemma {:induction false} KeptMember(buttons: seq<Button>, b: Button)
    ensures b in Kept(buttons) <==> b in buttons && IsValid(b)
  {
    if buttons != [] {
      KeptMember(buttons[1..], b);
      var head := if IsValid(buttons[0]) then [buttons[0]] else [];
      InAppend(b, head, Kept(buttons[1..]));
      InAppend(b, [buttons[0]], buttons[1..]);
      HeadTail(buttons);
    }
  }

  /** The joined `btn=` pieces are empty exactly when no button was kept. */
  lemma {:induction false} BtnParamsJoinEmpty(kept: seq<Button>)
    ensures Join(BtnParams(kept), '&') == [] <==> kept == []
  {
    if kept != [] {
      JoinNonEmpty(BtnParams(kept), '&');
    }
  }

  /** The `btn=` pieces of consecutive lists are the pieces of each list in turn. */
  lemma {:induction false} BtnParamsAppend(a: seq<Button>, b: seq<Button>)
    ensures BtnParams(a + b) == BtnParams(a) + BtnParams(b)
  {
    if a == [] {
      assert a + b == b;
    } else {
      assert (a + b)[0] == a[0] && (a + b)[1..] == a[1..] + b;
      BtnParamsAppend(a[1..], b);
      AppendAssoc(["btn=" + BtnValue(a[0].title, a[0].url)], BtnParams(a[1..]), BtnParams(b));
    }
  }

  /** One iteration of the builder's `forEach`: `b` adds one piece when it is valid and none otherwise. */
  lemma {:induction false} BtnParamsStep(buttons: seq<Button>, i: nat)
    requires i < |buttons|
    ensures BtnParams(Kept(buttons[..i + 1])) ==
      BtnParams(Kept(buttons[..i])) + (if IsValid(buttons[i]) then ["btn=" + BtnValue(buttons[i].title, buttons[i].url)] else [])
  {
    var b := buttons[i];
    assert buttons[..i + 1] == buttons[..i] + [b];
    KeptAppend(buttons[..i], [b]);
    assert [b][0] == b && [b][1..] == [];
    assert Kept([b]) == (if IsValid(b) then [b] else []) + [];
    BtnParamsAppend(Kept(buttons[..i]), Kept([b]));
  }

  /**
    `buildShareUrl`, as app.js runs it: the `btn=` pieces are collected,
    then the parts are glued to the base.
  */
  method BuildShareUrl(baseUrl: string, includeText: bool, includeBtns: bool, memo: string, buttons: seq<Button>)
    returns (url: string)
    ensures url == ShareUrl(baseUrl, includeText, includeBtns, memo, buttons)
  {
    var base := Trim(baseUrl);
    if base == [] {
      return [];
    }
    var params := TextParams(includeText, memo);
    var btnParams: seq<string> := [];
    if includeBtns {
      btnParams := PushBtnParams(buttons);
    }
    var qsMain := Serialize(params);
    var qsBtns := Join(btnParams, '&');
    url := Assemble(base, qsMain, qsBtns);
  }

  /** The builder's `forEach`: one `btn=` piece per valid button, in order; invalid buttons are skipped. */
  method PushBtnParams(buttons: seq<Button>) returns (btnParams: seq<string>)
    ensures btnParams == BtnParams(Kept(buttons))
  {
    btnParams := [];
    for i := 0 to |buttons|
      invariant btnParams == BtnParams(Kept(buttons[..i]))
    {
      BtnParamsStep(buttons, i);
      var b := buttons[i];
      if IsValid(b) {
        var val := BtnValue(b.title, b.url);
        btnParams := btnParams + ["btn=" + val];
      }
    }
    assert buttons[..|buttons|] == buttons;
  }

  // ---------------------------------------------------------------------------
  // The glue
  // ---------------------------------------------------------------------------

  /** `base` with the pieces as its query: nothing when there are none, else "?" and the pieces joined with "&". */
  function WithQuery(base: string, pieces: seq<string>): string
  {
    if pieces == [] then base else base + "?" + Join(pieces, '&')
  }

  /** Every piece of the `text` part is non-empty. */
  lemma {:induction false} TextPiecesNonEmpty(textParams: seq<Pair>)
    ensures forall i :: 0 <= i < |SerializePieces(textParams)| ==> SerializePieces(textParams)[i] != []
  {
    forall i | 0 <= i < |SerializePieces(textParams)|
      ensures SerializePieces(textParams)[i] != []
    {
      SerializedPieceShape(textParams, i);
    }
  }

  /**
    The glue of app.js:128-133: an empty trimmed base gives ""; otherwise the
    trimmed base comes first, "?" follows exactly when there is at least one
    piece, and consecutive pieces, `text` before `btn`, are separated by
    exactly one "&".
  */
  lemma {:induction false} LinkGlue(baseUrl: string, textParams: seq<Pair>, btnParams: seq<string>)
    requires forall i :: 0 <= i < |btnParams| ==> btnParams[i] != []
    ensures Trim(baseUrl) == [] ==> Link(baseUrl, textParams, btnParams) == []
    ensures Trim(baseUrl) != [] ==>
      Link(baseUrl, textParams, btnParams) == WithQuery(Trim(baseUrl), SerializePieces(textParams) + btnParams)
  {
    TextPiecesNonEmpty(textParams);
    AssembleJoined(Trim(baseUrl), SerializePieces(textParams), btnParams);
  }

  /** Gluing two joined lists of non-empty pieces is joining them all. */
  lemma {:induction false} AssembleJoined(base: string, a: seq<string>, b: seq<string>)
    requires forall i :: 0 <= i < |a| ==> a[i] != []
    requires forall i :: 0 <= i < |b| ==> b[i] != []
    ensures Assemble(base, Join(a, '&'), Join(b, '&')) == WithQuery(base, a + b)
  {
    if a != [] && b != [] {
      JoinNonEmpty(a, '&');
      JoinNonEmpty(b, '&');
      JoinAppend(a, b, '&');
      AssembleBoth(base, Join(a, '&'), Join(b, '&'));
    } else if a == [] {
      assert a + b == b;
      if b != [] {
        JoinNonEmpty(b, '&');
      }
    } else {
      assert a + b == a;
      JoinNonEmpty(a, '&');
    }
  }

  lemma {:induction false} AssembleBoth(base: string, x: string, y: string)
    requires x != [] && y != []
    ensures Assemble(base, x, y) == base + "?" + (x + "&" + y)
  {
  }

  /** The pieces of a share link: the `text` piece, if any, then the `btn` pieces. */
  function SharePieces(includeText: bool, includeBtns: bool, memo: string, buttons: seq<Button>): seq<string>
  {
    SerializePieces(TextParams(includeText, memo)) + (if includeBtns then BtnParams(Kept(buttons)) else [])
  }

  /**
    `buildShareUrl` returns "" for a blank base and otherwise the trimmed
    base followed, only when there is something to share, by "?" and the
    pieces joined with "&"; with nothing to share it is the trimmed base.
  */
  lemma {:induction false} ShareUrlGlue(baseUrl: string, includeText: bool, includeBtns: bool, memo: string, buttons: seq<Button>)
    ensures Trim(baseUrl) == [] ==> ShareUrl(baseUrl, includeText, includeBtns, memo, buttons) == []
    ensures Trim(baseUrl) != [] ==>
      ShareUrl(baseUrl, includeText, includeBtns, memo, buttons)
      == WithQuery(Trim(baseUrl), SharePieces(includeText, includeBtns, memo, buttons))
  {
    BtnParamsShape(Kept(buttons));
    LinkGlue(baseUrl, TextParams(includeText, memo), if includeBtns then BtnParams(Kept(buttons)) else []);
  }

  // ---------------------------------------------------------------------------
  // What the page reads back from a link
  // ---------------------------------------------------------------------------

  /**
    `location.search` of the page opened at `url`: from the first "?" before
    any "#" up to that "#" or the end, or "" when that query is empty.
    A non-empty search is "?" and at least one more character, and never
    holds "#"; a url without "?" has an empty search.
  */
  function SearchOf(url: string): (r: string)
    ensures r != [] ==> |r| >= 2 && r[0] == '?' && '#' !in r
    ensures '?' !in url ==> r == []
  {
    var beforeHash := if '#' in url then url[..IndexOf(url, '#')] else url;
    assert '#' !in beforeHash;
    assert '?' in beforeHash ==> '?' in url;
    if '?' in beforeHash then
      var j := IndexOf(beforeHash, '?');
      var q := beforeHash[j..];
      assert forall k :: 0 <= k < |q| ==> q[k] == beforeHash[j + k];
      if |q| == 1 then [] else q
    else []
  }

  /** A link whose base holds neither "?" nor "#" carries exactly its pieces as its query. */
  lemma {:induction false} SearchOfWithQuery(base: string, pieces: seq<string>)
    requires '?' !in base && '#' !in base
    requires forall i :: 0 <= i < |pieces| ==> pieces[i] != [] && '&' !in pieces[i] && '#' !in pieces[i]
    ensures SearchParams(SearchOf(WithQuery(base, pieces))) == ParsePieces(pieces)
  {
    if pieces == [] {
      assert SearchOf(base) == [];
      assert Split([], '&') == [[]];
    } else {
      var j := Join(pieces, '&');
      JoinWithout(pieces, '&', '#');
      JoinNonEmpty(pieces, '&');
      SearchOfQuery(base, j);
      ParseJoined(pieces);
    }
  }

  /** The search of `base?query`, for a base without "?" or "#" and a non-empty query without "#". */
  lemma {:induction false} SearchOfQuery(base: string, query: string)
    requires '?' !in base && '#' !in base && '#' !in query && query != []
    ensures SearchOf(base + "?" + query) == "?" + query
  {
    var url := base + "?" + query;
    assert '#' !in url;
    IndexOfAfter(base, '?', query);
    assert url[|base|..] == "?" + query;
  }

  /** The chars a `btn=` piece consists of: never "&" or "#". */
  lemma {:induction false} BtnPieceChars(title: string, url: string)
    ensures "btn=" + BtnValue(title, url) != []
    ensures '&' !in "btn=" + BtnValue(title, url) && '#' !in "btn=" + BtnValue(title, url)
  {
    var et, eu := EncodeUriComponent(title), EncodeUriComponent(url);
    EncodedLacks(title, '&');
    EncodedLacks(title, '#');
    EncodedLacks(url, '&');
    EncodedLacks(url, '#');
    LiteralsLackSeparators();
    NotInAppend('&', "btn=", et);
    NotInAppend('&', "btn=" + et, "%7C");
    NotInAppend('&', "btn=" + et + "%7C", eu);
    NotInAppend('#', "btn=", et);
    NotInAppend('#', "btn=" + et, "%7C");
    NotInAppend('#', "btn=" + et + "%7C", eu);
    AppendAssoc("btn=", et + "%7C", eu);
    AppendAssoc("btn=", et, "%7C");
  }

  /** The fixed text of a `btn=` piece holds neither "&" nor "#". */
  lemma {:induction false} LiteralsLackSeparators()
    ensures '&' !in "btn=" && '#' !in "btn=" && '&' !in "%7C" && '#' !in "%7C"
  {
  }

  /**
    A link whose base is non-blank and holds neither "?" nor "#" delivers
    exactly the given tuples and the tuples of the `btn` pieces, in order,
    to `new URLSearchParams(location.search)`.
  */
  lemma {:induction false} LinkParams(baseUrl: string, textParams: seq<Pair>, btnParams: seq<string>)
    requires Trim(baseUrl) != [] && '?' !in Trim(baseUrl) && '#' !in Trim(baseUrl)
    requires forall i :: 0 <= i < |btnParams| ==> btnParams[i] != [] && '&' !in btnParams[i] && '#' !in btnParams[i]
    ensures SearchParams(SearchOf(Link(baseUrl, textParams, btnParams))) == textParams + ParsePieces(btnParams)
  {
    var a := SerializePieces(textParams);
    var pieces := a + btnParams;
    TextPiecesShape(textParams);
    forall i | 0 <= i < |pieces| ensures pieces[i] != [] && '&' !in pieces[i] && '#' !in pieces[i] {
      if i >= |a| {
        assert pieces[i] == btnParams[i - |a|];
      }
    }
    LinkGlue(baseUrl, textParams, btnParams);
    assert Link(baseUrl, textParams, btnParams) == WithQuery(Trim(baseUrl), pieces);
    SearchOfWithQuery(Trim(baseUrl), pieces);
    ParsePiecesAppend(a, btnParams);
    ParsePiecesSerialized(textParams);
  }

  /** The serialized `text` pieces are non-empty and hold neither "&" nor "#". */
  lemma {:induction false} TextPiecesShape(textParams: seq<Pair>)
    ensures forall i :: 0 <= i < |SerializePieces(textParams)| ==>
      SerializePieces(textParams)[i] != [] && '&' !in SerializePieces(textParams)[i] && '#' !in SerializePieces(textParams)[i]
  {
    var a := SerializePieces(textParams);
    forall i | 0 <= i < |a| ensures a[i] != [] && '&' !in a[i] && '#' !in a[i] {
      SerializedPieceShape(textParams, i);
      assert forall k :: 0 <= k < |a[i]| ==> IsPieceChar(a[i][k]);
    }
  }

  // ---------------------------------------------------------------------------
  // Decoding a `btn` value
  // ---------------------------------------------------------------------------

  /** The output of `encodeURIComponent` percent-decodes to the UTF-8 bytes of its input. */
  lemma {:induction false} PercentDecodeUriEncoded(s: string, rest: seq<byte>)
    ensures PercentDecode(Encode(EncodeUriComponent(s)) + rest) == Encode(s) + PercentDecode(rest)
  {
    if s == [] {
      assert Encode(EncodeUriComponent(s)) + rest == rest;
    } else {
      var u, t := EncodeUnit(s[0]), EncodeUriComponent(s[1..]);
      EncodeAppend(u, t);
      var a, b := Encode(u), Encode(t);
      if IsUriUnescaped(s[0]) {
        assert Encode([s[0]]) == EncodeChar(s[0]) + Encode([]);
        NoPercentByte(s[0]);
        PercentDecodeVerbatim(EncodeChar(s[0]), b + rest);
      } else {
        PercentDecodeTriplets(EncodeChar(s[0]), b + rest);
      }
      PercentDecodeUriEncoded(s[1..], rest);
      PercentDecodeChain(a, b, rest, EncodeChar(s[0]), Encode(s[1..]));
    }
  }


  /** "%7C" percent-decodes to the byte of "|". */
  lemma {:induction false} PercentDecodeBar(rest: seq<byte>)
    ensures PercentDecode(Encode("%7C") + rest) == [0x7C] + PercentDecode(rest)
  {
    assert Triplets([0x7C]) == "%7C";
    PercentDecodeTriplets([0x7C], rest);
  }

  /**
    `URLSearchParams` delivers the value `enc(x)%7Cenc(y)` as `x|y`: it
    percent-decodes once, so the "%7C" becomes "|" and each half is decoded
    back to the text it encodes.
  */
  lemma {:induction false} DecodeBtnValue(x: string, y: string)
    ensures DecodeComponent(BtnValue(x, y)) == x + "|" + y
  {
    var v := BtnValue(x, y);
    BtnValueNoPlus(x, y);
    assert ReplacePlus(v) == v;
    BtnValueBytes(x, y);
    DecodeReplaceRoundTrip(x + "|" + y);
  }

  /** A `btn` value holds no "+", so the parser's "+"-to-space step leaves it alone. */
  lemma {:induction false} BtnValueNoPlus(x: string, y: string)
    ensures '+' !in BtnValue(x, y)
  {
    var ex, ey := EncodeUriComponent(x), EncodeUriComponent(y);
    EncodedLacks(x, '+');
    EncodedLacks(y, '+');
    assert '+' !in "%7C";
    NotInAppend('+', ex, "%7C");
    NotInAppend('+', ex + "%7C", ey);
  }

  /** Percent-decoding the bytes of a `btn` value gives the bytes of `x|y`. */
  lemma {:induction false} BtnValueBytes(x: string, y: string)
    ensures PercentDecode(Encode(BtnValue(x, y))) == Encode(x + "|" + y)
  {
    var ex, ey := EncodeUriComponent(x), EncodeUriComponent(y);
    var bytesX, bar, bytesY := Encode(ex), Encode("%7C"), Encode(ey);
    EncodeAppend(ex + "%7C", ey);
    EncodeAppend(ex, "%7C");
    PercentDecodeUriEncoded(y, []);
    AppendNothing(bytesY);
    PercentDecodeBar(bytesY);
    PercentDecodeUriEncoded(x, bar + bytesY);
    PercentDecodeChain(bytesX, bar, bytesY, Encode(x), [0x7C]);
    PercentDecodeChain(bytesX + bar, bytesY, [], Encode(x) + [0x7C], Encode(y));
    AppendNothing((bytesX + bar) + bytesY);
    AppendNothing((Encode(x) + [0x7C]) + Encode(y));
    EncodeBar(x, y);
  }

  /** The bytes of `x|y`: those of `x`, the byte 0x7C, those of `y`. */
  lemma {:induction false} EncodeBar(x: string, y: string)
    ensures Encode(x + "|" + y) == (Encode(x) + [0x7C]) + Encode(y)
  {
    EncodeAppend(x + "|", y);
    EncodeAppend(x, "|");
    assert Encode("|") == [0x7C];
  }

  /** The `title|url` text a `btn` value carries. */
  function Entry(title: string, url: string): string
  {
    title + "|" + url
  }

  /** The `btn` tuples of the given values, in order. */
  function BtnPairs(values: seq<string>): (r: seq<Pair>)
    ensures |r| == |values|
  {
    if values == [] then [] else [Pair("btn", values[0])] + BtnPairs(values[1..])
  }

  /** The entries a link built from `kept` carries: `title|url` for each, in order. */
  function Entries(kept: seq<Button>): (r: seq<string>)
    ensures |r| == |kept|
  {
    if kept == [] then [] else [Entry(kept[0].title, kept[0].url)] + Entries(kept[1..])
  }

  /** A `btn=` piece parses into the tuple ("btn", `x|y`). */
  lemma {:induction false} ParseBtnPiece(x: string, y: string)
    ensures ParsePiece("btn=" + BtnValue(x, y)) == Pair("btn", Entry(x, y))
  {
    BtnPrefix(BtnValue(x, y));
    BtnName();
    ParsePieceAt("btn", BtnValue(x, y));
    DecodeBtnValue(x, y);
  }

  /** The name "btn" holds no "=" and parses as itself. */
  lemma {:induction false} BtnName()
    ensures '=' !in "btn" && DecodeComponent("btn") == "btn"
  {
    DecodeComponentPlain("btn");
  }

  /** "btn=" is the name "btn" followed by "=". */
  lemma {:induction false} BtnPrefix(v: string)
    ensures "btn=" + v == "btn" + "=" + v
  {
    assert "btn=" == "btn" + "=";
  }

  /** The `btn` pieces of the builder parse into one ("btn", `title|url`) tuple per kept button. */
  lemma {:induction false} ParseBtnParams(kept: seq<Button>)
    ensures ParsePieces(BtnParams(kept)) == BtnPairs(Entries(kept))
  {
    if kept != [] {
      var b := kept[0];
      ParseBtnPiece(b.title, b.url);
      ParseBtnParams(kept[1..]);
      assert BtnParams(kept)[0] == "btn=" + BtnValue(b.title, b.url);
      assert BtnParams(kept)[1..] == BtnParams(kept[1..]);
      assert Entries(kept)[0] == Entry(b.title, b.url);
      assert Entries(kept)[1..] == Entries(kept[1..]);
    }
  }

  /** Every `btn` piece of the builder is non-empty and free of "&" and "#". */
  lemma {:induction false} BtnParamsShape(kept: seq<Button>)
    ensures forall i :: 0 <= i < |BtnParams(kept)| ==>
      BtnParams(kept)[i] != [] && '&' !in BtnParams(kept)[i] && '#' !in BtnParams(kept)[i]
  {
    forall i | 0 <= i < |BtnParams(kept)|
      ensures BtnParams(kept)[i] != [] && '&' !in BtnParams(kept)[i] && '#' !in BtnParams(kept)[i]
    {
      BtnParamAt(kept, i);
      BtnPieceChars(kept[i].title, kept[i].url);
    }
  }

  lemma {:induction false} BtnParamAt(kept: seq<Button>, i: nat)
    requires i < |kept|
    ensures BtnParams(kept)[i] == "btn=" + BtnValue(kept[i].title, kept[i].url)
  {
    if i > 0 {
      BtnParamAt(kept[1..], i - 1);
    }
  }

  /**
    What a share link delivers to `new URLSearchParams(location.search)`:
    the ("text", trimmed memo) tuple when the text was included, then one
    ("btn", `title|url`) tuple per kept button, in order. The base must be
    non-blank and hold neither "?" nor "#".
  */
  lemma {:induction false} ShareLinkParams(baseUrl: string, includeText: bool, includeBtns: bool, memo: string, buttons: seq<Button>)
    requires Trim(baseUrl) != [] && '?' !in Trim(baseUrl) && '#' !in Trim(baseUrl)
    ensures SearchParams(SearchOf(ShareUrl(baseUrl, includeText, includeBtns, memo, buttons)))
         == TextParams(includeText, memo) + BtnPairs(if includeBtns then Entries(Kept(buttons)) else [])
  {
    var bp := if includeBtns then BtnParams(Kept(buttons)) else [];
    BtnParamsShape(Kept(buttons));
    LinkParams(baseUrl, TextParams(includeText, memo), bp);
    ParseBtnParams(Kept(buttons));
  }

  // ---------------------------------------------------------------------------
  // Round trips
  // ---------------------------------------------------------------------------

  /** The tuples of a share link hold no `buttons` key, and their `btn` values are the entries, in order. */
  lemma {:induction false} ShareEntries(textParams: seq<Pair>, values: seq<string>)
    requires forall i :: 0 <= i < |textParams| ==> textParams[i].name == "text"
    ensures BtnEntries(textParams + BtnPairs(values)) == values
    ensures BulkEntries(textParams + BtnPairs(values)) == []
  {
    var params := textParams + BtnPairs(values);
    if textParams == [] {
      assert params == BtnPairs(values);
      BtnPairsGetAll(values);
    } else {
      assert params[0] == textParams[0] && params[1..] == textParams[1..] + BtnPairs(values);
      ShareEntries(textParams[1..], values);
    }
    assert forall i :: 0 <= i < |params| ==> params[i].name != "buttons" by {
      forall i | 0 <= i < |params| ensures params[i].name != "buttons" {
        if i >= |textParams| {
          BtnPairsAt(values, i - |textParams|);
        }
      }
    }
  }

  lemma {:induction false} BtnPairsAt(values: seq<string>, i: nat)
    requires i < |values|
    ensures BtnPairs(values)[i] == Pair("btn", values[i])
  {
    if i > 0 {
      BtnPairsAt(values[1..], i - 1);
    }
  }

  lemma {:induction false} BtnPairsGetAll(values: seq<string>)
    ensures GetAll(BtnPairs(values), "btn") == values
  {
    if values != [] {
      BtnPairsGetAll(values[1..]);
      assert [values[0]] + values[1..] == values;
    }
  }

  /** The entries of buttons whose titles hold neither "|" nor "%" parse back into those buttons. */
  lemma {:induction false} CandidatesOfEntries(kept: seq<Button>)
    requires forall i :: 0 <= i < |kept| ==> '|' !in kept[i].title && '%' !in kept[i].title
    ensures Candidates(Entries(kept)) == Ok(kept)
  {
    if kept != [] {
      var b := kept[0];
      var e := Entries(kept);
      assert e[0] == Entry(b.title, b.url) && e[1..] == Entries(kept[1..]);
      SplitEntryOf(b.title, b.url);
      DecodeWithoutPercent(b.title);
      CandidatesOfEntries(kept[1..]);
      HeadTail(kept);
    }
  }

  /**
    Round trip, as app.js is written: for buttons whose titles contain
    neither "|" nor "%", the page opened at the share link parses exactly
    the buttons the builder kept, trimmed and filtered again.
  */
  lemma {:induction false} ShareRoundTrip(baseUrl: string, includeText: bool, memo: string, buttons: seq<Button>)
    requires Trim(baseUrl) != [] && '?' !in Trim(baseUrl) && '#' !in Trim(baseUrl)
    requires forall i :: 0 <= i < |buttons| ==> '|' !in buttons[i].title && '%' !in buttons[i].title
    ensures ParseButtons(SearchOf(ShareUrl(baseUrl, includeText, true, memo, buttons))) == Ok(Validate(Kept(buttons)))
  {
    var kept := Kept(buttons);
    ShareLinkParams(baseUrl, includeText, true, memo, buttons);
    CandidatesOfEntries(kept);
    ShareEntries(TextParams(includeText, memo), Entries(kept));
    ParseBtnOnlySearch(SearchOf(ShareUrl(baseUrl, includeText, true, memo, buttons)), Entries(kept), kept);
  }

  lemma {:induction false} KeptAll(buttons: seq<Button>)
    requires forall i :: 0 <= i < |buttons| ==> IsValid(buttons[i])
    ensures Kept(buttons) == buttons
  {
    if buttons != [] {
      KeptAll(buttons[1..]);
      assert [buttons[0]] + buttons[1..] == buttons;
    }
  }

  /**
    For buttons as the parser itself returns them (valid and trimmed) whose
    titles contain neither "|" nor "%", the share link reproduces the list
    exactly.
  */
  lemma {:induction false} ShareRoundTripExact(baseUrl: string, includeText: bool, memo: string, buttons: seq<Button>)
    requires Trim(baseUrl) != [] && '?' !in Trim(baseUrl) && '#' !in Trim(baseUrl)
    requires forall i :: 0 <= i < |buttons| ==> IsNormal(buttons[i])
    requires forall i :: 0 <= i < |buttons| ==> '|' !in buttons[i].title && '%' !in buttons[i].title
    ensures ParseButtons(SearchOf(ShareUrl(baseUrl, includeText, true, memo, buttons))) == Ok(buttons)
  {
    ShareRoundTrip(baseUrl, includeText, memo, buttons);
    KeptAll(buttons);
    ValidateKeeps(buttons);
  }

  /**
    The memo text of a share link, as app.js is written: the page reads
    back the trimmed memo when it was included and holds no "%", and reads
    `null` when it was not included or is blank.
  */
  lemma {:induction false} ShareTextRoundTrip(baseUrl: string, includeText: bool, includeBtns: bool, memo: string, buttons: seq<Button>)
    requires Trim(baseUrl) != [] && '?' !in Trim(baseUrl) && '#' !in Trim(baseUrl)
    ensures includeText && Trim(memo) != [] && '%' !in Trim(memo) ==>
      InitialText(SearchOf(ShareUrl(baseUrl, includeText, includeBtns, memo, buttons))) == Ok(Some(Trim(memo)))
    ensures !includeText || Trim(memo) == [] ==>
      InitialText(SearchOf(ShareUrl(baseUrl, includeText, includeBtns, memo, buttons))) == Ok(None)
  {
    var values := if includeBtns then Entries(Kept(buttons)) else [];
    ShareLinkParams(baseUrl, includeText, includeBtns, memo, buttons);
    TextOfShareParams(includeText, memo, values);
    if includeText && Trim(memo) != [] && '%' !in Trim(memo) {
      DecodeWithoutPercent(Trim(memo));
    }
  }

  /** The first `text` value of a share link is the trimmed memo, when it was included and is not blank. */
  lemma {:induction false} TextOfShareParams(includeText: bool, memo: string, values: seq<string>)
    ensures Get(TextParams(includeText, memo) + BtnPairs(values), "text")
         == if includeText && Trim(memo) != [] then Some(Trim(memo)) else None
  {
    var params := TextParams(includeText, memo) + BtnPairs(values);
    assert forall i :: 0 <= i < |BtnPairs(values)| ==> BtnPairs(values)[i].name != "text" by {
      forall i | 0 <= i < |BtnPairs(values)| ensures BtnPairs(values)[i].name != "text" {
        BtnPairsAt(values, i);
      }
    }
    if includeText && Trim(memo) != [] {
      assert params[0] == Pair("text", Trim(memo));
    } else {
      assert params == BtnPairs(values);
    }
  }
}
