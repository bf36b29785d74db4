/**
  The share link and the page disagree on how often the title and the memo
  text are encoded: the builder encodes each once, for `URLSearchParams`,
  while the page decodes the title and the text twice (`URLSearchParams`,
  then `decodeURIComponent`). This module exhibits the links that break and
  defines a builder that encodes both twice, for which the round trip holds
  for every button list and every memo text.
*/
module ShareLinkFixed {
  import opened Wrappers
  import opened Seqs
  import opened JsText
  import opened UriCodec
  import opened FormUrlEncoded
  import opened LaunchButtons
  import opened MemoText
  import opened ShareLink

  // ---------------------------------------------------------------------------
  // The builder as written
  // ---------------------------------------------------------------------------

  /** A link carrying one valid button, and no text, delivers exactly that button's entry. */
  lemma {:induction false} OneButtonLink(baseUrl: string, b: Button)
    requires Trim(baseUrl) != [] && '?' !in Trim(baseUrl) && '#' !in Trim(baseUrl)
    requires IsValid(b)
    ensures var params := SearchParams(SearchOf(ShareUrl(baseUrl, false, true, "", [b])));
      BtnEntries(params) == [Entry(b.title, b.url)] && BulkEntries(params) == []
  {
    assert Kept([b]) == [b];
    ShareLinkParams(baseUrl, false, true, "", [b]);
    assert Entries([b]) == [Entry(b.title, b.url)];
    ShareEntries([], [Entry(b.title, b.url)]);
  }

  /** A shared button whose title has no "|" but is not valid percent-encoding makes the page throw. */
  lemma {:induction false} BadTitleBreaksLink(baseUrl: string, b: Button)
    requires Trim(baseUrl) != [] && '?' !in Trim(baseUrl) && '#' !in Trim(baseUrl)
    requires IsValid(b) && '|' !in b.title && DecodeUriComponent(b.title).None?
    ensures ParseButtons(SearchOf(ShareUrl(baseUrl, false, true, "", [b]))) == Err(URIError)
  {
    OneButtonLink(baseUrl, b);
    SplitEntryOf(b.title, b.url);
    AppendNothing([Entry(b.title, b.url)]);
  }

  /**
    A button titled "100%" survives the builder but makes the page that
    opens the link throw a URIError: `URLSearchParams` delivers "100%" and
    `decodeURIComponent("100%")` rejects it, so no button is shown at all.
  */
  lemma {:induction false} PercentTitleBreaksLink(baseUrl: string)
    requires Trim(baseUrl) != [] && '?' !in Trim(baseUrl) && '#' !in Trim(baseUrl)
    ensures ParseButtons(SearchOf(ShareUrl(baseUrl, false, true, "", [Button("100%", "https://example.com/")])))
         == Err(URIError)
  {
    var b := Button("100%", "https://example.com/");
    HttpsUrl(b.url);
    HundredPercent();
    BadTitleBreaksLink(baseUrl, b);
  }

  /** "100%" holds no "|" and is not valid percent-encoding. */
  lemma {:induction false} HundredPercent()
    ensures '|' !in "100%" && DecodeUriComponent("100%") == None
  {
  }

  /**
    A shared button whose title is `x|y`, with no "|" or "%" in `x`, comes
    back as the button titled `x` with the url `y|url`.
  */
  lemma {:induction false} BarTitleSplits(baseUrl: string, x: string, y: string, url: string)
    requires Trim(baseUrl) != [] && '?' !in Trim(baseUrl) && '#' !in Trim(baseUrl)
    requires IsValid(Button(x + "|" + y, url)) && '|' !in x && '%' !in x
    ensures ParseButtons(SearchOf(ShareUrl(baseUrl, false, true, "", [Button(x + "|" + y, url)])))
         == Ok(Validate([Button(x, y + "|" + url)]))
  {
    var b := Button(x + "|" + y, url);
    var c := Button(x, y + "|" + url);
    OneButtonLink(baseUrl, b);
    RegroupSeparators(x, "|", y, url);
    assert Entries([c]) == [Entry(c.title, c.url)];
    CandidatesOfEntries([c]);
    ParseBtnOnlySearch(SearchOf(ShareUrl(baseUrl, false, true, "", [b])), [Entry(c.title, c.url)], [c]);
  }

  /**
    A button titled "a|b" is lost: the page splits its entry at the "|"
    inside the title, and the url half "b|https://example.com/" is not an
    http(s) url, so the entry is filtered out.
  */
  lemma {:induction false} BarTitleDropsButton(baseUrl: string)
    requires Trim(baseUrl) != [] && '?' !in Trim(baseUrl) && '#' !in Trim(baseUrl)
    ensures ParseButtons(SearchOf(ShareUrl(baseUrl, false, true, "", [Button("a|b", "https://example.com/")])))
         == Ok([])
  {
    assert IsHttpUrl("https://example.com/");
    assert "a" + "|" + "b" == "a|b";
    BarTitleSplits(baseUrl, "a", "b", "https://example.com/");
    SplitUrlNotHttp();
  }

  lemma {:induction false} SplitUrlNotHttp()
    ensures Validate([Button("a", "b" + "|" + "https://example.com/")]) == []
  {
    var u := "b" + "|" + "https://example.com/";
    assert u[0] == 'b';
    assert IsTrimmed(u);
    TrimIdentity(u);
    assert !IsHttpUrl(u);
  }

  /** A shared memo whose trimmed text is not valid percent-encoding makes the page throw. */
  lemma {:induction false} BadTextBreaksLink(baseUrl: string, memo: string)
    requires Trim(baseUrl) != [] && '?' !in Trim(baseUrl) && '#' !in Trim(baseUrl)
    requires Trim(memo) != [] && DecodeUriComponent(Trim(memo)).None?
    ensures InitialText(SearchOf(ShareUrl(baseUrl, true, false, memo, []))) == Err(URIError)
  {
    ShareLinkParams(baseUrl, true, false, memo, []);
  }

  /**
    A memo "50%" is shared as `text=50%25`; the page reads "50%" from
    `URLSearchParams` and `decodeURIComponent("50%")` throws, which aborts
    the start of the page.
  */
  lemma {:induction false} PercentTextBreaksLink(baseUrl: string)
    requires Trim(baseUrl) != [] && '?' !in Trim(baseUrl) && '#' !in Trim(baseUrl)
    ensures InitialText(SearchOf(ShareUrl(baseUrl, true, false, "50%", []))) == Err(URIError)
  {
    TrimIdentity("50%");
    assert DecodeUriComponent("50%") == None;
    BadTextBreaksLink(baseUrl, "50%");
  }

  // ---------------------------------------------------------------------------
  // The corrected builder
  // ---------------------------------------------------------------------------

  /** The corrected `btn=` pieces: the title is encoded twice, because the page decodes it twice. */
  function BtnParamsFixed(kept: seq<Button>): (r: seq<string>)
    ensures |r| == |kept|
  {
    if kept == [] then []
    else ["btn=" + BtnValue(EncodeUriComponent(kept[0].title), kept[0].url)] + BtnParamsFixed(kept[1..])
  }

  /** The corrected `text` tuple: the trimmed memo is encoded once before the serializer encodes it again. */
  function TextParamsFixed(includeText: bool, memo: string): seq<Pair>
  {
    var v := Trim(memo);
    if includeText && v != [] then [Pair("text", EncodeUriComponent(v))] else []
  }

  /**
    `buildShareUrl` with the title and the text encoded as often as the page
    decodes them: "" exactly for a blank base, otherwise a link that starts
    with the trimmed base.
  */
  function ShareUrlFixed(baseUrl: string, includeText: bool, includeBtns: bool, memo: string, buttons: seq<Button>): (r: string)
    ensures r == [] <==> Trim(baseUrl) == []
    ensures Trim(baseUrl) != [] ==> |r| >= |Trim(baseUrl)| && r[..|Trim(baseUrl)|] == Trim(baseUrl)
  {
    Link(baseUrl, TextParamsFixed(includeText, memo), if includeBtns then BtnParamsFixed(Kept(buttons)) else [])
  }

  /** The entries the corrected link carries: the once-encoded title, "|", and the url. */
  function EntriesFixed(kept: seq<Button>): (r: seq<string>)
    ensures |r| == |kept|
  {
    if kept == [] then [] else [Entry(EncodeUriComponent(kept[0].title), kept[0].url)] + EntriesFixed(kept[1..])
  }

  lemma {:induction false} BtnParamsFixedAt(kept: seq<Button>, i: nat)
    requires i < |kept|
    ensures BtnParamsFixed(kept)[i] == "btn=" + BtnValue(EncodeUriComponent(kept[i].title), kept[i].url)
  {
    if i > 0 {
      BtnParamsFixedAt(kept[1..], i - 1);
    }
  }

  /** The corrected pieces parse into one ("btn", `enc(title)|url`) tuple per kept button. */
  lemma {:induction false} ParseBtnParamsFixed(kept: seq<Button>)
    ensures ParsePieces(BtnParamsFixed(kept)) == BtnPairs(EntriesFixed(kept))
  {
    if kept != [] {
      var b := kept[0];
      ParseBtnPiece(EncodeUriComponent(b.title), b.url);
      ParseBtnParamsFixed(kept[1..]);
      assert BtnParamsFixed(kept)[1..] == BtnParamsFixed(kept[1..]);
      assert EntriesFixed(kept)[1..] == EntriesFixed(kept[1..]);
    }
  }

  /** What the corrected link delivers to `new URLSearchParams(location.search)`. */
  lemma {:induction false} ShareLinkFixedParams(baseUrl: string, includeText: bool, includeBtns: bool, memo: string, buttons: seq<Button>)
    requires Trim(baseUrl) != [] && '?' !in Trim(baseUrl) && '#' !in Trim(baseUrl)
    ensures SearchParams(SearchOf(ShareUrlFixed(baseUrl, includeText, includeBtns, memo, buttons)))
         == TextParamsFixed(includeText, memo) + BtnPairs(if includeBtns then EntriesFixed(Kept(buttons)) else [])
  {
    var kept := Kept(buttons);
    var bp := if includeBtns then BtnParamsFixed(kept) else [];
    forall i | 0 <= i < |BtnParamsFixed(kept)|
      ensures BtnParamsFixed(kept)[i] != [] && '&' !in BtnParamsFixed(kept)[i] && '#' !in BtnParamsFixed(kept)[i]
    {
      BtnParamsFixedAt(kept, i);
      BtnPieceChars(EncodeUriComponent(kept[i].title), kept[i].url);
    }
    LinkParams(baseUrl, TextParamsFixed(includeText, memo), bp);
    ParseBtnParamsFixed(kept);
  }


  /** Every corrected entry parses back into its button, whatever the title holds. */
  lemma {:induction false} CandidatesOfEntriesFixed(kept: seq<Button>)
    ensures Candidates(EntriesFixed(kept)) == Ok(kept)
  {
    if kept != [] {
      var b := kept[0];
      var t := EncodeUriComponent(b.title);
      assert EntriesFixed(kept)[0] == Entry(t, b.url) && EntriesFixed(kept)[1..] == EntriesFixed(kept[1..]);
      EncodedLacks(b.title, '|');
      SplitEntryOf(t, b.url);
      DecodeEncode(b.title);
      CandidatesOfEntriesFixed(kept[1..]);
      HeadTail(kept);
    }
  }

  /**
    Round trip of the corrected builder: for every button list, the page
    opened at the link parses exactly the buttons the builder kept, trimmed
    and filtered again.
  */
  lemma {:induction false} ShareFixedRoundTrip(baseUrl: string, includeText: bool, memo: string, buttons: seq<Button>)
    requires Trim(baseUrl) != [] && '?' !in Trim(baseUrl) && '#' !in Trim(baseUrl)
    ensures ParseButtons(SearchOf(ShareUrlFixed(baseUrl, includeText, true, memo, buttons))) == Ok(Validate(Kept(buttons)))
  {
    var kept := Kept(buttons);
    ShareLinkFixedParams(baseUrl, includeText, true, memo, buttons);
    CandidatesOfEntriesFixed(kept);
    ShareEntries(TextParamsFixed(includeText, memo), EntriesFixed(kept));
    ParseBtnOnlySearch(SearchOf(ShareUrlFixed(baseUrl, includeText, true, memo, buttons)), EntriesFixed(kept), kept);
  }

  /** For valid, trimmed buttons, the corrected link reproduces the list exactly, "%" and "|" in titles included. */
  lemma {:induction false} ShareFixedRoundTripExact(baseUrl: string, includeText: bool, memo: string, buttons: seq<Button>)
    requires Trim(baseUrl) != [] && '?' !in Trim(baseUrl) && '#' !in Trim(baseUrl)
    requires forall i :: 0 <= i < |buttons| ==> IsNormal(buttons[i])
    ensures ParseButtons(SearchOf(ShareUrlFixed(baseUrl, includeText, true, memo, buttons))) == Ok(buttons)
  {
    ShareFixedRoundTrip(baseUrl, includeText, memo, buttons);
    KeptAll(buttons);
    ValidateKeeps(buttons);
  }

  /**
    The memo text of the corrected link: the page reads back the trimmed
    memo, whatever it holds, when it was included and is not blank, and
    `null` otherwise.
  */
  lemma {:induction false} ShareFixedTextRoundTrip(baseUrl: string, includeText: bool, includeBtns: bool, memo: string, buttons: seq<Button>)
    requires Trim(baseUrl) != [] && '?' !in Trim(baseUrl) && '#' !in Trim(baseUrl)
    ensures includeText && Trim(memo) != [] ==>
      InitialText(SearchOf(ShareUrlFixed(baseUrl, includeText, includeBtns, memo, buttons))) == Ok(Some(Trim(memo)))
    ensures !includeText || Trim(memo) == [] ==>
      InitialText(SearchOf(ShareUrlFixed(baseUrl, includeText, includeBtns, memo, buttons))) == Ok(None)
  {
    var values := if includeBtns then EntriesFixed(Kept(buttons)) else [];
    ShareLinkFixedParams(baseUrl, includeText, includeBtns, memo, buttons);
    var params := TextParamsFixed(includeText, memo) + BtnPairs(values);
    assert forall i :: 0 <= i < |BtnPairs(values)| ==> BtnPairs(values)[i].name != "text" by {
      forall i | 0 <= i < |BtnPairs(values)| ensures BtnPairs(values)[i].name != "text" {
        BtnPairsAt(values, i);
      }
    }
    if includeText && Trim(memo) != [] {
      assert params[0] == Pair("text", EncodeUriComponent(Trim(memo)));
      DecodeEncode(Trim(memo));
    } else {
      assert params == BtnPairs(values);
    }
  }
}
