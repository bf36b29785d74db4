# Memo page with launch buttons: a Dafny model of `app.js`

The page keeps one memo text in a key-value store and shows a row of
launch buttons. Each button has a title and an http(s) url. A link can
carry an initial memo text (`?text=`) and a list of buttons (`?btn=title|url`,
repeated, or the older `?buttons=title|url;title|url`). A form on the page
builds such a link from the current memo and the buttons on display.

This project models the part of `app.js` that decides what the page
shows and what a shared link carries:

- `DEFAULT_BUTTONS` and the validity rule: a non-empty title and a url
  that starts with `http://` or `https://`, ignoring case
  (`launchbuttons.dfy`).
- `parseUrlButtons`, which reads the buttons from the query string. It is
  modelled twice: as a specification function (`ParseButtons`), and as a
  method with the two loops of the source (`ParseUrlButtons`), which is
  proved equal to the function.
- `getInitialTextFromURL` (`memotext.dfy`).
- `buildShareUrl`, with the memo text and the buttons on the page passed
  in as parameters. It too is both a function (`ShareUrl`) and a method
  with the loop of the source (`BuildShareUrl`). The model proves what a
  page opened at the link reads back (`sharelink.dfy`).
- The start-up in `main`: the memo comes from the store or the link, the
  input and clear handlers are attached, and the buttons are chosen. This
  is a class `Page` whose fields are the memo, the store (a map), whether
  the handlers are attached, and the buttons shown (`memopage.dfy`).

The browser functions these rely on are modelled from their standards:

- `encodeURIComponent` and `decodeURIComponent`, from section 19.2.6 of
  ECMA-262 (`uricodec.dfy`). A `None` result is the `URIError` the
  decoder throws.
- `URLSearchParams`, that is the application/x-www-form-urlencoded parser
  and serializer of the WHATWG URL Standard, sections 5.1 and 5.2
  (`formurlencoded.dfy`).
- The `%XY` triplets of section 2.1 of RFC 3986, which both codecs above
  read and write (`percent.dfy`).
- UTF-8 as RFC 3629 defines it, with the WHATWG decoder's replacement of
  malformed input (`utf8.dfy`).
- `String.prototype.split`, `Array.prototype.join` and
  `String.prototype.trim` (`jstext.dfy`).

`seqs.dfy` and `wrappers.dfy` hold generic sequence facts and the
`Option`/`Result` types.

Two behaviours of the code are modelled as written:

- The url half of a `btn` or `buttons` entry is never passed through
  `decodeURIComponent` (app.js:59, 67). Only the title is. The url gets
  no decoding beyond what `URLSearchParams` does itself.
- A `URIError` from `decodeURIComponent` is not caught. It ends
  `parseUrlButtons` or `getInitialTextFromURL`, and with them `main`.
  `Page.Start` returns it as `Aborted`.

## Model

| member | source | states |
|---|---|---|
| LaunchButtons.DefaultButtons | app.js:4-8 | `DEFAULT_BUTTONS` is three buttons, each valid with both fields trimmed |
| LaunchButtons.Validate | app.js:72-74 | the final map and filter returns at most as many buttons as it is given, each with a non-empty title, an http(s) url, and both fields trimmed |
| LaunchButtons.ValidateMember | app.js:72-74 | a button is in the result exactly when it is the trimmed form of some input entry and that trimmed form passes the validity test (both directions) |
| LaunchButtons.ValidateOnlyYields | app.js:72-74 | every button the filter returns comes from some input entry |
| LaunchButtons.ValidateAllYields | app.js:72-74 | every input entry whose trimmed form is valid appears in the result |
| LaunchButtons.ValidateAppend | app.js:72-74 | the filter works element by element: filtering a concatenation is filtering each part, in order |
| LaunchButtons.ValidateKeeps | app.js:72-74 | buttons that are already valid and trimmed pass the filter unchanged, duplicates included |
| LaunchButtons.Candidates | app.js:57-68 | the pushed list has at most one button per entry |
| LaunchButtons.ParseButtons | app.js:52-75 | every button `parseUrlButtons` returns is valid, with its title and url trimmed |
| LaunchButtons.ParseUrlButtons | app.js:52-75 | the method with the `btn` loop, then the `buttons` loop, then the filter returns exactly `ParseButtons(search)`, including its URIError |
| LaunchButtons.PushEntries | app.js:57-60 | after a loop over the values, the list is the candidates of all entries so far; the first URIError ends the loop |
| LaunchButtons.PushEntry | app.js:58-59 | one loop body: the entry is split at "\|"; it is skipped, pushed with its decoded title, or raises a URIError, exactly as `Candidates` says |
| LaunchButtons.CandidatesAppend | app.js:57-68 | the candidates of consecutive entry lists are those of each list in turn; the first error wins |
| LaunchButtons.CandidatesErrRest | app.js:57-60 | a URIError on some entry is the outcome of the whole loop, whatever follows it |
| LaunchButtons.SplitEntryAtFirstBar | app.js:58-59 | an entry yields nothing exactly when it has no "\|"; otherwise the title is the text before the first "\|" and the url is all the text after it, later "\|" included |
| LaunchButtons.SplitEntryOf | app.js:58-59 | `title\|url` with no "\|" in the title splits back into that title and url |
| LaunchButtons.CandidatesErrIff | app.js:59 | the parse fails exactly when some entry has a title that `decodeURIComponent` rejects |
| LaunchButtons.ParseButtonsFailsIff | app.js:52-75 | `parseUrlButtons` throws exactly when some `btn` or `buttons` entry has a malformed title |
| LaunchButtons.ParseButtonsOrder | app.js:56-74 | the result is the filtered `btn` buttons in query order, followed by the filtered `buttons` buttons in list order |
| LaunchButtons.ParseBtnOnlySearch | app.js:52-75 | a query with only `btn` entries parses into the filtered candidates of those entries |
| LaunchButtons.SplitEntry | app.js:58-59 | `split('\|')` then `s.slice(1).join('\|')`: a pair exactly when the entry holds "\|"; the title then holds no "\|" and title, "\|" and url make up the entry again |
| LaunchButtons.TrimAll | app.js:65-66 | `item.trim()` on every item: same length, item by item the trimmed text |
| LaunchButtons.BulkEntries | app.js:63-66 | nothing when `buttons` is absent or empty; otherwise one trimmed item per `;`-separated piece of the first `buttons` value, in order |
| LaunchButtons.HttpUrlIgnoresCase | app.js:74 | the `IsHttpUrl` test (`/^https?:\/\//i`) ignores ASCII case: urls equal up to case pass or fail together |
| LaunchButtons.HttpUrlShape | app.js:74 | a url that passes `IsHttpUrl` starts with "h" or "H" and has "://" at index 4 or 5 |
| LaunchButtons.HttpsUrl | app.js:74 | a url that starts with "https://" passes `/^https?:\/\//i` |
| MemoText.InitialText | app.js:46-50 | the result is `null` exactly when `text` is absent or empty; a returned text is never empty and is `decodeURIComponent` of the first `text` value |
| MemoText.InitialTextDecoded | app.js:48-49 | a non-empty `text` value fails exactly when `decodeURIComponent` rejects it, and otherwise the result is its decoded text; a value without "%" is returned unchanged |
| ShareLink.Kept | app.js:120-121 | the builder keeps at most the buttons it is given, each valid and drawn from the input |
| ShareLink.BuildShareUrl | app.js:105-138 | the method with the builder's loop returns exactly `ShareUrl` of its inputs |
| ShareLink.PushBtnParams | app.js:117-126 | the loop pushes one `btn=` piece per valid button, in order, and nothing for the others |
| ShareLink.KeptMember | app.js:120-121 | with `IsValid` as the test at app.js:121: the builder keeps a button exactly when it is one of the buttons given and it is valid (both directions) |
| ShareLink.ShareUrl | app.js:105-138 | `buildShareUrl` is "" exactly when the trimmed base is blank; otherwise it starts with the trimmed base and is that base alone exactly when no text and no valid button is shared; glue in ShareUrlGlue, round trip in ShareRoundTripExact |
| ShareLink.Link | app.js:107-133 | "" exactly for a blank base; otherwise the trimmed base comes first and stands alone exactly when both query parts are empty |
| ShareLink.TextParams | app.js:112-115 | at most one tuple, named "text" with the trimmed memo as value, present exactly when the box is ticked and the trimmed memo is non-empty |
| ShareLink.BtnValue | app.js:123 | the `btn` value holds only uriUnescaped characters and "%", so no "\|", "&", "=", "+" or "#"; its decoding partner is DecodeBtnValue |
| ShareLink.Assemble | app.js:130-133 | the glued link starts with the base and is the base alone exactly when both `qsMain` and `qsBtns` are empty |
| ShareLink.BtnParamsJoinEmpty | app.js:129-130 | `qsBtns` is empty exactly when no button was kept |
| ShareLink.SearchOf | app.js:47 | `location.search` is "" or "?" followed by at least one character, never holds "#", and is "" for a url without "?" |
| ShareLink.KeptAppend | app.js:120-121 | the builder's filter works element by element over a concatenation |
| ShareLink.BtnParamsAppend | app.js:117-126 | the `btn=` pieces of a concatenation are those of each part in turn |
| ShareLink.ShareUrlGlue | app.js:107-133 | a blank base gives ""; otherwise the link is the trimmed base, then "?" only when there is a piece, then the pieces (`text` first, then `btn`) separated by exactly one "&" |
| ShareLink.LinkGlue | app.js:128-133 | the `glue` and `amp` rule: "?" exactly when there is a piece, one "&" between consecutive pieces |
| ShareLink.AssembleJoined | app.js:129-133 | joining both parts with the glue equals one "&"-join of all pieces |
| ShareLink.DecodeBtnValue | app.js:123 | `URLSearchParams` delivers the value `enc(title)%7Cenc(url)` as `title\|url` |
| ShareLink.BtnPieceChars | app.js:123-124 | a `btn=` piece is non-empty and never holds "&" or "#" |
| ShareLink.ParseBtnParams | app.js:123-129 | the `btn=` pieces parse into one ("btn", `title\|url`) tuple per kept button, in order |
| ShareLink.LinkParams | app.js:128-133 | a link over a base without "?" or "#" delivers exactly its `text` tuples and then its `btn` tuples to `URLSearchParams` |
| ShareLink.ShareLinkParams | app.js:105-138 | what a share link delivers to `new URLSearchParams(location.search)`: the trimmed memo under `text` when included, then one `btn` tuple per kept button |
| ShareLink.ShareEntries | app.js:57-63 | the share link has no `buttons` key, and its `btn` values are the entries in order |
| ShareLink.CandidatesOfEntries | app.js:57-60 | entries whose titles hold neither "\|" nor "%" parse back into the same buttons |
| ShareLink.ShareRoundTrip | app.js:105-138 | as written: for titles without "\|" or "%", opening the share link parses exactly the kept buttons, trimmed and filtered again |
| ShareLink.ShareRoundTripExact | app.js:105-138 | as written: a list of valid, trimmed buttons whose titles have no "\|" or "%" comes back exactly |
| ShareLink.ShareTextRoundTrip | app.js:112-115 | as written: the page reads back the trimmed memo when it was included and has no "%", and `null` when it was not included or is blank |
| ShareLink.TextOfShareParams | app.js:112-115 | the first `text` value of a share link is the trimmed memo when it was included and is not blank, and absent otherwise |
| ShareLinkFixed.OneButtonLink | app.js:120-124 | a link with one valid button and no text carries exactly that button's entry and no `buttons` key |
| ShareLinkFixed.BadTitleBreaksLink | app.js:123 | a shared title without "\|" that is not valid percent-encoding makes the receiving page throw |
| ShareLinkFixed.PercentTitleBreaksLink | app.js:123 | a button titled "100%" makes the page opened at the share link throw a URIError |
| ShareLinkFixed.BarTitleSplits | app.js:123 | a shared title `x\|y` comes back as title `x` with url `y\|url` |
| ShareLinkFixed.BarTitleDropsButton | app.js:123 | a button titled "a\|b" disappears from the page opened at the share link |
| ShareLinkFixed.BadTextBreaksLink | app.js:114 | a shared memo that is not valid percent-encoding makes the receiving page throw |
| ShareLinkFixed.PercentTextBreaksLink | app.js:114 | a memo "50%" makes the page opened at the share link throw a URIError |
| ShareLinkFixed.ShareUrlFixed | app.js:105-138 | the corrected builder is "" exactly for a blank base and otherwise starts with the trimmed base; its round trips are ShareFixedRoundTrip and ShareFixedTextRoundTrip |
| ShareLinkFixed.ShareLinkFixedParams | app.js:105-138 | what the corrected link delivers to `URLSearchParams`: the once-encoded memo, then one `enc(title)\|url` entry per kept button |
| ShareLinkFixed.CandidatesOfEntriesFixed | app.js:57-60 | the corrected entries parse back into their buttons, whatever the titles hold |
| ShareLinkFixed.ShareFixedRoundTrip | app.js:105-138 | corrected: for every button list, opening the link parses exactly the kept buttons, trimmed and filtered again |
| ShareLinkFixed.ShareFixedRoundTripExact | app.js:105-138 | corrected: every list of valid, trimmed buttons comes back exactly, with "%" and "\|" in titles included |
| ShareLinkFixed.ShareFixedTextRoundTrip | app.js:112-115 | corrected: the page reads back the trimmed memo, whatever it holds, when it was included and is not blank, and `null` otherwise |
| MemoPage.LoadMemo | app.js:186-196 | step 1 changes the store at most under "noteText"; every other key keeps its value |
| MemoPage.ChooseButtons | app.js:217-218 | the buttons shown are never empty and are all valid and trimmed; the choice fails exactly when `parseUrlButtons` throws |
| MemoPage.Page.constructor | app.js:180-184 | a fresh page over a store: empty memo, no handlers attached, no buttons shown |
| MemoPage.Page.Start | app.js:180-219 | `main`: if step 1 throws, nothing changes; otherwise memo and store are as step 1 says, the handlers are attached, and the buttons shown are the chosen ones; a URIError from the button parser leaves the shown buttons unchanged |
| MemoPage.Page.LoadStep | app.js:186-196 | the stored string wins; otherwise a text from the link becomes the memo and is stored; otherwise nothing changes; a URIError changes nothing |
| MemoPage.Page.ShowButtons | app.js:217-219 | the link's buttons, or `DEFAULT_BUTTONS` when it yields none; a URIError shows nothing new |
| MemoPage.Page.Input | app.js:199-204 | the typed text becomes the memo; it is written under "noteText" once the handler is attached |
| MemoPage.Page.ClickClear | app.js:210-214 | once attached, the clear handler empties the memo and stores "" under "noteText"; nothing else changes |
| MemoPage.StoredMemoWins | app.js:186-188 | a string stored under "noteText" is the memo, whatever the link holds, and the store is left alone |
| MemoPage.UrlTextPersisted | app.js:189-195 | with no stored string, the link's text becomes the memo and is stored, so the next start restores it whatever link it is opened with |
| MemoPage.LoadMemoStore | app.js:186-196 | the store changes at start-up only by taking the link's text under "noteText" |
| MemoPage.ClearedMemoStaysCleared | app.js:210-212 | after a clear, the next start shows an empty memo even if the link carries a text |
| MemoPage.ChooseButtonsFallback | app.js:217-218 | `DEFAULT_BUTTONS` is shown exactly when the link yields no button; otherwise exactly the link's buttons are shown |
| MemoPage.ClearThenReload | app.js:186-214 | a page that is started, cleared, reloaded and started again with the same link shows an empty memo |
| UriCodec.EncodeUriComponent | app.js:123 | `encodeURIComponent` output holds only unreserved characters and "%", so never "\|", "&", "=", "+", "?" or "#" |
| UriCodec.DecodeUriComponent | app.js:49 | a decoded text is never longer than its input, and is empty exactly when the input is |
| UriCodec.DecodeEncode | app.js:123 | `decodeURIComponent(encodeURIComponent(s)) == s` for every string |
| UriCodec.DecodeWithoutPercent | app.js:49 | text without "%" decodes to itself |
| FormUrlEncoded.Serialize | app.js:128 | `params.toString()` is "" exactly for an empty tuple list; its inverse is ParseSerialize |
| FormUrlEncoded.ParseAppend | app.js:53 | the `URLSearchParams` parser treats the pieces on either side of an "&" independently: the tuples of `x&y` are those of `x` then those of `y` |
| FormUrlEncoded.SearchParamsMark | app.js:47 | `new URLSearchParams(search)` drops one leading "?": `?q` and `q` (not starting with "?") give the tuples of `q` |
| FormUrlEncoded.ParseSerialize | app.js:128 | parsing what `params.toString()` writes gives back the same tuples |
| FormUrlEncoded.DecodeSerialized | app.js:128 | every serialized name or value decodes back to itself |
| FormUrlEncoded.Get | app.js:48 | `get` is null exactly when no tuple has the name; otherwise it is the first of the `getAll` values, the value of the first tuple with that name |
| FormUrlEncoded.GetAllMember | app.js:57 | `getAll` returns a value exactly when some tuple carries it under that name (both directions) |
| FormUrlEncoded.GetAllAppend | app.js:57 | `getAll` keeps list order: the values of consecutive tuple lists are those of each list in turn |
| FormUrlEncoded.GetAll | app.js:57 | `getAll` has at most one value per tuple, and none when no tuple has the name |
| Utf8.DecodeReplaceRoundTrip | app.js:128 | UTF-8 decoding an encoding gives back the string |
| Utf8.DecodedIsEncoding | app.js:49 | the decoder accepts only the encoder's output: every well-formed sequence it reads is the RFC 3629 encoding of the character it yields, so overlong forms are rejected |
| JsText.Split | app.js:58 | `split` returns at least one piece; no piece holds the separator; joining the pieces gives back the input |
| JsText.SplitAtFirst | app.js:58-59 | there are two pieces or more exactly when the separator occurs; the first piece is the text before it and the rest, joined, is the text after it |
| JsText.SplitAppend | app.js:65 | splitting `x;y` at ";" splits `x` and `y` on their own and concatenates the pieces |
| JsText.SplitJoin | app.js:65-66 | splitting a join of separator-free pieces gives back the pieces |
| JsText.Trim | app.js:73 | `trim` returns the slice between leading and trailing whitespace, and it neither starts nor ends with whitespace |
| JsText.TrimIdentity | app.js:73 | `trim` leaves a string unchanged exactly when it neither starts nor ends with whitespace |

## Left out

- The key-value database (`db.js`, IndexedDB) is a `map` from keys to values. Its asynchronous calls and their failures are not modelled. db.js is not part of this model.
- The debounce timers of the input handler (app.js:199-204) and of the share form are not modelled. `Page.Input` writes the store at once.
- MemoPage.ClearedMemoStaysCleared and MemoPage.ClearThenReload hold for the model, where `Page.Input` writes at once. In app.js, the clear handler (app.js:210-212) does not cancel a pending debounced write (app.js:203). A clear within 200 ms of typing is therefore followed by that write, which stores the old text again. The model does not capture this.
- The copy button, `copyText` and the clipboard, `toast`, and the DOM are not modelled. `renderButtons` becomes the `shown` field. `initShareForm` and the share form's event wiring are not modelled.
- `getButtonsFromDOM` is not modelled: the builder takes the buttons as a parameter. The browser's normalisation of `a.href` is not modelled either.
- ShareLink.ShareUrl: the `try`/`catch` of `buildShareUrl` is not modelled. Dafny characters are Unicode scalar values, so a string with a lone surrogate cannot be written, and `encodeURIComponent` never throws here.
- ShareLink.SearchOf: `location.search` is computed by a simplified URL parser. It takes the text from the first "?" up to the first "#". It does not model the URL parser's own percent-encoding of the query. The round-trip lemmas require a trimmed base without "?" or "#".
- ShareLink.ShareRoundTrip: it holds only for titles without "\|" or "%". That is the code as written; see Findings.
- ShareLink.ShareTextRoundTrip: it holds only for a memo without "%". That is the code as written; see Findings.
- `main`'s step 6, `initShareForm`, and the service worker (`service-worker.js`) are not modelled.
- The HTML and CSS are not modelled.
- JavaScript strings are UTF-16 in the source. The model uses sequences of Unicode scalar values, so lone surrogates are out of scope.

## Findings

| source | as written | input that shows it | evidently intended | confidence | as-written member | corrected member |
|---|---|---|---|---|---|---|
| app.js:123 | the builder encodes a title once, but the page decodes it twice (`URLSearchParams`, then `decodeURIComponent` at app.js:59) | a button titled "100%": the link carries `btn=100%25%7C...`, the page reads "100%", and `decodeURIComponent` throws, so no button is shown | the title is encoded as often as it is decoded, so every valid button comes back | not executed | ShareLinkFixed.PercentTitleBreaksLink | ShareLinkFixed.ShareFixedRoundTrip |
| app.js:123 | the "\|" of a title is decoded back to "\|" by `URLSearchParams` before the entry is split at its first "\|" (app.js:58) | a button titled "a\|b" with url "https://example.com/": the page splits off the title "a", the url "b\|https://example.com/" fails the http(s) test, and the button is lost | titles containing "\|" survive the round trip | not executed | ShareLinkFixed.BarTitleDropsButton | ShareLinkFixed.ShareFixedRoundTripExact |
| app.js:114 | the memo is encoded once by `params.set`/`toString`, but `getInitialTextFromURL` decodes it twice (app.js:49) | the memo "50%", opened on a page whose store holds no string under "noteText" (app.js:186-191 checks the store first): the link carries `text=50%25`, the page reads "50%", and `decodeURIComponent` throws, which ends `main` | the shared memo comes back as written | not executed | ShareLinkFixed.PercentTextBreaksLink | ShareLinkFixed.ShareFixedTextRoundTrip |
