/**
  The launch buttons of app.js: `DEFAULT_BUTTONS`, the validity rule and
  `parseUrlButtons`, which reads buttons from the page's query string.
*/
module LaunchButtons {
  import opened Wrappers
  import opened Seqs
  import opened JsText
  import opened UriCodec
  import opened FormUrlEncoded

  /** One launch button: a label and the address it opens. */
  datatype Button = Button(title: string, url: string)

  /** The exception `decodeURIComponent` throws on a malformed escape. */
  datatype Error = URIError

  /** `DEFAULT_BUTTONS`, shown when the query string yields no button. */
  function DefaultButtons(): (r: seq<Button>)
    ensures |r| == 3
    ensures forall i :: 0 <= i < |r| ==> IsNormal(r[i])
  {
    XNormal(); YouTubeNormal(); InstagramNormal();
    [ Button("X", "https://x.com/home"),
      Button("YouTube", "https://www.youtube.com/"),
      Button("Instagram", "https://www.instagram.com/") ]
  }

  lemma {:induction false} XNormal() ensures IsNormal(Button("X", "https://x.com/home")) { HttpsUrl("https://x.com/home"); }
  lemma {:induction false} YouTubeNormal() ensures IsNormal(Button("YouTube", "https://www.youtube.com/")) { HttpsUrl("https://www.youtube.com/"); }
  lemma {:induction false} InstagramNormal() ensures IsNormal(Button("Instagram", "https://www.instagram.com/")) { HttpsUrl("https://www.instagram.com/"); }

  /** A url spelled with a lower-case "https://" passes the http(s) test. */
  lemma {:induction false} HttpsUrl(url: string)
    requires |url| >= 8 && url[..8] == "https://"
    ensures IsHttpUrl(url)
  {
    forall i | 0 <= i < 8 ensures LowerAscii(url[i]) == "https://"[i] {
      assert url[i] == url[..8][i];
    }
  }

  // ---------------------------------------------------------------------------
  // Validity
  // ---------------------------------------------------------------------------

  /** ASCII upper-case letters to lower case; the `i` flag of a non-Unicode regular expression folds nothing else onto ASCII. */
  function LowerAscii(c: char): char
  {
    if 'A' <= c <= 'Z' then (c as int + 32) as char else c
  }

  /** `s` starts with the lower-case `prefix`, ignoring ASCII case. */
  predicate StartsWithIgnoreCase(s: string, prefix: string)
  {
    |s| >= |prefix| && forall i :: 0 <= i < |prefix| ==> LowerAscii(s[i]) == prefix[i]
  }

  /** `/^https?:\/\//i.test(url)`. */
  predicate IsHttpUrl(url: string)
  {
    StartsWithIgnoreCase(url, "http://") || StartsWithIgnoreCase(url, "https://")
  }

  /**
    The test ignores ASCII case: two urls that agree up to case pass or fail
    it together.
  */
  lemma {:induction false} HttpUrlIgnoresCase(url: string, other: string)
    requires |url| == |other|
    requires forall i :: 0 <= i < |url| ==> LowerAscii(url[i]) == LowerAscii(other[i])
    ensures IsHttpUrl(url) <==> IsHttpUrl(other)
  {
  }

  /**
    A url that passes the test starts with "h" or "H" and has "://" right
    after the scheme name, at index 4 ("http") or 5 ("https").
  */
  lemma {:induction false} HttpUrlShape(url: string)
    requires IsHttpUrl(url)
    ensures |url| >= 7 && LowerAscii(url[0]) == 'h'
    ensures url[4..7] == "://" || (|url| >= 8 && url[5..8] == "://")
  {
    if StartsWithIgnoreCase(url, "http://") {
      assert LowerAscii(url[4]) == ':' && LowerAscii(url[5]) == '/' && LowerAscii(url[6]) == '/';
      assert url[4..7] == [url[4], url[5], url[6]];
    } else {
      assert LowerAscii(url[5]) == ':' && LowerAscii(url[6]) == '/' && LowerAscii(url[7]) == '/';
      assert url[5..8] == [url[5], url[6], url[7]];
    }
  }

  /** The rule both the parser and the share-URL builder apply: a non-empty title and an http(s) url. */
  predicate IsValid(b: Button)
  {
    b.title != [] && IsHttpUrl(b.url)
  }

  /** A button as the parser returns it: valid, with both fields trimmed. */
  predicate IsNormal(b: Button)
  {
    IsValid(b) && IsTrimmed(b.title) && IsTrimmed(b.url)
  }

  // ---------------------------------------------------------------------------
  // Parsing, as a specification
  // ---------------------------------------------------------------------------

  /**
    `s = v.split('|')`, then, when `s.length >= 2`, the title `s[0]` and the
    url `s.slice(1).join('|')`. There is a pair exactly when `v` holds a
    "|"; the title then holds none, so the split is at the first "|", and
    title, "|" and url make up `v` again.
  */
  function SplitEntry(v: string): (r: Option<(string, string)>)
    ensures r.None? <==> '|' !in v
    ensures r.Some? ==> '|' !in r.value.0 && v == r.value.0 + "|" + r.value.1
  {
    var s := Split(v, '|');
    SplitAtFirst(v, '|');
    if |s| >= 2 then
      var i := IndexOf(v, '|');
      assert v == v[..i] + "|" + v[i + 1..];
      Some((s[0], Join(s[1..], '|')))
    else None
  }

  /**
    The list `parseUrlButtons` pushes onto, for the given `title|url`
    entries: an entry without "|" adds nothing; otherwise the title is
    decoded with `decodeURIComponent`, whose URIError ends the whole parse,
    and the url is taken as it is.
  */
  function Candidates(entries: seq<string>): (r: Result<seq<Button>, Error>)
    ensures r.Ok? ==> |r.value| <= |entries|
  {
    if entries == [] then Ok([])
    else
      match SplitEntry(entries[0])
      case None => Candidates(entries[1..])
      case Some((t, u)) =>
        match DecodeUriComponent(t)
        case None => Err(URIError)
        case Some(title) =>
          var rest :- Candidates(entries[1..]);
          Ok([Button(title, u)] + rest)
  }

  /** Every item trimmed: `item.trim()` on the `;`-separated items. */
  function TrimAll(items: seq<string>): (r: seq<string>)
    ensures |r| == |items|
    ensures forall j :: 0 <= j < |items| ==> r[j] == Trim(items[j])
  {
    if items == [] then [] else [Trim(items[0])] + TrimAll(items[1..])
  }

  /** The values of the repeated `btn` key, in query order. */
  function BtnEntries(params: seq<Pair>): seq<string>
  {
    GetAll(params, "btn")
  }

  /**
    The trimmed `;`-separated items of the first `buttons` value, when it
    is non-empty; nothing when `buttons` is absent or empty.
  */
  function BulkEntries(params: seq<Pair>): (r: seq<string>)
    ensures Get(params, "buttons").None? || Get(params, "buttons") == Some([]) ==> r == []
    ensures Get(params, "buttons").Some? && Get(params, "buttons").value != [] ==>
      var items := Split(Get(params, "buttons").value, ';');
      |r| == |items| && forall j :: 0 <= j < |r| ==> r[j] == Trim(items[j])
    ensures forall j :: 0 <= j < |r| ==> IsTrimmed(r[j])
  {
    match Get(params, "buttons")
    case Some(bulk) => if bulk != [] then TrimAll(Split(bulk, ';')) else []
    case None => []
  }

  /** The final `map`: both fields trimmed. */
  function TrimFields(b: Button): Button
  {
    Button(Trim(b.title), Trim(b.url))
  }

  /**
    The final `map`/`filter`: both fields trimmed, then only buttons with a
    non-empty title and an http(s) url are kept, in order. Everything it
    returns is valid and trimmed.
  */
  function Validate(list: seq<Button>): (r: seq<Button>)
    ensures |r| <= |list|
    ensures forall i :: 0 <= i < |r| ==> IsNormal(r[i])
  {
    if list == [] then []
    else
      var b := TrimFields(list[0]);
      (if IsValid(b) then [b] else []) + Validate(list[1..])
  }

  /**
    `parseUrlButtons()` on the page whose `location.search` is `search`:
    the `btn` entries, then the `buttons` entries, decoded, trimmed and
    filtered; a URIError from any title is the result of the whole call.
  */
  function ParseButtons(search: string): (r: Result<seq<Button>, Error>)
    ensures r.Ok? ==> forall i :: 0 <= i < |r.value| ==>
      IsNormal(r.value[i])
  {
    var params := SearchParams(search);
    var list :- Candidates(BtnEntries(params) + BulkEntries(params));
    Ok(Validate(list))
  }

  // ---------------------------------------------------------------------------
  // Parsing, as app.js does it
  // ---------------------------------------------------------------------------

  /** Two partial results one after the other; the first error wins. */
  function Concat(a: Result<seq<Button>, Error>, b: Result<seq<Button>, Error>): Result<seq<Button>, Error>
  {
    if a.Err? then a else if b.Err? then b else Ok(a.value + b.value)
  }

  /** The candidates of consecutive entries are the candidates of each part, one after the other. */
  lemma {:induction false} CandidatesAppend(a: seq<string>, b: seq<string>)
    ensures Candidates(a + b) == Concat(Candidates(a), Candidates(b))
  {
    if a == [] {
      assert a + b == b;
      if Candidates(b).Ok? {
        assert [] + Candidates(b).value == Candidates(b).value;
      }
    } else {
      assert (a + b)[0] == a[0] && (a + b)[1..] == a[1..] + b;
      CandidatesAppend(a[1..], b);
      var ca, cb := Candidates(a[1..]), Candidates(b);
      if ca.Ok? && cb.Ok? && SplitEntry(a[0]).Some? {
        var title := DecodeUriComponent(SplitEntry(a[0]).value.0);
        if title.Some? {
          var head := [Button(title.value, SplitEntry(a[0]).value.1)];
          assert head + (ca.value + cb.value) == (head + ca.value) + cb.value;
        }
      }
    }
  }

  /** One loop iteration of `parseUrlButtons`: the entry `v` is pushed, skipped, or throws. */
  lemma {:induction false} CandidatesStep(done: seq<string>, v: string, list: seq<Button>)
    requires Candidates(done) == Ok(list)
    ensures Candidates(done + [v]) ==
      match SplitEntry(v)
      case None => Ok(list)
      case Some((t, u)) =>
        match DecodeUriComponent(t)
        case None => Err(URIError)
        case Some(title) => Ok(list + [Button(title, u)])
  {
    CandidatesAppend(done, [v]);
    assert [v][0] == v && [v][1..] == [];
    match SplitEntry(v)
    case None =>
      assert list + [] == list;
    case Some((t, u)) =>
      match DecodeUriComponent(t)
      case None =>
      case Some(title) =>
        assert [Button(title, u)] + [] == [Button(title, u)];
  }

  /**
    The body both loops of `parseUrlButtons` share: `v` split at "|", and,
    when there are two pieces or more, the decoded title and the url pushed
    onto `list`; a malformed title is a URIError.
  */
  method PushEntry(ghost done: seq<string>, list: seq<Button>, v: string) returns (r: Result<seq<Button>, Error>)
    requires Candidates(done) == Ok(list)
    ensures r == Candidates(done + [v])
  {
    CandidatesStep(done, v, list);
    var s := Split(v, '|');
    if |s| >= 2 {
      var title := DecodeUriComponent(s[0]);
      if title.None? {
        return Err(URIError);
      }
      return Ok(list + [Button(title.value, Join(s[1..], '|'))]);
    }
    return Ok(list);
  }

  /**
    Each loop of `parseUrlButtons`: every value in turn, pushed after the
    entries already in `list`; the first URIError ends it.
  */
  method PushEntries(ghost done: seq<string>, list: seq<Button>, vs: seq<string>) returns (r: Result<seq<Button>, Error>)
    requires Candidates(done) == Ok(list)
    ensures r == Candidates(done + vs)
  {
    var acc := list;
    assert done + vs[..0] == done;
    for j := 0 to |vs|
      invariant Candidates(done + vs[..j]) == Ok(acc)
    {
      PrefixStep(done, vs, j);
      var next := PushEntry(done + vs[..j], acc, vs[j]);
      if next.Err? {
        CandidatesErrRest(done, vs, j);
        return next;
      }
      acc := next.value;
    }
    assert vs[..|vs|] == vs;
    r := Ok(acc);
  }

  /** A URIError on a prefix of the values is the outcome of them all. */
  lemma {:induction false} CandidatesErrRest(done: seq<string>, vs: seq<string>, j: nat)
    requires j < |vs| && Candidates(done + vs[..j + 1]).Err?
    ensures Candidates(done + vs) == Candidates(done + vs[..j + 1])
  {
    var x, y := done + vs[..j + 1], vs[j + 1..];
    CandidatesAppend(x, y);
    assert x + y == done + vs;
  }

  /**
    `parseUrlButtons`: the `btn` loop, then, when `buttons` is present and
    non-empty, the loop over its items, then the final trim and filter.
    The result is exactly `ParseButtons(search)`.
  */
  method ParseUrlButtons(search: string) returns (r: Result<seq<Button>, Error>)
    ensures r == ParseButtons(search)
  {
    var params := SearchParams(search);
    var btns := GetAll(params, "btn");
    CandidatesAppend(btns, BulkEntries(params));
    assert [] + btns == btns;
    var pushed := PushEntries([], [], btns);
    if pushed.Err? {
      return pushed;
    }
    var list := pushed.value;
    var bulk := Get(params, "buttons");
    if bulk.Some? && bulk.value != [] {
      var items := TrimAll(Split(bulk.value, ';'));
      pushed := PushEntries(btns, list, items);
      if pushed.Err? {
        return pushed;
      }
      list := pushed.value;
    } else {
      assert btns + BulkEntries(params) == btns;
    }
    r := Ok(Validate(list));
  }

  // ---------------------------------------------------------------------------
  // Properties of the parser
  // ---------------------------------------------------------------------------

  /**
    An entry splits at its first "|": the title is the text before it and
    the url all the text after it, so a url may contain "|"; an entry
    without "|" yields nothing.
  */
  lemma {:induction false} SplitEntryAtFirstBar(v: string)
    ensures SplitEntry(v).None? <==> '|' !in v
    ensures '|' in v ==>
      var i := IndexOf(v, '|');
      SplitEntry(v) == Some((v[..i], v[i + 1..]))
  {
    SplitAtFirst(v, '|');
  }

  /** `title|url` with no "|" in the title splits back into the title and the url. */
  lemma {:induction false} SplitEntryOf(title: string, url: string)
    requires '|' !in title
    ensures SplitEntry(title + "|" + url) == Some((title, url))
  {
    var v := title + "|" + url;
    SplitEntryAtFirstBar(v);
    IndexOfAfter(title, '|', url);
    TakeFront(title, "|", url);
    DropFront(title + "|", url);
  }

  /** A title that `decodeURIComponent` rejects in a `title|url` entry. */
  predicate HasBadTitle(v: string)
  {
    SplitEntry(v).Some? && DecodeUriComponent(SplitEntry(v).value.0).None?
  }

  /**
    The parse fails exactly when some entry has a title that
    `decodeURIComponent` rejects: such an entry is not dropped, it aborts.
  */
  lemma {:induction false} CandidatesErrIff(entries: seq<string>)
    ensures Candidates(entries).Err? <==> exists k :: 0 <= k < |entries| && HasBadTitle(entries[k])
  {
    if entries != [] {
      CandidatesErrIff(entries[1..]);
      if HasBadTitle(entries[0]) {
      } else {
        forall k | 1 <= k < |entries| && HasBadTitle(entries[k])
          ensures HasBadTitle(entries[1..][k - 1])
        {
        }
        if exists k :: 1 <= k < |entries| && HasBadTitle(entries[k]) {
          var k :| 1 <= k < |entries| && HasBadTitle(entries[k]);
          assert HasBadTitle(entries[1..][k - 1]);
        }
        if exists k :: 0 <= k < |entries[1..]| && HasBadTitle(entries[1..][k]) {
          var k :| 0 <= k < |entries[1..]| && HasBadTitle(entries[1..][k]);
          assert HasBadTitle(entries[k + 1]);
        }
      }
    }
  }

  /** Trimming and filtering consecutive lists is trimming and filtering each, one after the other. */
  lemma {:induction false} ValidateAppend(a: seq<Button>, b: seq<Button>)
    ensures Validate(a + b) == Validate(a) + Validate(b)
  {
    if a == [] {
      assert a + b == b;
    } else {
      assert (a + b)[0] == a[0] && (a + b)[1..] == a[1..] + b;
      ValidateAppend(a[1..], b);
      var h := TrimFields(a[0]);
      var head := if IsValid(h) then [h] else [];
      assert Validate(a + b) == head + (Validate(a[1..]) + Validate(b));
      assert Validate(a) == head + Validate(a[1..]);
      AppendAssoc(head, Validate(a[1..]), Validate(b));
    }
  }

  /** Buttons that are already valid and trimmed pass the final filter unchanged, duplicates included. */
  lemma {:induction false} ValidateKeeps(list: seq<Button>)
    requires forall i :: 0 <= i < |list| ==> IsNormal(list[i])
    ensures Validate(list) == list
  {
    if list != [] {
      TrimIdentity(list[0].title);
      TrimIdentity(list[0].url);
      ValidateKeeps(list[1..]);
      assert [list[0]] + list[1..] == list;
    }
  }

  /** Entry `i` of `list`, trimmed, is `b`, and `b` passes the filter. */
  predicate Yields(list: seq<Button>, i: int, b: Button)
  {
    0 <= i < |list| && b == TrimFields(list[i]) && IsValid(b)
  }

  /**
    The filter keeps a button exactly when it is the trimmed form of some
    entry of the list and that trimmed form has a title and an http(s) url.
  */
  lemma {:induction false} ValidateMember(list: seq<Button>, b: Button)
    ensures b in Validate(list) <==> exists i :: Yields(list, i, b)
  {
    if b in Validate(list) {
      ValidateOnlyYields(list, b);
    }
    if exists i :: Yields(list, i, b) {
      var i :| Yields(list, i, b);
      ValidateAllYields(list, i, b);
    }
  }

  /** Whatever the filter returns comes from some entry of the list. */
  lemma {:induction false} ValidateOnlyYields(list: seq<Button>, b: Button)
    requires b in Validate(list)
    ensures exists i :: Yields(list, i, b)
  {
    var h := TrimFields(list[0]);
    var head := if IsValid(h) then [h] else [];
    assert Validate(list) == head + Validate(list[1..]);
    InAppend(b, head, Validate(list[1..]));
    if b in head {
      assert Yields(list, 0, b);
    } else {
      ValidateOnlyYields(list[1..], b);
      var i :| Yields(list[1..], i, b);
      assert Yields(list, i + 1, b);
    }
  }

  /** Every entry whose trimmed form passes the filter is returned. */
  lemma {:induction false} ValidateAllYields(list: seq<Button>, i: int, b: Button)
    requires Yields(list, i, b)
    ensures b in Validate(list)
  {
    var h := TrimFields(list[0]);
    var head := if IsValid(h) then [h] else [];
    assert Validate(list) == head + Validate(list[1..]);
    InAppend(b, head, Validate(list[1..]));
    if i == 0 {
      assert head == [b];
    } else {
      ValidateAllYields(list[1..], i - 1, b);
    }
  }

  /**
    The order of the result: the buttons from the `btn` values, in query
    order, then those from the `buttons` list, in list order.
  */
  lemma {:induction false} ParseButtonsOrder(search: string)
    requires ParseButtons(search).Ok?
    ensures
      var params := SearchParams(search);
      && Candidates(BtnEntries(params)).Ok? && Candidates(BulkEntries(params)).Ok?
      && ParseButtons(search).value
         == Validate(Candidates(BtnEntries(params)).value) + Validate(Candidates(BulkEntries(params)).value)
  {
    var params := SearchParams(search);
    CandidatesAppend(BtnEntries(params), BulkEntries(params));
    ValidateAppend(Candidates(BtnEntries(params)).value, Candidates(BulkEntries(params)).value);
  }

  /** The whole parse fails exactly when some `btn` or `buttons` entry has a malformed title. */
  lemma {:induction false} ParseButtonsFailsIff(search: string)
    ensures
      var params := SearchParams(search);
      var entries := BtnEntries(params) + BulkEntries(params);
      ParseButtons(search).Err? <==> exists k :: 0 <= k < |entries| && HasBadTitle(entries[k])
  {
    var params := SearchParams(search);
    CandidatesErrIff(BtnEntries(params) + BulkEntries(params));
  }

  /** A query whose `btn` entries yield `list` and which has no `buttons` entries parses into `list`, trimmed and filtered. */
  lemma {:induction false} ParseBtnOnlySearch(search: string, values: seq<string>, list: seq<Button>)
    requires BtnEntries(SearchParams(search)) == values && BulkEntries(SearchParams(search)) == []
    requires Candidates(values) == Ok(list)
    ensures ParseButtons(search) == Ok(Validate(list))
  {
    assert values + [] == values;
  }
}
