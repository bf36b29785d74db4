/** `getInitialTextFromURL`: the memo text a shared link carries in its `text` parameter. */
module MemoText {
  import opened Wrappers
  import opened UriCodec
  import opened FormUrlEncoded
  import opened LaunchButtons

  /**
    `getInitialTextFromURL()` on the page whose `location.search` is
    `search`: `None` (JavaScript's `null`) when `text` is absent or empty,
    otherwise the first `text` value passed through `decodeURIComponent`,
    whose URIError is the result of the call.
  */
  function InitialText(search: string): (r: Result<Option<string>, Error>)
    ensures r == Ok(None) <==>
      (Get(SearchParams(search), "text").None? || Get(SearchParams(search), "text") == Some([]))
    ensures r.Ok? && r.value.Some? ==> r.value.value != []
    ensures r.Ok? && r.value.Some? ==>
      Get(SearchParams(search), "text").Some? &&
      DecodeUriComponent(Get(SearchParams(search), "text").value) == Some(r.value.value)
  {
    match Get(SearchParams(search), "text")
    case None => Ok(None)
    case Some(t) =>
      if t == [] then Ok(None)
      else
        match DecodeUriComponent(t)
        case None => Err(URIError)
        case Some(d) => Ok(Some(d))
  }

  /**
    A non-empty first `text` value is decoded a second time: the reader
    fails exactly when that value is not valid percent-encoding, returns
    its decoded text otherwise, and a value without "%" comes back as it is.
  */
  lemma {:induction false} InitialTextDecoded(search: string)
    requires Get(SearchParams(search), "text").Some?
    requires Get(SearchParams(search), "text").value != []
    ensures var t := Get(SearchParams(search), "text").value;
      && (InitialText(search).Err? <==> DecodeUriComponent(t).None?)
      && (DecodeUriComponent(t).Some? ==> InitialText(search) == Ok(Some(DecodeUriComponent(t).value)))
      && ('%' !in t ==> InitialText(search) == Ok(Some(t)))
  {
    var t := Get(SearchParams(search), "text").value;
    if '%' !in t {
      DecodeWithoutPercent(t);
    }
  }
}
