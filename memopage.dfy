/**
  The start-up of the memo page (`main` in app.js): the memo text is taken
  from the store or from the link, the input and clear handlers are
  attached, and the launch buttons are chosen. The store is the key-value
  database the page keeps its memo in, as a map.
*/
module MemoPage {
  import opened Wrappers
  import opened LaunchButtons
  import opened MemoText

  /** What the store may hold under a key: a string, or a value of another type. */
  datatype Value = Str(s: string) | Other

  /** The key the memo text is stored under. */
  const NoteKey: string := "noteText"

  /** How `main` ended: it ran to the end, or an exception ended it early. */
  datatype Outcome = Started | Aborted(error: Error)

  /**
    Step 1 of `main`: a string stored under "noteText" becomes the memo and
    the store is left alone; otherwise a text from the link becomes the memo
    and is written to the store; otherwise nothing changes. The URIError of
    the link's text ends `main`.
  */
  function LoadMemo(memo: string, store: map<string, Value>, search: string): (r: Result<(string, map<string, Value>), Error>)
    ensures r.Ok? ==> r.value.1.Keys <= store.Keys + {NoteKey}
    ensures r.Ok? ==> forall k :: k in store && k != NoteKey ==> k in r.value.1 && r.value.1[k] == store[k]
  {
    if NoteKey in store && store[NoteKey].Str? then Ok((store[NoteKey].s, store))
    else
      match InitialText(search)
      case Err(e) => Err(e)
      case Ok(None) => Ok((memo, store))
      case Ok(Some(t)) => Ok((t, store[NoteKey := Str(t)]))
  }

  /**
    Step 5 of `main`: the buttons from the link, or `DEFAULT_BUTTONS` when
    the link yields none; the parser's URIError ends `main`. The buttons
    shown are never empty and all valid and trimmed.
  */
  function ChooseButtons(search: string): (r: Result<seq<Button>, Error>)
    ensures r.Ok? ==> |r.value| > 0 && forall i :: 0 <= i < |r.value| ==> IsNormal(r.value[i])
    ensures r.Err? <==> ParseButtons(search).Err?
  {
    var urlButtons :- ParseButtons(search);
    Ok(if |urlButtons| > 0 then urlButtons else DefaultButtons())
  }

  /** The page: the memo text area, the store, the handlers and the buttons on display. */
  class Page {
    var memo: string
    var store: map<string, Value>
    var wired: bool
    var shown: seq<Button>

    /** A freshly loaded page over the given store: an empty memo, no handlers, no buttons. */
    constructor(store0: map<string, Value>)
      ensures memo == [] && store == store0 && !wired && shown == []
    {
      memo := [];
      store := store0;
      wired := false;
      shown := [];
    }

    /**
      `main`: step 1 settles the memo and the store; steps 2 to 4 attach
      the input, copy and clear handlers; step 5 chooses and shows the
      buttons. An exception in step 1 leaves everything as it was; one in
      step 5 leaves the handlers attached and no new buttons shown.
    */
    method Start(search: string) returns (outcome: Outcome)
      modifies this
      ensures LoadMemo(old(memo), old(store), search).Err? ==>
        && outcome == Aborted(LoadMemo(old(memo), old(store), search).error)
        && memo == old(memo) && store == old(store) && wired == old(wired) && shown == old(shown)
      ensures LoadMemo(old(memo), old(store), search).Ok? ==>
        && (memo, store) == LoadMemo(old(memo), old(store), search).value
        && wired
        && match ChooseButtons(search)
           case Ok(bs) => outcome == Started && shown == bs
           case Err(e) => outcome == Aborted(e) && shown == old(shown)
    {
      var failed := LoadStep(search);
      if failed.Some? {
        return Aborted(failed.value);
      }
      wired := true;
      outcome := ShowButtons(search);
    }

    /** Step 1 of `main`: the stored memo, or else the link's text, which is then stored. */
    method LoadStep(search: string) returns (failed: Option<Error>)
      modifies this`memo, this`store
      ensures LoadMemo(old(memo), old(store), search).Err? ==>
        failed == Some(LoadMemo(old(memo), old(store), search).error) && memo == old(memo) && store == old(store)
      ensures LoadMemo(old(memo), old(store), search).Ok? ==>
        failed == None && (memo, store) == LoadMemo(old(memo), old(store), search).value
    {
      var saved := if NoteKey in store then Some(store[NoteKey]) else None;
      if saved.Some? && saved.value.Str? {
        memo := saved.value.s;
      } else {
        var fromUrl := InitialText(search);
        if fromUrl.Err? {
          return Some(fromUrl.error);
        }
        if fromUrl.value.Some? {
          memo := fromUrl.value.value;
          store := store[NoteKey := Str(fromUrl.value.value)];
        }
      }
      failed := None;
    }

    /** Step 5 of `main`: the buttons from the link, or `DEFAULT_BUTTONS` when it yields none. */
    method ShowButtons(search: string) returns (outcome: Outcome)
      modifies this`shown
      ensures match ChooseButtons(search)
        case Ok(bs) => outcome == Started && shown == bs
        case Err(e) => outcome == Aborted(e) && shown == old(shown)
    {
      var urlButtons := ParseUrlButtons(search);
      if urlButtons.Err? {
        return Aborted(urlButtons.error);
      }
      shown := if |urlButtons.value| > 0 then urlButtons.value else DefaultButtons();
      outcome := Started;
    }

    /**
      The input handler: the text typed becomes the memo and, once the
      handler is attached, it is written to the store under "noteText".
    */
    method Input(text: string)
      modifies this`memo, this`store
      ensures memo == text
      ensures store == if wired then old(store)[NoteKey := Str(text)] else old(store)
    {
      memo := text;
      if wired {
        store := store[NoteKey := Str(text)];
      }
    }

    /** The clear button: once its handler is attached, it empties the memo and stores "". */
    method ClickClear()
      modifies this`memo, this`store
      ensures wired ==> memo == [] && store == old(store)[NoteKey := Str([])]
      ensures !wired ==> memo == old(memo) && store == old(store)
    {
      if wired {
        memo := [];
        store := store[NoteKey := Str([])];
      }
    }
  }

  // ---------------------------------------------------------------------------
  // Properties of the start-up
  // ---------------------------------------------------------------------------

  /** A string stored under "noteText" always wins over the link's text, whatever the link holds. */
  lemma {:induction false} StoredMemoWins(memo: string, store: map<string, Value>, search: string, s: string)
    requires NoteKey in store && store[NoteKey] == Str(s)
    ensures LoadMemo(memo, store, search) == Ok((s, store))
  {
  }

  /**
    Only when no string is stored and the link carries a text is that text
    shown and written under "noteText"; the next start restores it
    whatever link it is opened with.
  */
  lemma {:induction false} UrlTextPersisted(memo: string, store: map<string, Value>, search: string, t: string, memo2: string, search2: string)
    requires !(NoteKey in store && store[NoteKey].Str?)
    requires InitialText(search) == Ok(Some(t))
    ensures LoadMemo(memo, store, search) == Ok((t, store[NoteKey := Str(t)]))
    ensures LoadMemo(memo2, store[NoteKey := Str(t)], search2) == Ok((t, store[NoteKey := Str(t)]))
  {
  }

  /** The store changes at start-up only by taking the link's text under "noteText". */
  lemma {:induction false} LoadMemoStore(memo: string, store: map<string, Value>, search: string)
    requires LoadMemo(memo, store, search).Ok?
    ensures var store' := LoadMemo(memo, store, search).value.1;
      store' == store || (InitialText(search).Ok? && InitialText(search).value.Some?
                          && store' == store[NoteKey := Str(InitialText(search).value.value)])
  {
  }

  /**
    After the memo is cleared, the next start shows an empty memo even when
    it is opened with a link that carries a text: "" is a stored string.
  */
  lemma {:induction false} ClearedMemoStaysCleared(memo: string, store: map<string, Value>, search: string)
    ensures LoadMemo(memo, store[NoteKey := Str([])], search) == Ok(([], store[NoteKey := Str([])]))
  {
  }

  /** A link that yields no button shows `DEFAULT_BUTTONS`; one that yields some shows exactly those. */
  lemma {:induction false} ChooseButtonsFallback(search: string)
    requires ParseButtons(search).Ok?
    ensures ParseButtons(search).value == [] ==> ChooseButtons(search) == Ok(DefaultButtons())
    ensures ParseButtons(search).value != [] ==> ChooseButtons(search) == ParseButtons(search)
  {
  }

  /**
    A page started and then cleared, when reloaded over its store and
    started again with the same link, shows an empty memo.
  */
  method ClearThenReload(store0: map<string, Value>, search: string) returns (memoAfter: Option<string>)
    ensures memoAfter.Some? <==> LoadMemo([], store0, search).Ok?
    ensures memoAfter.Some? ==> memoAfter.value == []
  {
    var page := new Page(store0);
    var outcome := page.Start(search);
    if !page.wired {
      return None;
    }
    ghost var started := page.store;
    page.ClickClear();
    ClearedMemoStaysCleared([], started, search);
    var reloaded := new Page(page.store);
    var again := reloaded.Start(search);
    return Some(reloaded.memo);
  }
}
