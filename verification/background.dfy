/** The background worker of src/background/index.ts: on tab activation or completed load,
    look the tab's URL up and send the page either the stored note or an intent prompt.
    The two-second timer before the check is left out; `read` is the outcome of the store
    read made when the timer fires (`None` when it rejects), and the result is the list of
    messages sent to the tab. */
module Background {
  import opened Wrappers
  import opened TabNotes
  import opened Messages

  /** `handleTabCheck`. A rejected lookup is caught and logged, and sends nothing. */
  function HandleTabCheck(read: StoreRead, url: string): (sent: seq<Message>)
    ensures IsBrowserPage(url) || read.None? ==> sent == []
    ensures !IsBrowserPage(url) && read.Some? ==> |sent| == 1
    ensures |sent| == 1 ==> sent[0].ShowNoteOverlay? != sent[0].ShowIntentPrompt?
    ensures |sent| == 1 ==> (sent[0].ShowIntentPrompt? <==> forall n :: n in GetAllNotes(read.value) ==> n.url != url)
    ensures |sent| == 1 && sent[0].ShowNoteOverlay? ==>
      exists i :: IsFirstMatch(GetAllNotes(read.value), ByUrl(url), i)
               && sent[0] == ShowNoteOverlay(Some(NoteRecord(GetAllNotes(read.value)[i])))
  {
    if IsBrowserPage(url) then []
    else
      match read
      case None => []
      case Some(store) =>
        match GetNoteByUrl(store, url)
        case Some(n) => [ShowNoteOverlay(Some(NoteRecord(n)))]
        case None => [ShowIntentPrompt]
  }

  /** The `onActivated` listener: a check only when the tab has a URL. A failing
      `chrome.tabs.get` is caught and sends nothing, which `None` also covers. */
  function OnActivated(read: StoreRead, tabUrl: Option<string>): (sent: seq<Message>)
    ensures !HasUrl(tabUrl) ==> sent == []
    ensures HasUrl(tabUrl) ==> sent == HandleTabCheck(read, tabUrl.value)
  {
    if HasUrl(tabUrl) then HandleTabCheck(read, tabUrl.value) else []
  }

  /** The `onUpdated` listener: a check only when loading is complete and the tab has a URL. */
  function OnUpdated(read: StoreRead, status: Option<string>, tabUrl: Option<string>): (sent: seq<Message>)
    ensures sent != [] ==> status == Some("complete") && HasUrl(tabUrl)
    ensures status == Some("complete") && HasUrl(tabUrl) ==> sent == HandleTabCheck(read, tabUrl.value)
  {
    if status == Some("complete") && HasUrl(tabUrl) then HandleTabCheck(read, tabUrl.value) else []
  }

  /** Every check that is not skipped and whose read succeeds sends exactly one message,
      and which one depends only on whether the store holds a note for the URL. */
  lemma CheckSendsOneMessage(store: Store, url: string)
    requires !IsBrowserPage(url)
    ensures |HandleTabCheck(Some(store), url)| == 1
    ensures GetNoteByUrl(store, url).Some? ==>
      HandleTabCheck(Some(store), url) == [ShowNoteOverlay(Some(NoteRecord(GetNoteByUrl(store, url).value)))]
    ensures GetNoteByUrl(store, url).None? ==> HandleTabCheck(Some(store), url) == [ShowIntentPrompt]
  {
  }
}

/** The older background worker of src/background.ts: same triggers and skip list, but it
    sends only the note's text, and nothing at all when no note is stored. */
module LegacyBackground {
  import opened Wrappers
  import opened TabNotes
  import opened Messages

  /** The shared body of both listeners once the URL has passed the guard. A rejected
      lookup is not caught; the listener's promise rejects and nothing is sent. */
  function NotifyIfNote(read: StoreRead, url: string): (sent: seq<Message>)
    ensures |sent| <= 1
    ensures sent != [] <==> read.Some? && exists n :: n in GetAllNotes(read.value) && n.url == url
    ensures sent != [] ==>
      exists i :: IsFirstMatch(GetAllNotes(read.value), ByUrl(url), i)
               && sent[0] == ShowNoteOverlay(Some(NoteText(GetAllNotes(read.value)[i].note)))
  {
    match read
    case None => []
    case Some(store) =>
      match GetNoteByUrl(store, url)
      case Some(n) => [ShowNoteOverlay(Some(NoteText(n.note)))]
      case None => []
  }

  /** The `onActivated` listener. */
  function OnActivated(read: StoreRead, tabUrl: Option<string>): (sent: seq<Message>)
    ensures sent != [] ==> HasUrl(tabUrl) && !IsBrowserPage(tabUrl.value)
    ensures HasUrl(tabUrl) && !IsBrowserPage(tabUrl.value) ==> sent == NotifyIfNote(read, tabUrl.value)
  {
    if HasUrl(tabUrl) && !IsBrowserPage(tabUrl.value) then NotifyIfNote(read, tabUrl.value) else []
  }

  /** The `onUpdated` listener. */
  function OnUpdated(read: StoreRead, status: Option<string>, tabUrl: Option<string>): (sent: seq<Message>)
    ensures sent != [] ==> status == Some("complete") && HasUrl(tabUrl) && !IsBrowserPage(tabUrl.value)
    ensures status == Some("complete") && HasUrl(tabUrl) && !IsBrowserPage(tabUrl.value) ==>
      sent == NotifyIfNote(read, tabUrl.value)
  {
    if status == Some("complete") && HasUrl(tabUrl) && !IsBrowserPage(tabUrl.value)
    then NotifyIfNote(read, tabUrl.value)
    else []
  }

  /** The older worker never sends an intent prompt and never sends a whole record. */
  lemma NeverPromptsNorSendsRecords(read: StoreRead, status: Option<string>, tabUrl: Option<string>)
    ensures forall m :: m in OnActivated(read, tabUrl) + OnUpdated(read, status, tabUrl) ==>
      m.ShowNoteOverlay? && m.note.Some? && m.note.value.NoteText?
  {
  }
}
