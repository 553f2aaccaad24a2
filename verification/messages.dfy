/** Messages exchanged between the background worker and the page script, and the URL
    rules both sides use to skip browser-internal pages. */
module Messages {
  import opened Wrappers
  import opened TabNotes

  /** What a SHOW_NOTE_OVERLAY message carries in its `note` field: the whole stored
      record (newer background worker) or just its text (older background worker). */
  datatype Payload = NoteRecord(record: TabNote) | NoteText(text: string)

  /** A message by its `type` field; `Other` is any type none of the scripts handles. */
  datatype Message =
    | ShowNoteOverlay(note: Option<Payload>)
    | ShowIntentPrompt
    | OpenPopup
    | Other

  /** JavaScript truthiness of `message.type === 'SHOW_NOTE_OVERLAY' && message.note`:
      a record is always truthy, a string only when non-empty, a missing field never. */
  predicate CarriesTruthyNote(m: Message)
  {
    && m.ShowNoteOverlay?
    && m.note.Some?
    && (m.note.value.NoteText? ==> m.note.value.text != "")
  }

  /** The text an element shows after `textContent = payload`: a string shows as itself,
      an object converts to "[object Object]". */
  function AsTextContent(p: Payload): (r: string)
    ensures p.NoteText? ==> r == p.text
    ensures p.NoteRecord? ==> r == "[object Object]"
  {
    match p
    case NoteText(t) => t
    case NoteRecord(_) => "[object Object]"
  }

  /** The text an element shows after `textContent = payload.note`: the record's note; a
      string has no `note` property, and `undefined` shows as the empty string. */
  function NoteFieldText(p: Payload): (r: string)
    ensures p.NoteRecord? ==> r == p.record.note
    ensures p.NoteText? ==> r == ""
  {
    match p
    case NoteRecord(n) => n.note
    case NoteText(_) => ""
  }

  /** `s.startsWith(prefix)`. */
  predicate StartsWith(s: string, prefix: string)
  {
    |prefix| <= |s| && s[..|prefix|] == prefix
  }

  /** The two-prefix skip list of the background workers and the older page script. */
  predicate IsBrowserPage(url: string)
  {
    StartsWith(url, "chrome://") || StartsWith(url, "edge://")
  }

  /** The four-prefix skip list of the bundled page script. */
  predicate IsInternalPage(url: string)
  {
    || StartsWith(url, "chrome://")
    || StartsWith(url, "edge://")
    || StartsWith(url, "chrome-extension://")
    || StartsWith(url, "about:")
  }

  /** JavaScript truthiness of `tab.url`: present and non-empty. */
  predicate HasUrl(url: Option<string>)
  {
    url.Some? && url.value != ""
  }

  /** The four-prefix list extends the two-prefix list. */
  lemma BrowserPagesAreInternal(url: string)
    ensures IsBrowserPage(url) ==> IsInternalPage(url)
    ensures StartsWith(url, "chrome-extension://") ==> !IsBrowserPage(url) && IsInternalPage(url)
  {
    if StartsWith(url, "chrome-extension://") {
      assert url[6] == '-';
      assert !StartsWith(url, "chrome://") by { assert "chrome://"[6] == ':'; }
    }
  }
}
