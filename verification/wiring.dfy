/** What a page shows when a background worker's message reaches a page script, for each
    of the six pairings of the two workers with the three page scripts. A whole record and a bare
    string both travel under SHOW_NOTE_OVERLAY; only the pairings that agree on the shape
    show the note's text. */
module Wiring {
  import opened Wrappers
  import opened TabNotes
  import opened Messages
  import opened Overlays
  import Background
  import LegacyBackground
  import ContentIndex
  import ContentScript
  import BundledContent

  /** src/background/index.ts with src/content/index.ts: the note's text, or the prompt. */
  lemma RecordSenderWithRecordReader(store: Store, url: string)
    requires !IsBrowserPage(url)
    ensures GetNoteByUrl(store, url).Some? ==>
      ContentIndex.OnMessage([], Background.HandleTabCheck(Some(store), url)[0]).page
        == [NoteOverlay(GetNoteByUrl(store, url).value.note)]
    ensures GetNoteByUrl(store, url).None? ==>
      ContentIndex.OnMessage([], Background.HandleTabCheck(Some(store), url)[0]).page == [ReminderOverlay]
  {
  }

  /** src/background.ts with src/content-script.ts: a non-empty note shows as itself. */
  lemma TextSenderWithTextReader(store: Store, url: string, n: TabNote)
    ensures GetNoteByUrl(store, url) == Some(n) && n.note != "" ==>
      ContentScript.OnMessage([], LegacyBackground.NotifyIfNote(Some(store), url)[0]) == [NoteOverlay(n.note)]
  {
    if GetNoteByUrl(store, url) == Some(n) {
      var m := ShowNoteOverlay(Some(NoteText(n.note)));
      assert LegacyBackground.NotifyIfNote(Some(store), url) == [m];
      assert CarriesTruthyNote(m) <==> n.note != "";
    }
  }

  /** src/background.ts with dist/src/content-script.ts.js: a non-empty note shows as
      itself on a fresh page. */
  lemma TextSenderWithBundledReader(store: Store, url: string, n: TabNote)
    ensures GetNoteByUrl(store, url) == Some(n) && n.note != "" ==>
      BundledContent.OnMessage(BundledContent.Fresh, LegacyBackground.NotifyIfNote(Some(store), url)[0]).page
        == [NoteOverlay(n.note)]
  {
    if GetNoteByUrl(store, url) == Some(n) {
      var m := ShowNoteOverlay(Some(NoteText(n.note)));
      assert LegacyBackground.NotifyIfNote(Some(store), url) == [m];
      assert CarriesTruthyNote(m) <==> n.note != "";
    }
  }

  /** src/background.ts with src/content/index.ts: the string has no `note` property, so a
      non-empty note is shown as an overlay with empty text. */
  lemma TextSenderWithRecordReader(store: Store, url: string, n: TabNote)
    ensures GetNoteByUrl(store, url) == Some(n) && n.note != "" ==>
      ContentIndex.OnMessage([], LegacyBackground.NotifyIfNote(Some(store), url)[0]).page == [NoteOverlay("")]
  {
  }

  /** src/background/index.ts with either text-reading script: the record is shown as
      "[object Object]" instead of the note. */
  lemma RecordSenderWithTextReaders(store: Store, url: string, n: TabNote)
    ensures !IsBrowserPage(url) && GetNoteByUrl(store, url) == Some(n) ==>
      ContentScript.OnMessage([], Background.HandleTabCheck(Some(store), url)[0]) == [NoteOverlay("[object Object]")]
    ensures !IsBrowserPage(url) && GetNoteByUrl(store, url) == Some(n) ==>
      BundledContent.OnMessage(BundledContent.Fresh, Background.HandleTabCheck(Some(store), url)[0]).page
        == [NoteOverlay("[object Object]")]
  {
  }

  /** The older worker is the newer one with the prompt dropped and the record cut down to
      its text: on every event it sends a message iff the newer one sends a note, and that
      message carries the text of the record the newer one sends. */
  lemma LegacyIsNewerWithoutPrompt(read: StoreRead, status: Option<string>, tabUrl: Option<string>)
    ensures |LegacyBackground.OnActivated(read, tabUrl)| <= |Background.OnActivated(read, tabUrl)|
    ensures LegacyBackground.OnActivated(read, tabUrl) != [] <==>
      Background.OnActivated(read, tabUrl) != [] && Background.OnActivated(read, tabUrl)[0].ShowNoteOverlay?
    ensures LegacyBackground.OnActivated(read, tabUrl) != [] ==>
      LegacyBackground.OnActivated(read, tabUrl)[0].note.value.text
        == Background.OnActivated(read, tabUrl)[0].note.value.record.note
    ensures LegacyBackground.OnUpdated(read, status, tabUrl) != [] <==>
      Background.OnUpdated(read, status, tabUrl) != [] && Background.OnUpdated(read, status, tabUrl)[0].ShowNoteOverlay?
    ensures LegacyBackground.OnUpdated(read, status, tabUrl) != [] ==>
      LegacyBackground.OnUpdated(read, status, tabUrl)[0].note.value.text
        == Background.OnUpdated(read, status, tabUrl)[0].note.value.record.note
  {
  }
}
