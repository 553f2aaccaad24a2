# Tab-intention notes: a Dafny model of the note store and overlay logic

The browser extension lets a user attach a short "intention" note to a page URL and shows
that note again, in an on-page overlay, whenever the page is revisited or its tab is
activated. This project models its logic:

- the **note store** (`src/utils/storage.ts`, and its compiled copy
  `dist/src/utils/storage.ts.js`, which is the same code statement for statement): a flat ordered list
  of `TabNote` records under one storage key, with read-all, first-match lookup by url and
  by id, upsert by id, delete by id and clear. The value under the key is
  `Option<seq<TabNote>>` (`None` = key absent) and `Date.now()` is the parameter `now`
  (module `TabNotes`; laws relating the operations in `StoreLaws`);
- the two **background workers**: `src/background/index.ts` (skip `chrome://`/`edge://`,
  then send the whole record or an intent prompt) and the older `src/background.ts` (same
  skip list, sends only the note's text and nothing when no note is stored). Each listener
  is a function from the outcome of the store read (`None` when it rejects) and the tab's state to the list of messages sent (modules
  `Background`, `LegacyBackground`; message shapes in `Messages`);
- the three **page scripts**, with the DOM abstracted to the list of elements carrying the
  overlay id, in document order (`Overlays`): the bundled `dist/src/content-script.ts.js`
  with its sticky `overlayHasShown` flag (`BundledContent`), the older
  `src/content-script.ts` that removes then re-creates (`ContentScript`), and the
  message-only `src/content/index.ts` (`ContentIndex`). Each is a state machine driven by
  messages, its own lookups and dismissals, and each keeps at most one overlay on the page;
  the bundled one creates at most one per page lifetime.
- `Wiring` states what a page shows for each of the six pairings of a background worker with a page script. The
  newer worker sends a whole record and the older one a bare string under the same
  `SHOW_NOTE_OVERLAY` type. `src/content/index.ts` reads `note.note`, so the string shape
  gives it an overlay with empty text. The two text-reading scripts set `textContent` to the
  payload itself, so the record shape shows `[object Object]`.

Three behaviours of the code are easy to misread: `deleteNote` removes every record with
the id (a `filter`), not only the first; the newer background worker sends the whole
record, not its text; and only the bundled page script ignores a show request while an
overlay is present, while the other two replace it.

## Model

| member | source | states |
|---|---|---|
| TabNotes.GetAllNotes | src/utils/storage.ts:15-18 | a missing key reads as the empty list, a present key as the stored list |
| TabNotes.FindIndex | src/utils/storage.ts:35 | `findIndex`: `None` exactly when no record matches, otherwise the position of the first matching record |
| TabNotes.Find | dist/src/utils/storage.ts.js:6-13 | `find`: none exactly when no record matches, otherwise the record at the first matching position |
| TabNotes.GetNoteByUrl | src/utils/storage.ts:21-24 | none iff no stored record has exactly that url; otherwise the first stored record with that url |
| TabNotes.GetNoteByTabId | src/utils/storage.ts:27-30 | none iff no stored record has that id; otherwise the first stored record with that id |
| TabNotes.SaveNote | src/utils/storage.ts:33-53 | key becomes present; a new id is appended as the input with both timestamps `now` after an unchanged prefix; an existing id has its first position replaced by the input with `updatedAt = now` (its `createdAt` from the input), length and every other position unchanged |
| TabNotes.Without | src/utils/storage.ts:58 | the filter keeps every record whose id differs, as often as it occurred, drops all with the id, and is the identity when the id is absent |
| TabNotes.DeleteNote | src/utils/storage.ts:56-60 | key becomes present; no record with the id remains; every other record keeps its multiplicity; an absent id leaves the list unchanged |
| TabNotes.ClearAllNotes | src/utils/storage.ts:63-65 | afterwards read-all gives the empty list |
| StoreLaws.FindIgnoresLaterRecords | dist/src/utils/storage.ts.js:6-13 | a lookup answered within a prefix is unaffected by any records after it, so a later duplicate url or id is never returned; one not answered there is answered by the suffix alone |
| StoreLaws.SaveThenGetById | src/utils/storage.ts:27-50 | after saving, lookup by the id returns the input with `updatedAt = now`, and `createdAt = now` for a new id or the input's own `createdAt` otherwise |
| StoreLaws.SaveThenGetByUrl | src/utils/storage.ts:21-53 | when no stored record has the saved url, lookup by that url after the save returns exactly the record the save left behind |
| StoreLaws.SaveKeepsEarlierUrlOwner | dist/src/utils/storage.ts.js:6-28 | when a stored record has the saved url before the position the save writes, lookup by that url still returns that earlier record |
| StoreLaws.SaveAtOrBeforeUrlOwner | src/utils/storage.ts:21-42 | editing a stored note: when the saved id is stored at or before the first record with the saved url, lookup by that url returns the input with `updatedAt = now` |
| StoreLaws.SaveTwiceSameId | src/utils/storage.ts:33-53 | saving one id twice leaves the same length as saving it once, and lookup by id returns the second save's fields |
| StoreLaws.SaveOverwritesStoredId | dist/src/utils/storage.ts.js:16-22 | for an id already stored, a second save leaves exactly the store a single save of the second record would |
| StoreLaws.WithoutConcat | dist/src/utils/storage.ts.js:31-35 | delete distributes over concatenation, so survivors keep their order |
| StoreLaws.SaveNewThenDelete | dist/src/utils/storage.ts.js:14-35 | deleting an id just saved as new restores the previous list |
| StoreLaws.DeleteRemovesId | src/utils/storage.ts:56-60 | after delete, lookup by the id finds nothing, and deleting again changes nothing |
| StoreLaws.ClearThenRead | dist/src/utils/storage.ts.js:36-38 | after clear, read-all is empty and both lookups find nothing |
| StoreLaws.SaveKeepsIdsUnique | src/utils/storage.ts:35-50 | save keeps ids unique and adds exactly the saved id to the set of ids |
| StoreLaws.SaveAllIds | src/utils/storage.ts:33-53 | a run of saves keeps ids unique and the stored ids become the old ones plus the saved ones |
| StoreLaws.SaveAllCount | src/utils/storage.ts:33-53 | a run of saves leaves one record per id ever stored or saved |
| StoreLaws.DistinctSavesCount | dist/src/utils/storage.ts.js:14-30 | N saves with pairwise distinct ids into an empty store leave N records |
| StoreLaws.SaveOrderIrrelevantToCount | dist/src/utils/storage.ts.js:16-28 | two runs of saves naming the same ids leave lists of the same length, whatever the order |
| StoreLaws.DeleteKeepsIdsUnique | dist/src/utils/storage.ts.js:31-35 | delete keeps ids unique and removes exactly that id from the set of ids |
| Messages.AsTextContent | dist/src/content-script.ts.js:41 | `textContent = payload` shows a string as itself and a record as `[object Object]` |
| Messages.NoteFieldText | src/content/index.ts:32 | `textContent = payload.note` shows the record's note, and empty text for a string payload |
| Messages.BrowserPagesAreInternal | dist/src/content-script.ts.js:109 | the four-prefix skip list contains the two-prefix one; `chrome-extension://` is skipped only by the four-prefix list |
| Background.HandleTabCheck | src/background/index.ts:4-29 | `chrome://`/`edge://` or a rejected store read sends nothing; any other url with a successful read sends exactly one message, the prompt iff no stored record has the url, otherwise the note message carrying the first matching record |
| Background.OnActivated | src/background/index.ts:32-44 | a check happens only when the tab has a url |
| Background.OnUpdated | src/background/index.ts:47-55 | a message is sent only when status is `complete` and the tab has a url, and then the check runs |
| Background.CheckSendsOneMessage | src/background/index.ts:12-25 | a non-skipped check whose read succeeds sends one note message with the found record, or one prompt when none is found |
| LegacyBackground.NotifyIfNote | src/background.ts:9-15 | at most one message; one iff the read succeeds and a stored record has the url, carrying the first such record's note text |
| LegacyBackground.OnActivated | src/background.ts:5-18 | nothing for a missing url or a `chrome://`/`edge://` url; otherwise the note notification |
| LegacyBackground.OnUpdated | src/background.ts:21-33 | sends only when status is `complete`, a url is present and it is not skipped |
| LegacyBackground.NeverPromptsNorSendsRecords | src/background.ts:10-15 | the older worker never sends a prompt and only ever sends the note's text |
| Overlays.RemoveOverlay | dist/src/content-script.ts.js:91-96 | removes the first overlay element and keeps the rest; no overlay means no change; at most one means none afterwards |
| Overlays.RemoveIdempotent | src/content-script.ts:63-68 | with at most one overlay, removing twice is removing once, and leaves none |
| BundledContent.CreateOverlay | dist/src/content-script.ts.js:3-90 | a no-op when the flag is set or an overlay exists; otherwise exactly one overlay (reminder iff requested, else the note text) and the flag set |
| BundledContent.Dismiss | dist/src/content-script.ts.js:88-96 | the element goes, the flag is never reset |
| BundledContent.OnMessage | dist/src/content-script.ts.js:97-106 | ignored once shown or while an overlay exists; otherwise only a truthy note message (shown as text) or a prompt creates an overlay |
| BundledContent.CheckForNotes | dist/src/content-script.ts.js:107-124 | the four internal prefixes do nothing; otherwise the first matching note's text, or the reminder iff no stored record has the url |
| BundledContent.Step | dist/src/content-script.ts.js:97-134 | a step never clears the flag and grows the page only from an unblocked state, to one overlay |
| BundledContent.AtMostOneOverlayPerPage | dist/src/content-script.ts.js:2-6 | any run of messages, checks and dismissals creates at most one overlay, and none once the flag is set |
| BundledContent.RunKeepsAtMostOne | dist/src/content-script.ts.js:125-134 | a page with at most one overlay keeps at most one |
| BundledContent.ShownThenDismissedStaysEmpty | dist/src/content-script.ts.js:88-100 | once shown and dismissed, no event shows an overlay again |
| ContentScript.CreateOverlay | src/content-script.ts:6-60 | removes the present overlay then appends; the newest overlay shows the text; with at most one before, exactly that one after |
| ContentScript.OnMessage | src/content-script.ts:71-75 | only a truthy note message changes the page, showing `message.note` as text |
| ContentScript.InitialCheck | src/content-script.ts:78-92 | browser pages and urls without a note are untouched; otherwise one overlay with the first matching note's text; never a reminder |
| ContentScript.RunKeepsAtMostOneNote | src/content-script.ts:6-92 | every run keeps at most one overlay and never shows a reminder |
| ContentIndex.CreateOverlay | src/content/index.ts:4-58 | removes the present overlay and returns a note element showing `note.note` |
| ContentIndex.CreateIntentPrompt | src/content/index.ts:61-115 | removes the present overlay and returns a reminder element |
| ContentIndex.OnMessage | src/content/index.ts:126-137 | responds iff a truthy note message or a prompt arrived, and then exactly the requested overlay is present; any other message changes nothing; always keeps the channel open |
| ContentIndex.RunKeepsAtMostOne | src/content/index.ts:118-137 | a page with at most one overlay keeps at most one |
| ContentIndex.ShowReplacesPrevious | src/content/index.ts:127-134 | a handled message leaves exactly one overlay, and repeating it changes nothing |
| Wiring.RecordSenderWithRecordReader | src/background/index.ts:16-19 | newer worker to `src/content/index.ts`: the first matching note's text, or the reminder |
| Wiring.TextSenderWithTextReader | src/background.ts:11-14 | older worker to `src/content-script.ts`: a non-empty note shows as itself |
| Wiring.TextSenderWithBundledReader | dist/src/content-script.ts.js:101-102 | older worker to the bundled script on a fresh page: a non-empty note shows as itself |
| Wiring.TextSenderWithRecordReader | src/content/index.ts:32 | older worker to `src/content/index.ts`: a non-empty note shows as an overlay with empty text |
| Wiring.LegacyIsNewerWithoutPrompt | src/background.ts:5-33 | on every activation or update the older worker sends a message iff the newer one sends a note message, carrying that record's note text, and never more messages |
| Wiring.RecordSenderWithTextReaders | src/content-script.ts:72-73 | newer worker to either text-reading script: the overlay shows `[object Object]` |

## Left out

- `src/components/Popup.tsx`: React state, rendering and its `chrome.tabs`/`chrome.scripting` calls. Its store use goes through the modelled store functions. Its injected overlay reuses the overlay id; this is the one way a page can hold more than one overlay element, and is why the overlay contracts are stated for pages with any number of elements.
- `dist/assets/content-script.ts-loader-*.js`: bundler loaders with timing instrumentation and no logic.
- DOM construction, inline styles, titles and button labels: an overlay is only "note overlay showing text" or "reminder".
- `setTimeout` delays: the background workers' one- and two-second waits and the page scripts' one- and two-second checks. The store a delayed check sees is a parameter. The five-, six- and ten-second auto-dismiss timers are `Dismissed` events, like the dismiss buttons.
- The bundled script's "Add Intent" button sends `OPEN_POPUP`. Only its `removeOverlay` is modelled, as a `Dismissed` event. The worker that opens the popup is not part of this model.
- `chrome.storage` serialisation and asynchrony: each store operation is one atomic step; the read-modify-write race between contexts (last write wins) is concurrency and is not modelled.
- `Date.now()` is the parameter `now`; both timestamps of an appended record come from the same reading.
- `console` logging is left out. A rejected store read in a background worker is the `None` read and sends nothing, whether caught (newer worker) or not (older worker). A failing `chrome.tabs.get` is a tab without a url. A failed lookup in a page script is caught and changes nothing; it is modelled as the `Checked` event not occurring.
- The object spread `{...note}` copies any extra properties of the input; records here have exactly the six `TabNote` fields.
