/** The older page script src/content-script.ts: every show request first removes the
    overlay present, then appends a note overlay. It never shows a reminder. */
module ContentScript {
  import opened Wrappers
  import opened TabNotes
  import opened Messages
  import opened Overlays

  /** `createOverlay(note)`: remove the present overlay, then append one showing `text`. */
  function CreateOverlay(page: Page, text: string): (r: Page)
    ensures |r| == if page == [] then 1 else |page|
    ensures r[|r| - 1] == NoteOverlay(text)
    ensures |page| <= 1 ==> r == [NoteOverlay(text)]
    ensures forall o :: o in r && o != NoteOverlay(text) ==> o in page
  {
    RemoveOverlay(page) + [NoteOverlay(text)]
  }

  /** The message listener: only a truthy SHOW_NOTE_OVERLAY does anything, and it shows
      `message.note` as text. */
  function OnMessage(page: Page, m: Message): (r: Page)
    ensures !CarriesTruthyNote(m) ==> r == page
    ensures CarriesTruthyNote(m) && |page| <= 1 ==> r == [NoteOverlay(AsTextContent(m.note.value))]
    ensures ReminderOverlay in r ==> ReminderOverlay in page
  {
    if CarriesTruthyNote(m) then CreateOverlay(page, AsTextContent(m.note.value)) else page
  }

  /** The check two seconds after injection: skip browser pages, show the stored note's text
      when there is one, otherwise nothing. */
  function InitialCheck(page: Page, store: Store, url: string): (r: Page)
    ensures IsBrowserPage(url) ==> r == page
    ensures (forall n :: n in GetAllNotes(store) ==> n.url != url) ==> r == page
    ensures ReminderOverlay in r ==> ReminderOverlay in page
    ensures !IsBrowserPage(url) && |page| <= 1 && (exists n :: n in GetAllNotes(store) && n.url == url) ==>
      |r| == 1 &&
      exists i :: IsFirstMatch(GetAllNotes(store), ByUrl(url), i) && r[0] == NoteOverlay(GetAllNotes(store)[i].note)
  {
    if IsBrowserPage(url) then page
    else
      match GetNoteByUrl(store, url)
      case Some(n) => CreateOverlay(page, n.note)
      case None => page
  }

  datatype Event =
    | Received(message: Message)
    | Checked(store: Store, url: string)
    | Dismissed

  function Step(page: Page, e: Event): (r: Page)
    ensures |page| <= 1 ==> |r| <= 1
    ensures ReminderOverlay in r ==> ReminderOverlay in page
  {
    match e
    case Received(m) => OnMessage(page, m)
    case Checked(store, url) => InitialCheck(page, store, url)
    case Dismissed => RemoveOverlay(page)
  }

  function Run(page: Page, events: seq<Event>): Page
    decreases |events|
  {
    if |events| == 0 then page else Run(Step(page, events[0]), events[1..])
  }

  /** From a page with at most one overlay, every run keeps at most one, and no reminder
      ever appears. */
  lemma {:induction false} RunKeepsAtMostOneNote(page: Page, events: seq<Event>)
    requires |page| <= 1 && ReminderOverlay !in page
    ensures |Run(page, events)| <= 1
    ensures ReminderOverlay !in Run(page, events)
    decreases |events|
  {
    if |events| > 0 {
      RunKeepsAtMostOneNote(Step(page, events[0]), events[1..]);
    }
  }
}
