/** The page script src/content/index.ts: purely message-driven. The builders remove the
    present overlay and return a new element, which the listener then appends. */
module ContentIndex {
  import opened Wrappers
  import opened TabNotes
  import opened Messages
  import opened Overlays

  /** A builder's effect: the page after its `removeOverlay`, and the element it returns. */
  datatype Built = Built(page: Page, element: Overlay)

  /** `createOverlay(note)`: the element shows `note.note`. */
  function CreateOverlay(page: Page, note: Payload): (r: Built)
    ensures |page| <= 1 ==> r.page == []
    ensures r.page == RemoveOverlay(page)
    ensures r.element.NoteOverlay? && r.element.text == NoteFieldText(note)
  {
    Built(RemoveOverlay(page), NoteOverlay(NoteFieldText(note)))
  }

  /** `createIntentPrompt()`: the element is the reminder. */
  function CreateIntentPrompt(page: Page): (r: Built)
    ensures |page| <= 1 ==> r.page == []
    ensures r.page == RemoveOverlay(page)
    ensures r.element == ReminderOverlay
  {
    Built(RemoveOverlay(page), ReminderOverlay)
  }

  /** What the listener leaves behind: the page, whether `sendResponse({success: true})`
      was called, and the listener's return value. */
  datatype Handled = Handled(page: Page, responded: bool, keepsChannelOpen: bool)

  function Append(b: Built): Page
  {
    b.page + [b.element]
  }

  /** The message listener. */
  function OnMessage(page: Page, m: Message): (r: Handled)
    ensures r.keepsChannelOpen
    ensures r.responded <==> CarriesTruthyNote(m) || m.ShowIntentPrompt?
    ensures !r.responded ==> r.page == page
    ensures r.responded ==> |r.page| == (if page == [] then 1 else |page|)
    ensures CarriesTruthyNote(m) && |page| <= 1 ==> r.page == [NoteOverlay(NoteFieldText(m.note.value))]
    ensures m.ShowIntentPrompt? && |page| <= 1 ==> r.page == [ReminderOverlay]
  {
    if CarriesTruthyNote(m) then Handled(Append(CreateOverlay(page, m.note.value)), true, true)
    else if m.ShowIntentPrompt? then Handled(Append(CreateIntentPrompt(page)), true, true)
    else Handled(page, false, true)
  }

  /** A message, or a removal (close button or the five-second timer). */
  datatype Event = Received(message: Message) | Dismissed

  function Step(page: Page, e: Event): (r: Page)
    ensures |page| <= 1 ==> |r| <= 1
  {
    match e
    case Received(m) => OnMessage(page, m).page
    case Dismissed => RemoveOverlay(page)
  }

  function Run(page: Page, events: seq<Event>): Page
    decreases |events|
  {
    if |events| == 0 then page else Run(Step(page, events[0]), events[1..])
  }

  /** From a page with at most one overlay, every run keeps at most one. */
  lemma {:induction false} RunKeepsAtMostOne(page: Page, events: seq<Event>)
    requires |page| <= 1
    ensures |Run(page, events)| <= 1
    decreases |events|
  {
    if |events| > 0 {
      RunKeepsAtMostOne(Step(page, events[0]), events[1..]);
    }
  }

  /** After a handled message the page holds exactly the overlay asked for, whatever was
      shown before. */
  lemma ShowReplacesPrevious(page: Page, m: Message)
    requires |page| <= 1
    requires CarriesTruthyNote(m) || m.ShowIntentPrompt?
    ensures |OnMessage(page, m).page| == 1
    ensures OnMessage(OnMessage(page, m).page, m).page == OnMessage(page, m).page
  {
  }
}
