/** The bundled page script dist/src/content-script.ts.js. A module-level flag
    `overlayHasShown` is set by the first overlay and never cleared, so a page shows at
    most one overlay in its lifetime. */
module BundledContent {
  import opened Wrappers
  import opened TabNotes
  import opened Messages
  import opened Overlays

  datatype State = State(hasShown: bool, page: Page)

  /** A freshly loaded page: nothing shown yet. */
  const Fresh := State(false, [])

  /** The guard shared by `createOverlay` and the message listener. */
  predicate Blocked(st: State)
  {
    st.hasShown || st.page != []
  }

  /** `createOverlay(note, isReminder)`: a no-op while blocked; otherwise appends the
      overlay and sets the flag. */
  function CreateOverlay(st: State, note: string, isReminder: bool): (r: State)
    ensures Blocked(st) ==> r == st
    ensures !Blocked(st) ==> r.hasShown && |r.page| == 1
    ensures !Blocked(st) ==> (r.page[0] == ReminderOverlay <==> isReminder)
    ensures !Blocked(st) && !isReminder ==> r.page[0] == NoteOverlay(note)
  {
    if Blocked(st) then st
    else State(true, st.page + [if isReminder then ReminderOverlay else NoteOverlay(note)])
  }

  /** `removeOverlay`, reached from the dismiss buttons, the "Add Intent" button and the
      six-second timer: the element goes, the flag stays. */
  function Dismiss(st: State): (r: State)
    ensures r.hasShown == st.hasShown
    ensures |st.page| <= 1 ==> r.page == []
    ensures st.page == [] ==> r == st
  {
    State(st.hasShown, RemoveOverlay(st.page))
  }

  /** The message listener: ignored while blocked; otherwise a truthy SHOW_NOTE_OVERLAY
      shows `message.note` as text and SHOW_INTENT_PROMPT shows the reminder. */
  function OnMessage(st: State, m: Message): (r: State)
    ensures Blocked(st) ==> r == st
    ensures r != st ==> CarriesTruthyNote(m) || m.ShowIntentPrompt?
    ensures !Blocked(st) && CarriesTruthyNote(m) ==> r == State(true, [NoteOverlay(AsTextContent(m.note.value))])
    ensures !Blocked(st) && m.ShowIntentPrompt? ==> r == State(true, [ReminderOverlay])
  {
    if Blocked(st) then st
    else if CarriesTruthyNote(m) then CreateOverlay(st, AsTextContent(m.note.value), false)
    else if m.ShowIntentPrompt? then CreateOverlay(st, "", true)
    else st
  }

  /** `checkForNotes`, run after DOMContentLoaded and again after load: skip internal
      pages; otherwise the stored note's text, or the reminder when none is stored. */
  function CheckForNotes(st: State, store: Store, url: string): (r: State)
    ensures IsInternalPage(url) || Blocked(st) ==> r == st
    ensures !IsInternalPage(url) && !Blocked(st) ==>
      && r.hasShown && |r.page| == 1
      && (r.page[0] == ReminderOverlay <==> forall n :: n in GetAllNotes(store) ==> n.url != url)
      && (r.page[0].NoteOverlay? ==>
            exists i :: IsFirstMatch(GetAllNotes(store), ByUrl(url), i) && r.page[0].text == GetAllNotes(store)[i].note)
  {
    if IsInternalPage(url) then st
    else
      match GetNoteByUrl(store, url)
      case Some(n) => CreateOverlay(st, n.note, false)
      case None => CreateOverlay(st, "", true)
  }

  /** What can happen to the page after it loads. */
  datatype Event =
    | Received(message: Message)
    | Checked(store: Store, url: string)
    | Dismissed

  function Step(st: State, e: Event): (r: State)
    ensures st.hasShown ==> r.hasShown
    ensures |r.page| <= |st.page| || (!Blocked(st) && r.hasShown && |r.page| == 1)
  {
    match e
    case Received(m) => OnMessage(st, m)
    case Checked(store, url) => CheckForNotes(st, store, url)
    case Dismissed => Dismiss(st)
  }

  function Run(st: State, events: seq<Event>): State
    decreases |events|
  {
    if |events| == 0 then st else Run(Step(st, events[0]), events[1..])
  }

  /** How many steps of the run add an overlay to the page. */
  function Creations(st: State, events: seq<Event>): nat
    decreases |events|
  {
    if |events| == 0 then 0
    else
      var next := Step(st, events[0]);
      (if |next.page| > |st.page| then 1 else 0) + Creations(next, events[1..])
  }

  /** At most one overlay is ever created on a page, however many checks and messages
      arrive, and none once one has been shown. */
  lemma {:induction false} AtMostOneOverlayPerPage(st: State, events: seq<Event>)
    ensures Creations(st, events) <= 1
    ensures st.hasShown ==> Creations(st, events) == 0
    decreases |events|
  {
    if |events| > 0 {
      AtMostOneOverlayPerPage(Step(st, events[0]), events[1..]);
    }
  }

  /** A page holding at most one overlay keeps holding at most one. */
  lemma {:induction false} RunKeepsAtMostOne(st: State, events: seq<Event>)
    requires |st.page| <= 1
    ensures |Run(st, events).page| <= 1
    decreases |events|
  {
    if |events| > 0 {
      RunKeepsAtMostOne(Step(st, events[0]), events[1..]);
    }
  }

  /** Once an overlay has been shown and dismissed, nothing brings one back. */
  lemma {:induction false} ShownThenDismissedStaysEmpty(st: State, events: seq<Event>)
    requires st.hasShown && st.page == []
    ensures Run(st, events) == st
    decreases |events|
  {
    if |events| > 0 {
      ShownThenDismissedStaysEmpty(Step(st, events[0]), events[1..]);
    }
  }
}
