/** The page as the overlay managers see it. All DOM construction and styling is abstracted
    away; what remains is the list of elements that carry the id
    "context-escape-hatch-overlay", in document order, and what each one shows. */
module Overlays {

  /** A note overlay showing some text, or the "no intent saved" reminder. */
  datatype Overlay = NoteOverlay(text: string) | ReminderOverlay

  /** The overlay elements present in the page, in document order. */
  type Page = seq<Overlay>

  /** `removeOverlay`: `getElementById` finds the first overlay element, which is removed;
      with no overlay present nothing changes. */
  function RemoveOverlay(page: Page): (r: Page)
    ensures |page| <= 1 ==> r == []
    ensures page == [] ==> r == page
    ensures page != [] ==> |r| == |page| - 1 && forall i :: 0 <= i < |r| ==> r[i] == page[i + 1]
  {
    if page == [] then page else page[1..]
  }

  /** On a page with at most one overlay, removing is idempotent. */
  lemma RemoveIdempotent(page: Page)
    requires |page| <= 1
    ensures RemoveOverlay(RemoveOverlay(page)) == RemoveOverlay(page) == []
  {
  }
}
