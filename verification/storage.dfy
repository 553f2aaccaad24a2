/** The note store: a flat, ordered list of `TabNote` records kept under the single storage
    key "context-escape-hatch-notes". Each asynchronous store operation is one atomic
    transformation of the value under that key; the clock is the parameter `now`. */
module TabNotes {
  import opened Wrappers

  /** One saved note. `createdAt` and `updatedAt` are epoch milliseconds. */
  datatype TabNote = TabNote(
    id: string,
    url: string,
    title: string,
    note: string,
    createdAt: int,
    updatedAt: int)

  /** The value under the storage key: `None` while the key is absent. */
  type Store = Option<seq<TabNote>>

  /** The outcome of reading the key: `None` when the storage call rejects. */
  type StoreRead = Option<Store>

  /** The field a lookup compares, and the value it must equal exactly. */
  datatype Key = ByUrl(url: string) | ById(id: string)

  predicate Matches(n: TabNote, k: Key)
  {
    match k
    case ByUrl(u) => n.url == u
    case ById(i) => n.id == i
  }

  /** No record of `notes` matches `k`. */
  predicate NoMatch(notes: seq<TabNote>, k: Key)
  {
    forall i :: 0 <= i < |notes| ==> !Matches(notes[i], k)
  }

  /** Position `i` holds the first record of `notes` that matches `k`. */
  predicate IsFirstMatch(notes: seq<TabNote>, k: Key, i: int)
  {
    && 0 <= i < |notes|
    && Matches(notes[i], k)
    && forall j :: 0 <= j < i ==> !Matches(notes[j], k)
  }

  /** Array `findIndex` with the predicate "matches k", `None` for -1. */
  function FindIndex(notes: seq<TabNote>, k: Key): (r: Option<nat>)
    ensures r.None? <==> NoMatch(notes, k)
    ensures r.Some? ==> IsFirstMatch(notes, k, r.value)
  {
    if |notes| == 0 then None
    else if Matches(notes[0], k) then Some(0)
    else
      match FindIndex(notes[1..], k)
      case None => None
      case Some(i) => Some(i + 1)
  }

  /** Array `find` with the predicate "matches k". */
  function Find(notes: seq<TabNote>, k: Key): (r: Option<TabNote>)
    ensures r.None? <==> NoMatch(notes, k)
    ensures r.Some? ==> exists i :: IsFirstMatch(notes, k, i) && notes[i] == r.value
  {
    match FindIndex(notes, k)
    case None => None
    case Some(i) => Some(notes[i])
  }

  /** `getAllNotes`: a missing key reads as the empty list. */
  function GetAllNotes(s: Store): (r: seq<TabNote>)
    ensures s.None? ==> r == []
    ensures s.Some? ==> r == s.value
  {
    match s
    case None => []
    case Some(notes) => notes
  }

  /** `getNoteByUrl`: the first stored record whose url equals `url` exactly. */
  function GetNoteByUrl(s: Store, url: string): (r: Option<TabNote>)
    ensures r.None? <==> forall n :: n in GetAllNotes(s) ==> n.url != url
    ensures r.Some? ==> exists i :: IsFirstMatch(GetAllNotes(s), ByUrl(url), i) && GetAllNotes(s)[i] == r.value
  {
    Find(GetAllNotes(s), ByUrl(url))
  }

  /** `getNoteByTabId`: the first stored record whose id equals `id`. */
  function GetNoteByTabId(s: Store, id: string): (r: Option<TabNote>)
    ensures r.None? <==> forall n :: n in GetAllNotes(s) ==> n.id != id
    ensures r.Some? ==> exists i :: IsFirstMatch(GetAllNotes(s), ById(id), i) && GetAllNotes(s)[i] == r.value
  {
    Find(GetAllNotes(s), ById(id))
  }

  /** The record written over an existing entry: the input as given, `updatedAt` refreshed. */
  function Refreshed(n: TabNote, now: int): TabNote
  {
    n.(updatedAt := now)
  }

  /** The record appended for a new id: both timestamps set to `now`. */
  function Stamped(n: TabNote, now: int): TabNote
  {
    n.(createdAt := now, updatedAt := now)
  }

  /** `saveNote`: replace the first record with the same id in place, or append. The key is
      always written back, so an absent key becomes present. */
  function SaveNote(s: Store, n: TabNote, now: int): (r: Store)
    ensures r.Some?
    ensures NoMatch(GetAllNotes(s), ById(n.id)) ==> GetAllNotes(r) == GetAllNotes(s) + [Stamped(n, now)]
    ensures forall i :: IsFirstMatch(GetAllNotes(s), ById(n.id), i) ==>
      && |GetAllNotes(r)| == |GetAllNotes(s)|
      && GetAllNotes(r)[i] == Refreshed(n, now)
      && forall j :: 0 <= j < |GetAllNotes(s)| && j != i ==> GetAllNotes(r)[j] == GetAllNotes(s)[j]
  {
    var notes := GetAllNotes(s);
    match FindIndex(notes, ById(n.id))
    case Some(i) => Some(notes[i := Refreshed(n, now)])
    case None => Some(notes + [Stamped(n, now)])
  }

  /** Array `filter` keeping the records whose id differs from `id`. The result holds each
      such record exactly as often as `notes` does, and none other. */
  function Without(notes: seq<TabNote>, id: string): (r: seq<TabNote>)
    ensures forall i :: 0 <= i < |r| ==> r[i].id != id
    ensures forall x :: multiset(r)[x] == if x.id == id then 0 else multiset(notes)[x]
    ensures NoMatch(notes, ById(id)) ==> r == notes
  {
    if |notes| == 0 then []
    else
      assert notes == [notes[0]] + notes[1..];
      if notes[0].id == id then Without(notes[1..], id)
      else [notes[0]] + Without(notes[1..], id)
  }

  /** `deleteNote`: the filtered list is written back, so an absent key becomes present. */
  function DeleteNote(s: Store, id: string): (r: Store)
    ensures r.Some?
    ensures forall n :: n in GetAllNotes(r) ==> n.id != id
    ensures forall x :: multiset(GetAllNotes(r))[x] == if x.id == id then 0 else multiset(GetAllNotes(s))[x]
    ensures NoMatch(GetAllNotes(s), ById(id)) ==> GetAllNotes(r) == GetAllNotes(s)
  {
    Some(Without(GetAllNotes(s), id))
  }

  /** `clearAllNotes`: the key is removed. */
  function ClearAllNotes(s: Store): (r: Store)
    ensures GetAllNotes(r) == []
  {
    None
  }
}
