/** Laws relating the note-store operations to each other: where an upsert lands, what a
    later lookup sees, how delete undoes an insert, and how many records a run of saves
    leaves behind. */
module StoreLaws {
  import opened Wrappers
  import opened TabNotes

  /** Two positions that are both "the first match" are the same position. */
  lemma FirstMatchUnique(notes: seq<TabNote>, k: Key, i: int, j: int)
    requires IsFirstMatch(notes, k, i) && IsFirstMatch(notes, k, j)
    ensures i == j
  {
  }

  /** A lookup that can be answered inside `xs` ignores everything after it, so a later
      record with the same url (or id) is never the one returned; one that cannot be
      answered inside `xs` is answered by `ys` alone. */
  lemma {:induction false} FindIgnoresLaterRecords(xs: seq<TabNote>, ys: seq<TabNote>, k: Key)
    ensures !NoMatch(xs, k) ==> Find(xs + ys, k) == Find(xs, k)
    ensures NoMatch(xs, k) ==> Find(xs + ys, k) == Find(ys, k)
  {
    var zs := xs + ys;
    if !NoMatch(xs, k) {
      var i := FindIndex(xs, k).value;
      assert IsFirstMatch(zs, k, i);
      FirstMatchUnique(zs, k, i, FindIndex(zs, k).value);
    } else if NoMatch(ys, k) {
      assert NoMatch(zs, k) by {
        forall p | 0 <= p < |zs| ensures !Matches(zs[p], k) {
          if p >= |xs| { assert zs[p] == ys[p - |xs|]; }
        }
      }
    } else {
      var i := FindIndex(ys, k).value;
      assert IsFirstMatch(zs, k, |xs| + i) by {
        forall p | 0 <= p < |xs| + i ensures !Matches(zs[p], k) {
          if p >= |xs| { assert zs[p] == ys[p - |xs|]; }
        }
      }
      FirstMatchUnique(zs, k, |xs| + i, FindIndex(zs, k).value);
    }
  }

  /** The record `saveNote` leaves behind for the saved id. */
  function SavedRecord(s: Store, n: TabNote, now: int): TabNote
  {
    if NoMatch(GetAllNotes(s), ById(n.id)) then Stamped(n, now) else Refreshed(n, now)
  }

  /** Round trip: after `saveNote(n)`, `getNoteByTabId(n.id)` returns `n` with `updatedAt`
      refreshed; `createdAt` is `now` for a new id and the caller's value otherwise. */
  lemma {:induction false} SaveThenGetById(s: Store, n: TabNote, now: int)
    ensures GetNoteByTabId(SaveNote(s, n, now), n.id) == Some(SavedRecord(s, n, now))
    ensures GetNoteByTabId(SaveNote(s, n, now), n.id).value.updatedAt == now
    ensures NoMatch(GetAllNotes(s), ById(n.id)) ==> GetNoteByTabId(SaveNote(s, n, now), n.id).value.createdAt == now
    ensures !NoMatch(GetAllNotes(s), ById(n.id)) ==> GetNoteByTabId(SaveNote(s, n, now), n.id).value.createdAt == n.createdAt
  {
  }

  /** Round trip by url: when no stored record has the saved url yet, `getNoteByUrl` on
      that url returns exactly the record `saveNote` left behind. */
  lemma SaveThenGetByUrl(s: Store, n: TabNote, now: int)
    requires NoMatch(GetAllNotes(s), ByUrl(n.url))
    ensures GetNoteByUrl(SaveNote(s, n, now), n.url) == Some(SavedRecord(s, n, now))
  {
  }

  /** The converse: when a stored record already has the saved url at a position before
      the one the save writes, `getNoteByUrl` keeps returning that earlier record. */
  lemma SaveKeepsEarlierUrlOwner(s: Store, n: TabNote, now: int, j: nat)
    requires IsFirstMatch(GetAllNotes(s), ByUrl(n.url), j)
    requires forall i :: IsFirstMatch(GetAllNotes(s), ById(n.id), i) ==> j < i
    ensures GetNoteByUrl(SaveNote(s, n, now), n.url) == Some(GetAllNotes(s)[j])
  {
    var notes := GetAllNotes(s);
    var after := GetAllNotes(SaveNote(s, n, now));
    var k := ByUrl(n.url);
    match FindIndex(notes, ById(n.id))
    case None =>
      assert after == notes + [Stamped(n, now)];
      FindIgnoresLaterRecords(notes, [Stamped(n, now)], k);
      FirstMatchUnique(notes, k, j, FindIndex(notes, k).value);
    case Some(i) =>
      assert IsFirstMatch(after, k, j) by {
        forall p | 0 <= p <= j ensures after[p] == notes[p] { }
      }
      FirstMatchUnique(after, k, j, FindIndex(after, k).value);
  }

  /** Editing a stored note: when the saved id is stored at or before the first record
      with the saved url, `getNoteByUrl` on that url returns the revised record. */
  lemma SaveAtOrBeforeUrlOwner(s: Store, n: TabNote, now: int, i: nat)
    requires IsFirstMatch(GetAllNotes(s), ById(n.id), i)
    requires forall j :: IsFirstMatch(GetAllNotes(s), ByUrl(n.url), j) ==> i <= j
    ensures GetNoteByUrl(SaveNote(s, n, now), n.url) == Some(Refreshed(n, now))
  {
    var notes := GetAllNotes(s);
    var after := GetAllNotes(SaveNote(s, n, now));
    var k := ByUrl(n.url);
    FirstMatchUnique(notes, ById(n.id), i, FindIndex(notes, ById(n.id)).value);
    var owner := FindIndex(notes, k);
    assert owner.Some? ==> i <= owner.value;
    assert IsFirstMatch(after, k, i) by {
      forall p | 0 <= p < i ensures after[p] == notes[p] { }
    }
    FirstMatchUnique(after, k, i, FindIndex(after, k).value);
  }

  /** Saving the same id twice leaves as many records as saving it once, and the second
      save's url, title and note are what a lookup by id returns. */
  lemma SaveTwiceSameId(s: Store, n1: TabNote, t1: int, n2: TabNote, t2: int)
    requires n1.id == n2.id
    ensures |GetAllNotes(SaveNote(SaveNote(s, n1, t1), n2, t2))| == |GetAllNotes(SaveNote(s, n1, t1))|
    ensures GetNoteByTabId(SaveNote(SaveNote(s, n1, t1), n2, t2), n2.id) == Some(Refreshed(n2, t2))
  {
    SaveThenGetById(s, n1, t1);
    var mid := SaveNote(s, n1, t1);
    assert !NoMatch(GetAllNotes(mid), ById(n2.id));
    SaveThenGetById(mid, n2, t2);
  }

  /** Once an id is stored, a second save of that id overwrites the first completely: the
      store ends up exactly as if only the second save had happened. */
  lemma SaveOverwritesStoredId(s: Store, n1: TabNote, t1: int, n2: TabNote, t2: int)
    requires n1.id == n2.id
    requires !NoMatch(GetAllNotes(s), ById(n1.id))
    ensures SaveNote(SaveNote(s, n1, t1), n2, t2) == SaveNote(s, n2, t2)
  {
    var k := ById(n1.id);
    var notes := GetAllNotes(s);
    var i := FindIndex(notes, k).value;
    var mid := notes[i := Refreshed(n1, t1)];
    assert SaveNote(s, n1, t1) == Some(mid);
    assert IsFirstMatch(mid, k, i);
    FirstMatchUnique(mid, k, i, FindIndex(mid, k).value);
    assert FindIndex(mid, k) == Some(i);
    assert mid[i := Refreshed(n2, t2)] == notes[i := Refreshed(n2, t2)];
  }

  /** Filtering distributes over concatenation: `deleteNote` keeps the surviving records in
      their original order. */
  lemma {:induction false} WithoutConcat(xs: seq<TabNote>, ys: seq<TabNote>, id: string)
    ensures Without(xs + ys, id) == Without(xs, id) + Without(ys, id)
  {
    if |xs| == 0 {
      assert xs + ys == ys;
    } else {
      assert (xs + ys)[1..] == xs[1..] + ys;
      WithoutConcat(xs[1..], ys, id);
    }
  }

  /** Deleting an id that was just saved as new restores the list that was there before. */
  lemma SaveNewThenDelete(s: Store, n: TabNote, now: int)
    requires NoMatch(GetAllNotes(s), ById(n.id))
    ensures GetAllNotes(DeleteNote(SaveNote(s, n, now), n.id)) == GetAllNotes(s)
  {
    WithoutConcat(GetAllNotes(s), [Stamped(n, now)], n.id);
  }

  /** After `deleteNote(id)` no lookup by id finds a record, and deleting again changes
      nothing. */
  lemma DeleteRemovesId(s: Store, id: string)
    ensures GetNoteByTabId(DeleteNote(s, id), id) == None
    ensures DeleteNote(DeleteNote(s, id), id) == DeleteNote(s, id)
  {
  }

  /** After `clearAllNotes`, reading everything gives the empty list and no lookup succeeds. */
  lemma ClearThenRead(s: Store, url: string, id: string)
    ensures GetAllNotes(ClearAllNotes(s)) == []
    ensures GetNoteByUrl(ClearAllNotes(s), url) == None
    ensures GetNoteByTabId(ClearAllNotes(s), id) == None
  {
  }

  /** Every id occurs at most once in the list. */
  predicate UniqueIds(notes: seq<TabNote>)
  {
    forall i, j :: 0 <= i < j < |notes| ==> notes[i].id != notes[j].id
  }

  function Ids(notes: seq<TabNote>): set<string>
  {
    set i | 0 <= i < |notes| :: notes[i].id
  }

  lemma IdsSplit(notes: seq<TabNote>)
    requires |notes| > 0
    ensures Ids(notes) == {notes[0].id} + Ids(notes[1..])
  {
  }

  /** With unique ids there is one record per id. */
  lemma {:induction false} UniqueIdsCount(notes: seq<TabNote>)
    requires UniqueIds(notes)
    ensures |Ids(notes)| == |notes|
  {
    if |notes| > 0 {
      var tail := notes[1..];
      IdsSplit(notes);
      forall p | 0 <= p < |tail| ensures tail[p].id != notes[0].id {
        assert tail[p] == notes[p + 1];
      }
      UniqueIdsCount(tail);
    }
  }

  /** `saveNote` keeps ids unique and adds exactly the saved id to the set of ids. */
  lemma SaveKeepsIdsUnique(s: Store, n: TabNote, now: int)
    requires UniqueIds(GetAllNotes(s))
    ensures UniqueIds(GetAllNotes(SaveNote(s, n, now)))
    ensures Ids(GetAllNotes(SaveNote(s, n, now))) == Ids(GetAllNotes(s)) + {n.id}
  {
    var notes := GetAllNotes(s);
    var after := GetAllNotes(SaveNote(s, n, now));
    if NoMatch(notes, ById(n.id)) {
      assert after == notes + [Stamped(n, now)];
      assert Ids(after) == Ids(notes) + {n.id} by {
        forall x | x in Ids(after) ensures x in Ids(notes) + {n.id} {
          var p :| 0 <= p < |after| && after[p].id == x;
          if p < |notes| { assert notes[p].id == x; }
        }
        assert after[|notes|].id == n.id;
        forall x | x in Ids(notes) ensures x in Ids(after) {
          var p :| 0 <= p < |notes| && notes[p].id == x;
          assert after[p].id == x;
        }
      }
    } else {
      var i := FindIndex(notes, ById(n.id)).value;
      assert forall p :: 0 <= p < |after| ==> after[p].id == notes[p].id;
      assert Ids(after) == Ids(notes) by {
        forall x | x in Ids(after) ensures x in Ids(notes) {
          var p :| 0 <= p < |after| && after[p].id == x;
          assert notes[p].id == x;
        }
        forall x | x in Ids(notes) ensures x in Ids(after) {
          var p :| 0 <= p < |notes| && notes[p].id == x;
          assert after[p].id == x;
        }
      }
      assert n.id in Ids(notes) by { assert notes[i].id == n.id; }
    }
  }

  /** One call of `saveNote` with its own clock reading. */
  datatype SaveCall = SaveCall(note: TabNote, now: int)

  /** The store after the calls, made one after another. */
  function SaveAll(s: Store, calls: seq<SaveCall>): Store
    decreases |calls|
  {
    if |calls| == 0 then s
    else SaveAll(SaveNote(s, calls[0].note, calls[0].now), calls[1..])
  }

  function CallIds(calls: seq<SaveCall>): set<string>
  {
    set i | 0 <= i < |calls| :: calls[i].note.id
  }

  /** A run of saves over a store with unique ids keeps them unique, and the ids stored
      afterwards are those stored before plus those saved. */
  lemma {:induction false} SaveAllIds(s: Store, calls: seq<SaveCall>)
    requires UniqueIds(GetAllNotes(s))
    ensures UniqueIds(GetAllNotes(SaveAll(s, calls)))
    ensures Ids(GetAllNotes(SaveAll(s, calls))) == Ids(GetAllNotes(s)) + CallIds(calls)
    decreases |calls|
  {
    if |calls| == 0 {
      assert CallIds(calls) == {};
    } else {
      var c := calls[0];
      var s1 := SaveNote(s, c.note, c.now);
      assert SaveAll(s, calls) == SaveAll(s1, calls[1..]);
      SaveKeepsIdsUnique(s, c.note, c.now);
      SaveAllIds(s1, calls[1..]);
      CallIdsSplit(calls);
    }
  }

  /** A run of saves over a store with unique ids leaves one record per id ever seen. */
  lemma SaveAllCount(s: Store, calls: seq<SaveCall>)
    requires UniqueIds(GetAllNotes(s))
    ensures |GetAllNotes(SaveAll(s, calls))| == |Ids(GetAllNotes(s)) + CallIds(calls)|
  {
    SaveAllIds(s, calls);
    UniqueIdsCount(GetAllNotes(SaveAll(s, calls)));
  }

  lemma CallIdsSplit(calls: seq<SaveCall>)
    requires |calls| > 0
    ensures CallIds(calls) == {calls[0].note.id} + CallIds(calls[1..])
  {
  }

  /** Saving N notes with pairwise distinct ids into an empty store leaves N records,
      whatever the order of the saves. */
  lemma DistinctSavesCount(calls: seq<SaveCall>)
    requires forall i, j :: 0 <= i < j < |calls| ==> calls[i].note.id != calls[j].note.id
    ensures |GetAllNotes(SaveAll(None, calls))| == |calls|
  {
    SaveAllCount(None, calls);
    assert Ids(GetAllNotes(None)) == {};
    DistinctCallIdsCount(calls);
  }

  lemma DistinctCallIdsCount(calls: seq<SaveCall>)
    requires forall i, j :: 0 <= i < j < |calls| ==> calls[i].note.id != calls[j].note.id
    ensures |CallIds(calls)| == |calls|
  {
    var notes := seq(|calls|, i requires 0 <= i < |calls| => calls[i].note);
    assert UniqueIds(notes);
    UniqueIdsCount(notes);
    assert Ids(notes) == CallIds(calls) by {
      forall x | x in CallIds(calls) ensures x in Ids(notes) {
        var p :| 0 <= p < |calls| && calls[p].note.id == x;
        assert notes[p].id == x;
      }
    }
  }

  /** Two runs of saves that mention the same ids leave lists of the same length. */
  lemma SaveOrderIrrelevantToCount(s: Store, calls1: seq<SaveCall>, calls2: seq<SaveCall>)
    requires UniqueIds(GetAllNotes(s))
    requires CallIds(calls1) == CallIds(calls2)
    ensures |GetAllNotes(SaveAll(s, calls1))| == |GetAllNotes(SaveAll(s, calls2))|
  {
    SaveAllCount(s, calls1);
    SaveAllCount(s, calls2);
  }

  /** `deleteNote` keeps ids unique. */
  lemma DeleteKeepsIdsUnique(s: Store, id: string)
    requires UniqueIds(GetAllNotes(s))
    ensures UniqueIds(GetAllNotes(DeleteNote(s, id)))
    ensures Ids(GetAllNotes(DeleteNote(s, id))) == Ids(GetAllNotes(s)) - {id}
  {
    WithoutKeepsIdsUnique(GetAllNotes(s), id);
  }

  lemma {:induction false} WithoutKeepsIdsUnique(notes: seq<TabNote>, id: string)
    requires UniqueIds(notes)
    ensures UniqueIds(Without(notes, id))
    ensures Ids(Without(notes, id)) == Ids(notes) - {id}
  {
    if |notes| > 0 {
      var tail := notes[1..];
      assert UniqueIds(tail) by {
        forall i, j | 0 <= i < j < |tail| ensures tail[i].id != tail[j].id {
          assert tail[i] == notes[i + 1] && tail[j] == notes[j + 1];
        }
      }
      WithoutKeepsIdsUnique(tail, id);
      var rest := Without(tail, id);
      IdsSplit(notes);
      if notes[0].id != id {
        var r := [notes[0]] + rest;
        assert Without(notes, id) == r;
        assert r[1..] == rest;
        IdsSplit(r);
        forall p | 0 <= p < |tail| ensures tail[p].id != notes[0].id {
          assert tail[p] == notes[p + 1];
        }
        assert notes[0].id !in Ids(rest);
        assert UniqueIds(r) by {
          forall i, j | 0 <= i < j < |r| ensures r[i].id != r[j].id {
            assert r[j] == rest[j - 1];
            if i == 0 {
              assert rest[j - 1].id in Ids(rest);
            } else {
              assert r[i] == rest[i - 1];
            }
          }
        }
      } else {
        assert Without(notes, id) == rest;
      }
    }
  }
}
