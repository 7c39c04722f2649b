/**
 * The list-keeping part of `MainActivity`: the list `notesList` the
 * adapter shows, the helper that owns the table, and the four handlers
 * that change them — the result callback of the create-note screen,
 * `loadNotesFromDatabase`, `onDeleteSelectedNotes` and the swipe
 * callback `onSwiped`. Each handler returns the adapter notifications it
 * sends, in order.
 */
module Activity {
  import opened Optional
  import opened Notes
  import opened Timestamps
  import opened NoteList
  import opened Notifications
  import opened NoteDatabase

  /**
   * The table after `deleteNote(note.id)` for each note in turn, the i-th
   * call failing exactly when `fails[i]` holds.
   */
  function DeleteEachWhereId(rows: seq<Note>, notes: seq<Note>, fails: seq<bool>): (r: seq<Note>)
    requires |fails| == |notes|
    ensures |r| <= |rows|
    ensures forall n :: n in r ==> n in rows
    decreases |notes|
  {
    if notes == [] then rows
    else
      var next := if fails[0] then rows else DeleteWhereId(rows, notes[0].id);
      DeleteEachWhereId(next, notes[1..], fails[1..])
  }

  /** A successful deletion of a selected note removes its id from the table. */
  lemma {:induction false} DeletedSelectionLeavesTable(rows: seq<Note>, notes: seq<Note>, fails: seq<bool>, i: nat)
    requires |fails| == |notes| && i < |notes| && !fails[i]
    ensures forall n :: n in DeleteEachWhereId(rows, notes, fails) ==> n.id != notes[i].id
    decreases |notes|
  {
    var next := if fails[0] then rows else DeleteWhereId(rows, notes[0].id);
    if i > 0 {
      DeletedSelectionLeavesTable(next, notes[1..], fails[1..], i - 1);
    }
  }

  /** A row whose id no successful deletion names stays in the table. */
  lemma {:induction false} DeleteEachKeepsOthers(rows: seq<Note>, notes: seq<Note>, fails: seq<bool>, n: Note)
    requires |fails| == |notes| && n in rows
    requires forall i :: 0 <= i < |notes| && !fails[i] ==> notes[i].id != n.id
    ensures n in DeleteEachWhereId(rows, notes, fails)
    decreases |notes|
  {
    if notes != [] {
      var next := if fails[0] then rows else DeleteWhereId(rows, notes[0].id);
      assert n in next;
      forall i | 0 <= i < |notes[1..]| && !fails[1..][i] ensures notes[1..][i].id != n.id {
        assert notes[1..][i] == notes[i + 1] && fails[1..][i] == fails[i + 1];
      }
      DeleteEachKeepsOthers(next, notes[1..], fails[1..], n);
    }
  }

  /**
   * The table after the deletions holds exactly the rows whose id no
   * successful deletion names.
   */
  lemma DeleteEachWhereIdMembers(rows: seq<Note>, notes: seq<Note>, fails: seq<bool>, n: Note)
    requires |fails| == |notes|
    ensures n in DeleteEachWhereId(rows, notes, fails) <==>
      n in rows && forall i :: 0 <= i < |notes| && !fails[i] ==> notes[i].id != n.id
  {
    if n in rows && forall i :: 0 <= i < |notes| && !fails[i] ==> notes[i].id != n.id {
      DeleteEachKeepsOthers(rows, notes, fails, n);
    }
    forall i | 0 <= i < |notes| && !fails[i] ensures n in DeleteEachWhereId(rows, notes, fails) ==> notes[i].id != n.id {
      DeletedSelectionLeavesTable(rows, notes, fails, i);
    }
  }

  /** A removal event naming a position below zero makes the whole sequence invalid. */
  lemma {:induction false} NegativeRemovalIsInvalid(n: int, events: seq<Event>, k: nat)
    requires k < |events| && events[k].ItemRemoved? && events[k].position < 0
    ensures CountAfter(n, events) == None
    decreases k
  {
    if k > 0 {
      match events[0]
      case ItemInserted(p) => if 0 <= p <= n { NegativeRemovalIsInvalid(n + 1, events[1..], k - 1); }
      case ItemRangeInserted(p, c) => if 0 <= p <= n && 0 <= c { NegativeRemovalIsInvalid(n + c, events[1..], k - 1); }
      case ItemRemoved(p) => if 0 <= p < n { NegativeRemovalIsInvalid(n - 1, events[1..], k - 1); }
    }
  }

  /**
   * A selected note that is not in the list gets position -1 from
   * `indexOf`, and `onDeleteSelectedNotes` then sends `notifyItemRemoved(-1)`:
   * its events no longer describe any valid change of the adapter.
   */
  lemma AbsentSelectionNotifiesMinusOne(s: seq<Note>, xs: seq<Note>, i: nat)
    requires i < |xs| && xs[i] !in s
    ensures Positions(s, xs)[i] == -1
    ensures ItemRemoved(-1) in Removals(SortDescending(Positions(s, xs)))
    ensures CountAfter(|s|, Removals(SortDescending(Positions(s, xs)))) == None
  {
    var ps := Positions(s, xs);
    var sorted := SortDescending(ps);
    assert ps[i] == -1;
    assert -1 in multiset(sorted) by { assert ps[i] in multiset(ps); }
    var k :| 0 <= k < |sorted| && sorted[k] == -1;
    assert Removals(sorted)[k] == ItemRemoved(-1);
    NegativeRemovalIsInvalid(|s|, Removals(sorted), k);
  }

  /**
   * `notifyItemRangeInserted(0, new - old)` is a valid notification exactly
   * when the list did not shrink; from an empty list it announces every note.
   */
  lemma RangeInsertedCount(oldSize: nat, newSize: nat)
    ensures CountAfter(oldSize, [ItemRangeInserted(0, newSize - oldSize)]) ==
      if oldSize <= newSize then Some(newSize) else None
  {
    assert [ItemRangeInserted(0, newSize - oldSize)][1..] == [];
  }

  class MainActivity {
    var notesList: seq<Note>
    const databaseHelper: NoteDatabaseHelper

    ghost predicate Valid()
      reads this, databaseHelper
    {
      databaseHelper.Valid() && databaseHelper.version == DatabaseVersion
    }

    /** The activity before `loadNotesFromDatabase` first runs: an empty list. */
    constructor (helper: NoteDatabaseHelper)
      requires helper.Valid() && helper.version == DatabaseVersion
      ensures Valid()
      ensures databaseHelper == helper && notesList == []
    {
      databaseHelper := helper;
      notesList := [];
    }

    /**
     * The create-note result callback. On `RESULT_OK` it always inserts
     * (never updates) and appends a note carrying whatever id the insert
     * returned, -1 included, and the millisecond clock text as timestamp;
     * then it notifies an insertion at the new last position. Any other
     * result code changes nothing.
     */
    method OnCreateNoteResult(resultOk: bool, titleExtra: Option<string>, contentExtra: Option<string>,
                              now: DateTime, nowMillis: nat, insertFails: bool)
      returns (events: seq<Event>)
      requires Valid()
      modifies this`notesList, databaseHelper`rows, databaseHelper`lastId, databaseHelper`issued
      ensures Valid()
      ensures !resultOk ==>
        && notesList == old(notesList) && events == []
        && databaseHelper.rows == old(databaseHelper.rows)
        && databaseHelper.lastId == old(databaseHelper.lastId)
        && databaseHelper.issued == old(databaseHelper.issued)
      ensures resultOk ==>
        var title, content := titleExtra.GetOr(""), contentExtra.GetOr("");
        var stored := !insertFails && old(databaseHelper.lastId) < MaxRowId;
        var id := if stored then old(databaseHelper.lastId) + 1 else InsertFailed;
        && notesList == old(notesList) + [Note(id, title, content, MillisText(nowMillis))]
        && events == [ItemInserted(|notesList| - 1)]
        && (stored ==> id !in old(databaseHelper.issued))
        && databaseHelper.rows ==
             (if stored then old(databaseHelper.rows) + [Note(id, title, content, GetCurrentTimestamp(now))]
              else old(databaseHelper.rows))
        && databaseHelper.lastId == (if stored then id else old(databaseHelper.lastId))
        && databaseHelper.issued ==
             (if stored then old(databaseHelper.issued) + {id} else old(databaseHelper.issued))
    {
      events := [];
      if resultOk {
        var title := titleExtra.GetOr("");
        var content := contentExtra.GetOr("");
        var newNoteId := databaseHelper.InsertNote(title, content, now, insertFails);
        var newNote := Note(newNoteId, title, content, MillisText(nowMillis));
        notesList := notesList + [newNote];
        events := [ItemInserted(|notesList| - 1)];
      }
    }

    /**
     * `loadNotesFromDatabase`: the list is cleared and refilled with what
     * `getAllNotes` returns — every row once, largest timestamp text first —
     * and one range insertion at 0 is notified, counting new size minus old.
     */
    method LoadNotesFromDatabase() returns (events: seq<Event>)
      requires Valid()
      modifies this`notesList
      ensures Valid()
      ensures notesList == OrderByTimestampDesc(databaseHelper.rows)
      ensures multiset(notesList) == multiset(databaseHelper.rows)
      ensures SortedByTimestampDesc(notesList)
      ensures events == [ItemRangeInserted(0, |notesList| - |old(notesList)|)]
    {
      var currentListSize := |notesList|;
      ghost var rows := databaseHelper.rows;
      var newNotes := databaseHelper.GetAllNotes();
      assert databaseHelper.Valid() && databaseHelper.rows == rows;
      notesList := [];
      notesList := notesList + newNotes;

      events := [ItemRangeInserted(0, |notesList| - currentListSize)];
    }

    /**
     * `onDeleteSelectedNotes`: the positions are taken with `indexOf` on
     * the list before anything is removed; then each selected note's id is
     * deleted from the table and its first equal value removed from the
     * list; then one removal per position is notified, largest first.
     */
    method OnDeleteSelectedNotes(selectedNotes: seq<Note>, deleteFails: seq<bool>) returns (events: seq<Event>)
      requires Valid() && |deleteFails| == |selectedNotes|
      modifies this`notesList, databaseHelper`rows
      ensures Valid()
      ensures notesList == RemoveEach(old(notesList), selectedNotes)
      ensures databaseHelper.rows == DeleteEachWhereId(old(databaseHelper.rows), selectedNotes, deleteFails)
      ensures events == Removals(SortDescending(Positions(old(notesList), selectedNotes)))
    {
      var positionsToDelete := Positions(notesList, selectedNotes);

      var i := 0;
      while i < |selectedNotes|
        invariant 0 <= i <= |selectedNotes|
        invariant Valid()
        invariant RemoveEach(notesList, selectedNotes[i..]) == RemoveEach(old(notesList), selectedNotes)
        invariant DeleteEachWhereId(databaseHelper.rows, selectedNotes[i..], deleteFails[i..])
          == DeleteEachWhereId(old(databaseHelper.rows), selectedNotes, deleteFails)
      {
        var note := selectedNotes[i];
        assert selectedNotes[i..][0] == note && selectedNotes[i..][1..] == selectedNotes[i + 1..];
        assert deleteFails[i..][0] == deleteFails[i] && deleteFails[i..][1..] == deleteFails[i + 1..];
        DeleteSelectedNote(note, deleteFails[i]);
        i := i + 1;
      }

      events := NotifyRemovals(SortDescending(positionsToDelete));
    }

    /** One turn of the loop in `onDeleteSelectedNotes`: the delete by id, then the removal of the value. */
    method DeleteSelectedNote(note: Note, deleteFails: bool)
      requires Valid()
      modifies this`notesList, databaseHelper`rows
      ensures Valid()
      ensures notesList == RemoveFirst(old(notesList), note)
      ensures databaseHelper.rows ==
        if deleteFails then old(databaseHelper.rows) else DeleteWhereId(old(databaseHelper.rows), note.id)
    {
      var _ := databaseHelper.DeleteNote(note.id, deleteFails);
      notesList := RemoveFirst(notesList, note);
    }

    /**
     * `onSwiped` at `position`: the note there is deleted from the table by
     * id, taken out of the list (later notes move down by one), and its
     * removal is notified at the same position.
     */
    method OnSwiped(position: int, deleteFails: bool) returns (events: seq<Event>)
      requires Valid() && 0 <= position < |notesList|
      modifies this`notesList, databaseHelper`rows
      ensures Valid()
      ensures notesList == RemoveAt(old(notesList), position)
      ensures databaseHelper.rows ==
        if deleteFails then old(databaseHelper.rows)
        else DeleteWhereId(old(databaseHelper.rows), old(notesList)[position].id)
      ensures events == [ItemRemoved(position)]
    {
      var noteToDelete := notesList[position];
      var _ := databaseHelper.DeleteNote(noteToDelete.id, deleteFails);
      notesList := RemoveAt(notesList, position);
      events := [ItemRemoved(position)];
    }
  }

  /** `forEach { notifyItemRemoved(it) }` over the positions, in their order. */
  method NotifyRemovals(positions: seq<int>) returns (events: seq<Event>)
    ensures events == Removals(positions)
  {
    events := [];
    var k := 0;
    while k < |positions|
      invariant 0 <= k <= |positions|
      invariant events == Removals(positions[..k])
    {
      events := events + [ItemRemoved(positions[k])];
      k := k + 1;
    }
    assert positions[..k] == positions;
  }

  /** The swipe's one removal event, replayed on the old list, gives the new list. */
  lemma SwipeEventReplays(s: seq<Note>, position: nat)
    requires position < |s|
    ensures ReplayRemovals(s, [ItemRemoved(position)]) == Some(RemoveAt(s, position))
    ensures CountAfter(|s|, [ItemRemoved(position)]) == Some(|s| - 1)
  {
    assert [ItemRemoved(position)][1..] == [];
  }

  /** The save callback's insertion at the new last index is in range. */
  lemma SaveEventCount(s: seq<Note>, n: Note)
    ensures CountAfter(|s|, [ItemInserted(|s + [n]| - 1)]) == Some(|s + [n]|)
  {
    assert [ItemInserted(|s + [n]| - 1)][1..] == [];
  }
}
