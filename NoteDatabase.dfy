/**
 * The notes table behind `NoteDatabaseHelper`: one SQLite table `notes`,
 * in the database file `notes.db`, keyed by an `INTEGER PRIMARY KEY AUTOINCREMENT` id, at schema version 2.
 *
 * The table is held as its rows in rowid order, with the table's
 * `sqlite_sequence` entry (the largest id ever handed out) beside them.
 * The clock is a parameter of every operation that stamps a row, and an
 * `SQLException` is a `fails` parameter: when it is true the statement
 * writes nothing.
 */
module NoteDatabase {
  import opened Notes
  import opened Timestamps

  const DatabaseVersion := 2
  const ColumnId := "id"
  const ColumnTitle := "title"
  const ColumnContent := "content"
  const ColumnTimestamp := "timestamp"

  /** The largest rowid SQLite hands out, 2^63 - 1; past it an insert fails. */
  const MaxRowId := 0x7FFF_FFFF_FFFF_FFFF

  /** What `insertNote` returns when no row was written. */
  const InsertFailed := -1

  // ---------------------------------------------------------------------
  // Schema: onCreate and onUpgrade
  // ---------------------------------------------------------------------

  datatype Column = Column(name: string, definition: string)

  /** The table `onCreate` makes: four columns, timestamp included. */
  function CreatedSchema(): seq<Column> {
    [ Column(ColumnId, "INTEGER PRIMARY KEY AUTOINCREMENT"),
      Column(ColumnTitle, "TEXT"),
      Column(ColumnContent, "TEXT"),
      Column(ColumnTimestamp, "TEXT") ]
  }

  /** The version-1 table, before the timestamp column existed. */
  function Version1Schema(): seq<Column> {
    CreatedSchema()[..3]
  }

  /** The column `onUpgrade` adds with `ALTER TABLE ... ADD COLUMN`. */
  function AddedTimestampColumn(): Column {
    Column(ColumnTimestamp, "TEXT DEFAULT CURRENT_TIMESTAMP")
  }

  function ColumnNames(columns: seq<Column>): (names: seq<string>)
    ensures |names| == |columns| && forall i :: 0 <= i < |columns| ==> names[i] == columns[i].name
  {
    if columns == [] then [] else [columns[0].name] + ColumnNames(columns[1..])
  }

  /** The schema after `onUpgrade(oldVersion, newVersion)`. */
  function UpgradedSchema(columns: seq<Column>, oldVersion: int, newVersion: int): (r: seq<Column>)
    ensures oldVersion < 2 ==> r == columns + [AddedTimestampColumn()]
    ensures 2 <= oldVersion ==> r == columns
  {
    if oldVersion < 2 then columns + [AddedTimestampColumn()] else columns
  }

  /** Upgrading a version-1 table gives the columns a fresh table has, by name. */
  lemma {:induction false} UpgradeFromVersion1MatchesCreate(newVersion: int)
    ensures ColumnNames(UpgradedSchema(Version1Schema(), 1, newVersion)) == ColumnNames(CreatedSchema())
  {
    var up := UpgradedSchema(Version1Schema(), 1, newVersion);
    assert |up| == 4;
    assert ColumnNames(up)[3] == ColumnTimestamp;
  }

  // ---------------------------------------------------------------------
  // Rows and the WHERE id = ? statements
  // ---------------------------------------------------------------------

  /** Rows in rowid order: ids strictly ascending, hence no id twice. */
  predicate IdsAscending(rows: seq<Note>) {
    forall i, j :: 0 <= i < j < |rows| ==> rows[i].id < rows[j].id
  }

  /** How many rows `WHERE id = ?` selects. */
  function Matching(rows: seq<Note>, id: int): (n: nat)
    ensures n <= |rows|
    ensures n == 0 <==> forall i :: 0 <= i < |rows| ==> rows[i].id != id
  {
    if rows == [] then 0
    else (if rows[0].id == id then 1 else 0) + Matching(rows[1..], id)
  }

  /** In a table keyed by id, `WHERE id = ?` selects at most one row. */
  lemma {:induction false} AtMostOneMatch(rows: seq<Note>, id: int)
    requires IdsAscending(rows)
    ensures Matching(rows, id) <= 1
  {
    if rows != [] {
      AtMostOneMatch(rows[1..], id);
      if rows[0].id == id {
        assert forall i :: 0 <= i < |rows[1..]| ==> rows[1..][i].id != id by {
          forall i | 0 <= i < |rows[1..]| ensures rows[1..][i].id != id {
            assert rows[1..][i] == rows[i + 1];
          }
        }
      }
    }
  }

  /** The table after `DELETE FROM notes WHERE id = ?`: the other rows, in order. */
  function DeleteWhereId(rows: seq<Note>, id: int): (r: seq<Note>)
    ensures |r| == |rows| - Matching(rows, id)
    ensures forall n :: n in r <==> n in rows && n.id != id
  {
    if rows == [] then []
    else
      assert forall n :: n in rows <==> n == rows[0] || n in rows[1..] by {
        assert rows == [rows[0]] + rows[1..];
      }
      (if rows[0].id == id then [] else [rows[0]]) + DeleteWhereId(rows[1..], id)
  }

  /** Deleting rows keeps the remaining ids in ascending order. */
  lemma {:induction false} DeleteKeepsIdsAscending(rows: seq<Note>, id: int)
    requires IdsAscending(rows)
    ensures IdsAscending(DeleteWhereId(rows, id))
  {
    if rows != [] {
      DeleteKeepsIdsAscending(rows[1..], id);
      if rows[0].id != id {
        HeadBelowRest(rows, DeleteWhereId(rows[1..], id));
        ConsAscending(rows[0], DeleteWhereId(rows[1..], id));
      }
    }
  }

  lemma HeadBelowRest(rows: seq<Note>, rest: seq<Note>)
    requires IdsAscending(rows) && rows != []
    requires forall n :: n in rest ==> n in rows[1..]
    ensures forall n :: n in rest ==> rows[0].id < n.id
  {
    forall n | n in rest ensures rows[0].id < n.id {
      var k :| 0 <= k < |rows[1..]| && rows[1..][k] == n;
      assert rows[k + 1] == n;
    }
  }

  lemma ConsAscending(first: Note, rest: seq<Note>)
    requires IdsAscending(rest) && forall n :: n in rest ==> first.id < n.id
    ensures IdsAscending([first] + rest)
  {
    var r := [first] + rest;
    forall i, j | 0 <= i < j < |r| ensures r[i].id < r[j].id {
      if i == 0 { assert r[j] in rest; } else { assert r[i] == rest[i - 1] && r[j] == rest[j - 1]; }
    }
  }

  /**
   * The table after `UPDATE notes SET title, content, timestamp WHERE id = ?`:
   * each selected row gets the new values and keeps its id; no other row
   * changes and no row moves.
   */
  function UpdateWhereId(rows: seq<Note>, id: int, title: string, content: string, timestamp: string): (r: seq<Note>)
    ensures |r| == |rows|
    ensures forall i :: 0 <= i < |rows| ==> r[i].id == rows[i].id
    ensures forall i :: 0 <= i < |rows| && rows[i].id != id ==> r[i] == rows[i]
    ensures forall i :: 0 <= i < |rows| && rows[i].id == id ==>
      r[i].title == title && r[i].content == content && r[i].timestamp == timestamp
  {
    seq(|rows|, i requires 0 <= i < |rows| =>
      if rows[i].id == id then Reassigned(rows[i], title, content, timestamp) else rows[i])
  }

  // ---------------------------------------------------------------------
  // ORDER BY timestamp DESC
  // ---------------------------------------------------------------------

  /** Each note's timestamp is not smaller, as text, than any later one's. */
  predicate SortedByTimestampDesc(notes: seq<Note>) {
    forall i, j :: 0 <= i < j < |notes| ==> !LexLess(notes[i].timestamp, notes[j].timestamp)
  }

  /** `n` placed before the first row whose timestamp is not larger than its own. */
  function InsertByTimestamp(n: Note, notes: seq<Note>): (r: seq<Note>)
    ensures multiset(r) == multiset(notes) + multiset{n}
  {
    if notes == [] || !LexLess(n.timestamp, notes[0].timestamp) then [n] + notes
    else
      assert notes == [notes[0]] + notes[1..];
      [notes[0]] + InsertByTimestamp(n, notes[1..])
  }

  lemma {:induction false} InsertByTimestampSorted(n: Note, notes: seq<Note>)
    requires SortedByTimestampDesc(notes)
    ensures SortedByTimestampDesc(InsertByTimestamp(n, notes))
  {
    var r := InsertByTimestamp(n, notes);
    if notes == [] {
    } else if !LexLess(n.timestamp, notes[0].timestamp) {
      forall j | 1 <= j < |r| ensures !LexLess(n.timestamp, r[j].timestamp) {
        if j > 1 {
          LexAtLeastTransitive(n.timestamp, notes[0].timestamp, notes[j - 1].timestamp);
        }
      }
    } else {
      var t := InsertByTimestamp(n, notes[1..]);
      InsertByTimestampSorted(n, notes[1..]);
      LexLessAsymmetric(n.timestamp, notes[0].timestamp);
      assert notes == [notes[0]] + notes[1..];
      forall j | 0 <= j < |t| ensures !LexLess(notes[0].timestamp, t[j].timestamp) {
        assert t[j] in multiset(t);
        assert t[j] == n || t[j] in notes[1..];
      }
    }
  }

  /**
   * The result set of `SELECT id, title, content, timestamp FROM notes
   * ORDER BY timestamp DESC`. SQLite fixes no order among equal
   * timestamps; this one keeps the rows' rowid order among them, that is
   * ascending id (`OrderTiesByAscendingId`).
   */
  function OrderByTimestampDesc(rows: seq<Note>): (r: seq<Note>)
    ensures multiset(r) == multiset(rows)
    ensures SortedByTimestampDesc(r)
  {
    if rows == [] then []
    else
      assert rows == [rows[0]] + rows[1..];
      InsertByTimestampSorted(rows[0], OrderByTimestampDesc(rows[1..]));
      InsertByTimestamp(rows[0], OrderByTimestampDesc(rows[1..]))
  }

  /** Among notes with equal timestamps, smaller ids come first. */
  predicate TiesByAscendingId(notes: seq<Note>) {
    forall i, j :: 0 <= i < j < |notes| && notes[i].timestamp == notes[j].timestamp ==> notes[i].id < notes[j].id
  }

  lemma {:induction false} InsertByTimestampTies(n: Note, notes: seq<Note>)
    requires TiesByAscendingId(notes) && forall m :: m in notes ==> n.id < m.id
    ensures TiesByAscendingId(InsertByTimestamp(n, notes))
  {
    var r := InsertByTimestamp(n, notes);
    if notes == [] || !LexLess(n.timestamp, notes[0].timestamp) {
      forall j | 1 <= j < |r| ensures r[j] == notes[j - 1] && r[j] in notes {}
    } else {
      var t := InsertByTimestamp(n, notes[1..]);
      assert forall m :: m in notes[1..] ==> m in notes;
      InsertByTimestampTies(n, notes[1..]);
      LexLessIrreflexive(n.timestamp);
      forall j | 0 <= j < |t| && notes[0].timestamp == t[j].timestamp ensures notes[0].id < t[j].id {
        assert t[j] in multiset(t);
        assert t[j] != n;
        assert t[j] in notes[1..];
        var k :| 0 <= k < |notes[1..]| && notes[1..][k] == t[j];
        assert notes[k + 1] == t[j];
      }
      assert r == [notes[0]] + t;
    }
  }

  /** Rows kept in ascending id order come out of the ordering with ties by ascending id. */
  lemma {:induction false} OrderTiesByAscendingId(rows: seq<Note>)
    requires IdsAscending(rows)
    ensures TiesByAscendingId(OrderByTimestampDesc(rows))
  {
    if rows != [] {
      var rest := OrderByTimestampDesc(rows[1..]);
      OrderTiesByAscendingId(rows[1..]);
      forall m | m in rest ensures rows[0].id < m.id {
        assert m in multiset(rows[1..]);
        var k :| 0 <= k < |rows[1..]| && rows[1..][k] == m;
        assert rows[k + 1] == m;
      }
      InsertByTimestampTies(rows[0], rest);
    }
  }

  // ---------------------------------------------------------------------
  // The helper
  // ---------------------------------------------------------------------

  /**
   * The table and its schema. `writableDatabase` and `readableDatabase`
   * run `onCreate` or `onUpgrade` before they hand out the database, so the
   * four table operations only ever see a file recorded at `DatabaseVersion`.
   */
  class NoteDatabaseHelper {
    var columns: seq<Column>
    /** The schema version recorded in the database file. */
    var version: int
    var rows: seq<Note>
    /** The table's `sqlite_sequence` value: the largest id ever handed out. */
    var lastId: int
    /** Every id ever handed out, including those of deleted rows. */
    ghost var issued: set<int>

    ghost predicate Valid()
      reads this
    {
      && 0 <= lastId <= MaxRowId
      && (forall k :: k in issued ==> 1 <= k <= lastId)
      && (forall i :: 0 <= i < |rows| ==> rows[i].id in issued)
      && IdsAscending(rows)
    }

    /** `onCreate`: the version-2 table, empty, no id handed out yet. */
    constructor ()
      ensures Valid()
      ensures columns == CreatedSchema() && version == DatabaseVersion
      ensures rows == [] && lastId == 0 && issued == {}
    {
      columns := CreatedSchema();
      version := DatabaseVersion;
      rows := [];
      lastId := 0;
      issued := {};
    }

    /**
     * A database file written by version 1 of the app, as it is opened and
     * before `onUpgrade` runs: the three-column table, recorded at version 1.
     */
    constructor OpenVersion1()
      ensures Valid()
      ensures columns == Version1Schema() && version == 1
      ensures rows == [] && lastId == 0 && issued == {}
    {
      columns := Version1Schema();
      version := 1;
      rows := [];
      lastId := 0;
      issued := {};
    }

    /**
     * `onUpgrade`, called on a file recorded at `oldVersion` when the app
     * asks for the later `newVersion` (a downgrade is refused before
     * `onUpgrade` would run): only a table older than version 2 gains the
     * timestamp column, and the file is then recorded at `newVersion`. The
     * rows are not touched.
     */
    method OnUpgrade(oldVersion: int, newVersion: int)
      requires Valid() && oldVersion == version && oldVersion < newVersion
      modifies this`columns, this`version
      ensures Valid()
      ensures columns == UpgradedSchema(old(columns), oldVersion, newVersion)
      ensures version == newVersion
      ensures old(columns) == Version1Schema() && oldVersion < 2 ==>
        ColumnNames(columns) == ColumnNames(CreatedSchema())
    {
      if oldVersion < 2 {
        columns := columns + [AddedTimestampColumn()];
        UpgradeFromVersion1MatchesCreate(newVersion);
      }
      version := newVersion;
    }

    /**
     * `insertNote`: a new row with the next id after every id ever handed
     * out, the given title and content, and the clock's timestamp; or, when
     * the statement fails or the ids are used up, no change and -1.
     */
    method InsertNote(title: string, content: string, now: DateTime, fails: bool) returns (id: int)
      requires Valid() && version == DatabaseVersion
      modifies this`rows, this`lastId, this`issued
      ensures Valid()
      ensures if !fails && old(lastId) < MaxRowId then
          && id == old(lastId) + 1 && 0 < id <= MaxRowId
          && id !in old(issued) && Matching(old(rows), id) == 0
          && rows == old(rows) + [Note(id, title, content, GetCurrentTimestamp(now))]
          && lastId == id && issued == old(issued) + {id}
        else
          && id == InsertFailed
          && rows == old(rows) && lastId == old(lastId) && issued == old(issued)
    {
      if fails || lastId == MaxRowId {
        return InsertFailed;
      }
      id := lastId + 1;
      assert forall i :: 0 <= i < |rows| ==> rows[i].id < id;
      rows := rows + [Note(id, title, content, GetCurrentTimestamp(now))];
      lastId := id;
      issued := issued + {id};
    }

    /**
     * `updateNote`: the row with that id gets the new title and content
     * and a fresh timestamp; the result is the number of rows changed,
     * 1 for a present id and 0 for an absent one or a failure.
     */
    method UpdateNote(id: int, title: string, content: string, now: DateTime, fails: bool) returns (count: int)
      requires Valid() && version == DatabaseVersion
      modifies this`rows
      ensures Valid()
      ensures count == if fails then 0 else Matching(old(rows), id)
      ensures count == 0 || count == 1
      ensures rows == if count == 0 then old(rows)
        else UpdateWhereId(old(rows), id, title, content, GetCurrentTimestamp(now))
    {
      if fails {
        return 0;
      }
      AtMostOneMatch(rows, id);
      count := Matching(rows, id);
      if count > 0 {
        rows := UpdateWhereId(rows, id, title, content, GetCurrentTimestamp(now));
      }
    }

    /**
     * `deleteNote`: the row with that id goes; the result is the number of
     * rows removed, 1 for a present id and 0 for an absent one or a failure.
     */
    method DeleteNote(id: int, fails: bool) returns (count: int)
      requires Valid() && version == DatabaseVersion
      modifies this`rows
      ensures Valid()
      ensures count == if fails then 0 else Matching(old(rows), id)
      ensures count == 0 || count == 1
      ensures rows == if fails then old(rows) else DeleteWhereId(old(rows), id)
      ensures |rows| == |old(rows)| - count
    {
      if fails {
        return 0;
      }
      AtMostOneMatch(rows, id);
      count := Matching(rows, id);
      DeleteKeepsIdsAscending(rows, id);
      rows := DeleteWhereId(rows, id);
    }

    /**
     * `getAllNotes`: every row exactly once, largest timestamp text first.
     * The table is not changed.
     */
    method GetAllNotes() returns (notes: seq<Note>)
      requires Valid() && version == DatabaseVersion
      ensures notes == OrderByTimestampDesc(rows)
      ensures multiset(notes) == multiset(rows)
      ensures SortedByTimestampDesc(notes)
    {
      var cursor := OrderByTimestampDesc(rows);
      notes := [];
      var position := 0;
      while position < |cursor|
        invariant 0 <= position <= |cursor|
        invariant notes == cursor[..position]
      {
        var row := cursor[position];
        notes := notes + [Note(row.id, row.title, row.content, row.timestamp)];
        position := position + 1;
      }
      assert cursor[..|cursor|] == cursor;
    }
  }

  /** After `deleteNote(id)`, no note `getAllNotes` returns carries that id. */
  lemma DeletedIdIsNeverListed(rows: seq<Note>, id: int, listed: seq<Note>)
    requires multiset(listed) == multiset(DeleteWhereId(rows, id))
    ensures forall i :: 0 <= i < |listed| ==> listed[i].id != id
  {
    forall i | 0 <= i < |listed| ensures listed[i].id != id {
      assert listed[i] in multiset(DeleteWhereId(rows, id));
    }
  }

  /**
   * In a valid table, every row's id is positive and at most the last id
   * handed out, so no stored row carries -1.
   */
  lemma StoredIdsArePositive(rows: seq<Note>, issued: set<int>, lastId: int)
    requires forall k :: k in issued ==> 1 <= k <= lastId
    requires forall i :: 0 <= i < |rows| ==> rows[i].id in issued
    ensures forall i :: 0 <= i < |rows| ==> 0 < rows[i].id <= lastId && rows[i].id != InsertFailed
  {
  }
}
