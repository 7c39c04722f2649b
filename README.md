# NoteNest notes store and note list, in Dafny

NoteNest is an Android notes app. This project models three pieces of it:

- the `Note` record;
- `NoteDatabaseHelper`, the SQLite table `notes` with its two-version schema, its insert, update, delete and list operations, and its timestamp format;
- the part of `MainActivity` that keeps the in-memory `notesList` in step with the table and tells the list adapter what changed.

The model is sequential, as the app is: every handler runs to completion on the main thread.

Modules, in dependency order:

- `Optional`: `Option` with `GetOr`, for the nullable intent extras (`?: ""`).
- `Notes`: the `Note` value. Kotlin `data class` equality is Dafny datatype equality.
- `Timestamps`: the `MM/dd/yyyy HH:mm` text the store writes, the millisecond text the activity writes, and `LexLess`. `LexLess` is the code-point order in which SQLite's default BINARY collation compares these texts. Dafny's own `<` on strings is the proper-prefix relation, so it cannot stand in for that order.
- `NoteList`: the Kotlin list operations the activity uses: `indexOf`, `remove(element)`, `removeAt` and `sortedDescending`.
- `Notifications`: the adapter notifications as abstract events, and what it means for a sequence of them to describe a change of the list.
- `NoteDatabase`: the table as a class.
  - `rows` holds the rows in rowid order.
  - `lastId` holds the table's `sqlite_sequence` value, the largest id ever handed out.
  - The ghost set `issued` holds every id ever handed out.
  - `columns` holds the schema, and `version` the schema version recorded in the database file.
  - The clock is a `DateTime` parameter. A failing statement (`SQLException`) is a `fails` parameter, and when it holds the statement writes nothing.
- `Activity`: `MainActivity` as a class.
  - Its field `notesList` is the list.
  - It holds the helper.
  - Its four handlers return the notifications they send, in order.

The main results:

- **Store.**
  - `InsertNote` hands out an id that no current or deleted row ever had, and appends exactly one row.
  - `UpdateNote` and `DeleteNote` touch only the row with the given id and return 0 or 1.
  - `GetAllNotes` changes nothing. It returns every row exactly once, in non-increasing timestamp text order.
- **Timestamp order.**
  - Within one year, that text order is the order in time (`SameYearTextOrderIsChronological`).
  - Across a year boundary it is not (`NewYearSortsBeforeOldYear`).
- **Deleting a selection.** `DescendingRemovalsReplayRemoveEach` covers `onDeleteSelectedNotes` when the selected notes are distinct and all in the list. Removing the positions it notifies, in the order it notifies them, turns the old list into exactly the new list. `AbsentSelectionNotifiesMinusOne` shows what happens when a selected note is not in the list: its position is -1, and the notifications describe no valid change of the adapter.

Behaviour of the app worth knowing, as the code has it:

- The reload clears the list and appends everything. There is no position-by-position reconciliation.
- Deletion is immediate. There is no deferred delete with undo.
- `getAllNotes` orders by the timestamp text only. SQLite promises no order among equal timestamps; the model lists them in ascending id (`OrderTiesByAscendingId`). Across a year boundary the text order is not "most recent first", because the text starts with the month (`NewYearSortsBeforeOldYear`).
- `onUpgrade` does nothing for `oldVersion >= 2`. Its body has no downgrade check, but it needs none: the helper does not override `onDowngrade`, whose default throws before `onUpgrade` could run, so `OnUpgrade` is only given a later version.
- `insertNote`, `updateNote`, `deleteNote` and `getAllNotes` go through `writableDatabase` or `readableDatabase`, which create or upgrade the file first, so the model gives them only a table recorded at version 2.
- The save callback always calls `insertNote`, never `updateNote`. It appends a note carrying whatever id the insert returned, -1 included.
- The note the save callback appends carries `System.currentTimeMillis().toString()` as its timestamp, not the store's format (`MillisTextIsNotStoreFormat`). The activity never reloads: `loadNotesFromDatabase` is called only from `onCreate`, on the list just created empty, so this note keeps the millisecond text for as long as the activity lives. A later activity lists the stored row instead. After an insert that returned -1 no row was stored, so that note does not come back.

## Model

| member | source | states |
|---|---|---|
| Notes.Reassigned | app/src/main/java/com/dev/notenest/Note.kt:4-7 | assigning the three `var` fields keeps the `val` id, sets the fields, and gives the same value exactly when nothing changed |
| Notes.EqualityIsStructural | app/src/main/java/com/dev/notenest/Note.kt:3-8 | two notes are equal exactly when id, title, content and timestamp all are |
| Notes.EditedNoteIsAnotherValue | app/src/main/java/com/dev/notenest/Note.kt:3-8 | a note with the same id but an edited title, content or timestamp is a different value, so list lookups are by value and not by id |
| Optional.Option.GetOr | app/src/main/java/com/dev/notenest/MainActivity.kt:44-45 | a present extra is used as it is; a missing one becomes the default |
| Timestamps.Decimal | app/src/main/java/com/dev/notenest/MainActivity.kt:49 | `toString` of a non-negative number is a non-empty digit string with no leading zero unless the number is 0 |
| Timestamps.DecimalRoundTrip | app/src/main/java/com/dev/notenest/MainActivity.kt:49 | reading the decimal text back gives the number |
| Timestamps.Pad | app/src/main/java/com/dev/notenest/NoteDatabaseHelper.kt:25 | a date-format field is all digits and has the field width, or more when the number needs more |
| Timestamps.PadValue | app/src/main/java/com/dev/notenest/NoteDatabaseHelper.kt:25 | zero-padding does not change the number a field denotes |
| Timestamps.TwoDigitField | app/src/main/java/com/dev/notenest/NoteDatabaseHelper.kt:25 | a two-digit field below 100 is its tens digit followed by its units digit |
| Timestamps.GetCurrentTimestamp | app/src/main/java/com/dev/notenest/NoteDatabaseHelper.kt:24-27 | `getCurrentTimestamp`: the reading written as `MM/dd/yyyy HH:mm` with zero-padded fields; its layout and read-back are stated by `TimestampLayout` and `TimestampFieldsReadBack` |
| Timestamps.TimestampLayout | app/src/main/java/com/dev/notenest/NoteDatabaseHelper.kt:24-27 | `getCurrentTimestamp` of a valid reading is 16 characters: `/` at 2 and 5, a space at 10, `:` at 13, digits elsewhere, each field at its place |
| Timestamps.TimestampFieldsReadBack | app/src/main/java/com/dev/notenest/NoteDatabaseHelper.kt:24-27 | each field of the timestamp reads back as the month, day, year, hour and minute it came from |
| Timestamps.LexLess | app/src/main/java/com/dev/notenest/NoteDatabaseHelper.kt:91 | the BINARY-collation order behind `ORDER BY timestamp DESC`: texts compare at their first differing code point, and a proper prefix comes first; its laws are `LexLessIrreflexive`, `LexLessAsymmetric`, `LexLessTransitive`, `LexLessTotal`, `LexAtLeastTransitive` and `LexLessConcat` |
| Timestamps.LexLessIrreflexive | app/src/main/java/com/dev/notenest/NoteDatabaseHelper.kt:91 | no text sorts before itself |
| Timestamps.LexLessAsymmetric | app/src/main/java/com/dev/notenest/NoteDatabaseHelper.kt:91 | of two texts at most one sorts before the other |
| Timestamps.LexLessTransitive | app/src/main/java/com/dev/notenest/NoteDatabaseHelper.kt:91 | the text order is transitive |
| Timestamps.LexLessTotal | app/src/main/java/com/dev/notenest/NoteDatabaseHelper.kt:91 | any two different texts are ordered one way or the other |
| Timestamps.LexAtLeastTransitive | app/src/main/java/com/dev/notenest/NoteDatabaseHelper.kt:91 | "not before" is transitive, so a descending order is well defined |
| Timestamps.LexLessConcat | app/src/main/java/com/dev/notenest/NoteDatabaseHelper.kt:91 | after equal-length prefixes, the prefixes decide the order, and with equal prefixes the rests decide it |
| Timestamps.TwoDigitOrder | app/src/main/java/com/dev/notenest/NoteDatabaseHelper.kt:25 | two-digit fields compare as text exactly as their numbers compare, and are equal exactly when the numbers are |
| Timestamps.SameYearTextOrderIsChronological | app/src/main/java/com/dev/notenest/NoteDatabaseHelper.kt:25 | within one year, one timestamp sorts before another exactly when its reading is earlier |
| Timestamps.NewYearSortsBeforeOldYear | app/src/main/java/com/dev/notenest/NoteDatabaseHelper.kt:25 | 01/01/2024 00:00 sorts before 12/31/2023 23:59 although it is later |
| Timestamps.MillisText | app/src/main/java/com/dev/notenest/MainActivity.kt:49 | `System.currentTimeMillis().toString()`: the decimal text of the count, as `Decimal` and `DecimalRoundTrip` state it |
| Timestamps.MillisTextIsNotStoreFormat | app/src/main/java/com/dev/notenest/MainActivity.kt:49 | the millisecond text never equals a store timestamp |
| NoteList.IndexOf | app/src/main/java/com/dev/notenest/MainActivity.kt:96-98 | `indexOf` is -1 exactly when the value is absent, and otherwise the position of its first occurrence |
| NoteList.RemoveAt | app/src/main/java/com/dev/notenest/MainActivity.kt:135 | `removeAt(p)` keeps the elements before `p` and shifts the later ones down by one |
| NoteList.RemoveAtMultiset | app/src/main/java/com/dev/notenest/MainActivity.kt:135 | `removeAt(p)` removes exactly one copy of the element at `p` |
| NoteList.RemoveFirst | app/src/main/java/com/dev/notenest/MainActivity.kt:103 | `remove(x)` removes one copy of `x` if there is one, at its first position, and otherwise returns the list as it was |
| NoteList.RemoveEach | app/src/main/java/com/dev/notenest/MainActivity.kt:101-104 | removing each selected value in turn removes exactly the selection's multiset |
| NoteList.Positions | app/src/main/java/com/dev/notenest/MainActivity.kt:96-98 | the i-th position is `indexOf` of the i-th selected note in the list as it was before any removal |
| NoteList.PositionsDistinct | app/src/main/java/com/dev/notenest/MainActivity.kt:96-98 | distinct selected notes that are all in the list get distinct positions |
| NoteList.InsertDescending | app/src/main/java/com/dev/notenest/MainActivity.kt:107 | inserting a position adds exactly that value |
| NoteList.InsertDescendingOrdered | app/src/main/java/com/dev/notenest/MainActivity.kt:107 | inserting into a non-increasing sequence keeps it non-increasing |
| NoteList.InsertDescendingStrict | app/src/main/java/com/dev/notenest/MainActivity.kt:107 | inserting a new value into a strictly decreasing sequence keeps it strictly decreasing |
| NoteList.SortDescending | app/src/main/java/com/dev/notenest/MainActivity.kt:107 | `sortedDescending` is a non-increasing permutation of the positions |
| NoteList.SortDistinctIsDecreasing | app/src/main/java/com/dev/notenest/MainActivity.kt:107 | sorting distinct positions gives a strictly decreasing sequence |
| Notifications.Removals | app/src/main/java/com/dev/notenest/MainActivity.kt:107-109 | one removal event per position, in the given order |
| Notifications.ReplayRemovals | app/src/main/java/com/dev/notenest/MainActivity.kt:107-109 | a successful replay of removal events shortens the list by one per event |
| Notifications.ReplayDecreasingIsFilter | app/src/main/java/com/dev/notenest/MainActivity.kt:107-109 | removing strictly decreasing in-range positions one by one removes exactly the elements at those positions |
| Notifications.RemoveEachIsFilter | app/src/main/java/com/dev/notenest/MainActivity.kt:101-104 | removing distinct, present values in turn removes exactly their first occurrences |
| Notifications.DescendingRemovalsReplayRemoveEach | app/src/main/java/com/dev/notenest/MainActivity.kt:94-109 | for a distinct selection wholly in the list, the removal events replayed on the old list give exactly the list the removals leave |
| Notifications.ReplayedRemovalsCount | app/src/main/java/com/dev/notenest/MainActivity.kt:107-109 | removal events that replay successfully keep the adapter's item count in range and end at the new length |
| NoteDatabase.CreatedSchema | app/src/main/java/com/dev/notenest/NoteDatabaseHelper.kt:30-40 | the `CREATE TABLE notes` of `onCreate`: id, title, content and timestamp columns with their types; the constructor creates it and `UpgradeFromVersion1MatchesCreate` relates the upgraded table to it |
| NoteDatabase.AddedTimestampColumn | app/src/main/java/com/dev/notenest/NoteDatabaseHelper.kt:44 | the timestamp column `ALTER TABLE ... ADD COLUMN` appends, with its `DEFAULT CURRENT_TIMESTAMP` definition; `UpgradedSchema` appends it and `UpgradeFromVersion1MatchesCreate` shows its name completes `onCreate`'s columns |
| NoteDatabase.UpgradedSchema | app/src/main/java/com/dev/notenest/NoteDatabaseHelper.kt:42-46 | the timestamp column is added exactly when `oldVersion < 2`; otherwise the schema is unchanged |
| NoteDatabase.UpgradeFromVersion1MatchesCreate | app/src/main/java/com/dev/notenest/NoteDatabaseHelper.kt:30-46 | a version-1 table after the upgrade has the columns `onCreate` makes at version 2 |
| NoteDatabase.Matching | app/src/main/java/com/dev/notenest/NoteDatabaseHelper.kt:109 | the number of rows `WHERE id = ?` selects is 0 exactly when no row has that id |
| NoteDatabase.AtMostOneMatch | app/src/main/java/com/dev/notenest/NoteDatabaseHelper.kt:33 | with primary-key ids at most one row matches an id |
| NoteDatabase.DeleteWhereId | app/src/main/java/com/dev/notenest/NoteDatabaseHelper.kt:109 | the delete keeps exactly the rows with another id, and the row count drops by the number matched |
| NoteDatabase.DeleteKeepsIdsAscending | app/src/main/java/com/dev/notenest/NoteDatabaseHelper.kt:106-113 | deleting keeps the rows in ascending id order |
| NoteDatabase.UpdateWhereId | app/src/main/java/com/dev/notenest/NoteDatabaseHelper.kt:65-74 | the update keeps every id, leaves the other rows as they were, and gives the matching row the new title, content and timestamp |
| NoteDatabase.InsertByTimestamp | app/src/main/java/com/dev/notenest/NoteDatabaseHelper.kt:84-92 | placing a row in the result adds exactly that row |
| NoteDatabase.InsertByTimestampSorted | app/src/main/java/com/dev/notenest/NoteDatabaseHelper.kt:84-92 | placing a row keeps the result in non-increasing timestamp text order |
| NoteDatabase.OrderByTimestampDesc | app/src/main/java/com/dev/notenest/NoteDatabaseHelper.kt:84-92 | the `ORDER BY timestamp DESC` result is a permutation of the rows in non-increasing timestamp text order |
| NoteDatabase.InsertByTimestampTies | app/src/main/java/com/dev/notenest/NoteDatabaseHelper.kt:84-92 | placing a row with an id below every other goes before the rows with an equal timestamp |
| NoteDatabase.OrderTiesByAscendingId | app/src/main/java/com/dev/notenest/NoteDatabaseHelper.kt:84-92 | in the model's result, rows with equal timestamps come in ascending id, a tie order SQLite does not promise |
| NoteDatabase.NoteDatabaseHelper.constructor | app/src/main/java/com/dev/notenest/NoteDatabaseHelper.kt:30-40 | `onCreate` makes the four-column table recorded at version 2, empty, with no id handed out |
| NoteDatabase.NoteDatabaseHelper.OpenVersion1 | app/src/main/java/com/dev/notenest/NoteDatabaseHelper.kt:42-44 | a file written at version 1 opens as the three-column table recorded at version 1, the state `onUpgrade` is called on |
| NoteDatabase.NoteDatabaseHelper.OnUpgrade | app/src/main/java/com/dev/notenest/NoteDatabaseHelper.kt:42-46 | called with the recorded version and a later one, it changes the schema as `UpgradedSchema` says, so a version-1 table ends with the columns `onCreate` makes, and records the new version; the rows are untouched |
| NoteDatabase.NoteDatabaseHelper.InsertNote | app/src/main/java/com/dev/notenest/NoteDatabaseHelper.kt:49-62 | on a table at version 2, success returns the next id after every id ever issued (held by no current or deleted row), appends exactly one row with the title, the content and the clock's timestamp, and leaves the other rows alone; failure, or ids used up, returns -1 and changes nothing |
| NoteDatabase.NoteDatabaseHelper.UpdateNote | app/src/main/java/com/dev/notenest/NoteDatabaseHelper.kt:65-78 | on a table at version 2, returns 1 and re-stamps exactly the row with that id when it exists; returns 0 and changes nothing for an absent id or a failure |
| NoteDatabase.NoteDatabaseHelper.DeleteNote | app/src/main/java/com/dev/notenest/NoteDatabaseHelper.kt:106-113 | on a table at version 2, returns 1 and removes exactly the row with that id when it exists; returns 0 and changes nothing for an absent id or a failure |
| NoteDatabase.NoteDatabaseHelper.GetAllNotes | app/src/main/java/com/dev/notenest/NoteDatabaseHelper.kt:81-103 | on a table at version 2, changes nothing and copies the ordered result set row by row: every row exactly once, largest timestamp text first, ties in the model's fixed order |
| NoteDatabase.DeletedIdIsNeverListed | app/src/main/java/com/dev/notenest/NoteDatabaseHelper.kt:106-113 | after `deleteNote(id)` no listed note carries that id |
| NoteDatabase.StoredIdsArePositive | app/src/main/java/com/dev/notenest/NoteDatabaseHelper.kt:33 | every stored id was issued, so none is the failure value -1 |
| Activity.DeleteEachWhereId | app/src/main/java/com/dev/notenest/MainActivity.kt:101-104 | one `deleteNote` per selected note, in order, only removes rows |
| Activity.DeletedSelectionLeavesTable | app/src/main/java/com/dev/notenest/MainActivity.kt:101-104 | a selected note whose delete did not fail has no row left with its id |
| Activity.DeleteEachKeepsOthers | app/src/main/java/com/dev/notenest/MainActivity.kt:101-104 | a row whose id no successful delete names stays in the table |
| Activity.DeleteEachWhereIdMembers | app/src/main/java/com/dev/notenest/MainActivity.kt:101-104 | after the deletes a row is in the table exactly when it was before and no successful delete named its id |
| Activity.NegativeRemovalIsInvalid | app/src/main/java/com/dev/notenest/MainActivity.kt:107-109 | once a removal event names a negative position, the events describe no valid adapter change |
| Activity.AbsentSelectionNotifiesMinusOne | app/src/main/java/com/dev/notenest/MainActivity.kt:96-98 | a selected note absent from the list gets position -1, which is notified as a removal and invalidates the notifications |
| Activity.RangeInsertedCount | app/src/main/java/com/dev/notenest/MainActivity.kt:69-77 | the reload's range insertion is valid exactly when the list did not shrink, and then ends at the new size; from an empty list it counts every note |
| Activity.NotifyRemovals | app/src/main/java/com/dev/notenest/MainActivity.kt:107-109 | the loop notifies one removal per position, in order |
| Activity.MainActivity.constructor | app/src/main/java/com/dev/notenest/MainActivity.kt:20 | the list starts empty and the helper is the given table, which is at version 2 |
| Activity.MainActivity.OnCreateNoteResult | app/src/main/java/com/dev/notenest/MainActivity.kt:42-53 | on `RESULT_OK` the note is inserted (never updated), one note with the returned id (even -1) and the millisecond text is appended, and an insertion at the new last index is notified; a stored insert advances the helper's last id to the fresh id and adds it to the issued ids, a failed one leaves them; any other result changes nothing |
| Activity.MainActivity.LoadNotesFromDatabase | app/src/main/java/com/dev/notenest/MainActivity.kt:68-78 | the list becomes exactly the `getAllNotes` result (old contents discarded) and one range insertion at 0 counting new size minus old size is notified |
| Activity.MainActivity.OnDeleteSelectedNotes | app/src/main/java/com/dev/notenest/MainActivity.kt:94-113 | each selected note is deleted by id and its first equal value removed from the list; the removals of the positions taken before any removal are notified in non-increasing order |
| Activity.MainActivity.DeleteSelectedNote | app/src/main/java/com/dev/notenest/MainActivity.kt:101-104 | one turn of the loop: the table loses the row with the note's id unless the delete fails, and the list loses the first value equal to the note |
| Activity.MainActivity.OnSwiped | app/src/main/java/com/dev/notenest/MainActivity.kt:126-140 | the swiped note's id is deleted from the table, the list loses exactly that position, and its removal is notified there |
| Activity.SwipeEventReplays | app/src/main/java/com/dev/notenest/MainActivity.kt:135-136 | the swipe's removal event replayed on the old list gives the new list, and the count stays in range |
| Activity.SaveEventCount | app/src/main/java/com/dev/notenest/MainActivity.kt:50-51 | the save callback's insertion at the new last index is in range and ends at the new size |

## Left out

- User interface: view setup in `onCreate`, the floating button, `ItemTouchHelper` and `onMove`, toasts, and all of `NotesAdapter` and `CreateNoteActivity`. Adapter notifications are kept only as abstract events.
- `onEditNoteClicked`: it only builds an intent. Its result comes back through the same callback, which always inserts, as `OnCreateNoteResult` models.
- SQLite internals: the `SQLiteOpenHelper` lifecycle, `writableDatabase`/`readableDatabase`, the cursor API, and the exceptions themselves. A failure is the `fails` parameter.
- The clock and the locale. `Date()` and `SimpleDateFormat` with `Locale.getDefault()` become a `DateTime` parameter, written with ASCII digits. `System.currentTimeMillis()` becomes a `nat` parameter.
- Timestamps.ValidDateTime: checks field ranges only. Days per month are calendar arithmetic and are not checked.
- The back-fill value of the added column. The model assumes the `ALTER TABLE ... ADD COLUMN` succeeds and promises only that the column is added when `oldVersion < 2`. SQLite in fact refuses a `DEFAULT CURRENT_TIMESTAMP` default on an added column, and a successful default would use SQLite's own format.
- NoteDatabase.NoteDatabaseHelper.OnUpgrade: requires a later version. A downgrade goes to the default `onDowngrade`, which throws and leaves the file at its version; that path is not modelled.
- NoteDatabase.NoteDatabaseHelper.OpenVersion1: opens an empty version-1 table. Rows written by version 1 have no timestamp, and since no back-fill value is promised they are not modelled.
- Nullable columns: the table's text columns may hold NULL, but every modelled note carries four strings. Ids are unbounded integers, kept within SQLite's rowid range by `MaxRowId`.
- NoteDatabase.NoteDatabaseHelper.GetAllNotes: returns equal timestamps in ascending id (`OrderTiesByAscendingId`), where SQLite fixes no order. The other properties proved about the result hold for any tie order: every row once, non-increasing text.
- Activity.MainActivity.OnSwiped: requires a position inside the list. The source would throw for `RecyclerView.NO_POSITION` (-1), and that path is not modelled.
