/**
 * The note record. Kotlin's `data class` gives `Note` structural equality
 * over all four fields; a Dafny datatype has exactly that equality, and
 * none of its fields can be null.
 */
module Notes {

  /** `id` is a `val`; `title`, `content` and `timestamp` are `var`s. */
  datatype Note = Note(id: int, title: string, content: string, timestamp: string)

  /**
   * Assigning the three `var` fields. The result is the note as it is after
   * the assignments: there is no way to give a note another id.
   */
  function Reassigned(n: Note, title: string, content: string, timestamp: string): (r: Note)
    ensures r.id == n.id
    ensures r.title == title && r.content == content && r.timestamp == timestamp
    ensures r == n <==> (n.title == title && n.content == content && n.timestamp == timestamp)
  {
    n.(title := title, content := content, timestamp := timestamp)
  }

  /** Two notes are equal exactly when all four fields are. */
  lemma EqualityIsStructural(a: Note, b: Note)
    ensures a == b <==>
      (a.id == b.id && a.title == b.title && a.content == b.content && a.timestamp == b.timestamp)
  {
  }

  /**
   * A note whose title, content or timestamp was edited is a different
   * value from the original, although it has the same id: lookups in a list
   * of notes (`indexOf`, `remove`) are by value, never by id.
   */
  lemma EditedNoteIsAnotherValue(n: Note, title: string, content: string, timestamp: string)
    requires n.title != title || n.content != content || n.timestamp != timestamp
    ensures Reassigned(n, title, content, timestamp).id == n.id
    ensures Reassigned(n, title, content, timestamp) != n
  {
  }
}
