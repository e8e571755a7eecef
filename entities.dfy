/** The entities of the notes backend as values: notes, tags, to-do items,
    the payload of an update, and the failures the note service raises. */
module Entities {
  import opened Wrappers

  type NoteId = int
  type TagId = int
  type NotebookId = int
  type UserId = string

  /** A to-do item. It is owned by exactly one note and lives inside it, so it
      disappears together with its note. */
  datatype Todo = Todo(title: string, done: bool)

  /** A stored note. `tags` is the forward side of the Note<->Tag relation:
      a set of tags, held as the sequence of its iteration order. */
  datatype Note = Note(
    id: NoteId,
    title: string,
    content: string,
    userId: UserId,
    favorite: bool,
    archived: bool,
    notebook: Option<NotebookId>,
    tags: seq<TagId>,
    todos: seq<Todo>)

  /** A stored tag. `notes` is the inverse side of the Note<->Tag relation. */
  datatype Tag = Tag(id: TagId, name: string, userId: UserId, notes: set<NoteId>)

  /** The note sent to updateNote: an absent notebook means "keep the current
      one"; an absent tag set means "do not touch the tags", while an empty
      set clears them. Only the ids of the payload's tags are used; they are
      held in the payload set's iteration order, and two payload tag objects
      may carry the same id. */
  datatype NoteUpdate = NoteUpdate(
    id: NoteId,
    title: string,
    content: string,
    favorite: bool,
    archived: bool,
    notebook: Option<NotebookId>,
    tags: Option<seq<TagId>>)

  /** The exceptions of the note service, one constructor each:
      NoteNotFound  - NoteNotFoundException("Note not found") from getNoteById,
      EntityNotFound - EntityNotFoundException("Note not found") from deleteNote,
      NotAuthorized - SecurityException("Not authorized to access this note"),
      TagNotFound   - RuntimeException("Tag nicht gefunden: " + id). */
  datatype Error = NoteNotFound | EntityNotFound | NotAuthorized | TagNotFound(tagId: TagId)

  datatype Result<+T> = Ok(value: T) | Err(error: Error)

  /** The outcome of an operation that returns nothing. */
  datatype Outcome = Pass | Fail(error: Error)
}
