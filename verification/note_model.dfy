/**
 * The records that travel through the server: the stored note
 * (backend/realtime-note-backend/models/Note.js), the events handed to
 * `io.emit`, and the presence messages a client sends over its socket.
 */
module NoteModel {
  import opened Wrappers

  type NoteId = string
  type UserId = string
  /** `Date.now()` values are opaque inputs to the model. */
  type Timestamp = int

  /** A stored note: Mongo's `_id` plus the schema's four fields. */
  datatype Note = Note(id: NoteId, title: string, content: string, updatedAt: Timestamp, author: UserId)

  /** A collection in which every stored note is filed under its own `_id`. */
  predicate WellKeyed(store: map<NoteId, Note>) {
    forall id :: id in store ==> store[id].id == id
  }

  /** The payloads of `io.emit`, one constructor per event name. */
  datatype Event =
    | NoteCreated(note: Note)
    | NoteUpdated(note: Note)
    | NoteDeleted(noteId: NoteId)
    | ActiveEditors(noteId: NoteId, editors: seq<UserId>)

  /**
   * The socket messages a client sends. A `stopEditing` payload may carry a
   * `null` note id or an `undefined` user id; a `startEditing` payload never does.
   */
  datatype PresenceMessage =
    | StartEditing(noteId: NoteId, userId: UserId)
    | StopEditing(stopNoteId: Option<NoteId>, stopUserId: Option<UserId>)
}
