/**
 * backend/realtime-note-backend/controller/notesController.js: the note CRUD
 * handlers and the `startEditing`/`stopEditing` socket handlers.
 *
 * The Mongo collection is the map `notes` from `_id` to note, `io.emit` appends
 * to `emitted`, and the module-level `activeEditors` map is a field. Each
 * handler runs to completion without interleaving. How the store behaves on a
 * request (its queries and writes succeed, or one of them throws) is an input.
 * Note ids are the canonical `_id` strings and are compared as strings.
 */
module NotesController {
  import opened Wrappers
  import opened NoteModel
  import Presence
  import Sequences

  /** How the store behaves during one request. */
  datatype Storage =
    | Healthy
    | LookupFails  // `findById` / `find` throws (for instance an id that is not an ObjectId)
    | WriteFails   // `save` / `deleteOne` throws (validation, duplicate key, connection)

  datatype Body = NoteBody(note: Note) | NotesBody(notes: set<Note>) | MessageBody(message: string)

  /** `res.status(status).json(body)`. */
  datatype Response = Response(status: int, body: Body)

  predicate IsSuccess(r: Response) {
    200 <= r.status < 300
  }

  class Controller {
    /** noteId -> the users editing it, in first-insertion order. */
    var activeEditors: map<NoteId, seq<UserId>>
    /** The notes collection, keyed by `_id`. */
    var notes: map<NoteId, Note>
    /** Every event handed to `io.emit`, oldest first. */
    var emitted: seq<Event>

    ghost predicate Valid()
      reads this
    {
      && (forall n :: n in activeEditors ==> Sequences.NoDup(activeEditors[n]))
      && WellKeyed(notes)
    }

    constructor (stored: map<NoteId, Note>)
      requires WellKeyed(stored)
      ensures Valid()
      ensures notes == stored && activeEditors == map[] && emitted == []
    {
      notes := stored;
      activeEditors := map[];
      emitted := [];
    }

    /**
     * `createNote`: stores a note authored by the requesting user and emits
     * `noteCreated` only once the save has succeeded; a failed save replies 400
     * and emits nothing.
     */
    method CreateNote(title: string, content: string, userId: UserId, newId: NoteId, now: Timestamp, storage: Storage)
      returns (resp: Response)
      requires Valid()
      modifies this
      ensures Valid()
      ensures activeEditors == old(activeEditors)
      ensures storage == WriteFails || newId in old(notes) ==>
        && resp == Response(400, MessageBody("Failed to create note"))
        && notes == old(notes) && emitted == old(emitted)
      ensures storage != WriteFails && newId !in old(notes) ==>
        var created := Note(newId, title, content, now, userId);
        && resp == Response(201, NoteBody(created))
        && notes == old(notes)[newId := created]
        && emitted == old(emitted) + [NoteCreated(created)]
      ensures IsSuccess(resp) <==> emitted != old(emitted)
    {
      var newNote := Note(newId, title, content, now, userId);
      if storage == WriteFails || newId in notes {
        // `save` rejects: a duplicate `_id` is a duplicate-key error
        resp := Response(400, MessageBody("Failed to create note"));
        return;
      }
      notes := notes[newId := newNote];
      emitted := emitted + [NoteCreated(newNote)];
      resp := Response(201, NoteBody(newNote));
    }

    /** `getNotes`: replies with every stored note; changes nothing and emits nothing. */
    method GetNotes(storage: Storage) returns (resp: Response)
      ensures resp.status == 200 <==> storage != LookupFails
      ensures resp.status == 200 ==> resp.body == NotesBody(notes.Values)
      ensures resp.status != 200 ==> resp == Response(400, MessageBody("Failed to fetch notes"))
    {
      if storage == LookupFails {
        resp := Response(400, MessageBody("Failed to fetch notes"));
      } else {
        resp := Response(200, NotesBody(notes.Values));
      }
    }

    /**
     * `updateNote`: a missing id replies 404, a failing store 400, both with no
     * change and no event. On success only `title`, `content` and `updatedAt`
     * change, and one `noteUpdated` carrying the saved note is emitted.
     */
    method UpdateNote(noteId: NoteId, title: string, content: string, now: Timestamp, storage: Storage)
      returns (resp: Response)
      requires Valid()
      modifies this
      ensures Valid()
      ensures activeEditors == old(activeEditors)
      ensures storage == LookupFails ==> resp == Response(400, MessageBody("Failed to update note"))
      ensures storage != LookupFails && noteId !in old(notes) ==> resp == Response(404, MessageBody("Note not found"))
      ensures storage == WriteFails && noteId in old(notes) ==> resp == Response(400, MessageBody("Failed to update note"))
      ensures !IsSuccess(resp) ==> notes == old(notes) && emitted == old(emitted)
      ensures storage == Healthy && noteId in old(notes) ==> noteId in notes
      ensures storage == Healthy && noteId in old(notes) ==>
        var saved := notes[noteId];
        && resp == Response(200, NoteBody(saved))
        && notes == old(notes)[noteId := saved]
        && saved.id == noteId && saved.author == old(notes)[noteId].author
        && saved.title == title && saved.content == content && saved.updatedAt == now
        && emitted == old(emitted) + [NoteUpdated(saved)]
      ensures IsSuccess(resp) <==> storage == Healthy && noteId in old(notes)
    {
      if storage == LookupFails {
        resp := Response(400, MessageBody("Failed to update note"));
        return;
      }
      if noteId !in notes {
        resp := Response(404, MessageBody("Note not found"));
        return;
      }
      var note := notes[noteId];
      note := note.(title := title);
      note := note.(content := content);
      note := note.(updatedAt := now);
      if storage == WriteFails {
        resp := Response(400, MessageBody("Failed to update note"));
        return;
      }
      notes := notes[noteId := note];
      emitted := emitted + [NoteUpdated(note)];
      resp := Response(200, NoteBody(note));
    }

    /**
     * `deleteNote`: a missing id replies 404, a failing store 400, both with no
     * change and no event. On success the note is gone and one `noteDeleted`
     * carrying just its id is emitted.
     */
    method DeleteNote(noteId: NoteId, storage: Storage) returns (resp: Response)
      requires Valid()
      modifies this
      ensures Valid()
      ensures activeEditors == old(activeEditors)
      ensures storage == LookupFails ==> resp == Response(400, MessageBody("Failed to delete note"))
      ensures storage != LookupFails && noteId !in old(notes) ==> resp == Response(404, MessageBody("Note not found"))
      ensures storage == WriteFails && noteId in old(notes) ==> resp == Response(400, MessageBody("Failed to delete note"))
      ensures !IsSuccess(resp) ==> notes == old(notes) && emitted == old(emitted)
      ensures storage == Healthy && noteId in old(notes) ==>
        && resp == Response(200, MessageBody("Note deleted successfully"))
        && notes == old(notes) - {noteId}
        && emitted == old(emitted) + [NoteDeleted(noteId)]
      ensures IsSuccess(resp) <==> storage == Healthy && noteId in old(notes)
    {
      if storage == LookupFails {
        resp := Response(400, MessageBody("Failed to delete note"));
        return;
      }
      if noteId !in notes {
        resp := Response(404, MessageBody("Note not found"));
        return;
      }
      if storage == WriteFails {
        resp := Response(400, MessageBody("Failed to delete note"));
        return;
      }
      notes := notes - {noteId};
      emitted := emitted + [NoteDeleted(noteId)];
      resp := Response(200, MessageBody("Note deleted successfully"));
    }

    /**
     * The `startEditing` handler: creates the note's set on first use, adds the
     * user, and emits one `activeEditors` event with the note's current members,
     * even when the user was already one.
     */
    method StartEditing(noteId: NoteId, userId: UserId)
      requires Valid()
      modifies this
      ensures Valid()
      ensures notes == old(notes)
      ensures noteId in activeEditors && userId in activeEditors[noteId]
      ensures activeEditors == old(activeEditors)[noteId := activeEditors[noteId]]
      ensures Some(activeEditors[noteId]) == Presence.Step(Presence.Lookup(old(activeEditors), noteId), Presence.Start(userId))
      ensures userId in Presence.Members(Presence.Lookup(old(activeEditors), noteId)) ==> activeEditors == old(activeEditors)
      ensures emitted == old(emitted) + [ActiveEditors(noteId, activeEditors[noteId])]
    {
      if noteId !in activeEditors {
        activeEditors := activeEditors[noteId := []];
      }
      var members := Presence.Add(activeEditors[noteId], userId);
      activeEditors := activeEditors[noteId := members];
      emitted := emitted + [ActiveEditors(noteId, members)];
    }

    /**
     * The `stopEditing` handler: for a note with an entry, removes the user (if
     * present) and always emits one `activeEditors` event, keeping the entry even
     * when it becomes empty. For a note id with no entry (including a `null` one)
     * it changes nothing and emits nothing.
     */
    method StopEditing(noteId: Option<NoteId>, userId: Option<UserId>)
      requires Valid()
      modifies this
      ensures Valid()
      ensures notes == old(notes)
      ensures noteId.None? || noteId.value !in old(activeEditors) ==>
        activeEditors == old(activeEditors) && emitted == old(emitted)
      ensures noteId.Some? && noteId.value in old(activeEditors) ==>
        var n := noteId.value;
        && n in activeEditors
        && activeEditors == old(activeEditors)[n := activeEditors[n]]
        && activeEditors[n] == (if userId.Some? then Presence.Remove(old(activeEditors)[n], userId.value) else old(activeEditors)[n])
        && emitted == old(emitted) + [ActiveEditors(n, activeEditors[n])]
    {
      if noteId.Some? && noteId.value in activeEditors {
        var n := noteId.value;
        var members := activeEditors[n];
        if userId.Some? {
          // `Set.delete(undefined)` finds nothing to remove in a set of user ids
          members := Presence.Remove(members, userId.value);
        }
        activeEditors := activeEditors[n := members];
        emitted := emitted + [ActiveEditors(n, members)];
      }
    }
  }
}
