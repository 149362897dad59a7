/**
 * frontend/realtime-note-frontend/src/components/Dashboard.jsx: the client's
 * mirror of the server. The state updates passed to `setNotes` and
 * `setActiveEditors` are functions on values; the component's hook state is a
 * class whose handler methods update it in the order the source does.
 *
 * A note on the client is a plain object: a map from field name to value, so
 * that the spread `{...note, ...res.data}` is map union with the right side winning.
 */
module Dashboard {
  import opened Wrappers
  import opened NoteModel
  import JsString
  import opened Sequences

  /** The JSON values a note object holds. */
  datatype Value = Str(s: string) | Num(n: int) | Null

  type Doc = map<string, Value>

  /** `d._id`; None when the field is absent (`undefined`). */
  function IdOf(d: Doc): Option<Value> {
    if "_id" in d then Some(d["_id"]) else None
  }

  /** The JSON form in which the server sends a stored note. */
  function ToDoc(n: Note): (d: Doc)
    ensures IdOf(d) == Some(Str(n.id))
  {
    map["_id" := Str(n.id), "title" := Str(n.title), "content" := Str(n.content),
        "updatedAt" := Num(n.updatedAt), "author" := Str(n.author)]
  }

  /** `editingNoteId` as a JavaScript value: the id string, or `null`. */
  function AsValue(id: Option<NoteId>): Value {
    if id.Some? then Str(id.value) else Null
  }

  /** `{...base, ...over}`: every field of `over`, and the fields of `base` that `over` lacks. */
  function Spread(base: Doc, over: Doc): (r: Doc)
    ensures r.Keys == base.Keys + over.Keys
    ensures forall k :: k in over ==> r[k] == over[k]
    ensures forall k :: k in base && k !in over ==> r[k] == base[k]
  {
    base + over
  }

  /** A spread whose right side has every field of the left side is the right side. */
  lemma SpreadOverAllFields(base: Doc, over: Doc)
    requires base.Keys <= over.Keys
    ensures Spread(base, over) == over
  {
    assert Spread(base, over).Keys == over.Keys;
  }

  /**
   * The `noteUpdated` handler: `notes.map(note => note._id === u._id ? u : note)`.
   * Same length and order; exactly the notes with a matching id become `incoming`.
   */
  function ReplaceById(notes: seq<Doc>, incoming: Doc): (r: seq<Doc>)
    ensures |r| == |notes|
    ensures forall i :: 0 <= i < |notes| ==>
      r[i] == if IdOf(notes[i]) == IdOf(incoming) then incoming else notes[i]
    decreases |notes|
  {
    if notes == [] then []
    else [if IdOf(notes[0]) == IdOf(incoming) then incoming else notes[0]] + ReplaceById(notes[1..], incoming)
  }

  /**
   * The local follow-up of a successful update:
   * `notes.map(note => note._id === id ? {...note, ...data} : note)`.
   */
  function MergeById(notes: seq<Doc>, id: Value, data: Doc): (r: seq<Doc>)
    ensures |r| == |notes|
    ensures forall i :: 0 <= i < |notes| ==>
      r[i] == if IdOf(notes[i]) == Some(id) then Spread(notes[i], data) else notes[i]
    decreases |notes|
  {
    if notes == [] then []
    else [if IdOf(notes[0]) == Some(id) then Spread(notes[0], data) else notes[0]] + MergeById(notes[1..], id, data)
  }

  /**
   * The `noteDeleted` handler and the local follow-up of a delete:
   * `notes.filter(note => note._id !== id)`.
   */
  function RemoveById(notes: seq<Doc>, id: Option<Value>): (r: seq<Doc>)
    ensures forall d :: d in r <==> d in notes && IdOf(d) != id
    ensures |r| <= |notes|
    ensures NoDup(notes) ==> NoDup(r)
    decreases |notes|
  {
    if notes == [] then []
    else if IdOf(notes[0]) == id then RemoveById(notes[1..], id)
    else
      var rest := RemoveById(notes[1..], id);
      assert NoDup(notes) ==> notes[0] !in notes[1..] && NoDup(notes[1..]) by {
        if NoDup(notes) {
          forall k | 1 <= k < |notes| ensures notes[k] != notes[0] { }
        }
      }
      [notes[0]] + rest
  }

  /** Filtering works piecewise, so the notes that stay keep their relative order. */
  lemma {:induction false} RemoveByIdAppend(a: seq<Doc>, b: seq<Doc>, id: Option<Value>)
    ensures RemoveById(a + b, id) == RemoveById(a, id) + RemoveById(b, id)
    decreases |a|
  {
    if a == [] {
      assert a + b == b;
    } else {
      assert (a + b)[0] == a[0];
      assert (a + b)[1..] == a[1..] + b;
      RemoveByIdAppend(a[1..], b, id);
    }
  }

  /** Deleting an id no note carries leaves the list as it is. */
  lemma {:induction false} RemoveByIdAbsent(notes: seq<Doc>, id: Option<Value>)
    requires forall i :: 0 <= i < |notes| ==> IdOf(notes[i]) != id
    ensures RemoveById(notes, id) == notes
    decreases |notes|
  {
    if notes != [] {
      RemoveByIdAbsent(notes[1..], id);
      assert [notes[0]] + notes[1..] == notes;
    }
  }

  /** A `noteDeleted` for the id of a note that a `noteCreated` just prepended removes it again. */
  lemma CreateThenDelete(notes: seq<Doc>, d: Doc)
    ensures RemoveById([d] + notes, IdOf(d)) == RemoveById(notes, IdOf(d))
  {
    assert ([d] + notes)[1..] == notes;
  }

  /** The `activeEditors` handler: `{...prev, [noteId]: editors}`; every other note's list is kept. */
  function SetEditors(prev: map<NoteId, seq<UserId>>, noteId: NoteId, editors: seq<UserId>): (r: map<NoteId, seq<UserId>>)
    ensures noteId in r && r[noteId] == editors
    ensures forall k :: k != noteId ==> (k in r <==> k in prev)
    ensures forall k :: k != noteId && k in prev ==> r[k] == prev[k]
  {
    prev[noteId := editors]
  }

  /** What the four socket handlers keep: the note list and the editors map. */
  datatype View = View(notes: seq<Doc>, editors: map<NoteId, seq<UserId>>)

  /** One server event applied by the handler registered for it. */
  function OnEvent(v: View, e: Event): (r: View)
    ensures e.ActiveEditors? ==> r.notes == v.notes
    ensures !e.ActiveEditors? ==> r.editors == v.editors
    ensures e.NoteCreated? ==> |r.notes| == |v.notes| + 1 && r.notes[1..] == v.notes
    ensures e.NoteCreated? ==> r.notes == [ToDoc(e.note)] + v.notes
    ensures e.NoteUpdated? ==> |r.notes| == |v.notes|
    ensures e.NoteDeleted? ==> r.notes == RemoveById(v.notes, Some(Str(e.noteId)))
  {
    match e
    case NoteUpdated(n) => v.(notes := ReplaceById(v.notes, ToDoc(n)))
    case NoteCreated(n) => v.(notes := [ToDoc(n)] + v.notes)
    case NoteDeleted(id) => v.(notes := RemoveById(v.notes, Some(Str(id))))
    case ActiveEditors(id, editors) => v.(editors := SetEditors(v.editors, id, editors))
  }

  /**
   * After a successful update the client applies both its own merge and the
   * broadcast `noteUpdated`; when every listed note has the server's fields,
   * the two give the same list.
   */
  lemma MergeAgreesWithBroadcast(notes: seq<Doc>, n: Note)
    requires forall i :: 0 <= i < |notes| ==> notes[i].Keys <= ToDoc(n).Keys
    ensures MergeById(notes, Str(n.id), ToDoc(n)) == ReplaceById(notes, ToDoc(n))
  {
    var merged := MergeById(notes, Str(n.id), ToDoc(n));
    var replaced := ReplaceById(notes, ToDoc(n));
    forall i | 0 <= i < |notes| ensures merged[i] == replaced[i] {
      if IdOf(notes[i]) == Some(Str(n.id)) {
        SpreadOverAllFields(notes[i], ToDoc(n));
      }
    }
  }

  /**
   * Applying the same `noteUpdated` replacement twice is applying it once. So
   * when the reply arrives before the broadcast, the local merge (equal to the
   * replacement, MergeAgreesWithBroadcast) leaves nothing for the broadcast to change.
   */
  lemma ReplaceByIdIdempotent(notes: seq<Doc>, incoming: Doc)
    ensures ReplaceById(ReplaceById(notes, incoming), incoming) == ReplaceById(notes, incoming)
  {
    var once := ReplaceById(notes, incoming);
    forall i | 0 <= i < |notes| ensures ReplaceById(once, incoming)[i] == once[i] {
      if IdOf(notes[i]) == IdOf(incoming) {
        assert once[i] == incoming;
      }
    }
  }

  /** `getDisplayName`: `email.split("@")[0]`, the text before the first `@`, or all of it. */
  function DisplayName(email: string): (name: string)
    ensures name <= email
    ensures '@' !in name
    ensures '@' in email ==> |name| < |email| && email[|name|] == '@'
    ensures '@' !in email ==> name == email
  {
    JsString.FirstPiece(email, '@');
    JsString.Split(email, '@')[0]
  }

  /** JavaScript truthiness of a string that may be null or undefined. */
  predicate Truthy(s: Option<string>) {
    s.Some? && s.value != []
  }

  /**
   * The effect on `[editingNoteId, userId]`: `startEditing` when both are
   * truthy, otherwise `stopEditing` with the current, possibly null, note id.
   */
  function PresenceEffect(editingNoteId: Option<NoteId>, userId: Option<UserId>): (m: PresenceMessage)
    ensures m.StartEditing? <==> Truthy(editingNoteId) && Truthy(userId)
    ensures m.StartEditing? ==> Some(m.noteId) == editingNoteId && Some(m.userId) == userId
    ensures m.StopEditing? ==> m.stopNoteId == editingNoteId && m.stopUserId == userId
  {
    if Truthy(editingNoteId) && Truthy(userId) then StartEditing(editingNoteId.value, userId.value)
    else StopEditing(editingNoteId, userId)
  }

  /** The HTTP requests the component sends. */
  datatype Request =
    | PostNote(title: string, content: string, lastUpdatedBy: Option<string>)
    | PutNote(noteId: Option<NoteId>, title: string, content: string, lastUpdatedBy: Option<string>)
    | DeleteById(id: Option<Value>)

  const EmptyFieldsMessage := "Title and content cannot be empty."
  const CreateFailedMessage := "Failed to create note. Please try again."
  const UpdateFailedMessage := "Failed to update note. Please try again."
  const DeleteFailedMessage := "Failed to delete note. Please try again."

  /** The component's hook state. */
  class DashboardState {
    /** `decodedToken?.id` and `decodedToken?.username`. */
    const userId: Option<UserId>
    const username: Option<string>
    var notes: seq<Doc>
    var newNoteTitle: string
    var newNoteContent: string
    var editingNoteId: Option<NoteId>
    var editingNoteTitle: string
    var editingNoteContent: string
    var error: string
    var activeEditors: map<NoteId, seq<UserId>>

    constructor (userId: Option<UserId>, username: Option<string>)
      ensures this.userId == userId && this.username == username
      ensures notes == [] && activeEditors == map[] && editingNoteId == None
      ensures newNoteTitle == "" && newNoteContent == "" && editingNoteTitle == "" && editingNoteContent == ""
      ensures error == ""
    {
      this.userId := userId;
      this.username := username;
      notes := [];
      newNoteTitle, newNoteContent := "", "";
      editingNoteId := None;
      editingNoteTitle, editingNoteContent := "", "";
      error := "";
      activeEditors := map[];
    }

    /**
     * `createNote`: a blank title or content sets the message and sends nothing.
     * Otherwise the note is posted; the list itself changes only when the
     * server's `noteCreated` arrives. `succeeded` is whether the post succeeded.
     */
    method CreateNote(succeeded: bool) returns (request: Option<Request>)
      modifies this`newNoteTitle, this`newNoteContent, this`error
      ensures request.None? <==> JsString.IsBlank(old(newNoteTitle)) || JsString.IsBlank(old(newNoteContent))
      ensures request.None? ==>
        error == EmptyFieldsMessage && newNoteTitle == old(newNoteTitle) && newNoteContent == old(newNoteContent)
      ensures request.Some? ==> request.value == PostNote(old(newNoteTitle), old(newNoteContent), username)
      ensures request.Some? && succeeded ==> newNoteTitle == "" && newNoteContent == "" && error == ""
      ensures request.Some? && !succeeded ==>
        error == CreateFailedMessage && newNoteTitle == old(newNoteTitle) && newNoteContent == old(newNoteContent)
    {
      if JsString.IsBlank(newNoteTitle) || JsString.IsBlank(newNoteContent) {
        error := EmptyFieldsMessage;
        return None;
      }
      request := Some(PostNote(newNoteTitle, newNoteContent, username));
      if succeeded {
        newNoteTitle := "";
        newNoteContent := "";
        error := "";
      } else {
        error := CreateFailedMessage;
      }
    }

    /**
     * `updateNote`: a blank title or content sets the message and sends nothing.
     * Otherwise the note is put; on a reply `data` the matching notes become
     * `{...note, ...data}` and the editing state is reset; on failure only the
     * message is set. `reply` is the response body, None when the request failed.
     */
    method UpdateNote(reply: Option<Doc>) returns (request: Option<Request>)
      modifies this`notes, this`editingNoteId, this`editingNoteTitle, this`editingNoteContent, this`error
      ensures request.None? <==> JsString.IsBlank(old(editingNoteTitle)) || JsString.IsBlank(old(editingNoteContent))
      ensures request.None? ==>
        && error == EmptyFieldsMessage && notes == old(notes) && editingNoteId == old(editingNoteId)
        && editingNoteTitle == old(editingNoteTitle) && editingNoteContent == old(editingNoteContent)
      ensures request.Some? ==>
        request.value == PutNote(old(editingNoteId), old(editingNoteTitle), old(editingNoteContent), username)
      ensures request.Some? && reply.Some? ==>
        && notes == MergeById(old(notes), AsValue(old(editingNoteId)), reply.value)
        && editingNoteId == None && editingNoteTitle == "" && editingNoteContent == "" && error == ""
      ensures request.Some? && reply.None? ==>
        && error == UpdateFailedMessage && notes == old(notes) && editingNoteId == old(editingNoteId)
        && editingNoteTitle == old(editingNoteTitle) && editingNoteContent == old(editingNoteContent)
    {
      if JsString.IsBlank(editingNoteTitle) || JsString.IsBlank(editingNoteContent) {
        error := EmptyFieldsMessage;
        return None;
      }
      request := Some(PutNote(editingNoteId, editingNoteTitle, editingNoteContent, username));
      if reply.Some? {
        notes := MergeById(notes, AsValue(editingNoteId), reply.value);
        editingNoteId := None;
        editingNoteTitle := "";
        editingNoteContent := "";
        error := "";
      } else {
        error := UpdateFailedMessage;
      }
    }

    /** `deleteNote(id)`: always sends; on success drops the notes with that id. */
    method DeleteNote(id: Option<Value>, succeeded: bool) returns (request: Request)
      modifies this`notes, this`error
      ensures request == DeleteById(id)
      ensures succeeded ==> notes == RemoveById(old(notes), id) && error == ""
      ensures !succeeded ==> notes == old(notes) && error == DeleteFailedMessage
    {
      request := DeleteById(id);
      if succeeded {
        notes := RemoveById(notes, id);
        error := "";
      } else {
        error := DeleteFailedMessage;
      }
    }

    /** The edit button of a listed note: its id, title and content become the editing state. */
    method BeginEdit(id: NoteId, title: string, content: string)
      modifies this`editingNoteId, this`editingNoteTitle, this`editingNoteContent
      ensures editingNoteId == Some(id) && editingNoteTitle == title && editingNoteContent == content
    {
      editingNoteId := Some(id);
      editingNoteTitle := title;
      editingNoteContent := content;
    }

    /** The cancel button: clears only the editing id. */
    method CancelEdit()
      modifies this`editingNoteId
      ensures editingNoteId == None
    {
      editingNoteId := None;
    }

    /** A server event delivered to the socket handlers registered on mount. */
    method Receive(e: Event)
      modifies this`notes, this`activeEditors
      ensures View(notes, activeEditors) == OnEvent(old(View(notes, activeEditors)), e)
    {
      var v := OnEvent(View(notes, activeEditors), e);
      notes := v.notes;
      activeEditors := v.editors;
    }
  }
}
