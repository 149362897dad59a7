/**
 * The server and one connected client together. Every handler in
 * backend/realtime-note-backend/controller/notesController.js broadcasts what
 * it changed, and the client's socket handlers in
 * frontend/realtime-note-frontend/src/components/Dashboard.jsx apply each
 * event. This module proves the point of that design: a client that starts in
 * sync and receives every event in order stays in sync. Its note list shows
 * exactly the stored notes, once each, and its editors map equals the server's.
 */
module Broadcast {
  import opened Wrappers
  import opened NoteModel
  import opened Sequences
  import Presence
  import NotesController
  import Dashboard
  import JsString

  /** The note id a listed object carries, when its `_id` is a string. */
  function StoredId(d: Dashboard.Doc): Option<NoteId> {
    var v := Dashboard.IdOf(d);
    if v.Some? && v.value.Str? then Some(v.value.s) else None
  }

  /** `d` is the JSON form of the stored note its `_id` names. */
  predicate ShowsStored(store: map<NoteId, Note>, d: Dashboard.Doc) {
    var id := StoredId(d);
    id.Some? && id.value in store && d == Dashboard.ToDoc(store[id.value])
  }

  /** Every listed object is a stored note as the server sends it. */
  predicate OnlyStored(docs: seq<Dashboard.Doc>, store: map<NoteId, Note>) {
    forall i :: 0 <= i < |docs| ==> ShowsStored(store, docs[i])
  }

  /** Every stored note is listed. */
  predicate ListsAll(docs: seq<Dashboard.Doc>, store: map<NoteId, Note>) {
    forall id :: id in store ==> Dashboard.ToDoc(store[id]) in docs
  }

  /** The client's list shows each stored note exactly once, as the server sends it, and nothing else. */
  predicate Mirrors(docs: seq<Dashboard.Doc>, store: map<NoteId, Note>) {
    WellKeyed(store) && NoDup(docs) && OnlyStored(docs, store) && ListsAll(docs, store)
  }

  predicate InSync(v: Dashboard.View, store: map<NoteId, Note>, editors: map<NoteId, seq<UserId>>) {
    Mirrors(v.notes, store) && v.editors == editors
  }

  /** With nothing stored, a mirroring client lists nothing. */
  lemma MirrorOfEmptyStore(docs: seq<Dashboard.Doc>)
    requires Mirrors(docs, map[])
    ensures docs == []
  {
    assert docs != [] ==> !ShowsStored(map[], docs[0]);
  }

  /**
   * The `noteCreated` handler keeps the mirror when the server stores a note
   * under a new id. (The three parts are proved separately to keep each proof small.)
   */
  lemma CreatedKeepsMirror(docs: seq<Dashboard.Doc>, store: map<NoteId, Note>, n: Note)
    requires Mirrors(docs, store) && n.id !in store
    ensures Mirrors([Dashboard.ToDoc(n)] + docs, store[n.id := n])
  {
    CreatedOnlyStored(docs, store, n);
    CreatedNoDup(docs, store, n);
    CreatedListsAll(docs, store, n);
  }

  lemma CreatedOnlyStored(docs: seq<Dashboard.Doc>, store: map<NoteId, Note>, n: Note)
    requires Mirrors(docs, store) && n.id !in store
    ensures OnlyStored([Dashboard.ToDoc(n)] + docs, store[n.id := n])
  {
    var r := [Dashboard.ToDoc(n)] + docs;
    forall i | 0 <= i < |r| ensures ShowsStored(store[n.id := n], r[i]) {
      if i > 0 {
        assert r[i] == docs[i - 1] && ShowsStored(store, docs[i - 1]);
      }
    }
  }

  lemma CreatedNoDup(docs: seq<Dashboard.Doc>, store: map<NoteId, Note>, n: Note)
    requires Mirrors(docs, store) && n.id !in store
    ensures NoDup([Dashboard.ToDoc(n)] + docs)
  {
    var r := [Dashboard.ToDoc(n)] + docs;
    forall i, j | 0 <= i < j < |r| ensures r[i] != r[j] {
      assert r[j] == docs[j - 1] && ShowsStored(store, docs[j - 1]);
      if i > 0 {
        assert r[i] == docs[i - 1];
      }
    }
  }

  lemma CreatedListsAll(docs: seq<Dashboard.Doc>, store: map<NoteId, Note>, n: Note)
    requires Mirrors(docs, store) && n.id !in store
    ensures ListsAll([Dashboard.ToDoc(n)] + docs, store[n.id := n])
  {
    var store' := store[n.id := n];
    var r := [Dashboard.ToDoc(n)] + docs;
    forall id | id in store' ensures Dashboard.ToDoc(store'[id]) in r {
      if id != n.id {
        assert Dashboard.ToDoc(store[id]) in docs;
      } else {
        assert r[0] == Dashboard.ToDoc(n);
      }
    }
  }

  /** One listed object after `noteUpdated`: replaced when it carries the note's id, kept otherwise. */
  lemma ReplacedShowsStored(store: map<NoteId, Note>, d: Dashboard.Doc, n: Note)
    requires WellKeyed(store) && ShowsStored(store, d) && n.id in store
    ensures ShowsStored(store[n.id := n], if Dashboard.IdOf(d) == Some(Dashboard.Str(n.id)) then Dashboard.ToDoc(n) else d)
  {
  }

  /** Two distinct listed objects stay distinct after `noteUpdated`. */
  lemma ReplacedDistinct(store: map<NoteId, Note>, a: Dashboard.Doc, b: Dashboard.Doc, n: Note)
    requires ShowsStored(store, a) && ShowsStored(store, b) && a != b
    ensures (if Dashboard.IdOf(a) == Some(Dashboard.Str(n.id)) then Dashboard.ToDoc(n) else a)
         != (if Dashboard.IdOf(b) == Some(Dashboard.Str(n.id)) then Dashboard.ToDoc(n) else b)
  {
  }

  /**
   * The `noteUpdated` handler keeps the mirror when the server overwrites a
   * stored note. (The three parts are proved separately to keep each proof small.)
   */
  lemma UpdatedKeepsMirror(docs: seq<Dashboard.Doc>, store: map<NoteId, Note>, n: Note)
    requires Mirrors(docs, store) && n.id in store
    ensures Mirrors(Dashboard.ReplaceById(docs, Dashboard.ToDoc(n)), store[n.id := n])
  {
    UpdatedOnlyStored(docs, store, n);
    UpdatedNoDup(docs, store, n);
    UpdatedListsAll(docs, store, n);
  }

  lemma UpdatedOnlyStored(docs: seq<Dashboard.Doc>, store: map<NoteId, Note>, n: Note)
    requires Mirrors(docs, store) && n.id in store
    ensures OnlyStored(Dashboard.ReplaceById(docs, Dashboard.ToDoc(n)), store[n.id := n])
  {
    var r := Dashboard.ReplaceById(docs, Dashboard.ToDoc(n));
    forall i | 0 <= i < |r| ensures ShowsStored(store[n.id := n], r[i]) {
      ReplacedShowsStored(store, docs[i], n);
    }
  }

  lemma UpdatedNoDup(docs: seq<Dashboard.Doc>, store: map<NoteId, Note>, n: Note)
    requires Mirrors(docs, store)
    ensures NoDup(Dashboard.ReplaceById(docs, Dashboard.ToDoc(n)))
  {
    var r := Dashboard.ReplaceById(docs, Dashboard.ToDoc(n));
    forall i, j | 0 <= i < j < |r| ensures r[i] != r[j] {
      ReplacedDistinct(store, docs[i], docs[j], n);
    }
  }

  lemma UpdatedListsAll(docs: seq<Dashboard.Doc>, store: map<NoteId, Note>, n: Note)
    requires Mirrors(docs, store) && n.id in store
    ensures ListsAll(Dashboard.ReplaceById(docs, Dashboard.ToDoc(n)), store[n.id := n])
  {
    var store' := store[n.id := n];
    var r := Dashboard.ReplaceById(docs, Dashboard.ToDoc(n));
    forall id | id in store' ensures Dashboard.ToDoc(store'[id]) in r {
      var d := Dashboard.ToDoc(store[id]);
      var i :| 0 <= i < |docs| && docs[i] == d;
      assert Dashboard.IdOf(d) == Some(Dashboard.Str(id));
      if id == n.id {
        assert r[i] == Dashboard.ToDoc(n);
      } else {
        assert r[i] == d;
      }
    }
  }

  /** The `noteDeleted` handler keeps the mirror when the server deletes a note. */
  lemma DeletedKeepsMirror(docs: seq<Dashboard.Doc>, store: map<NoteId, Note>, id: NoteId)
    requires Mirrors(docs, store)
    ensures Mirrors(Dashboard.RemoveById(docs, Some(Dashboard.Str(id))), store - {id})
  {
    var r := Dashboard.RemoveById(docs, Some(Dashboard.Str(id)));
    forall i | 0 <= i < |r| ensures ShowsStored(store - {id}, r[i]) {
      assert r[i] in docs;
      var k :| 0 <= k < |docs| && docs[k] == r[i];
      assert ShowsStored(store, docs[k]);
    }
    forall other | other in store - {id} ensures Dashboard.ToDoc((store - {id})[other]) in r {
      assert Dashboard.ToDoc(store[other]) in docs;
    }
  }

  /**
   * The client's own follow-up of a successful update, `{...note, ...res.data}`
   * with the saved note as `res.data`, changes nothing once the broadcast has
   * been applied: every listed object already has exactly the server's fields.
   */
  lemma OwnMergeKeepsMirror(docs: seq<Dashboard.Doc>, store: map<NoteId, Note>, id: NoteId)
    requires Mirrors(docs, store) && id in store
    ensures Dashboard.MergeById(docs, Dashboard.Str(id), Dashboard.ToDoc(store[id])) == docs
  {
    var merged := Dashboard.MergeById(docs, Dashboard.Str(id), Dashboard.ToDoc(store[id]));
    forall i | 0 <= i < |docs| ensures merged[i] == docs[i] {
      assert ShowsStored(store, docs[i]);
      if Dashboard.IdOf(docs[i]) == Some(Dashboard.Str(id)) {
        assert Dashboard.Spread(docs[i], Dashboard.ToDoc(store[id])) == docs[i];
      }
    }
  }

  /** The client's own filter after a successful delete changes nothing once `noteDeleted` has been applied. */
  lemma {:induction false} OwnDeleteAfterBroadcast(docs: seq<Dashboard.Doc>, id: Option<Dashboard.Value>)
    ensures Dashboard.RemoveById(Dashboard.RemoveById(docs, id), id) == Dashboard.RemoveById(docs, id)
  {
    var once := Dashboard.RemoveById(docs, id);
    forall i | 0 <= i < |once| ensures Dashboard.IdOf(once[i]) != id {
      assert once[i] in once;
    }
    Dashboard.RemoveByIdAbsent(once, id);
  }

  /** The client's view after the given events, applied first to last. */
  function ApplyAll(v: Dashboard.View, events: seq<Event>): Dashboard.View
    decreases |events|
  {
    if events == [] then v
    else Dashboard.OnEvent(ApplyAll(v, events[..|events| - 1]), events[|events| - 1])
  }

  /** The server's editors map after one presence message. */
  function EditorsAfter(editors: map<NoteId, seq<UserId>>, m: PresenceMessage): (r: map<NoteId, seq<UserId>>)
    ensures m.StartEditing? ==>
      Presence.Lookup(r, m.noteId) == Presence.Step(Presence.Lookup(editors, m.noteId), Presence.Start(m.userId))
    ensures m.StopEditing? && m.stopNoteId.Some? && m.stopUserId.Some? ==>
      Presence.Lookup(r, m.stopNoteId.value) ==
        Presence.Step(Presence.Lookup(editors, m.stopNoteId.value), Presence.Stop(m.stopUserId.value))
    ensures m.StopEditing? && (m.stopNoteId.None? || m.stopUserId.None?) ==> r == editors
    ensures forall k :: !Touches(m, k) ==> Presence.Lookup(r, k) == Presence.Lookup(editors, k)
  {
    match m
    case StartEditing(n, u) => editors[n := Presence.Add(Presence.Members(Presence.Lookup(editors, n)), u)]
    case StopEditing(n, u) =>
      if n.Some? && n.value in editors && u.Some? then editors[n.value := Presence.Remove(editors[n.value], u.value)]
      else editors
  }

  /** The note whose entry a message may change. */
  predicate Touches(m: PresenceMessage, k: NoteId) {
    if m.StartEditing? then m.noteId == k else m.stopNoteId == Some(k)
  }

  /** The socket server: a presence message goes to the handler registered for its event name. */
  method Deliver(server: NotesController.Controller, m: PresenceMessage)
    requires server.Valid()
    modifies server
    ensures server.Valid()
    ensures server.notes == old(server.notes)
    ensures server.activeEditors == EditorsAfter(old(server.activeEditors), m)
    ensures server.emitted == old(server.emitted) ==> server.activeEditors == old(server.activeEditors)
    ensures server.emitted == old(server.emitted) ||
      exists n ::
        && n in server.activeEditors
        && server.activeEditors == old(server.activeEditors)[n := server.activeEditors[n]]
        && server.emitted == old(server.emitted) + [ActiveEditors(n, server.activeEditors[n])]
  {
    match m
    case StartEditing(n, u) =>
      server.StartEditing(n, u);
    case StopEditing(n, u) =>
      server.StopEditing(n, u);
  }

  /** What reaches the server: a REST call already past `verifyToken`, or a socket message. */
  datatype Call =
    | Create(title: string, content: string, userId: UserId, newId: NoteId, now: Timestamp, storage: NotesController.Storage)
    | Update(noteId: NoteId, title: string, content: string, now: Timestamp, storage: NotesController.Storage)
    | Delete(noteId: NoteId, storage: NotesController.Storage)
    | Socket(message: PresenceMessage)

  /** Hands the events emitted during one call to the client, in order. */
  method Forward(client: Dashboard.DashboardState, events: seq<Event>)
    modifies client`notes, client`activeEditors
    ensures Dashboard.View(client.notes, client.activeEditors) ==
      ApplyAll(old(Dashboard.View(client.notes, client.activeEditors)), events)
  {
    ghost var start := Dashboard.View(client.notes, client.activeEditors);
    var i := 0;
    while i < |events|
      invariant 0 <= i <= |events|
      invariant Dashboard.View(client.notes, client.activeEditors) == ApplyAll(start, events[..i])
    {
      client.Receive(events[i]);
      assert events[..i + 1][..i] == events[..i];
      i := i + 1;
    }
    assert events[..i] == events;
  }

  /**
   * One call served, and everything it emitted delivered to a connected client.
   * A client in sync with the server before the call is in sync after it,
   * whatever the call and however the store behaves.
   */
  method Serve(server: NotesController.Controller, client: Dashboard.DashboardState, call: Call)
    returns (resp: Option<NotesController.Response>)
    requires server.Valid()
    requires InSync(Dashboard.View(client.notes, client.activeEditors), server.notes, server.activeEditors)
    modifies server, client`notes, client`activeEditors
    ensures server.Valid()
    ensures InSync(Dashboard.View(client.notes, client.activeEditors), server.notes, server.activeEditors)
    ensures resp.Some? <==> !call.Socket?
    ensures call.Socket? ==>
      server.notes == old(server.notes) && server.activeEditors == EditorsAfter(old(server.activeEditors), call.message)
    ensures !call.Socket? ==> server.activeEditors == old(server.activeEditors)
    ensures call.Create? ==>
      (NotesController.IsSuccess(resp.value) <==> call.storage != NotesController.WriteFails && call.newId !in old(server.notes))
    ensures call.Create? && NotesController.IsSuccess(resp.value) ==>
      server.notes == old(server.notes)[call.newId := Note(call.newId, call.title, call.content, call.now, call.userId)]
    ensures call.Update? ==>
      (NotesController.IsSuccess(resp.value) <==> call.storage == NotesController.Healthy && call.noteId in old(server.notes))
    ensures call.Update? && NotesController.IsSuccess(resp.value) ==>
      && call.noteId in server.notes
      && server.notes == old(server.notes)[call.noteId := server.notes[call.noteId]]
      && server.notes[call.noteId].title == call.title && server.notes[call.noteId].content == call.content
      && resp.value == NotesController.Response(200, NotesController.NoteBody(server.notes[call.noteId]))
  {
    var before := server.emitted;
    ghost var v := Dashboard.View(client.notes, client.activeEditors);
    ghost var store, editors := server.notes, server.activeEditors;
    match call {
    case Create(title, content, userId, newId, now, storage) =>
      var r := server.CreateNote(title, content, userId, newId, now, storage);
      resp := Some(r);
      if server.emitted != before {
        var created := Note(newId, title, content, now, userId);
        assert server.emitted[|before|..] == [NoteCreated(created)];
        CreatedKeepsSync(v, store, editors, created);
      }
    case Update(noteId, title, content, now, storage) =>
      var r := server.UpdateNote(noteId, title, content, now, storage);
      resp := Some(r);
      if NotesController.IsSuccess(r) {
        assert server.emitted[|before|..] == [NoteUpdated(server.notes[noteId])];
        UpdatedKeepsSync(v, store, editors, server.notes[noteId]);
      }
    case Delete(noteId, storage) =>
      var r := server.DeleteNote(noteId, storage);
      resp := Some(r);
      if NotesController.IsSuccess(r) {
        assert server.emitted[|before|..] == [NoteDeleted(noteId)];
        DeletedKeepsSync(v, store, editors, noteId);
      }
    case Socket(m) =>
      Deliver(server, m);
      resp := None;
      if server.emitted != before {
        ghost var n :| n in server.activeEditors
          && server.activeEditors == editors[n := server.activeEditors[n]]
          && server.emitted == before + [ActiveEditors(n, server.activeEditors[n])];
        assert server.emitted[|before|..] == [ActiveEditors(n, server.activeEditors[n])];
        EditorsKeepSync(v, store, editors, n, server.activeEditors[n]);
      }
    }
    if server.emitted == before {
      assert server.emitted[|before|..] == [];
    }
    Forward(client, server.emitted[|before|..]);
  }

  /** A `noteCreated` event keeps a client in sync with a server that stored the note under a new id. */
  lemma CreatedKeepsSync(v: Dashboard.View, store: map<NoteId, Note>, editors: map<NoteId, seq<UserId>>, n: Note)
    requires InSync(v, store, editors) && n.id !in store
    ensures InSync(ApplyAll(v, [NoteCreated(n)]), store[n.id := n], editors)
  {
    CreatedKeepsMirror(v.notes, store, n);
    ApplyAllOne(v, NoteCreated(n));
  }

  /** A `noteUpdated` event keeps a client in sync with a server that overwrote the note. */
  lemma UpdatedKeepsSync(v: Dashboard.View, store: map<NoteId, Note>, editors: map<NoteId, seq<UserId>>, n: Note)
    requires InSync(v, store, editors) && n.id in store
    ensures InSync(ApplyAll(v, [NoteUpdated(n)]), store[n.id := n], editors)
  {
    UpdatedKeepsMirror(v.notes, store, n);
    ApplyAllOne(v, NoteUpdated(n));
  }

  /** A `noteDeleted` event keeps a client in sync with a server that deleted the note. */
  lemma DeletedKeepsSync(v: Dashboard.View, store: map<NoteId, Note>, editors: map<NoteId, seq<UserId>>, id: NoteId)
    requires InSync(v, store, editors)
    ensures InSync(ApplyAll(v, [NoteDeleted(id)]), store - {id}, editors)
  {
    DeletedKeepsMirror(v.notes, store, id);
    ApplyAllOne(v, NoteDeleted(id));
  }

  /** An `activeEditors` event keeps a client in sync with a server that set that note's entry. */
  lemma EditorsKeepSync(v: Dashboard.View, store: map<NoteId, Note>, editors: map<NoteId, seq<UserId>>,
                        n: NoteId, members: seq<UserId>)
    requires InSync(v, store, editors)
    ensures InSync(ApplyAll(v, [ActiveEditors(n, members)]), store, editors[n := members])
  {
    ApplyAllOne(v, ActiveEditors(n, members));
  }

  lemma ApplyAllOne(v: Dashboard.View, e: Event)
    ensures ApplyAll(v, [e]) == Dashboard.OnEvent(v, e)
  {
    assert [e][..0] == [];
  }

  /** Two users opening the same note are listed, on the server and on a client, in the order they started. */
  method TwoEditorsScenario(noteId: NoteId, alice: UserId, bob: UserId)
    returns (afterAlice: seq<UserId>, afterBob: seq<UserId>, shown: seq<UserId>)
    requires noteId != [] && alice != [] && bob != [] && alice != bob
    ensures afterAlice == [alice] && afterBob == [alice, bob] && shown == [alice, bob]
  {
    var server := new NotesController.Controller(map[]);
    var client := new Dashboard.DashboardState(Some(bob), None);
    var r := Serve(server, client, Socket(StartEditing(noteId, alice)));
    assert Presence.Add([], alice) == [alice];
    assert server.activeEditors == map[noteId := [alice]];
    afterAlice := server.activeEditors[noteId];
    r := Serve(server, client, Socket(StartEditing(noteId, bob)));
    assert Presence.Add([alice], bob) == [alice, bob];
    afterBob := server.activeEditors[noteId];
    shown := client.activeEditors[noteId];
  }

  /**
   * A user who opens a note for editing and then cancels is still listed as its
   * editor afterwards, on the server and on every client: the cancel makes the
   * editing id `null`, so the effect sends `stopEditing` with a `null` note id,
   * which the server ignores.
   */
  method CancelKeepsEditorListed(noteId: NoteId, userId: UserId, title: string, content: string)
    returns (editors: seq<UserId>, shown: seq<UserId>)
    requires noteId != [] && userId != []
    requires !JsString.IsBlank(title) && !JsString.IsBlank(content)
    ensures editors == [userId] && shown == [userId]
  {
    var server, client := StartedEditing(noteId, userId, title, content);
    client.CancelEdit();
    assert Dashboard.PresenceEffect(client.editingNoteId, client.userId) == StopEditing(None, Some(userId));
    var r := Serve(server, client, Socket(StopEditing(None, Some(userId))));
    editors := server.activeEditors[noteId];
    shown := client.activeEditors[noteId];
  }

  /**
   * The same after a successful save: the server stores the edit and broadcasts
   * it, the client merges the reply and resets the editing id to `null`, and the
   * same ignored `stopEditing` follows.
   */
  method SaveKeepsEditorListed(noteId: NoteId, userId: UserId, title: string, content: string, now: Timestamp)
    returns (editors: seq<UserId>, shown: seq<UserId>)
    requires noteId != [] && userId != []
    requires !JsString.IsBlank(title) && !JsString.IsBlank(content)
    ensures editors == [userId] && shown == [userId]
  {
    var server, client := StartedEditing(noteId, userId, title, content);
    var r := Serve(server, client, Update(noteId, title, content, now, NotesController.Healthy));
    assert NotesController.IsSuccess(r.value);
    var sent := AcceptSave(server, client);
    assert sent == Some(Dashboard.PutNote(Some(noteId), title, content, None));
    assert Dashboard.PresenceEffect(client.editingNoteId, client.userId) == StopEditing(None, Some(userId));
    r := Serve(server, client, Socket(StopEditing(None, Some(userId))));
    editors := server.activeEditors[noteId];
    shown := client.activeEditors[noteId];
  }

  /**
   * The client's side of a successful save, once the server's broadcast has
   * been applied: the reply is the stored note, so the merge changes nothing
   * and the client leaves editing.
   */
  method AcceptSave(server: NotesController.Controller, client: Dashboard.DashboardState)
    returns (sent: Option<Dashboard.Request>)
    requires InSync(Dashboard.View(client.notes, client.activeEditors), server.notes, server.activeEditors)
    requires client.editingNoteId.Some? && client.editingNoteId.value in server.notes
    requires !JsString.IsBlank(client.editingNoteTitle) && !JsString.IsBlank(client.editingNoteContent)
    modifies client`notes, client`editingNoteId, client`editingNoteTitle, client`editingNoteContent, client`error
    ensures InSync(Dashboard.View(client.notes, client.activeEditors), server.notes, server.activeEditors)
    ensures sent == Some(Dashboard.PutNote(old(client.editingNoteId), old(client.editingNoteTitle), old(client.editingNoteContent), client.username))
    ensures client.notes == old(client.notes) && client.editingNoteId == None
  {
    var id := client.editingNoteId.value;
    OwnMergeKeepsMirror(client.notes, server.notes, id);
    sent := client.UpdateNote(Some(Dashboard.ToDoc(server.notes[id])));
  }

  /**
   * A fresh server and client, after the user created a note, opened it for
   * editing and announced it.
   */
  method StartedEditing(noteId: NoteId, userId: UserId, title: string, content: string)
    returns (server: NotesController.Controller, client: Dashboard.DashboardState)
    requires noteId != [] && userId != []
    requires !JsString.IsBlank(title) && !JsString.IsBlank(content)
    ensures fresh(server) && fresh(client)
    ensures server.Valid() && server.notes == map[noteId := Note(noteId, title, content, 0, userId)]
    ensures InSync(Dashboard.View(client.notes, client.activeEditors), server.notes, server.activeEditors)
    ensures server.activeEditors == map[noteId := [userId]]
    ensures client.userId == Some(userId) && client.username == None && client.editingNoteId == Some(noteId)
    ensures client.editingNoteTitle == title && client.editingNoteContent == content
  {
    server := new NotesController.Controller(map[]);
    client := new Dashboard.DashboardState(Some(userId), None);
    var r := Serve(server, client, Create(title, content, userId, noteId, 0, NotesController.Healthy));
    client.BeginEdit(noteId, title, content);
    assert Dashboard.PresenceEffect(client.editingNoteId, client.userId) == StartEditing(noteId, userId);
    r := Serve(server, client, Socket(StartEditing(noteId, userId)));
    assert Presence.Add([], userId) == [userId];
  }

  /**
   * A user who moves from editing note `a` to editing note `b` is listed on
   * both: the effect only ever sends `startEditing` for the new id, never
   * `stopEditing` for the old one.
   */
  method SwitchingNotesKeepsFirst(a: NoteId, b: NoteId, userId: UserId)
    returns (onA: seq<UserId>, onB: seq<UserId>)
    requires a != [] && b != [] && a != b && userId != []
    ensures onA == [userId] && onB == [userId]
  {
    var server := new NotesController.Controller(map[]);
    var client := new Dashboard.DashboardState(Some(userId), None);
    client.BeginEdit(a, "", "");
    assert Dashboard.PresenceEffect(client.editingNoteId, client.userId) == StartEditing(a, userId);
    var r := Serve(server, client, Socket(StartEditing(a, userId)));
    client.BeginEdit(b, "", "");
    assert Dashboard.PresenceEffect(client.editingNoteId, client.userId) == StartEditing(b, userId);
    r := Serve(server, client, Socket(StartEditing(b, userId)));
    assert Presence.Add([], userId) == [userId];
    onA := server.activeEditors[a];
    onB := server.activeEditors[b];
  }

  /** The server's editors map after several presence messages, first to last. */
  function EditorsAfterAll(editors: map<NoteId, seq<UserId>>, ms: seq<PresenceMessage>): map<NoteId, seq<UserId>>
    decreases |ms|
  {
    if ms == [] then editors else EditorsAfterAll(EditorsAfter(editors, ms[0]), ms[1..])
  }

  /**
   * As written, leaving a note (save, cancel, or a switch to note `next`) sends
   * one message that never removes the user from the note being left.
   */
  lemma ObservedLeaveKeepsEditor(editors: map<NoteId, seq<UserId>>, left: NoteId, next: Option<NoteId>, u: UserId)
    requires left in editors && u in editors[left]
    requires next != Some(left)
    ensures left in EditorsAfter(editors, Dashboard.PresenceEffect(next, Some(u)))
    ensures u in EditorsAfter(editors, Dashboard.PresenceEffect(next, Some(u)))[left]
  {
    var m := Dashboard.PresenceEffect(next, Some(u));
    assert !Touches(m, left);
    assert Presence.Lookup(EditorsAfter(editors, m), left) == Presence.Lookup(editors, left);
  }

  /**
   * The evidently intended effect when the editing id changes from `previous`
   * to `current`: stop editing the note being left, then start the new one.
   */
  function IntendedPresenceEffects(previous: Option<NoteId>, current: Option<NoteId>, userId: Option<UserId>)
    : (ms: seq<PresenceMessage>)
    ensures |ms| <= 2
    ensures StopEditing(previous, userId) in ms <==>
      Dashboard.Truthy(previous) && Dashboard.Truthy(userId) && previous != current
    ensures StopEditing(previous, userId) in ms ==> ms[0] == StopEditing(previous, userId)
    ensures Dashboard.Truthy(current) && Dashboard.Truthy(userId) <==>
      |ms| > 0 && ms[|ms| - 1].StartEditing?
    ensures |ms| > 0 && ms[|ms| - 1].StartEditing? ==>
      Some(ms[|ms| - 1].noteId) == current && Some(ms[|ms| - 1].userId) == userId
    ensures forall m :: m in ms ==> m == StopEditing(previous, userId) || m.StartEditing?
  {
    (if Dashboard.Truthy(previous) && Dashboard.Truthy(userId) && previous != current
     then [StopEditing(previous, userId)] else [])
    + (if Dashboard.Truthy(current) && Dashboard.Truthy(userId)
       then [StartEditing(current.value, userId.value)] else [])
  }

  /** Two messages applied in order. */
  lemma EditorsAfterTwo(editors: map<NoteId, seq<UserId>>, first: PresenceMessage, second: PresenceMessage)
    ensures EditorsAfterAll(editors, [first, second]) == EditorsAfter(EditorsAfter(editors, first), second)
  {
    var after := EditorsAfter(editors, first);
    assert [first, second][0] == first && [first, second][1..] == [second];
    assert EditorsAfterAll(editors, [first, second]) == EditorsAfterAll(after, [second]);
    assert [second][0] == second && [second][1..] == [];
    assert EditorsAfterAll(after, [second]) == EditorsAfterAll(EditorsAfter(after, second), []);
  }

  /** With the intended effect, a user who leaves a note is no longer listed on it. */
  lemma IntendedLeaveRemovesEditor(editors: map<NoteId, seq<UserId>>, left: NoteId, next: Option<NoteId>, u: UserId)
    requires left != [] && u != [] && next != Some(left)
    ensures u !in Presence.Members(Presence.Lookup(EditorsAfterAll(editors, IntendedPresenceEffects(Some(left), next, Some(u))), left))
  {
    var ms := IntendedPresenceEffects(Some(left), next, Some(u));
    var stop := StopEditing(Some(left), Some(u));
    assert ms[0] == stop;
    var afterStop := EditorsAfter(editors, stop);
    assert u !in Presence.Members(Presence.Lookup(afterStop, left));
    if |ms| == 1 {
      assert ms[1..] == [];
    } else {
      var start := ms[1];
      assert ms == [stop, start];
      EditorsAfterTwo(editors, stop, start);
      assert !Touches(start, left);
    }
  }

  /** The intended effect still lists a user on the note they move to, as the observed one does. */
  lemma IntendedEnterAddsEditor(editors: map<NoteId, seq<UserId>>, previous: Option<NoteId>, entered: NoteId, u: UserId)
    requires entered != [] && u != [] && previous != Some(entered)
    ensures u in Presence.Members(Presence.Lookup(EditorsAfterAll(editors, IntendedPresenceEffects(previous, Some(entered), Some(u))), entered))
  {
    var ms := IntendedPresenceEffects(previous, Some(entered), Some(u));
    var start := StartEditing(entered, u);
    if |ms| == 1 {
      assert ms == [start] && ms[1..] == [];
    } else {
      assert ms == [ms[0], start];
      EditorsAfterTwo(editors, ms[0], start);
    }
  }
}
