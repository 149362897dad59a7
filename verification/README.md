# realtime-note-app in Dafny

A model of the collaborative notes app "realtime-note-app". It covers the
server's note handlers and presence tracker, the client dashboard that
mirrors the server over socket events, the bearer-token middleware, and the
signup form's validation. The model has these parts:

- `NoteModel` (note_model.dfy): the stored note, with Mongo's `_id` and the
  schema's four fields. It also has the `io.emit` events and the presence
  messages a client sends.
- `NotesController` (notes_controller.dfy): the class `Controller`, which
  holds three things:
  - the module-level `activeEditors` map;
  - the notes collection, as a map from `_id` to note;
  - the log of emitted events.

  Its methods are `createNote`, `getNotes`, `updateNote`, `deleteNote` and the
  `startEditing`/`stopEditing` handlers. Whether the store's lookups and writes
  succeed is an input to each call.
- `Presence` (presence.dfy): one note's editing `Set`, as a duplicate-free
  sequence in insertion order. It has `add`/`delete`, and a replay of
  start/stop calls with the "last call wins" membership theorem.
- `Dashboard` (dashboard.dfy) covers the client:
  - the list reducers passed to `setNotes`/`setActiveEditors`;
  - `getDisplayName`;
  - the start/stop decision of the presence effect;
  - the component's state as the class `DashboardState`, with its handlers.
- `AuthMiddleware` (auth_middleware.dfy): `verifyToken`. `jwt.verify` is a
  function parameter.
- `Signup` (signup.dfy): `validateEmail` and `validatePassword`, each shown
  equal to a literal reading of its regular expression. Also `handleChange`,
  the ordered checks of `handleSubmit`, and the mapping of a failed request
  to a message.
- `JsString` (js_string.dfy): `split` on one character, with both
  round-trips, and `trim` over the ECMAScript whitespace set.
- `Broadcast` (broadcast.dfy): the server and one connected client together.
  - A client that starts in sync and receives every emitted event stays in
    sync, as long as requests name notes by their canonical `_id` string. Its
    list shows each stored note exactly once, and its editors map equals the
    server's.
  - Scenarios show the presence behaviour the code actually has.

Where the code and its documentation disagree, the model follows the code.
The server has no presence cleanup on disconnect (its `disconnect` handler only
logs), so the model has none. A user stays listed as an editor after saving,
cancelling or switching notes. After a save or a cancel the client's
`stopEditing` carries the new, `null` note id, which the server ignores. After
a switch the client sends only `startEditing` for the new note and nothing for
the one left. This is modelled as observed (see Findings).

## Model

| member | source | states |
|---|---|---|
| NotesController.Controller.constructor | backend/realtime-note-backend/controller/notesController.js:8-9 | The presence map starts empty, the collection holds the stored notes, and nothing has been emitted |
| NotesController.Controller.CreateNote | backend/realtime-note-backend/controller/notesController.js:12-30 | A failed save replies 400 "Failed to create note", with no change and no event. Otherwise the note authored by the requesting user is stored, exactly one `noteCreated` carrying it is emitted, and the reply is 201 with it. An event is emitted iff the reply is a success |
| NotesController.Controller.GetNotes | backend/realtime-note-backend/controller/notesController.js:33-40 | Replies 200 with exactly the stored notes unless the query fails, which replies 400 "Failed to fetch notes". Changes nothing |
| NotesController.Controller.UpdateNote | backend/realtime-note-backend/controller/notesController.js:43-65 | A missing id gives 404 "Note not found" and a failing store gives 400, both with no change and no event. On success only title, content and updatedAt change (id and author kept), one `noteUpdated` with the saved note is emitted, and the reply is 200 with it |
| NotesController.Controller.DeleteNote | backend/realtime-note-backend/controller/notesController.js:68-87 | A missing id gives 404 and a failing store gives 400, both with no change and no event. On success exactly that note is removed, one `noteDeleted` carrying just the id is emitted, and the reply is 200 "Note deleted successfully" |
| NotesController.Controller.StartEditing | backend/realtime-note-backend/controller/notesController.js:91-99 | The user becomes a member of the note's set, which is created on first use. Only that note's entry changes, and re-adding a member changes nothing. One `activeEditors` event with the note id and exactly its current members is emitted even then. Entries stay duplicate-free |
| NotesController.Controller.StopEditing | backend/realtime-note-backend/controller/notesController.js:101-108 | A null or unknown note id changes nothing and emits nothing. For a known note only that user is removed, and the entry is kept even when empty. One event with the current members is emitted even if the user was absent |
| Presence.Add | backend/realtime-note-backend/controller/notesController.js:95 | Members are the old ones plus the user. The old order is a prefix, a new member goes last, and duplicate-freedom is kept |
| Presence.Remove | backend/realtime-note-backend/controller/notesController.js:103 | Members are the old ones minus the user. Duplicate-freedom is kept |
| Presence.RemoveAt | backend/realtime-note-backend/controller/notesController.js:103 | Removing a member cuts exactly its position out, so the others keep their order |
| Presence.RemoveAbsent | backend/realtime-note-backend/controller/notesController.js:103 | Removing a non-member leaves the set unchanged |
| Presence.Step | backend/realtime-note-backend/controller/notesController.js:91-103 | Start always leaves an entry containing the user. Stop keeps the presence or absence of the entry and removes the user. No other user's membership changes |
| Presence.ReplayMembership | backend/realtime-note-backend/controller/notesController.js:91-108 | From no entry, a user is listed after a sequence of calls iff that user's most recent call was a start |
| Presence.ReplayNoDup | backend/realtime-note-backend/controller/notesController.js:89-109 | Every entry reached by presence calls is duplicate-free |
| Presence.ReplayHasEntry | backend/realtime-note-backend/controller/notesController.js:92-102 | A note has an entry iff some call on it was a start. Stops never create or delete one |
| Presence.StartIdempotent | backend/realtime-note-backend/controller/notesController.js:95 | Starting twice gives the same entry as starting once |
| AuthMiddleware.BearerToken | backend/realtime-note-backend/middleware/authMiddleWare.js:4 | An extracted token is non-empty and contains no space |
| AuthMiddleware.BearerTokenIsSecondField | backend/realtime-note-backend/middleware/authMiddleWare.js:4-7 | The token is t iff t is non-empty and the header is a space-free field, one space, t, then the end or a space |
| AuthMiddleware.TokenHasSecondFieldLayout | backend/realtime-note-backend/middleware/authMiddleWare.js:4 | A token found in a header is non-empty and sits between the first space and the next one (or the end) |
| AuthMiddleware.SecondFieldLayoutGivesToken | backend/realtime-note-backend/middleware/authMiddleWare.js:4 | A header laid out as a space-free field, one space, a non-empty token, then the end or a space yields that token |
| AuthMiddleware.NoSpaceNoToken | backend/realtime-note-backend/middleware/authMiddleWare.js:4-7 | A header without a space yields no token |
| AuthMiddleware.EmptySecondFieldNoToken | backend/realtime-note-backend/middleware/authMiddleWare.js:4-7 | A header whose second field is empty yields no token |
| AuthMiddleware.VerifyToken | backend/realtime-note-backend/middleware/authMiddleWare.js:3-16 | Every reply is 403. "No token provided" is the reply iff there is no token. A token the verifier rejects gets 403 "Invalid token" with the verifier's message. `next` runs with the decoded id iff there is a token and it verifies |
| Dashboard.ToDoc | backend/realtime-note-backend/models/Note.js:3-8 | The JSON form of a stored note carries the note's id as `_id` |
| Dashboard.Spread | frontend/realtime-note-frontend/src/components/Dashboard.jsx:81 | The merged object has the keys of both sides. Fields of the right side win, and fields only on the left are kept |
| Dashboard.SpreadOverAllFields | frontend/realtime-note-frontend/src/components/Dashboard.jsx:81 | Spreading an object that has every key of the base gives that object, whatever the base held |
| Dashboard.ReplaceById | frontend/realtime-note-frontend/src/components/Dashboard.jsx:108-113 | Same length and order. Exactly the notes whose `_id` matches the incoming note's become it, and the others are untouched |
| Dashboard.MergeById | frontend/realtime-note-frontend/src/components/Dashboard.jsx:79-83 | Same length and order. Exactly the notes with the edited id become `{...note, ...data}`, and the others are untouched |
| Dashboard.RemoveById | frontend/realtime-note-frontend/src/components/Dashboard.jsx:120-124 | An object stays iff it was listed and its `_id` differs. The list never grows and stays duplicate-free |
| Dashboard.RemoveByIdAppend | frontend/realtime-note-frontend/src/components/Dashboard.jsx:120-124 | The filter works piecewise, so the kept notes stay in their relative order |
| Dashboard.RemoveByIdAbsent | frontend/realtime-note-frontend/src/components/Dashboard.jsx:120-124 | Deleting an id no note carries leaves the list as it is |
| Dashboard.CreateThenDelete | frontend/realtime-note-frontend/src/components/Dashboard.jsx:116-124 | Deleting the id of a just-prepended note removes the prepended copy |
| Dashboard.SetEditors | frontend/realtime-note-frontend/src/components/Dashboard.jsx:126-128 | The note's entry becomes the broadcast list, and every other note's entry is unchanged |
| Dashboard.OnEvent | frontend/realtime-note-frontend/src/components/Dashboard.jsx:108-128 | A note event leaves the editors map alone and a presence event leaves the list alone. A create puts exactly the server's form of the new note in front of the old list. An update keeps the length. A delete filters out the notes whose `_id` is the deleted id |
| Dashboard.MergeAgreesWithBroadcast | frontend/realtime-note-frontend/src/components/Dashboard.jsx:79-113 | When listed notes have only the server's fields, the local merge after an update equals the broadcast replacement |
| Dashboard.ReplaceByIdIdempotent | frontend/realtime-note-frontend/src/components/Dashboard.jsx:108-113 | Replacing by id twice with the same note is replacing once, so a broadcast arriving after the client's own merge changes nothing |
| Dashboard.DisplayName | frontend/realtime-note-frontend/src/components/Dashboard.jsx:155-157 | The result is the prefix before the first `@`, or the whole string when there is none |
| Dashboard.PresenceEffect | frontend/realtime-note-frontend/src/components/Dashboard.jsx:139-145 | Sends start iff both the editing id and the user id are truthy, and carries them. Otherwise sends stop with the current, possibly null, editing id |
| Dashboard.Truthy | frontend/realtime-note-frontend/src/components/Dashboard.jsx:140 | The truthiness of an optional string: present and non-empty |
| Dashboard.DashboardState.constructor | frontend/realtime-note-frontend/src/components/Dashboard.jsx:17-29 | The initial hook state: empty list and map, null editing id, empty strings |
| Dashboard.DashboardState.CreateNote | frontend/realtime-note-frontend/src/components/Dashboard.jsx:47-65 | A request is sent iff neither title nor content is blank after trimming. A blank field only sets the message. Success clears the inputs and the error, and failure sets the failure message. The list itself is untouched |
| Dashboard.DashboardState.UpdateNote | frontend/realtime-note-frontend/src/components/Dashboard.jsx:68-92 | Blank fields send nothing and set the message. A reply merges it into the matching notes and resets the editing state to null and "". A failure only sets the message |
| Dashboard.DashboardState.DeleteNote | frontend/realtime-note-frontend/src/components/Dashboard.jsx:95-104 | Always sends. On success the notes with that id are dropped and the error cleared, and on failure only the message is set |
| Dashboard.DashboardState.BeginEdit | frontend/realtime-note-frontend/src/components/Dashboard.jsx:262-266 | The listed note's id, title and content become the editing state |
| Dashboard.DashboardState.CancelEdit | frontend/realtime-note-frontend/src/components/Dashboard.jsx:202 | Only the editing id is cleared |
| Dashboard.DashboardState.Receive | frontend/realtime-note-frontend/src/components/Dashboard.jsx:107-128 | The list and editors map become the reducer's result for the event |
| Signup.ValidateEmail | frontend/realtime-note-frontend/src/app/signup/page.jsx:26 | `validateEmail`: some stretch of the input is non-space characters, `@`, non-space characters, `.`, non-space characters (its meaning is stated by ValidateEmailMatchesPattern) |
| Signup.ValidatePassword | frontend/realtime-note-frontend/src/app/signup/page.jsx:29-30 | `validatePassword`: at least six UTF-16 code units, no line terminator, a digit and a special character (its meaning is stated by ValidatePasswordMatchesPattern) |
| Signup.ValidateEmailMatchesPattern | frontend/realtime-note-frontend/src/app/signup/page.jsx:26 | The executable check holds iff some substring reads non-space+, `@`, non-space+, `.`, non-space+ |
| Signup.ValidateEmailUnanchored | frontend/realtime-note-frontend/src/app/signup/page.jsx:26 | Text around an accepted string keeps it accepted |
| Signup.ValidEmailShape | frontend/realtime-note-frontend/src/app/signup/page.jsx:26 | An accepted string holds an `@`, a `.` and at least five characters |
| Signup.EmailAcceptedExamples | frontend/realtime-note-frontend/src/app/signup/page.jsx:26 | "a@b.c" passes, and so does "my name@x.io", because the pattern is unanchored |
| Signup.EmailRefusedExamples | frontend/realtime-note-frontend/src/app/signup/page.jsx:26 | "a@b" (no dot after the `@`) and "@b.c" (nothing before the `@`) fail |
| Signup.ValidatePasswordMatchesPattern | frontend/realtime-note-frontend/src/app/signup/page.jsx:29-30 | The check (six or more UTF-16 code units, no line terminator, a digit, a special character) holds iff the anchored pattern with its two lookaheads matches |
| Signup.PasswordAcceptedExample | frontend/realtime-note-frontend/src/app/signup/page.jsx:29-30 | "abc12!" passes |
| Signup.PasswordRefusedExamples | frontend/realtime-note-frontend/src/app/signup/page.jsx:29-30 | "abcdef" (no digit) and "ab1!x" (five characters) fail |
| Signup.PasswordCountsCodeUnits | frontend/realtime-note-frontend/src/app/signup/page.jsx:29-30 | A character outside the Basic Multilingual Plane counts as two: "1!" followed by two emoji passes, and "1!ab" fails |
| Signup.SpecialIsNotAlphanumeric | frontend/realtime-note-frontend/src/app/signup/page.jsx:30 | `[\W_]` is exactly the characters outside `[A-Za-z0-9]` |
| Signup.HandleChange | frontend/realtime-note-frontend/src/app/signup/page.jsx:32-34 | The named field takes the value, and every other field is unchanged |
| Signup.FirstFailure | frontend/realtime-note-frontend/src/app/signup/page.jsx:40-53 | Each message is given iff its check is the first to fail, in the order email, password, confirmation. Nothing is given iff all three pass |
| Signup.FailureMessage | frontend/realtime-note-frontend/src/app/signup/page.jsx:61-71 | 409 gives "User already exists. Try logging in.". Another status gives the server's message if non-empty, else "Signup failed". No response gives the network message |
| Signup.HandleSubmit | frontend/realtime-note-frontend/src/app/signup/page.jsx:36-73 | A request with exactly the form is sent iff all checks pass, and otherwise the first failure's message is shown. `login` receives the returned token iff the request succeeds, and a failure shows the mapped message |
| JsString.Split | frontend/realtime-note-frontend/src/components/Dashboard.jsx:156 | At least one piece, and no piece contains the separator |
| JsString.Join | backend/realtime-note-backend/middleware/authMiddleWare.js:4 | No `join` runs in the source: this is the inverse of `split`, there only to state the round-trip lemmas that pin `split` down. The first piece is a prefix of the result, and a separator follows it when there are more pieces |
| JsString.CodeUnits | frontend/realtime-note-frontend/src/app/signup/page.jsx:30 | A character takes one or two UTF-16 code units |
| JsString.Utf16Length | frontend/realtime-note-frontend/src/app/signup/page.jsx:30 | `length` in code units lies between the number of characters and twice it, and equals it iff every character is in the Basic Multilingual Plane |
| JsString.JoinSplit | backend/realtime-note-backend/middleware/authMiddleWare.js:4 | Joining the pieces with the separator gives back the string |
| JsString.SplitJoin | backend/realtime-note-backend/middleware/authMiddleWare.js:4 | Splitting a join of separator-free pieces gives back the pieces |
| JsString.SplitAfterPiece | backend/realtime-note-backend/middleware/authMiddleWare.js:4 | A separator-free piece followed by the separator splits off as the first piece |
| JsString.SplitWithoutSeparator | backend/realtime-note-backend/middleware/authMiddleWare.js:4 | A string without the separator is its only piece |
| JsString.FirstPiece | frontend/realtime-note-frontend/src/components/Dashboard.jsx:156 | The first piece is the longest separator-free prefix. There is a second piece iff the separator occurs |
| JsString.TrimStart | frontend/realtime-note-frontend/src/components/Dashboard.jsx:48 | The result is a suffix. Every dropped character is whitespace, and the result starts with a non-whitespace character or is empty |
| JsString.TrimEnd | frontend/realtime-note-frontend/src/components/Dashboard.jsx:48 | The result is a prefix. Every dropped character is whitespace, and the result ends with a non-whitespace character or is empty |
| JsString.Trim | frontend/realtime-note-frontend/src/components/Dashboard.jsx:48 | `trim()`: the result is no longer than the input, and is empty or starts and ends with a non-whitespace character |
| JsString.IsBlank | frontend/realtime-note-frontend/src/components/Dashboard.jsx:48 | `!s.trim()`: every character is whitespace (tied to `Trim` by TrimEmptyIffBlank) |
| JsString.TrimEmptyIffBlank | frontend/realtime-note-frontend/src/components/Dashboard.jsx:48 | `trim()` leaves the empty string iff every character is whitespace, so the blank check refuses exactly those fields |
| Broadcast.MirrorOfEmptyStore | frontend/realtime-note-frontend/src/components/Dashboard.jsx:21 | With nothing stored, a mirroring client lists nothing |
| Broadcast.CreatedKeepsMirror | frontend/realtime-note-frontend/src/components/Dashboard.jsx:116-118 | Prepending a note stored under a new id keeps the client's list an exact duplicate-free listing of the store |
| Broadcast.CreatedOnlyStored | frontend/realtime-note-frontend/src/components/Dashboard.jsx:116-118 | After a create every listed object is the server's form of a stored note |
| Broadcast.CreatedNoDup | frontend/realtime-note-frontend/src/components/Dashboard.jsx:116-118 | After a create of a new id no note is listed twice |
| Broadcast.CreatedListsAll | frontend/realtime-note-frontend/src/components/Dashboard.jsx:116-118 | After a create every stored note, the new one included, is listed |
| Broadcast.ReplacedShowsStored | frontend/realtime-note-frontend/src/components/Dashboard.jsx:108-113 | After an update each listed object is still the server's form of a stored note |
| Broadcast.ReplacedDistinct | frontend/realtime-note-frontend/src/components/Dashboard.jsx:108-113 | Distinct listed notes stay distinct after an update |
| Broadcast.UpdatedKeepsMirror | frontend/realtime-note-frontend/src/components/Dashboard.jsx:108-113 | Replacing by id keeps the mirror when the server overwrites a stored note |
| Broadcast.UpdatedOnlyStored | frontend/realtime-note-frontend/src/components/Dashboard.jsx:108-113 | After an update nothing unstored is listed |
| Broadcast.UpdatedNoDup | frontend/realtime-note-frontend/src/components/Dashboard.jsx:108-113 | After an update no note is listed twice |
| Broadcast.UpdatedListsAll | frontend/realtime-note-frontend/src/components/Dashboard.jsx:108-113 | After an update every stored note, the new version included, is listed |
| Broadcast.DeletedKeepsMirror | frontend/realtime-note-frontend/src/components/Dashboard.jsx:120-124 | Filtering the deleted id keeps the mirror of the store without that note |
| Broadcast.OwnMergeKeepsMirror | frontend/realtime-note-frontend/src/components/Dashboard.jsx:79-83 | After the broadcast, the client's own merge with the saved note changes nothing |
| Broadcast.OwnDeleteAfterBroadcast | frontend/realtime-note-frontend/src/components/Dashboard.jsx:98 | After the broadcast, the client's own filter changes nothing, because filtering is idempotent |
| Broadcast.CreatedKeepsSync | frontend/realtime-note-frontend/src/components/Dashboard.jsx:116-118 | A `noteCreated` event for a new id keeps an in-sync client in sync with the store that saved it |
| Broadcast.UpdatedKeepsSync | frontend/realtime-note-frontend/src/components/Dashboard.jsx:108-113 | A `noteUpdated` event for a stored id keeps an in-sync client in sync with the overwritten store |
| Broadcast.DeletedKeepsSync | frontend/realtime-note-frontend/src/components/Dashboard.jsx:120-124 | A `noteDeleted` event keeps an in-sync client in sync with the store without that note |
| Broadcast.EditorsKeepSync | frontend/realtime-note-frontend/src/components/Dashboard.jsx:126-128 | An `activeEditors` event carrying the server's new entry for a note keeps the client's map equal to the server's |
| Broadcast.ApplyAllOne | frontend/realtime-note-frontend/src/components/Dashboard.jsx:107-128 | Applying a one-event log is the reducer applied to that event |
| Broadcast.EditorsAfter | backend/realtime-note-backend/controller/notesController.js:91-108 | A message changes one note's entry exactly as the presence step does. A stop with a null id or undefined user changes nothing, and other notes are untouched |
| Broadcast.Deliver | backend/realtime-note-backend/controller/notesController.js:90-109 | Each message reaches its handler. The notes are untouched, and at most one `activeEditors` event with the note's current members is emitted |
| Broadcast.Forward | frontend/realtime-note-frontend/src/components/Dashboard.jsx:107-128 | The client's view becomes the events applied in order |
| Broadcast.Serve | backend/realtime-note-backend/controller/notesController.js:12-108 | Any call naming notes by their canonical `_id`, under any store behaviour, keeps an in-sync client in sync, and CRUD calls leave presence alone. A create succeeds iff the store accepts a new id and then stores exactly the new note. An update succeeds iff the store is healthy and the id is stored, and then overwrites only that note with the new title and content and replies 200 with it |
| Broadcast.TwoEditorsScenario | backend/realtime-note-backend/controller/notesController.js:91-98 | Two users starting on one note are listed as [first, second] on the server and on a client |
| Broadcast.StartedEditing | frontend/realtime-note-frontend/src/components/Dashboard.jsx:139-142 | After the user creates a note with a non-blank title and content, opens it for editing and announces it, the server stores that note, and the server and the client list exactly that user on it, in sync |
| Broadcast.CancelKeepsEditorListed | frontend/realtime-note-frontend/src/components/Dashboard.jsx:202 | After starting on a note with non-blank fields and then cancelling, the user is still the note's only listed editor on the server and on the client |
| Broadcast.SaveKeepsEditorListed | frontend/realtime-note-frontend/src/components/Dashboard.jsx:68-92 | After starting, then a successful save of non-blank fields that the server stores and broadcasts, the user is still the note's only listed editor on the server and on the client |
| Broadcast.AcceptSave | frontend/realtime-note-frontend/src/components/Dashboard.jsx:74-87 | After the save's broadcast, the client sends the PUT with its editing fields, merges the reply (the stored note) without changing its list, leaves editing and stays in sync |
| Broadcast.SwitchingNotesKeepsFirst | frontend/realtime-note-frontend/src/components/Dashboard.jsx:139-145 | A user who moves from note a to note b is listed on both |
| Broadcast.ObservedLeaveKeepsEditor | frontend/realtime-note-frontend/src/components/Dashboard.jsx:143 | For any map, the message sent on leaving a note never removes the user from it |
| Broadcast.EditorsAfterTwo | backend/realtime-note-backend/controller/notesController.js:90-109 | Two messages in a row act as the first message followed by the second |
| Broadcast.IntendedPresenceEffects | frontend/realtime-note-frontend/src/components/Dashboard.jsx:139-145 | The corrected effect stops the note being left, first, when it changes, and then starts the new one iff both ids are truthy |
| Broadcast.IntendedLeaveRemovesEditor | frontend/realtime-note-frontend/src/components/Dashboard.jsx:139-145 | With the corrected effect, a user who leaves a note is no longer listed on it |
| Broadcast.IntendedEnterAddsEditor | frontend/realtime-note-frontend/src/components/Dashboard.jsx:139-145 | With the corrected effect, a user is listed on the note they enter |

## Left out

- The Mongo order of `getNotes`: the model replies with the set of stored notes.
- Broadcast.Serve: note ids are the canonical lower-case hexadecimal `_id` strings and compare as plain strings. The ObjectId cast in `findById` and `deleteOne` (backend/realtime-note-backend/controller/notesController.js:48, 72, 78) also accepts other spellings of a stored id, such as upper-case hex digits. Such spellings are not modelled. In the source, updating by one succeeds (the model replies 404); the broadcast note still carries its canonical `_id`, so clients stay in sync. Deleting by one also succeeds (the model replies 404), but `noteDeleted` carries the raw spelling (line 81). The client's filter then never matches, so every client keeps listing the deleted note.
- Mongoose validation (required fields, ObjectId casts) and connection errors: these are folded into the `Storage` input (`LookupFails`, `WriteFails`). A duplicate `_id` on create counts as a failed save.
- `Date.now()`: timestamps are inputs. The server's JSON sends `updatedAt` as an ISO date string; the client's copy (`Dashboard.ToDoc`) holds it as a number, which is harmless because no code compares or reads timestamps. `__v` and other Mongoose metadata are not modelled.
- `jwt.verify` and the secret: a function parameter. A payload without an `id` claim is not modelled (the decoded id is always a string).
- AuthMiddleware.BearerToken: an `authorization` header given as something other than a string is not modelled.
- A `startEditing` payload with a null note id or user id: the client never sends one (Dashboard.jsx:140), so it is not modelled.
- The `username` field of the `startEditing` payload and the `lastUpdatedBy` field of the client's requests are ignored by the server. They are carried in the client's `Request` values only.
- The lack of any check that a socket's `userId` belongs to its sender is recorded as is. The server trusts the payload.
- Disconnect handling: backend/realtime-note-backend/server.js only logs on disconnect, so there is no presence cleanup to model. Socket.io fan-out is an append to the event log, and the proofs follow one client.
- Dashboard: `fetchNotes`, `isLoading`, `logout`, the JSX markup, tooltips, the cleanup of socket listeners and the scheduling of effects are not modelled. Each handler is atomic, with no interleaving of concurrent requests. The inputs' `onChange` setters are plain field assignments.
- Signup: `router.push("/login")` after `login`, the show-password toggles and the markup. A non-409 response without a `data` object would throw in the source and is not modelled.
- Signup.FailureMessage: states the no-response case in one direction only, because a server may send the network message text itself.
- backend/realtime-note-backend/controller/authController.js, utils/generateTokens.js, the routes files, frontend/realtime-note-frontend/src/lib/api.js, the auth context, the login page, PrivateRoute and the dashboard page are not part of this model. They are HTTP, token, cookie and redirect plumbing.

## Findings

| source | as written | input that shows it | evidently intended | confidence | as-written member | corrected member |
|---|---|---|---|---|---|---|
| frontend/realtime-note-frontend/src/components/Dashboard.jsx:139-145 | The effect reads only the new editing id. After a save or a cancel that id is `null`, so it sends `stopEditing` with a `null` note id, which the server ignores. After a switch both ids are truthy, so it sends only `startEditing` for the new note and nothing for the one left | Start editing note "n1" as "u1", then cancel: the server still lists "u1" on "n1" | Stop editing the note being left, then start the new one | not executed | Broadcast.ObservedLeaveKeepsEditor | Broadcast.IntendedLeaveRemovesEditor |

The model of the client (`Dashboard.PresenceEffect` and the scenarios) keeps
the behaviour as written. `Broadcast.IntendedPresenceEffects` is the
corrected effect, and its two lemmas prove that it removes the user from the
note being left and lists them on the note entered.
