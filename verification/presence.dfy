/**
 * The editing set of one note, as the server keeps it in `activeEditors`
 * (backend/realtime-note-backend/controller/notesController.js:9).
 * A JavaScript `Set` iterates in first-insertion order, so it is modelled as a
 * duplicate-free sequence: `add` appends a new member, `delete` removes one in
 * place, and `Array.from` yields the sequence itself.
 */
module Presence {
  import opened Wrappers
  import opened NoteModel
  import opened Sequences

  /** `set.add(u)`: a new member goes last, an existing one leaves the set as it is. */
  function Add(members: seq<UserId>, u: UserId): (r: seq<UserId>)
    ensures forall x :: x in r <==> x in members || x == u
    ensures NoDup(members) ==> NoDup(r)
    ensures members <= r
    ensures |r| == if u in members then |members| else |members| + 1
  {
    if u in members then members else members + [u]
  }

  /** `set.delete(u)`: removes `u`, keeping the others in their order. */
  function Remove(members: seq<UserId>, u: UserId): (r: seq<UserId>)
    ensures forall x :: x in r <==> x in members && x != u
    ensures NoDup(members) ==> NoDup(r)
    ensures |r| <= |members|
    decreases |members|
  {
    if members == [] then []
    else if members[0] == u then Remove(members[1..], u)
    else
      var rest := Remove(members[1..], u);
      assert NoDup(members) ==> members[0] !in members[1..] && NoDup(members[1..]) by {
        if NoDup(members) {
          forall k | 1 <= k < |members| ensures members[k] != members[0] { }
        }
      }
      [members[0]] + rest
  }

  /** Removing a member that occurs once cuts exactly its position out of the sequence. */
  lemma {:induction false} RemoveAt(members: seq<UserId>, u: UserId, i: nat)
    requires NoDup(members) && i < |members| && members[i] == u
    ensures Remove(members, u) == members[..i] + members[i + 1..]
    decreases |members|
  {
    if i == 0 {
      RemoveAbsent(members[1..], u);
    } else {
      RemoveAt(members[1..], u, i - 1);
      assert members[1..][..i - 1] == members[1..i];
      assert members[1..][i..] == members[i + 1..];
      assert [members[0]] + members[1..i] == members[..i];
    }
  }

  /** Removing a user who is not a member changes nothing. */
  lemma {:induction false} RemoveAbsent(members: seq<UserId>, u: UserId)
    requires u !in members
    ensures Remove(members, u) == members
    decreases |members|
  {
    if members != [] {
      RemoveAbsent(members[1..], u);
      assert [members[0]] + members[1..] == members;
    }
  }

  /** One presence call for a single note. */
  datatype Call = Start(user: UserId) | Stop(user: UserId)

  /**
   * The entry of one note in `activeEditors` (None while the map has no key for
   * it) after one call: `startEditing` creates the entry on first use, then adds;
   * `stopEditing` touches only an existing entry and never deletes it.
   */
  function Step(entry: Option<seq<UserId>>, call: Call): (r: Option<seq<UserId>>)
    ensures call.Start? ==> r.Some? && call.user in r.value
    ensures call.Stop? ==> (r.Some? <==> entry.Some?) && (r.Some? ==> call.user !in r.value)
    ensures forall x :: x != call.user ==> (x in Members(r) <==> x in Members(entry))
    ensures entry.Some? ==> r.Some?
  {
    match call
    case Start(u) => Some(Add(Members(entry), u))
    case Stop(u) => if entry.None? then None else Some(Remove(entry.value, u))
  }

  /** The entry of note `n` in the server's map: `activeEditors.has(n) ? activeEditors.get(n) : none`. */
  function Lookup(editors: map<NoteId, seq<UserId>>, n: NoteId): Option<seq<UserId>> {
    if n in editors then Some(editors[n]) else None
  }

  function Members(entry: Option<seq<UserId>>): seq<UserId> {
    if entry.Some? then entry.value else []
  }

  /** The entry after a sequence of calls, applied first to last. */
  function Replay(entry: Option<seq<UserId>>, calls: seq<Call>): Option<seq<UserId>>
    decreases |calls|
  {
    if calls == [] then entry
    else Step(Replay(entry, calls[..|calls| - 1]), calls[|calls| - 1])
  }

  /** The most recent call that names `u` is a `startEditing`. */
  predicate LastCallStarts(calls: seq<Call>, u: UserId)
    decreases |calls|
  {
    if calls == [] then false
    else if calls[|calls| - 1].user == u then calls[|calls| - 1].Start?
    else LastCallStarts(calls[..|calls| - 1], u)
  }

  /**
   * Starting from a note with no entry, a user is in the editing set after a
   * sequence of calls exactly when that user's most recent call was `startEditing`.
   */
  lemma {:induction false} ReplayMembership(calls: seq<Call>, u: UserId)
    ensures u in Members(Replay(None, calls)) <==> LastCallStarts(calls, u)
    decreases |calls|
  {
    if calls != [] {
      ReplayMembership(calls[..|calls| - 1], u);
    }
  }

  /** Every entry reached by presence calls is free of duplicates. */
  lemma {:induction false} ReplayNoDup(entry: Option<seq<UserId>>, calls: seq<Call>)
    requires NoDup(Members(entry))
    ensures NoDup(Members(Replay(entry, calls)))
    decreases |calls|
  {
    if calls != [] {
      ReplayNoDup(entry, calls[..|calls| - 1]);
    }
  }

  /** A note has an entry after a sequence of calls exactly when one of them was a `startEditing`. */
  lemma {:induction false} ReplayHasEntry(calls: seq<Call>)
    ensures Replay(None, calls).Some? <==> exists i :: 0 <= i < |calls| && calls[i].Start?
    decreases |calls|
  {
    if calls != [] {
      var init := calls[..|calls| - 1];
      ReplayHasEntry(init);
      if Replay(None, calls).Some? && calls[|calls| - 1].Stop? {
        var i :| 0 <= i < |init| && init[i].Start?;
        assert calls[i] == init[i];
      }
      if exists i :: 0 <= i < |calls| && calls[i].Start? {
        var i :| 0 <= i < |calls| && calls[i].Start?;
        if i < |calls| - 1 {
          assert init[i] == calls[i];
        }
      }
    }
  }

  /** Starting twice in a row leaves the same entry as starting once. */
  lemma StartIdempotent(entry: Option<seq<UserId>>, u: UserId)
    ensures Step(Step(entry, Start(u)), Start(u)) == Step(entry, Start(u))
  {
  }
}
