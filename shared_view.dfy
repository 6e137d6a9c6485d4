/** The guest side (`SharedEventView`): a visitor opens an event's link,
    names themself, and answers. The visitor is recognised by name or by a
    per-browser identifier; the stored event list is read, one event is
    changed, and the whole list is written back. */
module SharedView {
  import opened Types
  import opened Seqs
  import opened Store
  import opened Strings

  /** `rsvp.name === userName || (rsvp.userIdentifier && rsvp.userIdentifier === userIdentifier)`:
      an entry is the visitor's when it carries their name, or their
      identifier when it has a non-empty one. Neither key is preferred. */
  function MatchesVisitor(userName: string, userIdentifier: string): RsvpEntry -> bool
  {
    (e: RsvpEntry) => e.name == userName
      || (e.userIdentifier.Some? && e.userIdentifier.value != "" && e.userIdentifier.value == userIdentifier)
  }

  /** The visitor's matched entry after an answer: renamed to the current
      name, given the new status, the current identifier and the time; the
      note is replaced only by a non-empty one. */
  function MergedGuestEntry(e: RsvpEntry, userName: string, userIdentifier: string, status: RsvpStatus,
                            note: string, now: int): RsvpEntry
  {
    e.(name := userName, status := status, note := if note != "" then Some(note) else e.note,
       userIdentifier := Some(userIdentifier), lastUpdated := Some(now))
  }

  /** The entry a visitor without a match gets. */
  function NewGuestEntry(userName: string, userIdentifier: string, status: RsvpStatus, note: string, now: int)
    : RsvpEntry
  {
    RsvpEntry(userName, status, Some(note), None, Some(userIdentifier), Some(now))
  }

  /** The `friendsRsvp` part of the guest `handleRsvpChange`: the first entry
      matching by name or identifier is merged in place; otherwise a new
      entry is always appended (a missing list counts as empty). */
  function GuestEntries(entries: seq<RsvpEntry>, userName: string, userIdentifier: string, status: RsvpStatus,
                        note: string, now: int): (r: seq<RsvpEntry>)
    ensures var i := FirstIndex(entries, MatchesVisitor(userName, userIdentifier));
      && (i >= 0 ==> |r| == |entries|
                     && r[i].name == userName && r[i].status == status
                     && r[i].userIdentifier == Some(userIdentifier) && r[i].lastUpdated == Some(now)
                     && r[i].note == (if note == "" then entries[i].note else Some(note))
                     && r[i].photoLink == entries[i].photoLink
                     && forall k :: 0 <= k < |entries| && k != i ==> r[k] == entries[k])
      && (i == -1 ==> r == entries + [NewGuestEntry(userName, userIdentifier, status, note, now)])
  {
    var i := FirstIndex(entries, MatchesVisitor(userName, userIdentifier));
    if i >= 0 then entries[i := MergedGuestEntry(entries[i], userName, userIdentifier, status, note, now)]
    else entries + [NewGuestEntry(userName, userIdentifier, status, note, now)]
  }

  /** A guest answer adds an entry exactly when no entry is the visitor's;
      a visitor recognised by identifier under a new name is renamed in
      place, never duplicated. */
  lemma GuestAppendsOnlyWithoutMatch(entries: seq<RsvpEntry>, userName: string, userIdentifier: string,
                                     status: RsvpStatus, note: string, now: int)
    ensures var r := GuestEntries(entries, userName, userIdentifier, status, note, now);
            |r| == if exists k :: 0 <= k < |entries| && MatchesVisitor(userName, userIdentifier)(entries[k])
                   then |entries| else |entries| + 1
  {
    var i := FirstIndex(entries, MatchesVisitor(userName, userIdentifier));
    if i >= 0 {
      assert MatchesVisitor(userName, userIdentifier)(entries[i]);
    }
  }

  /** Answering twice with the same name, identifier, status, note and time
      changes nothing further: the second answer finds the entry the first
      one wrote and merges it to itself. */
  lemma GuestRsvpIdempotent(entries: seq<RsvpEntry>, userName: string, userIdentifier: string,
                            status: RsvpStatus, note: string, now: int)
    ensures var once := GuestEntries(entries, userName, userIdentifier, status, note, now);
            GuestEntries(once, userName, userIdentifier, status, note, now) == once
  {
    var p := MatchesVisitor(userName, userIdentifier);
    var once := GuestEntries(entries, userName, userIdentifier, status, note, now);
    var i := FirstIndex(entries, p);
    var j := if i >= 0 then i else |entries|;
    assert forall k :: 0 <= k < j ==> once[k] == entries[k];
    assert p(once[j]);
    FirstIndexAt(once, p, j);
    assert MergedGuestEntry(once[j], userName, userIdentifier, status, note, now) == once[j];
    assert once[j := once[j]] == once;
  }

  /** The guest `handleRsvpChange` on the matching event: only `friendsRsvp` changes. */
  function GuestDrop(d: Drop, userName: string, userIdentifier: string, status: RsvpStatus, note: string, now: int)
    : (r: Drop)
    ensures r.friendsRsvp == Some(GuestEntries(EntriesOf(d), userName, userIdentifier, status, note, now))
    ensures r.(friendsRsvp := d.friendsRsvp) == d
  {
    d.(friendsRsvp := Some(GuestEntries(EntriesOf(d), userName, userIdentifier, status, note, now)))
  }

  /** The stored list after a guest answer: the events with id `eventId`
      are updated; every other event is returned untouched. */
  function GuestRsvp(drops: seq<Drop>, eventId: string, userName: string, userIdentifier: string,
                     status: RsvpStatus, note: string, now: int): (r: seq<Drop>)
    ensures |r| == |drops|
    ensures forall k :: 0 <= k < |drops| && drops[k].id != eventId ==> r[k] == drops[k]
    ensures forall k :: 0 <= k < |drops| && drops[k].id == eventId ==>
              r[k] == GuestDrop(drops[k], userName, userIdentifier, status, note, now)
  {
    MapWhere(drops, IdIs(eventId), (d: Drop) => GuestDrop(d, userName, userIdentifier, status, note, now))
  }

  /** The inline `onNoteChange` merge on one event: a matched entry gets the
      new note (even an empty one) and the time; without a match the event
      is returned as it was, so nothing is ever appended. */
  function NoteDrop(d: Drop, userName: string, userIdentifier: string, newNote: string, now: int): (r: Drop)
    ensures r.(friendsRsvp := d.friendsRsvp) == d
    ensures d.friendsRsvp.None? ==> r == d
    ensures d.friendsRsvp.Some? ==>
              var entries := d.friendsRsvp.value;
              var i := FirstIndex(entries, MatchesVisitor(userName, userIdentifier));
              && (i == -1 ==> r == d)
              && (i >= 0 ==> r.friendsRsvp.Some? && |r.friendsRsvp.value| == |entries|
                             && r.friendsRsvp.value[i] == entries[i].(note := Some(newNote), lastUpdated := Some(now))
                             && forall k :: 0 <= k < |entries| && k != i ==> r.friendsRsvp.value[k] == entries[k])
  {
    match d.friendsRsvp
    case None => d
    case Some(entries) =>
      var i := FirstIndex(entries, MatchesVisitor(userName, userIdentifier));
      if i >= 0 then d.(friendsRsvp := Some(entries[i := entries[i].(note := Some(newNote), lastUpdated := Some(now))]))
      else d
  }

  /** The stored list after a note-only edit: only events with id `eventId` may change. */
  function NoteChange(drops: seq<Drop>, eventId: string, userName: string, userIdentifier: string,
                      newNote: string, now: int): (r: seq<Drop>)
    ensures |r| == |drops|
    ensures forall k :: 0 <= k < |drops| && drops[k].id != eventId ==> r[k] == drops[k]
    ensures forall k :: 0 <= k < |drops| && drops[k].id == eventId ==>
              r[k] == NoteDrop(drops[k], userName, userIdentifier, newNote, now)
  {
    MapWhere(drops, IdIs(eventId), (d: Drop) => NoteDrop(d, userName, userIdentifier, newNote, now))
  }

  /** The status shown on load: that of the first entry named like the
      stored user, when a non-empty name is stored and the event exists;
      otherwise `no_response`. */
  function InitialStatus(storedUser: Option<string>, event: Option<Drop>): (r: RsvpStatus)
    ensures (storedUser.None? || storedUser == Some("") || event.None?) ==> r == NoResponse
    ensures storedUser.Some? && storedUser.value != "" && event.Some? ==>
              var entries := EntriesOf(event.value);
              var i := FirstIndex(entries, NameIs(storedUser.value));
              r == if i >= 0 then entries[i].status else NoResponse
  {
    if storedUser.Some? && storedUser.value != "" && event.Some? then
      var entries := EntriesOf(event.value);
      var i := FirstIndex(entries, NameIs(storedUser.value));
      if i >= 0 then entries[i].status else NoResponse
    else NoResponse
  }

  /** Read-your-own-write for guests: after answering under a non-empty
      name, reloading with that name shows the answer just given. */
  lemma GuestAnswerSeenOnReload(d: Drop, userName: string, userIdentifier: string, status: RsvpStatus,
                                note: string, now: int)
    requires userName != ""
    ensures InitialStatus(Some(userName), Some(GuestDrop(d, userName, userIdentifier, status, note, now))) == status
  {
    var entries := EntriesOf(d);
    var r := GuestEntries(entries, userName, userIdentifier, status, note, now);
    var i := FirstIndex(entries, MatchesVisitor(userName, userIdentifier));
    assert EntriesOf(GuestDrop(d, userName, userIdentifier, status, note, now)) == r;
    if i >= 0 {
      assert forall k :: 0 <= k < i ==> !NameIs(userName)(r[k]) by {
        forall k | 0 <= k < i ensures !NameIs(userName)(r[k]) {
          assert !MatchesVisitor(userName, userIdentifier)(entries[k]);
        }
      }
      FirstIndexAt(r, NameIs(userName), i);
    } else {
      assert forall k :: 0 <= k < |entries| ==> !NameIs(userName)(r[k]) by {
        forall k | 0 <= k < |entries| ensures !NameIs(userName)(r[k]) {
          assert !MatchesVisitor(userName, userIdentifier)(entries[k]);
        }
      }
      FirstIndexAt(r, NameIs(userName), |entries|);
    }
  }

  /** No two entries share a non-empty identifier (the intended uniqueness
      of responders). */
  ghost predicate UniqueIdentifiers(entries: seq<RsvpEntry>)
  {
    forall j, k :: 0 <= j < k < |entries| && entries[j].userIdentifier.Some? && entries[j].userIdentifier.value != ""
      ==> entries[k].userIdentifier != entries[j].userIdentifier
  }

  /** Because the first match may be found by name, a guest answer can give
      a second entry the identifier another entry already carries. */
  lemma GuestMergeCanDuplicateIdentifier()
    ensures var entries := [RsvpEntry("Sam", Maybe, None, None, None, None),
                            RsvpEntry("Alex", Going, None, None, Some("abc123"), None)];
            UniqueIdentifiers(entries)
            && !UniqueIdentifiers(GuestEntries(entries, "Sam", "abc123", Going, "", 0))
  {
    var entries := [RsvpEntry("Sam", Maybe, None, None, None, None),
                    RsvpEntry("Alex", Going, None, None, Some("abc123"), None)];
    assert FirstIndex(entries, MatchesVisitor("Sam", "abc123")) == 0;
    var r := GuestEntries(entries, "Sam", "abc123", Going, "", 0);
    assert r[0].userIdentifier == r[1].userIdentifier == Some("abc123");
  }

  /** Identifiers stay unique when no entry other than the matched one
      already carries the visitor's identifier. */
  lemma GuestMergeKeepsIdentifiersUnique(entries: seq<RsvpEntry>, userName: string, userIdentifier: string,
                                         status: RsvpStatus, note: string, now: int)
    requires UniqueIdentifiers(entries)
    requires var i := FirstIndex(entries, MatchesVisitor(userName, userIdentifier));
             forall k :: 0 <= k < |entries| && k != i ==> entries[k].userIdentifier != Some(userIdentifier)
    ensures UniqueIdentifiers(GuestEntries(entries, userName, userIdentifier, status, note, now))
  {
  }

  /** What a name submission yields: the value written to storage, the
      name the page goes on using, and whether a name is now set. */
  datatype NameSubmission = NameSubmission(stored: Option<string>, sessionName: string, userSet: bool)

  /** `handleNameSubmit` as written: the trimmed name is stored, but the page
      keeps answering under the name exactly as typed. */
  function NameSubmitAsWritten(typed: string, userSet: bool): (r: NameSubmission)
    ensures Trim(typed) == "" ==> r == NameSubmission(None, typed, userSet)
    ensures Trim(typed) != "" ==> r.stored == Some(Trim(typed)) && r.userSet && r.sessionName == typed
  {
    if Trim(typed) != "" then NameSubmission(Some(Trim(typed)), typed, true)
    else NameSubmission(None, typed, userSet)
  }

  /** `" Sam".trim()` is `"Sam"`. */
  lemma TrimLeadingSpaceName()
    ensures Trim(" Sam") == "Sam"
  {
    assert IsWhitespace(' ') && !IsWhitespace('S') && !IsWhitespace('m');
    assert " Sam"[1..] == "Sam";
    assert SkipSpace(" Sam", 1) == 1;
    assert BackSpace(" Sam", 1, 4) == 4;
  }

  /** A name typed with a leading space: the answer is written under " Sam",
      the stored name is "Sam", and on reload the answer is not found. */
  lemma UntrimmedSessionNameLosesAnswer(d: Drop, now: int)
    requires d.friendsRsvp == None
    ensures var sub := NameSubmitAsWritten(" Sam", false);
            var written := GuestDrop(d, sub.sessionName, "", Going, "", now);
            sub.stored == Some("Sam") && InitialStatus(sub.stored, Some(written)) == NoResponse
  {
    TrimLeadingSpaceName();
    var sub := NameSubmitAsWritten(" Sam", false);
    assert sub.sessionName == " Sam";
    var written := GuestDrop(d, " Sam", "", Going, "", now);
    var entries := EntriesOf(written);
    assert entries == [NewGuestEntry(" Sam", "", Going, "", now)];
    assert !NameIs("Sam")(entries[0]);
    assert FirstIndex(entries, NameIs("Sam")) == -1;
  }

  /** `handleNameSubmit` with the session name trimmed like the stored one:
      a blank name changes nothing; otherwise the trimmed name is stored
      and used. */
  function NameSubmit(typed: string, userSet: bool): (r: NameSubmission)
    ensures AllWhitespace(typed) <==> r.stored.None?
    ensures r.stored.None? ==> r == NameSubmission(None, typed, userSet)
    ensures r.stored.Some? ==> r.stored.value != "" && r.userSet && r.sessionName == r.stored.value
                               && exists i :: OccursAt(typed, r.stored.value, i)
  {
    TrimEmptyIffBlank(typed);
    TrimIsCore(typed);
    assert OccursAt(typed, Trim(typed), TrimOffset(typed));
    if Trim(typed) != "" then NameSubmission(Some(Trim(typed)), Trim(typed), true)
    else NameSubmission(None, typed, userSet)
  }

  /** With the trimmed session name, an answer given right after naming
      oneself is shown again on reload. */
  lemma NamedAnswerSeenOnReload(typed: string, d: Drop, userIdentifier: string, status: RsvpStatus,
                                note: string, now: int)
    requires !AllWhitespace(typed)
    ensures var sub := NameSubmit(typed, false);
            var written := GuestDrop(d, sub.sessionName, userIdentifier, status, note, now);
            InitialStatus(sub.stored, Some(written)) == status
  {
    var sub := NameSubmit(typed, false);
    GuestAnswerSeenOnReload(d, sub.sessionName, userIdentifier, status, note, now);
  }

  /** The `SharedEventView` component for the event `eventId`: the visitor's
      name and identifier, the shown answer and note, whether the name prompt
      is open, and the loaded event. Storage is passed in and returned
      (`None` when nothing is stored). */
  class GuestView {
    const eventId: string
    var userName: string
    var userSet: bool
    var yourRsvp: RsvpStatus
    var yourNote: string
    var showNameInput: bool
    var userIdentifier: string
    var event: Option<Drop>

    /** Mounting: read the stored name and event, and show the stored answer. */
    constructor Load(eventId: string, storedUser: Option<string>, store: Option<seq<Drop>>, identifier: string)
      ensures this.eventId == eventId && userIdentifier == identifier
      ensures userSet <==> storedUser.Some? && storedUser.value != ""
      ensures userName == if userSet then storedUser.value else ""
      ensures event == if store.Some? then FindById(store.value, eventId) else None
      ensures yourRsvp == InitialStatus(storedUser, event)
      ensures yourNote == "" && !showNameInput
    {
      this.eventId := eventId;
      userIdentifier := identifier;
      userSet := storedUser.Some? && storedUser.value != "";
      userName := if storedUser.Some? && storedUser.value != "" then storedUser.value else "";
      event := if store.Some? then FindById(store.value, eventId) else None;
      yourRsvp := InitialStatus(storedUser, if store.Some? then FindById(store.value, eventId) else None);
      yourNote := "";
      showNameInput := false;
    }

    /** Typing in the name prompt. */
    method TypeName(value: string)
      modifies this
      ensures userName == value
      ensures userSet == old(userSet) && yourRsvp == old(yourRsvp) && yourNote == old(yourNote)
      ensures showNameInput == old(showNameInput) && userIdentifier == old(userIdentifier) && event == old(event)
    {
      userName := value;
    }

    /** `handleNameSubmit` (with the trimmed name kept for the session);
        returns what is written under the stored name key. */
    method SubmitName() returns (stored: Option<string>)
      modifies this
      ensures var sub := NameSubmit(old(userName), old(userSet));
              stored == sub.stored && userName == sub.sessionName && userSet == sub.userSet
              && showNameInput == (if sub.stored.Some? then false else old(showNameInput))
      ensures yourRsvp == old(yourRsvp) && yourNote == old(yourNote)
      ensures userIdentifier == old(userIdentifier) && event == old(event)
    {
      var sub := NameSubmit(userName, userSet);
      stored := sub.stored;
      userName := sub.sessionName;
      userSet := sub.userSet;
      if sub.stored.Some? {
        showNameInput := false;
      }
    }

    /** The guest `handleRsvpChange`: without a name only the prompt opens
        and nothing is written; otherwise the answer is merged into the
        stored list (when both the list and the event are there). */
    method ChangeRsvp(status: RsvpStatus, store: Option<seq<Drop>>, now: int) returns (newStore: Option<seq<Drop>>)
      modifies this
      ensures !old(userSet) ==> newStore == store && showNameInput
                                && yourRsvp == old(yourRsvp) && event == old(event)
      ensures old(userSet) ==> yourRsvp == status && showNameInput == old(showNameInput)
      ensures old(userSet) && store.Some? && old(event).Some? ==>
                newStore == Some(GuestRsvp(store.value, eventId, userName, userIdentifier, status, yourNote, now))
                && event == (var found := FindById(newStore.value, eventId);
                             if found.Some? then found else old(event))
      ensures old(userSet) && (store.None? || old(event).None?) ==> newStore == store && event == old(event)
      ensures userName == old(userName) && userSet == old(userSet) && yourNote == old(yourNote)
      ensures userIdentifier == old(userIdentifier)
    {
      if !userSet {
        showNameInput := true;
        return store;
      }
      yourRsvp := status;
      if store.None? || event.None? {
        return store;
      }
      var updated := GuestRsvp(store.value, eventId, userName, userIdentifier, status, yourNote, now);
      var found := FindById(updated, eventId);
      if found.Some? {
        event := found;
      }
      return Some(updated);
    }

    /** The inline `onNoteChange`: the note is kept on the page, and the
        matched entry's note is rewritten in the stored list. */
    method ChangeNote(newNote: string, store: Option<seq<Drop>>, now: int) returns (newStore: Option<seq<Drop>>)
      modifies this
      ensures yourNote == newNote
      ensures store.Some? && old(event).Some? ==>
                newStore == Some(NoteChange(store.value, eventId, userName, userIdentifier, newNote, now))
                && event == (var found := FindById(newStore.value, eventId);
                             if found.Some? then found else old(event))
      ensures (store.None? || old(event).None?) ==> newStore == store && event == old(event)
      ensures userName == old(userName) && userSet == old(userSet) && yourRsvp == old(yourRsvp)
      ensures showNameInput == old(showNameInput) && userIdentifier == old(userIdentifier)
    {
      yourNote := newNote;
      newStore := store;
      if store.Some? && event.Some? {
        var updated := NoteChange(store.value, eventId, userName, userIdentifier, newNote, now);
        newStore := Some(updated);
        var found := FindById(updated, eventId);
        if found.Some? {
          event := found;
        }
      }
    }
  }
}
