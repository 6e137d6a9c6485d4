/** The owner side of the app (`App`): saving an event from the form, and
    folding the owner's own RSVP into both the event's `yourRsvp` /
    `rsvpNote` / `photoLink` and its `friendsRsvp` list, where the owner
    appears under the fixed name "You". */
module App {
  import opened Types
  import opened Seqs
  import opened Store

  /** The name the owner's entry carries in `friendsRsvp`. */
  const OwnerName: string := "You"

  /** `handleSaveDrop`: an event whose id is already stored replaces the
      first event with that id; a new id is appended. */
  function SaveDrop(drops: seq<Drop>, newDrop: Drop): (r: seq<Drop>)
    ensures var i := FirstIndex(drops, IdIs(newDrop.id));
      && (i >= 0 ==> |r| == |drops| && r[i] == newDrop
                     && forall k :: 0 <= k < |drops| && k != i ==> r[k] == drops[k])
      && (i == -1 ==> r == drops + [newDrop])
  {
    var i := FirstIndex(drops, IdIs(newDrop.id));
    if i >= 0 then drops[i := newDrop] else drops + [newDrop]
  }

  /** After saving, looking the id up finds exactly the saved event. */
  lemma SavedDropIsFound(drops: seq<Drop>, newDrop: Drop)
    ensures FindById(SaveDrop(drops, newDrop), newDrop.id) == Some(newDrop)
  {
    var r := SaveDrop(drops, newDrop);
    var i := FirstIndex(drops, IdIs(newDrop.id));
    if i >= 0 {
      assert forall k :: 0 <= k < i ==> !IdIs(newDrop.id)(r[k]);
      assert IdIs(newDrop.id)(r[i]);
    } else {
      assert IdIs(newDrop.id)(r[|drops|]);
    }
  }

  /** Saving the same event twice is saving it once. */
  lemma SaveDropIdempotent(drops: seq<Drop>, newDrop: Drop)
    ensures SaveDrop(SaveDrop(drops, newDrop), newDrop) == SaveDrop(drops, newDrop)
  {
    var r := SaveDrop(drops, newDrop);
    SavedDropIsFound(drops, newDrop);
    var j := FirstIndex(r, IdIs(newDrop.id));
    assert r[j] == newDrop;
    assert r[j := newDrop] == r;
  }

  /** The owner's entry after an RSVP: the previous entry with the new status
      and note, and the new photo link when one is given. */
  function UpdatedOwnerEntry(e: RsvpEntry, status: RsvpStatus, note: string, photoLink: Option<string>): RsvpEntry
  {
    e.(status := status, note := Some(note), photoLink := if photoLink.Some? then photoLink else e.photoLink)
  }

  /** The `friendsRsvp` part of `handleRsvpChange`: the first "You" entry is
      updated in place; without one, a "You" entry is appended only for an
      actual answer or a non-empty note. */
  function UpsertOwnerEntry(entries: seq<RsvpEntry>, status: RsvpStatus, note: string, photoLink: Option<string>)
    : (r: seq<RsvpEntry>)
    ensures var i := FirstIndex(entries, NameIs(OwnerName));
      && (i >= 0 ==> |r| == |entries|
                     && r[i] == entries[i].(status := status, note := Some(note),
                                           photoLink := if photoLink.Some? then photoLink else entries[i].photoLink)
                     && forall k :: 0 <= k < |entries| && k != i ==> r[k] == entries[k])
      && (i == -1 && (status != NoResponse || note != "") ==>
            r == entries + [RsvpEntry(OwnerName, status, Some(note), photoLink, None, None)])
      && (i == -1 && status == NoResponse && note == "" ==> r == entries)
  {
    var i := FirstIndex(entries, NameIs(OwnerName));
    if i >= 0 then entries[i := UpdatedOwnerEntry(entries[i], status, note, photoLink)]
    else if status != NoResponse || note != "" then
      entries + [RsvpEntry(OwnerName, status, Some(note), photoLink, None, None)]
    else entries
  }

  /** `handleRsvpChange` on the matching event. Only `yourRsvp`, `rsvpNote`,
      `photoLink` (when given) and `friendsRsvp` change. */
  function ApplyOwnerRsvp(d: Drop, status: RsvpStatus, note: string, photoLink: Option<string>): (r: Drop)
    ensures r.yourRsvp == Some(status) && r.rsvpNote == Some(note)
    ensures r.photoLink == if photoLink.Some? then photoLink else d.photoLink
    ensures r.friendsRsvp == Some(UpsertOwnerEntry(EntriesOf(d), status, note, photoLink))
    ensures r.(yourRsvp := d.yourRsvp, rsvpNote := d.rsvpNote, photoLink := d.photoLink,
               friendsRsvp := d.friendsRsvp) == d
  {
    d.(yourRsvp := Some(status), rsvpNote := Some(note),
       photoLink := if photoLink.Some? then photoLink else d.photoLink,
       friendsRsvp := Some(UpsertOwnerEntry(EntriesOf(d), status, note, photoLink)))
  }

  /** `handleRsvpChange(dropId, status, note, photoLink)` over the whole list:
      every event with that id is updated, every other event is untouched. */
  function RsvpChange(drops: seq<Drop>, dropId: string, status: RsvpStatus, note: string, photoLink: Option<string>)
    : (r: seq<Drop>)
    ensures |r| == |drops|
    ensures forall k :: 0 <= k < |drops| && drops[k].id != dropId ==> r[k] == drops[k]
    ensures forall k :: 0 <= k < |drops| && drops[k].id == dropId ==>
              r[k] == ApplyOwnerRsvp(drops[k], status, note, photoLink)
  {
    MapWhere(drops, IdIs(dropId), (d: Drop) => ApplyOwnerRsvp(d, status, note, photoLink))
  }

  /** At most one "You" entry in a list. */
  predicate SingleOwnerEntry(entries: seq<RsvpEntry>)
  {
    Count(entries, NameIs(OwnerName)) <= 1
  }

  /** The owner's own answer and the owner's attendee entry agree: if a "You"
      entry exists, the first one carries `yourRsvp` and `rsvpNote`. */
  predicate OwnerViewsAgree(d: Drop)
  {
    var entries := EntriesOf(d);
    var i := FirstIndex(entries, NameIs(OwnerName));
    i >= 0 ==> Some(entries[i].status) == d.yourRsvp && entries[i].note == d.rsvpNote
  }

  /** Where the first "You" entry sits after the upsert: where it was, or at
      the end when one was appended, or nowhere when none was created. */
  lemma OwnerEntryPosition(entries: seq<RsvpEntry>, status: RsvpStatus, note: string, photoLink: Option<string>)
    ensures var i := FirstIndex(entries, NameIs(OwnerName));
            var r := UpsertOwnerEntry(entries, status, note, photoLink);
            FirstIndex(r, NameIs(OwnerName)) ==
              if i >= 0 then i
              else if status != NoResponse || note != "" then |entries|
              else -1
  {
    var r := UpsertOwnerEntry(entries, status, note, photoLink);
    var i := FirstIndex(entries, NameIs(OwnerName));
    if i >= 0 {
      FirstIndexAt(r, NameIs(OwnerName), i);
    } else if status != NoResponse || note != "" {
      FirstIndexAt(r, NameIs(OwnerName), |entries|);
    }
  }

  /** The upsert never creates a second "You" entry. */
  lemma OwnerEntryStaysSingle(entries: seq<RsvpEntry>, status: RsvpStatus, note: string, photoLink: Option<string>)
    requires SingleOwnerEntry(entries)
    ensures SingleOwnerEntry(UpsertOwnerEntry(entries, status, note, photoLink))
  {
    var i := FirstIndex(entries, NameIs(OwnerName));
    if i >= 0 {
      FilterUpdateLength(entries, i, UpdatedOwnerEntry(entries[i], status, note, photoLink), NameIs(OwnerName));
    } else if status != NoResponse || note != "" {
      var e := RsvpEntry(OwnerName, status, Some(note), photoLink, None, None);
      FilterAppend(entries, [e], NameIs(OwnerName));
      FilterNone(entries, NameIs(OwnerName));
    }
  }

  /** After an owner RSVP the two views of the owner's answer agree, whatever
      the event looked like before, and a single "You" entry stays single. */
  lemma OwnerRsvpKeepsViewsInSync(d: Drop, status: RsvpStatus, note: string, photoLink: Option<string>)
    ensures OwnerViewsAgree(ApplyOwnerRsvp(d, status, note, photoLink))
    ensures SingleOwnerEntry(EntriesOf(d)) ==>
              SingleOwnerEntry(EntriesOf(ApplyOwnerRsvp(d, status, note, photoLink)))
  {
    OwnerEntryPosition(EntriesOf(d), status, note, photoLink);
    if SingleOwnerEntry(EntriesOf(d)) {
      OwnerEntryStaysSingle(EntriesOf(d), status, note, photoLink);
    }
  }

  /** Repeating the same owner RSVP changes nothing more. */
  lemma OwnerRsvpIdempotent(d: Drop, status: RsvpStatus, note: string, photoLink: Option<string>)
    ensures var once := ApplyOwnerRsvp(d, status, note, photoLink);
            ApplyOwnerRsvp(once, status, note, photoLink) == once
  {
    var entries := EntriesOf(d);
    var r := UpsertOwnerEntry(entries, status, note, photoLink);
    OwnerEntryPosition(entries, status, note, photoLink);
    var j := FirstIndex(r, NameIs(OwnerName));
    if j >= 0 {
      assert r[j := r[j]] == r;
    }
  }

  /** `handlePhotoLinkUpdate` on one list: every entry named `userName` gets
      the new photo link (or loses it, when none is given); nothing else changes. */
  function SetPhotoLinkFor(entries: seq<RsvpEntry>, userName: string, photoLink: Option<string>)
    : (r: seq<RsvpEntry>)
    ensures |r| == |entries|
    ensures forall k :: 0 <= k < |entries| ==>
              r[k].(photoLink := entries[k].photoLink) == entries[k]
              && r[k].photoLink == if entries[k].name == userName then photoLink else entries[k].photoLink
  {
    MapWhere(entries, NameIs(userName), (e: RsvpEntry) => e.(photoLink := photoLink))
  }

  /** `handlePhotoLinkUpdate(dropId, photoLink, userName)`: on the events with
      that id a missing `friendsRsvp` becomes `[]` and the named entries get
      the link; every other event is untouched. */
  function PhotoLinkUpdate(drops: seq<Drop>, dropId: string, photoLink: Option<string>, userName: string)
    : (r: seq<Drop>)
    ensures |r| == |drops|
    ensures forall k :: 0 <= k < |drops| && drops[k].id != dropId ==> r[k] == drops[k]
    ensures forall k :: 0 <= k < |drops| && drops[k].id == dropId ==>
              r[k] == drops[k].(friendsRsvp := Some(SetPhotoLinkFor(EntriesOf(drops[k]), userName, photoLink)))
  {
    MapWhere(drops, IdIs(dropId),
             (d: Drop) => d.(friendsRsvp := Some(SetPhotoLinkFor(EntriesOf(d), userName, photoLink))))
  }

  /** The `App` component's event list (`drops` state) and its three
      handlers; each replaces the list by its updated copy. */
  class AppState {
    var drops: seq<Drop>

    constructor (initial: seq<Drop>)
      ensures drops == initial
    {
      drops := initial;
    }

    method HandleSaveDrop(newDrop: Drop)
      modifies this
      ensures drops == SaveDrop(old(drops), newDrop)
      ensures FindById(drops, newDrop.id) == Some(newDrop)
    {
      SavedDropIsFound(drops, newDrop);
      drops := SaveDrop(drops, newDrop);
    }

    method HandleRsvpChange(dropId: string, status: RsvpStatus, note: string, photoLink: Option<string>)
      modifies this
      ensures drops == RsvpChange(old(drops), dropId, status, note, photoLink)
      ensures forall k :: 0 <= k < |drops| && drops[k].id == dropId ==> OwnerViewsAgree(drops[k])
    {
      var updated := RsvpChange(drops, dropId, status, note, photoLink);
      forall k | 0 <= k < |updated| && updated[k].id == dropId
        ensures OwnerViewsAgree(updated[k])
      {
        OwnerRsvpKeepsViewsInSync(drops[k], status, note, photoLink);
      }
      drops := updated;
    }

    method HandlePhotoLinkUpdate(dropId: string, photoLink: Option<string>, userName: string)
      modifies this
      ensures drops == PhotoLinkUpdate(old(drops), dropId, photoLink, userName)
    {
      drops := PhotoLinkUpdate(drops, dropId, photoLink, userName);
    }
  }
}
