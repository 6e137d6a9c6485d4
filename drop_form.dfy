/** The create/edit sheet for an event (`DropForm`): a draft record that the
    inputs update field by field, and the submission that gives it an id. */
module Form {
  import opened Types
  import opened Strings
  import opened Seqs
  import opened Store
  import opened App

  /** The form's `drop` state. An empty date input is `None`. When editing,
      `carried` is the event being edited, whose other fields (friends,
      answers, photos) travel along unchanged. */
  datatype Draft = Draft(emoji: string, title: string, date: Option<int>, location: string,
                         friendsCount: int, isHost: bool, vibe: Option<string>, carried: Option<Drop>)

  /** 🎉 */
  const DefaultEmoji: string := "\U{1F389}"

  /** The blank record: 🎉, empty title, date and location, no friends, hosted by the owner, chill. */
  const DefaultDraft: Draft := Draft(DefaultEmoji, "", None, "", 0, true, Some("chill"), None)

  /** The effect on open: the edited event, or the blank record. */
  function InitDraft(initialDrop: Option<Drop>): (r: Draft)
    ensures initialDrop.None? ==> r == DefaultDraft
    ensures initialDrop.Some? ==>
              var d := initialDrop.value;
              r == Draft(d.emoji, d.title, Some(d.date), d.location, d.friendsCount, d.isHost, d.vibe, Some(d))
  {
    match initialDrop
    case None => DefaultDraft
    case Some(d) => Draft(d.emoji, d.title, Some(d.date), d.location, d.friendsCount, d.isHost, d.vibe, Some(d))
  }

  /** The three text inputs wired to `handleChange`, by their `name`. */
  datatype Change = TitleInput(title: string) | DateInput(date: Option<int>) | LocationInput(location: string)

  /** `handleChange`: the named field takes the input's value; nothing else changes. */
  function HandleChange(draft: Draft, c: Change): (r: Draft)
    ensures c.TitleInput? ==> r.title == c.title && r.(title := draft.title) == draft
    ensures c.DateInput? ==> r.date == c.date && r.(date := draft.date) == draft
    ensures c.LocationInput? ==> r.location == c.location && r.(location := draft.location) == draft
  {
    match c
    case TitleInput(t) => draft.(title := t)
    case DateInput(dt) => draft.(date := dt)
    case LocationInput(l) => draft.(location := l)
  }

  /** `handleEmojiSelect`: only the emoji changes. */
  function SelectEmoji(draft: Draft, emoji: string): (r: Draft)
    ensures r.emoji == emoji && r.(emoji := draft.emoji) == draft
  {
    draft.(emoji := emoji)
  }

  /** `handleVibeSelect`: only the vibe changes. */
  function SelectVibe(draft: Draft, vibe: string): (r: Draft)
    ensures r.vibe == Some(vibe) && r.(vibe := draft.vibe) == draft
  {
    draft.(vibe := Some(vibe))
  }

  /** `initialDrop?.id || Date.now().toString()`: the edited event's id when
      it has a non-empty one, else the clock rendered in decimal. */
  function SubmitId(initialDrop: Option<Drop>, clock: int): (id: string)
    ensures initialDrop.Some? && initialDrop.value.id != "" ==> id == initialDrop.value.id
    ensures !(initialDrop.Some? && initialDrop.value.id != "") ==> id == IntToString(clock) && ParseInt(id) == Some(clock)
  {
    if initialDrop.Some? && initialDrop.value.id != "" then initialDrop.value.id
    else
      ParseIntOfIntToString(clock);
      IntToString(clock)
  }

  /** `handleSubmit`: the browser only submits with a title and a date (both
      inputs are `required`); the draft's fields, its carried fields and the
      id form the saved event. */
  function Submit(draft: Draft, initialDrop: Option<Drop>, clock: int): (r: Option<Drop>)
    ensures r.None? <==> draft.title == "" || draft.date.None?
    ensures r.Some? ==>
              && r.value.id == SubmitId(initialDrop, clock)
              && r.value.emoji == draft.emoji && r.value.title == draft.title && Some(r.value.date) == draft.date
              && r.value.location == draft.location && r.value.friendsCount == draft.friendsCount
              && r.value.isHost == draft.isHost && r.value.vibe == draft.vibe
              && (draft.carried.None? ==> r.value.friends.None? && r.value.yourRsvp.None? && r.value.rsvpNote.None?
                                          && r.value.photoLink.None? && r.value.friendsRsvp.None? && r.value.photos.None?)
              && (draft.carried.Some? ==>
                    var c := draft.carried.value;
                    r.value.friends == c.friends && r.value.yourRsvp == c.yourRsvp && r.value.rsvpNote == c.rsvpNote
                    && r.value.photoLink == c.photoLink && r.value.friendsRsvp == c.friendsRsvp
                    && r.value.photos == c.photos)
  {
    if draft.title == "" || draft.date.None? then None
    else
      var id := SubmitId(initialDrop, clock);
      match draft.carried
      case None =>
        Some(Drop(id, draft.emoji, draft.title, draft.date.value, draft.location, draft.friendsCount,
                  draft.isHost, draft.vibe, None, None, None, None, None, None))
      case Some(c) =>
        Some(c.(id := id, emoji := draft.emoji, title := draft.title, date := draft.date.value,
                location := draft.location, friendsCount := draft.friendsCount, isHost := draft.isHost,
                vibe := draft.vibe))
  }

  /** Opening an event for editing and submitting it untouched saves that very event. */
  lemma UntouchedEditRoundTrips(d: Drop, clock: int)
    requires d.id != "" && d.title != ""
    ensures Submit(InitDraft(Some(d)), Some(d), clock) == Some(d)
  {
  }

  /** An edited event keeps its id, so saving it replaces it in the list,
      which keeps its length. */
  lemma EditReplacesInList(drops: seq<Drop>, k: int, draft: Draft, clock: int)
    requires 0 <= k < |drops| && drops[k].id != ""
    requires Submit(draft, Some(drops[k]), clock).Some?
    ensures var saved := Submit(draft, Some(drops[k]), clock).value;
            saved.id == drops[k].id && |SaveDrop(drops, saved)| == |drops|
  {
    var saved := Submit(draft, Some(drops[k]), clock).value;
    assert IdIs(saved.id)(drops[k]);
  }

  /** Two new events created at different clock readings get different ids. */
  lemma NewIdsFollowClock(draft1: Draft, draft2: Draft, clock1: int, clock2: int)
    requires Submit(draft1, None, clock1).Some? && Submit(draft2, None, clock2).Some?
    requires clock1 != clock2
    ensures Submit(draft1, None, clock1).value.id != Submit(draft2, None, clock2).value.id
  {
  }
}
