/** Lookups over the stored event list and an event's RSVP entries. */
module Store {
  import opened Types
  import opened Seqs

  /** `drop => drop.id === id`. */
  function IdIs(id: string): Drop -> bool
  {
    (d: Drop) => d.id == id
  }

  /** `entry => entry.name === name`. */
  function NameIs(name: string): RsvpEntry -> bool
  {
    (e: RsvpEntry) => e.name == name
  }

  /** `drops.find(drop => drop.id === id)`: the first event with that id. */
  function FindById(drops: seq<Drop>, id: string): (r: Option<Drop>)
    ensures r.None? <==> forall k :: 0 <= k < |drops| ==> drops[k].id != id
    ensures r.Some? ==> r.value.id == id && r.value == drops[FirstIndex(drops, IdIs(id))]
  {
    var i := FirstIndex(drops, IdIs(id));
    if i == -1 then None else Some(drops[i])
  }

  /** `friendsRsvp || []`: a missing list reads as empty. */
  function EntriesOf(d: Drop): seq<RsvpEntry>
  {
    d.friendsRsvp.GetOr([])
  }
}
