/** The photo wall (`PhotosPage`): every event's photos flattened and
    tagged with their event, newest first, grouped by event, and filtered by
    a selected event. */
module Photos {
  import opened Types
  import opened Sorting

  /** A photo with its event's id, title and emoji attached. */
  datatype TaggedPhoto = TaggedPhoto(photo: Photo, dropId: string, dropTitle: string, dropEmoji: string)

  /** `drop.photos || []`. */
  function PhotosOf(d: Drop): seq<Photo>
  {
    d.photos.GetOr([])
  }

  /** One event's photos, tagged, in their own order. */
  function Tagged(d: Drop): (r: seq<TaggedPhoto>)
    ensures |r| == |PhotosOf(d)|
    ensures forall j :: 0 <= j < |r| ==> r[j] == TaggedPhoto(PhotosOf(d)[j], d.id, d.title, d.emoji)
  {
    TagAll(PhotosOf(d), d)
  }

  function TagAll(ps: seq<Photo>, d: Drop): (r: seq<TaggedPhoto>)
    ensures |r| == |ps|
    ensures forall j :: 0 <= j < |r| ==> r[j] == TaggedPhoto(ps[j], d.id, d.title, d.emoji)
  {
    if ps == [] then [] else [TaggedPhoto(ps[0], d.id, d.title, d.emoji)] + TagAll(ps[1..], d)
  }

  /** The number of photos over all events, a missing list counting as none. */
  function TotalPhotos(drops: seq<Drop>): nat
  {
    if drops == [] then 0 else |PhotosOf(drops[0])| + TotalPhotos(drops[1..])
  }

  /** `allPhotos`: `flatMap` over the events. */
  function AllPhotos(drops: seq<Drop>): (r: seq<TaggedPhoto>)
    ensures |r| == TotalPhotos(drops)
  {
    if drops == [] then [] else Tagged(drops[0]) + AllPhotos(drops[1..])
  }

  lemma {:induction false} AllPhotosAppend(a: seq<Drop>, b: seq<Drop>)
    ensures AllPhotos(a + b) == AllPhotos(a) + AllPhotos(b)
    ensures TotalPhotos(a + b) == TotalPhotos(a) + TotalPhotos(b)
  {
    if a != [] {
      assert (a + b)[0] == a[0];
      assert (a + b)[1..] == a[1..] + b;
      AllPhotosAppend(a[1..], b);
    } else {
      assert a + b == b;
    }
  }

  /** Event order then photo order: the `j`-th photo of event `k` sits after
      all photos of the earlier events, tagged with event `k`. */
  lemma AllPhotosAt(drops: seq<Drop>, k: int, j: int)
    requires 0 <= k < |drops| && 0 <= j < |PhotosOf(drops[k])|
    ensures TotalPhotos(drops[..k]) + j < |AllPhotos(drops)|
    ensures AllPhotos(drops)[TotalPhotos(drops[..k]) + j]
            == TaggedPhoto(PhotosOf(drops[k])[j], drops[k].id, drops[k].title, drops[k].emoji)
  {
    assert drops == drops[..k] + drops[k..];
    AllPhotosAppend(drops[..k], drops[k..]);
    assert drops[k..][0] == drops[k];
  }

  /** `new Date(b.timestamp) - new Date(a.timestamp)` orders by descending
      timestamp, that is ascending by its negation. */
  function NewestFirstKey(): TaggedPhoto -> int
  {
    (t: TaggedPhoto) => -t.photo.timestamp
  }

  /** `sortedPhotos`: the same photos, newest first. */
  function SortedPhotos(drops: seq<Drop>): (r: seq<TaggedPhoto>)
    ensures multiset(r) == multiset(AllPhotos(drops))
    ensures forall i, j :: 0 <= i < j < |r| ==> r[i].photo.timestamp >= r[j].photo.timestamp
  {
    var r := SortBy(AllPhotos(drops), NewestFirstKey());
    assert forall i, j :: 0 <= i < j < |r| ==> NewestFirstKey()(r[i]) <= NewestFirstKey()(r[j]);
    r
  }

  /** `dropInfo`. */
  datatype DropInfo = DropInfo(id: string, title: string, emoji: string, date: int, vibe: Option<string>)

  /** An entry of `photosByDrop`. */
  datatype DropPhotos = DropPhotos(dropInfo: DropInfo, photos: seq<Photo>)

  predicate HasPhotos(d: Drop)
  {
    d.photos.Some? && |d.photos.value| > 0
  }

  function GroupOf(d: Drop): DropPhotos
  {
    DropPhotos(DropInfo(d.id, d.title, d.emoji, d.date, d.vibe), PhotosOf(d))
  }

  /** `photosByDrop`: the `reduce` visits events in order, adding an entry
      for each event with photos. Its keys are exactly the ids of events
      with photos. */
  function PhotosByDrop(drops: seq<Drop>): (r: map<string, DropPhotos>)
    ensures forall id :: id in r <==> exists k :: 0 <= k < |drops| && drops[k].id == id && HasPhotos(drops[k])
  {
    if drops == [] then map[]
    else
      var init := drops[..|drops| - 1];
      var last := drops[|drops| - 1];
      var acc := PhotosByDrop(init);
      assert forall k :: 0 <= k < |init| ==> init[k] == drops[k];
      if HasPhotos(last) then acc[last.id := GroupOf(last)] else acc
  }

  /** Of two events with photos and the same id the later one is kept: the
      entry for an id is the group of the last event with photos carrying it. */
  lemma {:induction false} PhotosByDropKeepsLast(drops: seq<Drop>, k: int)
    requires 0 <= k < |drops| && HasPhotos(drops[k])
    requires forall j :: k < j < |drops| && drops[j].id == drops[k].id ==> !HasPhotos(drops[j])
    ensures drops[k].id in PhotosByDrop(drops) && PhotosByDrop(drops)[drops[k].id] == GroupOf(drops[k])
  {
    var n := |drops| - 1;
    var init := drops[..n];
    if k < n {
      PhotosByDropKeepsLast(init, k);
    }
  }

  /** The page's selection: an event id (or none) and an opened photo. */
  datatype Selection = Selection(selectedDrop: Option<string>, selectedPhoto: Option<TaggedPhoto>)

  /** `handleSelectDrop`: choosing the selected event again clears the
      selection, choosing another selects it; the opened photo closes. */
  function SelectDrop(s: Selection, dropId: string): (r: Selection)
    ensures r.selectedPhoto.None?
    ensures s.selectedDrop == Some(dropId) ==> r.selectedDrop.None?
    ensures s.selectedDrop != Some(dropId) ==> r.selectedDrop == Some(dropId)
  {
    Selection(if s.selectedDrop == Some(dropId) then None else Some(dropId), None)
  }

  /** Choosing an event twice, from no selection or from another event,
      returns to the unfiltered wall. */
  lemma SelectTwiceClears(s: Selection, dropId: string)
    requires s.selectedDrop != Some(dropId)
    ensures SelectDrop(SelectDrop(s, dropId), dropId) == Selection(None, None)
  {
  }

  /** What the wall shows: all photos newest first, or one event's photos
      as stored. */
  datatype Display = Wall(tagged: seq<TaggedPhoto>) | EventPhotos(photos: seq<Photo>)

  /** `getPhotosToDisplay`: a selected (non-empty) id shows that event's
      group's photos, or none if it has no group; otherwise the sorted wall. */
  function PhotosToDisplay(drops: seq<Drop>, selectedDrop: Option<string>): (r: Display)
    ensures (selectedDrop.None? || selectedDrop == Some("")) ==> r == Wall(SortedPhotos(drops))
    ensures selectedDrop.Some? && selectedDrop.value != "" ==>
              var byDrop := PhotosByDrop(drops);
              r == EventPhotos(if selectedDrop.value in byDrop then byDrop[selectedDrop.value].photos else [])
  {
    if selectedDrop.Some? && selectedDrop.value != "" then
      var byDrop := PhotosByDrop(drops);
      EventPhotos(if selectedDrop.value in byDrop then byDrop[selectedDrop.value].photos else [])
    else Wall(SortedPhotos(drops))
  }

  /** When ids are distinct, the selected event's own photos are shown. */
  lemma SelectedEventShowsItsPhotos(drops: seq<Drop>, k: int)
    requires 0 <= k < |drops| && drops[k].id != ""
    requires forall j :: 0 <= j < |drops| && j != k ==> drops[j].id != drops[k].id
    ensures PhotosToDisplay(drops, Some(drops[k].id)) == EventPhotos(PhotosOf(drops[k]))
  {
    var byDrop := PhotosByDrop(drops);
    if HasPhotos(drops[k]) {
      PhotosByDropKeepsLast(drops, k);
    } else {
      assert drops[k].id !in byDrop;
      assert PhotosOf(drops[k]) == [];
    }
  }
}
