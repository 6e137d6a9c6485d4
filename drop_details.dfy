/** The event detail sheet (`DropDetails`): the values it shows for missing
    fields, the past-event test, the vibe lookups, the share link, and the
    three gestures that it forwards to the owner's RSVP handler. */
module Details {
  import opened Types
  import opened Seqs
  import opened Strings
  import opened Store
  import opened App
  import opened Home

  /** The fields as the sheet reads them, after default destructuring. */
  datatype DetailsView = DetailsView(vibe: string, friends: seq<string>, yourRsvp: RsvpStatus,
                                     rsvpNote: string, friendsRsvp: seq<RsvpEntry>)

  /** Missing fields read as vibe `'chill'`, no friends, `no_response`, an
      empty note and no responses; present fields are read as they are. */
  function ViewOf(d: Drop): (v: DetailsView)
    ensures v.vibe == (if d.vibe.Some? then d.vibe.value else "chill")
    ensures v.friends == (if d.friends.Some? then d.friends.value else [])
    ensures v.yourRsvp == (if d.yourRsvp.Some? then d.yourRsvp.value else NoResponse)
    ensures v.rsvpNote == (if d.rsvpNote.Some? then d.rsvpNote.value else "")
    ensures v.friendsRsvp == (if d.friendsRsvp.Some? then d.friendsRsvp.value else [])
  {
    DetailsView(d.vibe.GetOr("chill"), d.friends.GetOr([]), d.yourRsvp.GetOr(NoResponse),
                d.rsvpNote.GetOr(""), d.friendsRsvp.GetOr([]))
  }

  /** `isEventPast`: the event's date is before now. */
  function IsEventPast(d: Drop, now: int): (r: bool)
    ensures r <==> d.date < now
  {
    d.date < now
  }

  /** The sheet's past test is exactly the home page's past test and the
      complement of its upcoming test, so a past event is listed under
      "past" and nowhere else. */
  lemma EventPastMatchesHome(drops: seq<Drop>, d: Drop, now: int)
    ensures IsEventPast(d, now) <==> !IsUpcoming(now)(d)
    ensures d in drops ==> (IsEventPast(d, now) <==> d in Past(drops, now))
    ensures d in drops ==> (!IsEventPast(d, now) <==> d in Upcoming(drops, now))
  {
  }

  /** `vibeColors`: the border colour of each known vibe. */
  const VibeColors: map<string, string> :=
    map["chill" := "#4ade80", "silly" := "#f472b6", "sweaty" := "#ef4444",
        "talky" := "#60a5fa", "spontaneous" := "#f97316"]

  const DefaultVibeColor: string := "#cbd5e1"

  /** `vibeEmojis`: 😌, 🤪, 💪, 💬 and ⚡️ (with its variation selector). */
  const VibeEmojis: map<string, string> :=
    map["chill" := "\U{1F60C}", "silly" := "\U{1F92A}", "sweaty" := "\U{1F4AA}",
        "talky" := "\U{1F4AC}", "spontaneous" := "\U{26A1}\U{FE0F}"]

  /** 👀 */
  const DefaultVibeEmoji: string := "\U{1F440}"

  /** `getVibeBorderColor`: the table colour of a known vibe, slate otherwise. */
  function VibeBorderColor(vibe: string): (r: string)
    ensures vibe in VibeColors ==> r == VibeColors[vibe]
    ensures vibe !in VibeColors ==> r == DefaultVibeColor
  {
    if vibe in VibeColors && VibeColors[vibe] != "" then VibeColors[vibe] else DefaultVibeColor
  }

  /** `getVibeEmoji`: the table emoji of a known vibe, 👀 otherwise. */
  function VibeEmoji(vibe: string): (r: string)
    ensures vibe in VibeEmojis ==> r == VibeEmojis[vibe]
    ensures vibe !in VibeEmojis ==> r == DefaultVibeEmoji
  {
    if vibe in VibeEmojis && VibeEmojis[vibe] != "" then VibeEmojis[vibe] else DefaultVibeEmoji
  }

  /** The fallbacks are shown exactly for unknown vibes, and both tables
      know the same five vibes. */
  lemma VibeFallbackIffUnknown(vibe: string)
    ensures VibeBorderColor(vibe) == DefaultVibeColor <==> vibe !in VibeColors
    ensures VibeEmoji(vibe) == DefaultVibeEmoji <==> vibe !in VibeEmojis
    ensures vibe in VibeColors <==> vibe in VibeEmojis
  {
  }

  /** A missing vibe is shown as chill: green border, relieved face. */
  lemma MissingVibeShowsChill(d: Drop)
    requires d.vibe.None?
    ensures VibeBorderColor(ViewOf(d).vibe) == "#4ade80"
    ensures VibeEmoji(ViewOf(d).vibe) == "\U{1F60C}"
  {
  }

  /** The path of `getShareableLink`: `/event/<id>`. */
  function SharePath(id: string): (r: string)
    ensures |r| == 7 + |id| && r[..7] == "/event/" && r[7..] == id
  {
    "/event/" + id
  }

  /** `getShareableLink`: the page's origin followed by the share path. */
  function ShareableLink(origin: string, id: string): (r: string)
    ensures |r| == |origin| + 7 + |id| && r[..|origin|] == origin && r[|origin|..] == SharePath(id)
  {
    origin + SharePath(id)
  }

  /** The first path segment of `s`: everything before its first `/`. */
  function Segment(s: string): (r: string)
    ensures |r| <= |s| && r == s[..|r|] && '/' !in r
    ensures |r| < |s| ==> s[|r|] == '/'
  {
    if s == [] || s[0] == '/' then [] else [s[0]] + Segment(s[1..])
  }

  /** The route `/event/:eventId` (not exact, and case-insensitive as the
      router matches by default): a path starting with `/event/` in any
      letter case and a non-empty segment matches, and that segment, as
      written, is the id. */
  function EventRoute(path: string): (r: Option<string>)
    ensures r.Some? <==> |path| > 7 && ToLower(path[..7]) == "/event/" && path[7] != '/'
    ensures r.Some? ==> r.value != "" && '/' !in r.value && 7 + |r.value| <= |path|
                        && path[7..7 + |r.value|] == r.value
    ensures r.Some? && 7 + |r.value| < |path| ==> path[7 + |r.value|] == '/'
  {
    if |path| > 7 && ToLower(path[..7]) == "/event/" && path[7] != '/' then
      var seg := Segment(path[7..]);
      assert path[7..][0] == path[7];
      assert path[7..7 + |seg|] == path[7..][..|seg|];
      Some(seg)
    else None
  }

  lemma {:induction false} SegmentOfPlain(s: string)
    requires '/' !in s
    ensures Segment(s) == s
  {
    if s != [] {
      SegmentOfPlain(s[1..]);
    }
  }

  /** The share path's prefix is already lower case. */
  lemma LowerEventPrefix()
    ensures ToLower("/event/") == "/event/"
  {
    assert ToLower("/event/")[1] == LowerChar('e');
  }

  /** Any letter case of the prefix opens the same route: `/EVENT/abc`
      gives the id `abc`. */
  lemma UpperCasePrefixMatches()
    ensures EventRoute("/EVENT/abc") == Some("abc")
  {
    var path := "/EVENT/abc";
    assert ToLower(path[..7]) == "/event/" by {
      assert path[..7] == "/EVENT/";
      var l := ToLower("/EVENT/");
      assert l[0] == '/' && l[1] == 'e' && l[2] == 'v' && l[3] == 'e' && l[4] == 'n' && l[5] == 't' && l[6] == '/';
    }
    assert path[7..] == "abc";
    SegmentOfPlain("abc");
  }

  /** A share link opens the guest view on the same event: the route gives
      back the id, and the lookup by that id finds the first event carrying it. */
  lemma ShareLinkOpensEvent(drops: seq<Drop>, k: int)
    requires 0 <= k < |drops| && drops[k].id != "" && '/' !in drops[k].id
    requires forall j :: 0 <= j < k ==> drops[j].id != drops[k].id
    ensures EventRoute(SharePath(drops[k].id)) == Some(drops[k].id)
    ensures FindById(drops, EventRoute(SharePath(drops[k].id)).value) == Some(drops[k])
  {
    var p := SharePath(drops[k].id);
    assert p[7..] == drops[k].id;
    LowerEventPrefix();
    SegmentOfPlain(drops[k].id);
    FirstIndexAt(drops, IdIs(drops[k].id), k);
  }

  /** What the sheet passes on to `onRsvpChange`: status, note and, for
      the photo gesture only, a link. */
  datatype RsvpCall = RsvpCall(status: RsvpStatus, note: string, photoLink: Option<string>)

  /** The three gestures the sheet listens to. */
  datatype Gesture = StatusPicked(status: RsvpStatus) | NoteEdited(note: string) | PhotoLinkEdited(link: string)

  /** The forwarding lambdas: a picked status goes with the shown note, an
      edited note with the shown status, a photo link with both. */
  function Forward(d: Drop, g: Gesture): (c: RsvpCall)
    ensures g.StatusPicked? ==> c == RsvpCall(g.status, ViewOf(d).rsvpNote, None)
    ensures g.NoteEdited? ==> c == RsvpCall(ViewOf(d).yourRsvp, g.note, None)
    ensures g.PhotoLinkEdited? ==> c == RsvpCall(ViewOf(d).yourRsvp, ViewOf(d).rsvpNote, Some(g.link))
  {
    var v := ViewOf(d);
    match g
    case StatusPicked(s) => RsvpCall(s, v.rsvpNote, None)
    case NoteEdited(n) => RsvpCall(v.yourRsvp, n, None)
    case PhotoLinkEdited(l) => RsvpCall(v.yourRsvp, v.rsvpNote, Some(l))
  }

  /** The owner's handler applied to what a gesture forwards. */
  function ApplyGesture(d: Drop, g: Gesture): Drop
  {
    var c := Forward(d, g);
    ApplyOwnerRsvp(d, c.status, c.note, c.photoLink)
  }

  /** Each gesture changes only what it is about, as the sheet shows it:
      picking a status keeps the note and the photo link, editing the note
      keeps the status and the photo link, and editing the link keeps
      status and note and sets the link. */
  lemma GesturesKeepOtherFields(d: Drop, g: Gesture)
    ensures var after := ApplyGesture(d, g);
      && (g.StatusPicked? ==> ViewOf(after).yourRsvp == g.status && ViewOf(after).rsvpNote == ViewOf(d).rsvpNote
                              && after.photoLink == d.photoLink)
      && (g.NoteEdited? ==> ViewOf(after).rsvpNote == g.note && ViewOf(after).yourRsvp == ViewOf(d).yourRsvp
                            && after.photoLink == d.photoLink)
      && (g.PhotoLinkEdited? ==> ViewOf(after).yourRsvp == ViewOf(d).yourRsvp
                                 && ViewOf(after).rsvpNote == ViewOf(d).rsvpNote
                                 && after.photoLink == Some(g.link))
  {
  }

  /** The status buttons only offer going, maybe and not going; any of them
      leaves the owner with a `'You'` entry carrying that status first. */
  lemma PickedStatusRecordsOwner(d: Drop, s: RsvpStatus)
    requires s != NoResponse
    ensures var entries := EntriesOf(ApplyGesture(d, StatusPicked(s)));
            var i := FirstIndex(entries, NameIs(OwnerName));
            i >= 0 && entries[i].status == s
  {
    var c := Forward(d, StatusPicked(s));
    OwnerRsvpKeepsViewsInSync(d, c.status, c.note, c.photoLink);
    OwnerEntryPosition(EntriesOf(d), c.status, c.note, c.photoLink);
  }
}
