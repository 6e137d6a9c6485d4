/** The records the app keeps in storage and passes between its components.
    Dates and timestamps are integer milliseconds; a key a record may lack
    is an `Option`. */
module Types {

  /** Optional values, for the keys a record may lack. */
  datatype Option<T> = None | Some(value: T) {
    /** `x ?? default`, or `x || default` where the value cannot be falsy. */
    function GetOr(default: T): T {
      match this
      case Some(v) => v
      case None => default
    }
  }

  /** The four RSVP answers (`RSVP_STATUS`). */
  datatype RsvpStatus = Going | Maybe | NotGoing | NoResponse

  /** One responder's entry in an event's `friendsRsvp` list. */
  datatype RsvpEntry = RsvpEntry(
    name: string,
    status: RsvpStatus,
    note: Option<string>,
    photoLink: Option<string>,
    userIdentifier: Option<string>,
    lastUpdated: Option<int>)

  /** A photo attached to an event. */
  datatype Photo = Photo(id: string, url: string, caption: string, uploadedBy: string, timestamp: int)

  /** An event ("drop"). */
  datatype Drop = Drop(
    id: string,
    emoji: string,
    title: string,
    date: int,
    location: string,
    friendsCount: int,
    isHost: bool,
    vibe: Option<string>,
    friends: Option<seq<string>>,
    yourRsvp: Option<RsvpStatus>,
    rsvpNote: Option<string>,
    photoLink: Option<string>,
    friendsRsvp: Option<seq<RsvpEntry>>,
    photos: Option<seq<Photo>>)

  /** A friend in the friends list. `lastHangout` is `None` for the empty string. */
  datatype Friend = Friend(
    id: string, name: string, phone: string, lastHangout: Option<int>, avatar: string, color: string)

  /** A saved group of friend ids. */
  datatype FriendGroup = FriendGroup(
    id: string, name: string, emoji: string, color: string, members: seq<string>)
}
