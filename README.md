# Let's Hang — a Dafny model of the event, RSVP and friends logic

Let's Hang is a browser-only app for small get-togethers ("drops"). An owner creates events, answers for themself, and shares a link. Guests open the link, give a display name and answer too. The app also keeps a friends list with groups, and a photo wall built from the events' photos. The app's logic lives inside React handlers. This project lifts those handlers out and proves what they do.

The modules follow the source files:

| module | file | what it holds |
|---|---|---|
| `Types` | `types.dfy` | events, RSVP entries, photos, friends and groups as datatypes. A key a record may lack is an `Option`. Dates are integer milliseconds. |
| `Seqs`, `Sorting`, `Strings`, `Store` | `seqs.dfy`, `sorting.dfy`, `strings.dfy`, `store.dfy` | the JavaScript built-ins the handlers use: `filter`, `findIndex`, `find`, conditional `map`, a stable sort by a numeric key, `trim`, `toLowerCase`, `includes`, `charAt(0)`, decimal `parseInt` and `String(n)`; plus lookups by event id and by responder name |
| `App` | `app.dfy` | the owner's handlers, and the `App` component as a class whose `drops` field each handler replaces |
| `SharedView` | `shared_view.dfy` | the guest page: visitor matching, the RSVP merge, the note-only merge, the status shown on load, name submission, and the `SharedEventView` component as a class |
| `Home` | `home.dfy` | sorting events by date and splitting them into upcoming and past |
| `Details` | `drop_details.dfy` | the event sheet's defaults, past test, vibe tables, share link and route, and the three forwarded RSVP gestures |
| `Form` | `drop_form.dfy` | the create/edit draft, its field handlers and how a submission gets its id |
| `Friends`, `GroupForm`, `FriendForm` | `friends.dfy`, `group_form.dfy`, `add_friend_form.dfy` | search, `Math.max(...ids) + 1` id generation, adding friends and groups, editing groups, the "last hangout" labels, and the group and add-friend forms |
| `Photos` | `photos.dfy` | flattening, newest-first sorting, grouping by event, selection and the displayed photos |

Some code copies an array and then assigns one slot or pushes onto the copy. The model writes this as a sequence update `s[i := e]` or an append `s + [e]`. The copy is fresh, so no one else can observe the mutation.

The clock, the random colour draw and the guest's browser identifier come from outside the handlers. In the model they are parameters: `now`, `clock`, `pick` and `userIdentifier`. Storage is passed in and returned as `Option<seq<Drop>>`, where `None` means nothing is stored.

## Model

| member | source | states |
|---|---|---|
| `App.SaveDrop` | src/App.js:42-57 | If the id is already stored, the first event with it is replaced in place and the length is kept. Otherwise the event is appended. |
| `App.SavedDropIsFound` | src/App.js:42-57 | After saving, looking up the saved id finds exactly the saved event. |
| `App.SaveDropIdempotent` | src/App.js:42-57 | Saving the same event twice gives the same list as saving it once. |
| `App.UpsertOwnerEntry` | src/App.js:79-104 | If a "You" entry exists, the first one gets the new status and note, keeps its photo link unless a new one is given, and the length is unchanged. Otherwise exactly one "You" entry is appended at the end, but only when the status is not `no_response` or the note is non-empty. With no answer and no note the list is unchanged. |
| `App.ApplyOwnerRsvp` | src/App.js:63-106 | The event gets `yourRsvp = status` and `rsvpNote = note`. `photoLink` changes only when a link is given. `friendsRsvp` becomes the upsert of the old list, where a missing list counts as empty. Every other field is unchanged. |
| `App.RsvpChange` | src/App.js:60-110 | Only events whose id equals `dropId` change, and the list length is unchanged. |
| `App.OwnerEntryPosition` | src/App.js:84-102 | After the upsert, the first "You" entry is where it was, or at the old end if one was appended, or absent. |
| `App.OwnerEntryStaysSingle` | src/App.js:84-102 | Starting from at most one "You" entry, there is still at most one. |
| `App.OwnerRsvpKeepsViewsInSync` | src/App.js:66-104 | After an owner RSVP, the first "You" entry carries `yourRsvp` and `rsvpNote`, and a single "You" entry stays single. |
| `App.OwnerRsvpIdempotent` | src/App.js:60-110 | Repeating the same owner RSVP changes nothing further. |
| `App.SetPhotoLinkFor` | src/App.js:118-123 | Only `photoLink` changes, and only on entries whose name equals `userName`. |
| `App.PhotoLinkUpdate` | src/App.js:113-133 | On events with the id, a missing `friendsRsvp` becomes `[]` and the named entries get the link. Other events are untouched and the length is kept. |
| `App.AppState.constructor` | src/App.js:11-40 | The component starts with the loaded event list. |
| `App.AppState.HandleSaveDrop` | src/App.js:42-57 | The state becomes the saved list, in which the saved event is found by its id. |
| `App.AppState.HandleRsvpChange` | src/App.js:60-110 | The state becomes the RSVP-updated list, and on every event with that id the owner's two views of the answer agree. |
| `App.AppState.HandlePhotoLinkUpdate` | src/App.js:113-133 | The state becomes the photo-link-updated list. |
| `SharedView.GuestEntries` | src/pages/SharedEventView.js:176-207 | The visitor's entry is the first matching by name, or by a non-empty identifier. On a match the length is unchanged, and that entry gets the current name, the new status, the identifier and the time. Its note is replaced only by a non-empty note, and every other entry is unchanged. With no match, exactly one entry `{name, status, note, userIdentifier}` is appended. |
| `SharedView.GuestAppendsOnlyWithoutMatch` | src/pages/SharedEventView.js:178-206 | The list grows by one exactly when no entry matches the visitor. A visitor recognised by identifier under a new name is renamed, not duplicated. |
| `SharedView.GuestRsvpIdempotent` | src/pages/SharedEventView.js:176-207 | Repeating the same guest answer (same name, identifier, status, note and time) changes the entry list no further. |
| `SharedView.GuestDrop` | src/pages/SharedEventView.js:175-207 | Only `friendsRsvp` of the event changes. |
| `SharedView.GuestRsvp` | src/pages/SharedEventView.js:172-209 | Only events with `id == eventId` change; the others are returned untouched, and the length is kept. |
| `SharedView.NoteDrop` | src/pages/SharedEventView.js:368-384 | A note-only edit changes only the `note` and the time of the matched entry. With no match, or with no list, the event is unchanged. |
| `SharedView.NoteChange` | src/pages/SharedEventView.js:364-386 | Only events with `id == eventId` can change, and the length is kept. |
| `SharedView.InitialStatus` | src/pages/SharedEventView.js:36-61 | On load, with a stored non-empty name and a found event, the page shows the status of the first entry with that name. Otherwise it shows `no_response`. |
| `SharedView.GuestAnswerSeenOnReload` | src/pages/SharedEventView.js:53-206 | After answering under a non-empty name, reloading with that name shows the answer just given. |
| `SharedView.GuestMergeCanDuplicateIdentifier` | src/pages/SharedEventView.js:178-192 | A concrete list with unique identifiers where a guest answer leaves two entries with the same identifier (see below). |
| `SharedView.GuestMergeKeepsIdentifiersUnique` | src/pages/SharedEventView.js:178-192 | Identifiers stay unique when no entry other than the matched one already carries the visitor's identifier. |
| `SharedView.NameSubmitAsWritten` | src/pages/SharedEventView.js:149-156 | As written: a non-blank name stores its trimmed form and sets the name, but the page keeps answering under the name exactly as typed. A blank name changes nothing. |
| `SharedView.UntrimmedSessionNameLosesAnswer` | src/pages/SharedEventView.js:149-156 | With " Sam" typed, the answer is written under " Sam" while "Sam" is stored, so after a reload the answer is not shown (see Findings). |
| `SharedView.NameSubmit` | src/pages/SharedEventView.js:149-156 | A name that is all white space stores nothing and changes nothing. Otherwise the trimmed name is stored and is also the session's name. It is non-empty and is a slice of what was typed. |
| `SharedView.NamedAnswerSeenOnReload` | src/pages/SharedEventView.js:149-156 | With the corrected submission, an answer given right after naming oneself is shown again on reload. |
| `SharedView.GuestView.Load` | src/pages/SharedEventView.js:36-61 | On mount, a stored non-empty name sets the name. The event is the first stored one with the route's id, and the shown status is `InitialStatus`. |
| `SharedView.GuestView.TypeName` | src/pages/SharedEventView.js:246-256 | Typing changes only the name. |
| `SharedView.GuestView.SubmitName` | src/pages/SharedEventView.js:149-156 | Applies the corrected `NameSubmit` to the state and returns what is stored. |
| `SharedView.GuestView.ChangeRsvp` | src/pages/SharedEventView.js:158-220 | Without a name, only the name prompt opens and storage is returned unchanged. Otherwise the shown status becomes the answer. When both storage and the event exist, storage becomes `GuestRsvp` of it, using the current note, and the event is re-read from it. |
| `SharedView.GuestView.ChangeNote` | src/pages/SharedEventView.js:362-395 | The note is always kept on the page. When storage and the event exist, storage becomes `NoteChange` of it and the event is re-read. Status, name and prompt are unchanged. |
| `Home.SortedDrops` | src/pages/HomePage.js:27 | A permutation of the events, ordered by non-decreasing date. |
| `Home.Upcoming` | src/pages/HomePage.js:31 | Exactly the events with `date >= now`. |
| `Home.Past` | src/pages/HomePage.js:32 | Exactly the events with `date < now`. |
| `Home.PartitionSizes` | src/pages/HomePage.js:31-32 | Every event lands in exactly one list: \|upcoming\| + \|past\| = \|drops\|. |
| `Home.PartitionOrdered` | src/pages/HomePage.js:27-32 | Both lists are date-ordered, and past followed by upcoming is exactly the sorted list. |
| `Home.DropsToDisplay` | src/pages/HomePage.js:35 | The home tab shows the upcoming events and the past tab the past ones. Membership is characterised both ways. |
| `Details.ViewOf` | src/components/DropDetails.js:14-26 | Missing fields read as vibe `'chill'`, friends `[]`, `no_response`, note `''` and `friendsRsvp` `[]`. Present fields are read as stored. |
| `Details.IsEventPast` | src/components/DropDetails.js:29-33 | Holds exactly when the date is before now. |
| `Details.EventPastMatchesHome` | src/components/DropDetails.js:29-33 | The sheet's past test is the exact complement of the home page's upcoming test. A listed event is in the past list exactly when the sheet calls it past. |
| `Details.VibeBorderColor` | src/components/DropDetails.js:50-59 | The five known vibes get their table colour; anything else gets `#cbd5e1`. |
| `Details.VibeEmoji` | src/components/DropDetails.js:61-70 | The five known vibes get their table emoji; anything else gets 👀. |
| `Details.VibeFallbackIffUnknown` | src/components/DropDetails.js:50-70 | A fallback is shown exactly for an unknown vibe, and both tables know the same vibes. |
| `Details.MissingVibeShowsChill` | src/components/DropDetails.js:21 | An event without a vibe shows chill's colour and emoji. |
| `Details.SharePath` | src/components/DropDetails.js:76-79 | The link's path is `/event/` followed by the id. |
| `Details.ShareableLink` | src/components/DropDetails.js:76-79 | The link is the origin followed by the share path. |
| `Details.EventRoute` | src/index.js:14 | A path matches `/event/:eventId` exactly when it starts with `/event/` in any ASCII letter case and a non-empty segment follows. The id is that segment as written. |
| `Details.UpperCasePrefixMatches` | src/index.js:14 | The route ignores the prefix's letter case: `/EVENT/abc` opens the event `abc`. |
| `Details.ShareLinkOpensEvent` | src/index.js:14 | A share link routes back to its id, and the guest page's lookup by that id finds the event. |
| `Details.Forward` | src/components/DropDetails.js:494-523 | A picked status is forwarded with the shown note. An edited note is forwarded with the shown status. A photo link is forwarded with both. |
| `Details.GesturesKeepOtherFields` | src/components/DropDetails.js:494-523 | Composed with the owner's handler for the event being shown, a status gesture never changes the note or photo link. A note gesture never changes the status or photo link. A photo gesture keeps status and note and sets the link. |
| `Details.PickedStatusRecordsOwner` | src/components/RsvpButtons.js:70-87 | Any status the buttons offer leaves a first "You" entry carrying it. |
| `Form.InitDraft` | src/components/DropForm.js:14-28 | Without an event, the form is the default record (🎉, empty title, date and location, 0 friends, hosting, chill). Otherwise it shows the event's fields. |
| `Form.HandleChange` | src/components/DropForm.js:32-35 | The named field takes the value and every other field is unchanged. |
| `Form.SelectEmoji` | src/components/DropForm.js:37-39 | Only the emoji changes. |
| `Form.SelectVibe` | src/components/DropForm.js:41-43 | Only the vibe changes. |
| `Form.SubmitId` | src/components/DropForm.js:49 | When editing, the id is the edited event's non-empty id. Otherwise it is the clock in decimal, which reads back as the clock. |
| `Form.Submit` | src/components/DropForm.js:45-52 | Nothing is submitted without a title and a date. Otherwise all current fields and the carried fields are passed on, with that id. |
| `Form.UntouchedEditRoundTrips` | src/components/DropForm.js:14-52 | Opening an event and submitting it untouched saves the same event. |
| `Form.EditReplacesInList` | src/components/DropForm.js:49 | An edited event keeps its id, so saving it keeps the list length. |
| `Form.NewIdsFollowClock` | src/components/DropForm.js:49 | New events created at different clock readings get different ids. |
| `Friends.Search` | src/pages/FriendsPage.js:17-26 | An empty query returns the list unchanged. A non-empty one keeps, in order, exactly the items whose lower-cased name contains the lower-cased query. |
| `Friends.FilteredFriends` | src/pages/FriendsPage.js:17-20 | The friend search, as above. |
| `Friends.FilteredGroups` | src/pages/FriendsPage.js:23-26 | The group search, as above. |
| `Friends.NameFindsItself` | src/pages/FriendsPage.js:17-20 | Searching for a friend's own name finds that friend. |
| `Friends.JsMax` | src/pages/FriendsPage.js:30 | `Math.max`: NaN if any argument is NaN, `-Infinity` with no finite argument, otherwise the largest finite argument, which is one of the arguments. |
| `Friends.NextId` | src/pages/FriendsPage.js:30 | An empty list gives `"-Infinity"`, and a non-numeric id gives `"NaN"`. |
| `Friends.NextIdIsFresh` | src/pages/FriendsPage.js:30 | For a non-empty list of numeric ids, the next id is some id plus one, the largest, and differs from every existing id. |
| `Friends.LargestNumericId` | src/pages/FriendsPage.js:30 | With all ids numeric, `Math.max` picks a largest parsed id, one of the ids, and the next id is that plus one in decimal. |
| `Friends.WeeksBand` | src/pages/FriendsPage.js:238 | ⌊N/7⌋ of the whole elapsed days N is the number of whole elapsed weeks. |
| `Friends.AddFriend` | src/pages/FriendsPage.js:28-45 | Exactly one friend is appended and the existing ones are untouched. The new friend has the next id, the first character of the name as avatar, and a palette colour. |
| `Friends.AddedFriendHasFreshId` | src/pages/FriendsPage.js:28-45 | A friend added to a non-empty list of numeric ids gets an id no other friend has. |
| `Friends.AddGroup` | src/pages/FriendsPage.js:47-69 | Editing replaces only the groups with the edited id, keeps their ids and the length. Otherwise one group with the next id is appended. |
| `Friends.EditKeepsGroupIds` | src/pages/FriendsPage.js:57-61 | Editing leaves the ids of the list unchanged, in number and order. |
| `Friends.AddedGroupHasFreshId` | src/pages/FriendsPage.js:49-65 | An added group gets an id no other group has. |
| `Friends.FormatDate` | src/pages/FriendsPage.js:229-242 | No date is "Never". Less than one elapsed day is "Today" and one day is "Yesterday". Under a week is "N days ago", where N is the number of whole days. Under 30 days is "⌊N/7⌋ weeks ago": the count w of whole weeks, with w weeks ≤ elapsed < w + 1 weeks. Later dates get a calendar label. |
| `GroupForm.InitGroupForm` | src/components/GroupForm.js:23-30 | Fields come from the edited group, with 👋 and `#3b82f6` replacing an empty emoji or colour. With no group the form is blank. |
| `GroupForm.Toggle` | src/components/GroupForm.js:54-60 | Toggling flips the given id's membership and keeps every other id's. A selected id is removed, so the list shrinks. An unselected one is appended at the end. |
| `GroupForm.ToggleKeepsNoDuplicates` | src/components/GroupForm.js:54-60 | A selection without repeats stays without repeats. |
| `GroupForm.ToggleTwiceRestores` | src/components/GroupForm.js:54-60 | Toggling an absent id twice restores the exact selection. |
| `GroupForm.Submit` | src/components/GroupForm.js:32-52 | A blank name saves nothing and keeps the form. Otherwise the trimmed, non-empty name and the current emoji, colour and selection are saved, and the form resets to its defaults. |
| `GroupForm.EnabledSaveSaves` | src/components/GroupForm.js:330 | Whenever the save button is enabled, submitting saves a group with members. |
| `FriendForm.Submit` | src/components/AddFriendForm.js:7-20 | A blank name adds nothing. Otherwise the trimmed name and phone are passed on with no hangout, and both fields reset to `''`. |
| `FriendForm.DisabledIffNothingAdded` | src/components/AddFriendForm.js:166 | The add button is disabled exactly when submitting would add nothing. |
| `Photos.Tagged` | src/pages/PhotosPage.js:9-14 | Each of an event's photos is tagged with the event's id, title and emoji, in order. |
| `Photos.AllPhotos` | src/pages/PhotosPage.js:8-15 | The number of flattened photos is the sum of the events' photo counts, with missing photos counting as 0. |
| `Photos.AllPhotosAt` | src/pages/PhotosPage.js:8-15 | The j-th photo of event k sits right after the photos of the earlier events, tagged with event k. |
| `Photos.SortedPhotos` | src/pages/PhotosPage.js:18-20 | A permutation of all photos, in non-increasing timestamp order. |
| `Photos.PhotosByDrop` | src/pages/PhotosPage.js:23-37 | Keys are exactly the ids of events with a non-empty photo list. |
| `Photos.PhotosByDropKeepsLast` | src/pages/PhotosPage.js:23-37 | For an id, the entry is the group of the last event with photos that carries it. |
| `Photos.SelectDrop` | src/pages/PhotosPage.js:40-43 | Selecting the selected event clears the selection and selecting another sets it. Either way the opened photo closes. |
| `Photos.SelectTwiceClears` | src/pages/PhotosPage.js:40-43 | Selecting an event that is not the selected one, twice in a row, returns to no selection. This holds whether nothing or another event was selected before. |
| `Photos.PhotosToDisplay` | src/pages/PhotosPage.js:56-61 | With no selection (or an empty id) the sorted wall is shown. Otherwise the selected event's grouped photos are shown, or none. |
| `Photos.SelectedEventShowsItsPhotos` | src/pages/PhotosPage.js:23-61 | With distinct ids, selecting an event shows exactly its photos. |
| `Strings.TrimEmptyIffBlank` | src/components/AddFriendForm.js:9 | `trim()` is empty exactly when the string is all JavaScript white space. |
| `Strings.TrimIsCore` | src/components/GroupForm.js:37 | `trim()` is the slice between the leading and trailing white space, and neither of its ends is white space. |
| `Strings.TrimIdempotent` | src/components/GroupForm.js:37 | Trimming an already trimmed string leaves it unchanged. |
| `Strings.SkipSpaceRun` | src/components/GroupForm.js:37 | The run `trim()` removes in front is white space and stops at the first other character. |
| `Strings.BackSpaceRun` | src/components/GroupForm.js:37 | The run `trim()` removes at the end is white space and stops at the last other character. |
| `Strings.Contains` | src/pages/FriendsPage.js:19 | `includes` holds exactly when the query occurs at some position. |
| `Strings.ParseIntOfIntToString` | src/pages/FriendsPage.js:30 | `parseInt(String(n)) == n`. |
| `Store.FindById` | src/pages/SharedEventView.js:48 | `find` by id: none exactly when no event has the id, otherwise the first one that does. |

## Where the code differs from the intended behaviour

The intended behaviour is that a guest recognised by identifier is updated in preference to a name match. The code has no such preference (src/pages/SharedEventView.js:178-180). It takes the first entry matching either key, and then writes the visitor's identifier onto that entry. Uniqueness of identifiers among responders is therefore not kept. `SharedView.GuestMergeCanDuplicateIdentifier` gives a two-entry example:
- "Sam" has no identifier;
- "Alex" has `abc123`;
- a visitor named "Sam" with identifier `abc123` answers.

The first entry matches by name and also receives `abc123`. The model follows the code. `SharedView.GuestMergeKeepsIdentifiersUnique` states when uniqueness does survive.

## Findings

| source | as written | input that shows it | evidently intended | confidence | as-written member | corrected member |
|---|---|---|---|---|---|---|
| src/pages/SharedEventView.js:149-156 | Stores `userName.trim()` but leaves the session's `userName` untrimmed, and answers are written under that untrimmed name (lines 187 and 199) | Type " Sam", submit, answer "going". The entry is named " Sam" while "Sam" is stored. After a reload the lookup by "Sam" (lines 53-57) finds nothing and the page shows `no_response`. | The session uses the same trimmed name it stores, so the guest's own answer is shown again on reload | medium; not executed | `SharedView.UntrimmedSessionNameLosesAnswer` | `SharedView.NameSubmit` |

`SharedView.NameSubmitAsWritten` models the handler as written. The guest class `SharedView.GuestView` uses the corrected `SharedView.NameSubmit`, and `SharedView.NamedAnswerSeenOnReload` proves the intended property about it.

## Left out

- Persistence: the JSON reads and writes of `drops`, `userName`, `userIdentifier` and `rsvpHistory`. This includes the owner page's unconditional overwrite with sample data (src/App.js:16-40). Storage is an `Option<seq<Drop>>` passed in and returned.
- The guest's `rsvpHistory` record (src/pages/SharedEventView.js:166-169) is write-only storage and is not modelled.
- Identifier fingerprinting from the user agent, screen and `btoa` (src/pages/SharedEventView.js:22-33). These are foreign browser calls; the identifier is a parameter.
- Clipboard, SMS and Web Share actions (src/pages/SharedEventView.js:87-147, src/components/DropDetails.js:96-156) are browser I/O.
- Locale date formatting (`toLocaleDateString`, `toLocaleString`). `Friends.FormatDate` returns a `CalendarDay` label instead of the locale text. The relative time on event cards uses floating-point rounding and is not part of this model.
- Date parsing: dates and timestamps are integer milliseconds. An invalid date, which yields `NaN` in JavaScript, is not modelled. Nor are ISO timestamp strings: `lastUpdated` holds the clock value.
- The random colour draw is the parameter `pick < 6`; its distribution is not modelled.
- Presentational components, styles and JSX. Only two facts are used from them: the status buttons emit only going, maybe and not going, and the guest name input's `onChange`.
- The 30-character `maxLength` on the guest name input is enforced by the browser and is not modelled.
- Cross-tab races on shared storage: a concurrency concern.
- Strings.ToLower: maps ASCII letters only, not full Unicode case mapping.
- Strings.CharAt0: returns the first Unicode character. JavaScript's `charAt(0)` returns one UTF-16 code unit, which is a lone surrogate when a name starts with an emoji; that is not modelled.
- Strings.ParseInt: reads decimal only. A `0x` prefix, which JavaScript reads as hexadecimal, is not modelled.
- Strings.IntToString: gives plain decimal digits. JavaScript switches to exponent form from 10^21 on.
- Friends.NextId: the `+ 1` is exact integer arithmetic. Past 2^53 JavaScript rounds, and this is not modelled.
- Sorting.SortBy: the insertion sort is stable like JavaScript's sort, but stability is not stated as a contract. The contracts state ordering and permutation.
- Photos.PhotosByDrop: the key is the id string. Ids that collide with object-prototype names are not modelled.
- Details.VibeBorderColor and Details.VibeEmoji: the table is a map. Prototype names such as `constructor` used as a vibe are not modelled.
- Details.EventRoute: case-insensitive matching covers ASCII letters only. Percent-decoding of the path segment and the router's handling of a trailing slash on the root route are not modelled.
- Details.GesturesKeepOtherFields: the sheet calls `onRsvpChange(status, note[, link])` without an event id (src/components/DropDetails.js:494-523), while the owner's `handleRsvpChange` takes the id first (src/App.js:60). The home page receives the handler (src/App.js:283) but does not take it from its props (src/pages/HomePage.js:6), and none of the modelled files renders the sheet. The lemma assumes an adapter that binds the shown event's id. In the code as written the gestures reach no handler.
- SharedView.GuestView.SubmitName: runs the corrected `NameSubmit`, which also trims the session name. The page as written keeps the session name untrimmed (`SharedView.NameSubmitAsWritten`), so the class does not reach the lost-answer path shown under "## Findings".
- Form.Submit: the browser's `required` check is modelled as "non-empty title and a present date". The browser's own date-format validation is not modelled.
- `HomePage`'s form open/close state and `PhotosPage`'s photo-detail open/close handlers hold no logic beyond setting a flag, and are not modelled.
