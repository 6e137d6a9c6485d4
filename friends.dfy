/** The friends page (`FriendsPage`): search over friends and groups, id
    generation by `Math.max(...ids) + 1`, adding friends, adding and editing
    groups, and the "last hangout" label. */
module Friends {
  import opened Types
  import opened Seqs
  import opened Strings
  import opened GroupForm
  import opened FriendForm

  /** `x.name.toLowerCase().includes(query.toLowerCase())`. */
  function NameMatches<T>(name: T -> string, query: string): T -> bool
  {
    (x: T) => Contains(ToLower(name(x)), ToLower(query))
  }

  /** `query ? xs.filter(...) : xs`: an empty query shows everything; any
      other query keeps, in order, exactly the items whose lower-cased name
      contains the lower-cased query. */
  function Search<T(!new)>(xs: seq<T>, name: T -> string, query: string): (r: seq<T>)
    ensures query == "" ==> r == xs
    ensures query != "" ==> r == Filter(xs, NameMatches(name, query))
    ensures query != "" ==> forall x :: x in r <==> x in xs && Contains(ToLower(name(x)), ToLower(query))
  {
    if query == "" then xs
    else
      FilterMembers(xs, NameMatches(name, query));
      Filter(xs, NameMatches(name, query))
  }

  function FriendName(): Friend -> string
  {
    (f: Friend) => f.name
  }

  function GroupName(): FriendGroup -> string
  {
    (g: FriendGroup) => g.name
  }

  /** `filteredFriends`. */
  function FilteredFriends(friends: seq<Friend>, query: string): (r: seq<Friend>)
    ensures query == "" ==> r == friends
    ensures forall f :: f in r <==> f in friends && (query == "" || Contains(ToLower(f.name), ToLower(query)))
  {
    Search(friends, FriendName(), query)
  }

  /** `filteredGroups`. */
  function FilteredGroups(groups: seq<FriendGroup>, query: string): (r: seq<FriendGroup>)
    ensures query == "" ==> r == groups
    ensures forall g :: g in r <==> g in groups && (query == "" || Contains(ToLower(g.name), ToLower(query)))
  {
    Search(groups, GroupName(), query)
  }

  /** Searching for a friend's own name finds that friend. */
  lemma NameFindsItself(f: Friend, friends: seq<Friend>)
    requires f in friends && f.name != ""
    ensures f in FilteredFriends(friends, f.name)
  {
    assert OccursAt(ToLower(f.name), ToLower(f.name), 0);
  }

  /** A JavaScript number as `Math.max` and `+ 1` can produce it from
      `parseInt` results. */
  datatype JsNumber = NaN | NegInfinity | Finite(n: int)

  /** `Math.max(a, b)`. */
  function Max2(a: JsNumber, b: JsNumber): JsNumber
  {
    if a.NaN? || b.NaN? then NaN
    else if a.NegInfinity? then b
    else if b.NegInfinity? then a
    else Finite(if a.n >= b.n then a.n else b.n)
  }

  /** `Math.max(...xs)`: `NaN` if any argument is; `-Infinity` with no
      finite argument; otherwise the largest finite argument. */
  function JsMax(xs: seq<JsNumber>): (r: JsNumber)
    ensures r.NaN? <==> exists k :: 0 <= k < |xs| && xs[k].NaN?
    ensures r.NegInfinity? <==> forall k :: 0 <= k < |xs| ==> xs[k].NegInfinity?
    ensures r.Finite? ==> (exists k :: 0 <= k < |xs| && xs[k] == r)
                          && forall k :: 0 <= k < |xs| && xs[k].Finite? ==> xs[k].n <= r.n
  {
    if xs == [] then NegInfinity
    else
      var rest := JsMax(xs[1..]);
      assert forall k :: 1 <= k < |xs| ==> xs[k] == xs[1..][k - 1];
      Max2(xs[0], rest)
  }

  /** `parseInt(id)` as a number. */
  function ParsedId(id: string): JsNumber
  {
    match ParseInt(id)
    case None => NaN
    case Some(n) => Finite(n)
  }

  /** `x + 1`. */
  function PlusOne(x: JsNumber): JsNumber
  {
    if x.Finite? then Finite(x.n + 1) else x
  }

  /** `x.toString()`. */
  function NumberText(x: JsNumber): string
  {
    match x
    case NaN => "NaN"
    case NegInfinity => "-Infinity"
    case Finite(n) => IntToString(n)
  }

  function ParsedIds(ids: seq<string>): (r: seq<JsNumber>)
    ensures |r| == |ids| && forall k :: 0 <= k < |ids| ==> r[k] == ParsedId(ids[k])
  {
    if ids == [] then [] else [ParsedId(ids[0])] + ParsedIds(ids[1..])
  }

  /** `(Math.max(...ids.map(parseInt)) + 1).toString()`. */
  function NextId(ids: seq<string>): (r: string)
    ensures ids == [] ==> r == "-Infinity"
    ensures (exists k :: 0 <= k < |ids| && ParseInt(ids[k]).None?) ==> r == "NaN"
  {
    var m := JsMax(ParsedIds(ids));
    assert ids != [] ==> !ParsedIds(ids)[0].NegInfinity?;
    NumberText(PlusOne(m))
  }

  /** With at least one id and every id numeric, the next id is the largest
      plus one, and it differs from every existing id. */
  lemma NextIdIsFresh(ids: seq<string>)
    requires ids != []
    requires forall k :: 0 <= k < |ids| ==> ParseInt(ids[k]).Some?
    ensures forall k :: 0 <= k < |ids| ==> NextId(ids) != ids[k]
    ensures exists k :: 0 <= k < |ids| && ParseInt(NextId(ids)) == Some(ParseInt(ids[k]).value + 1)
  {
    var n := LargestNumericId(ids);
    ParseIntOfIntToString(n + 1);
    forall k | 0 <= k < |ids| ensures NextId(ids) != ids[k] {
      assert ParseInt(ids[k]).value <= n;
    }
    var j :| 0 <= j < |ids| && ParseInt(ids[j]) == Some(n);
    assert ParseInt(NextId(ids)) == Some(ParseInt(ids[j]).value + 1);
  }

  /** With every id numeric, `Math.max` is the largest parsed id `n`, and the
      next id is `n + 1` in decimal. */
  lemma LargestNumericId(ids: seq<string>) returns (n: int)
    requires ids != []
    requires forall k :: 0 <= k < |ids| ==> ParseInt(ids[k]).Some?
    ensures NextId(ids) == IntToString(n + 1)
    ensures forall k :: 0 <= k < |ids| ==> ParseInt(ids[k]).value <= n
    ensures exists j :: 0 <= j < |ids| && ParseInt(ids[j]) == Some(n)
  {
    var xs := ParsedIds(ids);
    var m := JsMax(xs);
    assert forall k :: 0 <= k < |xs| ==> xs[k] == Finite(ParseInt(ids[k]).value);
    assert !xs[0].NegInfinity?;
    n := m.n;
    var j :| 0 <= j < |xs| && xs[j] == m;
    assert ParseInt(ids[j]) == Some(n);
  }

  /** `xs.map(x => x.id)`, with the id read by `idOf`. */
  function Ids<T>(xs: seq<T>, idOf: T -> string): (r: seq<string>)
    ensures |r| == |xs| && forall k :: 0 <= k < |xs| ==> r[k] == idOf(xs[k])
  {
    if xs == [] then [] else [idOf(xs[0])] + Ids(xs[1..], idOf)
  }

  function FriendId(): Friend -> string
  {
    (f: Friend) => f.id
  }

  function GroupId(): FriendGroup -> string
  {
    (g: FriendGroup) => g.id
  }

  /** The six colours a new friend is given one of. */
  const FriendColors: seq<string> := ["#4ade80", "#f472b6", "#3b82f6", "#f97316", "#8b5cf6", "#06b6d4"]

  /** `handleAddFriend`: the new friend, with the next id, the first letter
      of the name as avatar and the colour `pick` (the random draw
      `Math.floor(Math.random() * 6)`), goes at the end; no existing friend
      changes. */
  function AddFriend(friends: seq<Friend>, newFriend: NewFriend, pick: nat): (r: seq<Friend>)
    requires pick < 6
    ensures |r| == |friends| + 1 && r[..|friends|] == friends
    ensures var f := r[|friends|];
            f == Friend(NextId(Ids(friends, FriendId())), newFriend.name, newFriend.phone, newFriend.lastHangout,
                        CharAt0(newFriend.name), FriendColors[pick])
    ensures r[|friends|].color in FriendColors
  {
    friends + [Friend(NextId(Ids(friends, FriendId())), newFriend.name, newFriend.phone, newFriend.lastHangout,
                      CharAt0(newFriend.name), FriendColors[pick])]
  }

  /** A friend added to a non-empty list of numbered friends gets an id no
      other friend has. */
  lemma AddedFriendHasFreshId(friends: seq<Friend>, newFriend: NewFriend, pick: nat)
    requires pick < 6 && friends != []
    requires forall k :: 0 <= k < |friends| ==> ParseInt(friends[k].id).Some?
    ensures var r := AddFriend(friends, newFriend, pick);
            forall k :: 0 <= k < |friends| ==> r[k].id != r[|friends|].id
  {
    NextIdIsFresh(Ids(friends, FriendId()));
  }

  /** `group.id === editingGroup.id`. */
  function GroupIdIs(id: string): FriendGroup -> bool
  {
    (g: FriendGroup) => g.id == id
  }

  /** `handleAddGroup`: when editing, every group with the edited id takes
      the saved fields and keeps its id; otherwise the saved group is
      appended with the next id. */
  function AddGroup(groups: seq<FriendGroup>, saved: GroupData, editing: Option<FriendGroup>): (r: seq<FriendGroup>)
    ensures editing.Some? ==>
              && |r| == |groups|
              && (forall k :: 0 <= k < |groups| && groups[k].id != editing.value.id ==> r[k] == groups[k])
              && (forall k :: 0 <= k < |groups| && groups[k].id == editing.value.id ==>
                    r[k] == FriendGroup(groups[k].id, saved.name, saved.emoji, saved.color, saved.members))
    ensures editing.None? ==>
              r == groups + [FriendGroup(NextId(Ids(groups, GroupId())), saved.name, saved.emoji, saved.color, saved.members)]
  {
    match editing
    case Some(e) =>
      MapWhere(groups, GroupIdIs(e.id),
               (g: FriendGroup) => FriendGroup(g.id, saved.name, saved.emoji, saved.color, saved.members))
    case None =>
      groups + [FriendGroup(NextId(Ids(groups, GroupId())), saved.name, saved.emoji, saved.color, saved.members)]
  }

  /** Editing never changes the ids of the list, in number or in order. */
  lemma EditKeepsGroupIds(groups: seq<FriendGroup>, saved: GroupData, editing: FriendGroup)
    ensures Ids(AddGroup(groups, saved, Some(editing)), GroupId()) == Ids(groups, GroupId())
  {
  }

  /** Adding a group to a non-empty list of numbered groups gives it an id
      no other group has. */
  lemma AddedGroupHasFreshId(groups: seq<FriendGroup>, saved: GroupData)
    requires groups != []
    requires forall k :: 0 <= k < |groups| ==> ParseInt(groups[k].id).Some?
    ensures var r := AddGroup(groups, saved, None);
            forall k :: 0 <= k < |groups| ==> r[k].id != r[|groups|].id
  {
    NextIdIsFresh(Ids(groups, GroupId()));
  }

  /** `1000 * 60 * 60 * 24`. */
  const DayMillis: int := 86400000

  /** `Math.floor(elapsed / DayMillis)`: whole days elapsed, rounded down
      (also for a negative `elapsed`). */
  function ElapsedDays(elapsed: int): (days: int)
    ensures days * DayMillis <= elapsed < (days + 1) * DayMillis
  {
    elapsed / DayMillis
  }

  /** Seven days. */
  const WeekMillis: int := 604800000

  /** `Math.floor(days / 7)` of the whole days elapsed is the number of
      whole weeks elapsed. */
  lemma WeeksBand(elapsed: int)
    requires ElapsedDays(elapsed) >= 0
    ensures var w := ElapsedDays(elapsed) / 7;
            w * WeekMillis <= elapsed < (w + 1) * WeekMillis
  {
    var days := ElapsedDays(elapsed);
    var w := days / 7;
    assert 7 * w <= days < 7 * w + 7;
    assert w * WeekMillis == (7 * w) * DayMillis;
    assert (w + 1) * WeekMillis == (7 * w + 7) * DayMillis;
    MulMonotone(7 * w, days, DayMillis);
    MulMonotone(days + 1, 7 * w + 7, DayMillis);
  }

  lemma MulMonotone(a: int, b: int, c: int)
    requires a <= b && c >= 0
    ensures a * c <= b * c
  {
  }

  /** The "last hangout" label. `CalendarDay` stands for the short locale
      date shown from thirty days on; a future date gives `DaysAgo` with a
      negative count. */
  datatype HangoutLabel = Never | Today | Yesterday | DaysAgo(days: int) | WeeksAgo(weeks: int) | CalendarDay(date: int)

  /** `formatDate`: no date is "Never"; otherwise whole days elapsed, rounded
      down, choose the label. */
  function FormatDate(lastHangout: Option<int>, now: int): (r: HangoutLabel)
    ensures lastHangout.None? <==> r == Never
    ensures lastHangout.Some? ==>
              var elapsed := now - lastHangout.value;
              && (r == Today <==> 0 <= elapsed < DayMillis)
              && (r == Yesterday <==> DayMillis <= elapsed < 2 * DayMillis)
              && (r.DaysAgo? <==> (elapsed < 0 || 2 * DayMillis <= elapsed) && elapsed < 7 * DayMillis)
              && (r.DaysAgo? ==> r.days * DayMillis <= elapsed < (r.days + 1) * DayMillis)
              && (r.WeeksAgo? <==> 7 * DayMillis <= elapsed < 30 * DayMillis)
              && (r.WeeksAgo? ==> 1 <= r.weeks <= 4 && r.weeks * WeekMillis <= elapsed < (r.weeks + 1) * WeekMillis)
              && (r.CalendarDay? ==> r.date == lastHangout.value && 30 * DayMillis <= elapsed)
  {
    match lastHangout
    case None => Never
    case Some(date) =>
      var days := ElapsedDays(now - date);
      if days == 0 then Today
      else if days == 1 then Yesterday
      else if days < 7 then DaysAgo(days)
      else if days < 30 then
        WeeksBand(now - date);
        WeeksAgo(days / 7)
      else CalendarDay(date)
  }
}
