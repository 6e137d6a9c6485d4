/** The group sheet (`GroupForm`): a name, an emoji, a colour and a
    selection of friend ids, validated and trimmed on submit. */
module GroupForm {
  import opened Types
  import opened Seqs
  import opened Strings

  /** 👋 */
  const DefaultGroupEmoji: string := "\U{1F44B}"
  const DefaultGroupColor: string := "#3b82f6"

  /** The form's four pieces of state. */
  datatype GroupFormState = GroupFormState(name: string, emoji: string, color: string, selected: seq<string>)

  /** What `onSave` receives. */
  datatype GroupData = GroupData(name: string, emoji: string, color: string, members: seq<string>)

  /** The state on mount and after `resetForm`. */
  const BlankGroupForm: GroupFormState := GroupFormState("", DefaultGroupEmoji, DefaultGroupColor, [])

  /** Initialisation: from the edited group, an empty emoji or colour falling
      back to the defaults; without a group the form stays blank. */
  function InitGroupForm(initialGroup: Option<FriendGroup>): (r: GroupFormState)
    ensures initialGroup.None? ==> r == BlankGroupForm
    ensures initialGroup.Some? ==>
              var g := initialGroup.value;
              && r.name == g.name && r.selected == g.members
              && r.emoji == (if g.emoji != "" then g.emoji else DefaultGroupEmoji)
              && r.color == (if g.color != "" then g.color else DefaultGroupColor)
  {
    match initialGroup
    case None => BlankGroupForm
    case Some(g) =>
      GroupFormState(g.name, if g.emoji != "" then g.emoji else DefaultGroupEmoji,
                     if g.color != "" then g.color else DefaultGroupColor, g.members)
  }

  /** `id !== friendId`. */
  function IsNot(friendId: string): string -> bool
  {
    (id: string) => id != friendId
  }

  /** `toggleFriendSelection`: a selected id is removed (every copy of it),
      an unselected one is added at the end. The given id's membership
      flips and every other id's membership stays. */
  function Toggle(selected: seq<string>, friendId: string): (r: seq<string>)
    ensures friendId in r <==> friendId !in selected
    ensures forall other :: other != friendId ==> (other in r <==> other in selected)
    ensures friendId in selected ==> |r| < |selected|
    ensures friendId !in selected ==> r == selected + [friendId]
  {
    FilterMembers(selected, IsNot(friendId));
    if friendId in selected then
      FilterRemovesRejected(selected, IsNot(friendId), friendId);
      Filter(selected, IsNot(friendId))
    else selected + [friendId]
  }

  /** No id is selected twice. */
  predicate NoDuplicates(s: seq<string>)
  {
    forall i, j :: 0 <= i < j < |s| ==> s[i] != s[j]
  }

  /** A filter of a sequence without repeats has no repeats. */
  lemma {:induction false} FilterNoDuplicates(s: seq<string>, p: string -> bool)
    requires NoDuplicates(s)
    ensures NoDuplicates(Filter(s, p))
  {
    if s != [] {
      FilterNoDuplicates(s[1..], p);
      FilterMembers(s[1..], p);
      assert s[0] !in s[1..];
    }
  }

  /** Toggling keeps the selection free of repeats. */
  lemma ToggleKeepsNoDuplicates(selected: seq<string>, friendId: string)
    requires NoDuplicates(selected)
    ensures NoDuplicates(Toggle(selected, friendId))
  {
    if friendId in selected {
      FilterNoDuplicates(selected, IsNot(friendId));
    }
  }

  /** Toggling an unselected id twice gives back the original selection. */
  lemma ToggleTwiceRestores(selected: seq<string>, friendId: string)
    requires friendId !in selected
    ensures Toggle(Toggle(selected, friendId), friendId) == selected
  {
    var once := selected + [friendId];
    FilterAppend(selected, [friendId], IsNot(friendId));
    FilterAll(selected, IsNot(friendId));
    assert Filter([friendId], IsNot(friendId)) == [];
  }

  /** `handleSubmit`: a blank name saves nothing and leaves the form as it
      is; otherwise the trimmed name, emoji, colour and selection are saved
      and the form is reset. */
  function Submit(s: GroupFormState): (r: (Option<GroupData>, GroupFormState))
    ensures r.0.None? <==> AllWhitespace(s.name)
    ensures r.0.None? ==> r.1 == s
    ensures r.0.Some? ==> r.0.value == GroupData(Trim(s.name), s.emoji, s.color, s.selected) && r.1 == BlankGroupForm
    ensures r.0.Some? ==> r.0.value.name != "" && Trim(r.0.value.name) == r.0.value.name
  {
    TrimEmptyIffBlank(s.name);
    TrimIdempotent(s.name);
    if Trim(s.name) == "" then (None, s)
    else (Some(GroupData(Trim(s.name), s.emoji, s.color, s.selected)), BlankGroupForm)
  }

  /** The save button is enabled with a non-blank name and at least one friend selected. */
  predicate SaveEnabled(s: GroupFormState)
  {
    Trim(s.name) != "" && |s.selected| > 0
  }

  /** Whenever the save button is enabled, submitting saves a group with members. */
  lemma EnabledSaveSaves(s: GroupFormState)
    requires SaveEnabled(s)
    ensures Submit(s).0.Some? && |Submit(s).0.value.members| > 0
  {
    TrimEmptyIffBlank(s.name);
  }
}
