/** The add-friend sheet (`AddFriendForm`): a name and a phone number,
    trimmed and validated on submit. */
module FriendForm {
  import opened Types
  import opened Strings

  /** What `onAdd` receives; `lastHangout: ''` is a friend never met, here `None`. */
  datatype NewFriend = NewFriend(name: string, phone: string, lastHangout: Option<int>)

  /** The two inputs. */
  datatype FriendFormState = FriendFormState(name: string, phone: string)

  /** `handleSubmit`: a blank name adds nothing and keeps the inputs;
      otherwise the trimmed name and phone are passed on, with no hangout
      yet, and both inputs are cleared. */
  function Submit(s: FriendFormState): (r: (Option<NewFriend>, FriendFormState))
    ensures r.0.None? <==> AllWhitespace(s.name)
    ensures r.0.None? ==> r.1 == s
    ensures r.0.Some? ==> r.0.value == NewFriend(Trim(s.name), Trim(s.phone), None)
                          && r.1 == FriendFormState("", "")
    ensures r.0.Some? ==> r.0.value.name != "" && Trim(r.0.value.name) == r.0.value.name
  {
    TrimEmptyIffBlank(s.name);
    TrimIdempotent(s.name);
    if Trim(s.name) == "" then (None, s)
    else (Some(NewFriend(Trim(s.name), Trim(s.phone), None)), FriendFormState("", ""))
  }

  /** The add button is disabled while the trimmed name is empty. */
  predicate AddDisabled(s: FriendFormState)
  {
    Trim(s.name) == ""
  }

  /** The button is disabled exactly when submitting would add nothing. */
  lemma DisabledIffNothingAdded(s: FriendFormState)
    ensures AddDisabled(s) <==> Submit(s).0.None?
  {
    TrimEmptyIffBlank(s.name);
  }
}
