/** Profile management: changing a user's display name. */
module UserProfile {
  import opened Common
  import opened Auth

  const MinDisplayName: nat := 1
  const MaxDisplayName: nat := 50

  /** The display name `update_profile` stores for a requested one: the
      stripped text, provided it is 1 to 50 characters long. */
  function CheckedDisplayName(name: string): (r: Option<string>)
    ensures r.Some? <==> !AllSpace(name) && |Strip(name)| <= MaxDisplayName
    ensures r.Some? ==> r.value == Strip(name) && MinDisplayName <= |r.value| <= MaxDisplayName
    ensures r.Some? ==> !IsSpace(r.value[0]) && !IsSpace(r.value[|r.value| - 1])
  {
    var stripped := Strip(name);
    if |stripped| < MinDisplayName || |stripped| > MaxDisplayName then None else Some(stripped)
  }

  /** `UserService.update_profile`: an unknown user or a rejected name gives
      None and changes nothing; otherwise the user's `updated_at` becomes
      `now` and, when a name was given, the name becomes its stripped form.
      No other row and no other table changes. */
  method UpdateProfile(store: AuthStore, userId: Id, displayName: Option<string>, now: int)
    returns (r: Option<User>)
    requires store.Valid()
    modifies store
    ensures store.Valid()
    ensures store.sessions == old(store.sessions) && store.resets == old(store.resets)
    ensures store.loginAttempts == old(store.loginAttempts) && store.nextId == old(store.nextId)
    ensures FindUserById(old(store.users), userId).None? ==> r == None
    ensures displayName.Some? && CheckedDisplayName(displayName.value).None? ==> r == None
    ensures r.None? ==> store.users == old(store.users)
    ensures FindUserById(old(store.users), userId).Some?
            && (displayName.None? || CheckedDisplayName(displayName.value).Some?) ==>
      var j := FindUserById(old(store.users), userId).value;
      var before := old(store.users)[j];
      var name := if displayName.None? then before.displayName else Strip(displayName.value);
      && r == Some(before.(displayName := name, updatedAt := now))
      && store.users == old(store.users)[j := r.value]
  {
    var found := FindUserById(store.users, userId);
    if found.None? {
      return None;
    }
    var j := found.value;
    var user := store.users[j];
    if displayName.Some? {
      var checked := CheckedDisplayName(displayName.value);
      if checked.None? {
        return None;
      }
      user := user.(displayName := checked.value);
    }
    user := user.(updatedAt := now);
    store.users := store.users[j := user];
    r := Some(user);
  }
}
