/**
  The sidebar layout's avatar: it carries its own copy of `getInitials` and
  shows initials only once the user query has produced a user.
 */
module MainLayout {
  import opened Wrappers
  import opened Text
  import ProfilePage

  /** The layout's `getInitials`, written out again as the layout does. */
  function GetInitials(name: string): (r: string)
    ensures |r| <= 2
    ensures r == ProfilePage.Take2(ToUpper(ProfilePage.WordStarts(name, true)))
  {
    var firsts := ProfilePage.FirstChars(Split(name, " "));
    ProfilePage.FirstCharsAreWordStarts(name);
    var upper := ToUpper(firsts);
    if |upper| <= 2 then upper else upper[..2]
  }

  /** The two copies of `getInitials` agree on every name. */
  lemma SameAsProfileInitials(name: string)
    ensures GetInitials(name) == ProfilePage.GetInitials(name)
  {
    ProfilePage.InitialsAreWordStarts(name);
  }

  /** `{user && getInitials(user.name)}`: nothing while the user is undefined. */
  function AvatarInitials(user: Option<ProfilePage.User>): (r: Option<string>)
    ensures r.None? <==> user.None?
    ensures r.Some? ==> r.value == ProfilePage.GetInitials(user.value.name) && |r.value| <= 2
  {
    match user
    case None => None
    case Some(u) =>
      SameAsProfileInitials(u.name);
      Some(GetInitials(u.name))
  }
}
