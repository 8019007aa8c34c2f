/**
  The profile page's pure logic: the avatar initials of a name and the diff
  between the edit form and the current user that decides whether an update
  request is sent at all.
 */
module ProfilePage {
  import opened Wrappers
  import opened Text

  /** `name.split(" ").map(word => word[0]).join("")`: the first character of every piece;
      an empty piece gives `undefined`, which `join` renders as nothing. */
  function FirstChars(words: seq<string>): (r: string)
    ensures |r| <= |words|
  {
    if words == [] then ""
    else (if words[0] == "" then "" else [words[0][0]]) + FirstChars(words[1..])
  }

  /** `.slice(0, 2)`. */
  function Take2(s: string): (r: string)
    ensures |r| == if |s| < 2 then |s| else 2
    ensures r == s[..|r|]
  {
    if |s| <= 2 then s else s[..2]
  }

  /** `getInitials(name)`. */
  function GetInitials(name: string): (r: string)
    ensures |r| <= 2
  {
    Take2(ToUpper(FirstChars(Split(name, " "))))
  }

  /** Reference definition: the characters of `s` that start a word, that is, that are not
      a space and follow a space or the start. `afterSpace` says whether the character before
      `s` was a space (or `s` starts the name). */
  function WordStarts(s: string, afterSpace: bool): string {
    if s == [] then ""
    else (if afterSpace && s[0] != ' ' then [s[0]] else "") + WordStarts(s[1..], s[0] == ' ')
  }

  /** The first characters of the pieces of a split on " " are exactly the word starts;
      the pieces after the first give the word starts after the first character. */
  lemma {:induction false} FirstCharsAreWordStarts(s: string)
    ensures FirstChars(Split(s, " ")) == WordStarts(s, true)
    ensures FirstChars(Split(s, " ")[1..]) == WordStarts(s, false)
    decreases |s|
  {
    if s == [] {
      SplitFree(s, " ");
    } else {
      var rest := s[1..];
      FirstCharsAreWordStarts(rest);
      assert s == [s[0]] + rest;
      if s[0] == ' ' {
        SpaceStep(rest);
      } else {
        WordStep(s[0], rest);
      }
    }
  }

  /** A leading space adds an empty piece, which contributes no initial. */
  lemma SpaceStep(rest: string)
    requires FirstChars(Split(rest, " ")) == WordStarts(rest, true)
    ensures FirstChars(Split(" " + rest, " ")) == WordStarts(" " + rest, true)
    ensures FirstChars(Split(" " + rest, " ")[1..]) == WordStarts(" " + rest, false)
  {
    SplitLeading(" ", rest);
    assert Split(" " + rest, " ")[1..] == Split(rest, " ");
    assert (" " + rest)[1..] == rest;
  }

  /** A leading non-space character joins the first piece and is its initial. */
  lemma WordStep(c: char, rest: string)
    requires c != ' '
    requires FirstChars(Split(rest, " ")[1..]) == WordStarts(rest, false)
    ensures FirstChars(Split([c] + rest, " ")) == WordStarts([c] + rest, true)
    ensures FirstChars(Split([c] + rest, " ")[1..]) == WordStarts([c] + rest, false)
  {
    SplitCons(c, rest, ' ');
    var t := Split(rest, " ");
    assert Split([c] + rest, " ")[1..] == t[1..];
    assert ([c] + rest)[1..] == rest;
    assert FirstChars(Split([c] + rest, " ")) == [c] + FirstChars(t[1..]);
  }

  /** `getInitials` is the first two word starts, upper-cased. */
  lemma InitialsAreWordStarts(name: string)
    ensures GetInitials(name) == Take2(ToUpper(WordStarts(name, true)))
  {
    FirstCharsAreWordStarts(name);
  }

  /** A name of two words gives the two capitals. */
  lemma TwoWordInitials(first: string, last: string)
    requires first != "" && last != "" && first[0] != ' ' && last[0] != ' '
    requires !Includes(first, " ")
    ensures GetInitials(first + " " + last) == [UpperChar(first[0]), UpperChar(last[0])]
  {
    var name := first + " " + last;
    SplitAfterFree(first, " ", last);
    var t := Split(last, " ");
    FirstInitial(last);
    assert FirstChars(Split(name, " ")) == [first[0]] + FirstChars(t);
  }

  /** A string that does not start with a space has its first character as first initial. */
  lemma FirstInitial(s: string)
    requires s != "" && s[0] != ' '
    ensures var f := FirstChars(Split(s, " ")); f != "" && f[0] == s[0]
  {
  }

  /** The profile form and the displayed user share this shape. The password is `None` when
      the object has no such field: the user `GET /me` returns carries only id, name and
      email. */
  datatype User = User(name: string, email: string, password: Option<string>)

  /** The masked password the form shows until it is edited. */
  const PasswordPlaceholder := "********"

  /** The user shown before the query returns, and the form's initial value. */
  const DefaultUser := User("John Doe", "john@example.com", Some(PasswordPlaceholder))

  /** `Partial<User>`: a field is present only when it is to be changed. A present password
      key may hold `undefined` (`Some(None)`). */
  datatype Updates = Updates(name: Option<string>, email: Option<string>, password: Option<Option<string>>)

  /** `Object.keys(updates).length == 0`. */
  predicate IsEmpty(u: Updates) {
    u.name.None? && u.email.None? && u.password.None?
  }

  /** The diff built by `handleUpdate`, with JavaScript's `!==`: an absent password differs
      from the placeholder. */
  function UpdateDiff(form: User, user: User): (r: Updates)
    ensures r.name.Some? <==> form.name != user.name
    ensures r.email.Some? <==> form.email != user.email
    ensures r.password.Some? <==> form.password != Some(PasswordPlaceholder)
    ensures r.name.Some? ==> r.name.value == form.name
    ensures r.email.Some? ==> r.email.value == form.email
    ensures r.password.Some? ==> r.password.value == form.password
  {
    Updates(
      if form.name != user.name then Some(form.name) else None,
      if form.email != user.email then Some(form.email) else None,
      if form.password != Some(PasswordPlaceholder) then Some(form.password) else None)
  }

  /** The server-side effect of a diff on the user it was computed against; a key holding
      `undefined` is dropped from the JSON body and so changes nothing. */
  function ApplyUpdates(user: User, u: Updates): User {
    var password := if u.password.Some? && u.password.value.Some? then u.password.value else user.password;
    User(u.name.GetOr(user.name), u.email.GetOr(user.email), password)
  }

  /** Applying the diff turns the user into the form, except that an untouched password
      placeholder, or a form without a password, keeps the stored password. */
  lemma DiffReachesForm(form: User, user: User)
    ensures var after := ApplyUpdates(user, UpdateDiff(form, user));
      && after.name == form.name && after.email == form.email
      && after.password ==
           (if form.password == Some(PasswordPlaceholder) || form.password.None? then user.password
            else form.password)
  {
  }

  /** What `handleUpdate` does: send the diff, or alert that nothing changed. */
  datatype UpdateAction = Mutate(updates: Updates) | NoChanges(alert: string)

  const NoChangesAlert := "No changes were made to update"

  function HandleUpdate(form: User, user: User): (r: UpdateAction)
    ensures r.NoChanges? <==>
      form.name == user.name && form.email == user.email && form.password == Some(PasswordPlaceholder)
    ensures r.NoChanges? ==> r.alert == NoChangesAlert
    ensures r.Mutate? ==> r.updates == UpdateDiff(form, user) && !IsEmpty(r.updates)
  {
    var u := UpdateDiff(form, user);
    if !IsEmpty(u) then Mutate(u) else NoChanges(NoChangesAlert)
  }

  /** Before the user query returns, submitting the unedited form sends nothing. */
  lemma UneditedDefaultSendsNothing()
    ensures HandleUpdate(DefaultUser, DefaultUser) == NoChanges(NoChangesAlert)
  {
  }

  /** The form is initialised once, before the query returns, so after loading an unedited
      form still holds the default user: submitting it sends the default name (and email)
      over the loaded ones. */
  lemma StaleFormSendsDefaults(loaded: User)
    requires loaded.name != DefaultUser.name
    ensures HandleUpdate(DefaultUser, loaded).Mutate?
    ensures HandleUpdate(DefaultUser, loaded).updates.name == Some(DefaultUser.name)
  {
  }

  /** A form holding the loaded user itself, which has no password, is never "unchanged": the
      request goes out with a password key set to `undefined` and nothing else, which the
      server sees as an empty update. */
  lemma LoadedUserFormAlwaysSends(loaded: User)
    requires loaded.password.None?
    ensures HandleUpdate(loaded, loaded) == Mutate(Updates(None, None, Some(None)))
    ensures ApplyUpdates(loaded, HandleUpdate(loaded, loaded).updates) == loaded
  {
  }
}
