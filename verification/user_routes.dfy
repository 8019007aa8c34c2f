/**
  The `/me` profile routes: read, update and delete the authenticated user, and
  the shared error envelope `handleErrorResponse`. Each handler receives
  `req.user` as the middleware left it.
 */
module UserRoutes {
  import opened Wrappers
  import opened Zod
  import opened UserStore
  import opened AuthMiddleware

  /** The JSON body of `PUT /me`; every field is optional. */
  datatype UpdateBody = UpdateBody(name: Option<string>, email: Option<string>, password: Option<string>)

  /** What `updateUserSchema` accepts: each present field passes its check. */
  predicate UpdateValid(body: UpdateBody, isEmail: string -> bool) {
    && (body.name.None? || |body.name.value| >= 2)
    && (body.email.None? || isEmail(body.email.value))
    && (body.password.None? || |body.password.value| >= 6)
  }

  /** The field is present and fails its check. */
  predicate FieldFails(body: UpdateBody, isEmail: string -> bool, f: Field) {
    match f
    case Name => body.name.Some? && |body.name.value| < 2
    case Email => body.email.Some? && !isEmail(body.email.value)
    case Password => body.password.Some? && |body.password.value| < 6
  }

  /** `updateUserSchema.safeParse(body)`: the issues, in field order name, email, password. */
  function UpdateIssues(body: UpdateBody, isEmail: string -> bool): (issues: seq<Issue>)
    ensures issues == [] <==> UpdateValid(body, isEmail)
    ensures forall k :: 0 <= k < |issues| ==> FieldFails(body, isEmail, issues[k].field)
  {
    MinLengthIssues(Name, body.name, true, 2, "Name must be at least 2 characters")
    + EmailIssues(body.email, true, isEmail, "Invalid email format")
    + MinLengthIssues(Password, body.password, true, 6, "Password must be at least 6 characters")
  }

  /** The `details` argument of `handleErrorResponse`: a JavaScript value or `undefined`. */
  datatype Detail = Undefined | Null | Bool(b: bool) | Num(n: int) | Str(s: string) | Formatted(issues: seq<Issue>)

  /** JavaScript truthiness of a detail value; an object is always truthy. */
  predicate Truthy(d: Detail) {
    match d
    case Undefined => false
    case Null => false
    case Bool(b) => b
    case Num(n) => n != 0
    case Str(s) => s != ""
    case Formatted(_) => true
  }

  /** The JSON envelope `{ success, message, details? }`. */
  datatype ErrorBody = ErrorBody(success: bool, message: string, details: Option<Detail>)

  datatype ErrorReply = ErrorReply(status: nat, body: ErrorBody)

  /** `handleErrorResponse(res, status, message, details)`. */
  function HandleErrorResponse(status: nat, message: string, details: Detail): (r: ErrorReply)
    ensures r.status == status && r.body.message == message
    ensures !r.body.success
    ensures r.body.details.Some? <==> Truthy(details)
    ensures r.body.details.Some? ==> r.body.details.value == details
  {
    ErrorReply(status, ErrorBody(false, message, if Truthy(details) then Some(details) else None))
  }

  /** A `/me` handler's answer. */
  datatype MeReply =
    | Failed(error: ErrorReply)
    | Profile(user: AuthUser)
    | UpdatedUser(record: UserRecord)
    | DeletedUser

  datatype MeStep = MeStep(store: Store, reply: MeReply)

  const NoUser := HandleErrorResponse(401, "Unauthorized: No user found in request.", Undefined)

  /** `GET /me`. */
  function GetMe(reqUser: Option<AuthUser>): (r: MeReply)
    ensures reqUser.None? ==> r.Failed? && r.error.status == 401
    ensures reqUser.Some? ==> r.Profile? && r.user == reqUser.value
  {
    match reqUser
    case None => Failed(NoUser)
    case Some(u) => Profile(u)
  }

  /** Behind the middleware, `GET /me` answers with the stored id, email and name of the
      user the token belongs to, and without the password. */
  lemma GetMeAfterAuthenticate(store: Store, header: Option<string>, verify: string -> Option<UserId>)
    requires Admits(store, header, verify)
    ensures var g := Authenticate(store, header, verify);
      && g.Next?
      && var r := GetMe(Some(g.user));
      && r.Profile?
      && r.user.id == verify(ExtractToken(header.value)).value
      && r.user.id in store
      && r.user.email == store[r.user.id].email
      && r.user.name == store[r.user.id].name
  {
  }

  /** The user with the supplied fields of an update overwritten. */
  function ApplyUpdate(user: UserRecord, body: UpdateBody): (u: UserRecord)
    ensures u.tokens == user.tokens
    ensures body.name.None? ==> u.name == user.name
    ensures body.email.None? ==> u.email == user.email
    ensures body.password.None? ==> u.password == user.password
  {
    UserRecord(body.name.GetOr(user.name), body.email.GetOr(user.email), body.password.GetOr(user.password), user.tokens)
  }

  /** `PUT /me`: validate, then `findByIdAndUpdate` the authenticated user. */
  function UpdateMe(store: Store, reqUser: Option<AuthUser>, body: UpdateBody, isEmail: string -> bool): (r: MeStep)
    ensures reqUser.None? ==> r == MeStep(store, Failed(NoUser))
    ensures reqUser.Some? && !UpdateValid(body, isEmail) ==>
      && r.store == store
      && r.reply.Failed? && r.reply.error.status == 400
      && r.reply.error.body.message == "Validation failed"
      && r.reply.error.body.details.Some?
    ensures reqUser.Some? && UpdateValid(body, isEmail) && reqUser.value.id !in store ==>
      r.store == store && r.reply.Failed? && r.reply.error.status == 404
    ensures r.reply.UpdatedUser? <==>
      reqUser.Some? && UpdateValid(body, isEmail) && reqUser.value.id in store
    ensures r.reply.UpdatedUser? ==>
      var id := reqUser.value.id;
      && r.store.Keys == store.Keys
      && r.store[id] == r.reply.record
      && r.reply.record == ApplyUpdate(store[id], body)
      && r.reply.record.tokens == store[id].tokens
      && (body.name.None? ==> r.store[id].name == store[id].name)
      && (body.email.None? ==> r.store[id].email == store[id].email)
      && (body.password.None? ==> r.store[id].password == store[id].password)
      && (body.name.Some? ==> r.store[id].name == body.name.value)
      && (body.email.Some? ==> r.store[id].email == body.email.value)
      && (body.password.Some? ==> r.store[id].password == body.password.value)
      && forall other :: other in store && other != id ==> r.store[other] == store[other]
    ensures !r.reply.UpdatedUser? ==> r.store == store
  {
    match reqUser
    case None => MeStep(store, Failed(NoUser))
    case Some(u) =>
      var issues := UpdateIssues(body, isEmail);
      if issues != [] then
        MeStep(store, Failed(HandleErrorResponse(400, "Validation failed", Formatted(issues))))
      else if u.id !in store then
        MeStep(store, Failed(HandleErrorResponse(404, "User not found", Undefined)))
      else
        var updated := ApplyUpdate(store[u.id], body);
        MeStep(store[u.id := updated], UpdatedUser(updated))
  }

  /** The error envelopes of `PUT /me`: a validation failure always carries the formatted
      issues as details, while the 401 and 404 answers carry none. */
  lemma UpdateErrorDetails(store: Store, reqUser: Option<AuthUser>, body: UpdateBody, isEmail: string -> bool)
    ensures var r := UpdateMe(store, reqUser, body, isEmail).reply;
      && (r.Failed? && r.error.status == 400 ==>
            r.error.body.details == Some(Formatted(UpdateIssues(body, isEmail))) && UpdateIssues(body, isEmail) != [])
      && (r.Failed? && r.error.status != 400 ==> r.error.body.details.None?)
      && (r.Failed? ==> !r.error.body.success)
  {
  }

  /** `DELETE /me`: `findByIdAndDelete` the authenticated user; no other document is touched. */
  function DeleteMe(store: Store, reqUser: Option<AuthUser>): (r: MeStep)
    ensures reqUser.None? ==> r == MeStep(store, Failed(NoUser))
    ensures reqUser.Some? && reqUser.value.id !in store ==>
      r.store == store && r.reply.Failed? && r.reply.error.status == 404
    ensures r.reply == DeletedUser <==> reqUser.Some? && reqUser.value.id in store
    ensures r.reply == DeletedUser ==>
      && r.store.Keys == store.Keys - {reqUser.value.id}
      && forall other :: other in r.store ==> r.store[other] == store[other]
  {
    match reqUser
    case None => MeStep(store, Failed(NoUser))
    case Some(u) =>
      if u.id !in store then
        MeStep(store, Failed(HandleErrorResponse(404, "User not found", Undefined)))
      else
        MeStep(map id | id in store && id != u.id :: store[id], DeletedUser)
  }

  /** An update keeps the caller's token list, so every session that was admitted before
      is still admitted after it. */
  lemma UpdateKeepsSessions(store: Store, reqUser: Option<AuthUser>, body: UpdateBody, isEmail: string -> bool,
                            header: Option<string>, verify: string -> Option<UserId>)
    requires Admits(store, header, verify)
    ensures Admits(UpdateMe(store, reqUser, body, isEmail).store, header, verify)
  {
  }

  /** An update with no fields rewrites the caller's record with itself. */
  lemma EmptyUpdateChangesNothing(store: Store, u: AuthUser, isEmail: string -> bool)
    requires u.id in store
    ensures UpdateMe(store, Some(u), UpdateBody(None, None, None), isEmail) == MeStep(store, UpdatedUser(store[u.id]))
  {
    assert store[u.id := store[u.id]] == store;
  }

  /** After a delete, no header admits a request as the deleted user, and every other
      user's sessions are unaffected. */
  lemma DeletedUserIsLockedOut(store: Store, u: AuthUser, header: Option<string>, verify: string -> Option<UserId>)
    requires DeleteMe(store, Some(u)).reply == DeletedUser
    ensures var after := DeleteMe(store, Some(u)).store;
      && (Authenticate(after, header, verify).Next? ==> Authenticate(after, header, verify).user.id != u.id)
      && (Admits(store, header, verify) && verify(ExtractToken(header.value)).value != u.id ==>
            Admits(after, header, verify))
  {
  }
}
