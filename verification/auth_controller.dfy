/**
  Signup and login (`authController.signup` / `authController.login`) as
  transitions of the user store. The token `jwt.sign` produces is an input
  (`token`), the password check `comparePassword` is the parameter `matches`, and
  zod's email format test is the parameter `isEmail`.
 */
module AuthController {
  import opened Wrappers
  import opened Zod
  import opened UserStore

  /** The JSON body of `POST /signup`; `None` is a missing (or non-string) field. */
  datatype SignupBody = SignupBody(name: Option<string>, email: Option<string>, password: Option<string>)

  /** What `signupSchema` accepts: a name of at least 2 characters, an email the format
      test accepts and a password of at least 6 characters. */
  predicate SignupValid(body: SignupBody, isEmail: string -> bool) {
    && body.name.Some? && |body.name.value| >= 2
    && body.email.Some? && isEmail(body.email.value)
    && body.password.Some? && |body.password.value| >= 6
  }

  /** `signupSchema.parse(body)`: the issues, in field order name, email, password. */
  function SignupIssues(body: SignupBody, isEmail: string -> bool): (issues: seq<Issue>)
    ensures issues == [] <==> SignupValid(body, isEmail)
    ensures |issues| <= 3
  {
    MinLengthIssues(Name, body.name, false, 2, "Name must be at least 2 characters long")
    + EmailIssues(body.email, false, isEmail, "Invalid email format")
    + MinLengthIssues(Password, body.password, false, 6, "Password must be at least 6 characters long")
  }

  /** A handler's answer: a token issued to a user (201 for signup, 200 for login), a
      validation failure (400 with zod's issues), or a refusal with status and message. */
  datatype AuthResponse =
    | Issued(status: nat, user: UserId, token: string)
    | Invalid(issues: seq<Issue>)
    | Refused(status: nat, message: string)

  function StatusOf(r: AuthResponse): nat {
    match r
    case Issued(s, _, _) => s
    case Invalid(_) => 400
    case Refused(s, _) => s
  }

  /** The store after a request together with the response sent. */
  datatype AuthStep = AuthStep(store: Store, response: AuthResponse)

  /** `authController.signup`. `freshId` is the id the database assigns to the new document;
      should it already be taken the insert fails and the handler answers 500. */
  function Signup(store: Store, body: SignupBody, isEmail: string -> bool, freshId: UserId, token: string): (r: AuthStep)
    // invalid input: 400 with the issues, store untouched
    ensures !SignupValid(body, isEmail) ==>
      r.store == store && r.response.Invalid? && r.response.issues != [] && StatusOf(r.response) == 400
    // a registered email: 400 "User already exists", store untouched
    ensures SignupValid(body, isEmail) && FindByEmail(store, body.email.value).Some? ==>
      r.store == store && r.response == Refused(400, "User already exists")
    // a token is issued exactly for valid input with a new email
    ensures r.response.Issued? <==>
      SignupValid(body, isEmail) && FindByEmail(store, body.email.value).None? && freshId !in store
    // success adds exactly one user, holding the issued token, and keeps every other user
    ensures r.response.Issued? ==>
      && r.response == Issued(201, freshId, token)
      && r.store.Keys == store.Keys + {freshId}
      && r.store[freshId].name == body.name.value
      && r.store[freshId].email == body.email.value
      && r.store[freshId].password == body.password.value
      && r.store[freshId].tokens == [token]
      && forall id :: id in store ==> r.store[id] == store[id]
    ensures !r.response.Issued? ==> r.store == store
  {
    var issues := SignupIssues(body, isEmail);
    if issues != [] then
      AuthStep(store, Invalid(issues))
    else if FindByEmail(store, body.email.value).Some? then
      AuthStep(store, Refused(400, "User already exists"))
    else if freshId in store then
      AuthStep(store, Refused(500, "Internal Server Error"))
    else
      var user := UserRecord(body.name.value, body.email.value, body.password.value, []);
      // the document is saved, then the signed token is pushed and it is saved again
      var user' := user.(tokens := user.tokens + [token]);
      AuthStep(store[freshId := user'], Issued(201, freshId, token))
  }

  /** `authController.login`: the user the email lookup finds gets one more token when the
      password matches; nothing else changes. */
  function Login(store: Store, email: string, password: string, matches: (string, string) -> bool, token: string): (r: AuthStep)
    ensures FindByEmail(store, email).None? ==>
      r == AuthStep(store, Refused(400, "User not found"))
    ensures FindByEmail(store, email).Some? && !matches(password, store[FindByEmail(store, email).value].password) ==>
      r == AuthStep(store, Refused(400, "Invalid password"))
    ensures r.response.Issued? <==>
      FindByEmail(store, email).Some? && matches(password, store[FindByEmail(store, email).value].password)
    ensures r.response.Issued? ==>
      var id := FindByEmail(store, email).value;
      && r.response == Issued(200, id, token)
      && r.store == store[id := store[id].(tokens := store[id].tokens + [token])]
    // only the matched user's record may change, and only its tokens
    ensures r.store.Keys == store.Keys
    ensures forall id :: id in store && FindByEmail(store, email) != Some(id) ==> r.store[id] == store[id]
    ensures forall id :: id in store ==>
      r.store[id].name == store[id].name && r.store[id].email == store[id].email
      && r.store[id].password == store[id].password
  {
    match FindByEmail(store, email)
    case None => AuthStep(store, Refused(400, "User not found"))
    case Some(id) =>
      var user := store[id];
      if !matches(password, user.password) then
        AuthStep(store, Refused(400, "Invalid password"))
      else
        AuthStep(store[id := user.(tokens := user.tokens + [token])], Issued(200, id, token))
  }

  /** Signup keeps emails unique: it never adds a second user with a registered email. */
  lemma SignupKeepsEmailsUnique(store: Store, body: SignupBody, isEmail: string -> bool, freshId: UserId, token: string)
    requires UniqueEmails(store)
    ensures UniqueEmails(Signup(store, body, isEmail, freshId, token).store)
  {
    var r := Signup(store, body, isEmail, freshId, token);
    if r.response.Issued? {
      forall a, b | a in r.store && b in r.store && r.store[a].email == r.store[b].email
        ensures a == b
      {
        if a != freshId && b != freshId {
          assert store[a].email == store[b].email;
        }
      }
    }
  }

  /** Login keeps emails unique. */
  lemma LoginKeepsEmailsUnique(store: Store, email: string, password: string, matches: (string, string) -> bool, token: string)
    requires UniqueEmails(store)
    ensures UniqueEmails(Login(store, email, password, matches, token).store)
  {
  }

  /** Sessions coexist: after two successful logins with the same credentials both tokens are
      in the user's list, behind every token issued before. */
  lemma {:induction false} SessionsCoexist(store: Store, email: string, password: string,
                                           matches: (string, string) -> bool, t1: string, t2: string)
    requires Login(store, email, password, matches, t1).response.Issued?
    ensures var s1 := Login(store, email, password, matches, t1);
      var s2 := Login(s1.store, email, password, matches, t2);
      var id := s1.response.user;
      && s2.response == Issued(200, id, t2)
      && s2.store[id].tokens == store[id].tokens + [t1, t2]
  {
    var s1 := Login(store, email, password, matches, t1);
    var id := s1.response.user;
    FindByEmailSameEmails(store, s1.store, email);
    assert s1.store[id].password == store[id].password;
  }
}
