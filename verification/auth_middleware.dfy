/**
  `authMiddleware`: reads the `Authorization` header, extracts the bearer token,
  verifies it, and admits the request only when the token's user exists and still
  lists that exact token. `jwt.verify` is the parameter `verify`, answering the
  user id the token carries or `None` when the signature is bad or the token expired.
 */
module AuthMiddleware {
  import opened Wrappers
  import opened Text
  import opened UserStore
  import AuthController

  const BearerPrefix: string := "Bearer "

  /** What the middleware attaches as `req.user`: id, email and name, never the password. */
  datatype AuthUser = AuthUser(id: UserId, email: string, name: string)

  /** Either `next()` runs once with `req.user` set, or the middleware answers itself. */
  datatype Gate = Next(user: AuthUser) | Deny(status: nat, message: string)

  /** `authHeader.split("Bearer ")[1]` for a header that starts with "Bearer ": the text after
      the first "Bearer " up to the next occurrence of "Bearer ", or to the end. */
  function ExtractToken(header: string): (token: string)
    requires StartsWith(header, BearerPrefix)
    ensures var rest := header[|BearerPrefix|..];
      && |token| <= |rest| && token == rest[..|token|]
      && !Includes(token, BearerPrefix)
      && (|token| == |rest| || OccursAt(rest, BearerPrefix, |token|))
  {
    var rest := header[|BearerPrefix|..];
    assert header == BearerPrefix + rest;
    SplitLeading(BearerPrefix, rest);
    Split(header, BearerPrefix)[1]
  }

  /** A header that is exactly "Bearer " followed by a token free of "Bearer " yields that token. */
  lemma ExtractTokenOfHeader(t: string)
    requires !Includes(t, BearerPrefix)
    ensures StartsWith(BearerPrefix + t, BearerPrefix)
    ensures ExtractToken(BearerPrefix + t) == t
  {
    var header := BearerPrefix + t;
    assert header[..|BearerPrefix|] == BearerPrefix;
    assert header[|BearerPrefix|..] == t;
    SplitLeading(BearerPrefix, t);
    SplitFree(t, BearerPrefix);
  }

  /** The header admits the request: well formed, a non-empty token that verifies, and the
      token's user exists and lists that exact token. */
  predicate Admits(store: Store, header: Option<string>, verify: string -> Option<UserId>) {
    && header.Some? && StartsWith(header.value, BearerPrefix)
    && var token := ExtractToken(header.value);
    && token != ""
    && verify(token).Some?
    && verify(token).value in store
    && token in store[verify(token).value].tokens
  }

  /** `authMiddleware`. */
  function Authenticate(store: Store, header: Option<string>, verify: string -> Option<UserId>): (g: Gate)
    ensures header.None? || !StartsWith(header.value, BearerPrefix) ==>
      g == Deny(401, "Authorization header missing or invalid")
    ensures header.Some? && StartsWith(header.value, BearerPrefix) && ExtractToken(header.value) == "" ==>
      g == Deny(401, "No token provided")
    ensures (header.Some? && StartsWith(header.value, BearerPrefix) && ExtractToken(header.value) != ""
             && verify(ExtractToken(header.value)).None?) ==>
      g == Deny(401, "Invalid or expired token")
    ensures (header.Some? && StartsWith(header.value, BearerPrefix) && ExtractToken(header.value) != ""
             && verify(ExtractToken(header.value)).Some? && !Admits(store, header, verify)) ==>
      g == Deny(401, "User not found or token invalid")
    ensures g.Next? <==> Admits(store, header, verify)
    ensures g.Next? ==>
      var id := verify(ExtractToken(header.value)).value;
      g.user == AuthUser(id, store[id].email, store[id].name)
    ensures g.Deny? ==> g.status == 401
  {
    if header.None? || !StartsWith(header.value, BearerPrefix) then
      Deny(401, "Authorization header missing or invalid")
    else
      var token := ExtractToken(header.value);
      if token == "" then
        Deny(401, "No token provided")
      else
        match verify(token)
        case None => Deny(401, "Invalid or expired token")
        case Some(id) =>
          if id !in store || token !in store[id].tokens then
            Deny(401, "User not found or token invalid")
          else
            Next(AuthUser(id, store[id].email, store[id].name))
  }

  /** The characters of a compact JWT (RFC 7519): the base64url alphabet and the dot. */
  predicate JwtChar(c: char) {
    ('A' <= c <= 'Z') || ('a' <= c <= 'z') || ('0' <= c <= '9') || c == '-' || c == '_' || c == '.'
  }

  /** A token as `jwt.sign` produces it: non-empty, in the compact serialization. */
  predicate CompactToken(t: string) {
    |t| > 0 && forall i :: 0 <= i < |t| ==> JwtChar(t[i])
  }

  lemma CompactTokenHasNoBearer(t: string)
    requires CompactToken(t)
    ensures !Includes(t, BearerPrefix)
  {
    forall i: nat | i <= |t|
      ensures !OccursAt(t, BearerPrefix, i)
    {
      if i + |BearerPrefix| <= |t| {
        assert t[i..i + |BearerPrefix|][6] == t[i + 6] != ' ';
      }
    }
  }

  /** A token still listed for its user, presented as "Bearer <token>", admits the request as
      that user when it verifies to that user. */
  lemma {:induction false} ListedTokenAdmits(store: Store, id: UserId, token: string, verify: string -> Option<UserId>)
    requires id in store && token in store[id].tokens
    requires CompactToken(token) && verify(token) == Some(id)
    ensures Authenticate(store, Some(BearerPrefix + token), verify) == Next(AuthUser(id, store[id].email, store[id].name))
  {
    CompactTokenHasNoBearer(token);
    ExtractTokenOfHeader(token);
  }

  /** The token signup returns authenticates the new user, provided it verifies. */
  lemma {:induction false} SignupTokenAdmits(store: Store, body: AuthController.SignupBody, isEmail: string -> bool,
                                             freshId: UserId, token: string, verify: string -> Option<UserId>)
    requires AuthController.Signup(store, body, isEmail, freshId, token).response.Issued?
    requires CompactToken(token) && verify(token) == Some(freshId)
    ensures Authenticate(AuthController.Signup(store, body, isEmail, freshId, token).store, Some(BearerPrefix + token), verify)
      == Next(AuthUser(freshId, body.email.value, body.name.value))
  {
    var r := AuthController.Signup(store, body, isEmail, freshId, token);
    assert token in r.store[freshId].tokens;
    ListedTokenAdmits(r.store, freshId, token, verify);
  }

  /** The token login returns authenticates the logged-in user, provided it verifies. */
  lemma {:induction false} LoginTokenAdmits(store: Store, email: string, password: string, matches: (string, string) -> bool,
                                            token: string, verify: string -> Option<UserId>)
    requires AuthController.Login(store, email, password, matches, token).response.Issued?
    requires CompactToken(token)
    requires verify(token) == Some(AuthController.Login(store, email, password, matches, token).response.user)
    ensures var r := AuthController.Login(store, email, password, matches, token);
      var id := r.response.user;
      Authenticate(r.store, Some(BearerPrefix + token), verify) == Next(AuthUser(id, store[id].email, store[id].name))
  {
    var r := AuthController.Login(store, email, password, matches, token);
    var id := r.response.user;
    assert r.store[id].tokens == store[id].tokens + [token];
    assert token in r.store[id].tokens;
    ListedTokenAdmits(r.store, id, token, verify);
  }
}
