/**
  The client's authentication context: a flag over the token kept in local
  storage, with the status check, `login` and `logout`. Navigation is recorded
  as the route last pushed.
 */
module AuthContext {
  import opened Wrappers

  /** The flag, the stored `token` item and the last route pushed. */
  datatype AuthState = AuthState(isAuthenticated: bool, token: Option<string>, route: Option<string>)

  /** The provider before its effect has run: not authenticated, whatever is stored. */
  function Mount(stored: Option<string>): (s: AuthState)
    ensures !s.isAuthenticated && s.token == stored && s.route.None?
  {
    AuthState(false, stored, None)
  }

  /** `checkAuthStatus`: `!!localStorage.getItem("token")`. */
  function CheckAuthStatus(s: AuthState): (r: AuthState)
    ensures r.isAuthenticated <==> s.token.Some? && s.token.value != ""
    ensures r.token == s.token && r.route == s.route
  {
    s.(isAuthenticated := s.token.Some? && s.token.value != "")
  }

  /** `login(token)`. */
  function Login(s: AuthState, token: string): (r: AuthState)
    ensures r.isAuthenticated && r.token == Some(token) && r.route == Some("/home")
  {
    AuthState(true, Some(token), Some("/home"))
  }

  /** `logout()`. */
  function Logout(s: AuthState): (r: AuthState)
    ensures !r.isAuthenticated && r.token.None? && r.route == Some("/login")
  {
    AuthState(false, None, Some("/login"))
  }

  /** After a logout, whatever came before, the status check finds no session. */
  lemma LoginThenLogout(s: AuthState, token: string)
    ensures Logout(Login(s, token)).token.None?
    ensures !CheckAuthStatus(Logout(Login(s, token))).isAuthenticated
  {
  }

  /** A later status check (a storage event) agrees with `login` exactly when the token is
      non-empty: logging in with "" sets the flag, but the check clears it again. */
  lemma CheckAfterLogin(s: AuthState, token: string)
    ensures CheckAuthStatus(Login(s, token)).isAuthenticated <==> token != ""
  {
  }

  /** Checking twice is checking once. */
  lemma CheckIdempotent(s: AuthState)
    ensures CheckAuthStatus(CheckAuthStatus(s)) == CheckAuthStatus(s)
  {
  }
}
