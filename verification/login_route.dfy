/** `POST /api/auth/login`: checks the posted credentials and opens a session. */
module LoginRoute {
  import opened Basics
  import Auth

  /** The cookie options set on success. */
  datatype Cookie = Cookie(name: string, value: string, httpOnly: bool, secure: bool,
                           sameSite: string, path: string, maxAge: int)

  /** 400 (a field missing or empty), 401 (wrong credentials), or success with the cookie. */
  datatype LoginResponse = BadRequest | Unauthorized | LoggedIn(cookie: Cookie)

  /** 24 hours, in seconds. */
  const COOKIE_MAX_AGE: int := 24 * 60 * 60

  /** The cookie lives exactly as long as the session it carries. */
  lemma CookieMatchesSession()
    ensures COOKIE_MAX_AGE * 1000 == Auth.SESSION_DURATION
  {
  }

  /** The cookie carrying `token`; `secure` only in production. */
  function SessionCookie(token: string, production: bool): Cookie
  {
    Cookie(Auth.SESSION_COOKIE_NAME, token, true, production, "lax", "/", COOKIE_MAX_AGE)
  }

  /** The response the handler gives, before any session is written. */
  function Decide(settings: map<string, string>, hash: string -> string,
                  username: Option<string>, password: Option<string>, token: string, production: bool): (r: LoginResponse)
    ensures r == BadRequest <==> Missing(username) || Missing(password)
    ensures r.LoggedIn? <==> !Missing(username) && !Missing(password)
                             && Auth.VerifyCredentials(settings, hash, username.value, password.value)
    ensures r.LoggedIn? ==> r.cookie.value == token && r.cookie.name == "mc_admin_session"
  {
    if Missing(username) || Missing(password) then BadRequest
    else if !Auth.VerifyCredentials(settings, hash, username.value, password.value) then Unauthorized
    else LoggedIn(SessionCookie(token, production))
  }

  /** `POST`: a session is created only on success, for the posted user name, under the
      token the cookie carries. `token` is the fresh random token, `now` the clock. */
  method Login(store: Auth.SessionStore, settings: map<string, string>, hash: string -> string,
               username: Option<string>, password: Option<string>, token: string, now: int, production: bool)
    returns (response: LoginResponse)
    modifies store
    ensures response == Decide(settings, hash, username, password, token, production)
    ensures !response.LoggedIn? ==> store.sessions == old(store.sessions)
    ensures response.LoggedIn? ==>
              store.sessions == old(store.sessions)[token := Auth.Session(username.value, now + Auth.SESSION_DURATION)]
  {
    if Missing(username) || Missing(password) {
      return BadRequest;
    }
    if !Auth.VerifyCredentials(settings, hash, username.value, password.value) {
      return Unauthorized;
    }
    var t := store.CreateSession(username.value, token, now);
    response := LoggedIn(SessionCookie(t, production));
  }

  /** A login that succeeds at `now` leaves a session the cookie's token validates for the
      whole cookie lifetime. */
  lemma LoginThenValidate(sessions: map<string, Auth.Session>, username: string, token: string, now: int, later: int)
    requires now <= later <= now + COOKIE_MAX_AGE * 1000
    ensures Auth.SessionValid(sessions[token := Auth.Session(username, now + Auth.SESSION_DURATION)], token, later)
  {
  }
}
