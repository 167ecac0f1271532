/** Admin authentication: credentials kept in the settings table (falling back to
    built-in defaults) and an in-memory store of session tokens with a 24-hour lifetime. */
module Auth {
  import opened Basics
  import Catalog

  const DEFAULT_USERNAME: string := "razael"
  const DEFAULT_PASSWORD: string := "admin123"
  const USERNAME_KEY: string := "admin_username"
  const PASSWORD_HASH_KEY: string := "admin_password_hash"

  /** 24 hours, in milliseconds. */
  const SESSION_DURATION: int := 24 * 60 * 60 * 1000
  const SESSION_COOKIE_NAME: string := "mc_admin_session"

  datatype Credentials = Credentials(username: string, passwordHash: string)

  /** `getAdminCredentials`: the stored user name and password hash, each replaced by its
      default (the hash of the default password) when absent or empty. The SHA-256 hex
      digest is the parameter `hash`. */
  function AdminCredentials(settings: map<string, string>, hash: string -> string): (c: Credentials)
    ensures USERNAME_KEY in settings && settings[USERNAME_KEY] != "" ==> c.username == settings[USERNAME_KEY]
    ensures USERNAME_KEY !in settings || settings[USERNAME_KEY] == "" ==> c.username == DEFAULT_USERNAME
    ensures PASSWORD_HASH_KEY in settings && settings[PASSWORD_HASH_KEY] != "" ==>
              c.passwordHash == settings[PASSWORD_HASH_KEY]
    ensures PASSWORD_HASH_KEY !in settings || settings[PASSWORD_HASH_KEY] == "" ==>
              c.passwordHash == hash(DEFAULT_PASSWORD)
  {
    Credentials(Catalog.SettingOr(settings, USERNAME_KEY, DEFAULT_USERNAME),
                Catalog.SettingOr(settings, PASSWORD_HASH_KEY, hash(DEFAULT_PASSWORD)))
  }

  /** `verifyCredentials`. */
  predicate VerifyCredentials(settings: map<string, string>, hash: string -> string, username: string, password: string)
  {
    var c := AdminCredentials(settings, hash);
    username == c.username && hash(password) == c.passwordHash
  }

  /** Before anything is stored, exactly the default user name with a password hashing like
      the default password is accepted. */
  lemma DefaultCredentials(settings: map<string, string>, hash: string -> string, username: string, password: string)
    requires USERNAME_KEY !in settings && PASSWORD_HASH_KEY !in settings
    ensures VerifyCredentials(settings, hash, username, password)
            <==> username == DEFAULT_USERNAME && hash(password) == hash(DEFAULT_PASSWORD)
    ensures VerifyCredentials(settings, hash, DEFAULT_USERNAME, DEFAULT_PASSWORD)
  {
  }

  /** `updateAdminPassword(p)` followed by a login of the current user with `p` succeeds, and
      afterwards a password is accepted exactly when it hashes like `p`. */
  lemma PasswordUpdateTakesEffect(settings: map<string, string>, hash: string -> string, p: string, q: string)
    requires hash(p) != ""
    ensures var after := settings[PASSWORD_HASH_KEY := hash(p)];
            var user := AdminCredentials(settings, hash).username;
            && AdminCredentials(after, hash).username == user
            && VerifyCredentials(after, hash, user, p)
            && (VerifyCredentials(after, hash, user, q) <==> hash(q) == hash(p))
  {
  }

  /** `updateAdminUsername(u)` with a non-empty `u` moves the login to `u`: the password that
      worked before works with `u`, and the old name no longer does. */
  lemma UsernameUpdateTakesEffect(settings: map<string, string>, hash: string -> string, u: string, password: string)
    requires u != ""
    requires VerifyCredentials(settings, hash, AdminCredentials(settings, hash).username, password)
    ensures var after := settings[USERNAME_KEY := u];
            && VerifyCredentials(after, hash, u, password)
            && (AdminCredentials(settings, hash).username != u ==>
                  !VerifyCredentials(after, hash, AdminCredentials(settings, hash).username, password))
  {
  }

  /** `updateAdminPassword`: stores the hash of the new password. */
  method UpdateAdminPassword(db: Catalog.Database, hash: string -> string, newPassword: string)
    modifies db
    ensures db.settings == old(db.settings)[PASSWORD_HASH_KEY := hash(newPassword)]
    ensures db.contents == old(db.contents)
  {
    db.SetSetting(PASSWORD_HASH_KEY, hash(newPassword));
  }

  /** `updateAdminUsername`: stores the new user name as given. */
  method UpdateAdminUsername(db: Catalog.Database, newUsername: string)
    modifies db
    ensures db.settings == old(db.settings)[USERNAME_KEY := newUsername]
    ensures db.contents == old(db.contents)
  {
    db.SetSetting(USERNAME_KEY, newUsername);
  }

  // ---------------------------------------------------------------------------
  // Sessions
  // ---------------------------------------------------------------------------

  datatype Session = Session(username: string, expiresAt: int)

  /** Whether `validateSession(token)` at time `now` answers true: the token is known and
      not past its expiry; the expiry instant itself still counts. */
  predicate SessionValid(sessions: map<string, Session>, token: string, now: int)
  {
    token in sessions && now <= sessions[token].expiresAt
  }

  /** The session map after `validateSession(token)` at time `now`: an expired entry is
      dropped, anything else is left as it was. */
  function AfterValidate(sessions: map<string, Session>, token: string, now: int): (r: map<string, Session>)
    ensures r.Keys <= sessions.Keys
    ensures forall t :: t in r ==> r[t] == sessions[t]
    ensures forall t :: t in sessions && t != token ==> t in r
    ensures token in r <==> SessionValid(sessions, token, now)
  {
    if token in sessions && now > sessions[token].expiresAt then sessions - {token} else sessions
  }

  /** A session opened at `now` is valid up to and including `now + SESSION_DURATION`,
      and not one millisecond later. */
  lemma SessionLifetime(sessions: map<string, Session>, token: string, username: string, now: int, later: int)
    ensures var s := sessions[token := Session(username, now + SESSION_DURATION)];
            SessionValid(s, token, later) <==> later <= now + 86400000
  {
  }

  /** Validating twice answers the same as validating once. */
  lemma ValidateIdempotent(sessions: map<string, Session>, token: string, now: int)
    ensures SessionValid(AfterValidate(sessions, token, now), token, now) == SessionValid(sessions, token, now)
    ensures AfterValidate(AfterValidate(sessions, token, now), token, now) == AfterValidate(sessions, token, now)
  {
  }

  /** Once a token has expired it stays invalid, and after the expired entry is dropped
      it is unknown. */
  lemma ExpiryIsFinal(sessions: map<string, Session>, token: string, now: int, later: int)
    requires token in sessions && now > sessions[token].expiresAt && later >= now
    ensures !SessionValid(sessions, token, later)
    ensures token !in AfterValidate(sessions, token, now)
  {
  }

  /** The module-level `sessions` map. Token minting and the clock are parameters. */
  class SessionStore {
    var sessions: map<string, Session>

    constructor ()
      ensures sessions == map[]
    {
      sessions := map[];
    }

    /** `createSession`: records `username` under `token`, expiring 24 hours from `now`. */
    method CreateSession(username: string, token: string, now: int) returns (t: string)
      modifies this
      ensures t == token
      ensures sessions == old(sessions)[token := Session(username, now + SESSION_DURATION)]
    {
      sessions := sessions[token := Session(username, now + SESSION_DURATION)];
      t := token;
    }

    /** `validateSession`. */
    method ValidateSession(token: string, now: int) returns (valid: bool)
      modifies this
      ensures valid == SessionValid(old(sessions), token, now)
      ensures sessions == AfterValidate(old(sessions), token, now)
    {
      if token !in sessions {
        return false;
      }
      var session := sessions[token];
      if now > session.expiresAt {
        sessions := sessions - {token};
        return false;
      }
      valid := true;
    }

    /** `destroySession`: removes the token; a second call changes nothing. */
    method DestroySession(token: string)
      modifies this
      ensures sessions == old(sessions) - {token}
      ensures forall now :: !SessionValid(sessions, token, now)
    {
      sessions := sessions - {token};
    }
  }
}
