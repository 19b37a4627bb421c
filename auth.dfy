/** The `/login`, `/logout` and `/register` handlers of backend/auth/index.js.
    Each handler is a method that steps through the SQL statements of the
    source on a `Database`, and is proved equal to a function (`LoginSpec`,
    `LogoutSpec`, `RegisterSpec`) from the old tables to the new tables and
    the reply; the properties of the handlers are lemmas about those functions
    (module `AuthProperties`). */
module Auth {
  import opened Wrappers
  import opened Json
  import opened Store

  /** Fifteen minutes in milliseconds: the length of a lock and the window in
      which failures count. */
  const LockoutPeriod: int := 15 * 60 * 1000

  /** Recent failures from which the account is locked. */
  const LockThreshold: int := 3

  /** The role id every registered user is given. */
  const MemberRoleId: int := 2

  datatype LoginReply =
    | LoginMissingFields                 // 400 "Username and password are required"
    | AccountLocked(timeRemaining: int)  // 429 with the seconds left
    | InvalidUsername                    // 401 "Invalid username"
    | InvalidPassword                    // 401 "Invalid password"
    | LoginSuccessful(cookie: string)    // 200, sets the `main_session` cookie
  {
    function Status(): int {
      match this
      case LoginMissingFields => 400
      case AccountLocked(_) => 429
      case InvalidUsername => 401
      case InvalidPassword => 401
      case LoginSuccessful(_) => 200
    }
  }

  datatype LogoutReply =
    | NoActiveSession    // 400 "No active session to log out"
    | InvalidSessionId   // 400 "Invalid session ID"
    | LogoutSuccessful   // 200, clears the `main_session` cookie
    | LogoutFailed       // 500 "Internal server error"
  {
    function Status(): int {
      match this
      case NoActiveSession => 400
      case InvalidSessionId => 400
      case LogoutSuccessful => 200
      case LogoutFailed => 500
    }
  }

  datatype RegisterReply =
    | RegisterMissingFields   // 400 "Username and password are required"
    | RegisterSuccessful      // 200 "Registration successful"
    | RegisterFailed          // 500 "Internal server error"
  {
    function Status(): int {
      match this
      case RegisterMissingFields => 400
      case RegisterSuccessful => 200
      case RegisterFailed => 500
    }
  }

  /** `Math.ceil(ms / 1000)`: whole seconds, rounded up. */
  function CeilSeconds(ms: int): (r: int)
    ensures (r - 1) * 1000 < ms <= r * 1000
  {
    if ms % 1000 == 0 then ms / 1000 else ms / 1000 + 1
  }

  /** The account is locked and its unlock time is still ahead. */
  predicate LockActive(u: User, now: int) {
    u.isLocked && u.unlockTime.Some? && now < u.unlockTime.value
  }

  /** The account is locked and its unlock time has passed. */
  predicate LockExpired(u: User, now: int) {
    u.isLocked && u.unlockTime.Some? && now >= u.unlockTime.value
  }

  /** `b` holds the same accounts as `a`: the same user ids, usernames and
      password hashes, and the same sessions, role assignments, roles,
      profiles and id sequence. Only lock fields and counters may differ. */
  ghost predicate SameAccounts(a: Db, b: Db) {
    && a.users.Keys == b.users.Keys
    && (forall id | id in a.users ::
          b.users[id].username == a.users[id].username && b.users[id].password == a.users[id].password)
    && b == a.(users := b.users, loginAttempts := b.loginAttempts)
  }

  lemma SameAccountsTransitive(a: Db, b: Db, c: Db)
    requires SameAccounts(a, b) && SameAccounts(b, c)
    ensures SameAccounts(a, c)
  {
  }

  /** Changing only lock fields and counters keeps the database constraints. */
  lemma SameAccountsConsistent(a: Db, b: Db)
    requires Consistent(a) && SameAccounts(a, b)
    ensures Consistent(b)
  {
  }

  /** `UPDATE users SET is_locked = .., unlock_time = .. WHERE username = $1`,
      where `id` is the row the username names, if there is one. */
  function SetLock(db: Db, id: Option<int>, locked: bool, unlock: Option<int>): (r: Db)
    ensures SameAccounts(db, r)
    ensures id.Some? && id.value in db.users ==>
              r.users[id.value].isLocked == locked && r.users[id.value].unlockTime == unlock
    ensures forall other | other in db.users && (id.None? || other != id.value) :: r.users[other] == db.users[other]
    ensures r.loginAttempts == db.loginAttempts
  {
    if id.Some? && id.value in db.users then
      db.(users := db.users[id.value := db.users[id.value].(isLocked := locked, unlockTime := unlock)])
    else
      db
  }

  /** `INSERT INTO login_attempts VALUES ($1, 1, NOW()) ON CONFLICT (username)
      DO UPDATE SET attempts = attempts + 1, last_attempt = NOW()`. */
  function RecordFailure(attempts: map<string, Attempt>, name: string, now: int): (r: map<string, Attempt>)
    ensures r.Keys == attempts.Keys + {name}
    ensures r[name].lastAttempt == now
    ensures r[name].attempts == (if name in attempts then attempts[name].attempts else 0) + 1
    ensures forall other | other in attempts && other != name :: r[other] == attempts[other]
  {
    if name in attempts then attempts[name := Attempt(attempts[name].attempts + 1, now)]
    else attempts[name := Attempt(1, now)]
  }

  /** The role name the join `users ⋈ user_roles ⋈ roles` yields for the user
      `id`; `None` when the join yields no row. */
  function JoinedRole(db: Db, id: Option<int>): Option<string> {
    if id.Some? && id.value in db.users && id.value in db.userRoles && db.userRoles[id.value] in db.roles then
      Some(db.roles[db.userRoles[id.value]])
    else
      None
  }

  /** The counter row for `name` holds enough recent failures to lock. */
  predicate RecentFailures(attempts: map<string, Attempt>, name: string, now: int) {
    name in attempts && attempts[name].attempts >= LockThreshold
    && now - attempts[name].lastAttempt < LockoutPeriod
  }

  /** The counter row for `name` is older than the window. */
  predicate StaleCounter(attempts: map<string, Attempt>, name: string, now: int) {
    name in attempts && now - attempts[name].lastAttempt >= LockoutPeriod
  }

  /** The first step: a lock whose unlock time has passed is lifted. */
  function ClearExpiredLock(db: Db, found: Option<int>, now: int): (r: Db)
    ensures SameAccounts(db, r) && r.loginAttempts == db.loginAttempts
  {
    if found.Some? && found.value in db.users && LockExpired(db.users[found.value], now) then
      SetLock(db, found, false, None)
    else
      db
  }

  /** The third step: a counter older than the window restarts from 0 at `now`. */
  function ResetStaleCounter(db: Db, name: string, now: int): (r: Db)
    ensures SameAccounts(db, r) && r.users == db.users
  {
    if StaleCounter(db.loginAttempts, name, now) then
      db.(loginAttempts := db.loginAttempts[name := Attempt(0, now)])
    else
      db
  }

  /** The last step: the user lookup and the password comparison. */
  function CheckCredentials(db: Db, name: string, hashed: string, found: Option<int>, now: int,
                            sid: string, encode: JsValue -> string): (r: (Db, LoginReply))
    ensures SameAccounts(db, r.0) && r.0.users == db.users
  {
    var role := JoinedRole(db, found);
    if role.None? then
      (db.(loginAttempts := RecordFailure(db.loginAttempts, name, now)), InvalidUsername)
    else if db.users[found.value].password != hashed then
      (db, InvalidPassword)
    else
      (db, LoginSuccessful(encode(SessionObject(sid, found.value, role.value))))
  }

  /** `POST /login` on the tables `db` at time `now`; `sid` is the uuid drawn
      for a new session, `hash` the SHA-256/base64 digest, `encode` the
      JSON/base64 encoding of the cookie. */
  function LoginSpec(db: Db, username: Option<string>, password: Option<string>, now: int,
                     sid: string, hash: string -> string, encode: JsValue -> string): (r: (Db, LoginReply))
    requires Consistent(db)
    ensures SameAccounts(db, r.0)
  {
    if !TruthyText(username) || !TruthyText(password) then (db, LoginMissingFields)
    else
      var name, hashed := username.value, hash(password.value);
      var found := FindUser(db.users, name);
      if found.Some? && LockActive(db.users[found.value], now) then
        (db, AccountLocked(CeilSeconds(db.users[found.value].unlockTime.value - now)))
      else
        var db1 := ClearExpiredLock(db, found, now);
        if RecentFailures(db1.loginAttempts, name, now) then
          var db2 := SetLock(db1, found, true, Some(now + LockoutPeriod));
          SameAccountsTransitive(db, db1, db2);
          (db2, AccountLocked(CeilSeconds(LockoutPeriod)))
        else
          var db2 := ResetStaleCounter(db1, name, now);
          var r := CheckCredentials(db2, name, hashed, found, now, sid, encode);
          SameAccountsTransitive(db, db1, db2);
          SameAccountsTransitive(db, db2, r.0);
          r
  }

  method Login(store: Database, username: Option<string>, password: Option<string>, now: int,
               sid: string, hash: string -> string, encode: JsValue -> string) returns (reply: LoginReply)
    requires store.Valid()
    modifies store
    ensures store.Valid()
    ensures store.Tables() == LoginSpec(old(store.Tables()), username, password, now, sid, hash, encode).0
    ensures reply == LoginSpec(old(store.Tables()), username, password, now, sid, hash, encode).1
  {
    ghost var db0 := store.Tables();
    ghost var spec := LoginSpec(db0, username, password, now, sid, hash, encode);
    SameAccountsConsistent(db0, spec.0);
    if !TruthyText(username) || !TruthyText(password) {
      return LoginMissingFields;
    }
    var name := username.value;
    var hashed := hash(password.value);

    // SELECT is_locked, unlock_time FROM users WHERE username = $1
    var found := FindUser(store.users, name);
    if found.Some? {
      var row := store.users[found.value];
      if row.isLocked && row.unlockTime.Some? && now < row.unlockTime.value {
        return AccountLocked(CeilSeconds(row.unlockTime.value - now));
      }
      UnlockIfExpired(store, found.value, now);
    }
    ghost var db1 := store.Tables();
    assert db1 == ClearExpiredLock(old(store.Tables()), found, now);

    // SELECT attempts, last_attempt FROM login_attempts WHERE username = $1
    var locked := CheckCounter(store, name, found, now);
    if locked {
      return AccountLocked(CeilSeconds(LockoutPeriod));
    }
    assert store.Tables() == ResetStaleCounter(db1, name, now);

    reply := LookUpAndCompare(store, name, hashed, found, now, sid, encode);
  }

  /** `UPDATE users SET is_locked = FALSE, unlock_time = NULL` when the lock of
      the user `id` has run out. */
  method UnlockIfExpired(store: Database, id: int, now: int)
    requires id in store.users
    modifies store
    ensures store.Tables() == ClearExpiredLock(old(store.Tables()), Some(id), now)
  {
    var row := store.users[id];
    if row.isLocked && row.unlockTime.Some? && now >= row.unlockTime.value {
      store.users := store.users[id := row.(isLocked := false, unlockTime := None)];
    }
  }

  /** The counter step: lock the account on recent failures (`locked`), else
      reset a stale counter. */
  method CheckCounter(store: Database, name: string, found: Option<int>, now: int) returns (locked: bool)
    modifies store
    ensures locked == RecentFailures(old(store.loginAttempts), name, now)
    ensures locked ==> store.Tables() == SetLock(old(store.Tables()), found, true, Some(now + LockoutPeriod))
    ensures !locked ==> store.Tables() == ResetStaleCounter(old(store.Tables()), name, now)
  {
    locked := false;
    if name in store.loginAttempts {
      var attempt := store.loginAttempts[name];
      var elapsed := now - attempt.lastAttempt;
      if attempt.attempts >= LockThreshold && elapsed < LockoutPeriod {
        // UPDATE users SET is_locked = TRUE, unlock_time = $1 WHERE username = $2
        if found.Some? && found.value in store.users {
          var row := store.users[found.value];
          store.users := store.users[found.value := row.(isLocked := true, unlockTime := Some(now + LockoutPeriod))];
        }
        return true;
      }
      if elapsed >= LockoutPeriod {
        // UPDATE login_attempts SET attempts = 0, last_attempt = $1 WHERE username = $2
        store.loginAttempts := store.loginAttempts[name := Attempt(0, now)];
      }
    }
  }

  /** The user lookup (with its role) and the password comparison. */
  method LookUpAndCompare(store: Database, name: string, hashed: string, found: Option<int>, now: int,
                          sid: string, encode: JsValue -> string) returns (reply: LoginReply)
    modifies store
    ensures (store.Tables(), reply) == CheckCredentials(old(store.Tables()), name, hashed, found, now, sid, encode)
  {
    // SELECT u.id, u.password, r.role_name FROM users u JOIN user_roles ur JOIN roles r
    if found.None? || found.value !in store.users || found.value !in store.userRoles
       || store.userRoles[found.value] !in store.roles {
      // INSERT INTO login_attempts ... ON CONFLICT (username) DO UPDATE ...
      if name in store.loginAttempts {
        store.loginAttempts := store.loginAttempts[name := Attempt(store.loginAttempts[name].attempts + 1, now)];
      } else {
        store.loginAttempts := store.loginAttempts[name := Attempt(1, now)];
      }
      return InvalidUsername;
    }
    var user := store.users[found.value];
    if user.password != hashed {
      return InvalidPassword;
    }
    var roleName := store.roles[store.userRoles[found.value]];
    return LoginSuccessful(encode(SessionObject(sid, found.value, roleName)));
  }

  /** `DELETE FROM sessions WHERE session_id = $1`; an id that is not a string
      matches no row. */
  function DeleteSession(sessions: map<string, Session>, id: JsValue): (r: map<string, Session>)
    ensures r.Keys <= sessions.Keys && forall k | k in r :: r[k] == sessions[k]
    ensures id.Str? ==> id.s !in r && r.Keys == sessions.Keys - {id.s}
  {
    if id.Str? then sessions - {id.s} else sessions
  }

  /** `GET /logout` with the `main_session` cookie `cookie`; `decode` is the
      base64/`JSON.parse` decoding, `None` when it throws. */
  function LogoutSpec(db: Db, cookie: Option<string>, decode: string -> Option<JsValue>): (r: (Db, LogoutReply))
    ensures r.0 == db.(sessions := r.0.sessions)
    ensures r.1 != LogoutSuccessful ==> r.0 == db
  {
    if !TruthyText(cookie) then (db, NoActiveSession)
    else
      match decode(cookie.value)
      case None => (db, LogoutFailed)
      case Some(data) =>
        if !Destructurable(data) then (db, LogoutFailed)
        else
          var sessionId := Prop(data, "sessionId");
          if !Truthy(sessionId) then (db, InvalidSessionId)
          else (db.(sessions := DeleteSession(db.sessions, sessionId)), LogoutSuccessful)
  }

  method Logout(store: Database, cookie: Option<string>, decode: string -> Option<JsValue>) returns (reply: LogoutReply)
    modifies store
    ensures (store.Tables(), reply) == LogoutSpec(old(store.Tables()), cookie, decode)
  {
    if !TruthyText(cookie) {
      return NoActiveSession;
    }
    var parsed := decode(cookie.value);
    if parsed.None? {
      return LogoutFailed;
    }
    var data := parsed.value;
    if !Destructurable(data) {
      return LogoutFailed;
    }
    var sessionId := Prop(data, "sessionId");
    if !Truthy(sessionId) {
      return InvalidSessionId;
    }
    if sessionId.Str? {
      store.sessions := store.sessions - {sessionId.s};
    }
    return LogoutSuccessful;
  }

  /** `POST /register`: insert the user with the hash of the password, then its
      member role. The insert fails on a taken username (unique constraint),
      after the id default has drawn its value from the sequence; a sequence
      value once drawn is never given back. */
  function RegisterSpec(db: Db, username: Option<string>, password: Option<string>,
                        hash: string -> string): (r: (Db, RegisterReply))
    requires Consistent(db)
    ensures Consistent(r.0)
    ensures r.0 == db.(users := r.0.users, userRoles := r.0.userRoles, nextUserId := r.0.nextUserId)
    ensures r.1 == RegisterMissingFields <==> !TruthyText(username) || !TruthyText(password)
    ensures r.1 == RegisterMissingFields ==> r.0 == db
    ensures r.1 != RegisterMissingFields ==> r.0.nextUserId == db.nextUserId + 1
  {
    if !TruthyText(username) || !TruthyText(password) then (db, RegisterMissingFields)
    else if FindUser(db.users, username.value).Some? then (db.(nextUserId := db.nextUserId + 1), RegisterFailed)
    else
      var id := db.nextUserId;
      var withUser := db.(users := db.users[id := User(username.value, hash(password.value), false, None)],
                          nextUserId := id + 1);
      if id == 0 then (withUser, RegisterFailed)
      else (withUser.(userRoles := withUser.userRoles[id := MemberRoleId]), RegisterSuccessful)
  }

  method Register(store: Database, username: Option<string>, password: Option<string>,
                  hash: string -> string) returns (reply: RegisterReply)
    requires store.Valid()
    modifies store
    ensures store.Valid()
    ensures (store.Tables(), reply) == RegisterSpec(old(store.Tables()), username, password, hash)
  {
    if !TruthyText(username) || !TruthyText(password) {
      return RegisterMissingFields;
    }
    var hashed := hash(password.value);
    // INSERT INTO users (username, password) VALUES ($1, $2) RETURNING id
    if FindUser(store.users, username.value).Some? {
      // the unique violation comes after `nextval` has advanced the sequence
      store.nextUserId := store.nextUserId + 1;
      return RegisterFailed;
    }
    var userId := store.nextUserId;
    store.users := store.users[userId := User(username.value, hashed, false, None)];
    store.nextUserId := store.nextUserId + 1;
    if userId == 0 {
      return RegisterFailed;
    }
    // INSERT INTO user_roles (user_id, role_id) VALUES ($1, 2)
    store.userRoles := store.userRoles[userId := MemberRoleId];
    return RegisterSuccessful;
  }
}
