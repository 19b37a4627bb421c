/** What the `/login`, `/logout` and `/register` handlers of
    backend/auth/index.js promise, stated and proved about `Auth.LoginSpec`,
    `Auth.LogoutSpec` and `Auth.RegisterSpec`. */
module AuthProperties {
  import opened Wrappers
  import opened Json
  import opened Store
  import opened Auth

  // ---------------------------------------------------------------- login

  /** A missing or empty username or password is answered 400 before any table is read. */
  lemma LoginRejectsMissingFields(db: Db, username: Option<string>, password: Option<string>, now: int,
                                  sid: string, hash: string -> string, encode: JsValue -> string)
    requires Consistent(db)
    requires !TruthyText(username) || !TruthyText(password)
    ensures LoginSpec(db, username, password, now, sid, hash, encode) == (db, LoginMissingFields)
  {
  }

  /** While the lock of an account runs, every login for it, whatever the
      password, is answered 429 with the whole seconds left, and nothing changes. */
  lemma LockedAccountRefused(db: Db, name: string, password: string, now: int,
                             sid: string, hash: string -> string, encode: JsValue -> string)
    requires Consistent(db) && name != "" && password != ""
    requires FindUser(db.users, name).Some?
    requires LockActive(db.users[FindUser(db.users, name).value], now)
    ensures var r := LoginSpec(db, Some(name), Some(password), now, sid, hash, encode);
            var unlock := db.users[FindUser(db.users, name).value].unlockTime.value;
            && r.0 == db
            && r.1.AccountLocked?
            && r.1.timeRemaining > 0
            && (r.1.timeRemaining - 1) * 1000 < unlock - now <= r.1.timeRemaining * 1000
  {
  }

  /** An expired lock is lifted before anything else is looked at: afterwards
      the account is unlocked, unless the failure counter locks it again at once
      (for the full period from `now`). */
  lemma ExpiredLockLifted(db: Db, name: string, password: string, now: int,
                          sid: string, hash: string -> string, encode: JsValue -> string)
    requires Consistent(db) && name != "" && password != ""
    requires FindUser(db.users, name).Some?
    requires LockExpired(db.users[FindUser(db.users, name).value], now)
    ensures var id := FindUser(db.users, name).value;
            var r := LoginSpec(db, Some(name), Some(password), now, sid, hash, encode);
            if RecentFailures(db.loginAttempts, name, now) then
              r.0.users[id].isLocked && r.0.users[id].unlockTime == Some(now + LockoutPeriod)
              && r.1 == AccountLocked(900)
            else
              !r.0.users[id].isLocked && r.0.users[id].unlockTime.None? && !r.1.AccountLocked?
  {
  }

  /** A row with `is_locked` set but no unlock time takes neither lock branch:
      the flag stays set and, when the counter does not lock, the right password
      logs in anyway. */
  lemma LockWithoutUnlockTimeIgnored(db: Db, name: string, password: string, now: int,
                                     sid: string, hash: string -> string, encode: JsValue -> string)
    requires Consistent(db) && name != "" && password != ""
    requires FindUser(db.users, name).Some?
    requires var u := db.users[FindUser(db.users, name).value]; u.isLocked && u.unlockTime.None?
    requires !RecentFailures(db.loginAttempts, name, now)
    requires JoinedRole(db, FindUser(db.users, name)).Some?
    requires db.users[FindUser(db.users, name).value].password == hash(password)
    ensures var id := FindUser(db.users, name).value;
            var r := LoginSpec(db, Some(name), Some(password), now, sid, hash, encode);
            r.0.users == db.users && r.0.users[id].isLocked && r.1.LoginSuccessful?
  {
  }

  /** Three or more failures within the last fifteen minutes lock the account
      (if it exists) for fifteen minutes from now and answer 429 with 900
      seconds; the counter row itself is left as it was. */
  lemma RecentFailuresLockAccount(db: Db, name: string, password: string, now: int,
                                  sid: string, hash: string -> string, encode: JsValue -> string)
    requires Consistent(db) && name != "" && password != ""
    requires FindUser(db.users, name).Some? ==> !LockActive(db.users[FindUser(db.users, name).value], now)
    requires RecentFailures(db.loginAttempts, name, now)
    ensures var r := LoginSpec(db, Some(name), Some(password), now, sid, hash, encode);
            && r.1 == AccountLocked(900)
            && r.0.loginAttempts == db.loginAttempts
            && (forall id | id in db.users && db.users[id].username != name :: r.0.users[id] == db.users[id])
            && (forall id | id in db.users && db.users[id].username == name ::
                  r.0.users[id].isLocked && r.0.users[id].unlockTime == Some(now + LockoutPeriod))
  {
  }

  /** A counter older than fifteen minutes restarts from 0 at `now`; only an
      unknown username then counts this attempt on top of it. */
  lemma StaleCounterReset(db: Db, name: string, password: string, now: int,
                          sid: string, hash: string -> string, encode: JsValue -> string)
    requires Consistent(db) && name != "" && password != ""
    requires FindUser(db.users, name).Some? ==> !LockActive(db.users[FindUser(db.users, name).value], now)
    requires StaleCounter(db.loginAttempts, name, now)
    ensures var r := LoginSpec(db, Some(name), Some(password), now, sid, hash, encode);
            && r.0.loginAttempts == db.loginAttempts[name := Attempt(if r.1 == InvalidUsername then 1 else 0, now)]
            && (r.1 == InvalidUsername <==> JoinedRole(db, FindUser(db.users, name)).None?)
  {
  }

  /** The counter row `name` would hold after the stale-counter reset. */
  function CountAfterReset(attempts: map<string, Attempt>, name: string, now: int): int {
    if name in attempts && !StaleCounter(attempts, name, now) then attempts[name].attempts else 0
  }

  /** A username the join does not find is answered 401 and its counter is
      created with 1 or raised by exactly 1, stamped `now`; nothing else in
      `login_attempts` changes. */
  lemma UnknownUsernameCounted(db: Db, name: string, password: string, now: int,
                               sid: string, hash: string -> string, encode: JsValue -> string)
    requires Consistent(db) && name != "" && password != ""
    requires FindUser(db.users, name).Some? ==> !LockActive(db.users[FindUser(db.users, name).value], now)
    requires !RecentFailures(db.loginAttempts, name, now)
    requires JoinedRole(db, FindUser(db.users, name)).None?
    ensures var r := LoginSpec(db, Some(name), Some(password), now, sid, hash, encode);
            && r.1 == InvalidUsername
            && r.0.loginAttempts == db.loginAttempts[name := Attempt(CountAfterReset(db.loginAttempts, name, now) + 1, now)]
  {
  }

  /** For a username the join finds, neither a wrong password (401) nor a
      success touches `login_attempts` beyond the stale-counter reset; a
      success returns the encoded `{ sid, userId, role }` cookie. */
  lemma KnownUserCounterUntouched(db: Db, name: string, password: string, now: int,
                                  sid: string, hash: string -> string, encode: JsValue -> string)
    requires Consistent(db) && name != "" && password != ""
    requires FindUser(db.users, name).Some?
    requires !LockActive(db.users[FindUser(db.users, name).value], now)
    requires !RecentFailures(db.loginAttempts, name, now)
    requires JoinedRole(db, FindUser(db.users, name)).Some?
    ensures var id := FindUser(db.users, name).value;
            var r := LoginSpec(db, Some(name), Some(password), now, sid, hash, encode);
            && r.0.loginAttempts == ResetStaleCounter(db, name, now).loginAttempts
            && r.0.sessions == db.sessions
            && (r.1 == InvalidPassword <==> db.users[id].password != hash(password))
            && (db.users[id].password == hash(password) ==>
                  r.1 == LoginSuccessful(encode(SessionObject(sid, id, JoinedRole(db, Some(id)).value))))
  {
  }

  // --------------------------------------------------- repeated logins

  /** One login attempt in a series: the password typed, the clock, and the
      uuid drawn for the session. */
  datatype Try = Try(password: string, now: int, sid: string)

  /** The replies to logging in as `name` once per try, in order, and the tables after. */
  function LoginSeries(db: Db, name: string, tries: seq<Try>, hash: string -> string,
                       encode: JsValue -> string): (r: (Db, seq<LoginReply>))
    requires Consistent(db)
    ensures Consistent(r.0) && |r.1| == |tries|
    decreases |tries|
  {
    if tries == [] then (db, [])
    else
      var step := LoginSpec(db, Some(name), Some(tries[0].password), tries[0].now, tries[0].sid, hash, encode);
      SameAccountsConsistent(db, step.0);
      var rest := LoginSeries(step.0, name, tries[1..], hash, encode);
      (rest.0, [step.1] + rest.1)
  }

  /** The account `id` is named `name`, has a role, is not locked, and its
      counter is below the threshold. */
  ghost predicate Guessable(db: Db, name: string, id: int) {
    && Consistent(db)
    && FindUser(db.users, name) == Some(id)
    && JoinedRole(db, Some(id)).Some?
    && !db.users[id].isLocked
    && (name in db.loginAttempts ==> db.loginAttempts[name].attempts < LockThreshold)
  }

  /** One login with any password keeps an account guessable and is never answered 429. */
  lemma GuessableStep(db: Db, name: string, id: int, t: Try, hash: string -> string, encode: JsValue -> string)
    requires Guessable(db, name, id)
    ensures var r := LoginSpec(db, Some(name), Some(t.password), t.now, t.sid, hash, encode);
            Guessable(r.0, name, id) && !r.1.AccountLocked?
  {
  }

  /** Wrong passwords are never counted for an existing account: however many
      logins are tried against an unlocked account with a role and fewer than
      three recorded failures, none is ever answered 429. */
  lemma {:induction false} KnownAccountNeverLockedOut(db: Db, name: string, id: int, tries: seq<Try>,
                                                      hash: string -> string, encode: JsValue -> string)
    requires Guessable(db, name, id)
    ensures var r := LoginSeries(db, name, tries, hash, encode);
            Guessable(r.0, name, id) && forall i | 0 <= i < |tries| :: !r.1[i].AccountLocked?
    decreases |tries|
  {
    if tries != [] {
      var step := LoginSpec(db, Some(name), Some(tries[0].password), tries[0].now, tries[0].sid, hash, encode);
      GuessableStep(db, name, id, tries[0], hash, encode);
      KnownAccountNeverLockedOut(step.0, name, id, tries[1..], hash, encode);
    }
  }

  /** Three logins with an unknown username, each within fifteen minutes of the
      one before, make the fourth (again within fifteen minutes) answer 429. */
  lemma UnknownUsernameLockedOnFourthTry(db: Db, name: string, tries: seq<Try>,
                                         hash: string -> string, encode: JsValue -> string)
    requires Consistent(db) && name != ""
    requires FindUser(db.users, name).None? && name !in db.loginAttempts
    requires |tries| == 4 && forall i | 0 <= i < 4 :: tries[i].password != ""
    requires forall i | 0 <= i < 3 :: tries[i + 1].now - tries[i].now < LockoutPeriod
    ensures LoginSeries(db, name, tries, hash, encode).1
            == [InvalidUsername, InvalidUsername, InvalidUsername, AccountLocked(900)]
  {
  }

  // --------------------------------------------------------------- logout

  /** No cookie: 400 and nothing changes. */
  lemma LogoutWithoutCookie(db: Db, cookie: Option<string>, decode: string -> Option<JsValue>)
    requires !TruthyText(cookie)
    ensures LogoutSpec(db, cookie, decode) == (db, NoActiveSession)
  {
  }

  /** A cookie that decodes to an object with a string `sessionId` deletes
      exactly that `sessions` row and answers 200, also when no such row exists. */
  lemma LogoutDeletesThatSession(db: Db, cookie: string, decode: string -> Option<JsValue>, id: string)
    requires cookie != "" && id != ""
    requires decode(cookie).Some? && Prop(decode(cookie).value, "sessionId") == Str(id)
    ensures var r := LogoutSpec(db, Some(cookie), decode);
            && r.1 == LogoutSuccessful
            && r.0 == db.(sessions := db.sessions - {id})
            && (id !in db.sessions ==> r.0 == db)
  {
  }

  /** The cookie `/login` issues carries `sid`, not `sessionId`: logout refuses
      it with 400 and deletes nothing. */
  lemma LogoutRefusesLoginCookie(db: Db, cookie: string, decode: string -> Option<JsValue>,
                                 sid: string, userId: int, role: string)
    requires cookie != ""
    requires decode(cookie) == Some(SessionObject(sid, userId, role))
    ensures LogoutSpec(db, Some(cookie), decode) == (db, InvalidSessionId)
  {
  }

  /** A cookie that does not decode, or decodes to `null`, makes the handler
      throw before any query: 500 and nothing changes. */
  lemma LogoutDecodeFails(db: Db, cookie: string, decode: string -> Option<JsValue>)
    requires cookie != ""
    requires decode(cookie).None? || !Destructurable(decode(cookie).value)
    ensures LogoutSpec(db, Some(cookie), decode) == (db, LogoutFailed)
  {
  }

  /** Any decoded value without a truthy `sessionId` is answered 400 and nothing changes. */
  lemma LogoutNoSessionId(db: Db, cookie: string, decode: string -> Option<JsValue>)
    requires cookie != "" && decode(cookie).Some? && Destructurable(decode(cookie).value)
    requires !Truthy(Prop(decode(cookie).value, "sessionId"))
    ensures LogoutSpec(db, Some(cookie), decode) == (db, InvalidSessionId)
  {
  }

  /** Logging out twice with the same cookie gives the same reply and tables as once. */
  lemma LogoutIdempotent(db: Db, cookie: Option<string>, decode: string -> Option<JsValue>)
    ensures var once := LogoutSpec(db, cookie, decode);
            LogoutSpec(once.0, cookie, decode) == once
  {
    var once := LogoutSpec(db, cookie, decode);
    if TruthyText(cookie) && decode(cookie.value).Some? {
      var data := decode(cookie.value).value;
      var id := Prop(data, "sessionId");
      if Destructurable(data) && Truthy(id) && id.Str? {
        assert once.0.sessions == db.sessions - {id.s};
        assert once.0.sessions - {id.s} == once.0.sessions;
      }
    }
  }

  // ------------------------------------------------------------- register

  /** A missing or empty username or password is answered 400 and nothing is inserted. */
  lemma RegisterRejectsMissingFields(db: Db, username: Option<string>, password: Option<string>,
                                     hash: string -> string)
    requires Consistent(db)
    requires !TruthyText(username) || !TruthyText(password)
    ensures RegisterSpec(db, username, password, hash) == (db, RegisterMissingFields)
  {
  }

  /** A taken username makes the insert fail: 500, no row is inserted, and
      only the id sequence has moved on. */
  lemma RegisterTakenUsernameFails(db: Db, name: string, password: string, hash: string -> string)
    requires Consistent(db) && name != "" && password != ""
    requires exists id | id in db.users :: db.users[id].username == name
    ensures RegisterSpec(db, Some(name), Some(password), hash) == (db.(nextUserId := db.nextUserId + 1), RegisterFailed)
  {
  }

  /** Registering a free username inserts exactly one `users` row, unlocked
      and holding the hash of the password, under a fresh id, and exactly one
      `user_roles` row giving it role 2; no other table changes. */
  lemma RegisterInsertsUserAndRole(db: Db, name: string, password: string, hash: string -> string)
    requires Consistent(db) && name != "" && password != ""
    requires forall id | id in db.users :: db.users[id].username != name
    requires db.nextUserId != 0
    ensures var r := RegisterSpec(db, Some(name), Some(password), hash);
            var id := db.nextUserId;
            && r.1 == RegisterSuccessful
            && id !in db.users && id !in db.userRoles
            && r.0.users == db.users[id := User(name, hash(password), false, None)]
            && |r.0.users| == |db.users| + 1
            && r.0.userRoles == db.userRoles[id := MemberRoleId]
            && r.0 == db.(users := r.0.users, userRoles := r.0.userRoles, nextUserId := id + 1)
  {
  }
}
