/** Properties that span several handlers: what a registration makes
    possible at login, what the login cookie is worth at the session gate,
    what logout leaves behind, and what the gate lets reach the admin listing. */
module Flows {
  import opened Wrappers
  import opened Json
  import opened Store
  import opened Auth
  import opened Gate
  import opened Profiles

  /** A fresh registration followed by a login with the same password
      succeeds, and carries the new id and the member role in its cookie; a
      login with a password of a different hash is refused with 401. */
  lemma RegisterThenLogin(db: Db, name: string, password: string, other: string, now: int,
                          sid: string, hash: string -> string, encode: JsValue -> string)
    requires Consistent(db) && name != "" && password != "" && other != ""
    requires FindUser(db.users, name).None? && db.nextUserId != 0 && MemberRoleId in db.roles
    requires !RecentFailures(db.loginAttempts, name, now)
    requires hash(other) != hash(password)
    ensures var registered := RegisterSpec(db, Some(name), Some(password), hash);
            && registered.1 == RegisterSuccessful
            && LoginSpec(registered.0, Some(name), Some(password), now, sid, hash, encode).1
               == LoginSuccessful(encode(SessionObject(sid, db.nextUserId, db.roles[MemberRoleId])))
            && LoginSpec(registered.0, Some(name), Some(other), now, sid, hash, encode).1 == InvalidPassword
  {
    var db' := RegisterSpec(db, Some(name), Some(password), hash).0;
    var id := db.nextUserId;
    assert db'.users[id].username == name;
    assert FindUser(db'.users, name) == Some(id);
    assert ClearExpiredLock(db', Some(id), now) == db';
    var db2 := ResetStaleCounter(db', name, now);
    assert JoinedRole(db2, Some(id)) == Some(db.roles[MemberRoleId]);
  }

  /** Login writes no `sessions` row, so the cookie it hands out is refused
      by the session gate on every non-public path unless a row for its fresh
      `sid` already existed. */
  lemma LoginCookieRefusedByGate(db: Db, name: string, password: string, now: int, sid: string,
                                 hash: string -> string, encode: JsValue -> string,
                                 decode: string -> Option<JsValue>, path: string)
    requires Consistent(db) && sid !in db.sessions && !IsPublicPath(path)
    requires forall v: JsValue :: decode(encode(v)) == Some(v)
    ensures var (db', reply) := LoginSpec(db, Some(name), Some(password), now, sid, hash, encode);
            && db'.sessions == db.sessions
            && (reply.LoginSuccessful? ==> SessionCheck(db'.sessions, path, Some(reply.cookie), decode, now) == Unauthorized)
  {
  }

  /** After a successful logout with a cookie whose `sessionId` and `sid`
      name the same session, replaying that cookie on a non-public path is
      refused with 401. */
  lemma LogoutThenReplayRefused(db: Db, cookie: string, decode: string -> Option<JsValue>,
                                k: string, now: int, path: string)
    requires !IsPublicPath(path) && decode(cookie).Some?
    requires Prop(decode(cookie).value, "sessionId") == Str(k) && Prop(decode(cookie).value, "sid") == Str(k)
    ensures var (db', reply) := LogoutSpec(db, Some(cookie), decode);
            reply == LogoutSuccessful ==> SessionCheck(db'.sessions, path, Some(cookie), decode, now) == Unauthorized
  {
  }

  /** The gate never gives `req.session` a role, so the admin guard of
      `GET /users` answers 401 to every request the gate lets through, and
      the gate answers every other request itself. */
  lemma AdminListingUnreachable(sessions: map<string, Session>, path: string, cookie: Option<string>,
                                decode: string -> Option<JsValue>, now: int)
    ensures var outcome := SessionCheck(sessions, path, cookie, decode, now);
            outcome.Proceed? ==> ListUsersGuard(outcome.session) == ListUnauthorized
  {
  }
}
