/** The global session middleware of backend/index.js: the public-path
    allow-list and the cookie/session check every other request must pass. */
module Gate {
  import opened Wrappers
  import opened Json
  import opened Strings
  import opened Store

  /** `isPublicPath`: four exact paths, and any path containing `/courses` or `/authors`. */
  predicate IsPublicPath(path: string) {
    || path == "/login" || path == "/logout" || path == "/metrics" || path == "/"
    || Includes(path, "/courses") || Includes(path, "/authors")
  }

  /** What the middleware stores in `req.session`: `{ userId }`, no role. */
  datatype RequestSession = RequestSession(userId: int, role: Option<string>)

  datatype GateOutcome =
    | Proceed(session: Option<RequestSession>)  // `next()`, with `req.session` as set (None: left unset)
    | Unauthorized                              // 401 "Unauthorized"
    | GateFailed                                // 500 "Internal server error"

  /** The decision of the middleware for a request to `path` carrying the
      `main_session` cookie `cookie`, against the `sessions` table at `now`;
      `decode` is the base64/`JSON.parse` decoding, `None` when it throws. */
  function SessionCheck(sessions: map<string, Session>, path: string, cookie: Option<string>,
                        decode: string -> Option<JsValue>, now: int): (r: GateOutcome)
    ensures r.Proceed? ==> (r.session.None? <==> IsPublicPath(path))
    ensures r.Proceed? && r.session.Some? ==> r.session.value.role.None?
  {
    if IsPublicPath(path) then Proceed(None)
    else if !TruthyText(cookie) then Unauthorized
    else
      match decode(cookie.value)
      case None => GateFailed
      case Some(data) =>
        if !Destructurable(data) then GateFailed
        else
          var sid, userId := Prop(data, "sid"), Prop(data, "userId");
          if !Truthy(sid) || !Truthy(userId) then Unauthorized
          else if !(sid.Str? && sid.s in sessions && sessions[sid.s].expiresAt > now) then Unauthorized
          else if userId != Num(sessions[sid.s].userId) then Unauthorized
          else Proceed(Some(RequestSession(sessions[sid.s].userId, None)))
  }

  /** The middleware itself: it only reads the `sessions` table. */
  method Authenticate(store: Database, path: string, cookie: Option<string>,
                      decode: string -> Option<JsValue>, now: int) returns (outcome: GateOutcome)
    ensures outcome == SessionCheck(store.sessions, path, cookie, decode, now)
  {
    if IsPublicPath(path) {
      return Proceed(None);
    }
    if !TruthyText(cookie) {
      return Unauthorized;
    }
    var parsed := decode(cookie.value);
    if parsed.None? || !Destructurable(parsed.value) {
      return GateFailed;
    }
    var sessionId := Prop(parsed.value, "sid");
    var userId := Prop(parsed.value, "userId");
    if !Truthy(sessionId) || !Truthy(userId) {
      return Unauthorized;
    }
    // SELECT user_id FROM sessions WHERE session_id = $1 AND expires_at > NOW()
    if !sessionId.Str? || sessionId.s !in store.sessions || store.sessions[sessionId.s].expiresAt <= now {
      return Unauthorized;
    }
    var storedUserId := store.sessions[sessionId.s].userId;
    if Num(storedUserId) != userId {
      return Unauthorized;
    }
    return Proceed(Some(RequestSession(storedUserId, None)));
  }

  // ------------------------------------------------------------ properties

  /** `/register` is not public, so registering needs a session cookie, while
      `/users/authors` is public by containment. */
  lemma RegisterIsNotPublic()
    ensures !IsPublicPath("/register")
    ensures IsPublicPath("/users/authors")
  {
    assert OccursAt("/users/authors", "/authors", 6);
    var p := "/register";
    forall j: nat ensures !OccursAt(p, "/courses", j) && !OccursAt(p, "/authors", j) {
      if j + 8 <= |p| {
        assert p[j + 1] != "/courses"[1] && p[j + 1] != "/authors"[1];
      }
    }
  }

  /** Containment, not a prefix test: any path with `/courses` or `/authors`
      anywhere in it is public, `/users/authors` included. */
  lemma ContainingPublicSegmentIsPublic(path: string, j: nat)
    requires OccursAt(path, "/courses", j) || OccursAt(path, "/authors", j)
    ensures IsPublicPath(path)
  {
  }

  /** A public path passes whatever the cookie and the sessions table. */
  lemma PublicPathSkipsCookie(sessions: map<string, Session>, path: string, cookie: Option<string>,
                              decode: string -> Option<JsValue>, now: int)
    requires IsPublicPath(path)
    ensures SessionCheck(sessions, path, cookie, decode, now) == Proceed(None)
  {
  }

  /** A non-public path without a `main_session` cookie is answered 401. */
  lemma MissingCookieUnauthorized(sessions: map<string, Session>, path: string, cookie: Option<string>,
                                  decode: string -> Option<JsValue>, now: int)
    requires !IsPublicPath(path) && !TruthyText(cookie)
    ensures SessionCheck(sessions, path, cookie, decode, now) == Unauthorized
  {
  }

  /** A cookie that does not decode, or decodes to `null`, is answered 500. */
  lemma UndecodableCookieFails(sessions: map<string, Session>, path: string, cookie: string,
                               decode: string -> Option<JsValue>, now: int)
    requires !IsPublicPath(path) && cookie != ""
    requires decode(cookie).None? || decode(cookie) == Some(Null)
    ensures SessionCheck(sessions, path, Some(cookie), decode, now) == GateFailed
  {
  }

  /** A token whose `sid` or `userId` is falsy is answered 401. */
  lemma FalsyTokenFieldUnauthorized(sessions: map<string, Session>, path: string, cookie: string,
                                    decode: string -> Option<JsValue>, now: int)
    requires !IsPublicPath(path) && cookie != ""
    requires decode(cookie).Some? && Destructurable(decode(cookie).value)
    requires !Truthy(Prop(decode(cookie).value, "sid")) || !Truthy(Prop(decode(cookie).value, "userId"))
    ensures SessionCheck(sessions, path, Some(cookie), decode, now) == Unauthorized
  {
  }

  /** The token a request is let through with: its `sid` names a live session
      whose owner is, strictly (`===`), the token's `userId`. */
  ghost predicate Admits(sessions: map<string, Session>, data: JsValue, now: int, s: RequestSession) {
    exists k | k in sessions ::
      && k != ""
      && Prop(data, "sid") == Str(k)
      && sessions[k].expiresAt > now
      && sessions[k].userId != 0
      && Prop(data, "userId") == Num(sessions[k].userId)
      && s == RequestSession(sessions[k].userId, None)
  }

  /** A non-public request is let through with `req.session = s` exactly when
      its cookie decodes to a token that a live session of the same user
      admits; `s` then holds the user id and no role. */
  lemma AcceptedIff(sessions: map<string, Session>, path: string, cookie: string,
                    decode: string -> Option<JsValue>, now: int, s: RequestSession)
    requires !IsPublicPath(path)
    ensures SessionCheck(sessions, path, Some(cookie), decode, now) == Proceed(Some(s))
            <==> cookie != "" && decode(cookie).Some? && Admits(sessions, decode(cookie).value, now, s)
  {
  }
}
