/** The Basic-auth guard in front of `/metrics` (`metricsAuthMiddleware` in
    backend/index.js), and how it departs from section 2 of RFC 7617. */
module Metrics {
  import opened Wrappers
  import opened Strings

  datatype MetricsVerdict =
    | Granted   // `next()`: the counters are served
    | Denied    // 401 "Unauthorized"
    | Crashed   // a TypeError thrown in the middleware: Express answers 500

  /** `const [username, password] = credentials.split(':')` checked with `===`
      against the configured pair; an unset variable or a missing piece is
      `undefined` (`None`). */
  function CredentialsMatch(credentials: string, user: Option<string>, pass: Option<string>): bool {
    var pieces := Split(credentials, ':');
    Some(pieces[0]) == user && (if |pieces| >= 2 then Some(pieces[1]) else None) == pass
  }

  /** The middleware on the `Authorization` header `header`, with the
      configured `METRICS_USER`/`METRICS_PASSWORD` and `base64` the decoding
      of `Buffer.from(token, 'base64').toString('ascii')`. */
  function MetricsAuth(header: Option<string>, user: Option<string>, pass: Option<string>,
                       base64: string -> string): (r: MetricsVerdict)
    ensures r == Granted ==> header.Some? && Includes(header.value, "Basic") && user.Some?
  {
    if header.None? || !Includes(header.value, "Basic") then Denied
    else
      var words := Split(header.value, ' ');
      if |words| < 2 then Crashed
      else if CredentialsMatch(base64(words[1]), user, pass) then Granted
      else Denied
  }

  /** The credentials the guard accepts for a configured user `u`: exactly `u`
      when no password is configured; otherwise `u:p`, or `u:p:` followed by
      anything, since the pieces after the second are ignored. Neither `u` nor
      `p` may contain a colon. */
  lemma {:induction false} CredentialsMatchIff(credentials: string, user: Option<string>, pass: Option<string>)
    ensures CredentialsMatch(credentials, user, pass) <==>
            && user.Some? && ':' !in user.value
            && (pass.None? ==> credentials == user.value)
            && (pass.Some? ==>
                  && ':' !in pass.value
                  && (|| credentials == user.value + [':'] + pass.value
                      || HasPrefix(credentials, user.value + [':'] + pass.value + [':'])))
  {
    var pieces := Split(credentials, ':');
    if CredentialsMatch(credentials, user, pass) {
      var u := user.value;
      assert pieces[0] == u;
      if |pieces| >= 2 {
        var p := pass.value;
        assert pieces[1] == p;
        assert credentials == u + [':'] + Join(pieces[1..], ':');
        if |pieces| > 2 {
          assert pieces[1..][0] == p && pieces[1..][1..] == pieces[2..];
          var rest := Join(pieces[2..], ':');
          assert Join(pieces[1..], ':') == p + [':'] + rest;
          assert credentials == (u + [':'] + p + [':']) + rest;
        } else {
          assert Join(pieces[1..], ':') == p;
        }
      }
    }
    if user.Some? && ':' !in user.value {
      var u := user.value;
      if pass.None? && credentials == u {
        SplitSeparatorFree(u, ':');
      }
      if pass.Some? && ':' !in pass.value {
        var p := pass.value;
        if credentials == u + [':'] + p {
          SplitAtSeparator(u, ':', p);
          SplitSeparatorFree(p, ':');
        } else if HasPrefix(credentials, u + [':'] + p + [':']) {
          var head := u + [':'] + p + [':'];
          var rest := credentials[|head|..];
          assert credentials == u + [':'] + (p + [':'] + rest);
          SplitAtSeparator(u, ':', p + [':'] + rest);
          SplitAtSeparator(p, ':', rest);
        }
      }
    }
  }

  /** A configured password containing a colon can never be matched. */
  lemma ColonPasswordNeverGranted(header: Option<string>, user: Option<string>, p: string, base64: string -> string)
    requires ':' in p
    ensures MetricsAuth(header, user, Some(p), base64) != Granted
  {
  }

  /** A header that is absent or does not contain `Basic` is answered 401. */
  lemma MissingBasicDenied(header: Option<string>, user: Option<string>, pass: Option<string>,
                           base64: string -> string)
    requires header.None? || !Includes(header.value, "Basic")
    ensures MetricsAuth(header, user, pass, base64) == Denied
  {
  }

  /** Section 2 of RFC 7617 splits user-id and password at the first colon, so
      `u:p` always means user `u` and password `p`; the guard agrees exactly
      when `p` has no colon. */
  lemma Rfc7617Departure(u: string, p: string)
    requires ':' !in u
    ensures SplitAtFirst(u + [':'] + p, ':') == Some((u, p))
    ensures CredentialsMatch(u + [':'] + p, Some(u), Some(p)) <==> ':' !in p
  {
    SplitAtFirstSeparator(u, ':', p);
    CredentialsMatchIff(u + [':'] + p, Some(u), Some(p));
    if ':' in p {
      assert !HasPrefix(u + [':'] + p, u + [':'] + p + [':']);
    }
  }

  /** With `METRICS_PASSWORD` unset, the bare user name without any colon is accepted. */
  lemma UnsetPasswordAcceptsBareUser(header: string, u: string, base64: string -> string)
    requires ':' !in u && Includes(header, "Basic")
    requires |Split(header, ' ')| >= 2 && base64(Split(header, ' ')[1]) == u
    ensures MetricsAuth(Some(header), Some(u), None, base64) == Granted
  {
  }
}
