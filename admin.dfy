/** Administrator access: the check every admin route makes
    (`validateAdminKey`: the admin key in `X-Admin-Key`, or in
    `Authorization` either a live session token or the admin key itself) and
    the login that issues those session tokens (`handleAdminAuth`).

    Sessions live in the `admin_sessions` table: a token and the instant it
    expires, written as `YYYY-MM-DD HH:MM:SS` and compared with SQLite's
    `datetime('now')` in the same form. Both sides are whole UTC seconds and
    the fixed-width text orders as the instants do, so the model keeps each
    expiry as a count of seconds. */
module Admin {
  import opened Wrappers
  import opened JsText

  /** The key accepted on admin routes when `ADMIN_API_KEY` is not set. */
  const DefaultAdminKey: string := "mk_fnPJ0EJnnHlN4ny69LjBKnH85sz_DfbjxvG85v9sr_s"
  const DefaultUid: string := "admin_user"
  const DefaultEmail: string := "admin@moviedb.com"
  const BearerPrefix: string := "Bearer "
  /** 24 hours, the lifetime of a session. */
  const SessionLifetimeMs := 86400000

  /** The environment variables the admin code reads. */
  datatype AdminEnv = AdminEnv(adminApiKey: Option<string>, adminUid: Option<string>, adminEmail: Option<string>)

  /** The body of a login request: not JSON at all, or an object whose
      `adminKey` field is absent (`None`) or a string. */
  datatype LoginBody = Unparsable | Body(adminKey: Option<string>)

  /** The two storage calls of a login, either of which can throw. */
  datatype LoginStep = InsertSession | SweepSessions

  datatype LoginReply = Refused(status: int) | LoggedIn(uid: string, email: string, token: string)

  /** The key the admin routes compare against: `ADMIN_API_KEY || <built-in key>`. */
  function RouteAdminKey(configured: Option<string>): (k: string)
    ensures k != []
  {
    Or(configured, DefaultAdminKey)
  }

  /** The whole seconds of a millisecond time, as the stored text keeps them. */
  function Seconds(ms: int): int {
    ms / 1000
  }

  /** `expires_at > datetime('now')` for the row of `token`. */
  predicate Live(sessions: map<string, int>, token: string, now: int) {
    token in sessions && sessions[token] > Seconds(now)
  }

  /** `authorization.replace('Bearer ', '').trim()`. */
  function BearerToken(authorization: string): string {
    Trim(ReplaceFirst(authorization, BearerPrefix, ""))
  }

  /** `validateAdminKey`. `sessionReadFails` is a failure of the session query,
      which is logged and otherwise ignored. */
  function ValidateAdminKey(xAdminKey: Option<string>, authorization: Option<string>, configured: Option<string>,
                            sessions: map<string, int>, now: int, sessionReadFails: bool): bool
  {
    var key := RouteAdminKey(configured);
    if Present(xAdminKey) && xAdminKey.value == key then true
    else if !Present(authorization) then false
    else
      var token := BearerToken(authorization.value);
      (!sessionReadFails && Live(sessions, token, now)) || token == key
  }

  /** `DELETE FROM admin_sessions WHERE expires_at < datetime('now')`: exactly
      the rows that expired before this second go, the others keep their
      expiry. */
  function SweepExpired(sessions: map<string, int>, now: int): (r: map<string, int>)
    ensures forall t :: t in r <==> t in sessions && sessions[t] >= Seconds(now)
    ensures forall t :: t in r ==> r[t] == sessions[t]
  {
    map t | t in sessions && sessions[t] >= Seconds(now) :: sessions[t]
  }

  /** `handleAdminAuth`: the reply and the session table afterwards. `token`
      is the fresh `crypto.randomUUID()`. */
  function LoginOutcome(sessions: map<string, int>, body: LoginBody, env: AdminEnv,
                        token: string, now: int, fault: Option<LoginStep>): (LoginReply, map<string, int>)
  {
    if body.Unparsable? then (Refused(500), sessions)
    else if !Present(body.adminKey) then (Refused(400), sessions)
    else if !Present(env.adminApiKey) || body.adminKey.value != env.adminApiKey.value then (Refused(401), sessions)
    else if fault == Some(InsertSession) then (Refused(500), sessions)
    else
      var inserted := sessions[token := Seconds(now + SessionLifetimeMs)];
      if fault == Some(SweepSessions) then (Refused(500), inserted)
      else (LoggedIn(Or(env.adminUid, DefaultUid), Or(env.adminEmail, DefaultEmail), token), SweepExpired(inserted, now))
  }

  /** The `admin_sessions` table, changed in place by logins. */
  class SessionTable {
    var sessions: map<string, int>

    constructor ()
      ensures sessions == map[]
    {
      sessions := map[];
    }

    method Insert(token: string, expiresAt: int)
      modifies this
      ensures sessions == old(sessions)[token := expiresAt]
    {
      sessions := sessions[token := expiresAt];
    }

    method DeleteExpired(now: int)
      modifies this
      ensures sessions == SweepExpired(old(sessions), now)
    {
      sessions := map t | t in sessions && sessions[t] >= Seconds(now) :: sessions[t];
    }

    /** The login handler, one storage call at a time. */
    method Login(body: LoginBody, env: AdminEnv, token: string, now: int, fault: Option<LoginStep>)
      returns (reply: LoginReply)
      modifies this
      ensures (reply, sessions) == LoginOutcome(old(sessions), body, env, token, now, fault)
    {
      if body.Unparsable? {
        return Refused(500);
      }
      if !Present(body.adminKey) {
        return Refused(400);
      }
      var validAdminKey := env.adminApiKey;
      if !Present(validAdminKey) || body.adminKey.value != validAdminKey.value {
        return Refused(401);
      }
      if fault == Some(InsertSession) {
        return Refused(500);
      }
      Insert(token, Seconds(now + SessionLifetimeMs));
      if fault == Some(SweepSessions) {
        return Refused(500);
      }
      DeleteExpired(now);
      reply := LoggedIn(Or(env.adminUid, DefaultUid), Or(env.adminEmail, DefaultEmail), token);
    }
  }

  /** `Bearer <token>` yields the token, whatever it is, as long as it has no
      surrounding spaces. */
  lemma BearerTokenOfHeader(t: string)
    requires IsTrimmed(t)
    ensures BearerToken(BearerPrefix + t) == t
  {
    var h := BearerPrefix + t;
    assert h[..|BearerPrefix|] == BearerPrefix;
    ReplaceFirstAt(h, BearerPrefix, "", 0);
    assert h[|BearerPrefix|..] == t;
    TrimOfTrimmed(t);
  }

  /** The prefix is removed wherever it first occurs, not only at the front:
      `<a>Bearer <t>` yields the trimmed `<a><t>`. */
  lemma BearerRemovedAnywhere(a: string, t: string)
    requires forall j :: 0 <= j < |a| ==> !OccursAt(a + BearerPrefix + t, BearerPrefix, j)
    ensures BearerToken(a + BearerPrefix + t) == Trim(a + t)
  {
    ReplaceFirstBetween(a, BearerPrefix, t, "");
    assert a + "" + t == a + t;
  }

  /** What grants access: the route key in `X-Admin-Key`, or in
      `Authorization` the route key or, when the session query works, a
      token of a session that has not expired. */
  lemma AdminAccessIff(xAdminKey: Option<string>, authorization: Option<string>, configured: Option<string>,
                       sessions: map<string, int>, now: int, sessionReadFails: bool)
    ensures ValidateAdminKey(xAdminKey, authorization, configured, sessions, now, sessionReadFails) <==>
      || xAdminKey == Some(RouteAdminKey(configured))
      || (Present(authorization) &&
           (BearerToken(authorization.value) == RouteAdminKey(configured)
            || (!sessionReadFails && Live(sessions, BearerToken(authorization.value), now))))
  {
  }

  /** Without either header there is no access. */
  lemma NoCredentialsNoAccess(xAdminKey: Option<string>, authorization: Option<string>, configured: Option<string>,
                              sessions: map<string, int>, now: int, sessionReadFails: bool)
    requires !Present(xAdminKey) && !Present(authorization)
    ensures !ValidateAdminKey(xAdminKey, authorization, configured, sessions, now, sessionReadFails)
  {
  }

  /** The admin key sent as a bearer token is accepted even when the session
      table cannot be read. */
  lemma BearerKeyAccepted(configured: Option<string>, sessions: map<string, int>, now: int, sessionReadFails: bool)
    requires IsTrimmed(RouteAdminKey(configured))
    ensures ValidateAdminKey(None, Some(BearerPrefix + RouteAdminKey(configured)), configured, sessions, now, sessionReadFails)
  {
    BearerTokenOfHeader(RouteAdminKey(configured));
  }

  /** With `ADMIN_API_KEY` unset, the built-in key opens every admin route, yet
      no login can succeed: login has no fallback key. */
  lemma BuiltInKeyOpensRoutesButNotLogin(env: AdminEnv, sessions: map<string, int>, body: LoginBody,
                                         token: string, now: int, fault: Option<LoginStep>)
    requires !Present(env.adminApiKey)
    ensures ValidateAdminKey(Some(DefaultAdminKey), None, env.adminApiKey, sessions, now, true)
    ensures LoginOutcome(sessions, body, env, token, now, fault).0.Refused?
  {
  }

  /** A successful login, and a refused one: a refusal changes the table only
      when the failure came after the insert. */
  lemma LoginSucceedsExactly(sessions: map<string, int>, body: LoginBody, env: AdminEnv,
                             token: string, now: int, fault: Option<LoginStep>)
    ensures LoginOutcome(sessions, body, env, token, now, fault).0.LoggedIn? <==>
      body.Body? && Present(body.adminKey) && Present(env.adminApiKey)
      && body.adminKey.value == env.adminApiKey.value && fault.None?
    ensures LoginOutcome(sessions, body, env, token, now, fault).0.Refused? && fault != Some(SweepSessions) ==>
      LoginOutcome(sessions, body, env, token, now, fault).1 == sessions
  {
    if fault.Some? {
      assert fault.value == InsertSession || fault.value == SweepSessions;
    }
  }

  /** A login keeps every session that was still live, with its expiry. */
  lemma LoginKeepsLiveSessions(sessions: map<string, int>, body: LoginBody, env: AdminEnv,
                               token: string, now: int, fault: Option<LoginStep>, other: string)
    requires other != token && Live(sessions, other, now)
    ensures var after := LoginOutcome(sessions, body, env, token, now, fault).1;
      other in after && after[other] == sessions[other]
  {
  }

  /** A live session's token sent as `Bearer <token>` opens the admin routes. */
  lemma LiveBearerAccepted(token: string, configured: Option<string>, sessions: map<string, int>, now: int)
    requires IsTrimmed(token) && Live(sessions, token, now)
    ensures ValidateAdminKey(None, Some(BearerPrefix + token), configured, sessions, now, false)
  {
    BearerTokenOfHeader(token);
  }

  /** Whole seconds never decrease as time goes on. */
  lemma SecondsMonotone(a: int, b: int)
    requires a <= b
    ensures Seconds(a) <= Seconds(b)
  {
  }

  /** A session's expiry is the login second plus 86400, and the last
      millisecond it is live in falls in the second before. */
  lemma ExpirySecond(now: int)
    ensures Seconds(now + SessionLifetimeMs) == Seconds(now) + 86400
    ensures Seconds(now + SessionLifetimeMs - 1000) == Seconds(now) + 86399
  {
    var q, r := now / 1000, now % 1000;
    assert now == q * 1000 + r && 0 <= r < 1000;
    assert now + SessionLifetimeMs == (q + 86400) * 1000 + r;
    assert now + SessionLifetimeMs - 1000 == (q + 86399) * 1000 + r;
  }

  /** The token issued at `now` opens the admin routes, as `Bearer <token>`,
      until 23:59:59 later, and no longer from 24 hours on. */
  lemma SessionLastsOneDay(sessions: map<string, int>, body: LoginBody, env: AdminEnv,
                           token: string, now: int, later: int)
    requires IsTrimmed(token)
    requires LoginOutcome(sessions, body, env, token, now, None).0.LoggedIn?
    ensures var after := LoginOutcome(sessions, body, env, token, now, None).1;
      && (later <= now + SessionLifetimeMs - 1000 ==>
            ValidateAdminKey(None, Some(BearerPrefix + token), env.adminApiKey, after, later, false))
      && (later >= now + SessionLifetimeMs ==> !Live(after, token, later))
  {
    ExpirySecond(now);
    var after := LoginOutcome(sessions, body, env, token, now, None).1;
    var expiry := Seconds(now + SessionLifetimeMs);
    assert after == SweepExpired(sessions[token := expiry], now);
    assert token in after && after[token] == Seconds(now) + 86400;
    if later <= now + SessionLifetimeMs - 1000 {
      SecondsMonotone(later, now + SessionLifetimeMs - 1000);
      LiveBearerAccepted(token, env.adminApiKey, after, later);
    }
    if later >= now + SessionLifetimeMs {
      SecondsMonotone(now + SessionLifetimeMs, later);
    }
  }
}
