/** The admin login endpoint of app/api/admin/login/route.ts: a per-IP table
    of failed attempts (5 failures lock an IP out for 15 minutes after its
    last failure) and the fixed order of early returns of `POST`.
    Token signing and the cookie store are external: a successful login is
    modelled as the cookie the route would set, holding the claims it signs. */
module LoginRoute {
  import opened Wrappers
  import JsText

  const SESSION_DURATION: int := 60 * 60 * 1000
  const MAX_ATTEMPTS: int := 5
  const LOCKOUT_TIME: int := 15 * 60 * 1000

  /** One IP's failed-attempt record. */
  datatype Attempts = Attempts(count: int, lastAttempt: int)

  type Table = map<string, Attempts>

  /** The two request headers the route reads; `None` when a header is absent. */
  datatype Headers = Headers(forwardedFor: Option<string>, realIp: Option<string>)

  /** The environment the route reads at request time. */
  datatype Env = Env(adminPassword: Option<string>, secretKey: Option<string>, production: bool)

  /** The request body: JSON that failed to parse or parsed to `null` (both
      end in the route's catch), or the `password` field of the parsed
      object (`None` when it is missing or null). */
  datatype Body = Malformed | Json(password: Option<string>)

  /** The claims the route signs with the secret key, to expire in one hour. */
  datatype SessionToken = SessionToken(admin: bool, timestamp: int, secret: string, expiresIn: string)

  datatype Cookie = Cookie(name: string, token: SessionToken, httpOnly: bool, secure: bool,
                           sameSite: string, maxAge: int, path: string)

  /** The responses of `POST`, in the order its checks can produce them. */
  datatype Response =
    | TooManyAttempts
    | ConfigurationError
    | PasswordRequired
    | InvalidCredentials
    | Authenticated(cookie: Cookie)
    | InternalError

  function Status(r: Response): int {
    match r
    case TooManyAttempts => 429
    case ConfigurationError => 500
    case PasswordRequired => 400
    case InvalidCredentials => 401
    case Authenticated(_) => 200
    case InternalError => 500
  }

  /** JavaScript truthiness of an optional string: absent and "" are falsy. */
  predicate Truthy(o: Option<string>) {
    o.Some? && o.value != ""
  }

  /** `getClientIP`: the first comma-separated piece of `x-forwarded-for`
      (untrimmed) when it is non-empty, else a non-empty `x-real-ip`, else
      "unknown". */
  function ClientIP(h: Headers): (ip: string)
    ensures ip != ""
    ensures h.forwardedFor.Some? && ip != "unknown" && ip != JsText.Split(h.forwardedFor.value, ',')[0] ==>
              h.realIp == Some(ip)
  {
    if h.forwardedFor.Some? && JsText.Split(h.forwardedFor.value, ',')[0] != "" then
      JsText.Split(h.forwardedFor.value, ',')[0]
    else if Truthy(h.realIp) then h.realIp.value
    else "unknown"
  }

  /** A record is stale strictly more than LOCKOUT_TIME after its last attempt. */
  predicate Stale(a: Attempts, now: int) {
    now - a.lastAttempt > LOCKOUT_TIME
  }

  /** `isRateLimited`: the verdict, and the table after a stale record of
      this IP has been dropped. */
  function LockCheck(t: Table, ip: string, now: int): (r: (bool, Table))
    ensures forall k :: k in r.1 ==> k in t && r.1[k] == t[k]
    ensures forall k :: k in t && k != ip ==> k in r.1
    ensures r.0 ==> r.1 == t && ip in t && t[ip].count >= MAX_ATTEMPTS && !Stale(t[ip], now)
  {
    if ip !in t then (false, t)
    else if Stale(t[ip], now) then (false, t - {ip})
    else (t[ip].count >= MAX_ATTEMPTS, t)
  }

  /** `recordFailedAttempt`: a fresh count of 1 unless a live record exists. */
  function Recorded(t: Table, ip: string, now: int): (r: Table)
    ensures ip in r && r[ip].lastAttempt == now
    ensures ip in t && !Stale(t[ip], now) ==> r[ip].count == t[ip].count + 1
    ensures forall k :: k != ip ==> (k in r <==> k in t)
    ensures forall k :: k != ip && k in t ==> r[k] == t[k]
  {
    if ip !in t || Stale(t[ip], now) then t[ip := Attempts(1, now)]
    else t[ip := Attempts(t[ip].count + 1, now)]
  }

  /** `POST` on the failed-attempt table `t`. The clock is read by the lockout
      check (`checkedAt`) and again, after the body is awaited, when a
      failure is recorded or a token is signed (`now`). */
  function Handle(t: Table, h: Headers, env: Env, body: Body, checkedAt: int, now: int): (r: (Response, Table))
    ensures forall k :: k != ClientIP(h) ==> (k in r.1 <==> k in t)
    ensures forall k :: k != ClientIP(h) && k in t ==> r.1[k] == t[k]
    ensures !r.0.InvalidCredentials? ==> forall k :: k in r.1 ==> k in t && r.1[k] == t[k]
  {
    var ip := ClientIP(h);
    var (limited, t1) := LockCheck(t, ip, checkedAt);
    if limited then (TooManyAttempts, t1)
    else if !Truthy(env.adminPassword) || !Truthy(env.secretKey) then (ConfigurationError, t1)
    else if body.Malformed? then (InternalError, t1)
    else if !Truthy(body.password) then (PasswordRequired, t1)
    else if body.password.value != env.adminPassword.value then (InvalidCredentials, Recorded(t1, ip, now))
    else
      var token := SessionToken(true, now, env.secretKey.value, "1h");
      var cookie := Cookie("admin-token", token, true, env.production, "strict", SESSION_DURATION / 1000, "/");
      (Authenticated(cookie), t1 - {ip})
  }

  /** The table invariant: every record holds between 1 and MAX_ATTEMPTS failures. */
  ghost predicate Bounded(t: Table) {
    forall ip :: ip in t ==> 1 <= t[ip].count <= MAX_ATTEMPTS
  }

  // ---------------------------------------------------------------------
  // Client IP

  /** The client IP is never empty; when `x-forwarded-for` starts with a
      non-empty piece, the IP is exactly that piece: a prefix of the header
      without a comma, followed by a comma or by the end of the header. */
  lemma ClientIPFirstSegment(h: Headers)
    ensures ClientIP(h) != ""
    ensures h.forwardedFor.Some? && h.forwardedFor.value != "" && h.forwardedFor.value[0] != ',' ==>
              var ip := ClientIP(h);
              var f := h.forwardedFor.value;
              ip <= f && ',' !in ip && (ip == f || f[|ip|] == ',')
    ensures (h.forwardedFor.None? || h.forwardedFor.value == "" || h.forwardedFor.value[0] == ',') ==>
              ClientIP(h) == (if Truthy(h.realIp) then h.realIp.value else "unknown")
  {
    if h.forwardedFor.Some? {
      var f := h.forwardedFor.value;
      JsText.SplitHead(f, ',');
      if f != "" && f[0] != ',' {
        assert JsText.Split(f, ',')[0][0] == f[0];
      }
    }
  }

  // ---------------------------------------------------------------------
  // The failed-attempt table

  /** `isRateLimited` drops only a stale record of the asked IP, and locks
      exactly a live record at MAX_ATTEMPTS or more. */
  lemma LockCheckSpec(t: Table, ip: string, now: int)
    ensures LockCheck(t, ip, now).0 <==> ip in t && !Stale(t[ip], now) && t[ip].count >= MAX_ATTEMPTS
    ensures LockCheck(t, ip, now).1 == if ip in t && Stale(t[ip], now) then t - {ip} else t
    ensures forall other :: other != ip ==>
              (other in LockCheck(t, ip, now).1 <==> other in t)
  {
  }

  /** `recordFailedAttempt` stamps the record with `now`, counts one more
      failure on a live record and restarts at 1 otherwise; no other IP's
      record changes. */
  lemma RecordedSpec(t: Table, ip: string, now: int)
    ensures ip in Recorded(t, ip, now)
    ensures Recorded(t, ip, now)[ip].lastAttempt == now
    ensures Recorded(t, ip, now)[ip].count
         == if ip in t && !Stale(t[ip], now) then t[ip].count + 1 else 1
    ensures forall other :: other != ip ==>
              (other in Recorded(t, ip, now) <==> other in t) &&
              (other in t ==> Recorded(t, ip, now)[other] == t[other])
  {
  }

  /** `POST` keeps the table invariant, although the lockout check and the
      recording of a failure read the clock at different times. */
  lemma HandleKeepsBound(t: Table, h: Headers, env: Env, body: Body, checkedAt: int, now: int)
    requires Bounded(t)
    ensures Bounded(Handle(t, h, env, body, checkedAt, now).1)
  {
    var ip := ClientIP(h);
    var (limited, t1) := LockCheck(t, ip, checkedAt);
    var t2 := Handle(t, h, env, body, checkedAt, now).1;
    assert Bounded(t1);
    if t2 != t1 && t2 != t1 - {ip} {
      assert !limited;
      assert t2 == Recorded(t1, ip, now);
      assert ip in t1 ==> t1[ip].count < MAX_ATTEMPTS;
      forall other | other in t2 ensures 1 <= t2[other].count <= MAX_ATTEMPTS {
        if other != ip {
          assert t2[other] == t1[other];
        }
      }
    }
  }

  // ---------------------------------------------------------------------
  // The decision order of POST

  /** A locked-out IP gets 429 before anything else is looked at: whatever the
      configuration and the body, even with the right password, and nothing
      is recorded. */
  lemma LockedOutFirst(t: Table, h: Headers, env: Env, body: Body, checkedAt: int, now: int)
    requires ClientIP(h) in t
    requires !Stale(t[ClientIP(h)], checkedAt) && t[ClientIP(h)].count >= MAX_ATTEMPTS
    ensures Handle(t, h, env, body, checkedAt, now) == (TooManyAttempts, t)
    ensures Status(Handle(t, h, env, body, checkedAt, now).0) == 429
  {
  }

  /** Without the admin password or the signing key the route answers 500,
      whatever password was sent; the table only loses this IP's stale record. */
  lemma MisconfigurationPrecedence(t: Table, h: Headers, env: Env, body: Body, checkedAt: int, now: int)
    requires !LockCheck(t, ClientIP(h), checkedAt).0
    requires !Truthy(env.adminPassword) || !Truthy(env.secretKey)
    ensures Handle(t, h, env, body, checkedAt, now) == (ConfigurationError, LockCheck(t, ClientIP(h), checkedAt).1)
    ensures Status(Handle(t, h, env, body, checkedAt, now).0) == 500
    ensures Status(Handle(t, h, env, body, checkedAt, now).0) != Status(InvalidCredentials)
  {
  }

  /** A configured route answers 400 to a missing or empty password, and
      records nothing. */
  lemma MissingPasswordRejected(t: Table, h: Headers, env: Env, body: Body, checkedAt: int, now: int)
    requires !LockCheck(t, ClientIP(h), checkedAt).0
    requires Truthy(env.adminPassword) && Truthy(env.secretKey)
    requires body.Json? && !Truthy(body.password)
    ensures Handle(t, h, env, body, checkedAt, now) == (PasswordRequired, LockCheck(t, ClientIP(h), checkedAt).1)
    ensures Status(Handle(t, h, env, body, checkedAt, now).0) == 400
  {
  }

  /** A wrong password records exactly one failure for this IP and answers 401. */
  lemma WrongPasswordRecordsOneFailure(t: Table, h: Headers, env: Env, pw: string, checkedAt: int, now: int)
    requires !LockCheck(t, ClientIP(h), checkedAt).0
    requires Truthy(env.adminPassword) && Truthy(env.secretKey)
    requires pw != "" && pw != env.adminPassword.value
    ensures Handle(t, h, env, Json(Some(pw)), checkedAt, now).0 == InvalidCredentials
    ensures Status(InvalidCredentials) == 401
    ensures Handle(t, h, env, Json(Some(pw)), checkedAt, now).1
         == Recorded(LockCheck(t, ClientIP(h), checkedAt).1, ClientIP(h), now)
  {
  }

  /** The right password clears this IP's record, leaves every other record
      alone and sets the `admin-token` cookie for one hour (3600 seconds),
      holding an admin claim stamped with the time of signing. */
  lemma CorrectPasswordIssuesToken(t: Table, h: Headers, env: Env, checkedAt: int, now: int)
    requires !LockCheck(t, ClientIP(h), checkedAt).0
    requires Truthy(env.adminPassword) && Truthy(env.secretKey)
    ensures var (r, t2) := Handle(t, h, env, Json(env.adminPassword), checkedAt, now);
            r.Authenticated? && Status(r) == 200 &&
            r.cookie.name == "admin-token" && r.cookie.maxAge == 3600 &&
            r.cookie.httpOnly && r.cookie.sameSite == "strict" && r.cookie.path == "/" &&
            r.cookie.secure == env.production &&
            r.cookie.token.admin && r.cookie.token.timestamp == now &&
            r.cookie.token.secret == env.secretKey.value &&
            ClientIP(h) !in t2 &&
            forall other :: other != ClientIP(h) ==> (other in t2 <==> other in t) && (other in t2 ==> t2[other] == t[other])
  {
  }

  // ---------------------------------------------------------------------
  // Lockout over a run of requests

  /** The responses and the final table of requests from the same headers,
      each carrying the password `pw`, at the given times (the clock is read
      at the same time twice per request). */
  function Replay(t: Table, h: Headers, env: Env, pw: string, times: seq<int>): (seq<Response>, Table)
    decreases |times|
  {
    if times == [] then ([], t)
    else
      var (r, t1) := Handle(t, h, env, Json(Some(pw)), times[0], times[0]);
      var (rs, t2) := Replay(t1, h, env, pw, times[1..]);
      ([r] + rs, t2)
  }

  /** Consecutive times at most LOCKOUT_TIME apart. */
  predicate CloseTogether(times: seq<int>) {
    forall i :: 0 < i < |times| ==> times[i] - times[i - 1] <= LOCKOUT_TIME
  }

  /** Wrong passwords from an IP whose live record holds `c` failures (none
      when `c` is 0), each within LOCKOUT_TIME of the previous failure, are
      each refused with 401 and add up: the record ends at `c + |times|`
      failures, stamped with the last time. */
  lemma {:induction false} WrongPasswordsAccumulate(t: Table, h: Headers, env: Env, pw: string,
                                                    times: seq<int>, c: int, last: int)
    requires Truthy(env.adminPassword) && Truthy(env.secretKey)
    requires pw != "" && pw != env.adminPassword.value
    requires 0 <= c && c + |times| <= MAX_ATTEMPTS
    requires c == 0 ==> ClientIP(h) !in t
    requires c > 0 ==> ClientIP(h) in t && t[ClientIP(h)] == Attempts(c, last)
    requires c > 0 && |times| > 0 ==> times[0] - last <= LOCKOUT_TIME
    requires CloseTogether(times)
    ensures |Replay(t, h, env, pw, times).0| == |times|
    ensures forall i :: 0 <= i < |times| ==> Replay(t, h, env, pw, times).0[i] == InvalidCredentials
    ensures |times| > 0 ==>
              ClientIP(h) in Replay(t, h, env, pw, times).1 &&
              Replay(t, h, env, pw, times).1[ClientIP(h)] == Attempts(c + |times|, times[|times| - 1])
    decreases |times|
  {
    if times != [] {
      var ip := ClientIP(h);
      var (r, t1) := Handle(t, h, env, Json(Some(pw)), times[0], times[0]);
      assert r == InvalidCredentials;
      assert t1[ip] == Attempts(c + 1, times[0]);
      var rest := times[1..];
      assert CloseTogether(rest) by {
        forall i | 0 < i < |rest| ensures rest[i] - rest[i - 1] <= LOCKOUT_TIME {
          assert rest[i] == times[i + 1] && rest[i - 1] == times[i];
        }
      }
      WrongPasswordsAccumulate(t1, h, env, pw, rest, c + 1, times[0]);
      var (rs, t2) := Replay(t1, h, env, pw, rest);
      assert Replay(t, h, env, pw, times) == ([r] + rs, t2);
      if rest != [] {
        assert rest[|rest| - 1] == times[|times| - 1];
      }
    }
  }

  /** Five wrong passwords from a clean IP, each within 15 minutes of the
      previous one, are all refused with 401 and lock the IP out: until more
      than 15 minutes after the fifth, every request from it gets 429, even
      one with the right password, and the table does not change. */
  lemma FiveFailuresLockOut(t: Table, h: Headers, env: Env, pw: string, times: seq<int>,
                            body: Body, later: int, laterNow: int)
    requires Truthy(env.adminPassword) && Truthy(env.secretKey)
    requires pw != "" && pw != env.adminPassword.value
    requires ClientIP(h) !in t
    requires |times| == MAX_ATTEMPTS && CloseTogether(times)
    requires later - times[MAX_ATTEMPTS - 1] <= LOCKOUT_TIME
    ensures |Replay(t, h, env, pw, times).0| == MAX_ATTEMPTS
    ensures forall i :: 0 <= i < MAX_ATTEMPTS ==> Replay(t, h, env, pw, times).0[i] == InvalidCredentials
    ensures var locked := Replay(t, h, env, pw, times).1;
            Handle(locked, h, env, body, later, laterNow) == (TooManyAttempts, locked)
  {
    WrongPasswordsAccumulate(t, h, env, pw, times, 0, 0);
  }

  /** Once more than LOCKOUT_TIME has passed since the last failure, the right
      password is accepted again and the IP's record is cleared. */
  lemma LockoutExpires(t: Table, h: Headers, env: Env, checkedAt: int, now: int)
    requires Truthy(env.adminPassword) && Truthy(env.secretKey)
    requires ClientIP(h) in t && Stale(t[ClientIP(h)], checkedAt)
    ensures Handle(t, h, env, Json(env.adminPassword), checkedAt, now).0.Authenticated?
    ensures ClientIP(h) !in Handle(t, h, env, Json(env.adminPassword), checkedAt, now).1
  {
  }

  // ---------------------------------------------------------------------
  // The route's module-level state

  /** The route module: its `failedAttempts` map lives as long as the
      server process. */
  class LoginRoute {
    var failedAttempts: Table

    ghost predicate Valid()
      reads this
    {
      Bounded(failedAttempts)
    }

    constructor ()
      ensures Valid() && failedAttempts == map[]
    {
      failedAttempts := map[];
    }

    method IsRateLimited(ip: string, now: int) returns (limited: bool)
      requires Valid()
      modifies this
      ensures Valid()
      ensures (limited, failedAttempts) == LockCheck(old(failedAttempts), ip, now)
    {
      if ip !in failedAttempts {
        return false;
      }
      var attempts := failedAttempts[ip];
      if now - attempts.lastAttempt > LOCKOUT_TIME {
        failedAttempts := failedAttempts - {ip};
        return false;
      }
      return attempts.count >= MAX_ATTEMPTS;
    }

    method RecordFailedAttempt(ip: string, now: int)
      modifies this
      ensures failedAttempts == Recorded(old(failedAttempts), ip, now)
    {
      if ip !in failedAttempts || now - failedAttempts[ip].lastAttempt > LOCKOUT_TIME {
        failedAttempts := failedAttempts[ip := Attempts(1, now)];
      } else {
        failedAttempts := failedAttempts[ip := Attempts(failedAttempts[ip].count + 1, now)];
      }
    }

    method ClearFailedAttempts(ip: string)
      requires Valid()
      modifies this
      ensures Valid()
      ensures failedAttempts == old(failedAttempts) - {ip}
    {
      failedAttempts := failedAttempts - {ip};
    }

    /** One login request, checks in the route's order. */
    method Post(h: Headers, env: Env, body: Body, checkedAt: int, now: int) returns (r: Response)
      requires Valid()
      modifies this
      ensures Valid()
      ensures (r, failedAttempts) == Handle(old(failedAttempts), h, env, body, checkedAt, now)
    {
      HandleKeepsBound(failedAttempts, h, env, body, checkedAt, now);
      var clientIP := ClientIP(h);
      var limited := IsRateLimited(clientIP, checkedAt);
      if limited {
        return TooManyAttempts;
      }
      if !Truthy(env.adminPassword) || !Truthy(env.secretKey) {
        return ConfigurationError;
      }
      if body.Malformed? {
        return InternalError;
      }
      if !Truthy(body.password) {
        return PasswordRequired;
      }
      if body.password.value != env.adminPassword.value {
        RecordFailedAttempt(clientIP, now);
        return InvalidCredentials;
      }
      ClearFailedAttempts(clientIP);
      var token := SessionToken(true, now, env.secretKey.value, "1h");
      r := Authenticated(Cookie("admin-token", token, true, env.production, "strict", SESSION_DURATION / 1000, "/"));
    }
  }
}
