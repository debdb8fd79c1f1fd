/** The authentication manager: the session map and the login log. */
module Auth {
  import opened Prelude
  import opened Sessions
  import L = Logins

  class AuthManager {
    var sessions: map<Token, Session>
    var log: seq<L.Attempt>

    constructor ()
      ensures sessions == Run([]) && log == []
    {
      sessions, log := map[], [];
    }

    method CountRecentFailures(ip: string, now: int) returns (n: nat)
      ensures n == L.RecentFailures(log, ip, now)
    {
      n := 0;
      for i := 0 to |log|
        invariant n == L.RecentFailures(log[..i], ip, now)
      {
        assert log[..i + 1][..i] == log[..i];
        if log[i].ip == ip && !log[i].success && log[i].at > now - L.LOGIN_ATTEMPT_WINDOW {
          n := n + 1;
        }
      }
      assert log[..|log|] == log;
    }

    method LogAttempt(username: string, ip: string, success: bool, now: int)
      modifies this`log
      ensures log == old(log) + [L.Attempt(username, ip, success, now)]
    {
      log := log + [L.Attempt(username, ip, success, now)];
    }

    /** Only a login that succeeds makes a session; one that is locked out from
        the start changes nothing. */
    method Login<E>(call: L.Inputs<E>) returns (r: Result<Token, L.AuthError<E>>)
      modifies this
      ensures (log, r) == L.Attempted(old(log), call)
      ensures r.Ok? <==> call.verified == Ok(true) && !L.LockedOutAt(old(log), call.ip, call.checked)
      ensures sessions == if r.Ok? then Step(old(sessions), Event(call.now, Sessions.Login(call.username, call.token)))
                          else old(sessions)
    {
      L.LoginOutcome(log, call);
      var failures := CountRecentFailures(call.ip, call.checked);
      if failures >= L.MAX_LOGIN_ATTEMPTS {
        return Err(L.LockedOut(L.LOGIN_LOCKOUT));
      }
      if call.verified.Err? {
        return Err(L.Failed(call.verified.error));
      }
      LogAttempt(call.username, call.ip, call.verified.value, call.logged);
      if !call.verified.value {
        var newFailures := CountRecentFailures(call.ip, call.rechecked);
        if newFailures >= L.MAX_LOGIN_ATTEMPTS {
          return Err(L.LockedOut(L.LOGIN_LOCKOUT));
        }
        return Err(L.InvalidCredentials);
      }
      sessions := sessions[call.token := Session(call.username, call.now, call.now)];
      r := Ok(call.token);
    }

    method Logout(token: Token, ghost now: Time)
      modifies this`sessions
      ensures sessions == Step(old(sessions), Event(now, Sessions.Logout(token)))
    {
      sessions := sessions - {token};
    }

    method ValidateSession(token: Token, now: Time) returns (username: Option<string>)
      modifies this`sessions
      ensures sessions == Step(old(sessions), Event(now, Access(token)))
      ensures forall u, created ::
                Grants(old(sessions), token, u, created, now) ==> username == Some(u)
      ensures username.Some? <==> Accepted(old(sessions), token, now)
    {
      if token !in sessions {
        assert sessions == sessions - {token};
        return None;
      }
      var session := sessions[token];
      if now - session.created >= ABSOLUTE_TTL {
        sessions := sessions - {token};
        return None;
      }
      if now - session.lastAccess >= IDLE_TTL {
        sessions := sessions - {token};
        return None;
      }
      sessions := sessions[token := session.(lastAccess := now)];
      username := Some(session.username);
    }

    /** `failure` is why the new password or the old one was refused, if it was. */
    method ChangePassword<E>(username: string, failure: Option<E>, ghost now: Time) returns (r: Result<(), E>)
      modifies this`sessions
      ensures r == if failure.Some? then Err(failure.value) else Ok(())
      ensures sessions == if r.Ok? then Step(old(sessions), Event(now, PasswordChange(username))) else old(sessions)
    {
      if failure.Some? {
        return Err(failure.value);
      }
      sessions := map t | t in sessions && sessions[t].username != username :: sessions[t];
      r := Ok(());
    }

    method CleanupExpiredSessions(now: Time)
      modifies this`sessions
      ensures sessions == Step(old(sessions), Event(now, Cleanup))
    {
      sessions := map t | t in sessions && now - sessions[t].created < ABSOLUTE_TTL
                                        && now - sessions[t].lastAccess < IDLE_TTL :: sessions[t];
    }
  }
}
