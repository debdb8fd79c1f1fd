/** Login attempts and sessions together: a session exists only where a right password was given. */
module AuthHistory {
  import opened Prelude
  import S = Sessions
  import L = Logins

  /** A login attempt, or anything else that touches the sessions. */
  datatype Event<E> = Try(call: L.Inputs<E>) | Other(event: S.Event)

  datatype State = State(sessions: map<S.Token, S.Session>, log: seq<L.Attempt>)

  /** `Login` makes a session exactly when it returns a token. */
  function After<E>(s: State, e: Event<E>): State {
    match e
    case Try(call) =>
      var (log, r) := L.Attempted(s.log, call);
      State(if r.Ok? then S.Step(s.sessions, S.Event(call.now, S.Login(call.username, call.token))) else s.sessions, log)
    case Other(event) => s.(sessions := S.Step(s.sessions, event))
  }

  function Run<E>(h: seq<Event<E>>): State {
    if h == [] then State(map[], []) else After(Run(h[..|h| - 1]), h[|h| - 1])
  }

  ghost predicate OnlyAttemptsLogIn<E>(h: seq<Event<E>>) {
    forall i :: 0 <= i < |h| && h[i].Other? ==> !h[i].event.action.Login?
  }

  /** Event `i` was a call with the right password, from an address that was not
      locked out then, that made this token for this user. */
  ghost predicate Earned<E>(h: seq<Event<E>>, i: int, token: S.Token, session: S.Session) {
    && 0 <= i < |h| && h[i].Try?
    && var call := h[i].call;
    && call.token == token && call.verified == Ok(true)
    && session.username == call.username && session.created == call.now
    && !L.LockedOutAt(Run(h[..i]).log, call.ip, call.checked)
  }

  lemma {:induction false} EarnedBefore<E>(h: seq<Event<E>>, e: Event<E>, i: int, token: S.Token, session: S.Session)
    requires Earned(h, i, token, session)
    ensures Earned(h + [e], i, token, session)
  {
    assert (h + [e])[..i] == h[..i] && (h + [e])[i] == h[i];
  }

  /** Every session there ever is was earned. */
  lemma {:induction false} SessionsAreEarned<E>(h: seq<Event<E>>, token: S.Token)
    requires OnlyAttemptsLogIn(h) && token in Run(h).sessions
    ensures exists i :: Earned(h, i, token, Run(h).sessions[token])
    decreases |h|
  {
    var front, e := h[..|h| - 1], h[|h| - 1];
    assert h == front + [e];
    if e.Try? {
      L.LoginOutcome(Run(front).log, e.call);
    }
    if e.Try? && L.Attempted(Run(front).log, e.call).1.Ok? && e.call.token == token {
      assert h[..|front|] == front;
      assert Earned(h, |front|, token, Run(h).sessions[token]);
    } else {
      SessionsAreEarned(front, token);
      var i :| Earned(front, i, token, Run(front).sessions[token]);
      assert Run(h).sessions[token].username == Run(front).sessions[token].username;
      EarnedBefore(front, e, i, token, Run(h).sessions[token]);
    }
  }

  /** So an access is granted only on a token that a right password made. */
  lemma {:induction false} AccessIsEarned<E>(h: seq<Event<E>>, token: S.Token, username: string, created: S.Time, now: S.Time)
    requires OnlyAttemptsLogIn(h) && S.Grants(Run(h).sessions, token, username, created, now)
    ensures exists i :: Earned(h, i, token, S.Session(username, created, now))
  {
    SessionsAreEarned(h, token);
    var i :| Earned(h, i, token, Run(h).sessions[token]);
    assert Earned(h, i, token, S.Session(username, created, now));
  }
}
