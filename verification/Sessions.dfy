/**
 Web sessions: the pruned session map gives the same answers as the whole
 history of logins, accesses, logouts and password changes.
 */
module Sessions {
  import opened Prelude

  type Token = string
  type Time = int

  datatype Session = Session(username: string, created: Time, lastAccess: Time)

  const IDLE_TTL: int := 8 * 3600
  const ABSOLUTE_TTL: int := 24 * 3600

  // ---- The operations on the map ----

  predicate Expired(s: Session, now: Time) {
    now - s.created >= ABSOLUTE_TTL || now - s.lastAccess >= IDLE_TTL
  }

  predicate Accepted(sessions: map<Token, Session>, token: Token, now: Time) {
    token in sessions && !Expired(sessions[token], now)
  }

  /** An access renews the session, or removes it when it has expired. */
  function Accessed(sessions: map<Token, Session>, token: Token, now: Time): map<Token, Session> {
    if Accepted(sessions, token, now) then sessions[token := sessions[token].(lastAccess := now)]
    else sessions - {token}
  }

  function WithoutUser(sessions: map<Token, Session>, username: string): map<Token, Session> {
    map t | t in sessions && sessions[t].username != username :: sessions[t]
  }

  function Unexpired(sessions: map<Token, Session>, now: Time): map<Token, Session> {
    map t | t in sessions && !Expired(sessions[t], now) :: sessions[t]
  }

  // ---- Runs ----

  datatype Action =
    | Login(username: string, token: Token)
    | Access(token: Token)
    | Logout(token: Token)
    | PasswordChange(username: string)
    | Cleanup

  datatype Event = Event(at: Time, action: Action)

  function Step(sessions: map<Token, Session>, e: Event): map<Token, Session> {
    match e.action
    case Login(username, token) => sessions[token := Session(username, e.at, e.at)]
    case Access(token) => Accessed(sessions, token, e.at)
    case Logout(token) => sessions - {token}
    case PasswordChange(username) => WithoutUser(sessions, username)
    case Cleanup => Unexpired(sessions, e.at)
  }

  function Run(h: seq<Event>): map<Token, Session> {
    if h == [] then map[] else Step(Run(h[..|h| - 1]), h[|h| - 1])
  }

  ghost predicate Monotone(h: seq<Event>, now: Time) {
    && (forall i, j :: 0 <= i < j < |h| ==> h[i].at <= h[j].at)
    && (forall i :: 0 <= i < |h| ==> h[i].at <= now)
  }

  ghost predicate FreshTokens(h: seq<Event>) {
    forall i, j :: 0 <= i < j < |h| && h[i].action.Login? && h[j].action.Login? ==>
      h[i].action.token != h[j].action.token
  }

  // ---- What the history says ----

  predicate Uses(e: Event, token: Token) {
    e.action == Access(token) || (e.action.Login? && e.action.token == token)
  }

  predicate Ends(e: Event, token: Token, username: string) {
    e.action == Logout(token) || e.action == PasswordChange(username)
  }

  /** When `token` is next used after event `j`; the use being asked about is at `now`. */
  function NextUse(h: seq<Event>, j: nat, token: Token, now: Time): Time
    requires j < |h|
    decreases |h| - j
  {
    if j + 1 == |h| then now
    else if Uses(h[j + 1], token) then h[j + 1].at
    else NextUse(h, j + 1, token, now)
  }

  /** Event `i` logged `token` in for `username` less than a day ago, nothing
      ended the session, and no gap between two uses, up to `now`, was too long. */
  ghost predicate Alive(h: seq<Event>, i: int, token: Token, username: string, now: Time) {
    && 0 <= i < |h| && h[i].action == Login(username, token)
    && now - h[i].at < 24 * 3600
    && (forall j :: i < j < |h| ==> !Ends(h[j], token, username))
    && (forall j :: i <= j < |h| && Uses(h[j], token) ==> NextUse(h, j, token, now) - h[j].at < 8 * 3600)
  }

  // ---- One event more ----

  lemma {:induction false} NextUseStep(h: seq<Event>, e: Event, j: nat, token: Token, now: Time)
    requires j < |h|
    ensures NextUse(h + [e], j, token, now) == NextUse(h, j, token, if Uses(e, token) then e.at else now)
    decreases |h| - j
  {
    if j + 1 < |h| {
      NextUseStep(h, e, j + 1, token, now);
    } else {
      assert NextUse(h + [e], j + 1, token, now) == now;
    }
  }

  lemma {:induction false} AliveStep(h: seq<Event>, e: Event, i: int, token: Token, username: string, now: Time)
    requires 0 <= i < |h| && e.at <= now
    ensures Alive(h + [e], i, token, username, now) <==>
            && !Ends(e, token, username)
            && now - h[i].at < ABSOLUTE_TTL
            && (Uses(e, token) ==> now - e.at < IDLE_TTL)
            && Alive(h, i, token, username, if Uses(e, token) then e.at else now)
  {
    var g, last := h + [e], if Uses(e, token) then e.at else now;
    forall j | 0 <= j < |h|
      ensures g[j] == h[j] && NextUse(g, j, token, now) == NextUse(h, j, token, last)
    {
      NextUseStep(h, e, j, token, now);
    }
    assert g[|h|] == e && NextUse(g, |h|, token, now) == now;
    if Alive(g, i, token, username, now) {
      assert !Ends(g[|h|], token, username);
      forall j | i <= j < |h| && Uses(h[j], token)
        ensures NextUse(h, j, token, last) - h[j].at < IDLE_TTL
      {
        assert Uses(g[j], token);
      }
      forall j | i < j < |h|
        ensures !Ends(h[j], token, username)
      {
        assert !Ends(g[j], token, username);
      }
    }
  }

  ghost predicate Grants(sessions: map<Token, Session>, token: Token, username: string, created: Time, now: Time) {
    Accepted(sessions, token, now) && sessions[token].username == username && sessions[token].created == created
  }

  /** What an event changes in the answer to a later access. */
  lemma {:induction false} GrantsStep(
    sessions: map<Token, Session>, e: Event, token: Token, username: string, created: Time, now: Time)
    requires e.at <= now && !(e.action.Login? && e.action.token == token)
    ensures Grants(Step(sessions, e), token, username, created, now) <==>
            && !Ends(e, token, username)
            && now - created < ABSOLUTE_TTL
            && (Uses(e, token) ==> now - e.at < IDLE_TTL)
            && Grants(sessions, token, username, created, if Uses(e, token) then e.at else now)
  {
  }

  /** An access succeeds, for a user and a login, exactly when the history has
      that login and it is still alive. */
  lemma {:induction false} AcceptedIffAlive(h: seq<Event>, token: Token, username: string, created: Time, now: Time)
    requires Monotone(h, now) && FreshTokens(h)
    ensures Grants(Run(h), token, username, created, now) <==>
            exists i :: Alive(h, i, token, username, now) && h[i].at == created
    decreases |h|
  {
    if h != [] {
      var before, e := h[..|h| - 1], h[|h| - 1];
      assert h == before + [e];
      var last := if Uses(e, token) then e.at else now;
      AcceptedIffAlive(before, token, username, created, last);
      forall i | 0 <= i < |before|
        ensures Alive(h, i, token, username, now) <==>
            && !Ends(e, token, username)
            && now - h[i].at < ABSOLUTE_TTL
            && (Uses(e, token) ==> now - e.at < IDLE_TTL)
            && Alive(before, i, token, username, last)
      {
        AliveStep(before, e, i, token, username, now);
      }
      if e.action.Login? && e.action.token == token {
        AcceptedAfterLogin(h, token, username, created, now);
      } else {
        GrantsStep(Run(before), e, token, username, created, now);
        assert !Alive(h, |before|, token, username, now);
        if i :| Alive(before, i, token, username, last) && before[i].at == created {
          assert Grants(Step(Run(before), e), token, username, created, now) ==> Alive(h, i, token, username, now);
          assert h[i] == before[i];
        }
        if i :| Alive(h, i, token, username, now) && h[i].at == created {
          assert Alive(before, i, token, username, last) && before[i].at == created;
        }
      }
    }
  }

  lemma {:induction false} AcceptedAfterLogin(h: seq<Event>, token: Token, username: string, created: Time, now: Time)
    requires h != [] && FreshTokens(h)
    requires var e := h[|h| - 1]; e.action.Login? && e.action.token == token
    ensures Grants(Run(h), token, username, created, now) <==>
            exists i :: Alive(h, i, token, username, now) && h[i].at == created
  {
    var e := h[|h| - 1];
    assert NextUse(h, |h| - 1, token, now) == now;
    if Grants(Run(h), token, username, created, now) {
      assert Alive(h, |h| - 1, token, username, now);
    }
    if i :| Alive(h, i, token, username, now) && h[i].at == created {
      assert i == |h| - 1;
      assert Uses(h[i], token);
    }
  }

  // ---- Cleanups ----

  function WithoutCleanups(h: seq<Event>): seq<Event> {
    if h == [] then []
    else WithoutCleanups(h[..|h| - 1]) + if h[|h| - 1].action.Cleanup? then [] else [h[|h| - 1]]
  }

  /** Leaving out every cleanup of a run changes no later answer. */
  lemma {:induction false} CleanupsInvisible(h: seq<Event>, token: Token, username: string, created: Time, now: Time)
    requires Monotone(h, now)
    ensures Grants(Run(h), token, username, created, now)
        <==> Grants(Run(WithoutCleanups(h)), token, username, created, now)
    decreases |h|
  {
    if h != [] {
      var before, e := h[..|h| - 1], h[|h| - 1];
      var kept := WithoutCleanups(before);
      var last := if Uses(e, token) then e.at else now;
      CleanupsInvisible(before, token, username, created, last);
      assert !e.action.Cleanup? ==> (kept + [e])[..|kept|] == kept && Run(kept + [e]) == Step(Run(kept), e);
      assert e.action.Cleanup? ==> WithoutCleanups(h) == kept;
      if !(e.action.Login? && e.action.token == token) {
        GrantsStep(Run(before), e, token, username, created, now);
        GrantsStep(Run(kept), e, token, username, created, now);
      }
    }
  }
}
