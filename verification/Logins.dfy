/**
 Login attempts: five failures from one address within fifteen minutes lock the
 address out, and the log never holds more of them.
 */
module Logins {
  import opened Prelude
  import opened Sessions

  const MAX_LOGIN_ATTEMPTS: nat := 5
  const LOGIN_LOCKOUT: nat := 15 * 60
  const LOGIN_ATTEMPT_WINDOW: nat := 15 * 60

  /** A row of `login_log`. */
  datatype Attempt = Attempt(username: string, ip: string, success: bool, at: int)

  datatype AuthError<E> =
    | InvalidCredentials
    | LockedOut(secsRemaining: nat)
    | Failed(error: E)

  /** What one call reads from outside: its clocks, what verifying the password
      gives, and the token it would make. `checked` is read before `logged`. */
  datatype Inputs<E> = Inputs(
    username: string, ip: string, verified: Result<bool, E>, token: Token,
    checked: int, logged: int, rechecked: int, now: Time)

  predicate FailureBetween(a: Attempt, ip: string, after: int, upTo: int) {
    a.ip == ip && !a.success && after < a.at <= upTo
  }

  /** Failures from `ip` later than `after`, up to `upTo`. */
  function Failures(log: seq<Attempt>, ip: string, after: int, upTo: int): nat {
    if log == [] then 0
    else
      Failures(log[..|log| - 1], ip, after, upTo)
      + if FailureBetween(log[|log| - 1], ip, after, upTo) then 1 else 0
  }

  /** `count_recent_failures`: every failure later than the window before `now`,
      however late. */
  function RecentFailures(log: seq<Attempt>, ip: string, now: int): nat {
    if log == [] then 0
    else
      var a := log[|log| - 1];
      RecentFailures(log[..|log| - 1], ip, now)
      + if a.ip == ip && !a.success && a.at > now - LOGIN_ATTEMPT_WINDOW then 1 else 0
  }

  predicate Locked(log: seq<Attempt>, ip: string, now: int) {
    RecentFailures(log, ip, now) >= MAX_LOGIN_ATTEMPTS
  }

  /** The log after a call, and what the call returns. */
  function Attempted<E>(log: seq<Attempt>, call: Inputs<E>): (seq<Attempt>, Result<Token, AuthError<E>>) {
    if Locked(log, call.ip, call.checked) then (log, Err(LockedOut(LOGIN_LOCKOUT)))
    else if call.verified.Err? then (log, Err(Failed(call.verified.error)))
    else
      var log' := log + [Attempt(call.username, call.ip, call.verified.value, call.logged)];
      if call.verified.value then (log', Ok(call.token))
      else if Locked(log', call.ip, call.rechecked) then (log', Err(LockedOut(LOGIN_LOCKOUT)))
      else (log', Err(InvalidCredentials))
  }

  function LogAfter<E>(calls: seq<Inputs<E>>): seq<Attempt> {
    if calls == [] then [] else Attempted(LogAfter(calls[..|calls| - 1]), calls[|calls| - 1]).0
  }

  lemma {:induction false} WindowIsRecent(log: seq<Attempt>, ip: string, after: int, upTo: int, now: int)
    requires now - LOGIN_ATTEMPT_WINDOW <= after
    ensures Failures(log, ip, after, upTo) <= RecentFailures(log, ip, now)
    decreases |log|
  {
    if log != [] {
      WindowIsRecent(log[..|log| - 1], ip, after, upTo, now);
    }
  }

  // ---- What a call returns ----

  /** Where the log has failures of `ip` later than `after`. */
  function FailedAt(log: seq<Attempt>, ip: string, after: int): set<int> {
    set i | 0 <= i < |log| && log[i].ip == ip && !log[i].success && log[i].at > after
  }

  lemma {:induction false} RecentAreCounted(log: seq<Attempt>, ip: string, now: int)
    ensures RecentFailures(log, ip, now) == |FailedAt(log, ip, now - 900)|
    decreases |log|
  {
    if log == [] {
      assert FailedAt(log, ip, now - 900) == {};
    } else {
      RecentAreCounted(log[..|log| - 1], ip, now);
      FailedAtLast(log[..|log| - 1], log[|log| - 1], ip, now - 900, log);
    }
  }

  lemma {:induction false} FailedAtLast(front: seq<Attempt>, a: Attempt, ip: string, after: int, log: seq<Attempt>)
    requires log == front + [a]
    ensures |FailedAt(log, ip, after)| == |FailedAt(front, ip, after)| + if a.ip == ip && !a.success && a.at > after then 1 else 0
  {
    assert forall i :: 0 <= i < |front| ==> log[i] == front[i];
    if a.ip == ip && !a.success && a.at > after {
      assert FailedAt(log, ip, after) == FailedAt(front, ip, after) + {|front|};
    } else {
      assert FailedAt(log, ip, after) == FailedAt(front, ip, after);
    }
  }

  /** An address is locked out by five failures in the last fifteen minutes. */
  predicate LockedOutAt(log: seq<Attempt>, ip: string, now: int) {
    |FailedAt(log, ip, now - 900)| >= 5
  }

  /** A call gets its token exactly with the right password from an address that
      is not locked out. Otherwise: a lockout before anything else, then the
      failure of the verification, then the refusal of a wrong password, which
      reads as a lockout when it was the fifth. Only a verified call is logged. */
  lemma {:induction false} LoginOutcome<E>(log: seq<Attempt>, call: Inputs<E>)
    ensures var (log', r) := Attempted(log, call);
            var wrong := Attempt(call.username, call.ip, false, call.logged);
            && (r.Ok? <==> call.verified == Ok(true) && !LockedOutAt(log, call.ip, call.checked))
            && (r.Ok? ==> r.value == call.token)
            && (LockedOutAt(log, call.ip, call.checked) ==> log' == log && r == Err(LockedOut(900)))
            && (!LockedOutAt(log, call.ip, call.checked) && call.verified.Err? ==>
                  log' == log && r == Err(Failed(call.verified.error)))
            && (!LockedOutAt(log, call.ip, call.checked) && call.verified.Ok? ==>
                  log' == log + [Attempt(call.username, call.ip, call.verified.value, call.logged)])
            && (!LockedOutAt(log, call.ip, call.checked) && call.verified == Ok(false) ==>
                  r == Err(if LockedOutAt(log + [wrong], call.ip, call.rechecked) then LockedOut(900)
                           else InvalidCredentials))
  {
    RecentAreCounted(log, call.ip, call.checked);
    RecentAreCounted(log + [Attempt(call.username, call.ip, false, call.logged)], call.ip, call.rechecked);
  }

  /** Over any run of calls, one after the other, that each check no later than
      they log, every window of fifteen minutes holds at most five failures of
      an address. The calls may come at any times. */
  lemma {:induction false} WindowsStaySmall<E>(calls: seq<Inputs<E>>, ip: string, start: int)
    requires forall call <- calls :: call.checked <= call.logged
    ensures Failures(LogAfter(calls), ip, start, start + 900) <= 5
    decreases |calls|
  {
    if calls != [] {
      var call, log := calls[|calls| - 1], LogAfter(calls[..|calls| - 1]);
      WindowsStaySmall(calls[..|calls| - 1], ip, start);
      var log' := LogAfter(calls);
      if log' != log {
        var a := Attempt(call.username, call.ip, call.verified.value, call.logged);
        assert log' == log + [a] && log'[..|log|] == log;
        if FailureBetween(a, ip, start, start + LOGIN_ATTEMPT_WINDOW) {
          WindowIsRecent(log, ip, start, start + LOGIN_ATTEMPT_WINDOW, call.checked);
        }
      }
    }
  }

  /** A lockout ends by itself: refused calls log nothing, and once every
      failure is a window old the address is let in again. */
  lemma {:induction false} LockoutEnds<E>(log: seq<Attempt>, call: Inputs<E>)
    requires forall a <- log :: a.ip == call.ip && !a.success ==> a.at + 900 <= call.checked
    requires call.verified == Ok(true)
    ensures Attempted(log, call).1 == Ok(call.token)
  {
    NoneRecent(log, call.ip, call.checked);
  }

  lemma {:induction false} NoneRecent(log: seq<Attempt>, ip: string, now: int)
    requires forall a <- log :: a.ip == ip && !a.success ==> a.at + LOGIN_ATTEMPT_WINDOW <= now
    ensures RecentFailures(log, ip, now) == 0
    decreases |log|
  {
    if log != [] {
      assert log[|log| - 1] in log;
      NoneRecent(log[..|log| - 1], ip, now);
    }
  }

  /** Failures of other addresses do not count. */
  lemma {:induction false} OtherAddresses(log: seq<Attempt>, a: Attempt, ip: string, now: int)
    requires a.ip != ip || a.success
    ensures Locked(log + [a], ip, now) <==> Locked(log, ip, now)
  {
    assert (log + [a])[..|log|] == log;
  }
}
