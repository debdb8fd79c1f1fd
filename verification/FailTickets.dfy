/** What a failure ticket says, against the full history of observations. */
module FailTickets {
  import opened Prelude
  import opened Failures
  import opened FailWindow

  /** Event `j` takes the ticket of the host away. */
  ghost predicate Drops(config: FailConfig, h: History, host: string, j: int)
    requires 0 <= j < |h|
  {
    !IsObservation(h, j) && Resets(config, h, host, j)
  }

  /** What was observed of the host among the first `n` events since its ticket
      was last taken away. */
  ghost function Seen(config: FailConfig, h: History, host: string, n: nat): seq<MatchResult>
    requires n <= |h|
  {
    if n == 0 then []
    else if Drops(config, h, host, n - 1) then []
    else
      Seen(config, h, host, n - 1) + if IsObservation(h, n - 1) && HostAt(h, n - 1) == host then [h[n - 1].m] else []
  }

  /** The first value that is known. */
  ghost predicate IsFirstKnown(values: seq<Option<string>>, value: Option<string>) {
    match value
    case None => forall i :: 0 <= i < |values| ==> values[i] == None
    case Some(_) => exists i :: 0 <= i < |values| && values[i] == value && forall j :: 0 <= j < i ==> values[j] == None
  }

  function Ips(seen: seq<MatchResult>): seq<Option<string>> {
    seq(|seen|, i requires 0 <= i < |seen| => seen[i].ip)
  }

  function Users(seen: seq<MatchResult>): seq<Option<string>> {
    seq(|seen|, i requires 0 <= i < |seen| => seen[i].user)
  }

  function AltUsers(seen: seq<MatchResult>): seq<Option<string>> {
    seq(|seen|, i requires 0 <= i < |seen| => seen[i].altUser)
  }

  /** What was seen that was no success. */
  function Attempts(seen: seq<MatchResult>): seq<MatchResult> {
    if seen == [] then []
    else
      var last := seen[|seen| - 1];
      Attempts(seen[..|seen| - 1]) + if last.mlfgained then [] else [last]
  }

  /** The first lines, as many as are kept. */
  ghost predicate AreFirstLines(attempts: seq<MatchResult>, kept: nat, lines: seq<string>) {
    && |lines| == (if |attempts| < kept then |attempts| else kept)
    && forall i :: 0 <= i < |lines| ==> lines[i] == attempts[i].line
  }

  /** What the ticket of a host says about what was seen of it. The MLFID is that
      of the first observation, known or not. */
  ghost predicate Tells(ticket: FailTicket, host: string, seen: seq<MatchResult>, kept: nat) {
    && seen != [] && ticket.host == host
    && IsFirstKnown(Ips(seen), ticket.ip) && IsFirstKnown(Users(seen), ticket.user)
    && IsFirstKnown(AltUsers(seen), ticket.altUser)
    && ticket.mlfid == seen[0].mlfid
    && AreFirstLines(Attempts(seen), kept, ticket.matches)
    && ticket.nofail == (if Attempts(seen) == [] then seen[0] else Attempts(seen)[|Attempts(seen)| - 1]).nofail
  }

  lemma {:induction false} FirstKnownMore(values: seq<Option<string>>, value: Option<string>, next: Option<string>)
    requires IsFirstKnown(values, value)
    ensures IsFirstKnown(values + [next], OrElse(value, next))
  {
    var all := values + [next];
    assert all[|values|] == next && forall i :: 0 <= i < |values| ==> all[i] == values[i];
    if value.None? && next.Some? {
      assert all[|values|] == next && forall j :: 0 <= j < |values| ==> all[j] == None;
    }
  }

  lemma {:induction false} AttemptsMore(seen: seq<MatchResult>, m: MatchResult)
    ensures Attempts(seen + [m]) == Attempts(seen) + if m.mlfgained then [] else [m]
  {
    assert (seen + [m])[..|seen|] == seen;
  }

  lemma {:induction false} LinesMore(attempts: seq<MatchResult>, kept: nat, lines: seq<string>, m: MatchResult)
    requires AreFirstLines(attempts, kept, lines)
    ensures AreFirstLines(attempts + [m], kept, if |lines| < kept then lines + [m.line] else lines)
  {
  }

  lemma {:induction false} ListsMore(seen: seq<MatchResult>, m: MatchResult)
    ensures Ips(seen + [m]) == Ips(seen) + [m.ip]
    ensures Users(seen + [m]) == Users(seen) + [m.user]
    ensures AltUsers(seen + [m]) == AltUsers(seen) + [m.altUser]
  {
  }

  lemma {:induction false} ObservedTells(config: FailConfig, before: FailTicket, host: string, seen: seq<MatchResult>, m: MatchResult,
                                         now: int)
    requires Tells(before, host, seen, config.maxmatches)
    ensures Tells(Observe(config, before, m, now), host, seen + [m], config.maxmatches)
  {
    ListsMore(seen, m);
    FirstKnownMore(Ips(seen), before.ip, m.ip);
    FirstKnownMore(Users(seen), before.user, m.user);
    FirstKnownMore(AltUsers(seen), before.altUser, m.altUser);
    AttemptsMore(seen, m);
    if !m.mlfgained {
      LinesMore(Attempts(seen), config.maxmatches, before.matches, m);
    }
  }

  lemma {:induction false} NewTells(config: FailConfig, host: string, m: MatchResult, now: int)
    ensures Tells(Observe(config, NewTicket(host, m), m, now), host, [m], config.maxmatches)
  {
    assert [] + [m] == [m];
    AttemptsMore([], m);
    ListsMore([], m);
    FirstKnownMore([], None, m.ip);
    FirstKnownMore([], None, m.user);
    FirstKnownMore([], None, m.altUser);
    LinesMore([], config.maxmatches, [], m);
  }

  /** The ticket of the host, if it was seen, tells what was seen. */
  ghost predicate TicketTells(config: FailConfig, s: FailState, host: string, seen: seq<MatchResult>) {
    && (host in s.tickets <==> seen != [])
    && (host in s.tickets ==> Tells(s.tickets[host], host, seen, config.maxmatches))
  }

  lemma {:induction false} ObservationTells(config: FailConfig, s: FailState, m: MatchResult, clock: int, host: string,
                                            seen: seq<MatchResult>)
    requires TicketTells(config, s, host, seen)
    ensures TicketTells(config, AddFailure(config, s, m, clock).0, host,
                        if HostFor(s.mlfids, m) == host then seen + [m] else seen)
  {
    if HostFor(s.mlfids, m) == host {
      if host in s.tickets {
        ObservedTells(config, s.tickets[host], host, seen, m, TimeOf(m, clock));
      } else {
        NewTells(config, host, m, TimeOf(m, clock));
        assert seen + [m] == [m];
      }
    }
  }

  /** A purge takes a ticket away exactly when it starts the count afresh. */
  lemma {:induction false} PurgeDrops(config: FailConfig, h: History, host: string, n: nat)
    requires n < |h| && h[n].Purging?
    ensures var s := Run(config, h[..n]);
            host in s.tickets ==>
              (host in Purge(config, s, h[n].clock).tickets <==> !Drops(config, h, host, n))
  {
    PurgeAgrees(config, h, host, n);
    WindowIsHistory(config, h, host, n);
  }

  lemma {:induction false} StepTells(config: FailConfig, h: History, host: string, n: nat)
    requires n < |h| && TicketTells(config, Run(config, h[..n]), host, Seen(config, h, host, n))
    ensures TicketTells(config, Step(config, Run(config, h[..n]), h[n]), host, Seen(config, h, host, n + 1))
  {
    var s, seen := Run(config, h[..n]), Seen(config, h, host, n);
    assert seen + [] == seen;
    match h[n] {
      case Observation(m, clock) =>
        HostAgrees(config, h, n);
        ObservationTells(config, s, m, clock, host, seen);
      case Purging(_) => PurgeDrops(config, h, host, n);
      case Forget(_) =>
      case Removal(_) =>
    }
  }

  lemma {:induction false} RunAt(config: FailConfig, h: History, n: nat)
    requires n < |h|
    ensures Run(config, h[..n + 1]) == Step(config, Run(config, h[..n]), h[n])
  {
    assert h[..n + 1] == h[..n] + [h[n]];
    RunStep(config, h[..n], h[n]);
  }

  /** There is a ticket of a host exactly when something of it was seen since one
      was taken away. It tells the first known address, user and other user, the
      MLFID of the first observation, the first lines, and whether the last one
      that was no success was no failure either. */
  lemma {:induction false} TicketIsHistory(config: FailConfig, h: History, host: string, n: nat)
    requires n <= |h|
    ensures TicketTells(config, Run(config, h[..n]), host, Seen(config, h, host, n))
  {
    if n > 0 {
      TicketIsHistory(config, h, host, n - 1);
      StepTells(config, h, host, n - 1);
      RunAt(config, h, n - 1);
    }
  }

  /** A trigger reports that ticket. */
  lemma {:induction false} TriggerTells(config: FailConfig, h: History, i: nat)
    requires IsObservation(h, i)
    ensures var r := AddFailure(config, Run(config, h[..i]), h[i].m, h[i].clock).1;
            r.Some? ==> Tells(r.value, HostAt(h, i), Seen(config, h, HostAt(h, i), i + 1), config.maxmatches)
  {
    var host := HostAt(h, i);
    HostAgrees(config, h, i);
    TicketIsHistory(config, h, host, i);
    ObservationTells(config, Run(config, h[..i]), h[i].m, h[i].clock, host, Seen(config, h, host, i));
  }
}
