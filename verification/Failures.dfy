/**
 Failure counting in a sliding window. `FailState` is the content of the manager
 as a value, with its operations as functions; module `FailManager` has the
 manager, which updates it in place.
 */
module Failures {
  import opened Prelude
  import opened Numbers

  /** What the filter extracts from a line. */
  datatype MatchResult = MatchResult(
    host: string,
    ip: Option<string>,
    user: Option<string>,
    altUser: Option<string>,
    mlfid: Option<string>,
    timestamp: Option<int>,
    nofail: bool,
    mlfforget: bool,
    mlfgained: bool,
    line: string)

  datatype FailTicket = FailTicket(
    host: string,
    ip: Option<string>,
    user: Option<string>,
    altUser: Option<string>,
    mlfid: Option<string>,
    times: seq<int>,
    matches: seq<string>,
    nofail: bool)

  /** `findtime` is in nanoseconds, like all times. */
  datatype FailConfig = FailConfig(maxretry: nat, findtime: int, maxmatches: nat)

  datatype FailState = FailState(tickets: map<string, FailTicket>, mlfids: map<string, string>)

  /** The host an observation counts for: the first host seen with its MLFID. */
  function HostFor(mlfids: map<string, string>, m: MatchResult): string {
    if m.mlfid.Some? && m.mlfid.value in mlfids then mlfids[m.mlfid.value] else m.host
  }

  function TimeOf(m: MatchResult, clock: int): int {
    if m.timestamp.Some? then m.timestamp.value else clock
  }

  /** The times that are not before the cutoff. */
  function Retain(times: seq<int>, cutoff: int): seq<int> {
    if times == [] then []
    else
      var rest := Retain(times[..|times| - 1], cutoff);
      if times[|times| - 1] >= cutoff then rest + [times[|times| - 1]] else rest
  }

  function NewTicket(host: string, m: MatchResult): FailTicket {
    FailTicket(host, m.ip, m.user, m.altUser, m.mlfid, [], [], m.nofail)
  }

  /** One observation of a ticket's host. */
  function Observe(config: FailConfig, ticket: FailTicket, m: MatchResult, now: int): FailTicket {
    var kept := ticket.(
      times := Retain(ticket.times, now - config.findtime),
      ip := OrElse(ticket.ip, m.ip),
      user := OrElse(ticket.user, m.user),
      altUser := OrElse(ticket.altUser, m.altUser));
    if m.mlfgained then kept.(times := [])
    else kept.(
      times := if m.nofail then kept.times else kept.times + [now],
      matches := if |kept.matches| < config.maxmatches then kept.matches + [m.line] else kept.matches,
      nofail := m.nofail)
  }

  /** Whether an observation that left `times` triggers a ban: the count is a 32-bit number. */
  predicate Triggers(config: FailConfig, m: MatchResult, times: seq<int>) {
    !m.mlfgained && !m.nofail && |times| % U32 >= config.maxretry
  }

  function AddFailure(config: FailConfig, s: FailState, m: MatchResult, clock: int): (FailState, Option<FailTicket>) {
    var host := HostFor(s.mlfids, m);
    var mlfids := if m.mlfid.Some? then s.mlfids[m.mlfid.value := host] else s.mlfids;
    var before := if host in s.tickets then s.tickets[host] else NewTicket(host, m);
    var ticket := Observe(config, before, m, TimeOf(m, clock));
    (FailState(s.tickets[host := ticket], mlfids),
     if Triggers(config, m, ticket.times) then Some(ticket) else None)
  }

  function ForgetMlfid(s: FailState, mlfid: string): FailState {
    s.(mlfids := s.mlfids - {mlfid})
  }

  function Remove(s: FailState, host: string): FailState {
    s.(tickets := s.tickets - {host})
  }

  predicate SomeSince(times: seq<int>, cutoff: int) {
    exists i :: 0 <= i < |times| && times[i] >= cutoff
  }

  function Purge(config: FailConfig, s: FailState, clock: int): FailState {
    s.(tickets := map h | h in s.tickets && SomeSince(s.tickets[h].times, clock - config.findtime) :: s.tickets[h])
  }
}
